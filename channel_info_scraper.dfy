/**
 * `channel_info_scraper.py`: the fields of a channel's "about" panel, and one
 * record per video on the channel's videos tab, each limited to the fields
 * the user chose.
 */
module ChannelInfoScraper {

  import opened Wrappers
  import opened Dom
  import opened PyText
  import opened Records
  import opened NavigationUtils
  import opened UserInputUtils

  /** How a getter reads its node: the stripped text or one attribute, and its not-found message. */
  datatype Field =
    | TextOf(selector: string, message: string)
    | AttributeOf(selector: string, attribute: string, message: string)

  /**
   * The `try` shared by the `get_channel_*` getters: a found node gives its
   * stripped text or the attribute (`None` when absent),
   * `NoSuchElementException` gives the field's message, and any other error,
   * a missing catalog key included, gives `None`.
   */
  function ReadField(scope: Scope, catalog: Catalog, f: Field): Value
  {
    match Locate(scope, catalog, f.selector)
    case Found(e) => if f.TextOf? then Str(Strip(e.text)) else GetAttribute(e, f.attribute)
    case NotFound => Str(f.message)
    case _ => Null
  }

  /**
   * A getter answers `None` exactly when the lookup failed with an error other
   * than a missing node, or the node lacks the attribute read; a missing node
   * gives the message, and a found text is stripped.
   */
  lemma ReadFieldOutcomes(scope: Scope, catalog: Catalog, f: Field)
    ensures ReadField(scope, catalog, f) == Null <==>
      Locate(scope, catalog, f.selector).Timeout? || Locate(scope, catalog, f.selector).OtherError? ||
      (Locate(scope, catalog, f.selector).Found? && f.AttributeOf? &&
       f.attribute !in Locate(scope, catalog, f.selector).value.attributes)
    ensures Locate(scope, catalog, f.selector).NotFound? ==> ReadField(scope, catalog, f) == Str(f.message)
    ensures Locate(scope, catalog, f.selector).Found? && f.TextOf? ==>
      ReadField(scope, catalog, f).Str? && IsStripped(ReadField(scope, catalog, f).s)
  {
  }

  /** The keys of `info_from_channel_functions`, in declaration order. */
  const InfoFields: seq<string> :=
    ["subscribers", "number_of_videos", "full_name", "name", "main_description", "links",
     "country", "registration_date", "total_views", "banner", "profile_picture"]

  /** A channel getter: a plain field of the page, or the main description behind its button. */
  datatype InfoGetter = Plain(field: Field) | MainDescription

  /** The messages the channel getters give when their node is missing. */
  const SubscribersMissing := "Не удалось найти количество подписчиков."
  const NumberOfVideosMissing := "Не удалось найти количество видеороликов."
  const FullNameMissing := "Полное название канала не найдено."
  const NameMissing := "Название канала не найдено."
  const LinksMissing := "Ссылки из описания канала не найдены."
  const CountryMissing := "Страна канала не найдена."
  const RegistrationDateMissing := "Дата регистрации канала не найдена."
  const TotalViewsMissing := "Общее количество просмотров на канале не найдено."
  const BannerMissing := "Баннер канала не найден."
  const ProfilePictureMissing := "Фото профиля канала не найдено."

  /** `info_from_channel_functions`: the getter behind each key, with its selector and message. */
  function InfoGetterOf(name: string): (g: Option<InfoGetter>)
    ensures g.Some? <==> name in InfoFields
  {
    match name
    case "subscribers" => Some(Plain(TextOf("channel_subscribers", SubscribersMissing)))
    case "number_of_videos" => Some(Plain(TextOf("channel_number_videos", NumberOfVideosMissing)))
    case "full_name" => Some(Plain(TextOf("channel_full_name", FullNameMissing)))
    case "name" => Some(Plain(TextOf("channel_name", NameMissing)))
    case "main_description" => Some(MainDescription)
    case "links" => Some(Plain(TextOf("channel_links", LinksMissing)))
    case "country" => Some(Plain(TextOf("channel_country", CountryMissing)))
    case "registration_date" => Some(Plain(TextOf("channel_registration_date", RegistrationDateMissing)))
    case "total_views" => Some(Plain(TextOf("channel_total_views", TotalViewsMissing)))
    case "banner" => Some(Plain(AttributeOf("channel_banner", "src", BannerMissing)))
    case "profile_picture" => Some(Plain(AttributeOf("channel_banner", "src", ProfilePictureMissing)))
    case _ => None
  }

  /** The profile picture is read from the banner's node, so both fields hold the same link. */
  lemma ProfilePictureIsBanner(page: Page, catalog: Catalog)
    ensures var b := Locate(page.find, catalog, "channel_banner");
      b.Found? ==>
        ReadField(page.find, catalog, InfoGetterOf("profile_picture").value.field) ==
        ReadField(page.find, catalog, InfoGetterOf("banner").value.field)
  {
  }

  const MainDescriptionMessage := "Основное описание канала не найдено."

  /**
   * `get_channel_main_description`: click the expand button (an escaping
   * error escapes this getter too), then wait for the description. The wait
   * reports a missing node as a timeout, which the generic handler turns
   * into `None`: the not-found message is unreachable.
   */
  function GetChannelMainDescription(page: Page, catalog: Catalog): Attempt<Value>
  {
    match ClickElement(page, catalog, "channel_description_button")
    case Raised(f) => Raised(f)
    case Returned(_) =>
      match Wait(Locate(page.find, catalog, "channel_main_description"))
      case Found(e) => Returned(Str(Strip(e.text)))
      case NotFound => Returned(Str(MainDescriptionMessage))
      case _ => Returned(Null)
  }

  /**
   * The description getter raises exactly when the click does; otherwise it
   * gives the stripped text of a found description and `None` in every other
   * case, a missing node included.
   */
  lemma MainDescriptionOutcomes(page: Page, catalog: Catalog)
    ensures GetChannelMainDescription(page, catalog).Raised? <==>
      ClickElement(page, catalog, "channel_description_button").Raised?
    ensures GetChannelMainDescription(page, catalog).Raised? ==>
      GetChannelMainDescription(page, catalog).fault == ClickElement(page, catalog, "channel_description_button").fault
    ensures ClickElement(page, catalog, "channel_description_button").Returned? ==>
      GetChannelMainDescription(page, catalog) ==
        if Locate(page.find, catalog, "channel_main_description").Found?
        then Returned(Str(Strip(Locate(page.find, catalog, "channel_main_description").value.text)))
        else Returned(Null)
  {
  }

  /** Calling a channel getter. */
  function RunInfo(g: InfoGetter, page: Page, catalog: Catalog): Attempt<Value>
  {
    match g
    case Plain(f) => Returned(ReadField(page.find, catalog, f))
    case MainDescription => GetChannelMainDescription(page, catalog)
  }

  /** The body of the loop in `scraping_channel_info` for one selected name. */
  function InfoStep(page: Page, catalog: Catalog): string -> Step
  {
    name =>
      match InfoGetterOf(name)
      case None => Skip
      case Some(g) =>
        match RunInfo(g, page, catalog)
        case Returned(v) => Set(v)
        case Raised(f) => Fail(f)
  }

  lemma InfoStepCases(page: Page, catalog: Catalog, name: string)
    ensures InfoGetterOf(name).None? ==> InfoStep(page, catalog)(name) == Skip
    ensures InfoGetterOf(name).Some? && RunInfo(InfoGetterOf(name).value, page, catalog).Returned? ==>
      InfoStep(page, catalog)(name) == Set(RunInfo(InfoGetterOf(name).value, page, catalog).value)
    ensures InfoGetterOf(name).Some? && RunInfo(InfoGetterOf(name).value, page, catalog).Raised? ==>
      InfoStep(page, catalog)(name) == Fail(RunInfo(InfoGetterOf(name).value, page, catalog).fault)
    ensures InfoStep(page, catalog)(name).Fail? ==>
      name == "main_description" && GetChannelMainDescription(page, catalog).Raised?
  {
    var step := InfoStep(page, catalog);
    match InfoGetterOf(name)
    case None =>
      assert step(name) == Skip;
    case Some(g) =>
      var a := RunInfo(g, page, catalog);
      if a.Returned? {
        assert step(name) == Set(a.value);
      } else {
        assert step(name) == Fail(a.fault);
        assert g == MainDescription;
      }
  }

  /**
   * `scraping_channel_info`: collect the selected fields the table knows
   * (unknown names are dropped), then click the close button of the
   * description. The record holds exactly those fields, in the order first
   * selected, each with its getter's value; it raises exactly when the
   * description was selected and its click raised, or the closing click raised.
   */
  method ScrapingChannelInfo(page: Page, catalog: Catalog, sel: seq<string>) returns (r: Attempt<Record>)
    ensures r.Raised? <==>
      ("main_description" in sel && GetChannelMainDescription(page, catalog).Raised?) ||
      ClickElement(page, catalog, "channel_description_close_button").Raised?
    ensures r.Returned? ==> Assemble(Empty, sel, InfoStep(page, catalog)) == Returned(r.value)
    ensures r.Returned? ==>
      Distinct(r.value.keys) &&
      (forall k :: k in r.value.values <==> k in sel && k in InfoFields) &&
      (forall k :: k in r.value.values ==> Returned(r.value.values[k]) == RunInfo(InfoGetterOf(k).value, page, catalog)) &&
      (forall p, q :: 0 <= p < q < |r.value.keys| ==>
        r.value.keys[p] in sel && r.value.keys[q] in sel && IndexOf(sel, r.value.keys[p]) < IndexOf(sel, r.value.keys[q]))
  {
    var step := InfoStep(page, catalog);
    var data := AssembleLoop(Empty, sel, step);
    AssembleRaises(Empty, sel, step);
    InfoRaisesIff(page, catalog, sel);
    if data.Raised? {
      return Raised(data.fault);
    }
    InfoContents(page, catalog, sel);
    var closed := ClickElement(page, catalog, "channel_description_close_button");
    if closed.Raised? {
      return Raised(closed.fault);
    }
    r := data;
  }

  /** Only a selected description whose click raises makes the collection raise. */
  lemma InfoRaisesIff(page: Page, catalog: Catalog, sel: seq<string>)
    ensures (exists i :: 0 <= i < |sel| && InfoStep(page, catalog)(sel[i]).Fail?) <==>
      "main_description" in sel && GetChannelMainDescription(page, catalog).Raised?
  {
    if "main_description" in sel && GetChannelMainDescription(page, catalog).Raised? {
      var i :| 0 <= i < |sel| && sel[i] == "main_description";
      InfoStepCases(page, catalog, sel[i]);
    }
    forall i | 0 <= i < |sel| {
      InfoStepCases(page, catalog, sel[i]);
    }
  }

  /** What a collected channel record holds, when the collection returns. */
  lemma InfoContents(page: Page, catalog: Catalog, sel: seq<string>)
    requires Assemble(Empty, sel, InfoStep(page, catalog)).Returned?
    ensures var d := Assemble(Empty, sel, InfoStep(page, catalog)).value;
      Distinct(d.keys) &&
      (forall k :: k in d.values <==> k in sel && k in InfoFields) &&
      (forall k :: k in d.values ==> Returned(d.values[k]) == RunInfo(InfoGetterOf(k).value, page, catalog)) &&
      (forall p, q :: 0 <= p < q < |d.keys| ==>
        d.keys[p] in sel && d.keys[q] in sel && IndexOf(sel, d.keys[p]) < IndexOf(sel, d.keys[q]))
  {
    var step := InfoStep(page, catalog);
    var d := Assemble(Empty, sel, step).value;
    assert forall i :: 0 <= i < |sel| ==> !step(sel[i]).Fail? by {
      AssembleRaises(Empty, sel, step);
    }
    forall k | k in sel
      ensures step(k).Set? <==> k in InfoFields
      ensures step(k).Set? ==> Returned(step(k).value) == RunInfo(InfoGetterOf(k).value, page, catalog)
    {
      InfoStepCases(page, catalog, k);
    }
    assert (forall k :: k in d.values <==> k in sel && k in InfoFields) &&
      (forall k :: k in d.values ==> Returned(d.values[k]) == RunInfo(InfoGetterOf(k).value, page, catalog)) by {
      AssembleValues(Empty, sel, step);
    }
    assert InSelectionOrder(sel, d.keys, 0) by {
      AssembleOrder(Empty, sel, step);
    }
  }

  /**
   * `info_from_channel_input`: ask until a line is accepted; an empty line
   * selects every channel field.
   */
  method InfoFromChannelInput(lines: seq<string>) returns (selected: seq<string>, consumed: nat)
    requires exists k :: 0 <= k < |lines| && SelectionFromLine(lines[k], InfoFields).Accept?
    ensures 0 < consumed <= |lines|
    ensures SelectionFromLine(lines[consumed - 1], InfoFields) == Accept(selected)
    ensures forall k :: 0 <= k < consumed - 1 ==> SelectionFromLine(lines[k], InfoFields).Reprompt?
    ensures lines[consumed - 1] == "" ==> selected == InfoFields
    ensures forall x :: x in selected ==> x in InfoFields
  {
    selected, consumed := GetFunctionsFromUser(lines, InfoFields);
  }

  /** The keys of `video_from_channel_functions`, in declaration order. */
  const VideoFields: seq<string> := ["title", "url", "views", "release_date", "preview"]

  /** The messages the video getters give when their node is missing. */
  const TitleMissing := "Название видео не найдено."
  const UrlMissing := "Ссылка на видео не найдена."
  const ViewsMissing := "Количество просмотров к видео не найдено."
  const ReleaseDateMissing := "Дата выхода видео не найдена."
  const PreviewMissing := "Превью к видео не найдено."

  /** `video_from_channel_functions`: the field behind each key. */
  function VideoFieldOf(name: string): (f: Option<Field>)
    ensures f.Some? <==> name in VideoFields
  {
    match name
    case "title" => Some(TextOf("channel_video_title", TitleMissing))
    case "url" => Some(AttributeOf("channel_video_url", "href", UrlMissing))
    case "views" => Some(TextOf("channel_video_views", ViewsMissing))
    case "release_date" => Some(TextOf("channel_video_release_date", ReleaseDateMissing))
    case "preview" => Some(AttributeOf("channel_video_preview", "src", PreviewMissing))
    case _ => None
  }

  /**
   * `info_from_channel_video_input`: the same selection prompt over the
   * video fields.
   */
  method InfoFromChannelVideoInput(lines: seq<string>) returns (selected: seq<string>, consumed: nat)
    requires exists k :: 0 <= k < |lines| && SelectionFromLine(lines[k], VideoFields).Accept?
    ensures 0 < consumed <= |lines|
    ensures SelectionFromLine(lines[consumed - 1], VideoFields) == Accept(selected)
    ensures forall k :: 0 <= k < consumed - 1 ==> SelectionFromLine(lines[k], VideoFields).Reprompt?
    ensures lines[consumed - 1] == "" ==> selected == VideoFields
    ensures forall x :: x in selected ==> x in VideoFields
  {
    selected, consumed := GetFunctionsFromUser(lines, VideoFields);
  }

  /**
   * What `get_channel_all_video_elements` hands back: the nodes, its
   * not-found message (a `str`), or `None` after any other error.
   */
  datatype VideoListing = Nodes(nodes: seq<Scope>) | Message(text: string) | NoListing

  const NoVideosMessage := "Не удалось найти ни одного элемента видеороликов."

  /** `get_channel_all_video_elements`; a missing catalog key is caught by the generic handler. */
  function GetChannelAllVideoElements(page: Page, catalog: Catalog): VideoListing
  {
    if "channel_all_videos" !in catalog then NoListing
    else
      match page.findAll(catalog["channel_all_videos"])
      case Found(nodes) => Nodes(nodes)
      case NotFound => Message(NoVideosMessage)
      case _ => NoListing
  }

  /** A character of the message string: `find_element` on it raises, and every getter answers `None`. */
  const Character: Scope := css => OtherError

  /** One `Character` per character of the message. */
  function CharacterScopes(n: nat): (r: seq<Scope>)
    ensures |r| == n && forall i :: 0 <= i < n ==> r[i] == Character
  {
    if n == 0 then [] else CharacterScopes(n - 1) + [Character]
  }

  /**
   * What the loop of `scraping_channel_videos` iterates over: the nodes, the
   * characters of a message, or nothing at all because `len(None)` raises `TypeError`.
   */
  function Items(listing: VideoListing): Attempt<seq<Scope>>
  {
    match listing
    case Nodes(nodes) => Returned(nodes)
    case Message(text) => Returned(CharacterScopes(|text|))
    case NoListing => Raised(TypeError)
  }

  /** The body of the field loop of `scraping_channel_videos` for one selected name. */
  function VideoStep(video: Scope, catalog: Catalog): string -> Step
  {
    name =>
      match VideoFieldOf(name)
      case None => Skip
      case Some(f) => Set(ReadField(video, catalog, f))
  }

  lemma VideoStepCases(video: Scope, catalog: Catalog, name: string)
    ensures VideoFieldOf(name).None? ==> VideoStep(video, catalog)(name) == Skip
    ensures VideoFieldOf(name).Some? ==> VideoStep(video, catalog)(name) == Set(ReadField(video, catalog, VideoFieldOf(name).value))
  {
  }

  /**
   * A video record never raises, and holds exactly the selected names the
   * table knows, in the order first selected, each with its getter's value.
   */
  lemma VideoContents(video: Scope, catalog: Catalog, sel: seq<string>)
    ensures var a := Assemble(Empty, sel, VideoStep(video, catalog));
      a.Returned? && Distinct(a.value.keys) &&
      (forall k :: k in a.value.values <==> k in sel && k in VideoFields) &&
      (forall k :: k in a.value.values ==> a.value.values[k] == ReadField(video, catalog, VideoFieldOf(k).value)) &&
      (forall p, q :: 0 <= p < q < |a.value.keys| ==>
        a.value.keys[p] in sel && a.value.keys[q] in sel && IndexOf(sel, a.value.keys[p]) < IndexOf(sel, a.value.keys[q]))
  {
    var step := VideoStep(video, catalog);
    forall k ensures !step(k).Fail? && (step(k).Set? <==> k in VideoFields) {
      VideoStepCases(video, catalog, k);
    }
    AssembleRaises(Empty, sel, step);
    AssembleValues(Empty, sel, step);
    AssembleKeys(Empty, sel, step);
    AssembleOrder(Empty, sel, step);
    forall k | k in sel && k in VideoFields
      ensures step(k).value == ReadField(video, catalog, VideoFieldOf(k).value)
    {
      VideoStepCases(video, catalog, k);
    }
  }

  /**
   * `scraping_channel_videos`: page down until the offset settles, list the
   * videos, and build one record per item, in item order.
   */
  method ScrapingChannelVideos(offsets: seq<int>, page: Page, catalog: Catalog, sel: seq<string>)
    returns (r: Attempt<seq<Record>>, presses: nat)
    requires Settles(offsets)
    ensures SettlesAt(offsets, presses)
    ensures var items := Items(GetChannelAllVideoElements(page, catalog));
      (items.Raised? ==> r == Raised(TypeError)) &&
      (items.Returned? ==>
        r.Returned? && |r.value| == |items.value| &&
        forall i :: 0 <= i < |items.value| ==> Returned(r.value[i]) == Assemble(Empty, sel, VideoStep(items.value[i], catalog)))
  {
    presses := ScrollSeleniumKeys(offsets);
    var items := Items(GetChannelAllVideoElements(page, catalog));
    if items.Raised? {
      return Raised(items.fault), presses;
    }
    var videos := items.value;
    var data := [];
    var i := 0;
    while i < |videos|
      invariant 0 <= i <= |videos| && |data| == i
      invariant forall k :: 0 <= k < i ==> Returned(data[k]) == Assemble(Empty, sel, VideoStep(videos[k], catalog))
    {
      var record := AssembleLoop(Empty, sel, VideoStep(videos[i], catalog));
      assert record.Returned? by { VideoContents(videos[i], catalog, sel); }
      ghost var data0 := data;
      data := data + [record.value];
      forall k | 0 <= k <= i ensures Returned(data[k]) == Assemble(Empty, sel, VideoStep(videos[k], catalog)) {
        if k < i {
          assert data[k] == data0[k];
        }
      }
      i := i + 1;
    }
    r := Returned(data);
  }

  /**
   * When the listing is the not-found message, each of its characters becomes
   * a record whose every selected field is `None`.
   */
  lemma MessageGivesEmptyFields(catalog: Catalog, sel: seq<string>, text: string, i: nat)
    requires i < |text|
    ensures var items := Items(Message(text));
      |items.value| == |text| &&
      var a := Assemble(Empty, sel, VideoStep(items.value[i], catalog));
      a.Returned? && forall k :: k in a.value.values ==> a.value.values[k] == Null
  {
    var items := Items(Message(text));
    assert items.value[i] == Character;
    VideoContents(Character, catalog, sel);
    var a := Assemble(Empty, sel, VideoStep(Character, catalog));
    forall k | k in a.value.values ensures a.value.values[k] == Null {
      assert Locate(Character, catalog, VideoFieldOf(k).value.selector) == OtherError;
    }
  }
}
