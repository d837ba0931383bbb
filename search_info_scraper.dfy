/**
 * `search_info_scraper.py`: one record per video of a search results page,
 * holding the fields the user chose, plus a derived video type.
 */
module SearchInfoScraper {

  import opened Wrappers
  import opened Dom
  import opened PyText
  import opened Records
  import opened ElementUtils
  import opened NavigationUtils
  import opened UserInputUtils

  /** How a table entry reads its value from a listing item. */
  datatype Getter = Text(selector: string) | Attribute(selector: string, attribute: string)

  /** The keys of `search_video_functions`, in declaration order. */
  const SearchVideoFields: seq<string> :=
    ["name", "url", "views", "release_date", "channel_name", "channel_url", "preview"]

  /** `search_video_functions`: the getter behind each key. */
  function SearchVideoGetter(name: string): Option<Getter>
  {
    match name
    case "name" => Some(Text("search_video_title"))
    case "url" => Some(Attribute("search_video_url", "href"))
    case "views" => Some(Text("search_video_views"))
    case "release_date" => Some(Text("search_video_release_date"))
    case "channel_name" => Some(Text("search_video_channel_name"))
    case "channel_url" => Some(Attribute("search_video_channel_url", "href"))
    case "preview" => Some(Attribute("search_video_preview", "src"))
    case _ => None
  }

  /** The table has a getter exactly for the names it declares. */
  lemma GetterKeys(name: string)
    ensures SearchVideoGetter(name).Some? <==> name in SearchVideoFields
  {
  }

  /** Calling a getter on one listing item. */
  function Run(g: Getter, video: Scope, catalog: Catalog): Value
  {
    match g
    case Text(selector) => Str(GetElementText(video, catalog, selector))
    case Attribute(selector, attribute) => GetElementAttribute(video, catalog, selector, attribute)
  }

  /** `get_search_video_url`. */
  function VideoUrl(video: Scope, catalog: Catalog): Value
  {
    Run(SearchVideoGetter("url").value, video, catalog)
  }

  /** `get_search_video_release_date`. */
  function ReleaseDate(video: Scope, catalog: Catalog): string
  {
    GetElementText(video, catalog, "search_video_release_date")
  }

  datatype VideoType = Shorts | Live | Video | Unknown

  /** The strings the scraper stores for each type. */
  function TypeName(t: VideoType): string
  {
    match t
    case Shorts => "Shorts"
    case Live => "Live"
    case Video => "Video"
    case Unknown => "Неизвестно"
  }

  /**
   * `_get_search_video_type`: a url containing `/shorts` wins; otherwise a
   * missing release date, or one saying `Не найдено`, means a live stream. A
   * url that is `None` makes `re.search` raise, which is caught as unknown.
   */
  function SearchVideoType(url: Value, releaseDate: string): (t: VideoType)
    ensures t == Unknown <==> url.Null?
    ensures t == Shorts <==> url.Str? && Contains(url.s, "/shorts")
    ensures t == Live <==>
      url.Str? && !Contains(url.s, "/shorts") && (releaseDate == "" || Contains(releaseDate, "Не найдено"))
  {
    match url
    case Null => Unknown
    case Str(u) =>
      if Contains(u, "/shorts") then Shorts
      else if Contains(releaseDate, "Не найдено") || releaseDate == "" then Live
      else Video
  }

  /** A shorts url decides the type whatever the release date says. */
  lemma ShortsIgnoresDate(url: string, date1: string, date2: string)
    requires Contains(url, "/shorts")
    ensures SearchVideoType(Str(url), date1) == SearchVideoType(Str(url), date2) == Shorts
  {
  }

  /** A url that could not be read (`''`) is never a shorts url: the date decides. */
  lemma UnreadUrlDecidedByDate(date: string)
    ensures SearchVideoType(Str(""), date) == (if date == "" || Contains(date, "Не найдено") then Live else Video)
  {
    assert !Occurs("", "/shorts", 0);
  }

  /**
   * The body of the loop over the selected names, as the fresh values it
   * stores: the type, any table field, and nothing for an unknown name.
   */
  function SearchStep(video: Scope, catalog: Catalog): string -> Step
  {
    name => SearchValue(video, catalog, name)
  }

  /** What the loop body stores for one name. */
  function SearchValue(video: Scope, catalog: Catalog, name: string): Step
  {
    if name == "type" then Set(Str(TypeName(SearchVideoType(VideoUrl(video, catalog), ReleaseDate(video, catalog)))))
    else if SearchVideoGetter(name).Some? then Set(Run(SearchVideoGetter(name).value, video, catalog))
    else Skip
  }

  /** The requested table fields that are not cached, in the order requested. */
  function Uncached(sel: seq<string>): (r: seq<string>)
    ensures forall x :: x in r ==> x in SearchVideoFields && x != "url" && x != "release_date"
  {
    if sel == [] then []
    else
      var last := sel[|sel| - 1];
      if last in SearchVideoFields && last != "url" && last != "release_date"
      then Uncached(sel[..|sel| - 1]) + [last]
      else Uncached(sel[..|sel| - 1])
  }

  /** Whether one name is read when it comes up. */
  lemma UncachedOne(name: string)
    ensures Uncached([name]) ==
      if SearchVideoGetter(name).Some? && name != "url" && name != "release_date" then [name] else []
  {
    assert [name][..0] == [];
  }

  lemma UncachedSnoc(sel: seq<string>, j: nat)
    requires j < |sel|
    ensures Uncached(sel[..j + 1]) == Uncached(sel[..j]) + Uncached([sel[j]])
  {
    assert sel[..j + 1][..j] == sel[..j];
    assert [sel[j]][..0] == [];
  }

  /** Every other table field is read as many times as it is requested. */
  lemma {:induction false} UncachedCounts(sel: seq<string>, x: string)
    requires x in SearchVideoFields && x != "url" && x != "release_date"
    ensures multiset(Uncached(sel))[x] == multiset(sel)[x]
  {
    if sel != [] {
      var p := sel[..|sel| - 1];
      assert sel == p + [sel[|sel| - 1]];
      UncachedCounts(p, x);
    }
  }

  /** The url and the release date are read exactly once per item, requested or not. */
  lemma CachedFieldsReadOnce(sel: seq<string>)
    ensures multiset(["url", "release_date"] + Uncached(sel))["url"] == 1
    ensures multiset(["url", "release_date"] + Uncached(sel))["release_date"] == 1
  {
    assert "url" !in multiset(Uncached(sel));
    assert "release_date" !in multiset(Uncached(sel));
  }

  /** What the loop body stores for one name, with the url and the release date read beforehand. */
  lemma SearchStepCases(video: Scope, catalog: Catalog, name: string)
    ensures name == "type" ==>
      SearchStep(video, catalog)(name) == Set(Str(TypeName(SearchVideoType(VideoUrl(video, catalog), ReleaseDate(video, catalog)))))
    ensures name == "url" ==> SearchStep(video, catalog)(name) == Set(VideoUrl(video, catalog))
    ensures name == "release_date" ==> SearchStep(video, catalog)(name) == Set(Str(ReleaseDate(video, catalog)))
    ensures name != "type" && SearchVideoGetter(name).Some? ==>
      SearchStep(video, catalog)(name) == Set(Run(SearchVideoGetter(name).value, video, catalog))
    ensures name != "type" && SearchVideoGetter(name).None? ==> SearchStep(video, catalog)(name) == Skip
  {
    var s := SearchStep(video, catalog)(name);
    if name == "type" {
      assert s == Set(Str(TypeName(SearchVideoType(VideoUrl(video, catalog), ReleaseDate(video, catalog)))));
    } else if SearchVideoGetter(name).Some? {
      assert s == Set(Run(SearchVideoGetter(name).value, video, catalog));
    } else {
      assert s == Skip;
    }
  }

  /**
   * One pass of the loop body of `scraping_search_video`: the value stored
   * for `name`, reusing the url, the release date and the type computed for
   * the item; `fetched` is the getter called, if any.
   */
  method ReadField(video: Scope, catalog: Catalog, url: Value, releaseDate: string, videoType: VideoType, name: string)
    returns (s: Step, fetched: seq<string>)
    requires url == VideoUrl(video, catalog) && releaseDate == ReleaseDate(video, catalog)
    requires videoType == SearchVideoType(url, releaseDate)
    ensures s == SearchValue(video, catalog, name)
    ensures fetched == Uncached([name])
  {
    s, fetched := Skip, [];
    if name == "type" {
      s := Set(Str(TypeName(videoType)));
    } else if SearchVideoGetter(name).Some? {
      if name == "url" {
        s := Set(url);
      } else if name == "release_date" {
        s := Set(Str(releaseDate));
      } else {
        s := Set(Run(SearchVideoGetter(name).value, video, catalog));
        fetched := [name];
      }
    }
    assert fetched == Uncached([name]) by { UncachedOne(name); }
  }

  /** One pass of the loop below keeps both of its invariants. */
  lemma ItemStep(video: Scope, catalog: Catalog, sel: seq<string>, j: nat, prev: Record, s: Step,
                 fetched: seq<string>, later: seq<string>, record: Record)
    requires j < |sel| && Assemble(Empty, sel[..j], SearchStep(video, catalog)) == Returned(prev)
    requires later == Uncached(sel[..j])
    requires s == SearchValue(video, catalog, sel[j]) && fetched == Uncached([sel[j]])
    requires record == if s.Set? then Put(prev, sel[j], s.value) else prev
    ensures Assemble(Empty, sel[..j + 1], SearchStep(video, catalog)) == Returned(record)
    ensures later + fetched == Uncached(sel[..j + 1])
  {
    AssembleSnoc(Empty, sel, SearchStep(video, catalog), j, prev);
    UncachedSnoc(sel, j);
  }

  /**
   * One item of `scraping_search_video`: the url and the release date are
   * read first and reused; every other requested field is read when its name
   * comes up. `read` lists the getters called, in order.
   */
  method ScrapeSearchItem(video: Scope, catalog: Catalog, sel: seq<string>) returns (record: Record, read: seq<string>)
    ensures Returned(record) == Assemble(Empty, sel, SearchStep(video, catalog))
    ensures read == ["url", "release_date"] + Uncached(sel)
  {
    var url := VideoUrl(video, catalog);
    var releaseDate := ReleaseDate(video, catalog);
    read := ["url", "release_date"];
    var videoType := SearchVideoType(url, releaseDate);
    ghost var step := SearchStep(video, catalog);
    record := Empty;
    var later: seq<string> := [];
    var j := 0;
    while j < |sel|
      invariant 0 <= j <= |sel|
      invariant Assemble(Empty, sel[..j], step) == Returned(record)
      invariant later == Uncached(sel[..j])
    {
      ghost var prev := record;
      var s, fetched := ReadField(video, catalog, url, releaseDate, videoType, sel[j]);
      ghost var later0 := later;
      later := later + fetched;
      if s.Set? {
        record := Put(record, sel[j], s.value);
      }
      ItemStep(video, catalog, sel, j, prev, s, fetched, later0, record);
      j := j + 1;
    }
    assert sel[..j] == sel;
    read := read + later;
  }

  /**
   * `scraping_search_video`: page down until the offset settles, list the
   * result items, and build one record per item, in item order.
   */
  method ScrapingSearchVideo(offsets: seq<int>, page: Page, catalog: Catalog, sel: seq<string>)
    returns (data: seq<Record>, presses: nat, read: seq<seq<string>>)
    requires Settles(offsets)
    ensures SettlesAt(offsets, presses)
    ensures var items := GetElements(page, catalog, "search_all_videos");
      |data| == |items| && |read| == |items| &&
      forall i :: 0 <= i < |items| ==>
        Returned(data[i]) == Assemble(Empty, sel, SearchStep(items[i], catalog)) &&
        read[i] == ["url", "release_date"] + Uncached(sel)
  {
    presses := ScrollSeleniumKeys(offsets);
    var items := GetElements(page, catalog, "search_all_videos");
    data, read := [], [];
    var i := 0;
    while i < |items|
      invariant 0 <= i <= |items| && |data| == i && |read| == i
      invariant forall k :: 0 <= k < i ==>
        Returned(data[k]) == Assemble(Empty, sel, SearchStep(items[k], catalog)) &&
        read[k] == ["url", "release_date"] + Uncached(sel)
    {
      var record, itemRead := ScrapeSearchItem(items[i], catalog, sel);
      ghost var data0, read0 := data, read;
      data, read := data + [record], read + [itemRead];
      forall k | 0 <= k <= i
        ensures Returned(data[k]) == Assemble(Empty, sel, SearchStep(items[k], catalog)) &&
          read[k] == ["url", "release_date"] + Uncached(sel)
      {
        if k < i {
          assert data[k] == data0[k] && read[k] == read0[k];
        }
      }
      i := i + 1;
    }
  }

  /** No selected name makes a search record fail. */
  lemma SearchNeverRaises(video: Scope, catalog: Catalog, sel: seq<string>)
    ensures Assemble(Empty, sel, SearchStep(video, catalog)).Returned?
  {
    AssembleRaises(Empty, sel, SearchStep(video, catalog));
  }

  /**
   * A search record holds exactly the selected names that are `type` or a
   * table field: unknown names are skipped.
   */
  lemma SearchRecordKeys(video: Scope, catalog: Catalog, sel: seq<string>)
    ensures var a := Assemble(Empty, sel, SearchStep(video, catalog));
      a.Returned? && Distinct(a.value.keys) &&
      forall k :: k in a.value.values <==> k in sel && (k == "type" || k in SearchVideoFields)
  {
    var step := SearchStep(video, catalog);
    SearchNeverRaises(video, catalog, sel);
    AssembleValues(Empty, sel, step);
    forall k ensures step(k).Set? <==> (k == "type" || k in SearchVideoFields) {
      SearchStepCases(video, catalog, k);
    }
  }

  /** The fields of a search record stand in the order in which they are first selected. */
  lemma SearchRecordOrder(video: Scope, catalog: Catalog, sel: seq<string>)
    ensures var a := Assemble(Empty, sel, SearchStep(video, catalog));
      a.Returned? && (forall q :: 0 <= q < |a.value.keys| ==> a.value.keys[q] in sel) &&
      forall p, q :: 0 <= p < q < |a.value.keys| ==> IndexOf(sel, a.value.keys[p]) < IndexOf(sel, a.value.keys[q])
  {
    SearchNeverRaises(video, catalog, sel);
    AssembleKeys(Empty, sel, SearchStep(video, catalog));
    AssembleOrder(Empty, sel, SearchStep(video, catalog));
  }

  /**
   * The `url` and `release_date` fields hold the values read for the item,
   * and `type` is the classification of those same two values.
   */
  lemma SearchRecordValues(video: Scope, catalog: Catalog, sel: seq<string>)
    ensures var a := Assemble(Empty, sel, SearchStep(video, catalog));
      a.Returned? &&
      ("url" in sel ==> "url" in a.value.values && a.value.values["url"] == VideoUrl(video, catalog)) &&
      ("release_date" in sel ==> "release_date" in a.value.values && a.value.values["release_date"] == Str(ReleaseDate(video, catalog))) &&
      ("type" in sel ==>
        "type" in a.value.values &&
        a.value.values["type"] == Str(TypeName(SearchVideoType(VideoUrl(video, catalog), ReleaseDate(video, catalog)))))
  {
    SearchRecordKeys(video, catalog, sel);
    AssembleValues(Empty, sel, SearchStep(video, catalog));
    SearchStepCases(video, catalog, "url");
    SearchStepCases(video, catalog, "release_date");
    SearchStepCases(video, catalog, "type");
  }

  /** The names offered to the user: the table's keys in order, then `type`. */
  const SearchVideoOffered: seq<string> := SearchVideoFields + ["type"]

  /**
   * `get_search_video_functions`: ask until a line is accepted; an empty
   * line selects everything offered.
   */
  method GetSearchVideoFunctions(lines: seq<string>) returns (selected: seq<string>, consumed: nat)
    requires exists k :: 0 <= k < |lines| && SelectionFromLine(lines[k], SearchVideoOffered).Accept?
    ensures 0 < consumed <= |lines|
    ensures SelectionFromLine(lines[consumed - 1], SearchVideoOffered) == Accept(selected)
    ensures forall k :: 0 <= k < consumed - 1 ==> SelectionFromLine(lines[k], SearchVideoOffered).Reprompt?
    ensures lines[consumed - 1] == "" ==> selected == SearchVideoOffered
    ensures forall x :: x in selected ==> x == "type" || x in SearchVideoFields
  {
    selected, consumed := GetFunctionsFromUser(lines, SearchVideoOffered);
  }
}
