# youtube_scraper — a verified model of the scraping core

`youtube_scraper` drives a Chrome browser through Selenium. It collects data
from three kinds of YouTube page:

- search results: one ordered record per video card, with a derived `type`
  of `Shorts`, `Live` or `Video`;
- a channel's "about" panel and its video grid;
- individual video pages, whose like and comment counts are added to
  records loaded from an earlier run.

The user picks which fields to collect by typing 1-based numbers, and the
scroll loops press PAGE_DOWN until the page stops moving.

This project models that core in Dafny. The browser is an oracle:

- every CSS lookup (`Dom.Lookup`) answers `Found(element)`, `NotFound`,
  `Timeout` or `OtherError`;
- a page offers a single-element lookup and a list lookup (`Dom.Page`);
- the selector file is a map from keys to CSS strings (`Dom.Catalog`), so a
  missing key is an explicit `KeyError`;
- `WebDriverWait` turns a missing element into a `Timeout` (`Dom.Wait`);
- a scroll loop consumes a finite list of readings.

Python values in records are `Str(s)` or `Null`. A record
(`Records.Record`) is an ordered dictionary: a key list in insertion order
plus a map. Python exceptions that escape a call are `Raised(fault)`.

Modules follow the source files:

| module | models |
|---|---|
| `PyText` | `str.strip`, `str.find`, `str.split()`, Python `int()` on ASCII digits |
| `Dom`, `Records`, `Wrappers` | browser oracle, ordered records, `Option` |
| `ElementUtils` | utils/element_utils.py |
| `StringUtils` | utils/string_utils.py |
| `NavigationUtils` | utils/navigation_utils.py |
| `DriverUtils` | driver_utils.py (scroll loops) |
| `UserInputUtils` | utils/user_input_utils.py |
| `SearchInfoScraper` | search_info_scraper.py |
| `ChannelInfoScraper` | channel_info_scraper.py |
| `VideoInfoScraper` | video_info_scraper.py |

Loops in the source are `method`s with loop invariants, proved against
specification functions:

- the scroll loops;
- the record-building loops;
- the re-prompt loops, which read from a list of input lines.

The per-line, per-field and per-record decisions are pure functions. Lemmas
prove the promised properties about those functions.

The loops have no iteration cap, and the model follows the code here. A
design with a hard iteration limit on scrolling would differ. A scroll loop
is given a trace of readings and requires that the trace eventually repeats
(`NavigationUtils.Settles`).

## Model

| member | source | states |
|---|---|---|
| PyText.StripEmptyIff | utils/element_utils.py:22-30 | stripping gives `''` exactly when the text is all whitespace, so a whitespace-only element reads like a missing one |
| PyText.SplitEmptyIff | utils/user_input_utils.py:18 | `split()` yields no tokens exactly when the line is all whitespace |
| PyText.SplitNonSpace | utils/user_input_utils.py:18 | the tokens of `split()`, concatenated, are the line with its whitespace removed |
| PyText.PyIntDigits | utils/user_input_utils.py:18 | `int()` of a non-empty ASCII digit string is its decimal value |
| PyText.PyIntSigned | utils/user_input_utils.py:18 | `int()` accepts a leading `+` or `-` sign on a decimal numeral |
| PyText.PyIntRejects | utils/user_input_utils.py:18-23 | a character that is not a digit, space, sign or underscore makes `int()` fail, the `ValueError` path |
| PyText.DecValue | video_info_scraper.py:30 | the decimal rendering of `n` reads back as `n` |
| Records.Assemble | search_info_scraper.py:128-147 | filling an ordered dict over a selection keeps its keys distinct and its map in step with them |
| Records.AssembleLoop | search_info_scraper.py:137-147 | the imperative fill loop computes exactly `Assemble`, stopping at the first raised fault |
| Records.AssembleRaises | channel_info_scraper.py:464-473 | assembly raises iff some selected step fails, and then with the first failing step's fault |
| Records.AssembleValues | channel_info_scraper.py:464-473 | the result holds the base keys plus the selected keys whose step sets a value; each set key holds its step's value, and the other base keys are unchanged |
| Records.AssembleKeys | search_info_scraper.py:137-147 | the key list is the base keys followed by the newly set selected keys, without repeats |
| Records.AssembleOrder | search_info_scraper.py:137-147 | keys added after the base appear in the order of their first occurrence in the selection |
| ElementUtils.GetElements | utils/element_utils.py:8-18 | the found list when the key exists and the lookup succeeds; `[]` otherwise, never raising |
| ElementUtils.GetElementText | utils/element_utils.py:20-30 | stripped text of a found element; `''` on a missing element, a missing key or any other error |
| ElementUtils.GetElementAttribute | utils/element_utils.py:32-42 | the untrimmed attribute (or `None` when absent) of a found element; `''` on any failure |
| ElementUtils.TextEmptyIff | utils/element_utils.py:20-30 | the text is `''` iff the element is not found or its text is all whitespace |
| StringUtils.ExtractChannelName | utils/string_utils.py:3-10 | `None` iff there is no `@`; otherwise the suffix after the first `@`, stripped, which has no surrounding whitespace |
| StringUtils.ExtractAfterFirstAt | utils/string_utils.py:4-8 | a stripped name after the first `@` comes back unchanged, even if it contains `@` itself |
| StringUtils.TrailingAtGivesEmpty | utils/string_utils.py:6-8 | a trailing `@`, or only whitespace after it, gives `''` rather than `None` |
| NavigationUtils.ClickElement | utils/navigation_utils.py:14-22 | a missing selector key raises `KeyError`; a present element is clicked (`true`); a timeout is swallowed (`false`); any other driver error escapes |
| NavigationUtils.ClickTolerant | utils/navigation_utils.py:21-22 | with the key present and no driver error, clicking always returns normally |
| NavigationUtils.SettlesUnique | utils/navigation_utils.py:29-34 | the stopping iteration of a reading trace is unique |
| NavigationUtils.ScrollSeleniumKeys | utils/navigation_utils.py:24-34 | the loop presses PAGE_DOWN at least once and stops at the first reading equal to the previous one, with the baseline replaced after every press |
| NavigationUtils.OnePressAtBottom | utils/navigation_utils.py:27-31 | a page already at the bottom stops after exactly one press |
| DriverUtils.ScrollJavascript | driver_utils.py:5-14 | scrolls at least once and stops at the first `scrollHeight` reading equal to the previous one |
| UserInputUtils.ParseAllSpec | utils/user_input_utils.py:18 | the token list parses iff every token parses, and then element-wise |
| UserInputUtils.PickInRange | utils/user_input_utils.py:19 | in-range 1-based numbers select `available[k-1]` in typed order, keeping duplicates |
| UserInputUtils.PickDropsOutOfRange | utils/user_input_utils.py:19 | a number outside `1..len` selects nothing |
| UserInputUtils.SelectionFromLine | utils/user_input_utils.py:13-20 | an exactly empty line selects everything offered; any accepted selection contains only offered names |
| UserInputUtils.RejectedIff | utils/user_input_utils.py:18-23 | a line is rejected for re-prompting iff it is non-empty and some token is not an integer |
| UserInputUtils.BlankLineSelectsNothing | utils/user_input_utils.py:13-20 | a whitespace-only line selects nothing, not everything |
| UserInputUtils.SplitJoin | utils/user_input_utils.py:18 | splitting space-joined tokens gives back the tokens |
| UserInputUtils.SelectTypedNumbers | utils/user_input_utils.py:18-20 | typing in-range numbers separated by spaces selects exactly the named entries, in typed order |
| UserInputUtils.FilterFromLine | utils/user_input_utils.py:29-38 | after stripping, `''` gives `None`, `1` gives `'1'`, `2` gives `'2'`, both directions; nothing else is accepted |
| UserInputUtils.ReadUntilAccepted | utils/user_input_utils.py:6-23 | the re-prompt loop returns the value of the first accepted line; every earlier line was rejected |
| UserInputUtils.GetFunctionsFromUser | utils/user_input_utils.py:5-23 | returns the first accepted line's selection, a list of offered names in typed order (duplicates kept); every earlier line was rejected |
| UserInputUtils.ChannelFilterInput | utils/user_input_utils.py:25-38 | returns the first accepted filter, one of `None`, `'1'`, `'2'`; every earlier line was rejected |
| SearchInfoScraper.GetterKeys | search_info_scraper.py:28-36 | the getter table has exactly the seven field names |
| SearchInfoScraper.SearchVideoType | search_info_scraper.py:44-57 | `Неизвестно` iff the url is `None`; `Shorts` iff the url contains `/shorts`; `Live` iff no `/shorts` and the date is empty or contains `Не найдено`; `Video` otherwise |
| SearchInfoScraper.ShortsIgnoresDate | search_info_scraper.py:49-50 | a `/shorts` url is `Shorts` whatever the release date |
| SearchInfoScraper.UnreadUrlDecidedByDate | search_info_scraper.py:46-54 | an empty url (a missing or failed url element) is classified by the release date alone |
| SearchInfoScraper.ReadField | search_info_scraper.py:138-147 | one selected name yields its step and the list of getters it called, which excludes the cached url and date |
| SearchInfoScraper.ScrapeSearchItem | search_info_scraper.py:128-149 | the record built for one video card equals the assembly over the selection; the getters read are url, release_date, then each uncached selected field |
| SearchInfoScraper.ScrapingSearchVideo | search_info_scraper.py:118-150 | scrolls to the bottom, then returns exactly one record per found card, in card order, each equal to its assembly |
| SearchInfoScraper.UncachedCounts | search_info_scraper.py:140-145 | every uncached field is read as many times as it is selected |
| SearchInfoScraper.CachedFieldsReadOnce | search_info_scraper.py:130-142 | url and release_date are read exactly once per card, whether or not and however often they are selected |
| SearchInfoScraper.SearchNeverRaises | search_info_scraper.py:137-147 | building a search record never raises, whatever the selection |
| SearchInfoScraper.SearchRecordKeys | search_info_scraper.py:137-147 | record keys are distinct and are exactly the selected names that are `type` or a table field |
| SearchInfoScraper.SearchRecordOrder | search_info_scraper.py:137-147 | record keys appear in the order of their first selection |
| SearchInfoScraper.SearchRecordValues | search_info_scraper.py:132-142 | selected `url`, `release_date` and `type` hold the cached values and the classifier's verdict on them |
| SearchInfoScraper.GetSearchVideoFunctions | search_info_scraper.py:113-116 | the offered list is the seven table keys in declared order plus `type`; the selection comes from the first accepted line, every earlier line rejected |
| ChannelInfoScraper.ReadFieldOutcomes | channel_info_scraper.py:114-124 | a getter yields `None` exactly on a timeout, another error or an absent attribute; its own message on `NotFound`; stripped text on a found text field |
| ChannelInfoScraper.InfoGetterOf | channel_info_scraper.py:358-370 | the channel-info table has exactly the eleven declared names |
| ChannelInfoScraper.ProfilePictureIsBanner | channel_info_scraper.py:225-249 | with the banner present, the profile picture reads the same `src` as the banner, because both getters use the `channel_banner` selector |
| ChannelInfoScraper.MainDescriptionOutcomes | channel_info_scraper.py:162-175 | the description getter raises iff its button click raises; otherwise it gives the stripped text of a present description and `None` on anything else, never the not-found message |
| ChannelInfoScraper.InfoStepCases | channel_info_scraper.py:464-472 | unknown names are dropped; known names run their getter; only `main_description` can raise |
| ChannelInfoScraper.InfoRaisesIff | channel_info_scraper.py:464-473 | some selected step fails iff `main_description` is selected and its button click raises |
| ChannelInfoScraper.InfoContents | channel_info_scraper.py:463-473 | the info dict holds exactly the selected table names, each with its getter's result, in first-selection order |
| ChannelInfoScraper.ScrapingChannelInfo | channel_info_scraper.py:462-477 | on success the result is exactly the assembly of the selection, so it holds the selected table names with their getters' results in first-selection order; it returns that dict unless the description click or the closing click raises; raising holds exactly in those two cases |
| ChannelInfoScraper.InfoFromChannelInput | channel_info_scraper.py:397-426 | the empty line selects all eleven names; any selection holds table names only; it is the first accepted line's, every earlier line rejected |
| ChannelInfoScraper.VideoFieldOf | channel_info_scraper.py:350-356 | the channel-video table has exactly the five declared names |
| ChannelInfoScraper.InfoFromChannelVideoInput | channel_info_scraper.py:373-395 | the empty line selects all five video fields; any selection holds those names only; it is the first accepted line's, every earlier line rejected |
| ChannelInfoScraper.VideoContents | channel_info_scraper.py:449-458 | a video record never raises; it holds exactly the selected table names, each with its field's value, in first-selection order |
| ChannelInfoScraper.ScrapingChannelVideos | channel_info_scraper.py:429-460 | scrolls until the offset repeats; then one record per video element in order; a failed element listing (`None`) raises `TypeError` |
| ChannelInfoScraper.MessageGivesEmptyFields | channel_info_scraper.py:252-263 | when the listing returns its not-found message, each character becomes an element; every field of those records is `None` |
| VideoInfoScraper.LikesRoundTrip | video_info_scraper.py:30 | removing the dots from the thousands-grouped rendering of `n` and calling `int()` gives `n` |
| VideoInfoScraper.GroupedShape | video_info_scraper.py:30 | the grouped rendering starts with a digit, has no leading zero and puts a dot before every group of three digits |
| VideoInfoScraper.ThousandsBeforeMillions | video_info_scraper.py:22-25 | a label containing both `тыс` and `млн` is scaled by 1000 |
| VideoInfoScraper.NoMarkerNoLikes | video_info_scraper.py:19-20 | a label without `и ещё ` gives no likes value (`None`) |
| VideoInfoScraper.PlainCount | video_info_scraper.py:19-30 | the label `и ещё <n>` gives `n` grouped by thousands |
| VideoInfoScraper.ThousandsCount | video_info_scraper.py:19-30 | the label `и ещё <n> тыс.` gives `1000·n` grouped by thousands |
| VideoInfoScraper.MillionsCount | video_info_scraper.py:19-30 | the label `и ещё <n> млн` (no `тыс`) gives `1000000·n` grouped by thousands |
| VideoInfoScraper.SeparatedCount | video_info_scraper.py:19-30 | the label `и ещё <a><sep><bbb>`, with a space or no-break space as `<sep>` and three digits `<bbb>`, has the separator removed before `int()` and gives `1000·a + bbb` grouped by thousands (`и ещё 1 234` gives `1.234`) |
| VideoInfoScraper.ParseLikesShape | video_info_scraper.py:19-30 | any parsed likes value is the grouped rendering of some non-negative count that reads back as that count |
| VideoInfoScraper.GetVideoLikesOutcomes | video_info_scraper.py:13-37 | the not-found message iff the wait times out; the formatted count for a found label that matches; `None` otherwise |
| VideoInfoScraper.WaitedTextOutcomes | video_info_scraper.py:39-75 | shorts likes and comment getters give stripped text when found, their message on a timeout, and `None` exactly on another error |
| VideoInfoScraper.FunctionsFor | video_info_scraper.py:98-111 | both tables have exactly `likes` and `comments`; the video table holds the video getters, the shorts table the shorts getters |
| VideoInfoScraper.ScrapeVideo | video_info_scraper.py:81-95 | one input record is turned into `VideoInfo` of it |
| VideoInfoScraper.ScrapingInfoFromVideos | video_info_scraper.py:77-96 | one output per input record, in order, each its `VideoInfo`; a raise comes from the first record that raises; success iff no record raises |
| VideoInfoScraper.VideoInfoRaises | video_info_scraper.py:86-95 | for a loadable record with a `type`, processing raises iff some selected name is not in the table, with the first such name's `KeyError` |
| VideoInfoScraper.VideoInfoKeys | video_info_scraper.py:86-95 | the output keeps the input keys in place first; new keys are selected names in selection order |
| VideoInfoScraper.VideoInfoValues | video_info_scraper.py:86-95 | selected keys hold the chosen table's getter results (video table iff `type == 'Video'`); all other input keys are unchanged |
| VideoInfoScraper.NonVideoReadsShortsLikes | video_info_scraper.py:88-94 | any `type` other than `Video` reads likes with the shorts getter |
| VideoInfoScraper.SearchRecordLacksUrls | video_info_scraper.py:81 | a record produced by the search scraper has no `urls` key, so feeding it to this scraper raises `KeyError('urls')` |

## Left out

- Logging, `print`, `time.sleep` and real waiting: waits are modelled only by their outcome (`Dom.Wait`). Click actions count as successful once the element is located.
- The scroll loops have no iteration cap. The trace of readings is a parameter, and the loops require that it settles. A page that never settles is outside the model.
- `input()` is a list of lines. The re-prompt loops require that some line is accepted.
- Browser setup (`setup_options_webdriver`, driver_utils.py:28-48), JSON and CSV file I/O, the Google Sheets upload, and the `main`/menu orchestration in main.py and services.py are not part of this model.
- `info_from_user` and `channel_video_filter` (channel_info_scraper.py:343-347,480-487) are menu plumbing around the modelled decisions.
- Duplicated code is modelled once:
  - `scroll_selenium_keys` in driver_utils.py and in navigation_utils.py, and the scroll loop inside `scraping_channel_videos` (`NavigationUtils.ScrollSeleniumKeys`);
  - `ChannelScraper.click_element` (`NavigationUtils.ClickElement`);
  - `extract_channel_name` in channel_info_scraper.py (`StringUtils.ExtractChannelName`);
  - `channel_video_filter_input` (`UserInputUtils.ChannelFilterInput`).
- The PAGE_DOWN after loading a video page (video_info_scraper.py:83) is not modelled. Loading is the parameter `open`; a `None` url or a page that fails to load raises a driver error.
- `info_settings_input`, imported at video_info_scraper.py:10, is not part of this model. The selection reaching `scraping_info_from_videos` is a parameter.
- Module globals (`driver`, `css_selectors`) used by channel_info_scraper.py are explicit parameters.
- Python `int()` and the regex `\d` are modelled for ASCII digits only; Unicode decimal digits are not modelled. `\s` and `str.strip`/`str.split` use the characters `str.isspace` accepts, listed in `PyText.IsSpace`.
- Record values are strings or `None`; the messages and texts are the only values the modelled getters produce.
- A `KeyError` on the selector file inside a getter's `try` is caught by its generic handler, like any other exception (`Dom.Locate`).
