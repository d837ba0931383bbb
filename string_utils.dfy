/** `utils/string_utils.py`: the channel name in a channel link. */
module StringUtils {

  import opened Wrappers
  import opened PyText

  /**
   * `extract_channel_name`: the text after the first `'@'`, stripped, or
   * `None` when there is no `'@'`.
   */
  function ExtractChannelName(text: string): (r: Option<string>)
    ensures r.None? <==> '@' !in text
    ensures r.Some? ==> IsStripped(r.value)
    ensures r.Some? ==>
      exists i :: 0 <= i < |text| && text[i] == '@' && '@' !in text[..i] && r.value == Strip(text[i + 1..])
  {
    var at := Find(text, "@");
    FindChar(text, '@');
    if at != -1 then Some(Strip(text[at + 1..])) else None
  }

  /**
   * A link made of an `'@'`-free prefix, `'@'` and a stripped name gives back
   * that name; it may be empty, and it may itself contain `'@'`.
   */
  lemma ExtractAfterFirstAt(prefix: string, name: string)
    requires '@' !in prefix && IsStripped(name)
    ensures ExtractChannelName(prefix + "@" + name) == Some(name)
  {
    var text := prefix + "@" + name;
    assert text[|prefix|] == '@' && text[..|prefix|] == prefix && text[|prefix| + 1..] == name;
    StripStripped(name);
  }

  /** With only whitespace after the `'@'` the result is `''`, not `None`. */
  lemma TrailingAtGivesEmpty(prefix: string, tail: string)
    requires '@' !in prefix && AllSpace(tail)
    ensures ExtractChannelName(prefix + "@" + tail) == Some("")
  {
    var text := prefix + "@" + tail;
    assert text[|prefix|] == '@' && text[..|prefix|] == prefix && text[|prefix| + 1..] == tail;
    StripEmptyIff(tail);
  }
}
