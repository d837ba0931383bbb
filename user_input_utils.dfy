/**
 * `utils/user_input_utils.py`: the operator's answers to the field-selection
 * and channel-filter prompts. One input line is decided by a pure function;
 * the `while True` re-prompt loop is a method over the lines typed in turn.
 */
module UserInputUtils {

  import opened Wrappers
  import opened PyText

  /** What one typed line leads to: a result, or asking again. */
  datatype Reply<T> = Accept(value: T) | Reprompt

  /**
   * `[parse(i) for i in tokens]`, or `None` when `parse` fails on some token;
   * the prompt uses it with `parse` = `int`.
   */
  function ParseAll(tokens: seq<string>, parse: string -> Option<int>): Option<seq<int>>
    decreases |tokens|
  {
    if tokens == [] then Some([])
    else
      match parse(tokens[0])
      case None => None
      case Some(n) =>
        match ParseAll(tokens[1..], parse)
        case None => None
        case Some(ns) => Some([n] + ns)
  }

  /**
   * The tokens parse exactly when each of them parses, and then the numbers
   * are the tokens' values, position by position.
   */
  lemma {:induction false} ParseAllSpec(tokens: seq<string>, parse: string -> Option<int>)
    ensures ParseAll(tokens, parse).None? ==> exists k :: 0 <= k < |tokens| && parse(tokens[k]).None?
    ensures (exists k :: 0 <= k < |tokens| && parse(tokens[k]).None?) ==> ParseAll(tokens, parse).None?
    ensures ParseAll(tokens, parse).Some? ==>
      |ParseAll(tokens, parse).value| == |tokens| &&
      forall k :: 0 <= k < |tokens| ==> parse(tokens[k]) == Some(ParseAll(tokens, parse).value[k])
    decreases |tokens|
  {
    if tokens != [] {
      var t := tokens[1..];
      assert forall k :: 1 <= k < |tokens| ==> tokens[k] == t[k - 1];
      ParseAllSpec(t, parse);
    }
  }

  /** `[available[n - 1] for n in numbers if 0 <= n - 1 < len(available)]`. */
  function Pick(numbers: seq<int>, available: seq<string>): (r: seq<string>)
    ensures forall x :: x in r ==> x in available
    ensures |r| <= |numbers|
  {
    if numbers == [] then []
    else
      var n := numbers[|numbers| - 1];
      var r := Pick(numbers[..|numbers| - 1], available);
      if 1 <= n <= |available| then r + [available[n - 1]] else r
  }

  /**
   * Numbers that are all in range are each replaced by the name they number,
   * keeping their order and their repetitions.
   */
  lemma {:induction false} PickInRange(numbers: seq<int>, available: seq<string>)
    requires forall k :: 0 <= k < |numbers| ==> 1 <= numbers[k] <= |available|
    ensures |Pick(numbers, available)| == |numbers|
    ensures forall k :: 0 <= k < |numbers| ==> Pick(numbers, available)[k] == available[numbers[k] - 1]
  {
    if numbers != [] {
      var m := |numbers| - 1;
      var init := numbers[..m];
      var p, q := Pick(numbers, available), Pick(init, available);
      assert p == q + [available[numbers[m] - 1]];
      assert |q| == m && forall k :: 0 <= k < m ==> q[k] == available[numbers[k] - 1] by {
        assert forall k :: 0 <= k < m ==> init[k] == numbers[k];
        PickInRange(init, available);
      }
      forall k | 0 <= k < |numbers| ensures p[k] == available[numbers[k] - 1] {
        if k < m { assert p[k] == q[k]; }
      }
    }
  }

  /** A number outside `1..len(available)` is dropped and nothing else changes. */
  lemma PickDropsOutOfRange(numbers: seq<int>, n: int, available: seq<string>)
    requires !(1 <= n <= |available|)
    ensures Pick(numbers + [n], available) == Pick(numbers, available)
  {
    assert (numbers + [n])[..|numbers|] == numbers;
  }

  /**
   * One line typed at the field-selection prompt of `get_functions_from_user`.
   * An exactly empty line selects everything offered; otherwise every
   * whitespace-separated token must be an integer or the line is rejected,
   * and the tokens numbering an offered name (from 1) select it, in order.
   */
  function SelectionFromLine(line: string, available: seq<string>): (r: Reply<seq<string>>)
    ensures line == "" ==> r == Accept(available)
    ensures r.Accept? ==> forall x :: x in r.value ==> x in available
  {
    if line == "" then Accept(available)
    else
      var parsed := ParseAll(Split(line), PyInt);
      if parsed.None? then Reprompt else Accept(Pick(parsed.value, available))
  }

  /**
   * A line is rejected exactly when it is not empty and one of its
   * whitespace-separated tokens is not an integer.
   */
  lemma RejectedIff(line: string, available: seq<string>)
    ensures SelectionFromLine(line, available).Reprompt? ==>
      line != "" && exists k :: 0 <= k < |Split(line)| && PyInt(Split(line)[k]).None?
    ensures line != "" && (exists k :: 0 <= k < |Split(line)| && PyInt(Split(line)[k]).None?) ==>
      SelectionFromLine(line, available).Reprompt?
  {
    ParseAllSpec(Split(line), PyInt);
  }

  /** A line of whitespace only selects nothing at all (it is not the empty line). */
  lemma BlankLineSelectsNothing(line: string, available: seq<string>)
    requires line != "" && AllSpace(line)
    ensures SelectionFromLine(line, available) == Accept([])
  {
    SplitEmptyIff(line);
  }

  /** The tokens joined with single spaces. */
  function JoinSpaces(ws: seq<string>): string
  {
    if ws == [] then "" else if |ws| == 1 then ws[0] else ws[0] + " " + JoinSpaces(ws[1..])
  }

  /** Splitting undoes joining tokens with single spaces. */
  lemma {:induction false} SplitJoin(ws: seq<string>)
    requires forall k :: 0 <= k < |ws| ==> IsToken(ws[k])
    ensures Split(JoinSpaces(ws)) == ws
    decreases |ws|
  {
    if ws == [] {
      assert AllSpace("");
    } else if |ws| == 1 {
      SplitWord(ws[0], "");
      assert ws[0] + "" == ws[0];
      assert AllSpace("");
    } else {
      SplitJoin(ws[1..]);
      assert ws[0] + " " + JoinSpaces(ws[1..]) == ws[0] + (" " + JoinSpaces(ws[1..]));
      SplitWord(ws[0], " " + JoinSpaces(ws[1..]));
      SplitSkipsSpace(JoinSpaces(ws[1..]));
    }
  }

  /**
   * Typing the positions `ks` (each between 1 and the number of names
   * offered) as decimal numbers separated by spaces selects exactly the
   * names at those positions, in the order typed, with repetitions.
   */
  lemma SelectTypedNumbers(ks: seq<nat>, available: seq<string>)
    requires |ks| > 0 && forall k :: 0 <= k < |ks| ==> 1 <= ks[k] <= |available|
    ensures SelectionFromLine(JoinSpaces(DecAll(ks)), available).Accept?
    ensures |SelectionFromLine(JoinSpaces(DecAll(ks)), available).value| == |ks|
    ensures forall k :: 0 <= k < |ks| ==>
      SelectionFromLine(JoinSpaces(DecAll(ks)), available).value[k] == available[ks[k] - 1]
  {
    var ws := DecAll(ks);
    var line := JoinSpaces(ws);
    assert Split(line) == ws by { SplitJoin(ws); }
    assert line != "";
    assert ParseAll(ws, PyInt) == Some(ks) by {
      forall k | 0 <= k < |ks| ensures PyInt(Dec(ks[k])) == Some(ks[k] as int) {
        PyIntDec(ks[k], "");
        assert "" + Dec(ks[k]) == Dec(ks[k]);
      }
      ParseDecAll(ks, PyInt);
    }
    assert SelectionFromLine(line, available) == Accept(Pick(ks, available));
    PickInRange(ks, available);
  }

  /** The decimal spelling of each number. */
  function DecAll(ks: seq<nat>): (ws: seq<string>)
    ensures |ws| == |ks| && forall k :: 0 <= k < |ks| ==> ws[k] == Dec(ks[k]) && IsToken(ws[k])
  {
    if ks == [] then [] else [Dec(ks[0])] + DecAll(ks[1..])
  }

  /** Numbers written out in decimal parse back to themselves when `parse` reads decimals. */
  lemma {:induction false} ParseDecAll(ks: seq<nat>, parse: string -> Option<int>)
    requires forall k :: 0 <= k < |ks| ==> parse(Dec(ks[k])) == Some(ks[k] as int)
    ensures ParseAll(DecAll(ks), parse) == Some(ks)
    decreases |ks|
  {
    if ks != [] {
      var ws := DecAll(ks);
      assert ParseAll(ws[1..], parse) == Some(ks[1..]) by {
        assert ws[1..] == DecAll(ks[1..]);
        assert forall k :: 1 <= k < |ks| ==> ks[k] == ks[1..][k - 1];
        ParseDecAll(ks[1..], parse);
      }
      assert ks == [ks[0]] + ks[1..];
    }
  }

  /** One line typed at the prompt of `channel_filter_input`, after `strip()`. */
  function FilterFromLine(line: string): (r: Reply<Option<string>>)
    ensures r == Accept(None) <==> AllSpace(line)
    ensures r == Accept(Some("1")) <==> Strip(line) == "1"
    ensures r == Accept(Some("2")) <==> Strip(line) == "2"
    ensures r.Accept? ==> r.value in {None, Some("1"), Some("2")}
  {
    StripEmptyIff(line);
    var choice := Strip(line);
    if choice == "" then Accept(None)
    else if choice == "1" then Accept(Some("1"))
    else if choice == "2" then Accept(Some("2"))
    else Reprompt
  }

  /**
   * The `while True` prompt loop shared by `get_functions_from_user` and
   * `channel_filter_input`: lines are read until `decide` accepts one. That
   * line gives the value and every earlier line was re-prompted; the loop
   * has no other exit, so some line must be accepted.
   */
  method ReadUntilAccepted<T>(lines: seq<string>, decide: string -> Reply<T>) returns (value: T, consumed: nat)
    requires exists k :: 0 <= k < |lines| && decide(lines[k]).Accept?
    ensures 0 < consumed <= |lines|
    ensures decide(lines[consumed - 1]) == Accept(value)
    ensures forall k :: 0 <= k < consumed - 1 ==> decide(lines[k]).Reprompt?
  {
    // the first line that is accepted bounds the loop
    ghost var w :| 0 <= w < |lines| && decide(lines[w]).Accept?;
    var i := 0;
    while true
      invariant 0 <= i <= w
      invariant forall k :: 0 <= k < i ==> decide(lines[k]).Reprompt?
      decreases w - i
    {
      var reply := decide(lines[i]);
      if reply.Accept? {
        return reply.value, i + 1;
      }
      assert i != w;
      i := i + 1;
    }
  }

  /** `get_functions_from_user`: the names selected by the first accepted line. */
  method GetFunctionsFromUser(lines: seq<string>, available: seq<string>) returns (selected: seq<string>, consumed: nat)
    requires exists k :: 0 <= k < |lines| && SelectionFromLine(lines[k], available).Accept?
    ensures 0 < consumed <= |lines|
    ensures SelectionFromLine(lines[consumed - 1], available) == Accept(selected)
    ensures forall k :: 0 <= k < consumed - 1 ==> SelectionFromLine(lines[k], available).Reprompt?
    ensures forall x :: x in selected ==> x in available
  {
    var decide := (line: string) => SelectionFromLine(line, available);
    ghost var w :| 0 <= w < |lines| && SelectionFromLine(lines[w], available).Accept?;
    assert decide(lines[w]).Accept?;
    selected, consumed := ReadUntilAccepted(lines, decide);
  }

  /**
   * `channel_filter_input`: the filter given by the first line that strips
   * to `''`, `'1'` or `'2'` (`None` is the default filter).
   */
  method ChannelFilterInput(lines: seq<string>) returns (filter: Option<string>, consumed: nat)
    requires exists k :: 0 <= k < |lines| && FilterFromLine(lines[k]).Accept?
    ensures 0 < consumed <= |lines|
    ensures FilterFromLine(lines[consumed - 1]) == Accept(filter)
    ensures forall k :: 0 <= k < consumed - 1 ==> FilterFromLine(lines[k]).Reprompt?
    ensures filter in {None, Some("1"), Some("2")}
  {
    ghost var w :| 0 <= w < |lines| && FilterFromLine(lines[w]).Accept?;
    assert (line => FilterFromLine(line))(lines[w]).Accept?;
    filter, consumed := ReadUntilAccepted(lines, line => FilterFromLine(line));
  }
}
