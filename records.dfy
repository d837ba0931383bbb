/**
 * Python's insertion-ordered `dict` / `OrderedDict` with string keys, and the
 * record assembly loop that the scrapers share: walk a caller-chosen list of
 * field names and, per name, skip it, set it, or raise.
 */
module Records {

  import opened Dom

  /** The keys in insertion order and the value stored under each key. */
  datatype Record = Record(keys: seq<string>, values: map<string, Value>)

  predicate Distinct(s: seq<string>)
  {
    forall i, j :: 0 <= i < j < |s| ==> s[i] != s[j]
  }

  ghost predicate Valid(r: Record)
  {
    Distinct(r.keys) && forall k :: k in r.values <==> k in r.keys
  }

  const Empty := Record([], map[])

  /**
   * `d[k] = v`: a new key goes to the end, an existing key keeps its place
   * and gets the new value.
   */
  function Put(r: Record, k: string, v: Value): (r': Record)
    requires Valid(r)
    ensures Valid(r')
    ensures r'.keys == if k in r.values then r.keys else r.keys + [k]
    ensures r'.values == r.values[k := v]
  {
    if k in r.values then Record(r.keys, r.values[k := v])
    else Record(r.keys + [k], r.values[k := v])
  }

  /** What the loop body does with one selected name. */
  datatype Step = Skip | Set(value: Value) | Fail(fault: Fault)

  /**
   * Starting from `base`, handle the names of `sel` in order: `Skip` leaves
   * the record alone, `Set(v)` assigns `v` under the name, `Fail(f)` raises
   * `f` and abandons the record.
   */
  function Assemble(base: Record, sel: seq<string>, step: string -> Step): (r: Attempt<Record>)
    requires Valid(base)
    ensures r.Returned? ==> Valid(r.value)
    decreases |sel|
  {
    if sel == [] then Returned(base)
    else
      match Assemble(base, sel[..|sel| - 1], step)
      case Raised(f) => Raised(f)
      case Returned(r) =>
        match step(sel[|sel| - 1])
        case Skip => Returned(r)
        case Set(v) => Returned(Put(r, sel[|sel| - 1], v))
        case Fail(f) => Raised(f)
  }

  /**
   * The loop the scrapers run over the selected names, filling the record in
   * place: it computes exactly `Assemble`.
   */
  method AssembleLoop(base: Record, sel: seq<string>, step: string -> Step) returns (r: Attempt<Record>)
    requires Valid(base)
    ensures r == Assemble(base, sel, step)
  {
    var record := base;
    var j := 0;
    while j < |sel|
      invariant 0 <= j <= |sel|
      invariant Assemble(base, sel[..j], step) == Returned(record)
    {
      assert sel[..j + 1][..j] == sel[..j];
      var s := step(sel[j]);
      if s.Fail? {
        AssemblePrefixRaised(base, sel, step, j + 1);
        return Raised(s.fault);
      }
      if s.Set? {
        record := Put(record, sel[j], s.value);
      }
      j := j + 1;
    }
    assert sel[..j] == sel;
    r := Returned(record);
  }

  /** One more name handled by the loop. */
  lemma AssembleSnoc(base: Record, sel: seq<string>, step: string -> Step, j: nat, r: Record)
    requires Valid(base) && j < |sel| && Assemble(base, sel[..j], step) == Returned(r)
    ensures step(sel[j]).Skip? ==> Assemble(base, sel[..j + 1], step) == Returned(r)
    ensures step(sel[j]).Set? ==> Assemble(base, sel[..j + 1], step) == Returned(Put(r, sel[j], step(sel[j]).value))
    ensures step(sel[j]).Fail? ==> Assemble(base, sel[..j + 1], step) == Raised(step(sel[j]).fault)
  {
    assert sel[..j + 1][..j] == sel[..j];
  }

  /** Once a prefix of the selection raises, the whole selection raises with the same fault. */
  lemma {:induction false} AssemblePrefixRaised(base: Record, sel: seq<string>, step: string -> Step, n: nat)
    requires Valid(base) && n <= |sel| && Assemble(base, sel[..n], step).Raised?
    ensures Assemble(base, sel, step) == Assemble(base, sel[..n], step)
    decreases |sel| - n
  {
    if n < |sel| {
      assert sel[..n + 1][..n] == sel[..n];
      AssemblePrefixRaised(base, sel, step, n + 1);
    } else {
      assert sel[..n] == sel;
    }
  }

  /** The first position of `x` in `s`. */
  function IndexOf(s: seq<string>, x: string): (i: nat)
    requires x in s
    ensures i < |s| && s[i] == x && forall j :: 0 <= j < i ==> s[j] != x
  {
    if s[0] == x then 0 else 1 + IndexOf(s[1..], x)
  }

  lemma IndexOfPrefix(s: seq<string>, x: string, n: nat)
    requires n <= |s| && x in s[..n]
    ensures IndexOf(s, x) == IndexOf(s[..n], x)
  {
    var i, j := IndexOf(s, x), IndexOf(s[..n], x);
    assert s[j] == x;
  }

  /**
   * Assembly raises exactly when some selected name fails, and then with the
   * fault of the first failing name.
   */
  lemma {:induction false} AssembleRaises(base: Record, sel: seq<string>, step: string -> Step)
    requires Valid(base)
    ensures Assemble(base, sel, step).Raised? <==> exists i :: 0 <= i < |sel| && step(sel[i]).Fail?
    ensures Assemble(base, sel, step).Raised? ==>
      exists i :: 0 <= i < |sel| && step(sel[i]) == Fail(Assemble(base, sel, step).fault) &&
        forall j :: 0 <= j < i ==> !step(sel[j]).Fail?
    decreases |sel|
  {
    if sel != [] {
      var n := |sel|;
      var p := sel[..n - 1];
      AssembleRaises(base, p, step);
      assert forall i :: 0 <= i < n - 1 ==> p[i] == sel[i];
      var a := Assemble(base, p, step);
      if a.Raised? {
        assert Assemble(base, sel, step) == a;
        var i :| 0 <= i < |p| && step(p[i]) == Fail(a.fault) && forall j :: 0 <= j < i ==> !step(p[j]).Fail?;
        assert step(sel[i]) == Fail(a.fault);
      } else {
        assert forall i :: 0 <= i < n - 1 ==> !step(sel[i]).Fail?;
        if step(sel[n - 1]).Fail? {
          assert Assemble(base, sel, step) == Raised(step(sel[n - 1]).fault);
        } else {
          assert Assemble(base, sel, step).Returned?;
        }
      }
    }
  }

  /**
   * A returned record holds the base's keys and every selected name that is
   * set; a set name carries its step's value, every other base key its old value.
   */
  lemma {:induction false} AssembleValues(base: Record, sel: seq<string>, step: string -> Step)
    requires Valid(base) && Assemble(base, sel, step).Returned?
    ensures var r := Assemble(base, sel, step).value;
      && (forall k :: k in r.values <==> k in base.values || (k in sel && step(k).Set?))
      && (forall k :: k in sel && step(k).Set? ==> r.values[k] == step(k).value)
      && (forall k :: k in base.values && !(k in sel && step(k).Set?) ==> r.values[k] == base.values[k])
    decreases |sel|
  {
    if sel != [] {
      var n := |sel|;
      var p := sel[..n - 1];
      assert sel == p + [sel[n - 1]];
      AssembleValues(base, p, step);
    }
  }

  /** A returned record is the prefix's record, with the last name set when its step sets it. */
  lemma AssembleLast(base: Record, sel: seq<string>, step: string -> Step)
    requires Valid(base) && sel != [] && Assemble(base, sel, step).Returned?
    ensures Assemble(base, sel[..|sel| - 1], step).Returned?
    ensures var r0, r := Assemble(base, sel[..|sel| - 1], step).value, Assemble(base, sel, step).value;
      var k := sel[|sel| - 1];
      (step(k).Set? ==> r == Put(r0, k, step(k).value)) && (!step(k).Set? ==> r == r0)
  {
  }

  /**
   * `keys` starts with the base's keys, in their places, and every key after
   * them is a name of `sel` that the base lacks.
   */
  predicate AddedFrom(base: Record, keys: seq<string>, sel: seq<string>)
  {
    && |base.keys| <= |keys| && keys[..|base.keys|] == base.keys
    && (forall q :: |base.keys| <= q < |keys| ==> keys[q] in sel && keys[q] !in base.values)
  }

  lemma AddedExtend(base: Record, keys: seq<string>, sel: seq<string>, n: nat)
    requires Valid(base) && n < |sel| && AddedFrom(base, keys, sel[..n])
    ensures AddedFrom(base, keys, sel[..n + 1])
    ensures sel[n] !in keys ==> AddedFrom(base, keys + [sel[n]], sel[..n + 1])
  {
    var s, t := sel[..n], sel[..n + 1];
    forall q | |base.keys| <= q < |keys| ensures keys[q] in t {
      var i :| 0 <= i < n && s[i] == keys[q];
      assert t[i] == s[i];
    }
    if sel[n] !in keys {
      var keys' := keys + [sel[n]];
      assert keys'[..|base.keys|] == base.keys;
      assert sel[n] !in base.keys by {
        assert forall q :: 0 <= q < |base.keys| ==> base.keys[q] == keys[q];
      }
      assert t[n] == sel[n];
    }
  }

  /**
   * A returned record keeps the base's keys, in their places, in front; the
   * keys after them come from the selection and are new to the base.
   */
  lemma {:induction false} AssembleKeys(base: Record, sel: seq<string>, step: string -> Step)
    requires Valid(base) && Assemble(base, sel, step).Returned?
    ensures AddedFrom(base, Assemble(base, sel, step).value.keys, sel)
    decreases |sel|
  {
    if sel == [] {
      assert Assemble(base, sel, step).value == base;
    } else {
      var n := |sel|;
      AssembleLast(base, sel, step);
      AssembleKeys(base, sel[..n - 1], step);
      var r0 := Assemble(base, sel[..n - 1], step).value;
      AddedExtend(base, r0.keys, sel, n - 1);
      assert sel[..n] == sel;
    }
  }

  /**
   * The keys of `keys` from position `b` on are selected names standing in
   * the order of their first selection.
   */
  predicate InSelectionOrder(sel: seq<string>, keys: seq<string>, b: nat)
  {
    && (forall q :: b <= q < |keys| ==> keys[q] in sel)
    && (forall p, q :: b <= p < q < |keys| ==> IndexOf(sel, keys[p]) < IndexOf(sel, keys[q]))
  }

  /** Selecting one more name keeps the order, and a name new to the selection may be added at the end. */
  lemma OrderExtend(sel: seq<string>, keys: seq<string>, b: nat, n: nat)
    requires n < |sel| && InSelectionOrder(sel[..n], keys, b)
    ensures InSelectionOrder(sel[..n + 1], keys, b)
    ensures sel[n] !in sel[..n] ==> InSelectionOrder(sel[..n + 1], keys + [sel[n]], b)
  {
    var s, t := sel[..n], sel[..n + 1];
    assert t[..n] == s;
    forall q | b <= q < |keys| ensures keys[q] in t && IndexOf(t, keys[q]) == IndexOf(s, keys[q]) {
      IndexOfPrefix(t, keys[q], n);
    }
    if sel[n] !in s {
      var keys' := keys + [sel[n]];
      assert IndexOf(t, sel[n]) == n;
      forall x, y | b <= x < y < |keys'| ensures IndexOf(t, keys'[x]) < IndexOf(t, keys'[y]) {
        if y == |keys| {
          assert keys'[x] == keys[x];
        } else {
          assert keys'[x] == keys[x] && keys'[y] == keys[y];
        }
      }
    }
  }

  /**
   * The names a returned record adds stand in the order in which they are
   * first selected.
   */
  lemma {:induction false} AssembleOrder(base: Record, sel: seq<string>, step: string -> Step)
    requires Valid(base) && Assemble(base, sel, step).Returned?
    ensures InSelectionOrder(sel, Assemble(base, sel, step).value.keys, |base.keys|)
    decreases |sel|
  {
    if sel == [] {
      assert Assemble(base, sel, step).value.keys == base.keys;
    } else {
      var n := |sel|;
      var p := sel[..n - 1];
      var k := sel[n - 1];
      AssembleOrder(base, p, step);
      var r0 := Assemble(base, p, step).value;
      OrderExtend(sel, r0.keys, |base.keys|, n - 1);
      assert sel[..n] == sel;
      if step(k).Set? && k !in r0.values {
        assert k !in p by {
          AssembleValues(base, p, step);
        }
      }
    }
  }
}
