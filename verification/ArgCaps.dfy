/**
 * Redaction and size caps for tool arguments, `src/jarn/agent/tool_arg_redact.py`: a walk over a
 * nested value that shares one character budget. Redaction itself is a parameter.
 */
module ArgCaps {
  import opened Prelude

  const MAX_CHARS := 2_000
  const MAX_DEPTH := 6
  const MAX_ITEMS := 100
  const MAX_TOTAL := 20_000
  const MARK := "__truncated"
  const TRUE := Scalar("True")

  /**
   * A tool argument. Keys are already turned into strings, in the order of insertion, and a
   * tuple is a list. `Omitted` is the note that stands for a container too deep to show.
   */
  datatype Value = Text(s: string) | Dict(entries: seq<Entry>) | List(items: seq<Value>)
                 | Scalar(repr: string) | Omitted(dict: bool)

  datatype Entry = Entry(key: string, value: Value)

  type Redactor = string -> string

  datatype Capped = Capped(value: Value, truncated: bool, left: nat)

  /** How far the walk over the children of one container has come. */
  datatype Walk = Walk(values: seq<Value>, truncated: bool, left: nat, stopped: bool)

  // ------------------------------------------------------------------- dictionaries as entries

  /** `out[key] = value`. */
  function Put(out: seq<Entry>, key: string, value: Value): seq<Entry> {
    if out == [] then [Entry(key, value)]
    else if out[0].key == key then [Entry(key, value)] + out[1..]
    else [out[0]] + Put(out[1..], key, value)
  }

  function Lookup(out: seq<Entry>, key: string): Option<Value> {
    if out == [] then None
    else if out[0].key == key then Some(out[0].value)
    else Lookup(out[1..], key)
  }

  /** The dictionary that gives the first keys of `entries` the values `values`. */
  function Rekeyed(entries: seq<Entry>, values: seq<Value>): seq<Entry>
    requires |values| <= |entries|
  {
    if values == [] then []
    else
      var i := |values| - 1;
      Put(Rekeyed(entries, values[..i]), entries[i].key, values[i])
  }

  ghost predicate DistinctKeys(entries: seq<Entry>) {
    forall i, j :: 0 <= i < j < |entries| ==> entries[i].key != entries[j].key
  }

  lemma {:induction false} PutNew(out: seq<Entry>, key: string, value: Value)
    requires forall i :: 0 <= i < |out| ==> out[i].key != key
    ensures Put(out, key, value) == out + [Entry(key, value)]
  {
    if out != [] {
      PutNew(out[1..], key, value);
    }
  }

  lemma {:induction false} LookupPut(out: seq<Entry>, key: string, value: Value, k: string)
    ensures Lookup(Put(out, key, value), k) == if k == key then Some(value) else Lookup(out, k)
  {
    if out != [] && out[0].key != key {
      LookupPut(out[1..], key, value, k);
    }
  }

  lemma {:induction false} RekeyedDistinct(entries: seq<Entry>, values: seq<Value>)
    requires DistinctKeys(entries) && |values| <= |entries|
    ensures Rekeyed(entries, values) == seq(|values|, i requires 0 <= i < |values| => Entry(entries[i].key, values[i]))
  {
    if values != [] {
      var i := |values| - 1;
      RekeyedDistinct(entries, values[..i]);
      PutNew(Rekeyed(entries, values[..i]), entries[i].key, values[i]);
    }
  }

  // ---------------------------------------------------------------------------- specification

  function Children(v: Value): (items: seq<Value>) {
    match v
    case Dict(entries) => seq(|entries|, i requires 0 <= i < |entries| => entries[i].value)
    case List(items) => items
    case _ => []
  }

  function Cap(redact: Redactor, v: Value, depth: nat, left: nat): (r: Capped)
    decreases v, 1, 0
  {
    match v
    case Text(s) =>
      var text := redact(s);
      var allowance := if left < MAX_CHARS then left else MAX_CHARS;
      if |text| > allowance then Capped(Text(text[..allowance]), true, left - allowance)
      else Capped(Text(text), false, left - |text|)
    case Dict(entries) =>
      if depth >= MAX_DEPTH then Capped(Omitted(true), true, left)
      else
        var w := CapFirst(redact, v, depth, left, |entries|);
        Capped(Dict(Rekeyed(entries, w.values)), w.truncated, w.left)
    case List(items) =>
      if depth >= MAX_DEPTH then Capped(Omitted(false), true, left)
      else
        var w := CapFirst(redact, v, depth, left, |items|);
        Capped(List(w.values), w.truncated, w.left)
    case _ => Capped(v, false, left)
  }

  /** The walk over the first `n` children of a container. */
  function CapFirst(redact: Redactor, v: Value, depth: nat, left: nat, n: nat): (w: Walk)
    requires n <= |Children(v)|
    ensures |w.values| <= n && (!w.stopped ==> |w.values| == n)
    decreases v, 0, n
  {
    if n == 0 then Walk([], false, left, false)
    else
      var w := CapFirst(redact, v, depth, left, n - 1);
      if w.stopped then w
      else if n - 1 >= MAX_ITEMS || w.left == 0 then Walk(w.values, true, w.left, true)
      else
        var c := Cap(redact, Children(v)[n - 1], depth + 1, w.left);
        Walk(w.values + [c.value], w.truncated || c.truncated, c.left, false)
  }

  // ------------------------------------------------------------------------ the budgeted walk

  /** The shared cell `budget[0]`. */
  class Budget {
    var left: nat

    constructor (left: nat)
      ensures this.left == left
    {
      this.left := left;
    }
  }

  method CapArg(redact: Redactor, v: Value, depth: nat, budget: Budget) returns (value: Value, truncated: bool)
    modifies budget
    ensures Capped(value, truncated, budget.left) == Cap(redact, v, depth, old(budget.left))
    decreases v, 1
  {
    match v
    case Text(s) =>
      var text := redact(s);
      var allowance := if budget.left < MAX_CHARS then budget.left else MAX_CHARS;
      if |text| > allowance {
        budget.left := budget.left - allowance;
        return Text(text[..allowance]), true;
      }
      budget.left := budget.left - |text|;
      return Text(text), false;
    case Dict(entries) =>
      if depth >= MAX_DEPTH { return Omitted(true), true; }
      ghost var left := budget.left;
      var out;
      out, truncated := CapDict(redact, v, depth, budget);
      value := Dict(out);
      assert Cap(redact, v, depth, left).value == value;
    case List(list) =>
      if depth >= MAX_DEPTH { return Omitted(false), true; }
      ghost var left := budget.left;
      var items;
      items, truncated := CapList(redact, v, depth, budget);
      value := List(items);
      assert Cap(redact, v, depth, left).value == value;
    case _ =>
      return v, false;
  }

  /** The dictionary loop. */
  method CapDict(redact: Redactor, v: Value, depth: nat, budget: Budget) returns (out: seq<Entry>, truncated: bool)
    requires v.Dict?
    modifies budget
    ensures
      var w := CapFirst(redact, v, depth, old(budget.left), |v.entries|);
      out == Rekeyed(v.entries, w.values) && truncated == w.truncated && budget.left == w.left
    decreases v, 0
  {
    ghost var left := budget.left;
    ghost var w := Walk([], false, left, false);
    out, truncated := [], false;
    var index := 0;
    while index < |v.entries|
      invariant 0 <= index <= |v.entries|
      invariant w == CapFirst(redact, v, depth, left, index) == Walk(w.values, truncated, budget.left, false)
      invariant out == Rekeyed(v.entries, w.values)
    {
      if index >= MAX_ITEMS || budget.left <= 0 {
        StoppedStays(redact, v, depth, left, index + 1, |v.entries|);
        truncated := true;
        return;
      }
      ghost var before := w;
      WalkOn(redact, v, depth, left, index);
      ChildSmaller(v, index);
      var capped, itemTruncated := CapArg(redact, v.entries[index].value, depth + 1, budget);
      w := CapFirst(redact, v, depth, left, index + 1);
      RekeyedOn(v.entries, before.values, capped);
      out := Put(out, v.entries[index].key, capped);
      truncated := truncated || itemTruncated;
      index := index + 1;
    }
  }

  /** The list loop. */
  method CapList(redact: Redactor, v: Value, depth: nat, budget: Budget) returns (items: seq<Value>, truncated: bool)
    requires v.List?
    modifies budget
    ensures
      var w := CapFirst(redact, v, depth, old(budget.left), |v.items|);
      items == w.values && truncated == w.truncated && budget.left == w.left
    decreases v, 0
  {
    ghost var left := budget.left;
    items, truncated := [], false;
    var index := 0;
    while index < |v.items|
      invariant 0 <= index <= |v.items|
      invariant CapFirst(redact, v, depth, left, index) == Walk(items, truncated, budget.left, false)
    {
      if index >= MAX_ITEMS || budget.left <= 0 {
        StoppedStays(redact, v, depth, left, index + 1, |v.items|);
        truncated := true;
        return;
      }
      WalkOn(redact, v, depth, left, index);
      ChildSmaller(v, index);
      var capped, itemTruncated := CapArg(redact, v.items[index], depth + 1, budget);
      items := items + [capped];
      truncated := truncated || itemTruncated;
      index := index + 1;
    }
  }

  lemma WalkOn(redact: Redactor, v: Value, depth: nat, left: nat, n: nat)
    requires n < |Children(v)|
    ensures
      var w := CapFirst(redact, v, depth, left, n);
      !w.stopped && n < MAX_ITEMS && w.left > 0 ==>
        var c := Cap(redact, Children(v)[n], depth + 1, w.left);
        CapFirst(redact, v, depth, left, n + 1) == Walk(w.values + [c.value], w.truncated || c.truncated, c.left, false)
  {
  }

  lemma RekeyedOn(entries: seq<Entry>, values: seq<Value>, value: Value)
    requires |values| < |entries|
    ensures Rekeyed(entries, values + [value]) == Put(Rekeyed(entries, values), entries[|values|].key, value)
  {
    assert (values + [value])[..|values|] == values;
  }

  lemma {:induction false} StoppedStays(redact: Redactor, v: Value, depth: nat, left: nat, n: nat, m: nat)
    requires n <= m <= |Children(v)| && CapFirst(redact, v, depth, left, n).stopped
    ensures CapFirst(redact, v, depth, left, m) == CapFirst(redact, v, depth, left, n)
    decreases m
  {
    if n < m {
      StoppedStays(redact, v, depth, left, n, m - 1);
    }
  }

  // ----------------------------------------------------------------------------------- bounds

  /** At most `levels` nested containers of at most 100 items, and no long text anywhere. */
  ghost predicate Bounded(v: Value, levels: nat)
    decreases v
  {
    match v
    case Text(s) => |s| <= 2_000
    case Dict(entries) =>
      levels > 0 && |entries| <= 100 && forall i :: 0 <= i < |entries| ==> Bounded(entries[i].value, levels - 1)
    case List(items) =>
      levels > 0 && |items| <= 100 && forall i :: 0 <= i < |items| ==> Bounded(items[i], levels - 1)
    case _ => true
  }

  lemma {:induction false} PutBounded(out: seq<Entry>, key: string, value: Value, levels: nat)
    requires Bounded(value, levels) && forall i :: 0 <= i < |out| ==> Bounded(out[i].value, levels)
    ensures forall i :: 0 <= i < |Put(out, key, value)| ==> Bounded(Put(out, key, value)[i].value, levels)
    ensures |Put(out, key, value)| <= |out| + 1
  {
    if out != [] && out[0].key != key {
      PutBounded(out[1..], key, value, levels);
    }
  }

  lemma {:induction false} RekeyedBounded(entries: seq<Entry>, values: seq<Value>, levels: nat)
    requires |values| <= |entries| && forall i :: 0 <= i < |values| ==> Bounded(values[i], levels)
    ensures forall i :: 0 <= i < |Rekeyed(entries, values)| ==> Bounded(Rekeyed(entries, values)[i].value, levels)
    ensures |Rekeyed(entries, values)| <= |values|
  {
    if values != [] {
      var i := |values| - 1;
      RekeyedBounded(entries, values[..i], levels);
      PutBounded(Rekeyed(entries, values[..i]), entries[i].key, values[i], levels);
    }
  }

  /** Whatever comes in, what goes out is bounded. */
  lemma {:induction false} CapBounds(redact: Redactor, v: Value, depth: nat, left: nat)
    requires depth <= 6
    ensures Bounded(Cap(redact, v, depth, left).value, 6 - depth)
    decreases v, 1, 0
  {
    if (v.Dict? || v.List?) && depth < MAX_DEPTH {
      var n := |Children(v)|;
      CapFirstBounds(redact, v, depth, left, n);
      if v.Dict? {
        RekeyedBounded(v.entries, CapFirst(redact, v, depth, left, n).values, MAX_DEPTH - depth - 1);
      }
    }
  }

  lemma {:induction false} CapFirstBounds(redact: Redactor, v: Value, depth: nat, left: nat, n: nat)
    requires depth < MAX_DEPTH && n <= |Children(v)|
    ensures
      var values := CapFirst(redact, v, depth, left, n).values;
      |values| <= MAX_ITEMS && forall i :: 0 <= i < |values| ==> Bounded(values[i], MAX_DEPTH - depth - 1)
    decreases v, 0, n
  {
    if n > 0 {
      CapFirstBounds(redact, v, depth, left, n - 1);
      var w := CapFirst(redact, v, depth, left, n - 1);
      ChildSmaller(v, n - 1);
      CapBounds(redact, Children(v)[n - 1], depth + 1, w.left);
    }
  }

  lemma ChildSmaller(v: Value, i: nat)
    requires i < |Children(v)|
    ensures Children(v)[i] < v
  {
    if v.Dict? {
      assert v.entries[i] in v.entries;
    }
  }

  // ----------------------------------------------------- conservation and the truncation flag

  /** The fully redacted value, without caps. Of keys that read the same the last one counts. */
  function Redact(redact: Redactor, v: Value): Value
    decreases v, 1
  {
    match v
    case Text(s) => Text(redact(s))
    case Dict(entries) => Dict(Rekeyed(entries, RedactAll(redact, v)))
    case List(items) => List(RedactAll(redact, v))
    case _ => v
  }

  function RedactAll(redact: Redactor, v: Value): (values: seq<Value>)
    ensures |values| == |Children(v)|
    decreases v, 0
  {
    match v
    case Dict(entries) => seq(|entries|, i requires 0 <= i < |entries| => Redact(redact, entries[i].value))
    case List(items) => seq(|items|, i requires 0 <= i < |items| => Redact(redact, items[i]))
    case _ => []
  }

  lemma RedactAllAt(redact: Redactor, v: Value, i: nat)
    requires i < |Children(v)|
    ensures RedactAll(redact, v)[i] == Redact(redact, Children(v)[i])
  {
  }

  /** No dictionary in the value has two keys that read the same. */
  ghost predicate Distinct(v: Value)
    decreases v
  {
    match v
    case Dict(entries) => DistinctKeys(entries) && forall i :: 0 <= i < |entries| ==> Distinct(entries[i].value)
    case List(items) => forall i :: 0 <= i < |items| ==> Distinct(items[i])
    case _ => true
  }

  function Sum(ns: seq<nat>): nat {
    if ns == [] then 0 else Sum(ns[..|ns| - 1]) + ns[|ns| - 1]
  }

  /** The number of characters in the text leaves of a value. */
  function Kept(v: Value): nat
    decreases v
  {
    match v
    case Text(s) => |s|
    case Dict(entries) => Sum(seq(|entries|, i requires 0 <= i < |entries| => Kept(entries[i].value)))
    case List(items) => Sum(seq(|items|, i requires 0 <= i < |items| => Kept(items[i])))
    case _ => 0
  }

  function KeptAll(values: seq<Value>): nat {
    if values == [] then 0 else KeptAll(values[..|values| - 1]) + Kept(values[|values| - 1])
  }

  lemma KeptAllOn(values: seq<Value>, last: Value)
    ensures KeptAll(values + [last]) == KeptAll(values) + Kept(last)
  {
    assert (values + [last])[..|values|] == values;
  }

  lemma {:induction false} SumIsKeptAll(values: seq<Value>, ns: seq<nat>)
    requires |ns| == |values| && forall i :: 0 <= i < |ns| ==> ns[i] == Kept(values[i])
    ensures Sum(ns) == KeptAll(values)
  {
    if ns != [] {
      SumIsKeptAll(values[..|values| - 1], ns[..|ns| - 1]);
    }
  }

  /** The characters kept and the budget left over add up to the budget there was. */
  lemma {:induction false} BudgetConserved(redact: Redactor, v: Value, depth: nat, left: nat)
    requires Distinct(v)
    ensures Kept(Cap(redact, v, depth, left).value) + Cap(redact, v, depth, left).left == left
    decreases v, 1, 0
  {
    if (v.Dict? || v.List?) && depth < MAX_DEPTH {
      var n := |Children(v)|;
      FirstConserved(redact, v, depth, left, n);
      if v.Dict? {
        DictExact(redact, v.entries, CapFirst(redact, v, depth, left, n).values);
      } else {
        ListExact(redact, v.items, CapFirst(redact, v, depth, left, n).values);
      }
    }
  }

  /** What a walk has kept and what it leaves. */
  function Spent(w: Walk): nat {
    KeptAll(w.values) + w.left
  }

  /** How a walk goes on from `w` when its next child, if it is visited, becomes `c`. */
  ghost predicate GoesOn(w: Walk, c: Capped, w': Walk) {
    w' == w || w' == Walk(w.values, true, w.left, true)
    || w' == Walk(w.values + [c.value], w.truncated || c.truncated, c.left, false)
  }

  lemma WalkStep(redact: Redactor, v: Value, depth: nat, left: nat, n: nat) returns (w: Walk, c: Capped)
    requires 0 < n <= |Children(v)|
    ensures w == CapFirst(redact, v, depth, left, n - 1)
    ensures c == Cap(redact, Children(v)[n - 1], depth + 1, w.left)
    ensures GoesOn(w, c, CapFirst(redact, v, depth, left, n))
  {
    w := CapFirst(redact, v, depth, left, n - 1);
    c := Cap(redact, Children(v)[n - 1], depth + 1, w.left);
  }

  lemma WalkKept(w: Walk, c: Capped, w': Walk)
    requires GoesOn(w, c, w')
    ensures Spent(w') == Spent(w) || Spent(w') == Spent(w) - w.left + Kept(c.value) + c.left
  {
    KeptAllOn(w.values, c.value);
  }

  lemma {:induction false} FirstConserved(redact: Redactor, v: Value, depth: nat, left: nat, n: nat)
    requires Distinct(v) && n <= |Children(v)|
    ensures Spent(CapFirst(redact, v, depth, left, n)) == left
    decreases v, 0, n
  {
    if n > 0 {
      FirstConserved(redact, v, depth, left, n - 1);
      var w, c := WalkStep(redact, v, depth, left, n);
      ChildSmaller(v, n - 1);
      ChildDistinct(v, n - 1);
      BudgetConserved(redact, Children(v)[n - 1], depth + 1, w.left);
      WalkKept(w, c, CapFirst(redact, v, depth, left, n));
    }
  }

  // For keys that read the same, too: an entry may then overwrite another.

  lemma {:induction false} PutKept(out: seq<Entry>, key: string, value: Value)
    ensures Kept(Dict(Put(out, key, value))) <= Kept(Dict(out)) + Kept(value)
  {
    if out == [] {
      KeptCons(Entry(key, value), []);
    } else {
      KeptCons(out[0], out[1..]);
      assert out == [out[0]] + out[1..];
      if out[0].key == key {
        KeptCons(Entry(key, value), out[1..]);
      } else {
        PutKept(out[1..], key, value);
        KeptCons(out[0], Put(out[1..], key, value));
      }
    }
  }

  lemma KeptCons(e: Entry, out: seq<Entry>)
    ensures Kept(Dict([e] + out)) == Kept(e.value) + Kept(Dict(out))
  {
    var ns := seq(|out|, i requires 0 <= i < |out| => Kept(out[i].value));
    var all := [e] + out;
    assert seq(|all|, i requires 0 <= i < |all| => Kept(all[i].value)) == [Kept(e.value)] + ns;
    SumCons(Kept(e.value), ns);
  }

  lemma {:induction false} SumCons(n: nat, ns: seq<nat>)
    ensures Sum([n] + ns) == n + Sum(ns)
  {
    if ns == [] {
      assert ([n] + ns)[..0] == [];
    } else {
      SumCons(n, ns[..|ns| - 1]);
      assert ([n] + ns)[..|ns|] == [n] + ns[..|ns| - 1];
    }
  }

  lemma {:induction false} RekeyedKept(entries: seq<Entry>, values: seq<Value>)
    requires |values| <= |entries|
    ensures Kept(Dict(Rekeyed(entries, values))) <= KeptAll(values)
  {
    if values == [] {
      assert Rekeyed(entries, values) == [];
    } else {
      var i := |values| - 1;
      RekeyedKept(entries, values[..i]);
      PutKept(Rekeyed(entries, values[..i]), entries[i].key, values[i]);
    }
  }

  /** For every input the characters kept and the budget left over fit the budget there was. */
  lemma {:induction false} BudgetBound(redact: Redactor, v: Value, depth: nat, left: nat)
    ensures Kept(Cap(redact, v, depth, left).value) + Cap(redact, v, depth, left).left <= left
    decreases v, 1, 0
  {
    if (v.Dict? || v.List?) && depth < MAX_DEPTH {
      var n := |Children(v)|;
      FirstBound(redact, v, depth, left, n);
      if v.Dict? {
        RekeyedKept(v.entries, CapFirst(redact, v, depth, left, n).values);
      } else {
        ListExact(redact, v.items, CapFirst(redact, v, depth, left, n).values);
      }
    }
  }

  lemma {:induction false} FirstBound(redact: Redactor, v: Value, depth: nat, left: nat, n: nat)
    requires n <= |Children(v)|
    ensures Spent(CapFirst(redact, v, depth, left, n)) <= left
    decreases v, 0, n
  {
    if n > 0 {
      var w, c := WalkStep(redact, v, depth, left, n);
      FirstBound(redact, v, depth, left, n - 1);
      assert Kept(c.value) + c.left <= w.left by {
        ChildSmaller(v, n - 1);
        BudgetBound(redact, Children(v)[n - 1], depth + 1, w.left);
      }
      WalkKept(w, c, CapFirst(redact, v, depth, left, n));
    }
  }

  /** For every input a value that is not marked as truncated is the fully redacted one. */
  lemma {:induction false} UnmarkedIsWhole(redact: Redactor, v: Value, depth: nat, left: nat)
    requires !Cap(redact, v, depth, left).truncated
    ensures Cap(redact, v, depth, left).value == Redact(redact, v)
    decreases v, 1, 0
  {
    if v.Dict? || v.List? {
      FirstUnmarked(redact, v, depth, left, |Children(v)|);
      assert RedactAll(redact, v)[..|Children(v)|] == RedactAll(redact, v);
    }
  }

  lemma {:induction false} FirstUnmarked(redact: Redactor, v: Value, depth: nat, left: nat, n: nat)
    requires n <= |Children(v)| && !CapFirst(redact, v, depth, left, n).truncated
    ensures CapFirst(redact, v, depth, left, n).values == RedactAll(redact, v)[..n]
    decreases v, 0, n, 1
  {
    if n > 0 {
      var w, last := UnmarkedBefore(redact, v, depth, left, n);
      FirstUnmarked(redact, v, depth, left, n - 1);
      RedactAllAt(redact, v, n - 1);
      PrefixOn(RedactAll(redact, v), w.values, last);
    }
  }

  /** Where a walk is not marked, neither was the walk before, and the last child is whole. */
  lemma {:induction false} UnmarkedBefore(redact: Redactor, v: Value, depth: nat, left: nat, n: nat) returns (w: Walk, last: Value)
    requires 0 < n <= |Children(v)| && !CapFirst(redact, v, depth, left, n).truncated
    ensures w == CapFirst(redact, v, depth, left, n - 1) && !w.truncated
    ensures last == Redact(redact, Children(v)[n - 1])
    ensures CapFirst(redact, v, depth, left, n).values == w.values + [last]
    decreases v, 0, n, 0
  {
    w := CapFirst(redact, v, depth, left, n - 1);
    StoppedIsMarked(redact, v, depth, left, n - 1);
    WalkOn(redact, v, depth, left, n - 1);
    ChildSmaller(v, n - 1);
    UnmarkedIsWhole(redact, Children(v)[n - 1], depth + 1, w.left);
    last := Cap(redact, Children(v)[n - 1], depth + 1, w.left).value;
  }

  lemma {:induction false} StoppedIsMarked(redact: Redactor, v: Value, depth: nat, left: nat, n: nat)
    requires n <= |Children(v)|
    ensures CapFirst(redact, v, depth, left, n).stopped ==> CapFirst(redact, v, depth, left, n).truncated
    decreases n
  {
    if n > 0 {
      StoppedIsMarked(redact, v, depth, left, n - 1);
    }
  }

  // ------------------------------------------------- exactly when a marked dictionary is whole

  /** The last of the first `n` entries with this key, or -1. */
  function LastAt(entries: seq<Entry>, n: nat, key: string): (i: int)
    requires n <= |entries|
    ensures -1 <= i < n && (i >= 0 ==> entries[i].key == key)
    ensures forall j :: i < j < n ==> entries[j].key != key
  {
    if n == 0 then -1 else if entries[n - 1].key == key then n - 1 else LastAt(entries, n - 1, key)
  }

  /** The keys of the first `n` entries in the order in which they first appear. */
  function KeyOrder(entries: seq<Entry>, n: nat): (keys: seq<string>)
    requires n <= |entries|
  {
    if n == 0 then []
    else
      var keys, key := KeyOrder(entries, n - 1), entries[n - 1].key;
      if key in keys then keys else keys + [key]
  }

  lemma {:induction false} KeyOrderHas(entries: seq<Entry>, n: nat, k: string)
    requires n <= |entries|
    ensures k in KeyOrder(entries, n) <==> LastAt(entries, n, k) >= 0
  {
    if n > 0 {
      KeyOrderHas(entries, n - 1, k);
    }
  }

  function KeysOf(out: seq<Entry>): (keys: seq<string>)
    ensures |keys| == |out| && forall i :: 0 <= i < |out| ==> keys[i] == out[i].key
  {
    seq(|out|, i requires 0 <= i < |out| => out[i].key)
  }

  lemma {:induction false} KeysPut(out: seq<Entry>, key: string, value: Value)
    ensures KeysOf(Put(out, key, value)) == if key in KeysOf(out) then KeysOf(out) else KeysOf(out) + [key]
  {
    if out != [] {
      var rest := out[1..];
      KeysCons(out[0], rest);
      assert out == [out[0]] + rest;
      if out[0].key != key {
        KeysPut(rest, key, value);
        KeysCons(out[0], Put(rest, key, value));
      } else {
        KeysCons(Entry(key, value), rest);
      }
    }
  }

  lemma KeysCons(e: Entry, out: seq<Entry>)
    ensures KeysOf([e] + out) == [e.key] + KeysOf(out)
  {
  }

  lemma {:induction false} RekeyedKeys(entries: seq<Entry>, values: seq<Value>)
    requires |values| <= |entries|
    ensures KeysOf(Rekeyed(entries, values)) == KeyOrder(entries, |values|)
  {
    if values != [] {
      var i := |values| - 1;
      RekeyedKeys(entries, values[..i]);
      KeysPut(Rekeyed(entries, values[..i]), entries[i].key, values[i]);
    }
  }

  lemma {:induction false} RekeyedLookup(entries: seq<Entry>, values: seq<Value>, k: string)
    requires |values| <= |entries|
    ensures
      var i := LastAt(entries, |values|, k);
      Lookup(Rekeyed(entries, values), k) == if i < 0 then None else Some(values[i])
  {
    if values != [] {
      var i := |values| - 1;
      RekeyedLookup(entries, values[..i], k);
      LookupPut(Rekeyed(entries, values[..i]), entries[i].key, values[i], k);
    }
  }

  /** Later entries without a new key do not change the order of the keys. */
  lemma {:induction false} KeyOrderStays(entries: seq<Entry>, n: nat, m: nat)
    requires n <= m <= |entries| && forall i :: n <= i < m ==> entries[i].key in KeyOrder(entries, n)
    ensures KeyOrder(entries, m) == KeyOrder(entries, n)
    decreases m
  {
    if n < m {
      KeyOrderStays(entries, n, m - 1);
    }
  }

  lemma {:induction false} KeyOrderDistinct(entries: seq<Entry>, n: nat)
    requires n <= |entries|
    ensures forall i, j :: 0 <= i < j < |KeyOrder(entries, n)| ==> KeyOrder(entries, n)[i] != KeyOrder(entries, n)[j]
  {
    if n > 0 {
      KeyOrderDistinct(entries, n - 1);
    }
  }

  lemma {:induction false} LookupAt(out: seq<Entry>, i: nat)
    requires i < |out| && DistinctKeys(out)
    ensures Lookup(out, out[i].key) == Some(out[i].value)
  {
    if i > 0 {
      LookupAt(out[1..], i - 1);
      assert out[0].key != out[i].key;
    }
  }

  /** Dictionaries with the same keys in the same order and the same values are the same. */
  lemma SameDict(a: seq<Entry>, b: seq<Entry>)
    requires KeysOf(a) == KeysOf(b) && DistinctKeys(a) && DistinctKeys(b)
    requires forall i :: 0 <= i < |a| ==> Lookup(a, a[i].key) == Lookup(b, a[i].key)
    ensures a == b
  {
    assert |a| == |KeysOf(a)| == |b|;
    forall i | 0 <= i < |a| ensures a[i] == b[i] {
      assert KeysOf(a)[i] == KeysOf(b)[i];
      LookupAt(a, i);
      LookupAt(b, i);
    }
  }

  /** What the last visited entry of a key became is what its last entry should be. */
  ghost predicate LastKept(entries: seq<Entry>, values: seq<Value>, full: seq<Value>, i: nat)
    requires |values| <= |entries| == |full| && i < |entries|
  {
    LastAt(entries, |entries|, entries[i].key) == i ==>
      var j := LastAt(entries, |values|, entries[i].key);
      j >= 0 && values[j] == full[i]
  }

  ghost predicate AllLastKept(entries: seq<Entry>, values: seq<Value>, full: seq<Value>)
    requires |values| <= |entries| == |full|
  {
    forall i :: 0 <= i < |entries| ==> LastKept(entries, values, full, i)
  }

  lemma RekeyedSameIff(entries: seq<Entry>, values: seq<Value>, full: seq<Value>)
    requires |values| <= |entries| == |full|
    ensures Rekeyed(entries, values) == Rekeyed(entries, full) <==> AllLastKept(entries, values, full)
  {
    var a, b := Rekeyed(entries, values), Rekeyed(entries, full);
    if a == b {
      forall i | 0 <= i < |entries| ensures LastKept(entries, values, full, i) {
        RekeyedLookup(entries, values, entries[i].key);
        RekeyedLookup(entries, full, entries[i].key);
      }
    }
    if AllLastKept(entries, values, full) {
      AllKept(entries, values, full);
    }
  }

  lemma AllKept(entries: seq<Entry>, values: seq<Value>, full: seq<Value>)
    requires |values| <= |entries| == |full|
    requires forall i :: 0 <= i < |entries| ==> LastKept(entries, values, full, i)
    ensures Rekeyed(entries, values) == Rekeyed(entries, full)
  {
    var a, b, n := Rekeyed(entries, values), Rekeyed(entries, full), |entries|;
    forall i | 0 <= i < n ensures LastAt(entries, |values|, entries[i].key) >= 0 {
      assert LastKept(entries, values, full, LastAt(entries, n, entries[i].key));
    }
    forall i | |values| <= i < n ensures entries[i].key in KeyOrder(entries, |values|) {
      KeyOrderHas(entries, |values|, entries[i].key);
    }
    RekeyedKeys(entries, values);
    RekeyedKeys(entries, full);
    KeyOrderStays(entries, |values|, n);
    KeyOrderDistinct(entries, n);
    DistinctByKeys(a, KeyOrder(entries, n));
    DistinctByKeys(b, KeyOrder(entries, n));
    forall i | 0 <= i < |a| ensures Lookup(a, a[i].key) == Lookup(b, a[i].key) {
      var k := a[i].key;
      assert KeysOf(a)[i] == k && k in KeyOrder(entries, n);
      KeyOrderHas(entries, n, k);
      RekeyedLookup(entries, values, k);
      RekeyedLookup(entries, full, k);
      assert LastKept(entries, values, full, LastAt(entries, n, k));
    }
    SameDict(a, b);
  }

  lemma DistinctByKeys(out: seq<Entry>, keys: seq<string>)
    requires KeysOf(out) == keys && forall i, j :: 0 <= i < j < |keys| ==> keys[i] != keys[j]
    ensures DistinctKeys(out)
  {
    forall i, j | 0 <= i < j < |out| ensures out[i].key != out[j].key {
      assert keys[i] == out[i].key && keys[j] == out[j].key;
    }
  }

  /**
   * For every input a dictionary is whole exactly when, for each key, what its last visited entry
   * became is the redacted value of its last entry. It is marked in vain when that holds and yet
   * some entry was truncated or not visited: the truncated ones are then all overwritten.
   */
  lemma DictWholeIff(redact: Redactor, v: Value, depth: nat, left: nat)
    requires v.Dict? && depth < MAX_DEPTH
    ensures
      var values := CapFirst(redact, v, depth, left, |v.entries|).values;
      Cap(redact, v, depth, left).value == Redact(redact, v) <==>
        AllLastKept(v.entries, values, RedactAll(redact, v))
  {
    var values, full := CapFirst(redact, v, depth, left, |v.entries|).values, RedactAll(redact, v);
    RekeyedSameIff(v.entries, values, full);
    assert Cap(redact, v, depth, left).value == Dict(Rekeyed(v.entries, values));
    assert Redact(redact, v) == Dict(Rekeyed(v.entries, full));
  }

  /** A truncated entry that a later one of the same key overwrites: marked, and yet nothing is missing. */
  lemma OverwrittenEntry(redact: Redactor, long: string, left: nat)
    requires redact(long) == long && redact("") == "" && |long| > MAX_CHARS && left > MAX_CHARS
    ensures
      var v := Dict([Entry("a", Text(long)), Entry("a", Text(""))]);
      Cap(redact, v, 0, left).truncated && Cap(redact, v, 0, left).value == Redact(redact, v)
  {
    var v, cut, none := Dict([Entry("a", Text(long)), Entry("a", Text(""))]), Text(long[..MAX_CHARS]), Text("");
    assert Children(v) == [Text(long), none];
    WalkOn(redact, v, 0, left, 0);
    assert CapFirst(redact, v, 0, left, 1) == Walk([cut], true, left - MAX_CHARS, false);
    WalkOn(redact, v, 0, left, 1);
    assert CapFirst(redact, v, 0, left, 2) == Walk([cut, none], true, left - MAX_CHARS, false);
    assert RedactAll(redact, v) == [Text(long), none];
    assert LastAt(v.entries, 2, "a") == 1 && v.entries[0].key == v.entries[1].key == "a";
    assert |v.entries| == 2 && Cap(redact, v, 0, left).truncated;
    var values, full := CapFirst(redact, v, 0, left, |v.entries|).values, RedactAll(redact, v);
    assert values == [cut, none] && full == [Text(long), none];
    forall i | 0 <= i < |v.entries| ensures LastKept(v.entries, values, full, i) {
      assert i == 0 || i == 1;
    }
    DictWholeIff(redact, v, 0, left);
  }

  /** With distinct keys a value is marked as truncated exactly when it is not the fully redacted one. */
  lemma {:induction false} TruncatedIff(redact: Redactor, v: Value, depth: nat, left: nat)
    requires Distinct(v)
    ensures Cap(redact, v, depth, left).truncated <==> Cap(redact, v, depth, left).value != Redact(redact, v)
    decreases v, 1, 0
  {
    if (v.Dict? || v.List?) && depth < MAX_DEPTH {
      var n := |Children(v)|;
      FirstTruncatedIff(redact, v, depth, left, n);
      if v.Dict? {
        DictExact(redact, v.entries, CapFirst(redact, v, depth, left, n).values);
      } else {
        ListExact(redact, v.items, CapFirst(redact, v, depth, left, n).values);
      }
    }
  }

  lemma {:induction false} FirstTruncatedIff(redact: Redactor, v: Value, depth: nat, left: nat, n: nat)
    requires Distinct(v) && n <= |Children(v)|
    ensures CapFirst(redact, v, depth, left, n).truncated <==>
      !AllRedacted(redact, v, CapFirst(redact, v, depth, left, n).values, n)
    ensures CapFirst(redact, v, depth, left, n).stopped ==> CapFirst(redact, v, depth, left, n).truncated
    decreases v, 0, n
  {
    if n > 0 {
      FirstTruncatedIff(redact, v, depth, left, n - 1);
      var w := CapFirst(redact, v, depth, left, n - 1);
      if !w.stopped && n - 1 < MAX_ITEMS && w.left > 0 {
        var child := Children(v)[n - 1];
        ChildSmaller(v, n - 1);
        ChildDistinct(v, n - 1);
        TruncatedIff(redact, child, depth + 1, w.left);
        AllRedactedStep(redact, v, w.values, Cap(redact, child, depth + 1, w.left).value, n);
      }
    }
  }

  lemma DictExact(redact: Redactor, entries: seq<Entry>, values: seq<Value>)
    requires DistinctKeys(entries) && |values| <= |entries|
    ensures Kept(Dict(Rekeyed(entries, values))) == KeptAll(values)
    ensures Dict(Rekeyed(entries, values)) == Redact(redact, Dict(entries)) <==>
      AllRedacted(redact, Dict(entries), values, |entries|)
  {
    var redacted := RedactAll(redact, Dict(entries));
    RekeyedDistinct(entries, values);
    RekeyedDistinct(entries, redacted);
    var out, full := Rekeyed(entries, values), Rekeyed(entries, redacted);
    SumIsKeptAll(values, seq(|out|, i requires 0 <= i < |out| => Kept(out[i].value)));
    assert redacted[..|entries|] == redacted;
    if out == full {
      assert forall i :: 0 <= i < |values| ==> values[i] == out[i].value == full[i].value;
    }
  }

  lemma ListExact(redact: Redactor, items: seq<Value>, values: seq<Value>)
    ensures Kept(List(values)) == KeptAll(values)
    ensures List(values) == Redact(redact, List(items)) <==> AllRedacted(redact, List(items), values, |items|)
  {
    SumIsKeptAll(values, seq(|values|, i requires 0 <= i < |values| => Kept(values[i])));
    assert RedactAll(redact, List(items))[..|items|] == RedactAll(redact, List(items));
  }

  /** All of the first `n` children are there, each of them fully redacted. */
  ghost predicate AllRedacted(redact: Redactor, v: Value, values: seq<Value>, n: nat)
    requires n <= |Children(v)|
  {
    values == RedactAll(redact, v)[..n]
  }

  lemma AllRedactedStep(redact: Redactor, v: Value, values: seq<Value>, last: Value, n: nat)
    requires 0 < n <= |Children(v)| && |values| == n - 1
    ensures AllRedacted(redact, v, values + [last], n) <==>
      AllRedacted(redact, v, values, n - 1) && last == Redact(redact, Children(v)[n - 1])
  {
    PrefixOn(RedactAll(redact, v), values, last);
    RedactAllAt(redact, v, n - 1);
  }

  lemma PrefixOn<T>(full: seq<T>, values: seq<T>, last: T)
    requires |values| < |full|
    ensures values + [last] == full[..|values| + 1] <==> values == full[..|values|] && last == full[|values|]
  {
    var n := |values|;
    assert full[..n + 1] == full[..n] + [full[n]];
    if values + [last] == full[..n + 1] {
      assert (values + [last])[..n] == values && full[..n + 1][..n] == full[..n];
      assert (values + [last])[n] == last;
    }
  }

  lemma ChildDistinct(v: Value, i: nat)
    requires Distinct(v) && i < |Children(v)|
    ensures Distinct(Children(v)[i])
  {
  }

  // ------------------------------------------------------------------------- a whole tool call

  /** All arguments of one call share the budget; a truncated one gets a mark beside it. */
  function CapCall(redact: Redactor, args: seq<Entry>, n: nat): (r: (seq<Entry>, nat))
    requires n <= |args|
  {
    if n == 0 then ([], MAX_TOTAL)
    else
      var (out, left) := CapCall(redact, args, n - 1);
      var c := Cap(redact, args[n - 1].value, 0, left);
      (WithArg(out, args[n - 1].key, c), c.left)
  }

  /** What the dictionary holds after one more argument. */
  function WithArg(out: seq<Entry>, key: string, c: Capped): seq<Entry> {
    if c.truncated then Put(Put(out, key, c.value), key + MARK, TRUE) else Put(out, key, c.value)
  }

  method SanitizeToolArgs(redact: Redactor, args: seq<Entry>) returns (capped: seq<Entry>)
    ensures capped == CapCall(redact, args, |args|).0
  {
    if args == [] { return []; }
    capped := [];
    var budget := new Budget(MAX_TOTAL);
    var i := 0;
    while i < |args|
      invariant 0 <= i <= |args|
      invariant (capped, budget.left) == CapCall(redact, args, i)
    {
      var out, truncated := CapArg(redact, args[i].value, 0, budget);
      capped := Put(capped, args[i].key, out);
      if truncated {
        capped := Put(capped, args[i].key + MARK, TRUE);
      }
      i := i + 1;
    }
  }

  /** What argument `i` becomes, with the budget that the ones before it leave. */
  function CappedArg(redact: Redactor, args: seq<Entry>, i: nat): Capped
    requires i < |args|
  {
    Cap(redact, args[i].value, 0, CapCall(redact, args, i).1)
  }

  function KeptArgs(redact: Redactor, args: seq<Entry>, n: nat): nat
    requires n <= |args|
  {
    if n == 0 then 0 else KeptArgs(redact, args, n - 1) + Kept(CappedArg(redact, args, n - 1).value)
  }

  /** Together the arguments keep and leave exactly the 20,000 characters of the budget. */
  lemma {:induction false} CallConserved(redact: Redactor, args: seq<Entry>, n: nat)
    requires n <= |args| && forall j :: 0 <= j < |args| ==> Distinct(args[j].value)
    ensures KeptArgs(redact, args, n) + CapCall(redact, args, n).1 == 20_000
  {
    if n > 0 {
      CallConserved(redact, args, n - 1);
      BudgetConserved(redact, args[n - 1].value, 0, CapCall(redact, args, n - 1).1);
    }
  }

  /** Argument `i` is there, within bounds, and has a mark exactly when something of it is missing. */
  ghost predicate Reported(redact: Redactor, args: seq<Entry>, i: nat, out: seq<Entry>)
    requires i < |args|
  {
    var value := CappedArg(redact, args, i).value;
    && Lookup(out, args[i].key) == Some(value) && Bounded(value, MAX_DEPTH)
    && Lookup(out, args[i].key + MARK) == (if value != Redact(redact, args[i].value) then Some(TRUE) else None)
  }

  /** No other argument writes the key of argument `i` or its mark. */
  ghost predicate Alone(args: seq<Entry>, i: nat)
    requires i < |args|
  {
    forall j :: 0 <= j < |args| && j != i ==>
      && args[j].key != args[i].key
      && args[j].key != args[i].key + MARK && args[j].key + MARK != args[i].key
  }

  lemma LookupArg(out: seq<Entry>, key: string, c: Capped, k: string)
    ensures Lookup(WithArg(out, key, c), k) ==
      if c.truncated && k == key + MARK then Some(TRUE)
      else if k == key then Some(c.value)
      else Lookup(out, k)
  {
    LookupPut(out, key, c.value, k);
    LookupPut(Put(out, key, c.value), key + MARK, TRUE, k);
  }

  lemma MarksApart(key: string, k: string)
    ensures k != k + MARK && (key + MARK == k + MARK ==> key == k)
  {
    assert (k + MARK)[..|k|] == k && (key + MARK)[..|key|] == key;
  }

  /** For every input the result of a call is bounded, value by value and in all. */
  lemma {:induction false} CallBound(redact: Redactor, args: seq<Entry>, n: nat)
    requires n <= |args|
    ensures
      var (out, left) := CapCall(redact, args, n);
      && Kept(Dict(out)) + left <= 20_000
      && forall i :: 0 <= i < |out| ==> Bounded(out[i].value, 6)
  {
    if n > 0 {
      CallBound(redact, args, n - 1);
      var (before, left) := CapCall(redact, args, n - 1);
      var key, c := args[n - 1].key, Cap(redact, args[n - 1].value, 0, left);
      BudgetBound(redact, args[n - 1].value, 0, left);
      CapBounds(redact, args[n - 1].value, 0, left);
      WithArgBound(before, key, c);
    }
  }

  lemma WithArgBound(out: seq<Entry>, key: string, c: Capped)
    requires Bounded(c.value, MAX_DEPTH) && forall i :: 0 <= i < |out| ==> Bounded(out[i].value, MAX_DEPTH)
    ensures Kept(Dict(WithArg(out, key, c))) <= Kept(Dict(out)) + Kept(c.value)
    ensures forall i :: 0 <= i < |WithArg(out, key, c)| ==> Bounded(WithArg(out, key, c)[i].value, MAX_DEPTH)
  {
    var more := Put(out, key, c.value);
    PutKept(out, key, c.value);
    PutBounded(out, key, c.value, MAX_DEPTH);
    PutKept(more, key + MARK, TRUE);
    PutBounded(more, key + MARK, TRUE, MAX_DEPTH);
  }

  /** The last of the first `n` arguments that writes `k`, as its key or as its mark, or -1. */
  function Writer(redact: Redactor, args: seq<Entry>, n: nat, k: string): (j: int)
    requires n <= |args|
    ensures -1 <= j < n
  {
    if n == 0 then -1
    else if args[n - 1].key == k || (args[n - 1].key + MARK == k && CappedArg(redact, args, n - 1).truncated) then n - 1
    else Writer(redact, args, n - 1, k)
  }

  /** For every call and key: what stands there was written by the last argument that writes it. */
  lemma {:induction false} CallLookup(redact: Redactor, args: seq<Entry>, n: nat, k: string)
    requires n <= |args|
    ensures
      var j := Writer(redact, args, n, k);
      Lookup(CapCall(redact, args, n).0, k) ==
        if j < 0 then None
        else if args[j].key == k then Some(CappedArg(redact, args, j).value)
        else Some(TRUE)
  {
    if n > 0 {
      CallLookup(redact, args, n - 1, k);
      var (before, left) := CapCall(redact, args, n - 1);
      MarksApart(args[n - 1].key, k);
      LookupArg(before, args[n - 1].key, Cap(redact, args[n - 1].value, 0, left), k);
    }
  }

  lemma {:induction false} NoWriter(redact: Redactor, args: seq<Entry>, n: nat, k: string)
    requires n <= |args| && forall j :: 0 <= j < n ==> args[j].key != k && args[j].key + MARK != k
    ensures Writer(redact, args, n, k) == -1
  {
    if n > 0 {
      NoWriter(redact, args, n - 1, k);
    }
  }

  lemma {:induction false} WriterAlone(redact: Redactor, args: seq<Entry>, n: nat, i: nat)
    requires i < n <= |args| && Alone(args, i)
    ensures Writer(redact, args, n, args[i].key) == i
    ensures Writer(redact, args, n, args[i].key + MARK) == if CappedArg(redact, args, i).truncated then i else -1
  {
    var k := args[i].key;
    MarksApart(args[n - 1].key, k);
    if i < n - 1 {
      WriterAlone(redact, args, n - 1, i);
    } else {
      forall j | 0 <= j < i ensures args[j].key != k + MARK && args[j].key + MARK != k + MARK {
        MarksApart(args[j].key, k);
      }
      NoWriter(redact, args, i, k + MARK);
    }
  }

  /** An argument that no other interferes with is reported truly. */
  lemma CallReports(redact: Redactor, args: seq<Entry>, n: nat, i: nat)
    requires i < n <= |args| && Alone(args, i) && Distinct(args[i].value)
    ensures Reported(redact, args, i, CapCall(redact, args, n).0)
  {
    var k := args[i].key;
    WriterAlone(redact, args, n, i);
    MarksApart(k, k);
    CallLookup(redact, args, n, k);
    CallLookup(redact, args, n, k + MARK);
    TruncatedIff(redact, args[i].value, 0, CapCall(redact, args, i).1);
    CapBounds(redact, args[i].value, 0, CapCall(redact, args, i).1);
  }

  /** An argument whose key is another's mark overwrites it. */
  lemma MarkOverwritten(redact: Redactor, long: string)
    requires redact(long) == long && redact("") == "" && |long| > 2_000
    ensures
      var args := [Entry("a", Text(long)), Entry("a__truncated", Text(""))];
      && CappedArg(redact, args, 0).truncated
      && Lookup(CapCall(redact, args, 1).0, "a__truncated") == Some(TRUE)
      && Lookup(CapCall(redact, args, 2).0, "a__truncated") == Some(Text(""))
  {
    var args := [Entry("a", Text(long)), Entry("a__truncated", Text(""))];
    assert "a" + MARK == "a__truncated";
    assert CapCall(redact, args, 0) == ([], MAX_TOTAL);
    assert CappedArg(redact, args, 0).truncated;
    assert CapCall(redact, args, 1).1 == MAX_TOTAL - 2_000;
    assert CappedArg(redact, args, 1) == Capped(Text(""), false, MAX_TOTAL - 2_000);
    MarksApart("a", "a__truncated");
    assert Writer(redact, args, 1, "a__truncated") == 0 && Writer(redact, args, 2, "a__truncated") == 1;
    CallLookup(redact, args, 1, "a__truncated");
    CallLookup(redact, args, 2, "a__truncated");
  }
}
