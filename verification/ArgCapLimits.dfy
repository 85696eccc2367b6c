/**
 * What the caps of `src/jarn/agent/tool_arg_redact.py` cut and what they leave: within all limits
 * a call is only redacted. The limits are given in numbers.
 */
module ArgCapLimits {
  import opened Prelude
  import opened ArgCaps

  // --------------------------------------------------------------------- what the caps leave

  function Least3(a: nat, b: nat, c: nat): (m: nat)
    ensures m <= a && m <= b && m <= c && m in {a, b, c}
  {
    if a <= b && a <= c then a else if b <= c then b else c
  }

  /** A text keeps its first characters: 2,000 of them or what the budget allows, if it has so many. */
  lemma TextIsPrefix(redact: Redactor, s: string, depth: nat, left: nat)
    ensures
      var text := redact(s);
      var m := Least3(|text|, 2_000, left);
      Cap(redact, Text(s), depth, left) == Capped(Text(text[..m]), m < |text|, left - m)
  {
    assert redact(s)[..|redact(s)|] == redact(s);
  }

  /** A walk stops before a child only when it has visited 100 or the budget is used up. */
  lemma {:induction false} StopsOnlyAtLimits(redact: Redactor, v: Value, depth: nat, left: nat, n: nat)
    requires n <= |Children(v)|
    ensures
      var w := CapFirst(redact, v, depth, left, n);
      w.stopped ==> |w.values| < n && (|w.values| == 100 || w.left == 0)
    decreases n
  {
    if n > 0 {
      StopsOnlyAtLimits(redact, v, depth, left, n - 1);
    }
  }

  /** The length of all redacted texts. */
  function Length(redact: Redactor, v: Value): nat
    decreases v, 1
  {
    if v.Text? then |redact(v.s)| else LengthFirst(redact, v, |Children(v)|)
  }

  function LengthFirst(redact: Redactor, v: Value, n: nat): nat
    requires n <= |Children(v)|
    decreases v, 0, n
  {
    if n == 0 then 0
    else
      ChildSmaller(v, n - 1);
      LengthFirst(redact, v, n - 1) + Length(redact, Children(v)[n - 1])
  }

  /** Redacted texts of at most 2,000 characters in `levels` levels of containers of at most 100. */
  ghost predicate Small(redact: Redactor, v: Value, levels: nat)
    decreases levels
  {
    match v
    case Text(s) => |redact(s)| <= 2_000
    case Dict(entries) =>
      levels > 0 && |entries| <= 100 && forall i :: 0 <= i < |entries| ==> Small(redact, entries[i].value, levels - 1)
    case List(items) =>
      levels > 0 && |items| <= 100 && forall i :: 0 <= i < |items| ==> Small(redact, items[i], levels - 1)
    case _ => true
  }

  /** What is within all limits is only redacted. */
  lemma {:induction false} SmallIsWhole(redact: Redactor, v: Value, depth: nat, left: nat)
    requires depth <= 6 && Small(redact, v, 6 - depth) && Length(redact, v) < left
    ensures Cap(redact, v, depth, left) == Capped(Redact(redact, v), false, left - Length(redact, v))
    decreases v, 1, 0
  {
    if v.Dict? || v.List? {
      var n := |Children(v)|;
      SmallFirst(redact, v, depth, left, n);
      assert RedactAll(redact, v)[..n] == RedactAll(redact, v);
    }
  }

  lemma {:induction false} SmallFirst(redact: Redactor, v: Value, depth: nat, left: nat, n: nat)
    requires depth < 6 && Small(redact, v, 6 - depth) && n <= |Children(v)|
    requires LengthFirst(redact, v, n) < left
    ensures CapFirst(redact, v, depth, left, n) ==
      Walk(RedactAll(redact, v)[..n], false, left - LengthFirst(redact, v, n), false)
    decreases v, 0, n, 1
  {
    if n > 0 {
      var before := left - LengthFirst(redact, v, n - 1);
      SmallFirst(redact, v, depth, left, n - 1);
      var after := SmallVisit(redact, v, depth, before, n - 1);
      WholeStep(redact, v, depth, left, n, before, after);
    }
  }

  lemma {:induction false} SmallVisit(redact: Redactor, v: Value, depth: nat, before: nat, i: nat) returns (after: nat)
    requires depth < 6 && Small(redact, v, 6 - depth) && i < |Children(v)|
    requires Length(redact, Children(v)[i]) < before
    ensures |Children(v)| <= 100 && after == before - Length(redact, Children(v)[i])
    ensures Cap(redact, Children(v)[i], depth + 1, before) == Capped(Redact(redact, Children(v)[i]), false, after)
    decreases v, 0, i + 1, 0
  {
    ChildSmaller(v, i);
    SmallChild(redact, v, 6 - depth, i);
    SmallIsWhole(redact, Children(v)[i], depth + 1, before);
    after := before - Length(redact, Children(v)[i]);
  }

  lemma WholeStep(redact: Redactor, v: Value, depth: nat, left: nat, n: nat, before: nat, after: nat)
    requires 0 < n <= |Children(v)| <= 100 && before > 0
    requires CapFirst(redact, v, depth, left, n - 1) == Walk(RedactAll(redact, v)[..n - 1], false, before, false)
    requires Cap(redact, Children(v)[n - 1], depth + 1, before) == Capped(Redact(redact, Children(v)[n - 1]), false, after)
    ensures CapFirst(redact, v, depth, left, n) == Walk(RedactAll(redact, v)[..n], false, after, false)
  {
    WalkOn(redact, v, depth, left, n - 1);
    RedactAllAt(redact, v, n - 1);
    PrefixOn(RedactAll(redact, v), RedactAll(redact, v)[..n - 1], Redact(redact, Children(v)[n - 1]));
  }

  lemma SmallChild(redact: Redactor, v: Value, levels: nat, i: nat)
    requires Small(redact, v, levels) && i < |Children(v)|
    ensures levels > 0 && |Children(v)| <= 100 && Small(redact, Children(v)[i], levels - 1)
  {
  }

  // ------------------------------------------------------------------------- a whole tool call

  function CallLength(redact: Redactor, args: seq<Entry>, n: nat): nat
    requires n <= |args|
  {
    if n == 0 then 0 else CallLength(redact, args, n - 1) + Length(redact, args[n - 1].value)
  }

  /** The arguments of a call, redacted. */
  function RedactArgs(redact: Redactor, args: seq<Entry>): (values: seq<Value>)
    ensures |values| == |args|
  {
    seq(|args|, i requires 0 <= i < |args| => Redact(redact, args[i].value))
  }

  /** The first `n` arguments are small. */
  ghost predicate SmallCall(redact: Redactor, args: seq<Entry>, n: nat)
    requires n <= |args|
  {
    n == 0 || (Small(redact, args[n - 1].value, 6) && SmallCall(redact, args, n - 1))
  }

  /** A call within all limits is only redacted: no argument is cut and none is marked. */
  lemma {:induction false} SmallCallIsWhole(redact: Redactor, args: seq<Entry>, n: nat)
    requires n <= |args| && SmallCall(redact, args, n) && CallLength(redact, args, n) < 20_000
    ensures CapCall(redact, args, n).0 == Rekeyed(args, RedactArgs(redact, args)[..n])
    ensures CapCall(redact, args, n).1 == 20_000 - CallLength(redact, args, n)
  {
    if n > 0 {
      SmallCallIsWhole(redact, args, n - 1);
      var values, before := RedactArgs(redact, args), 20_000 - CallLength(redact, args, n - 1);
      var c := SmallArg(redact, args, n - 1, before);
      WholeArg(redact, args, n, values, before, c);
    }
  }

  lemma SmallArg(redact: Redactor, args: seq<Entry>, i: nat, before: nat) returns (c: Capped)
    requires i < |args| && Small(redact, args[i].value, 6) && Length(redact, args[i].value) < before
    ensures c == Cap(redact, args[i].value, 0, before)
    ensures !c.truncated && c.value == RedactArgs(redact, args)[i] && c.left == before - Length(redact, args[i].value)
  {
    c := Cap(redact, args[i].value, 0, before);
    SmallIsWhole(redact, args[i].value, 0, before);
  }

  lemma WholeArg(redact: Redactor, args: seq<Entry>, n: nat, values: seq<Value>, before: nat, c: Capped)
    requires 0 < n <= |args| == |values| && !c.truncated && c.value == values[n - 1]
    requires CapCall(redact, args, n - 1).0 == Rekeyed(args, values[..n - 1]) && CapCall(redact, args, n - 1).1 == before
    requires c == Cap(redact, args[n - 1].value, 0, before)
    ensures CapCall(redact, args, n).0 == Rekeyed(args, values[..n]) && CapCall(redact, args, n).1 == c.left
  {
    RekeyedOn(args, values[..n - 1], values[n - 1]);
    assert values[..n] == values[..n - 1] + [values[n - 1]];
  }

  /** A key is kept as it is, however long: the caps are on the texts of values. */
  lemma KeyIsNotCapped(redact: Redactor, key: string, left: nat)
    requires left > 0
    ensures
      var v := Dict([Entry(key, TRUE)]);
      Cap(redact, v, 0, left) == Capped(v, false, left)
  {
    var v := Dict([Entry(key, TRUE)]);
    WalkOn(redact, v, 0, left, 0);
    RekeyedOn(v.entries, [], TRUE);
    assert [] + [TRUE] == [TRUE];
  }
}
