/** Python's `sorted` for a strict order on the elements, and the order of strings. */
module Sorting {

  type Order<!T> = (T, T) -> bool

  function Insert<T>(x: T, xs: seq<T>, before: Order<T>): (r: seq<T>)
    ensures multiset(r) == multiset{x} + multiset(xs)
  {
    if xs == [] || before(x, xs[0]) then [x] + xs
    else
      assert xs == [xs[0]] + xs[1..];
      [xs[0]] + Insert(x, xs[1..], before)
  }

  /** Stable: of two elements that are not ordered the earlier one stays first. */
  function Sort<T>(xs: seq<T>, before: Order<T>): (r: seq<T>)
    ensures multiset(r) == multiset(xs)
  {
    if xs == [] then []
    else
      assert xs == xs[..|xs| - 1] + [xs[|xs| - 1]];
      Insert(xs[|xs| - 1], Sort(xs[..|xs| - 1], before), before)
  }

  /** A strict total order on the elements of `s`. */
  ghost predicate TotalOn<T(!new)>(before: Order<T>, s: set<T>) {
    && (forall x :: x in s ==> !before(x, x))
    && (forall x, y, z :: x in s && y in s && z in s && before(x, y) && before(y, z) ==> before(x, z))
    && (forall x, y :: x in s && y in s && x != y ==> before(x, y) || before(y, x))
  }

  ghost predicate Sorted<T(!new)>(xs: seq<T>, before: Order<T>) {
    forall i, j :: 0 <= i < j < |xs| ==> before(xs[i], xs[j])
  }

  ghost predicate NoDuplicates<T(!new)>(xs: seq<T>) {
    forall i, j :: 0 <= i < j < |xs| ==> xs[i] != xs[j]
  }

  ghost function Elements<T>(xs: seq<T>): set<T> {
    set x | x in xs
  }

  lemma {:induction false} SizeOfElements<T(!new)>(xs: seq<T>)
    ensures |Elements(xs)| <= |xs|
    ensures NoDuplicates(xs) ==> |Elements(xs)| == |xs|
  {
    if xs == [] {
      assert Elements(xs) == {};
    } else {
      var init, last := xs[..|xs| - 1], xs[|xs| - 1];
      SizeOfElements(init);
      assert xs == init + [last];
      assert Elements(xs) == Elements(init) + {last};
      if NoDuplicates(xs) { assert last !in init; }
    }
  }

  lemma {:induction false} InsertSorted<T(!new)>(x: T, xs: seq<T>, before: Order<T>, s: set<T>)
    requires TotalOn(before, s) && x in s && Elements(xs) <= s && x !in xs && Sorted(xs, before)
    ensures Sorted(Insert(x, xs, before), before)
    ensures forall y :: y in Insert(x, xs, before) <==> y == x || y in xs
  {
    if xs == [] {
    } else if before(x, xs[0]) {
      assert forall y :: y in xs ==> y in s;
      forall j | 0 <= j < |xs| ensures before(x, xs[j]) {
        assert xs[j] in s && xs[0] in s;
      }
    } else {
      assert xs[0] in xs && xs[0] in s && x != xs[0];
      assert forall y :: y in xs[1..] ==> y in xs;
      InsertSorted(x, xs[1..], before, s);
      var rest := Insert(x, xs[1..], before);
      forall j | 0 <= j < |rest| ensures before(xs[0], rest[j]) {
        assert rest[j] in rest;
        if rest[j] != x {
          var i :| 0 <= i < |xs[1..]| && xs[1..][i] == rest[j];
          assert before(xs[0], xs[i + 1]);
        }
      }
    }
  }

  lemma LastApart<T(!new)>(xs: seq<T>, init: seq<T>, last: T)
    requires xs == init + [last] && NoDuplicates(xs)
    ensures NoDuplicates(init) && last !in init
    ensures forall y :: y in xs <==> y in init || y == last
  {
    forall i | 0 <= i < |init| ensures init[i] != last {
      assert xs[i] != xs[|init|];
    }
    forall i, j | 0 <= i < j < |init| ensures init[i] != init[j] {
      assert xs[i] != xs[j];
    }
  }

  lemma {:induction false} SortSorts<T(!new)>(xs: seq<T>, before: Order<T>, s: set<T>)
    requires TotalOn(before, s) && Elements(xs) <= s && NoDuplicates(xs)
    ensures Sorted(Sort(xs, before), before)
    ensures forall y :: y in Sort(xs, before) <==> y in xs
  {
    if xs != [] {
      var init, last := xs[..|xs| - 1], xs[|xs| - 1];
      LastApart(xs, init, last);
      SortSorts(init, before, s);
      assert last in Elements(xs);
      InsertSorted(last, Sort(init, before), before, s);
    }
  }

  /** Two sorted lists of the same elements are the same list. */
  lemma {:induction false} SortedUnique<T(!new)>(xs: seq<T>, ys: seq<T>, before: Order<T>, s: set<T>)
    requires TotalOn(before, s) && Elements(xs) <= s
    requires Sorted(xs, before) && Sorted(ys, before) && forall x :: x in xs <==> x in ys
    ensures xs == ys
  {
    if xs == [] {
      EmptyWithout(ys);
    } else {
      assert xs[0] in ys;
      assert ys[0] in ys && xs[0] in Elements(xs) && ys[0] in Elements(xs);
      HeadFirst(xs, before, ys[0]);
      HeadFirst(ys, before, xs[0]);
      forall x ensures x in xs[1..] <==> x in ys[1..] {
        TailHas(xs, before, s, x);
        TailHas(ys, before, s, x);
      }
      assert forall x :: x in xs[1..] ==> x in xs;
      SortedUnique(xs[1..], ys[1..], before, s);
    }
  }

  lemma EmptyWithout<T(!new)>(ys: seq<T>)
    ensures (forall y :: y !in ys) ==> ys == []
  {
    if ys != [] {
      assert ys[0] in ys;
    }
  }

  lemma HeadFirst<T(!new)>(xs: seq<T>, before: Order<T>, x: T)
    requires Sorted(xs, before) && x in xs
    ensures x == xs[0] || before(xs[0], x)
  {
    var i :| 0 <= i < |xs| && xs[i] == x;
    assert i > 0 ==> before(xs[0], xs[i]);
  }

  lemma TailHas<T(!new)>(xs: seq<T>, before: Order<T>, s: set<T>, x: T)
    requires xs != [] && Sorted(xs, before) && TotalOn(before, s) && forall y :: y in xs ==> y in s
    ensures x in xs[1..] <==> x in xs && x != xs[0]
  {
    if x in xs[1..] {
      var i :| 0 <= i < |xs[1..]| && xs[1..][i] == x;
      assert before(xs[0], xs[i + 1]);
      assert xs[0] in s;
    }
    if x in xs && x != xs[0] {
      var i :| 0 <= i < |xs| && xs[i] == x;
      assert xs[1..][i - 1] == x;
    }
  }

  /** Sorting does not depend on the order in which the elements come. */
  lemma SortIgnoresOrder<T(!new)>(xs: seq<T>, ys: seq<T>, before: Order<T>)
    requires NoDuplicates(xs) && NoDuplicates(ys) && (forall x :: x in xs <==> x in ys)
    requires TotalOn(before, Elements(xs))
    ensures Sort(xs, before) == Sort(ys, before) && Sorted(Sort(xs, before), before)
  {
    var s := Elements(xs);
    SortSorts(xs, before, s);
    SortSorts(ys, before, s);
    SortedUnique(Sort(xs, before), Sort(ys, before), before, s);
  }

  // ------------------------------------------------------------------------- sorting by a key

  /** Ordered by a key: asymmetric, and what is not before `y` or after it ranks with it. */
  ghost predicate WeakOrder<T(!new)>(before: Order<T>) {
    && (forall x, y :: before(x, y) ==> !before(y, x))
    && (forall x, y, z :: before(x, y) && !before(z, y) ==> before(x, z))
  }

  ghost predicate WeaklySorted<T(!new)>(xs: seq<T>, before: Order<T>) {
    forall i, j :: 0 <= i < j < |xs| ==> !before(xs[j], xs[i])
  }

  lemma {:induction false} InsertWeakly<T(!new)>(x: T, xs: seq<T>, before: Order<T>)
    requires WeakOrder(before) && WeaklySorted(xs, before)
    ensures WeaklySorted(Insert(x, xs, before), before)
    ensures forall y :: y in Insert(x, xs, before) <==> y == x || y in xs
  {
    if xs != [] && !before(x, xs[0]) {
      InsertWeakly(x, xs[1..], before);
      var rest := Insert(x, xs[1..], before);
      forall j | 0 <= j < |rest| ensures !before(rest[j], xs[0]) {
        assert rest[j] in rest;
        if rest[j] != x {
          var i :| 0 <= i < |xs[1..]| && xs[1..][i] == rest[j];
          assert !before(xs[i + 1], xs[0]);
        }
      }
    } else if xs != [] {
      forall j | 0 <= j < |xs| ensures !before(xs[j], x) {
        assert j > 0 ==> !before(xs[j], xs[0]);
      }
    }
  }

  lemma {:induction false} SortWeakly<T(!new)>(xs: seq<T>, before: Order<T>)
    requires WeakOrder(before)
    ensures WeaklySorted(Sort(xs, before), before)
    ensures forall y :: y in Sort(xs, before) <==> y in xs
  {
    if xs != [] {
      SortWeakly(xs[..|xs| - 1], before);
      InsertWeakly(xs[|xs| - 1], Sort(xs[..|xs| - 1], before), before);
      assert xs == xs[..|xs| - 1] + [xs[|xs| - 1]];
    }
  }

  /** The elements that rank with `x`, in the order in which they stand. */
  function Ties<T(!new)>(xs: seq<T>, x: T, before: Order<T>): (r: seq<T>) {
    if xs == [] then []
    else (if before(xs[0], x) || before(x, xs[0]) then [] else [xs[0]]) + Ties(xs[1..], x, before)
  }

  lemma {:induction false} TiesAppend<T(!new)>(xs: seq<T>, y: T, x: T, before: Order<T>)
    ensures Ties(xs + [y], x, before) ==
      Ties(xs, x, before) + if before(y, x) || before(x, y) then [] else [y]
  {
    if xs == [] {
      assert [] + [y] == [y];
    } else {
      assert (xs + [y])[1..] == xs[1..] + [y];
      TiesAppend(xs[1..], y, x, before);
    }
  }

  /** Nothing ranks with `x` in a list whose elements all come after something that does. */
  lemma {:induction false} NoTies<T(!new)>(xs: seq<T>, y: T, x: T, before: Order<T>)
    requires WeakOrder(before) && !before(y, x) && !before(x, y)
    requires forall i :: 0 <= i < |xs| ==> before(y, xs[i])
    ensures Ties(xs, x, before) == []
  {
    if xs != [] {
      assert before(y, xs[0]);
      NoTies(xs[1..], y, x, before);
    }
  }

  lemma {:induction false} InsertKeepsTies<T(!new)>(y: T, xs: seq<T>, x: T, before: Order<T>)
    requires WeakOrder(before) && WeaklySorted(xs, before)
    ensures Ties(Insert(y, xs, before), x, before) ==
      Ties(xs, x, before) + if before(y, x) || before(x, y) then [] else [y]
  {
    if xs == [] {
    } else if before(y, xs[0]) {
      assert ([y] + xs)[1..] == xs;
      if !before(y, x) && !before(x, y) {
        forall i | 0 <= i < |xs| ensures before(y, xs[i]) {
          assert i > 0 ==> !before(xs[i], xs[0]);
        }
        NoTies(xs, y, x, before);
      }
    } else {
      assert ([xs[0]] + Insert(y, xs[1..], before))[1..] == Insert(y, xs[1..], before);
      InsertKeepsTies(y, xs[1..], x, before);
    }
  }

  /** Elements that rank alike keep their order. */
  lemma {:induction false} SortIsStable<T(!new)>(xs: seq<T>, x: T, before: Order<T>)
    requires WeakOrder(before)
    ensures Ties(Sort(xs, before), x, before) == Ties(xs, x, before)
  {
    if xs != [] {
      var init, last := xs[..|xs| - 1], xs[|xs| - 1];
      SortIsStable(init, x, before);
      SortWeakly(init, before);
      InsertKeepsTies(last, Sort(init, before), x, before);
      TiesAppend(init, last, x, before);
      assert xs == init + [last];
    }
  }

  // ------------------------------------------------------------------------ order of strings

  predicate Lex(a: string, b: string) {
    if b == "" then false
    else if a == "" then true
    else if a[0] != b[0] then a[0] < b[0]
    else Lex(a[1..], b[1..])
  }

  /** The first character at which they differ decides, and a proper beginning comes first. */
  lemma {:induction false} LexIs(a: string, b: string, n: nat)
    requires n <= |a| && n <= |b| && a[..n] == b[..n]
    requires n == |a| || n == |b| || a[n] != b[n]
    ensures Lex(a, b) <==> n < |b| && (n == |a| || a[n] < b[n])
  {
    if n > 0 {
      assert a[0] == a[..n][0] == b[..n][0] == b[0];
      assert a[1..][..n - 1] == a[..n][1..] == b[..n][1..] == b[1..][..n - 1];
      LexIs(a[1..], b[1..], n - 1);
    }
  }

  lemma {:induction false} LexIrreflexive(a: string)
    ensures !Lex(a, a)
  {
    if a != "" {
      LexIrreflexive(a[1..]);
    }
  }

  lemma {:induction false} LexTransitive(a: string, b: string, c: string)
    requires Lex(a, b) && Lex(b, c)
    ensures Lex(a, c)
  {
    if a != "" && a[0] == b[0] == c[0] {
      LexTransitive(a[1..], b[1..], c[1..]);
    }
  }

  lemma LexAsymmetric(a: string, b: string)
    ensures !(Lex(a, b) && Lex(b, a))
  {
    if Lex(a, b) && Lex(b, a) {
      LexTransitive(a, b, a);
      LexIrreflexive(a);
    }
  }

  lemma {:induction false} LexTotal(a: string, b: string)
    requires a != b
    ensures Lex(a, b) || Lex(b, a)
  {
    if a != "" && b != "" && a[0] == b[0] {
      assert a == [a[0]] + a[1..] && b == [b[0]] + b[1..];
      LexTotal(a[1..], b[1..]);
    }
  }
}
