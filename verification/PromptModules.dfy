/**
 * The prompt module registry of `src/jarn/agent/prompt_modules.py`: how modules of one name are
 * resolved to one, and in which order the registry lists them.
 */
module PromptModules {
  import opened Prelude
  import opened Sorting

  /** `source` is `None` when it is computed; `raw` and `budgeted` are what its callbacks return. */
  datatype Module = Module(name: string, description: string, priority: int, source: Option<string>,
                           runtimeEligible: bool, projectTrust: bool, activeWhen: bool, turnScope: bool,
                           raw: string, budget: Option<nat>, budgeted: string)

  // -------------------------------------------------------------------------------- registry

  function SourceKey(m: Module): string {
    if m.source.Some? then m.source.value else ""
  }

  /** Tuple comparison of (priority, description, source). */
  predicate KeyBefore(a: Module, b: Module) {
    || a.priority < b.priority
    || (a.priority == b.priority && Lex(a.description, b.description))
    || (a.priority == b.priority && a.description == b.description && Lex(SourceKey(a), SourceKey(b)))
  }

  /** The first of the least modules called `name`. */
  function Best(ms: seq<Module>, name: string): Option<Module> {
    if ms == [] then None
    else
      var best, last := Best(ms[..|ms| - 1], name), ms[|ms| - 1];
      if last.name != name then best
      else if best.None? || KeyBefore(last, best.value) then Some(last)
      else best
  }

  /** The names in the order in which they first appear. */
  function Names(ms: seq<Module>): (names: seq<string>) {
    if ms == [] then []
    else
      var names, last := Names(ms[..|ms| - 1]), ms[|ms| - 1].name;
      if last in names then names else names + [last]
  }

  lemma {:induction false} NamesHave(ms: seq<Module>)
    ensures NoDuplicates(Names(ms))
    ensures forall n :: n in Names(ms) <==> exists m :: m in ms && m.name == n
  {
    if ms != [] {
      var init, last := ms[..|ms| - 1], ms[|ms| - 1];
      NamesHave(init);
      assert ms == init + [last];
      forall n ensures n in Names(ms) <==> exists m :: m in ms && m.name == n {
        if n in Names(ms) {
          if n == last.name { assert last in ms; } else { var m :| m in init && m.name == n; assert m in ms; }
        }
        if m :| m in ms && m.name == n {
          assert m != last ==> m in init;
        }
      }
    }
  }

  /** The key order is transitive and leaves nothing between two incomparable modules. */
  lemma KeyOrder(a: Module, b: Module, c: Module)
    ensures !(KeyBefore(a, b) && KeyBefore(b, a))
    ensures KeyBefore(a, b) && !KeyBefore(c, b) ==> KeyBefore(a, c)
  {
    if KeyBefore(a, b) && KeyBefore(b, a) {
      LexAsymmetric(a.description, b.description);
      LexAsymmetric(SourceKey(a), SourceKey(b));
    }
    LexIrreflexive(a.description);
    LexIrreflexive(SourceKey(a));
    if KeyBefore(a, b) && !KeyBefore(c, b) {
      if b.description != c.description { LexTotal(b.description, c.description); }
      if SourceKey(b) != SourceKey(c) { LexTotal(SourceKey(b), SourceKey(c)); }
      if Lex(a.description, b.description) && Lex(b.description, c.description) {
        LexTransitive(a.description, b.description, c.description);
      }
      if Lex(SourceKey(a), SourceKey(b)) && Lex(SourceKey(b), SourceKey(c)) {
        LexTransitive(SourceKey(a), SourceKey(b), SourceKey(c));
      }
    }
  }

  /** `m` is among the modules and none of its name comes before it. */
  ghost predicate Least(ms: seq<Module>, m: Module) {
    m in ms && forall x :: x in ms && x.name == m.name ==> !KeyBefore(x, m)
  }

  lemma {:induction false} BestIsLeast(ms: seq<Module>, name: string)
    ensures Best(ms, name).None? <==> forall m :: m in ms ==> m.name != name
    ensures Best(ms, name).Some? ==> Best(ms, name).value.name == name && Least(ms, Best(ms, name).value)
  {
    if ms != [] {
      var init, last := ms[..|ms| - 1], ms[|ms| - 1];
      BestIsLeast(init, name);
      assert ms == init + [last];
      if last.name == name && Best(init, name).Some? {
        var b := Best(init, name).value;
        forall x | x in ms && x.name == name ensures !KeyBefore(x, Best(ms, name).value) {
          KeyOrder(x, last, b);
          KeyOrder(last, b, x);
          KeyOrder(x, x, x);
        }
      }
      if last.name == name && Best(init, name).None? {
        KeyOrder(last, last, last);
      }
    }
  }

  predicate ListedBefore(a: Module, b: Module) {
    a.priority < b.priority || (a.priority == b.priority && Lex(a.name, b.name))
  }

  /** The selected modules, in the order in which their names first appear. */
  function Selected(ms: seq<Module>): (r: seq<Module>)
    ensures |r| == |Names(ms)| && forall i :: 0 <= i < |r| ==> Some(r[i]) == Best(ms, Names(ms)[i])
  {
    seq(|Names(ms)|, i requires 0 <= i < |Names(ms)| => BestNamed(ms, Names(ms)[i]))
  }

  function BestNamed(ms: seq<Module>, name: string): (m: Module)
    requires name in Names(ms)
    ensures Some(m) == Best(ms, name)
  {
    NamesHave(ms);
    BestIsLeast(ms, name);
    Best(ms, name).value
  }

  /** The modules of a registry. */
  function Catalog(ms: seq<Module>): seq<Module> {
    Sort(Selected(ms), ListedBefore)
  }

  /** The value that Python's `min` returns: the first of the least. */
  method LeastOf(candidates: seq<Module>, name: string) returns (best: Module)
    requires candidates != [] && forall m :: m in candidates ==> m.name == name
    ensures Best(candidates, name) == Some(best)
  {
    best := candidates[0];
    assert candidates[..1][..0] == [];
    var i := 1;
    while i < |candidates|
      invariant 1 <= i <= |candidates| && Best(candidates[..i], name) == Some(best)
    {
      assert candidates[..i + 1][..i] == candidates[..i];
      if KeyBefore(candidates[i], best) { best := candidates[i]; }
      i := i + 1;
    }
    assert candidates[..i] == candidates;
  }

  function Named(ms: seq<Module>, name: string): seq<Module> {
    if ms == [] then []
    else Named(ms[..|ms| - 1], name) + if ms[|ms| - 1].name == name then [ms[|ms| - 1]] else []
  }

  lemma {:induction false} BestOfNamed(ms: seq<Module>, name: string)
    ensures Best(Named(ms, name), name) == Best(ms, name)
    ensures forall m :: m in Named(ms, name) ==> m.name == name
    ensures Named(ms, name) != [] <==> name in Names(ms)
  {
    if ms != [] {
      var init, last := ms[..|ms| - 1], ms[|ms| - 1];
      BestOfNamed(init, name);
      if last.name == name {
        assert (Named(init, name) + [last])[..|Named(init, name)|] == Named(init, name);
      } else {
        assert Named(init, name) + [] == Named(init, name);
      }
    }
  }

  method GroupByName(ms: seq<Module>) returns (names: seq<string>, grouped: map<string, seq<Module>>)
    ensures names == Names(ms)
    ensures forall n :: n in grouped <==> n in names
    ensures forall n :: n in grouped ==> grouped[n] == Named(ms, n)
  {
    names, grouped := [], map[];
    var i := 0;
    while i < |ms|
      invariant 0 <= i <= |ms| && names == Names(ms[..i])
      invariant forall n :: n in grouped <==> n in names
      invariant forall n :: n in grouped ==> grouped[n] == Named(ms[..i], n)
    {
      var m := ms[i];
      GroupOneMore(ms, i);
      if m.name !in grouped {
        names := names + [m.name];
        grouped := grouped[m.name := []];
      }
      grouped := grouped[m.name := grouped[m.name] + [m]];
      i := i + 1;
    }
    assert ms[..i] == ms;
  }

  /** Modules of one name that select the same one as all of `ms`. */
  ghost predicate Candidates(ms: seq<Module>, name: string, candidates: seq<Module>) {
    candidates != [] && Best(candidates, name) == Best(ms, name) && forall m :: m in candidates ==> m.name == name
  }

  lemma GroupsAreCandidates(ms: seq<Module>)
    ensures forall n :: n in Names(ms) ==> Candidates(ms, n, Named(ms, n))
  {
    forall n | n in Names(ms) ensures Candidates(ms, n, Named(ms, n)) {
      BestOfNamed(ms, n);
    }
  }

  lemma GroupOneMore(ms: seq<Module>, i: nat)
    requires i < |ms|
    ensures
      var before, after, m := ms[..i], ms[..i + 1], ms[i];
      && Names(after) == (if m.name in Names(before) then Names(before) else Names(before) + [m.name])
      && (m.name !in Names(before) ==> Named(before, m.name) == [])
      && (forall n :: Named(after, n) == if n == m.name then Named(before, n) + [m] else Named(before, n))
  {
    assert ms[..i + 1][..i] == ms[..i];
    BestOfNamed(ms[..i], ms[i].name);
  }

  /** The least module of each group. */
  method LeastOfEach(ghost ms: seq<Module>, names: seq<string>, grouped: map<string, seq<Module>>) returns (selected: seq<Module>)
    requires names == Names(ms)
    requires forall n :: n in names ==> n in grouped && Candidates(ms, n, grouped[n])
    ensures selected == Selected(ms)
  {
    selected := [];
    var i := 0;
    while i < |names|
      invariant 0 <= i <= |names| && |selected| == i
      invariant forall j :: 0 <= j < i ==> Some(selected[j]) == Best(ms, names[j])
    {
      assert names[i] in names;
      var best := LeastOf(grouped[names[i]], names[i]);
      selected := selected + [best];
      i := i + 1;
    }
  }

  /** `__init__`: group by name, take the least of each group, sort by priority and name. */
  method Register(ms: seq<Module>) returns (modules: seq<Module>)
    ensures modules == Catalog(ms)
  {
    var names, grouped := GroupByName(ms);
    GroupsAreCandidates(ms);
    var selected := LeastOfEach(ms, names, grouped);
    modules := Sort(selected, ListedBefore);
  }

  /** `a` comes before `b` by priority, then description, then source; a computed source counts as empty. */
  predicate Earlier(a: Module, b: Module) {
    var x, y := if a.source.Some? then a.source.value else "", if b.source.Some? then b.source.value else "";
    if a.priority != b.priority then a.priority < b.priority
    else if a.description != b.description then Lex(a.description, b.description)
    else Lex(x, y)
  }

  predicate InOrder(a: Module, b: Module) {
    if a.priority != b.priority then a.priority < b.priority else Lex(a.name, b.name)
  }

  /** A registry lists of each name one module, none of that name being earlier. */
  lemma CatalogPicks(ms: seq<Module>, m: Module)
    ensures m in Catalog(ms) ==> m in ms && forall x :: x in ms && x.name == m.name ==> !Earlier(x, m)
    ensures m in ms ==> exists x :: x in Catalog(ms) && x.name == m.name
  {
    CatalogHas(ms);
    BestIsLeast(ms, m.name);
    forall x ensures Earlier(x, m) <==> KeyBefore(x, m) {
      EarlierIsKey(x, m);
    }
    if m in ms {
      var best := Best(ms, m.name).value;
      assert Best(ms, best.name) == Some(best);
      assert best in Catalog(ms) && best.name == m.name;
    }
  }

  lemma CatalogHas(ms: seq<Module>)
    ensures forall m :: m in Catalog(ms) <==> Best(ms, m.name) == Some(m)
    ensures Sorted(Catalog(ms), ListedBefore)
  {
    SelectedFacts(ms);
    SortSorts(Selected(ms), ListedBefore, Elements(Selected(ms)));
  }

  /** It lists them by priority and then by name. */
  lemma CatalogInOrder(ms: seq<Module>, catalog: seq<Module>, i: nat, j: nat)
    requires catalog == Catalog(ms) && i < j < |catalog|
    ensures InOrder(catalog[i], catalog[j])
  {
    CatalogHas(ms);
    assert ListedBefore(catalog[i], catalog[j]);
  }

  lemma EarlierIsKey(a: Module, b: Module)
    ensures Earlier(a, b) <==> KeyBefore(a, b)
  {
    LexIrreflexive(a.description);
  }

  /** No two different modules of one name are both least. */
  ghost predicate NoLeastTie(ms: seq<Module>) {
    forall a, b :: Least(ms, a) && Least(ms, b) && a.name == b.name ==> a == b
  }

  lemma SelectedFacts(ms: seq<Module>)
    ensures NoDuplicates(Selected(ms))
    ensures forall m :: m in Selected(ms) <==> Best(ms, m.name) == Some(m)
    ensures TotalOn(ListedBefore, Elements(Selected(ms)))
  {
    NamesHave(ms);
    var names, s := Names(ms), Selected(ms);
    forall i | 0 <= i < |s| ensures s[i].name == names[i] {
      BestIsLeast(ms, names[i]);
    }
    forall m ensures m in s <==> Best(ms, m.name) == Some(m) {
      BestIsLeast(ms, m.name);
      if Best(ms, m.name) == Some(m) {
        assert m in ms && m.name in names;
        var i :| 0 <= i < |names| && names[i] == m.name;
        assert s[i] == m;
      }
    }
    forall x ensures !ListedBefore(x, x) { LexIrreflexive(x.name); }
    forall x, y, z | ListedBefore(x, y) && ListedBefore(y, z) ensures ListedBefore(x, z) {
      if x.priority == z.priority { LexTransitive(x.name, y.name, z.name); }
    }
    forall x, y | x in Elements(s) && y in Elements(s) && x != y ensures ListedBefore(x, y) || ListedBefore(y, x) {
      assert x.name != y.name;
      LexTotal(x.name, y.name);
    }
  }

  /** Without a tie the catalog is the same for every order of discovery. */
  lemma CatalogIgnoresOrder(xs: seq<Module>, ys: seq<Module>)
    requires NoLeastTie(xs) && forall m :: m in xs <==> m in ys
    ensures Catalog(xs) == Catalog(ys)
  {
    SelectedFacts(xs);
    SelectedFacts(ys);
    forall m ensures m in Selected(xs) <==> m in Selected(ys) {
      BestIsLeast(xs, m.name);
      BestIsLeast(ys, m.name);
      if Best(xs, m.name).Some? && Best(ys, m.name).Some? {
        var a, b := Best(xs, m.name).value, Best(ys, m.name).value;
        assert Least(xs, a) && Least(xs, b);
      }
    }
    SortIgnoresOrder(Selected(xs), Selected(ys), ListedBefore);
  }

  /** A least module that comes first is the one selected. */
  lemma {:induction false} FirstLeastWins(m: Module, rest: seq<Module>)
    requires forall x :: x in rest && x.name == m.name ==> !KeyBefore(x, m)
    ensures Best([m] + rest, m.name) == Some(m)
  {
    var all := [m] + rest;
    if rest == [] {
      assert all[..0] == [];
    } else {
      FirstLeastWins(m, rest[..|rest| - 1]);
      assert all[..|all| - 1] == [m] + rest[..|rest| - 1];
    }
  }

  function Fronted(ms: seq<Module>, i: nat): (r: seq<Module>)
    requires i < |ms|
    ensures multiset(r) == multiset(ms)
    ensures forall m :: m in r <==> m in ms
  {
    assert ms == ms[..i] + [ms[i]] + ms[i + 1..];
    var r := [ms[i]] + (ms[..i] + ms[i + 1..]);
    assert multiset(r) == multiset(ms);
    assert forall m :: m in r <==> m in multiset(r);
    assert forall m :: m in ms <==> m in multiset(ms);
    r
  }

  /** A tie shows: two orders of the same modules give different catalogs. */
  lemma TieShows(ms: seq<Module>, i: nat, j: nat)
    requires i < |ms| && j < |ms| && ms[i].name == ms[j].name && ms[i] != ms[j]
    requires Least(ms, ms[i]) && Least(ms, ms[j])
    ensures Catalog(Fronted(ms, i)) != Catalog(Fronted(ms, j))
  {
    FrontedWins(ms, i);
    FrontedWins(ms, j);
    assert ms[i] in Catalog(Fronted(ms, i)) && ms[i] !in Catalog(Fronted(ms, j));
  }

  lemma FrontedWins(ms: seq<Module>, i: nat)
    requires i < |ms| && Least(ms, ms[i])
    ensures forall m: Module :: m.name == ms[i].name ==> (m in Catalog(Fronted(ms, i)) <==> m == ms[i])
  {
    var rest := ms[..i] + ms[i + 1..];
    assert forall x :: x in rest ==> x in ms;
    FirstLeastWins(ms[i], rest);
    var f := Fronted(ms, i);
    SelectedFacts(f);
    SortSorts(Selected(f), ListedBefore, Elements(Selected(f)));
  }

  /** Duplicates resolve independently of discovery order exactly when no least modules tie. */
  lemma OrderFreeIff(ms: seq<Module>)
    ensures NoLeastTie(ms) <==> forall ys :: multiset(ys) == multiset(ms) ==> Catalog(ys) == Catalog(ms)
  {
    if NoLeastTie(ms) {
      forall ys | multiset(ys) == multiset(ms) ensures Catalog(ys) == Catalog(ms) {
        assert forall m :: m in ms <==> m in multiset(ms);
        assert forall m :: m in ys <==> m in multiset(ys);
        CatalogIgnoresOrder(ms, ys);
      }
    }
    if forall ys :: multiset(ys) == multiset(ms) ==> Catalog(ys) == Catalog(ms) {
      forall a, b | Least(ms, a) && Least(ms, b) && a.name == b.name ensures a == b {
        var i :| 0 <= i < |ms| && ms[i] == a;
        var j :| 0 <= j < |ms| && ms[j] == b;
        if a != b {
          TieShows(ms, i, j);
        }
      }
    }
  }

  lemma BothLeast(a: Module, b: Module, ms: seq<Module>)
    requires ms == [a, b] && !KeyBefore(a, b) && !KeyBefore(b, a)
    ensures Least(ms, a) && Least(ms, b)
  {
    KeyOrder(a, a, a);
    KeyOrder(b, b, b);
    assert ms[0] == a && ms[1] == b;
  }

  lemma FrontedOfTwo(a: Module, b: Module, ms: seq<Module>)
    requires ms == [a, b]
    ensures Fronted(ms, 0) == ms && Fronted(ms, 1) == [b, a]
  {
    assert ms[..0] + ms[1..] == [b] && ms[..1] + ms[2..] == [a];
  }

  lemma TieInTwo(a: Module, b: Module, ms: seq<Module>, turned: seq<Module>)
    requires ms == [a, b] && turned == [b, a]
    requires a.name == b.name && a != b && !KeyBefore(a, b) && !KeyBefore(b, a)
    ensures Catalog(ms) != Catalog(turned)
  {
    BothLeast(a, b, ms);
    FrontedOfTwo(a, b, ms);
    TieShows(ms, 0, 1);
  }

  /** Two different modules of one name and key: the one discovered first is listed. */
  lemma TieOfTwo(a: Module, b: Module)
    requires a.name == b.name && a != b && !KeyBefore(a, b) && !KeyBefore(b, a)
    ensures Catalog([a, b]) != Catalog([b, a])
  {
    TieInTwo(a, b, [a, b], [b, a]);
  }

  /** For example two that differ only in what they render. */
  lemma TieExample(a: Module)
    requires a == Module("n", "", 0, None, true, false, true, false, "a", None, "")
    ensures Catalog([a, a.(raw := "b")]) != Catalog([a.(raw := "b"), a])
  {
    var b := a.(raw := "b");
    assert a.raw[0] != b.raw[0];
    LexIrreflexive("");
    TieOfTwo(a, b);
  }
}
