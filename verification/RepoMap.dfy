/**
 * Ranking and rendering of the repository map, `src/jarn/agent/repomap.py`. What `pathlib` and
 * the symbol extractors say about a file are fields of its entry; the token count is a parameter.
 */
module RepoMap {
  import opened Prelude
  import opened Texts
  import opened Sorting

  /** `tokens` are the path components of a file and their stems, `depth` the number of components. */
  datatype FileEntry = FileEntry(rel: string, stem: string, tokens: set<string>, depth: nat, symbols: seq<string>, score: int)

  type Tokens = string -> nat

  const METHOD_PREFIX := "  ."
  const FOCUS_BONUS := 10

  ghost predicate DistinctPaths(entries: seq<FileEntry>) {
    forall i, j :: 0 <= i < j < |entries| ==> entries[i].rel != entries[j].rel
  }

  // ------------------------------------------------------------------------------ references

  predicate Refers(e: FileEntry, stem: string) {
    stem in e.tokens && e.stem != stem
  }

  function References(entries: seq<FileEntry>, stem: string): nat {
    if entries == [] then 0
    else References(entries[..|entries| - 1], stem) + if Refers(entries[|entries| - 1], stem) then 1 else 0
  }

  method BuildXrefCounts(entries: seq<FileEntry>) returns (counts: map<string, nat>)
    ensures counts.Keys == set e | e in entries :: e.stem
    ensures forall stem :: stem in counts ==> counts[stem] == References(entries, stem)
  {
    var stems := set e | e in entries :: e.stem;
    counts := map stem | stem in stems :: 0;
    var i := 0;
    while i < |entries|
      invariant 0 <= i <= |entries|
      invariant counts.Keys == stems
      invariant forall stem :: stem in counts ==> counts[stem] == References(entries[..i], stem)
    {
      var entry := entries[i];
      var matched := (stems * entry.tokens) - {entry.stem};
      ghost var before := counts;
      ghost var all := matched;
      while matched != {}
        invariant matched <= all && counts.Keys == stems
        invariant forall stem :: stem in counts ==>
          counts[stem] == before[stem] + if stem in all && stem !in matched then 1 else 0
        decreases matched
      {
        var stem :| stem in matched;
        counts := counts[stem := counts[stem] + 1];
        matched := matched - {stem};
      }
      assert entries[..i + 1][..i] == entries[..i];
      i := i + 1;
    }
    assert entries[..i] == entries;
  }

  ghost function Referrers(entries: seq<FileEntry>, stem: string): set<FileEntry> {
    set e | e in entries && Refers(e, stem)
  }

  lemma OneMoreReferrer(init: seq<FileEntry>, last: FileEntry, stem: string)
    requires last !in init
    ensures |Referrers(init + [last], stem)| == |Referrers(init, stem)| + if Refers(last, stem) then 1 else 0
  {
    var some := Referrers(init, stem);
    assert Referrers(init + [last], stem) == if Refers(last, stem) then some + {last} else some;
  }

  /** With distinct paths a count is the number of other files that mention the stem. */
  lemma {:induction false} ReferencesAreFiles(entries: seq<FileEntry>, stem: string)
    requires DistinctPaths(entries)
    ensures References(entries, stem) == |Referrers(entries, stem)|
  {
    if entries != [] {
      var init, last := entries[..|entries| - 1], entries[|entries| - 1];
      ReferencesAreFiles(init, stem);
      assert entries == init + [last];
      OneMoreReferrer(init, last, stem);
    }
  }

  // --------------------------------------------------------------------------------- ranking

  function TopLevel(symbols: seq<string>): nat {
    if symbols == [] then 0
    else TopLevel(symbols[..|symbols| - 1]) + if METHOD_PREFIX <= symbols[|symbols| - 1] then 0 else 1
  }

  function MaxDepth(entries: seq<FileEntry>): nat {
    if entries == [] then 0
    else
      var m := MaxDepth(entries[..|entries| - 1]);
      if entries[|entries| - 1].depth > m then entries[|entries| - 1].depth else m
  }

  /** Python's `in` on strings. */
  predicate Contains(text: string, part: string) {
    part <= text || (text != "" && Contains(text[1..], part))
  }

  function Score(entries: seq<FileEntry>, focus: string, e: FileEntry): int {
    TopLevel(e.symbols) + References(entries, e.stem) + (MaxDepth(entries) - e.depth)
    + Bonus(focus, e.rel)
  }

  function Bonus(focus: string, rel: string): int {
    if focus != "" && Contains(rel, focus) then FOCUS_BONUS else 0
  }

  function Scored(entries: seq<FileEntry>, focus: string): (r: seq<FileEntry>)
    ensures |r| == |entries| && forall i :: 0 <= i < |r| ==> r[i] == entries[i].(score := Score(entries, focus, entries[i]))
  {
    seq(|entries|, i requires 0 <= i < |entries| => entries[i].(score := Score(entries, focus, entries[i])))
  }

  predicate RanksBefore(a: FileEntry, b: FileEntry) {
    a.score > b.score || (a.score == b.score && Lex(a.rel, b.rel))
  }

  method DeepestOf(entries: seq<FileEntry>) returns (deepest: nat)
    ensures deepest == MaxDepth(entries)
  {
    deepest := 0;
    var i := 0;
    while i < |entries|
      invariant 0 <= i <= |entries| && deepest == MaxDepth(entries[..i])
    {
      assert entries[..i + 1][..i] == entries[..i];
      if entries[i].depth > deepest { deepest := entries[i].depth; }
      i := i + 1;
    }
    assert entries[..i] == entries;
  }

  method Rank(entries: seq<FileEntry>, focus: string) returns (ranked: seq<FileEntry>)
    ensures ranked == Sort(Scored(entries, focus), RanksBefore)
  {
    if entries == [] { return entries; }
    var xrefs := BuildXrefCounts(entries);
    var deepest := DeepestOf(entries);
    var scored: seq<FileEntry> := [];
    ghost var all := Scored(entries, focus);
    var i := 0;
    while i < |entries|
      invariant 0 <= i <= |entries| && scored == all[..i]
    {
      var e := entries[i];
      assert e in entries;
      var score := TopLevel(e.symbols) + xrefs[e.stem] + (deepest - e.depth) + Bonus(focus, e.rel);
      assert all[i] == e.(score := score);
      scored := scored + [e.(score := score)];
      i := i + 1;
    }
    assert scored == all;
    ranked := Sort(scored, RanksBefore);
  }

  lemma {:induction false} MaxDepthIs(entries: seq<FileEntry>)
    ensures forall e :: e in entries ==> e.depth <= MaxDepth(entries)
    ensures entries != [] ==> exists e :: e in entries && e.depth == MaxDepth(entries)
  {
    if entries != [] {
      var init, last := entries[..|entries| - 1], entries[|entries| - 1];
      MaxDepthIs(init);
      assert entries == init + [last];
      if last.depth >= MaxDepth(init) {
        assert last in entries && last.depth == MaxDepth(entries);
      } else {
        var e :| e in init && e.depth == MaxDepth(init);
        assert e in entries && e.depth == MaxDepth(entries);
      }
    }
  }

  /** A score depends on the set of files only. */
  lemma ScoreIgnoresOrder(xs: seq<FileEntry>, ys: seq<FileEntry>, focus: string, e: FileEntry)
    requires DistinctPaths(xs) && DistinctPaths(ys) && forall x :: x in xs <==> x in ys
    ensures Score(xs, focus, e) == Score(ys, focus, e)
  {
    ReferencesAreFiles(xs, e.stem);
    ReferencesAreFiles(ys, e.stem);
    assert Referrers(xs, e.stem) == Referrers(ys, e.stem);
    MaxDepthIs(xs);
    MaxDepthIs(ys);
  }

  lemma RankingIsTotal(xs: seq<FileEntry>)
    requires DistinctPaths(xs)
    ensures TotalOn(RanksBefore, Elements(xs))
  {
    forall x ensures !RanksBefore(x, x) {
      LexIrreflexive(x.rel);
    }
    forall x, y, z | RanksBefore(x, y) && RanksBefore(y, z) ensures RanksBefore(x, z) {
      if x.score == z.score { LexTransitive(x.rel, y.rel, z.rel); }
    }
    forall x, y | x in Elements(xs) && y in Elements(xs) && x != y ensures RanksBefore(x, y) || RanksBefore(y, x) {
      var i :| 0 <= i < |xs| && xs[i] == x;
      var j :| 0 <= j < |xs| && xs[j] == y;
      assert i < j || j < i;
      LexTotal(x.rel, y.rel);
    }
  }

  lemma {:induction false} ContainsIff(text: string, part: string)
    ensures Contains(text, part) <==> exists i, j :: 0 <= i <= j <= |text| && text[i..j] == part
  {
    if part <= text {
      assert text[0..|part|] == part;
    }
    if text != "" {
      ContainsIff(text[1..], part);
      if i, j :| 0 <= i <= j <= |text[1..]| && text[1..][i..j] == part {
        assert text[i + 1..j + 1] == part;
      }
      if i, j :| 0 <= i <= j <= |text| && text[i..j] == part {
        if i == 0 {
          assert part <= text;
        } else {
          assert text[1..][i - 1..j - 1] == part;
        }
      }
    } else if i, j :| 0 <= i <= j <= |text| && text[i..j] == part {
      assert part == text;
    }
  }

  /** The positions of the symbols that are no methods. */
  ghost function TopLevelAt(symbols: seq<string>): set<int> {
    set i | 0 <= i < |symbols| && !("  ." <= symbols[i])
  }

  lemma {:induction false} TopLevelIs(symbols: seq<string>)
    ensures TopLevel(symbols) == |TopLevelAt(symbols)|
  {
    if symbols == [] {
      assert TopLevelAt(symbols) == {};
    } else {
      var init, n := symbols[..|symbols| - 1], |symbols| - 1;
      TopLevelIs(init);
      assert TopLevelAt(symbols) == if "  ." <= symbols[n] then TopLevelAt(init) else TopLevelAt(init) + {n};
    }
  }

  /** The greatest depth of some files. */
  ghost predicate Deepest(entries: seq<FileEntry>, d: nat) {
    (forall e :: e in entries ==> e.depth <= d) && (exists e :: e in entries && e.depth == d)
  }

  /** The focus, when there is one, occurs in the path. */
  ghost predicate InFocus(focus: string, rel: string) {
    focus != "" && exists i, j :: 0 <= i <= j <= |rel| && rel[i..j] == focus
  }

  /**
   * A score spelled out: top-level symbols, other files whose path mentions the stem, levels above
   * the deepest file, and ten for a path in focus.
   */
  lemma ScoreIs(entries: seq<FileEntry>, focus: string, e: FileEntry, deepest: nat)
    requires DistinctPaths(entries) && e in entries && Deepest(entries, deepest)
    ensures Score(entries, focus, e) ==
      |TopLevelAt(e.symbols)|
      + |set x | x in entries && e.stem in x.tokens && x.stem != e.stem|
      + (deepest - e.depth) + if InFocus(focus, e.rel) then 10 else 0
  {
    TopLevelIs(e.symbols);
    ReferencesAreFiles(entries, e.stem);
    assert Referrers(entries, e.stem) == set x | x in entries && e.stem in x.tokens && x.stem != e.stem;
    MaxDepthIs(entries);
    assert MaxDepth(entries) == deepest;
    ContainsIff(e.rel, focus);
  }

  /** A better score first, and then the path that comes first. */
  predicate InRank(a: FileEntry, b: FileEntry) {
    if a.score != b.score then a.score > b.score else Lex(a.rel, b.rel)
  }

  /** The ranked list holds every file with its score, in the order of the ranks. */
  lemma RankedAre(entries: seq<FileEntry>, focus: string)
    requires DistinctPaths(entries)
    ensures
      var ranked := Sort(Scored(entries, focus), RanksBefore);
      && |ranked| == |entries|
      && (forall e :: e in ranked <==> exists x :: x in entries && e == x.(score := Score(entries, focus, x)))
      && (forall i, j :: 0 <= i < j < |ranked| ==> InRank(ranked[i], ranked[j]))
  {
    var scored := Scored(entries, focus);
    RankingIsTotal(scored);
    SortSorts(scored, RanksBefore, Elements(scored));
    assert |multiset(Sort(scored, RanksBefore))| == |multiset(scored)|;
    forall e ensures e in scored <==> exists x :: x in entries && e == x.(score := Score(entries, focus, x)) {
      if x :| x in entries && e == x.(score := Score(entries, focus, x)) {
        var i :| 0 <= i < |entries| && entries[i] == x;
        assert scored[i] == e;
      }
      if e in scored {
        var i :| 0 <= i < |scored| && scored[i] == e;
        assert entries[i] in entries;
      }
    }
  }

  /** The ranked list does not depend on the order in which the files were discovered. */
  lemma RankIgnoresOrder(xs: seq<FileEntry>, ys: seq<FileEntry>, focus: string)
    requires DistinctPaths(xs) && DistinctPaths(ys) && forall x :: x in xs <==> x in ys
    ensures Sort(Scored(xs, focus), RanksBefore) == Sort(Scored(ys, focus), RanksBefore)
    ensures Sorted(Sort(Scored(xs, focus), RanksBefore), RanksBefore)
  {
    var a, b := Scored(xs, focus), Scored(ys, focus);
    ScoredHas(xs, ys, focus);
    ScoredHas(ys, xs, focus);
    RankingIsTotal(a);
    SortIgnoresOrder(a, b, RanksBefore);
  }

  lemma ScoredHas(xs: seq<FileEntry>, ys: seq<FileEntry>, focus: string)
    requires DistinctPaths(xs) && DistinctPaths(ys) && forall x :: x in xs <==> x in ys
    ensures forall e :: e in Scored(xs, focus) ==> e in Scored(ys, focus)
  {
    forall e | e in Scored(xs, focus) ensures e in Scored(ys, focus) {
      var i :| 0 <= i < |xs| && Scored(xs, focus)[i] == e;
      assert xs[i] in ys;
      var j :| 0 <= j < |ys| && ys[j] == xs[i];
      ScoreIgnoresOrder(xs, ys, focus, xs[i]);
      assert Scored(ys, focus)[j] == e;
    }
  }

  // ------------------------------------------------------------------------------- rendering

  function SymbolLines(symbols: seq<string>): seq<string> {
    seq(|symbols|, i requires 0 <= i < |symbols| => "  - `" + symbols[i] + "`")
  }

  function EntryBlock(e: FileEntry): string {
    if e.symbols == [] then "- `" + e.rel + "`\n"
    else "- `" + e.rel + "`\n" + Join(SymbolLines(e.symbols), "\n") + "\n"
  }

  function CompactBlock(e: FileEntry): string {
    "- `" + e.rel + "`\n"
  }

  /** The lines of an entry: its path and then, in the full form, one line for each symbol. */
  lemma BlockLines(e: FileEntry)
    requires OneLine(e.rel) && forall i :: 0 <= i < |e.symbols| ==> OneLine(e.symbols[i])
    ensures Split(CompactBlock(e)) == ["- `" + e.rel + "`", ""]
    ensures
      var lines := Split(EntryBlock(e));
      && |lines| == |e.symbols| + 2 && lines[0] == "- `" + e.rel + "`" && lines[|lines| - 1] == ""
      && forall i :: 0 <= i < |e.symbols| ==> lines[i + 1] == "  - `" + e.symbols[i] + "`"
  {
    var first, symbols := "- `" + e.rel + "`", SymbolLines(e.symbols);
    assert CompactBlock(e) == first + "\n" + "";
    SplitAcross(first, "");
    if e.symbols != [] {
      JoinAppend(symbols, "", "\n");
      assert EntryBlock(e) == first + "\n" + Join(symbols + [""], "\n");
      SplitJoin(symbols + [""]);
      SplitAcross(first, Join(symbols + [""], "\n"));
    }
  }

  type Price = FileEntry -> nat

  /**
   * Which form each rendered entry takes (`true` is the full one) when `used` tokens are gone:
   * the full form if it fits, the compact form if only that fits, and the end otherwise.
   */
  function Forms(full: Price, compact: Price, budget: int, ranked: seq<FileEntry>, used: nat): (forms: seq<bool>) {
    if ranked == [] then []
    else if used + full(ranked[0]) <= budget then
      [true] + Forms(full, compact, budget, ranked[1..], used + full(ranked[0]))
    else if used + compact(ranked[0]) <= budget then
      [false] + Forms(full, compact, budget, ranked[1..], used + compact(ranked[0]))
    else []
  }

  function Cost(full: Price, compact: Price, ranked: seq<FileEntry>, forms: seq<bool>): nat
    requires |forms| <= |ranked|
  {
    if forms == [] then 0
    else (if forms[0] then full(ranked[0]) else compact(ranked[0])) + Cost(full, compact, ranked[1..], forms[1..])
  }

  function BlockOf(e: FileEntry, full: bool): string {
    if full then EntryBlock(e) else CompactBlock(e)
  }

  /** The rendered entries: a prefix of the ranked list, entry by entry. */
  function BlocksOf(ranked: seq<FileEntry>, forms: seq<bool>): (blocks: seq<string>)
    requires |forms| <= |ranked|
    ensures |blocks| == |forms|
    ensures forall i :: 0 <= i < |forms| ==> blocks[i] == BlockOf(ranked[i], forms[i])
  {
    seq(|forms|, i requires 0 <= i < |forms| => BlockOf(ranked[i], forms[i]))
  }

  function PriceOf(count: Tokens, full: bool): Price {
    (e: FileEntry) => count(BlockOf(e, full))
  }

  method Render(count: Tokens, rootName: string, ranked: seq<FileEntry>, budget: int) returns (text: string)
    ensures
      var header := "# Repo map — " + rootName + "\n\n";
      var forms := Forms(PriceOf(count, true), PriceOf(count, false), budget, ranked, count(header));
      && |forms| <= |ranked|
      && text == Join([header] + BlocksOf(ranked, forms), "")
  {
    var header := "# Repo map — " + rootName + "\n\n";
    var blocks := RenderEntries(count, ranked, budget, count(header));
    text := Join([header] + blocks, "");
  }

  /** The form in which one entry still fits, if there is one. */
  method FormOf(count: Tokens, budget: int, e: FileEntry, used: nat, ghost full: Price, ghost compact: Price)
    returns (form: Option<bool>, block: string, cost: nat)
    requires full == PriceOf(count, true) && compact == PriceOf(count, false)
    ensures form ==
      if used + full(e) <= budget then Some(true) else if used + compact(e) <= budget then Some(false) else None
    ensures form.Some? ==> block == BlockOf(e, form.value) && cost == if form.value then full(e) else compact(e)
  {
    block := BlockOf(e, true);
    cost := count(block);
    form := Some(true);
    assert PriceOf(count, true)(e) == cost;
    if used + cost > budget {
      block := BlockOf(e, false);
      cost := count(block);
      assert PriceOf(count, false)(e) == cost;
      form := if used + cost > budget then None else Some(false);
    }
  }

  /** The loop over the entries, with `header` tokens spent on the header. */
  method RenderEntries(count: Tokens, ranked: seq<FileEntry>, budget: int, header: nat) returns (blocks: seq<string>)
    ensures
      var forms := Forms(PriceOf(count, true), PriceOf(count, false), budget, ranked, header);
      |forms| <= |ranked| && blocks == BlocksOf(ranked, forms)
  {
    var used: nat := header;
    ghost var full, compact := PriceOf(count, true), PriceOf(count, false);
    ghost var forms: seq<bool> := [];
    blocks := [];
    var i := 0;
    StartRendering(full, compact, budget, ranked, header);
    while i < |ranked|
      invariant 0 <= i == |forms| <= |ranked|
      invariant Rendering(full, compact, budget, ranked, header, forms, used)
      invariant blocks == BlocksOf(ranked, forms)
    {
      var form, block, cost := FormOf(count, budget, ranked[i], used, full, compact);
      if form.None? { break; }
      RenderMore(full, compact, budget, ranked, header, forms, used, form.value, cost);
      BlocksOfMore(ranked, forms, form.value);
      forms := forms + [form.value];
      blocks := blocks + [block];
      used := used + cost;
      i := i + 1;
    }
    EndRendering(full, compact, budget, ranked, header, forms, used);
  }

  /** The entries rendered so far, in these forms, are what the whole rendering begins with. */
  ghost predicate Rendering(full: Price, compact: Price, budget: int, ranked: seq<FileEntry>, header: nat,
                            forms: seq<bool>, used: nat) {
    && |forms| <= |ranked|
    && forms + Forms(full, compact, budget, ranked[|forms|..], used) == Forms(full, compact, budget, ranked, header)
  }

  lemma StartRendering(full: Price, compact: Price, budget: int, ranked: seq<FileEntry>, header: nat)
    ensures Rendering(full, compact, budget, ranked, header, [], header)
  {
    var all := Forms(full, compact, budget, ranked, header);
    assert ranked[0..] == ranked && [] + all == all;
  }

  lemma RenderMore(full: Price, compact: Price, budget: int, ranked: seq<FileEntry>, header: nat,
                   forms: seq<bool>, used: nat, form: bool, cost: nat)
    requires Rendering(full, compact, budget, ranked, header, forms, used) && |forms| < |ranked|
    requires cost == if form then full(ranked[|forms|]) else compact(ranked[|forms|])
    requires form <==> used + full(ranked[|forms|]) <= budget
    requires !form ==> used + compact(ranked[|forms|]) <= budget
    ensures Rendering(full, compact, budget, ranked, header, forms + [form], used + cost)
  {
    var more, rest := forms + [form], ranked[|forms| + 1..];
    assert more + Forms(full, compact, budget, rest, used + cost) == Forms(full, compact, budget, ranked, header) by {
      FormsStep(full, compact, budget, ranked, |forms|, used, forms);
    }
    assert ranked[|more|..] == rest;
  }

  lemma EndRendering(full: Price, compact: Price, budget: int, ranked: seq<FileEntry>, header: nat,
                     forms: seq<bool>, used: nat)
    requires Rendering(full, compact, budget, ranked, header, forms, used)
    requires |forms| < |ranked| ==>
      used + full(ranked[|forms|]) > budget && used + compact(ranked[|forms|]) > budget
    ensures forms == Forms(full, compact, budget, ranked, header)
  {
    if |forms| < |ranked| {
      FormsStep(full, compact, budget, ranked, |forms|, used, forms);
    }
    assert forms + [] == forms;
  }

  lemma BlocksOfMore(ranked: seq<FileEntry>, forms: seq<bool>, full: bool)
    requires |forms| < |ranked|
    ensures BlocksOf(ranked, forms + [full]) == BlocksOf(ranked, forms) + [BlockOf(ranked[|forms|], full)]
  {
  }

  lemma FormsStep(full: Price, compact: Price, budget: int, ranked: seq<FileEntry>, i: nat, used: nat, forms: seq<bool>)
    requires i < |ranked|
    ensures
      var now, rest := forms + Forms(full, compact, budget, ranked[i..], used), ranked[i + 1..];
      if used + full(ranked[i]) <= budget then
        now == forms + [true] + Forms(full, compact, budget, rest, used + full(ranked[i]))
      else if used + compact(ranked[i]) <= budget then
        now == forms + [false] + Forms(full, compact, budget, rest, used + compact(ranked[i]))
      else now == forms
  {
    assert ranked[i..][1..] == ranked[i + 1..];
    assert forms + [] == forms;
  }

  /** The summed costs never exceed the budget, or what was used before it. */
  lemma {:induction false} FormsFit(full: Price, compact: Price, budget: int, ranked: seq<FileEntry>, used: nat)
    ensures |Forms(full, compact, budget, ranked, used)| <= |ranked|
    ensures used + Cost(full, compact, ranked, Forms(full, compact, budget, ranked, used)) <= if used > budget then used else budget
    decreases |ranked|
  {
    var forms := Forms(full, compact, budget, ranked, used);
    if forms != [] {
      FormsFit(full, compact, budget, ranked[1..], used + if forms[0] then full(ranked[0]) else compact(ranked[0]));
    }
  }

  /**
   * What is rendered is a prefix of the ranked list; an entry is compact only where the full form
   * does not fit; and rendering stops only where not even the compact form fits.
   */
  lemma {:induction false} FormsArePrefix(full: Price, compact: Price, budget: int, ranked: seq<FileEntry>, used: nat, i: nat)
    ensures
      var forms := Forms(full, compact, budget, ranked, used);
      && |forms| <= |ranked|
      && (i < |forms| ==> (forms[i] <==> used + Cost(full, compact, ranked, forms[..i]) + full(ranked[i]) <= budget))
      && (i == |forms| < |ranked| ==>
            && used + Cost(full, compact, ranked, forms) + full(ranked[i]) > budget
            && used + Cost(full, compact, ranked, forms) + compact(ranked[i]) > budget)
    decreases |ranked|
  {
    var forms := Forms(full, compact, budget, ranked, used);
    if forms != [] {
      var next := used + if forms[0] then full(ranked[0]) else compact(ranked[0]);
      FormsArePrefix(full, compact, budget, ranked[1..], next, if i > 0 then i - 1 else 0);
      if 0 < i <= |forms| {
        assert forms[..i][1..] == forms[1..][..i - 1];
      }
    }
  }
}
