/**
 * Assembling a prompt in `src/jarn/agent/prompt_modules.py`: active modules are rendered within
 * their own budgets, joined after the kernel, and trimmed from the lowest priority up until the
 * joined text fits. Counting and truncating tokens are parameters of which only their stated
 * contract is known; in particular the token count of a text is not the sum over its parts.
 */
module PromptAssembly {
  import opened Prelude
  import opened Texts
  import opened PromptModules

  const SEPARATOR := "\n\n---\n\n"

  datatype Context = Context(promptOverride: bool, projectTrusted: bool)

  datatype Rendered = Rendered(name: string, priority: int, content: string, tokens: nat, truncated: bool, turnScope: bool)

  datatype Assembly = Assembly(text: string, modules: seq<Rendered>, tokens: nat)

  datatype Failure = BudgetBelowKernel

  /** `count_tokens` and `truncate_to_token_budget`. */
  datatype Tokenizer = Tokenizer(count: string -> nat, truncate: (string, nat) -> string)

  /** A truncated text fits its budget once stripped, and only the empty text has no tokens. */
  ghost predicate Lawful(t: Tokenizer) {
    && (forall s: string, b: nat :: t.count(Strip(t.truncate(s, b))) <= b)
    && (forall s: string :: s != "" ==> t.count(s) >= 1)
  }

  // ------------------------------------------------------------------------- single modules

  predicate IsActive(m: Module, context: Context) {
    !context.promptOverride && (m.projectTrust ==> context.projectTrusted) && m.activeWhen
  }

  /** A budgeter of its own cannot make a module exceed its budget. */
  function RenderModule(t: Tokenizer, m: Module): (r: Rendered)
    requires Lawful(t)
    ensures m.budget.Some? ==> t.count(r.content) <= m.budget.value
    ensures r.tokens == t.count(r.content) && (r.truncated <==> r.content != Strip(m.raw))
    ensures m.budget.None? ==> r.content == Strip(m.raw)
    ensures m.budget.Some? && t.count(Strip(m.budgeted)) <= m.budget.value ==> r.content == Strip(m.budgeted)
    ensures r.name == m.name && r.priority == m.priority && r.turnScope == m.turnScope
  {
    var raw := Strip(m.raw);
    var content :=
      if m.budget.None? then raw
      else
        var own := Strip(m.budgeted);
        if t.count(own) > m.budget.value then Strip(t.truncate(own, m.budget.value)) else own;
    Rendered(m.name, m.priority, content, t.count(content), content != raw, m.turnScope)
  }

  /** The modules that enter the prompt, in the order of the registry. */
  function RenderAll(t: Tokenizer, ms: seq<Module>, context: Context): (r: seq<Rendered>)
    requires Lawful(t)
    ensures forall i :: 0 <= i < |r| ==> r[i].content != "" && r[i].tokens == t.count(r[i].content)
  {
    if ms == [] then []
    else
      var rest, m := RenderAll(t, ms[..|ms| - 1], context), ms[|ms| - 1];
      if !m.runtimeEligible || !IsActive(m, context) then rest
      else
        var item := RenderModule(t, m);
        if item.turnScope || item.content == "" then rest else rest + [item]
  }

  /** A module enters the prompt exactly when it may be used, is trusted, is active, and says something. */
  predicate Enters(t: Tokenizer, m: Module, context: Context)
    requires Lawful(t)
  {
    && m.runtimeEligible && !context.promptOverride && (!m.projectTrust || context.projectTrusted) && m.activeWhen
    && !m.turnScope && RenderModule(t, m).content != ""
  }

  function Entering(t: Tokenizer, ms: seq<Module>, context: Context): (r: seq<Module>)
    requires Lawful(t)
  {
    if ms == [] then []
    else Entering(t, ms[..|ms| - 1], context) + if Enters(t, ms[|ms| - 1], context) then [ms[|ms| - 1]] else []
  }

  lemma {:induction false} RenderedAre(t: Tokenizer, ms: seq<Module>, context: Context)
    requires Lawful(t)
    ensures |RenderAll(t, ms, context)| == |Entering(t, ms, context)|
    ensures forall i :: 0 <= i < |RenderAll(t, ms, context)| ==>
      RenderAll(t, ms, context)[i] == RenderModule(t, Entering(t, ms, context)[i])
  {
    if ms != [] {
      RenderedAre(t, ms[..|ms| - 1], context);
    }
  }

  // --------------------------------------------------------------------------------- joining

  function Contents(items: seq<Rendered>): (parts: seq<string>) {
    if items == [] then []
    else
      Contents(items[..|items| - 1]) + if items[|items| - 1].content == "" then [] else [items[|items| - 1].content]
  }

  function JoinAll(kernel: string, items: seq<Rendered>): string {
    Join((if Strip(kernel) == "" then [] else [Strip(kernel)]) + Contents(items), SEPARATOR)
  }

  /** Items emptied at the end do not show. */
  lemma {:induction false} EmptyTail(items: seq<Rendered>, n: nat)
    requires n <= |items| && forall i :: n <= i < |items| ==> items[i].content == ""
    ensures Contents(items) == Contents(items[..n])
    decreases |items|
  {
    if n < |items| {
      EmptyTail(items[..|items| - 1], n);
      assert items[..|items| - 1][..n] == items[..n];
    } else {
      assert items[..n] == items;
    }
  }

  lemma NothingLeft(kernel: string, items: seq<Rendered>)
    ensures (forall i :: 0 <= i < |items| ==> items[i].content == "") ==> JoinAll(kernel, items) == Strip(kernel)
  {
    if forall i :: 0 <= i < |items| ==> items[i].content == "" {
      EmptyTail(items, 0);
    }
  }

  /** What is not empty is joined, in order, after the kernel. */
  lemma {:induction false} ContentsAre(items: seq<Rendered>)
    requires forall i :: 0 <= i < |items| ==> items[i].content != ""
    ensures |Contents(items)| == |items| && forall i :: 0 <= i < |items| ==> Contents(items)[i] == items[i].content
  {
    if items != [] {
      ContentsAre(items[..|items| - 1]);
    }
  }

  /** One more item adds a separator and its content. */
  lemma JoinOneMore(kernel: string, items: seq<Rendered>, item: Rendered)
    requires item.content != "" && Strip(kernel) != ""
    ensures JoinAll(kernel, items + [item]) == JoinAll(kernel, items) + "\n\n---\n\n" + item.content
    ensures JoinAll(kernel, []) == Strip(kernel)
  {
    assert (items + [item])[..|items|] == items;
    var parts := [Strip(kernel)] + Contents(items);
    assert [Strip(kernel)] + (Contents(items) + [item.content]) == parts + [item.content];
    JoinAppend(parts, item.content, SEPARATOR);
    assert [Strip(kernel)] + [] == [Strip(kernel)];
  }

  /** The stripped kernel leads the text, whole. */
  lemma KernelIntact(kernel: string, items: seq<Rendered>)
    ensures Strip(kernel) <= JoinAll(kernel, items)
  {
    if Strip(kernel) != "" {
      var parts := [Strip(kernel)] + Contents(items);
      assert parts[0] == Strip(kernel);
    }
  }

  // -------------------------------------------------------------------------------- trimming

  function LastFull(items: seq<Rendered>): (index: int)
    ensures -1 <= index < |items|
    ensures index >= 0 ==> items[index].content != ""
    ensures forall i :: index < i < |items| ==> items[i].content == ""
  {
    if items == [] then -1
    else if items[|items| - 1].content != "" then |items| - 1
    else LastFull(items[..|items| - 1])
  }

  function FullCount(items: seq<Rendered>): nat {
    if items == [] then 0 else FullCount(items[..|items| - 1]) + if items[|items| - 1].content == "" then 0 else 1
  }

  lemma {:induction false} FullCountUpdate(items: seq<Rendered>, i: nat, item: Rendered)
    requires i < |items| && items[i].content != ""
    ensures FullCount(items[i := item]) == FullCount(items) - if item.content == "" then 1 else 0
  {
    var last := |items| - 1;
    if i < last {
      FullCountUpdate(items[..last], i, item);
      assert items[i := item][..last] == items[..last][i := item];
    } else {
      assert items[i := item][..last] == items[..last];
    }
  }

  ghost predicate Counted(t: Tokenizer, items: seq<Rendered>) {
    forall i :: 0 <= i < |items| ==> items[i].tokens == t.count(items[i].content)
  }

  /** The last item that is not empty, cut by what the text is too long, or emptied. */
  function CutItem(t: Tokenizer, current: Rendered, excess: nat): (item: Rendered)
    requires Lawful(t) && excess > 0 && current.content != "" && current.tokens == t.count(current.content)
    ensures item.tokens == t.count(item.content) && (item.content == "" || item.tokens < current.tokens)
    ensures
      var target := if current.tokens > excess + 1 then current.tokens - excess - 1 else 0;
      var cut := Strip(t.truncate(current.content, target));
      item.content == (if cut == current.content then "" else cut) && item.truncated
  {
    var target := if current.tokens - excess - 1 > 0 then current.tokens - excess - 1 else 0;
    var content := Strip(t.truncate(current.content, target));
    var kept := if content == current.content then "" else content;
    current.(content := kept, tokens := t.count(kept), truncated := true)
  }

  function LastTokens(items: seq<Rendered>): nat {
    if LastFull(items) < 0 then 0 else items[LastFull(items)].tokens
  }

  lemma CutDecreases(t: Tokenizer, items: seq<Rendered>, excess: nat)
    requires Lawful(t) && excess > 0 && Counted(t, items) && LastFull(items) >= 0
    ensures
      var index := LastFull(items);
      var cut := items[index := CutItem(t, items[index], excess)];
      && Counted(t, cut)
      && (FullCount(cut) < FullCount(items) || (FullCount(cut) == FullCount(items) && LastTokens(cut) < LastTokens(items)))
  {
    var index := LastFull(items);
    var item := CutItem(t, items[index], excess);
    FullCountUpdate(items, index, item);
    if item.content != "" {
      LastFullIs(items[index := item], index);
    }
  }

  lemma LastFullIs(items: seq<Rendered>, index: nat)
    requires index < |items| && items[index].content != ""
    requires forall i :: index < i < |items| ==> items[i].content == ""
    ensures LastFull(items) == index
  {
    assert LastFull(items) >= index;
  }

  /** What the trim loop makes of the items. */
  ghost function Trimmed(t: Tokenizer, kernel: string, budget: int, items: seq<Rendered>): seq<Rendered>
    requires Lawful(t) && Counted(t, items) && t.count(Strip(kernel)) <= budget
    decreases FullCount(items), LastTokens(items)
  {
    var index, tokens := LastFull(items), t.count(JoinAll(kernel, items));
    if tokens <= budget || index < 0 then items
    else
      CutDecreases(t, items, tokens - budget);
      Trimmed(t, kernel, budget, items[index := CutItem(t, items[index], tokens - budget)])
  }

  /** The trim loop: it ends with a text that fits, and it never runs out of items to trim. */
  method Trim(t: Tokenizer, kernel: string, budget: int, items: seq<Rendered>) returns (trimmed: seq<Rendered>, text: string)
    requires Lawful(t) && Counted(t, items) && t.count(Strip(kernel)) <= budget
    ensures trimmed == Trimmed(t, kernel, budget, items)
    ensures text == JoinAll(kernel, trimmed) && t.count(text) <= budget
  {
    trimmed := items;
    text := JoinAll(kernel, trimmed);
    while t.count(text) > budget
      invariant text == JoinAll(kernel, trimmed) && Counted(t, trimmed)
      invariant Trimmed(t, kernel, budget, trimmed) == Trimmed(t, kernel, budget, items)
      decreases FullCount(trimmed), LastTokens(trimmed)
    {
      var index := LastFull(trimmed);
      NothingLeft(kernel, trimmed);
      if index < 0 {
        assert false;
        break;
      }
      var excess := t.count(text) - budget;
      CutDecreases(t, trimmed, excess);
      trimmed := trimmed[index := CutItem(t, trimmed[index], excess)];
      text := JoinAll(kernel, trimmed);
    }
  }

  // -------------------------------------------------------------------- what trimming leaves

  /** The text that ends with item `i`, as it was before trimming, does not fit. */
  ghost predicate TooLong(t: Tokenizer, kernel: string, budget: int, before: seq<Rendered>, i: nat)
    requires i < |before|
  {
    t.count(JoinAll(kernel, before[..i + 1])) > budget
  }

  /**
   * `after` is `before` trimmed at `k`: what comes earlier is unchanged, what comes later is
   * emptied, and an item was touched only because the text that ends with it was too long.
   */
  ghost predicate TrimmedAt(t: Tokenizer, kernel: string, budget: int, before: seq<Rendered>, after: seq<Rendered>, k: nat) {
    && |before| == |after| && k <= |before|
    && (forall i :: 0 <= i < k ==> after[i] == before[i])
    && (forall i :: k < i < |after| ==> after[i].content == "")
    && (forall i :: k <= i < |after| ==> after[i].truncated && TooLong(t, kernel, budget, before, i))
    && (k < |after| ==> after[k].content == "" || after[k].tokens < before[k].tokens)
  }

  ghost predicate SuffixTrimmed(t: Tokenizer, kernel: string, budget: int, before: seq<Rendered>, after: seq<Rendered>) {
    exists k :: TrimmedAt(t, kernel, budget, before, after, k)
  }

  /** One round of trimming, at the last item that is not empty. */
  lemma TrimRound(t: Tokenizer, kernel: string, budget: int, before: seq<Rendered>, items: seq<Rendered>, k: nat, index: nat, item: Rendered)
    requires TrimmedAt(t, kernel, budget, before, items, k)
    requires forall i :: 0 <= i < |before| ==> before[i].content != ""
    requires LastFull(items) == index && t.count(JoinAll(kernel, items)) > budget
    requires item.truncated && (item.content == "" || item.tokens < items[index].tokens)
    ensures TrimmedAt(t, kernel, budget, before, items[index := item], index)
  {
    assert index <= k && (k > 0 ==> items[k - 1] == before[k - 1]);
    if index < k {
      WasTooLong(t, kernel, budget, before, items, index);
    }
  }

  lemma WasTooLong(t: Tokenizer, kernel: string, budget: int, before: seq<Rendered>, items: seq<Rendered>, index: nat)
    requires |items| == |before| && LastFull(items) == index && t.count(JoinAll(kernel, items)) > budget
    requires forall i :: 0 <= i <= index ==> items[i] == before[i]
    ensures TooLong(t, kernel, budget, before, index)
  {
    EmptyTail(items, index + 1);
    assert items[..index + 1] == before[..index + 1];
    assert JoinAll(kernel, items) == JoinAll(kernel, before[..index + 1]);
  }

  /** Only a suffix of the priority order is emptied, and at most one item is partly cut. */
  lemma {:induction false} TrimmedIsSuffix(t: Tokenizer, kernel: string, budget: int, before: seq<Rendered>, items: seq<Rendered>, k: nat)
    requires Lawful(t) && Counted(t, items) && t.count(Strip(kernel)) <= budget
    requires forall i :: 0 <= i < |before| ==> before[i].content != ""
    requires TrimmedAt(t, kernel, budget, before, items, k)
    ensures SuffixTrimmed(t, kernel, budget, before, Trimmed(t, kernel, budget, items))
    decreases FullCount(items), LastTokens(items)
  {
    var index, tokens := LastFull(items), t.count(JoinAll(kernel, items));
    if tokens > budget && index >= 0 {
      CutRound(t, kernel, budget, before, items, k);
      CutDecreases(t, items, tokens - budget);
      TrimmedIsSuffix(t, kernel, budget, before, items[index := CutItem(t, items[index], tokens - budget)], index);
    }
  }

  lemma CutRound(t: Tokenizer, kernel: string, budget: int, before: seq<Rendered>, items: seq<Rendered>, k: nat)
    requires Lawful(t) && Counted(t, items) && LastFull(items) >= 0 && t.count(JoinAll(kernel, items)) > budget
    requires forall i :: 0 <= i < |before| ==> before[i].content != ""
    requires TrimmedAt(t, kernel, budget, before, items, k)
    requires t.count(Strip(kernel)) <= budget
    ensures
      var index, excess := LastFull(items), t.count(JoinAll(kernel, items)) - budget;
      var cut := items[index := CutItem(t, items[index], excess)];
      && TrimmedAt(t, kernel, budget, before, cut, index) && Counted(t, cut)
      && (FullCount(cut) < FullCount(items) || (FullCount(cut) == FullCount(items) && LastTokens(cut) < LastTokens(items)))
      && Trimmed(t, kernel, budget, items) == Trimmed(t, kernel, budget, cut)
  {
    var index, excess := LastFull(items), t.count(JoinAll(kernel, items)) - budget;
    TrimRound(t, kernel, budget, before, items, k, index, CutItem(t, items[index], excess));
    CutDecreases(t, items, excess);
  }

  method Assemble(t: Tokenizer, modules: seq<Module>, context: Context, kernel: string, aggregateBudget: Option<int>)
    returns (r: Result<Assembly, Failure>)
    requires Lawful(t)
    ensures r.Err? <==> aggregateBudget.Some? && aggregateBudget.value < t.count(Strip(kernel))
    ensures r.Ok? ==>
      && r.value.text == JoinAll(kernel, r.value.modules) && r.value.tokens == t.count(r.value.text)
      && Strip(kernel) <= r.value.text
    ensures r.Ok? && aggregateBudget.None? ==> r.value.modules == RenderAll(t, modules, context)
    ensures r.Ok? && aggregateBudget.Some? ==>
      && r.value.tokens <= aggregateBudget.value
      && r.value.modules == Trimmed(t, kernel, aggregateBudget.value, RenderAll(t, modules, context))
      && SuffixTrimmed(t, kernel, aggregateBudget.value, RenderAll(t, modules, context), r.value.modules)
  {
    var rendered: seq<Rendered> := [];
    var i := 0;
    while i < |modules|
      invariant 0 <= i <= |modules| && rendered == RenderAll(t, modules[..i], context)
    {
      var m := modules[i];
      assert modules[..i + 1][..i] == modules[..i];
      if m.runtimeEligible && IsActive(m, context) {
        var item := RenderModule(t, m);
        if !item.turnScope && item.content != "" {
          rendered := rendered + [item];
        }
      }
      i := i + 1;
    }
    assert modules[..i] == modules;
    var text := JoinAll(kernel, rendered);
    if aggregateBudget.Some? {
      if aggregateBudget.value < t.count(Strip(kernel)) { return Err(BudgetBelowKernel); }
      TrimmedIsSuffix(t, kernel, aggregateBudget.value, rendered, rendered, |rendered|);
      rendered, text := Trim(t, kernel, aggregateBudget.value, rendered);
    }
    KernelIntact(kernel, rendered);
    r := Ok(Assembly(text, rendered, t.count(text)));
  }

  /** A prompt that fits is not trimmed, and a trimmed one has lost only a suffix of its order. */
  lemma TrimOnlyWhenNeeded(t: Tokenizer, kernel: string, budget: int, before: seq<Rendered>, after: seq<Rendered>, k: nat)
    requires TrimmedAt(t, kernel, budget, before, after, k)
    ensures t.count(JoinAll(kernel, before)) <= budget ==> after == before
  {
    if k < |before| {
      assert TooLong(t, kernel, budget, before, |before| - 1);
      assert before[..|before|] == before;
    }
  }

  lemma {:induction false} StripShortens(s: string)
    ensures |Strip(s)| <= |s|
    decreases |s|
  {
    if s != "" {
      StripShortens(s[1..]);
      StripShortens(s[..|s| - 1]);
    }
  }

  /** Counting and cutting characters is lawful. */
  lemma LawfulTokenizer()
    ensures Lawful(Tokenizer((s: string) => |s|, (s: string, b: nat) => Take(s, b)))
  {
    forall s: string, b: nat ensures |Strip(Take(s, b))| <= b {
      StripShortens(Take(s, b));
    }
  }
}
