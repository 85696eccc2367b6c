/**
 * The grep result filter of `src/jarn/agent/read_filter.py`: it reads the formatted text of a
 * search result and drops the hits in blocked files.
 */
module GrepFilter {
  import opened Texts

  type Block = string -> bool

  datatype Mode = Content | Count | FilesWithMatches

  // The two notices, put together from pieces short enough for the verifier to index.

  const NOTICE_HEAD := "[jarn: omitted " + "matches in read-" + "restricted files " + "(e.g. .env / " + "keys); "
  const NOTICE_TAIL := "read a specific " + "approved path " + "to view it]"
  const NOTICE := NOTICE_HEAD + NOTICE_TAIL
  const EMPTY := "No matches found " + "(matches in read-" + "restricted files " + "were omitted)"

  /** A leading slash, a drive letter with its root, or a network share. */
  predicate LooksAbsolute(line: string) {
    || (|line| >= 1 && line[0] == '/')
    || (|line| >= 3 && ('A' <= line[0] <= 'Z' || 'a' <= line[0] <= 'z') && line[1] == ':' && (line[2] == '\\' || line[2] == '/'))
    || (|line| >= 2 && line[0] == '\\' && line[1] == '\\')
  }

  predicate Indented(line: string) {
    line != "" && (line[0] == ' ' || line[0] == '\t')
  }

  predicate IsHeader(line: string) {
    LooksAbsolute(line) && line[|line| - 1] == ':'
  }

  /** Where the last ": " of the first `n` characters of a line begins, or -1. */
  function LastSeparator(line: string, n: nat): (i: int)
    requires n <= |line|
    ensures i == -1 || (0 <= i <= n - 2 && line[i] == ':' && line[i + 1] == ' ')
    ensures forall j :: 0 <= j <= n - 2 && i < j ==> !(line[j] == ':' && line[j + 1] == ' ')
  {
    if n < 2 then -1 else if line[n - 2] == ':' && line[n - 1] == ' ' then n - 2 else LastSeparator(line, n - 1)
  }

  /** `line.rsplit(": ", 1)[0]`. */
  function CountLinePath(line: string): string {
    var i := LastSeparator(line, |line|);
    if i < 0 then line else line[..i]
  }

  function PathOf(mode: Mode, line: string): string {
    if mode.Count? then CountLinePath(line) else line
  }

  // ---------------------------------------------------------------------------- line by line

  /** The lines kept from a one-path-per-line result. */
  function KeptPaths(lines: seq<string>, mode: Mode, blocked: Block): (kept: seq<string>) {
    if lines == [] then []
    else
      var rest := KeptPaths(lines[1..], mode, blocked);
      if LooksAbsolute(lines[0]) && blocked(PathOf(mode, lines[0])) then rest else [lines[0]] + rest
  }

  /** Some line names a blocked path. */
  predicate BlocksPath(lines: seq<string>, mode: Mode, blocked: Block) {
    lines != [] &&
    ((LooksAbsolute(lines[0]) && blocked(PathOf(mode, lines[0]))) || BlocksPath(lines[1..], mode, blocked))
  }

  /** Whether the lines after `line` are skipped, when those before it were (`skip`). */
  function SkipAfter(line: string, skip: bool, blocked: Block): bool {
    if IsHeader(line) then blocked(line[..|line| - 1])
    else if Indented(line) || line == "" then skip
    else false
  }

  /** The lines kept from a content result. */
  function KeptContent(lines: seq<string>, skip: bool, blocked: Block): (kept: seq<string>) {
    if lines == [] then []
    else
      var skip' := SkipAfter(lines[0], skip, blocked);
      var rest := KeptContent(lines[1..], skip', blocked);
      if skip' then rest else [lines[0]] + rest
  }

  /** Some header names a blocked path. */
  predicate BlocksHeader(lines: seq<string>, blocked: Block) {
    lines != [] &&
    ((IsHeader(lines[0]) && blocked(lines[0][..|lines[0]| - 1])) || BlocksHeader(lines[1..], blocked))
  }

  /** One more line of a one-path-per-line result, after `kept` was kept before it. */
  lemma KeptPathsAt(lines: seq<string>, i: nat, mode: Mode, blocked: Block, kept: seq<string>)
    requires i < |lines|
    ensures
      var drop := LooksAbsolute(lines[i]) && blocked(PathOf(mode, lines[i]));
      kept + KeptPaths(lines[i..], mode, blocked) ==
        (if drop then kept else kept + [lines[i]]) + KeptPaths(lines[i + 1..], mode, blocked)
    ensures BlocksPath(lines[i..], mode, blocked) <==>
      (LooksAbsolute(lines[i]) && blocked(PathOf(mode, lines[i]))) || BlocksPath(lines[i + 1..], mode, blocked)
  {
    assert lines[i..][1..] == lines[i + 1..];
  }

  method FilterLineMode(content: string, mode: Mode, blocked: Block) returns (filtered: string, removed: bool)
    ensures filtered == Join(KeptPaths(Split(content), mode, blocked), "\n")
    ensures removed == BlocksPath(Split(content), mode, blocked)
  {
    var lines := Split(content);
    var kept: seq<string> := [];
    removed := false;
    var i := 0;
    while i < |lines|
      invariant 0 <= i <= |lines|
      invariant kept + KeptPaths(lines[i..], mode, blocked) == KeptPaths(lines, mode, blocked)
      invariant removed || BlocksPath(lines[i..], mode, blocked) <==> BlocksPath(lines, mode, blocked)
    {
      var line := lines[i];
      KeptPathsAt(lines, i, mode, blocked, kept);
      if LooksAbsolute(line) && blocked(PathOf(mode, line)) {
        removed := true;
      } else {
        kept := kept + [line];
      }
      i := i + 1;
    }
    assert kept + [] == kept;
    filtered := Join(kept, "\n");
  }

  /** One more line of a content result, after `kept` was kept before it. */
  lemma KeptContentAt(lines: seq<string>, i: nat, skip: bool, blocked: Block, kept: seq<string>)
    requires i < |lines|
    ensures
      var skip' := SkipAfter(lines[i], skip, blocked);
      kept + KeptContent(lines[i..], skip, blocked) ==
        (if skip' then kept else kept + [lines[i]]) + KeptContent(lines[i + 1..], skip', blocked)
    ensures BlocksHeader(lines[i..], blocked) <==>
      (IsHeader(lines[i]) && blocked(lines[i][..|lines[i]| - 1])) || BlocksHeader(lines[i + 1..], blocked)
  {
    assert lines[i..][1..] == lines[i + 1..];
  }

  method FilterContentMode(content: string, blocked: Block) returns (filtered: string, removed: bool)
    ensures filtered == Join(KeptContent(Split(content), false, blocked), "\n")
    ensures removed == BlocksHeader(Split(content), blocked)
  {
    var lines := Split(content);
    var kept: seq<string> := [];
    var skip := false;
    removed := false;
    var i := 0;
    while i < |lines|
      invariant 0 <= i <= |lines|
      invariant kept + KeptContent(lines[i..], skip, blocked) == KeptContent(lines, false, blocked)
      invariant removed || BlocksHeader(lines[i..], blocked) <==> BlocksHeader(lines, blocked)
    {
      var line := lines[i];
      KeptContentAt(lines, i, skip, blocked, kept);
      if LooksAbsolute(line) && line[|line| - 1] == ':' {
        if blocked(line[..|line| - 1]) {
          removed := true;
          skip := true;
        } else {
          skip := false;
          kept := kept + [line];
        }
      } else if Indented(line) {
        if !skip {
          kept := kept + [line];
        }
      } else if line == "" {
        if !skip {
          kept := kept + [line];
        }
      } else {
        skip := false;
        kept := kept + [line];
      }
      i := i + 1;
    }
    assert kept + [] == kept;
    filtered := Join(kept, "\n");
  }

  // ------------------------------------------------------------------------- the whole filter

  function Kept(content: string, mode: Mode, blocked: Block): seq<string> {
    if mode.Content? then KeptContent(Split(content), false, blocked) else KeptPaths(Split(content), mode, blocked)
  }

  predicate Blocks(content: string, mode: Mode, blocked: Block) {
    if mode.Content? then BlocksHeader(Split(content), blocked) else BlocksPath(Split(content), mode, blocked)
  }

  function Filter(content: string, mode: Mode, blocked: Block): (r: (string, bool)) {
    if !Blocks(content, mode, blocked) then (content, false)
    else
      var filtered := Join(Kept(content, mode, blocked), "\n");
      if Blank(filtered) then (EMPTY, true) else (filtered + "\n" + NOTICE, true)
  }

  method FilterGrepContent(content: string, mode: Mode, blocked: Block) returns (filtered: string, removed: bool)
    ensures (filtered, removed) == Filter(content, mode, blocked)
  {
    if mode.Content? {
      filtered, removed := FilterContentMode(content, blocked);
    } else {
      filtered, removed := FilterLineMode(content, mode, blocked);
    }
    if !removed { return content, false; }
    if Blank(filtered) { return EMPTY, true; }
    filtered := filtered + "\n" + NOTICE;
  }

  /** Lines that are no path, not indented and not empty stay, in every mode: errors, guidance, notices. */
  lemma {:induction false} OtherLinesStay(lines: seq<string>, mode: Mode, skip: bool, blocked: Block, line: string)
    requires line in lines && line != "" && line[0] !in {' ', '\t', '/', '\\'} && (|line| < 2 || line[1] != ':')
    ensures line in KeptPaths(lines, mode, blocked) && line in KeptContent(lines, skip, blocked)
  {
    if lines[0] != line {
      OtherLinesStay(lines[1..], mode, SkipAfter(lines[0], skip, blocked), blocked, line);
    }
  }

  // ------------------------------------------------------------------------------ idempotence

  lemma {:induction false} KeptPathsUnblocked(lines: seq<string>, mode: Mode, blocked: Block)
    ensures !BlocksPath(KeptPaths(lines, mode, blocked), mode, blocked)
    ensures forall line :: line in KeptPaths(lines, mode, blocked) ==> line in lines
  {
    if lines != [] {
      KeptPathsUnblocked(lines[1..], mode, blocked);
    }
  }

  lemma {:induction false} KeptContentUnblocked(lines: seq<string>, skip: bool, blocked: Block)
    ensures !BlocksHeader(KeptContent(lines, skip, blocked), blocked)
    ensures forall line :: line in KeptContent(lines, skip, blocked) ==> line in lines
  {
    if lines != [] {
      KeptContentUnblocked(lines[1..], SkipAfter(lines[0], skip, blocked), blocked);
    }
  }

  lemma NoticeHead()
    ensures OneLine(NOTICE_HEAD) && |NOTICE_HEAD| > 0 && NOTICE_HEAD[0] == '['
  {
  }

  lemma NoticeTail()
    ensures OneLine(NOTICE_TAIL)
  {
  }

  lemma EmptyIsNoPath()
    ensures OneLine(EMPTY) && |EMPTY| > 1 && EMPTY[0] == 'N' && EMPTY[1] == 'o'
  {
  }

  lemma NoticesAreNoPaths()
    ensures OneLine(NOTICE) && OneLine(EMPTY) && !LooksAbsolute(NOTICE) && !LooksAbsolute(EMPTY)
  {
    NoticeHead();
    NoticeTail();
    EmptyIsNoPath();
    assert NOTICE[0] == NOTICE_HEAD[0];
  }

  lemma {:induction false} BlocksAppend(lines: seq<string>, last: string, mode: Mode, blocked: Block)
    requires !LooksAbsolute(last)
    ensures BlocksPath(lines + [last], mode, blocked) <==> BlocksPath(lines, mode, blocked)
    ensures BlocksHeader(lines + [last], blocked) <==> BlocksHeader(lines, blocked)
  {
    if lines == [] {
      assert [] + [last] == [last];
    } else {
      BlocksAppend(lines[1..], last, mode, blocked);
      assert (lines + [last])[1..] == lines[1..] + [last];
    }
  }

  lemma KeptUnblocked(content: string, mode: Mode, blocked: Block)
    ensures var kept := Kept(content, mode, blocked);
      && (if mode.Content? then !BlocksHeader(kept, blocked) else !BlocksPath(kept, mode, blocked))
      && (forall i :: 0 <= i < |kept| ==> OneLine(kept[i]))
  {
    var kept := Kept(content, mode, blocked);
    if mode.Content? {
      KeptContentUnblocked(Split(content), false, blocked);
    } else {
      KeptPathsUnblocked(Split(content), mode, blocked);
    }
    forall i | 0 <= i < |kept| ensures OneLine(kept[i]) {
      assert kept[i] in Split(content);
    }
  }

  /** Filtering a filtered result changes nothing, whatever the text was. */
  lemma FilterIdempotent(content: string, mode: Mode, blocked: Block)
    ensures var once := Filter(content, mode, blocked).0; Filter(once, mode, blocked) == (once, false)
  {
    if Blocks(content, mode, blocked) {
      var kept := Kept(content, mode, blocked);
      NoticesAreNoPaths();
      if Blank(Join(kept, "\n")) {
        SplitOneLine(EMPTY);
        BlocksAppend([], EMPTY, mode, blocked);
        assert [] + [EMPTY] == [EMPTY];
      } else {
        KeptUnblocked(content, mode, blocked);
        JoinAppend(kept, NOTICE, "\n");
        SplitJoin(kept + [NOTICE]);
        BlocksAppend(kept, NOTICE, mode, blocked);
      }
    }
  }

  // ------------------------------------------------------------- commuting with the formatter

  /** A file with its hits: match lines in content mode, a count in count mode. */
  datatype Group = Group(path: string, matches: seq<string>, count: string)

  ghost predicate PosixPath(p: string) {
    exists s: string :: p == "/" + s
  }

  ghost predicate DrivePath(p: string) {
    exists letter: char, slash: char, s: string ::
      && p == [letter, ':', slash] + s && slash in {'/', '\\'}
      && ('a' <= letter <= 'z' || 'A' <= letter <= 'Z')
  }

  ghost predicate SharePath(p: string) {
    exists s: string :: p == "\\\\" + s
  }

  /** The absolute lines are those of these three forms. */
  lemma AbsoluteForms(p: string)
    ensures LooksAbsolute(p) <==> PosixPath(p) || DrivePath(p) || SharePath(p)
  {
    if LooksAbsolute(p) {
      if p[0] == '/' {
        assert p == "/" + p[1..];
      } else if p[0] == '\\' {
        assert p == "\\\\" + p[2..];
      } else {
        assert p == [p[0], ':', p[2]] + p[3..];
      }
    }
  }

  /** A file under an absolute path, match lines that begin with a space or a tab, and a number. */
  ghost predicate GoodGroup(g: Group) {
    && (PosixPath(g.path) || DrivePath(g.path) || SharePath(g.path)) && OneLine(g.path)
    && (forall i :: 0 <= i < |g.matches| ==> GoodMatch(g.matches[i]))
    && OneLine(g.count) && forall i :: 0 <= i < |g.count| ==> '0' <= g.count[i] <= '9'
  }

  ghost predicate GoodMatch(line: string) {
    OneLine(line) && exists s: string :: line == " " + s || line == "\t" + s
  }

  lemma MatchIsIndented(line: string)
    requires GoodMatch(line)
    ensures Indented(line) && OneLine(line)
  {
  }

  function GroupLines(g: Group, mode: Mode): (lines: seq<string>)
    ensures lines != []
  {
    match mode
    case Content => [g.path + ":"] + g.matches
    case Count => [g.path + ": " + g.count]
    case FilesWithMatches => [g.path]
  }

  function Lines(gs: seq<Group>, mode: Mode): seq<string> {
    if gs == [] then [] else GroupLines(gs[0], mode) + Lines(gs[1..], mode)
  }

  /** The formatted result of a search. */
  function Print(gs: seq<Group>, mode: Mode): string {
    Join(Lines(gs, mode), "\n")
  }

  function Unblocked(gs: seq<Group>, blocked: Block): seq<Group> {
    if gs == [] then [] else (if blocked(gs[0].path) then [] else [gs[0]]) + Unblocked(gs[1..], blocked)
  }

  predicate AnyBlocked(gs: seq<Group>, blocked: Block) {
    gs != [] && (blocked(gs[0].path) || AnyBlocked(gs[1..], blocked))
  }

  lemma CountLinePathOf(path: string, count: string)
    requires forall i :: 0 <= i < |count| ==> '0' <= count[i] <= '9'
    ensures CountLinePath(path + ": " + count) == path
  {
    var line := path + ": " + count;
    var i := LastSeparator(line, |line|);
    assert line[|path|] == ':' && line[|path| + 1] == ' ';
    assert forall j :: |path| + 2 <= j < |line| ==> line[j] == count[j - |path| - 2];
    assert i == |path|;
  }

  lemma FirstIsNoSpace(p: string)
    requires LooksAbsolute(p)
    ensures !IsSpace(p[0])
  {
    SpacesAre(p[0]);
  }

  /** The first line of a group leads with its path. */
  lemma FirstLine(g: Group, mode: Mode)
    requires GoodGroup(g)
    ensures forall i :: 0 <= i < |GroupLines(g, mode)| ==> OneLine(GroupLines(g, mode)[i])
    ensures forall i :: 0 <= i < |g.matches| ==> Indented(g.matches[i])
    ensures LooksAbsolute(GroupLines(g, mode)[0]) && !IsSpace(GroupLines(g, mode)[0][0])
    ensures !mode.Content? ==> PathOf(mode, GroupLines(g, mode)[0]) == g.path
    ensures mode.Content? ==> IsHeader(GroupLines(g, mode)[0]) && (g.path + ":")[..|g.path + ":"| - 1] == g.path
  {
    AbsoluteForms(g.path);
    FirstIsNoSpace(g.path);
    if mode.Count? {
      CountLinePathOf(g.path, g.count);
    }
    forall i | 0 <= i < |g.matches| ensures OneLine(g.matches[i]) && Indented(g.matches[i]) {
      MatchIsIndented(g.matches[i]);
    }
  }

  lemma {:induction false} KeptMatches(matches: seq<string>, rest: seq<string>, skip: bool, blocked: Block)
    requires forall i :: 0 <= i < |matches| ==> Indented(matches[i])
    ensures KeptContent(matches + rest, skip, blocked) == (if skip then [] else matches) + KeptContent(rest, skip, blocked)
    ensures BlocksHeader(matches + rest, blocked) <==> BlocksHeader(rest, blocked)
  {
    if matches == [] {
      assert matches + rest == rest;
    } else {
      KeptMatches(matches[1..], rest, skip, blocked);
      assert (matches + rest)[1..] == matches[1..] + rest;
      assert (matches + rest)[0] == matches[0];
      assert [matches[0]] + matches[1..] == matches;
      BlocksHeaderCons(matches[0], matches[1..] + rest, blocked);
      assert matches + rest == [matches[0]] + (matches[1..] + rest);
    }
  }

  lemma BlocksHeaderCons(line: string, rest: seq<string>, blocked: Block)
    ensures BlocksHeader([line] + rest, blocked) <==>
      (IsHeader(line) && blocked(line[..|line| - 1])) || BlocksHeader(rest, blocked)
  {
    assert ([line] + rest)[1..] == rest;
  }

  lemma BlocksPathCons(line: string, rest: seq<string>, mode: Mode, blocked: Block)
    ensures BlocksPath([line] + rest, mode, blocked) <==>
      (LooksAbsolute(line) && blocked(PathOf(mode, line))) || BlocksPath(rest, mode, blocked)
  {
    assert ([line] + rest)[1..] == rest;
  }

  lemma AnyBlockedCons(g: Group, rest: seq<Group>, blocked: Block)
    ensures AnyBlocked([g] + rest, blocked) <==> blocked(g.path) || AnyBlocked(rest, blocked)
  {
    assert ([g] + rest)[1..] == rest;
  }

  /** Content mode: a group is kept or dropped as a whole, whatever was skipped before it. */
  lemma KeptGroup(g: Group, rest: seq<string>, skip: bool, blocked: Block)
    requires GoodGroup(g)
    ensures KeptContent(GroupLines(g, Content) + rest, skip, blocked) ==
      (if blocked(g.path) then [] else GroupLines(g, Content)) + KeptContent(rest, blocked(g.path), blocked)
    ensures BlocksHeader(GroupLines(g, Content) + rest, blocked) <==> blocked(g.path) || BlocksHeader(rest, blocked)
  {
    var first, tail := g.path + ":", g.matches + rest;
    FirstLine(g, Content);
    KeptMatches(g.matches, rest, blocked(g.path), blocked);
    assert GroupLines(g, Content) + rest == [first] + tail;
    assert ([first] + tail)[0] == first && ([first] + tail)[1..] == tail;
    BlocksHeaderCons(first, tail, blocked);
    assert [first] + (g.matches + KeptContent(rest, false, blocked)) == GroupLines(g, Content) + KeptContent(rest, false, blocked);
  }

  lemma {:induction false} KeptContentLines(gs: seq<Group>, skip: bool, blocked: Block)
    requires forall i :: 0 <= i < |gs| ==> GoodGroup(gs[i])
    ensures KeptContent(Lines(gs, Content), skip, blocked) == Lines(Unblocked(gs, blocked), Content)
    ensures BlocksHeader(Lines(gs, Content), blocked) <==> AnyBlocked(gs, blocked)
  {
    if gs != [] {
      var g, rest := gs[0], gs[1..];
      KeptContentLines(rest, blocked(g.path), blocked);
      KeptGroup(g, Lines(rest, Content), skip, blocked);
      assert gs == [g] + rest;
      AnyBlockedCons(g, rest, blocked);
      UnblockedLines(g, rest, Content, blocked);
    }
  }

  lemma {:induction false} KeptPathLines(gs: seq<Group>, mode: Mode, blocked: Block)
    requires !mode.Content? && forall i :: 0 <= i < |gs| ==> GoodGroup(gs[i])
    ensures KeptPaths(Lines(gs, mode), mode, blocked) == Lines(Unblocked(gs, blocked), mode)
    ensures BlocksPath(Lines(gs, mode), mode, blocked) <==> AnyBlocked(gs, blocked)
  {
    if gs != [] {
      var g, rest := gs[0], gs[1..];
      var first := GroupLines(g, mode)[0];
      FirstLine(g, mode);
      KeptPathLines(rest, mode, blocked);
      assert Lines(gs, mode) == [first] + Lines(rest, mode);
      assert ([first] + Lines(rest, mode))[1..] == Lines(rest, mode);
      BlocksPathCons(first, Lines(rest, mode), mode, blocked);
      assert gs == [g] + rest;
      AnyBlockedCons(g, rest, blocked);
      UnblockedLines(g, rest, mode, blocked);
    }
  }

  lemma UnblockedLines(g: Group, rest: seq<Group>, mode: Mode, blocked: Block)
    ensures Lines(Unblocked([g] + rest, blocked), mode) ==
      (if blocked(g.path) then [] else GroupLines(g, mode)) + Lines(Unblocked(rest, blocked), mode)
  {
    assert ([g] + rest)[0] == g && ([g] + rest)[1..] == rest;
    if blocked(g.path) {
      assert [] + Unblocked(rest, blocked) == Unblocked(rest, blocked);
      assert [] + Lines(Unblocked(rest, blocked), mode) == Lines(Unblocked(rest, blocked), mode);
    } else {
      assert ([g] + Unblocked(rest, blocked))[1..] == Unblocked(rest, blocked);
    }
  }

  lemma {:induction false} LinesOneLine(gs: seq<Group>, mode: Mode)
    requires forall i :: 0 <= i < |gs| ==> GoodGroup(gs[i])
    ensures forall i :: 0 <= i < |Lines(gs, mode)| ==> OneLine(Lines(gs, mode)[i])
  {
    if gs != [] {
      FirstLine(gs[0], mode);
      LinesOneLine(gs[1..], mode);
    }
  }

  lemma PrintIsNotBlank(gs: seq<Group>, mode: Mode)
    requires gs != [] && GoodGroup(gs[0])
    ensures !Blank(Print(gs, mode))
  {
    FirstLine(gs[0], mode);
    var lines := Lines(gs, mode);
    assert lines[0] == GroupLines(gs[0], mode)[0];
    assert Print(gs, mode)[0] == lines[0][0];
  }

  lemma {:induction false} UnblockedGood(gs: seq<Group>, blocked: Block)
    requires forall i :: 0 <= i < |gs| ==> GoodGroup(gs[i])
    ensures forall i :: 0 <= i < |Unblocked(gs, blocked)| ==> GoodGroup(Unblocked(gs, blocked)[i])
  {
    if gs != [] {
      UnblockedGood(gs[1..], blocked);
      AnyBlockedCons(gs[0], gs[1..], blocked);
      assert gs == [gs[0]] + gs[1..];
    }
  }

  lemma KeptPrint(gs: seq<Group>, mode: Mode, blocked: Block)
    requires gs != [] && forall i :: 0 <= i < |gs| ==> GoodGroup(gs[i])
    ensures Kept(Print(gs, mode), mode, blocked) == Lines(Unblocked(gs, blocked), mode)
    ensures Blocks(Print(gs, mode), mode, blocked) <==> AnyBlocked(gs, blocked)
  {
    LinesOneLine(gs, mode);
    SplitJoin(Lines(gs, mode));
    if mode.Content? {
      KeptContentLines(gs, false, blocked);
    } else {
      KeptPathLines(gs, mode, blocked);
    }
  }

  lemma PrintUnblocked(gs: seq<Group>, mode: Mode, blocked: Block)
    requires forall i :: 0 <= i < |gs| ==> GoodGroup(gs[i])
    ensures Blank(Print(Unblocked(gs, blocked), mode)) <==> Unblocked(gs, blocked) == []
  {
    UnblockedGood(gs, blocked);
    if Unblocked(gs, blocked) != [] {
      PrintIsNotBlank(Unblocked(gs, blocked), mode);
    }
  }

  lemma {:induction false} AnyBlockedIff(gs: seq<Group>, blocked: Block)
    ensures AnyBlocked(gs, blocked) <==> exists i :: 0 <= i < |gs| && blocked(gs[i].path)
  {
    if gs != [] {
      AnyBlockedIff(gs[1..], blocked);
      if i :| 0 <= i < |gs| && blocked(gs[i].path) {
        assert i > 0 ==> gs[1..][i - 1] == gs[i];
      }
      if i :| 0 <= i < |gs[1..]| && blocked(gs[1..][i].path) {
        assert gs[i + 1] == gs[1..][i];
      }
    }
  }

  lemma NothingBlocked(mode: Mode, blocked: Block)
    ensures Filter("", mode, blocked) == ("", false)
  {
    assert [""][1..] == [];
  }

  /**
   * Filtering the formatted result is formatting the hits of the files that are not blocked, and
   * something is reported removed exactly when the result names a blocked file.
   */
  lemma FilterCommutesWithPrint(gs: seq<Group>, mode: Mode, blocked: Block)
    requires forall i :: 0 <= i < |gs| ==> GoodGroup(gs[i])
    ensures
      var content, left := Print(gs, mode), Unblocked(gs, blocked);
      Filter(content, mode, blocked) ==
        if !AnyBlocked(gs, blocked) then (content, false)
        else if left == [] then (EMPTY, true)
        else (Print(left, mode) + "\n" + NOTICE, true)
  {
    if gs == [] {
      NothingBlocked(mode, blocked);
    } else {
      KeptPrint(gs, mode, blocked);
      PrintUnblocked(gs, mode, blocked);
    }
  }
}
