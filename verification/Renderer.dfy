/**
 * Streaming of assistant text in `src/jarn/repl_renderer.py`, on the path without a live sink:
 * the growing buffer is cut at blank lines outside code fences and the cut part is committed.
 */
module Renderer {
  import opened Texts

  const FENCE := "```"

  /** Python's `count` of the fence marker: leftmost, not overlapping. */
  function Fences(s: string): (n: nat) {
    if |s| < 3 then 0
    else if s[..3] == FENCE then 1 + Fences(s[3..])
    else Fences(s[1..])
  }

  /** `text` splits at `e` right after a blank line, with every fence before it closed. */
  predicate Boundary(text: string, e: int) {
    2 <= e <= |text| && text[e - 2] == '\n' && text[e - 1] == '\n' && Fences(text[..e]) % 2 == 0
  }

  /** `cut` is the last boundary, or -1 when there is none. */
  ghost predicate LastBoundary(text: string, cut: int) {
    (cut == -1 || Boundary(text, cut)) && forall e :: Boundary(text, e) ==> e <= cut
  }

  /** Python's `find` of a blank line from `start` on. */
  method FindBlankLine(text: string, start: nat) returns (idx: int)
    ensures idx == -1 ==> forall i :: start <= i < |text| - 1 ==> !(text[i] == '\n' && text[i + 1] == '\n')
    ensures idx != -1 ==> start <= idx < |text| - 1 && text[idx] == '\n' && text[idx + 1] == '\n'
    ensures idx != -1 ==> forall i :: start <= i < idx ==> !(text[i] == '\n' && text[i + 1] == '\n')
  {
    idx := start;
    while idx < |text| - 1
      invariant start <= idx
      invariant forall i :: start <= i < idx && i < |text| - 1 ==> !(text[i] == '\n' && text[i + 1] == '\n')
    {
      if text[idx] == '\n' && text[idx + 1] == '\n' { return; }
      idx := idx + 1;
    }
    idx := -1;
  }

  method StableCut(buf: string) returns (last: int)
    ensures LastBoundary(buf, last)
  {
    last := -1;
    var idx := FindBlankLine(buf, 0);
    while idx != -1
      invariant idx == -1 || (0 <= idx < |buf| - 1 && buf[idx] == '\n' && buf[idx + 1] == '\n')
      invariant last == -1 || Boundary(buf, last)
      invariant forall e :: Boundary(buf, e) && (idx == -1 || e < idx + 2) ==> e <= last
      invariant idx != -1 ==> last < idx + 2
      decreases if idx == -1 then 0 else |buf| - idx
    {
      var end := idx + 2;
      if Fences(buf[..end]) % 2 == 0 {
        last := end;
      }
      idx := FindBlankLine(buf, idx + 1);
    }
  }

  // ------------------------------------------------------------------- counting across a cut

  /** No fence marker straddles a cut right after a newline. */
  lemma {:induction false} FencesAcrossNewline(a: string, b: string)
    requires a == [] || a[|a| - 1] == '\n'
    ensures Fences(a + b) == Fences(a) + Fences(b)
  {
    if a == [] {
      assert a + b == b;
    } else if |a| >= 3 && a[..3] == FENCE {
      assert (a + b)[..3] == FENCE;
      assert (a + b)[3..] == a[3..] + b;
      assert a[2] == '`';
      FencesAcrossNewline(a[3..], b);
    } else {
      if |a + b| >= 3 {
        assert (a + b)[..3] != FENCE by {
          if |a| < 3 {
            assert (a + b)[|a| - 1] == '\n';
          } else {
            assert (a + b)[..3] == a[..3];
          }
        }
      }
      assert (a + b)[1..] == a[1..] + b;
      FencesAcrossNewline(a[1..], b);
      ShortHasNone(a);
      ShortHasNone(a + b);
    }
  }

  lemma ShortHasNone(s: string)
    requires s != [] && (|s| < 3 || s[..3] != FENCE)
    ensures Fences(s) == Fences(s[1..])
  {
  }

  /** The marker begins at `i`. */
  predicate FenceAt(s: string, i: nat) {
    i + 3 <= |s| && s[i] == '`' && s[i + 1] == '`' && s[i + 2] == '`'
  }

  /** Counting goes on right behind the leftmost marker. */
  lemma {:induction false} FencesFrom(s: string, n: nat)
    requires FenceAt(s, n) && forall i :: 0 <= i < n ==> !FenceAt(s, i)
    ensures Fences(s) == 1 + Fences(s[n + 3..])
  {
    if n == 0 {
      assert s[..3] == FENCE;
    } else {
      assert s[..3] != FENCE by { assert !FenceAt(s, 0); }
      forall i | 0 <= i < n - 1 ensures !FenceAt(s[1..], i) {
        assert !FenceAt(s, i + 1);
      }
      FencesFrom(s[1..], n - 1);
      assert s[1..][n + 2..] == s[n + 3..];
    }
  }

  /** A text in which no marker begins counts none. */
  lemma {:induction false} FencesNone(s: string)
    requires forall i :: 0 <= i < |s| ==> !FenceAt(s, i)
    ensures Fences(s) == 0
  {
    if |s| >= 3 {
      assert s[..3] != FENCE by { assert !FenceAt(s, 0); }
      forall i | 0 <= i < |s[1..]| ensures !FenceAt(s[1..], i) {
        assert !FenceAt(s, i + 1);
      }
      FencesNone(s[1..]);
    }
  }

  /** Beyond a committed prefix, boundaries of the rest are boundaries of the whole, and back. */
  lemma BoundaryShift(done: string, rest: string, e: int)
    requires done == [] || Boundary(done, |done|)
    requires e >= 2
    ensures Boundary(done + rest, |done| + e) <==> Boundary(rest, e)
  {
    if e <= |rest| {
      assert (done + rest)[..|done| + e] == done + rest[..e];
      FencesAcrossNewline(done, rest[..e]);
      assert done != [] ==> done[..|done|] == done;
    }
  }

  // ------------------------------------------------------------------------- one whole stream

  /**
   * The state of a stream: `done` has been committed and `buf` has not. Nothing that is still
   * buffered could have been committed.
   */
  ghost predicate Streaming(done: string, buf: string) {
    && (done == [] || Boundary(done, |done|))
    && (forall e :: !Boundary(buf, e))
  }

  /**
   * After any chunking the committed part of a text is the part before its last boundary, or
   * stops exactly one newline short of it: that is the case when the rest starts with a newline.
   */
  lemma StreamingCut(done: string, buf: string, cut: int)
    requires Streaming(done, buf) && LastBoundary(done + buf, cut)
    ensures done == [] ==> cut == -1
    ensures done != [] ==> cut == if buf != [] && buf[0] == '\n' then |done| + 1 else |done|
  {
    var text := done + buf;
    forall e | Boundary(text, e) && e >= |done| + 2 ensures false {
      BoundaryShift(done, buf, e - |done|);
    }
    if done != [] {
      assert text[..|done|] == done == done[..|done|];
      assert Boundary(text, |done|);
      if buf != [] && buf[0] == '\n' {
        assert text[..|done| + 1] == done + "\n";
        FencesAcrossNewline(done, "\n");
        assert Boundary(text, |done| + 1);
      }
    } else {
      assert text == buf;
    }
  }

  /** Three newlines of which the third comes in a later chunk. */
  lemma OneShortExample()
    ensures LastBoundary("a\n\n", 3) && LastBoundary("a\n\n\n", 4) && Streaming("a\n\n", "\n")
  {
    var done, text := "a\n\n", "a\n\n\n";
    assert done[0] != FENCE[0] && text[..3] == done && text[1..][..3][0] != FENCE[0];
    ShortHasNone(done);
    ShortHasNone(text);
    ShortHasNone(text[1..]);
    assert done[..3] == done && text[..4] == text;
  }

  /** Committing up to the last boundary of the buffer keeps the state of the stream. */
  lemma FlushKeeps(done: string, buf: string, cut: int)
    requires done == [] || Boundary(done, |done|)
    requires cut > 0 && LastBoundary(buf, cut)
    ensures Streaming(done + buf[..cut], buf[cut..])
  {
    var more, rest := buf[..cut], buf[cut..];
    assert more[..cut] == more;
    assert Boundary(more, cut);
    BoundaryShift(done, more, cut);
    assert (done + more)[..|done| + cut] == done + more;
    assert more + rest == buf;
    forall e ensures !Boundary(rest, e) {
      if e >= 2 {
        BoundaryShift(more, rest, e);
      }
    }
  }

  lemma SplitText(done: string, buf: string, cut: int)
    requires 0 <= cut <= |buf|
    ensures done + buf[..cut] + buf[cut..] == done + buf
    ensures Boundary(buf, cut) ==> Boundary(buf[..cut], cut)
  {
    assert buf[..cut] + buf[cut..] == buf;
    assert buf[..cut][..cut] == buf[..cut];
  }

  // ----------------------------------------------------------------------------- the renderer

  /** The blocks that are worth printing. */
  function Visible(blocks: seq<string>): seq<string> {
    if blocks == [] then []
    else Visible(blocks[..|blocks| - 1]) + if Blank(blocks[|blocks| - 1]) then [] else [blocks[|blocks| - 1]]
  }

  function Joined(blocks: seq<string>): string {
    if blocks == [] then "" else Joined(blocks[..|blocks| - 1]) + blocks[|blocks| - 1]
  }

  lemma AppendBlock(blocks: seq<string>, b: string)
    ensures Joined(blocks + [b]) == Joined(blocks) + b
    ensures Visible(blocks + [b]) == Visible(blocks) + if Blank(b) then [] else [b]
  {
    assert (blocks + [b])[..|blocks|] == blocks;
  }

  /** Every block ends at a blank line with its fences closed, and the visible ones are printed. */
  ghost predicate Printed(blocks: seq<string>, earlier: seq<string>, scrollback: seq<string>) {
    && scrollback == earlier + Visible(blocks)
    && (forall i :: 0 <= i < |blocks| ==> Boundary(blocks[i], |blocks[i]|))
  }

  lemma PrintedMore(blocks: seq<string>, earlier: seq<string>, scrollback: seq<string>, b: string)
    requires Printed(blocks, earlier, scrollback) && Boundary(b, |b|)
    ensures Printed(blocks + [b], earlier, if Blank(b) then scrollback else scrollback + [b])
  {
    AppendBlock(blocks, b);
  }

  /** One commit of the first `cut` characters of the buffer. */
  lemma CommitStable(blocks: seq<string>, buf: string, cut: int, earlier: seq<string>, scrollback: seq<string>)
    requires Joined(blocks) == [] || Boundary(Joined(blocks), |Joined(blocks)|)
    requires Printed(blocks, earlier, scrollback)
    requires cut > 0 && LastBoundary(buf, cut)
    ensures
      var blocks' := blocks + [buf[..cut]];
      && Streaming(Joined(blocks'), buf[cut..])
      && Joined(blocks') + buf[cut..] == Joined(blocks) + buf
      && Printed(blocks', earlier, if Blank(buf[..cut]) then scrollback else scrollback + [buf[..cut]])
  {
    FlushKeeps(Joined(blocks), buf, cut);
    SplitText(Joined(blocks), buf, cut);
    AppendBlock(blocks, buf[..cut]);
    PrintedMore(blocks, earlier, scrollback, buf[..cut]);
  }

  class TurnRenderer {
    var buf: string
    /** The blocks printed to the scrollback. */
    var scrollback: seq<string>
    /** Every block committed since the text began, the blank ones too. */
    ghost var blocks: seq<string>
    /** What was on the scrollback before the text began. */
    ghost var earlier: seq<string>

    ghost predicate Valid()
      reads this
    {
      && Streaming(Joined(blocks), buf)
      && Printed(blocks, earlier, scrollback)
    }

    /** The text streamed since the last commit: what is committed and what is buffered. */
    ghost function Text(): string
      reads this
    {
      Joined(blocks) + buf
    }

    constructor ()
      ensures Valid() && Text() == "" && scrollback == []
    {
      buf, scrollback, blocks, earlier := "", [], [], [];
    }

    /** What is committed of the text so far ends at the cut of the whole text, or a newline short of it. */
    lemma CommittedIsCut(cut: int)
      requires Valid() && LastBoundary(Text(), cut)
      ensures
        var done := |Joined(blocks)|;
        Joined(blocks) <= Text() && cut == if done == 0 then -1 else if buf != "" && buf[0] == '\n' then done + 1 else done
    {
      StreamingCut(Joined(blocks), buf, cut);
    }

    method FlushStable()
      requires Joined(blocks) == [] || Boundary(Joined(blocks), |Joined(blocks)|)
      requires Printed(blocks, earlier, scrollback)
      modifies this
      ensures Valid() && Text() == old(Text()) && earlier == old(earlier)
      ensures old(blocks) <= blocks
    {
      var cut := StableCut(buf);
      if cut <= 0 {
        return;
      }
      CommitStable(blocks, buf, cut, earlier, scrollback);
      var stable := buf[..cut];
      buf, blocks := buf[cut..], blocks + [stable];
      if !Blank(stable) {
        scrollback := scrollback + [stable];
      }
    }

    /** Feed one chunk. Nothing is lost, and what has been printed stays. */
    method OnText(text: string)
      requires Valid()
      modifies this
      ensures Valid() && Text() == old(Text()) + text && earlier == old(earlier)
      ensures old(blocks) <= blocks
    {
      assert Joined(blocks) + (buf + text) == Joined(blocks) + buf + text;
      buf := buf + text;
      FlushStable();
    }

    /** Commit all: what was printed for the text is then the whole of it, blank blocks aside. */
    method CommitText()
      requires Valid()
      modifies this
      ensures Valid() && Text() == "" && scrollback == earlier
      ensures exists bs :: old(blocks) <= bs && Joined(bs) == old(Text()) && scrollback == old(earlier) + Visible(bs)
    {
      FlushStable();
      ghost var bs := blocks + [buf];
      AppendBlock(blocks, buf);
      if !Blank(buf) {
        scrollback := scrollback + [buf];
      }
      assert scrollback == old(earlier) + Visible(bs);
      buf, blocks, earlier := "", [], scrollback;
    }
  }
}
