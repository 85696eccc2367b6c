/** Text helpers with the meaning of Python's `str` methods. */
module Texts {

  /** `str.isspace` for one character. */
  predicate IsSpace(c: char) {
    || '\t' <= c <= '\r' || ('\U{1c}' <= c <= ' ') || c == '\U{85}' || c == '\U{a0}' || c == '\U{1680}'
    || '\U{2000}' <= c <= '\U{200a}' || c == '\U{2028}' || c == '\U{2029}' || c == '\U{202f}'
    || c == '\U{205f}' || c == '\U{3000}'
  }

  /** `not s.strip()`. */
  predicate Blank(s: string) {
    forall i :: 0 <= i < |s| ==> IsSpace(s[i])
  }

  /** `s.strip()`. */
  function Strip(s: string): (r: string) {
    if s == "" then ""
    else if IsSpace(s[0]) then Strip(s[1..])
    else if IsSpace(s[|s| - 1]) then Strip(s[..|s| - 1])
    else s
  }

  /** Among the ASCII characters the spaces are the blank, the tab and the line and field separators. */
  lemma SpacesAre(c: char)
    requires c < '\U{80}'
    ensures IsSpace(c) <==> c == ' ' || '\t' <= c <= '\r' || '\U{1c}' <= c <= '\U{1f}'
  {
  }

  predicate Spaces(s: string, lo: int, hi: int) {
    0 <= lo <= hi <= |s| && forall k :: lo <= k < hi ==> IsSpace(s[k])
  }

  /** `r` is `s` without some spaces at either end. */
  ghost predicate Stripped(s: string, r: string) {
    exists i, j :: i <= j && Spaces(s, 0, i) && Spaces(s, j, |s|) && r == s[i..j]
  }

  /** Stripping takes spaces off both ends and nothing else. */
  lemma {:induction false} StripIs(s: string)
    ensures Stripped(s, Strip(s))
    ensures Strip(s) != "" ==> !IsSpace(Strip(s)[0]) && !IsSpace(Strip(s)[|Strip(s)| - 1])
    decreases |s|
  {
    if s == "" || !(IsSpace(s[0]) || IsSpace(s[|s| - 1])) {
      assert Spaces(s, 0, 0) && Spaces(s, |s|, |s|) && Strip(s) == s[0..|s|];
    } else if IsSpace(s[0]) {
      StripIs(s[1..]);
      StripFront(s, Strip(s));
    } else {
      StripIs(s[..|s| - 1]);
      StripBack(s, Strip(s));
    }
  }

  lemma StripFront(s: string, r: string)
    requires s != "" && IsSpace(s[0]) && Stripped(s[1..], r)
    ensures Stripped(s, r)
  {
    var t := s[1..];
    var i, j :| i <= j && Spaces(t, 0, i) && Spaces(t, j, |t|) && r == t[i..j];
    forall k | 0 <= k < i + 1 ensures IsSpace(s[k]) {
      assert k > 0 ==> t[k - 1] == s[k];
    }
    forall k | j + 1 <= k < |s| ensures IsSpace(s[k]) {
      assert t[k - 1] == s[k];
    }
    assert Spaces(s, 0, i + 1) && Spaces(s, j + 1, |s|) && r == s[i + 1..j + 1];
  }

  lemma StripBack(s: string, r: string)
    requires s != "" && IsSpace(s[|s| - 1]) && Stripped(s[..|s| - 1], r)
    ensures Stripped(s, r)
  {
    var t := s[..|s| - 1];
    var i, j :| i <= j && Spaces(t, 0, i) && Spaces(t, j, |t|) && r == t[i..j];
    assert forall k :: 0 <= k < |t| ==> t[k] == s[k];
    assert Spaces(s, 0, i) && Spaces(s, j, |s|) && r == s[i..j];
  }

  /** A text is blank exactly when nothing of it is left. */
  lemma {:induction false} BlankIff(s: string)
    ensures Blank(s) <==> Strip(s) == ""
    decreases |s|
  {
    if s != "" {
      if IsSpace(s[0]) {
        BlankIff(s[1..]);
        assert forall k :: 0 < k < |s| ==> s[k] == s[1..][k - 1];
      } else if IsSpace(s[|s| - 1]) {
        StripKeeps(s);
      }
    }
  }

  lemma {:induction false} StripKeeps(s: string)
    requires s != "" && !IsSpace(s[0])
    ensures Strip(s) != ""
    decreases |s|
  {
    if |s| > 1 && IsSpace(s[|s| - 1]) {
      StripKeeps(s[..|s| - 1]);
    }
  }

  predicate OneLine(s: string) {
    '\n' !in s
  }

  /** `s.split("\n")`. */
  function Split(s: string): (lines: seq<string>)
    ensures lines != [] && forall i :: 0 <= i < |lines| ==> OneLine(lines[i])
  {
    if s == "" then [""]
    else
      var rest := Split(s[1..]);
      assert OneLine(rest[0]);
      if s[0] == '\n' then [""] + rest else [[s[0]] + rest[0]] + rest[1..]
  }

  /** `sep.join(parts)`. */
  function Join(parts: seq<string>, sep: string): string {
    if parts == [] then "" else if |parts| == 1 then parts[0] else parts[0] + sep + Join(parts[1..], sep)
  }

  lemma {:induction false} JoinSplit(s: string)
    ensures Join(Split(s), "\n") == s
  {
    if s != "" {
      JoinSplit(s[1..]);
      var rest := Split(s[1..]);
      if s[0] == '\n' {
        assert Split(s)[1..] == rest;
        assert "" + "\n" + Join(rest, "\n") == s;
      } else {
        assert Split(s)[1..] == rest[1..];
        assert s == [s[0]] + s[1..];
        if |rest| > 1 {
          assert [s[0]] + rest[0] + "\n" + Join(rest[1..], "\n") == [s[0]] + (rest[0] + "\n" + Join(rest[1..], "\n"));
        }
      }
    }
  }

  lemma {:induction false} SplitOneLine(line: string)
    requires OneLine(line)
    ensures Split(line) == [line]
  {
    if line != "" {
      SplitOneLine(line[1..]);
      assert line == [line[0]] + line[1..];
    }
  }

  /** Splitting after a line break gives the lines before it and the lines after it. */
  lemma {:induction false} SplitAcross(line: string, s: string)
    requires OneLine(line)
    ensures Split(line + "\n" + s) == [line] + Split(s)
  {
    if line == "" {
      assert ("" + "\n" + s)[1..] == s;
    } else {
      SplitAcross(line[1..], s);
      assert (line + "\n" + s)[1..] == line[1..] + "\n" + s;
      assert (line + "\n" + s)[0] == line[0];
      assert [line[0]] + line[1..] == line;
    }
  }

  lemma {:induction false} SplitJoin(lines: seq<string>)
    requires lines != [] && forall i :: 0 <= i < |lines| ==> OneLine(lines[i])
    ensures Split(Join(lines, "\n")) == lines
  {
    if |lines| == 1 {
      SplitOneLine(lines[0]);
    } else {
      SplitJoin(lines[1..]);
      SplitAcross(lines[0], Join(lines[1..], "\n"));
    }
  }

  lemma {:induction false} JoinAppend(parts: seq<string>, last: string, sep: string)
    requires parts != []
    ensures Join(parts + [last], sep) == Join(parts, sep) + sep + last
  {
    if |parts| == 1 {
      assert (parts + [last])[1..] == [last];
    } else {
      JoinAppend(parts[1..], last, sep);
      assert (parts + [last])[1..] == parts[1..] + [last];
      assert parts[0] + sep + (Join(parts[1..], sep) + sep + last) == parts[0] + sep + Join(parts[1..], sep) + sep + last;
    }
  }
}
