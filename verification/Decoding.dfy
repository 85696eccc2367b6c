/**
 * The incremental text decoder of `src/jarn/agent/local_backend.py` in a UTF-8 locale: strict
 * UTF-8 (sections 3 and 4 of RFC 3629) and then universal newlines, fed one chunk at a time.
 */
module Decoding {
  import opened Prelude

  type Byte = b: int | 0 <= b < 256

  /** What one non-empty read returns; the empty read is the end of the stream. */
  type Chunk = b: seq<Byte> | b != [] witness [0]

  datatype Failure = BadText | ReadFailed

  // ------------------------------------------------------------------ one character of UTF-8

  /** The octets of a character, by the table of section 3 of RFC 3629. */
  function Encode(c: char): (bs: seq<Byte>) {
    var n := c as int;
    if n < 0x80 then [n]
    else if n < 0x800 then [0xC0 + n / 64, 0x80 + n % 64]
    else if n < 0x1_0000 then [0xE0 + n / 4096, 0x80 + n / 64 % 64, 0x80 + n % 64]
    else [0xF0 + n / 262144, 0x80 + n / 4096 % 64, 0x80 + n / 64 % 64, 0x80 + n % 64]
  }

  datatype Head = Char(c: char, size: nat) | Incomplete | Invalid

  predicate Continues(b: Byte) {
    0x80 <= b < 0xC0
  }

  function Joined2(x: int, y: int): int {
    x * 64 + y
  }

  function Joined3(x: int, y: int, z: int): int {
    Joined2(x, y) * 64 + z
  }

  function Joined4(x: int, y: int, z: int, w: int): int {
    Joined3(x, y, z) * 64 + w
  }

  /** The decoder's view of the first octets: overlong forms and surrogates fail at octet two. */
  function HeadOf(bs: seq<Byte>): (h: Head)
    requires bs != []
  {
    var b0: int := bs[0];
    if b0 < 0x80 then Char(b0 as char, 1)
    else if b0 < 0xC2 || 0xF4 < b0 then Invalid
    else if |bs| < 2 then Incomplete
    else
      var b1: int := bs[1];
      if !Continues(b1) then Invalid
      else if b0 < 0xE0 then Char(Joined2(b0 - 0xC0, b1 - 0x80) as char, 2)
      else if b0 < 0xF0 then
        if (if b1 < 0xA0 then b0 == 0xE0 else b0 == 0xED) then Invalid
        else if |bs| < 3 then Incomplete
        else if !Continues(bs[2]) then Invalid
        else Char(Joined3(b0 - 0xE0, b1 - 0x80, bs[2] - 0x80) as char, 3)
      else
        if (if b1 < 0x90 then b0 == 0xF0 else b0 == 0xF4) then Invalid
        else if |bs| < 3 then Incomplete
        else if !Continues(bs[2]) then Invalid
        else if |bs| < 4 then Incomplete
        else if !Continues(bs[3]) then Invalid
        else Char(Joined4(b0 - 0xF0, b1 - 0x80, bs[2] - 0x80, bs[3] - 0x80) as char, 4)
  }

  /** Six-bit groups come apart again. */
  lemma Groups(x: int, y: int, z: int, w: int)
    requires 0 <= x && 0 <= y < 64 && 0 <= z < 64 && 0 <= w < 64
    ensures Joined2(x, y) / 64 == x && Joined2(x, y) % 64 == y
    ensures Joined3(x, y, z) / 64 == Joined2(x, y) && Joined3(x, y, z) % 64 == z && Joined3(x, y, z) / 4096 == x
    ensures Joined4(x, y, z, w) / 64 == Joined3(x, y, z) && Joined4(x, y, z, w) % 64 == w
    ensures Joined4(x, y, z, w) / 4096 == Joined2(x, y) && Joined4(x, y, z, w) / 262144 == x
  {
  }

  lemma Regroup(n: int)
    requires n >= 0
    ensures Joined2(n / 64, n % 64) == n && n / 4096 == n / 64 / 64 && n / 262144 == n / 64 / 64 / 64
    ensures Joined3(n / 4096, n / 64 % 64, n % 64) == n
    ensures Joined4(n / 262144, n / 4096 % 64, n / 64 % 64, n % 64) == n
  {
  }

  lemma DecodedIsEncoding(bs: seq<Byte>)
    requires bs != [] && HeadOf(bs).Char?
    ensures HeadOf(bs).size <= |bs| && Encode(HeadOf(bs).c) == bs[..HeadOf(bs).size]
  {
    var n := HeadOf(bs).size;
    if n == 2 {
      Groups(bs[0] - 0xC0, bs[1] - 0x80, 0, 0);
    } else if n == 3 {
      Groups(bs[0] - 0xE0, bs[1] - 0x80, bs[2] - 0x80, 0);
    } else if n == 4 {
      Groups(bs[0] - 0xF0, bs[1] - 0x80, bs[2] - 0x80, bs[3] - 0x80);
    }
  }

  lemma EncodingIsDecoded(c: char, rest: seq<Byte>)
    ensures HeadOf(Encode(c) + rest) == Char(c, |Encode(c)|)
  {
    var n := c as int;
    Regroup(n);
    var bs := Encode(c) + rest;
    assert forall i :: 0 <= i < |Encode(c)| ==> bs[i] == Encode(c)[i];
  }

  /** A character is decoded exactly when its encoding stands at the front. */
  lemma HeadIsEncoding(bs: seq<Byte>, c: char, n: nat)
    requires bs != []
    ensures HeadOf(bs) == Char(c, n) <==> Encode(c) <= bs && n == |Encode(c)|
  {
    if HeadOf(bs).Char? {
      DecodedIsEncoding(bs);
    }
    if Encode(c) <= bs {
      EncodingIsDecoded(c, bs[|Encode(c)|..]);
      assert bs == Encode(c) + bs[|Encode(c)|..];
    }
  }

  /** Incomplete octets can be filled up to an encoding. */
  lemma IncompleteBegins(bs: seq<Byte>)
    requires bs != [] && HeadOf(bs) == Incomplete
    ensures exists c :: bs < Encode(c)
  {
    var b0 := bs[0];
    var low := if b0 == 0xE0 then 0xA0 else if b0 == 0xF0 then 0x90 else 0x80;
    var full := if |bs| == 1 then [b0, low, 0x80, 0x80] else if |bs| == 2 then bs + [0x80, 0x80] else bs + [0x80];
    var h := HeadOf(full);
    assert h.Char?;
    HeadIsEncoding(full, h.c, h.size);
    assert bs <= Encode(h.c);
  }

  lemma BeginsIncomplete(bs: seq<Byte>, c: char)
    requires bs != [] && bs < Encode(c)
    ensures HeadOf(bs) == Incomplete
  {
    assert Encode(c)[0] == bs[0];
    assert |bs| > 1 ==> Encode(c)[1] == bs[1];
    assert |bs| > 2 ==> Encode(c)[2] == bs[2];
  }

  /** The octets are incomplete exactly when they are the start of some longer encoding. */
  lemma IncompleteIff(bs: seq<Byte>)
    requires bs != []
    ensures HeadOf(bs) == Incomplete <==> exists c :: bs < Encode(c)
  {
    if HeadOf(bs) == Incomplete {
      IncompleteBegins(bs);
    }
    if c :| bs < Encode(c) {
      BeginsIncomplete(bs, c);
    }
  }

  /** What is decided about the front of some octets is not changed by more octets. */
  lemma HeadIsStable(a: seq<Byte>, b: seq<Byte>)
    requires a != [] && HeadOf(a) != Incomplete
    ensures HeadOf(a + b) == HeadOf(a)
  {
  }

  // -------------------------------------------------------------------------- strict decoding

  function EncodeAll(text: string): seq<Byte> {
    if text == "" then [] else Encode(text[0]) + EncodeAll(text[1..])
  }

  datatype Scanned = Scanned(text: string, rest: seq<Byte>)

  /** Everything that can be decoded now, and the incomplete octets that are left over. */
  function Scan(bs: seq<Byte>): (r: Result<Scanned, Failure>)
    decreases |bs|
  {
    if bs == [] then Ok(Scanned("", []))
    else match HeadOf(bs)
      case Invalid => Err(BadText)
      case Incomplete => Ok(Scanned("", bs))
      case Char(c, n) => Before([c], Scan(bs[n..]))
  }

  function Before(text: string, r: Result<Scanned, Failure>): Result<Scanned, Failure> {
    match r
    case Err(e) => Err(e)
    case Ok(s) => Ok(Scanned(text + s.text, s.rest))
  }

  lemma BeforeBefore(x: string, y: string, r: Result<Scanned, Failure>)
    ensures Before(x, Before(y, r)) == Before(x + y, r)
  {
    if r.Ok? {
      assert x + (y + r.value.text) == x + y + r.value.text;
    }
  }

  /** Strict decoding of a whole input: nothing may be left over. */
  function DecodeWhole(bs: seq<Byte>): (r: Result<string, Failure>) {
    match Scan(bs)
    case Err(e) => Err(e)
    case Ok(s) => if s.rest == [] then Ok(s.text) else Err(BadText)
  }

  /** Strict decoding is the inverse of encoding, and succeeds on nothing else. */
  lemma {:induction false} DecodeInvertsEncode(bs: seq<Byte>, text: string)
    ensures DecodeWhole(bs) == Ok(text) <==> bs == EncodeAll(text)
    decreases |bs|
  {
    if bs != [] {
      if text != "" {
        var c := text[0];
        HeadIsEncoding(bs, c, |Encode(c)|);
        if Encode(c) <= bs {
          DecodeInvertsEncode(bs[|Encode(c)|..], text[1..]);
          assert bs == Encode(c) + bs[|Encode(c)|..];
          assert text == [c] + text[1..];
        } else if HeadOf(bs).Char? {
          HeadIsEncoding(bs, HeadOf(bs).c, HeadOf(bs).size);
        }
      }
    } else if text != "" {
      assert EncodeAll(text) != [];
    }
  }

  lemma {:induction false} ScanAppend(a: seq<Byte>, b: seq<Byte>)
    ensures Scan(a + b) == if Scan(a).Err? then Err(BadText) else Before(Scan(a).value.text, Scan(Scan(a).value.rest + b))
    decreases |a|
  {
    if a == [] || HeadOf(a) == Incomplete {
      assert [] + (a + b) == a + b;
      BeforeEmpty(Scan(a + b));
    } else {
      HeadIsStable(a, b);
      if HeadOf(a).Char? {
        var c, n := HeadOf(a).c, HeadOf(a).size;
        assert (a + b)[n..] == a[n..] + b;
        ScanAppend(a[n..], b);
        if Scan(a[n..]).Ok? {
          var s := Scan(a[n..]).value;
          BeforeBefore([c], s.text, Scan(s.rest + b));
        }
      }
    }
  }

  lemma BeforeEmpty(r: Result<Scanned, Failure>)
    ensures Before("", r) == r
  {
    assert r.Ok? ==> "" + r.value.text == r.value.text;
  }

  // ---------------------------------------------------------------------- universal newlines

  /** One pass: CR LF and lone CR become LF. */
  function Translate(s: string): string {
    if s == "" then ""
    else if LeadsWithCrLf(s) then "\n" + Translate(s[2..])
    else [if s[0] == '\r' then '\n' else s[0]] + Translate(s[1..])
  }

  predicate LeadsWithCrLf(s: string) {
    |s| > 1 && s[0] == '\r' && s[1] == '\n'
  }

  function ReplaceCrLf(s: string): string {
    if |s| < 2 then s
    else if s[..2] == "\r\n" then "\n" + ReplaceCrLf(s[2..])
    else [s[0]] + ReplaceCrLf(s[1..])
  }

  function ReplaceCr(s: string): string {
    if s == "" then "" else [if s[0] == '\r' then '\n' else s[0]] + ReplaceCr(s[1..])
  }

  /** The two replacements of the blocking path. */
  lemma {:induction false} TranslateIsReplace(s: string)
    ensures Translate(s) == ReplaceCr(ReplaceCrLf(s))
    decreases |s|
  {
    if |s| >= 2 {
      if s[0] == '\r' && s[1] == '\n' {
        TranslateIsReplace(s[2..]);
      } else {
        TranslateIsReplace(s[1..]);
        assert s[..2] != "\r\n";
      }
    } else if |s| == 1 {
      assert s[1..] == "";
    }
  }

  predicate EndsInCr(s: string) {
    s != "" && s[|s| - 1] == '\r'
  }

  lemma {:induction false} TranslateSplit(a: string, b: string)
    requires EndsInCr(a) ==> b == "" || b[0] != '\n'
    ensures Translate(a + b) == Translate(a) + Translate(b)
    decreases |a|
  {
    if a == "" {
      assert a + b == b;
    } else if LeadsWithCrLf(a) {
      assert (a + b)[2..] == a[2..] + b;
      TranslateSplit(a[2..], b);
      Prepend("\n", Translate(a[2..]), Translate(b));
      assert Translate(a + b) == "\n" + Translate((a + b)[2..]);
    } else {
      assert (a + b)[1..] == a[1..] + b;
      TranslateSplit(a[1..], b);
      var x := [if a[0] == '\r' then '\n' else a[0]];
      Prepend(x, Translate(a[1..]), Translate(b));
      assert Translate(a + b) == x + Translate((a + b)[1..]);
    }
  }

  lemma Prepend(x: string, t: string, u: string)
    ensures x + (t + u) == x + t + u
  {
  }

  /** A text without a CR is left as it is, and no CR is left in any text. */
  lemma {:induction false} TranslateRemovesCr(s: string)
    ensures '\r' !in Translate(s)
    ensures '\r' !in s ==> Translate(s) == s
    decreases |s|
  {
    if s != "" {
      TranslateRemovesCr(s[1..]);
      assert s == [s[0]] + s[1..];
      if LeadsWithCrLf(s) {
        TranslateRemovesCr(s[2..]);
        assert s[0] in s;
      }
    }
  }

  /** CR LF becomes one LF, and so does a CR that no LF follows. */
  lemma TranslateAtCr(a: string, b: string)
    requires !EndsInCr(a)
    ensures Translate(a + "\r\n" + b) == Translate(a) + "\n" + Translate(b)
    ensures b == "" || b[0] != '\n' ==> Translate(a + "\r" + b) == Translate(a) + "\n" + Translate(b)
  {
    var crlf, cr := "\r\n" + b, "\r" + b;
    assert a + "\r\n" + b == a + crlf && crlf[2..] == b;
    TranslateSplit(a, crlf);
    assert Translate(a) + ("\n" + Translate(b)) == Translate(a) + "\n" + Translate(b);
    if b == "" || b[0] != '\n' {
      assert a + "\r" + b == a + cr && cr[1..] == b && !LeadsWithCrLf(cr);
      TranslateSplit(a, cr);
    }
  }

  // --------------------------------------------------------------------- the incremental form

  /** The undecoded octets and whether a CR is held back. */
  datatype State = State(octets: seq<Byte>, pendingCr: bool)

  /** `IncrementalNewlineDecoder.decode` after the inner decoder returned `output`. */
  function NewlineStep(pendingCr: bool, output: string, final: bool): (r: (string, bool)) {
    var release := pendingCr && (output != "" || final);
    var text := if release then "\r" + output else output;
    if EndsInCr(text) && !final then (Translate(text[..|text| - 1]), true)
    else (Translate(text), pendingCr && !release)
  }

  function DecodeStep(st: State, chunk: seq<Byte>, final: bool): (r: Result<(string, State), Failure>) {
    match Scan(st.octets + chunk)
    case Err(e) => Err(e)
    case Ok(s) =>
      if final && s.rest != [] then Err(BadText)
      else
        var (text, cr) := NewlineStep(st.pendingCr, s.text, final);
        Ok((text, State(s.rest, cr)))
  }

  /** After the input `seen` the decoder is in state `st` and has returned `emitted`. */
  ghost predicate Decoded(seen: seq<Byte>, st: State, emitted: string) {
    && Scan(seen).Ok? && Scan(seen).value.rest == st.octets
    && var text := Scan(seen).value.text;
       && st.pendingCr == EndsInCr(text)
       && emitted == Translate(if st.pendingCr then text[..|text| - 1] else text)
  }

  /** `decoded`, of which a final CR is held back when `cr`, grows by `output`. */
  lemma NewlineKeeps(decoded: string, cr: bool, emitted: string, output: string, final: bool)
    requires cr == EndsInCr(decoded)
    requires emitted == Translate(if cr then decoded[..|decoded| - 1] else decoded)
    ensures
      var all := decoded + output;
      var (text, cr') := NewlineStep(cr, output, final);
      && cr' == (EndsInCr(all) && !final)
      && emitted + text == Translate(if cr' then all[..|all| - 1] else all)
  {
    var held := if cr then decoded[..|decoded| - 1] else decoded;
    var release := cr && (output != "" || final);
    var text := if release then "\r" + output else output;
    if release || !cr {
      assert decoded + output == held + text;
      if EndsInCr(text) && !final {
        TranslateSplit(held, text[..|text| - 1]);
        assert (held + text)[..|held + text| - 1] == held + text[..|text| - 1];
      } else {
        TranslateSplit(held, text);
        assert EndsInCr(held + text) ==> EndsInCr(text) || (text == "" && !cr);
      }
    } else {
      assert decoded + output == decoded;
    }
  }

  lemma DecodeKeeps(seen: seq<Byte>, st: State, emitted: string, chunk: seq<Byte>)
    requires Decoded(seen, st, emitted)
    ensures match DecodeStep(st, chunk, false)
      case Err(_) => Scan(seen + chunk).Err?
      case Ok(r) => Decoded(seen + chunk, r.1, emitted + r.0)
  {
    ScanAppend(seen, chunk);
    if Scan(st.octets + chunk).Ok? {
      NewlineKeeps(Scan(seen).value.text, st.pendingCr, emitted, Scan(st.octets + chunk).value.text, false);
    }
  }

  /** The blocking path: decode the whole of the output and translate its newlines. */
  function BlockingText(bs: seq<Byte>): (r: Result<string, Failure>) {
    match DecodeWhole(bs)
    case Err(e) => Err(e)
    case Ok(text) => Ok(ReplaceCr(ReplaceCrLf(text)))
  }

  /** The flush at the end of the stream completes what the blocking path would have decoded. */
  lemma FlushCompletes(seen: seq<Byte>, st: State, emitted: string)
    requires Decoded(seen, st, emitted)
    ensures match DecodeStep(st, [], true)
      case Err(_) => BlockingText(seen).Err?
      case Ok(r) => BlockingText(seen) == Ok(emitted + r.0)
  {
    ScanAppend(seen, []);
    assert seen + [] == seen;
    assert Scan(seen).value.text + "" == Scan(seen).value.text;
    var s := Scan(seen).value;
    ScanRest(seen);
    assert st.octets + [] == st.octets;
    NewlineKeeps(s.text, st.pendingCr, emitted, "", true);
    assert s.text + "" == s.text;
    TranslateIsReplace(s.text);
  }

  /** What is left over is empty or incomplete, so scanning it again yields nothing. */
  lemma {:induction false} ScanRest(bs: seq<Byte>)
    requires Scan(bs).Ok?
    ensures Scan(Scan(bs).value.rest) == Ok(Scanned("", Scan(bs).value.rest))
    decreases |bs|
  {
    if bs != [] && HeadOf(bs).Char? {
      ScanRest(bs[HeadOf(bs).size..]);
    }
  }

  // --------------------------------------------------------------------------- the pump thread

  function Octets(chunks: seq<Chunk>): seq<Byte> {
    if chunks == [] then [] else Octets(chunks[..|chunks| - 1]) + chunks[|chunks| - 1]
  }

  function Concat(texts: seq<string>): string {
    if texts == [] then "" else Concat(texts[..|texts| - 1]) + texts[|texts| - 1]
  }

  /** What a pump leaves behind for a stream of these chunks, whose last read may raise. */
  ghost predicate PumpResult(chunks: seq<Chunk>, readFails: bool, texts: seq<string>, error: Option<Failure>) {
    var whole := BlockingText(Octets(chunks));
    && (forall t :: t in texts ==> t != "")
    && (readFails ==> error.Some?)
    && (!readFails ==> (error.Some? <==> whole.Err?))
    && (error.None? ==> Ok(Concat(texts)) == whole)
  }

  class TextDecoder {
    var st: State

    constructor ()
      ensures st == State([], false)
    {
      st := State([], false);
    }

    /** A failing call leaves the decoder as it was. */
    method Decode(chunk: seq<Byte>, final: bool) returns (r: Result<string, Failure>)
      modifies this
      ensures match DecodeStep(old(st), chunk, final)
        case Err(e) => r == Err(e) && st == old(st)
        case Ok(out) => r == Ok(out.0) && st == out.1
    {
      var step := DecodeStep(st, chunk, final);
      if step.Err? {
        return Err(step.error);
      }
      st := step.value.1;
      r := Ok(step.value.0);
    }
  }

  lemma OctetsUpTo(chunks: seq<Chunk>, i: nat)
    requires i < |chunks|
    ensures Octets(chunks[..i + 1]) == Octets(chunks[..i]) + chunks[i]
  {
    assert chunks[..i + 1][..i] == chunks[..i];
  }

  lemma {:induction false} BadPrefix(chunks: seq<Chunk>, i: nat)
    requires i <= |chunks| && Scan(Octets(chunks[..i])).Err?
    ensures Scan(Octets(chunks)).Err?
    decreases |chunks| - i
  {
    if i < |chunks| {
      OctetsUpTo(chunks, i);
      ScanAppend(Octets(chunks[..i]), chunks[i]);
      BadPrefix(chunks, i + 1);
    } else {
      assert chunks[..i] == chunks;
    }
  }

  method AppendText(texts: seq<string>, text: string) returns (r: seq<string>)
    requires forall t :: t in texts ==> t != ""
    ensures Concat(r) == Concat(texts) + text && forall t :: t in r ==> t != ""
  {
    r := texts;
    if text != "" {
      r := texts + [text];
      assert r[..|texts|] == texts;
    }
  }

  /** Read to the end of the stream, decode chunk by chunk, flush, and keep the first error. */
  method Pump(chunks: seq<Chunk>, readFails: bool) returns (texts: seq<string>, error: Option<Failure>)
    ensures PumpResult(chunks, readFails, texts, error)
  {
    texts, error := [], None;
    var decoder := new TextDecoder();
    var i := 0;
    while i < |chunks|
      invariant 0 <= i <= |chunks|
      invariant Decoded(Octets(chunks[..i]), decoder.st, Concat(texts))
      invariant forall t :: t in texts ==> t != ""
    {
      DecodeKeeps(Octets(chunks[..i]), decoder.st, Concat(texts), chunks[i]);
      OctetsUpTo(chunks, i);
      var text := decoder.Decode(chunks[i], false);
      if text.Err? {
        BadPrefix(chunks, i + 1);
        return texts, Some(text.error);
      }
      texts := AppendText(texts, text.value);
      i := i + 1;
    }
    assert chunks[..i] == chunks;
    if readFails {
      return texts, Some(ReadFailed);
    }
    FlushCompletes(Octets(chunks), decoder.st, Concat(texts));
    var tail := decoder.Decode([], true);
    if tail.Err? {
      return texts, Some(tail.error);
    }
    texts := AppendText(texts, tail.value);
  }

  // ------------------------------------------------------------------------- the code itself

  /** The ranges and the bit groups of the table in section 3 of RFC 3629. */
  lemma EncodeTable(c: char)
    ensures
      var bs, n := Encode(c), c as int;
      |bs| == if n <= 0x007F then 1 else if n <= 0x07FF then 2 else if n <= 0xFFFF then 3 else 4
    ensures
      var bs, n := Encode(c), c as int;
      var lead: int := bs[0];
      match |bs|
      case 1 => lead == n < 0x80
      case 2 => 0xC2 <= lead < 0xE0 && n == Joined2(lead - 0xC0, Bits(bs[1]))
      case 3 => 0xE0 <= lead < 0xF0 && n == Joined3(lead - 0xE0, Bits(bs[1]), Bits(bs[2]))
      case _ => 0xF0 <= lead < 0xF5 && n == Joined4(lead - 0xF0, Bits(bs[1]), Bits(bs[2]), Bits(bs[3]))
    ensures forall i :: 0 < i < |Encode(c)| ==> 0x80 <= Encode(c)[i] < 0xC0
  {
    Regroup(c as int);
  }

  /** The six bits that a continuation octet carries. */
  function Bits(b: Byte): int {
    b - 0x80
  }

  /** Characters of the examples in section 7 of RFC 3629. */
  lemma EncodeExamples()
    ensures Encode('A') == [0x41] && Encode('\U{2262}') == [0xE2, 0x89, 0xA2] && Encode('\U{0391}') == [0xCE, 0x91]
    ensures Encode('\U{D55C}') == [0xED, 0x95, 0x9C] && Encode('\U{233B4}') == [0xF0, 0xA3, 0x8E, 0xB4]
  {
  }
}
