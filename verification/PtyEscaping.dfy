/** The body of a terminal data frame: the escapes of section 7 of RFC 8259, what the daemon writes
    (`json_escape_pty_data`) and what it reads back (the unescape loop of `parse_and_process_payload`). */
module PtyEscaping {
  import opened Bytes
  import opened Options

  /** One element of a JSON string body. */
  datatype Token =
    | Plain(b: byte)
    | Short(e: byte)
    | Unicode(h3: byte, h2: byte, h1: byte, h0: byte)

  // ---------- hexadecimal ----------

  predicate IsHexDigit(b: byte) {
    48 <= b <= 57 || 65 <= b <= 70 || 97 <= b <= 102
  }

  function HexValue(b: byte): (v: nat)
    requires IsHexDigit(b)
    ensures v < 16
  {
    if b <= 57 then b - 48 else if b <= 70 then b - 55 else b - 87
  }

  /** hex[n] of the table "0123456789abcdef". */
  function HexDigit(n: nat): (b: byte)
    requires n < 16
    ensures IsHexDigit(b) && HexValue(b) == n
  {
    if n < 10 then 48 + n else 87 + n
  }

  // ---------- the grammar and its meaning (RFC 8259, section 7) ----------

  predicate ValidToken(t: Token) {
    match t
    case Plain(b) => b >= 0x20 && b != QUOTE && b != BACKSLASH
    case Short(e) => e in [QUOTE, BACKSLASH, Ch('/'), Ch('b'), Ch('f'), Ch('n'), Ch('r'), Ch('t')]
    case Unicode(h3, h2, h1, h0) => IsHexDigit(h3) && IsHexDigit(h2) && IsHexDigit(h1) && IsHexDigit(h0)
  }

  predicate ValidBody(ts: seq<Token>) {
    forall i :: 0 <= i < |ts| ==> ValidToken(ts[i])
  }

  function Print(t: Token): (r: seq<byte>)
    ensures |r| == if t.Plain? then 1 else if t.Short? then 2 else 6
  {
    match t
    case Plain(b) => [b]
    case Short(e) => [BACKSLASH, e]
    case Unicode(h3, h2, h1, h0) => [BACKSLASH, Ch('u'), h3, h2, h1, h0]
  }

  function PrintAll(ts: seq<Token>): seq<byte> {
    if ts == [] then [] else Print(ts[0]) + PrintAll(ts[1..])
  }

  function CodeUnit(t: Token): (u: nat)
    requires t.Unicode? && ValidToken(t)
    ensures u < 0x10000
  {
    HexValue(t.h3) * 4096 + HexValue(t.h2) * 256 + HexValue(t.h1) * 16 + HexValue(t.h0)
  }

  function ShortValue(e: byte): byte {
    if e == Ch('n') then NEWLINE
    else if e == Ch('r') then CARRIAGE_RETURN
    else if e == Ch('t') then TAB
    else if e == Ch('b') then BACKSPACE
    else if e == Ch('f') then FORM_FEED
    else e
  }

  /** UTF-8 of a code point. */
  function Utf8(cp: nat): (r: seq<byte>)
    requires cp < 0x110000
    ensures |r| <= 4 && (cp < 0x10000 ==> |r| <= 3)
  {
    if cp < 0x80 then [cp]
    else if cp < 0x800 then [0xC0 + cp / 64, 0x80 + cp % 64]
    else if cp < 0x10000 then [0xE0 + cp / 4096, 0x80 + cp / 64 % 64, 0x80 + cp % 64]
    else [0xF0 + cp / 262144, 0x80 + cp / 4096 % 64, 0x80 + cp / 64 % 64, 0x80 + cp % 64]
  }

  predicate IsSurrogatePair(ts: seq<Token>)
    requires ValidBody(ts)
  {
    && |ts| >= 2 && ts[0].Unicode? && ts[1].Unicode?
    && 0xD800 <= CodeUnit(ts[0]) < 0xDC00 && 0xDC00 <= CodeUnit(ts[1]) < 0xE000
  }

  /** What a JSON string body stands for, as UTF-8 bytes. */
  function Meaning(ts: seq<Token>): seq<byte>
    requires ValidBody(ts)
  {
    if ts == [] then []
    else if IsSurrogatePair(ts) then
      Utf8(0x10000 + (CodeUnit(ts[0]) - 0xD800) * 1024 + (CodeUnit(ts[1]) - 0xDC00)) + Meaning(ts[2..])
    else TokenMeaning(ts[0]) + Meaning(ts[1..])
  }

  /** One token on its own: a code unit outside a surrogate pair is a code point. */
  function TokenMeaning(t: Token): (r: seq<byte>)
    requires ValidToken(t)
    ensures |r| <= 3
  {
    match t
    case Plain(b) => [b]
    case Short(e) => [ShortValue(e)]
    case Unicode(_, _, _, _) => Utf8(CodeUnit(t))
  }

  /** An escape the daemon does not decode: \uXXXX of 0x80 or more. */
  predicate Wide(t: Token)
    requires ValidToken(t)
  {
    t.Unicode? && CodeUnit(t) >= 0x80
  }

  predicate AsciiEscapesOnly(ts: seq<Token>)
    requires ValidBody(ts)
  {
    forall i :: 0 <= i < |ts| ==> !Wide(ts[i])
  }

  lemma {:induction false} PrintAllConcat(a: seq<Token>, b: seq<Token>)
    ensures PrintAll(a + b) == PrintAll(a) + PrintAll(b)
  {
    if a == [] {
      assert a + b == b;
    } else {
      assert (a + b)[0] == a[0] && (a + b)[1..] == a[1..] + b;
      PrintAllConcat(a[1..], b);
    }
  }

  /** A printed body has no control byte (so no newline and no NUL), and every quote in it is escaped. */
  lemma {:induction false} PrintedBytes(ts: seq<Token>)
    requires ValidBody(ts)
    ensures forall j :: 0 <= j < |PrintAll(ts)| ==> PrintAll(ts)[j] >= 0x20
    ensures forall j :: 0 <= j < |PrintAll(ts)| && PrintAll(ts)[j] == QUOTE ==>
      j > 0 && PrintAll(ts)[j - 1] == BACKSLASH
    ensures |ts| <= |PrintAll(ts)| <= 6 * |ts|
  {
    if ts != [] {
      PrintedToken(ts[0]);
      PrintedBytes(ts[1..]);
      var head, rest := Print(ts[0]), PrintAll(ts[1..]);
      hide Print, ValidToken;
      forall j | |head| <= j < |head + rest|
        ensures (head + rest)[j] == rest[j - |head|]
      {
      }
    }
  }

  lemma PrintedToken(t: Token)
    requires ValidToken(t)
    ensures var r := Print(t);
            && (forall j :: 0 <= j < |r| ==> r[j] >= 0x20)
            && (forall j :: 0 <= j < |r| && r[j] == QUOTE ==> j > 0 && r[j - 1] == BACKSLASH)
            && 1 <= |r| <= 6
  {
  }

  // ---------- the encoder's escapes ----------

  /** The escape chosen for one PTY byte. */
  function TokenOf(c: byte): (t: Token)
    ensures ValidToken(t) && !Wide(t)
  {
    if c == QUOTE then Short(QUOTE)
    else if c == BACKSLASH then Short(BACKSLASH)
    else if c == NEWLINE then Short(Ch('n'))
    else if c == CARRIAGE_RETURN then Short(Ch('r'))
    else if c == TAB then Short(Ch('t'))
    else if c == BACKSPACE then Short(Ch('b'))
    else if c < 0x20 then Unicode(48, 48, HexDigit(c / 16), HexDigit(c % 16))
    else Plain(c)
  }

  function Tokens(src: seq<byte>): (ts: seq<Token>)
    ensures |ts| == |src| && ValidBody(ts) && AsciiEscapesOnly(ts)
    ensures forall i :: 0 <= i < |src| ==> ts[i] == TokenOf(src[i])
  {
    seq(|src|, i requires 0 <= i < |src| => TokenOf(src[i]))
  }

  function Escape(src: seq<byte>): seq<byte> {
    PrintAll(Tokens(src))
  }

  lemma EscapeStep(src: seq<byte>, s: nat)
    requires s < |src|
    ensures Escape(src[..s + 1]) == Escape(src[..s]) + Print(TokenOf(src[s]))
  {
    assert Tokens(src[..s + 1]) == Tokens(src[..s]) + [TokenOf(src[s])];
    PrintAllConcat(Tokens(src[..s]), [TokenOf(src[s])]);
    assert PrintAll([TokenOf(src[s])]) == Print(TokenOf(src[s]));
  }

  lemma TokenOfMeans(c: byte)
    ensures TokenMeaning(TokenOf(c)) == [c]
  {
  }

  /** The escapes are a lossless encoding of the source bytes under the standard's own reading. */
  lemma {:induction false} EscapeMeansSource(src: seq<byte>)
    ensures Meaning(Tokens(src)) == src
  {
    hide TokenOf, TokenMeaning, Print;
    if src != [] {
      var ts := Tokens(src);
      assert ts[0] == TokenOf(src[0]) && !Wide(ts[0]);
      assert ts[1..] == Tokens(src[1..]);
      TokenOfMeans(src[0]);
      EscapeMeansSource(src[1..]);
      assert src == [src[0]] + src[1..];
    }
  }

  // ---------- the daemon's unescape loop ----------

  predicate IsSpace(b: byte) {
    b == SPACE || 9 <= b <= 13
  }

  function SkipSpaces(s: seq<byte>, i: nat): (j: nat)
    requires i <= |s|
    ensures i <= j <= |s|
    decreases |s| - i
  {
    if i < |s| && IsSpace(s[i]) then SkipSpaces(s, i + 1) else i
  }

  /** The run of at most `width` hexadecimal digits at i: (number of digits, value). */
  function HexRun(s: seq<byte>, i: nat, width: nat, acc: nat): (nat, nat)
    requires i <= |s|
    decreases width
  {
    if width > 0 && i < |s| && IsHexDigit(s[i]) then
      var (n, v) := HexRun(s, i + 1, width - 1, acc * 16 + HexValue(s[i]));
      (n + 1, v)
    else (0, acc)
  }

  /** sscanf(s + i, "%4x", &cp): blanks, then in at most four bytes an optional sign, an optional 0x and
      hexadecimal digits. A negative value wraps to the 32-bit unsigned range. */
  function ScanHex4(s: seq<byte>, i: nat): Option<nat>
    requires i <= |s|
  {
    var j := SkipSpaces(s, i);
    var signed := j < |s| && (s[j] == Ch('+') || s[j] == Ch('-'));
    var k := if signed then j + 1 else j;
    var width := if signed then 3 else 4;
    var prefixed := k + 1 < |s| && s[k] == Ch('0') && (s[k + 1] == Ch('x') || s[k + 1] == Ch('X'));
    var (n, v) := if prefixed then HexRun(s, k + 2, width - 2, 0) else HexRun(s, k, width, 0);
    if n == 0 then None
    else if signed && s[j] == Ch('-') then Some((0 - v as int) % 0x1_0000_0000)
    else Some(v)
  }

  lemma RunOfFour(s: seq<byte>, i: nat, t: Token)
    requires t.Unicode? && ValidToken(t) && i + 4 <= |s|
    requires s[i] == t.h3 && s[i + 1] == t.h2 && s[i + 2] == t.h1 && s[i + 3] == t.h0
    ensures HexRun(s, i, 4, 0) == (4, CodeUnit(t))
  {
    hide HexValue, IsHexDigit;
    var v1 := HexValue(t.h3);
    var v2 := v1 * 16 + HexValue(t.h2);
    var v3 := v2 * 16 + HexValue(t.h1);
    var v4 := v3 * 16 + HexValue(t.h0);
    assert HexRun(s, i + 4, 0, v4) == (0, v4);
    assert HexRun(s, i + 3, 1, v3) == (1, v4);
    assert HexRun(s, i + 2, 2, v2) == (2, v4);
    assert HexRun(s, i + 1, 3, v1) == (3, v4);
  }

  lemma ScanFourDigits(s: seq<byte>, i: nat, t: Token)
    requires t.Unicode? && ValidToken(t)
    requires MatchesAt(s, [t.h3, t.h2, t.h1, t.h0], i)
    ensures ScanHex4(s, i) == Some(CodeUnit(t))
  {
    hide HexRun, HexValue, CodeUnit;
    var w := [t.h3, t.h2, t.h1, t.h0];
    assert s[i + 0] == w[0] && s[i + 1] == w[1] && s[i + 2] == w[2] && s[i + 3] == w[3];
    assert SkipSpaces(s, i) == i;
    RunOfFour(s, i, t);
  }

  /** One turn of the unescape loop at p: the byte it emits and the position it continues from. */
  function UnescapeStep(s: seq<byte>, p: nat, end: nat): (r: (byte, nat))
    requires p < end <= |s|
    ensures p < r.1 <= end
  {
    if s[p] == BACKSLASH && p + 1 < end then
      var q := p + 1;
      if s[q] == Ch('u') && q + 4 < end then
        var cp := ScanHex4(s, q + 1);
        if cp.Some? && cp.value < 0x80 then (cp.value, q + 5) else (s[q], q + 1)
      else (ShortValue(s[q]), q + 1)
    else (s[p], p + 1)
  }

  function UnescapeFrom(s: seq<byte>, p: nat, end: nat): seq<byte>
    requires p <= end <= |s|
    decreases end - p
  {
    if p == end then []
    else
      var (b, next) := UnescapeStep(s, p, end);
      [b] + UnescapeFrom(s, next, end)
  }

  /** What the daemon makes of one token: a wide escape comes out as its own five characters. */
  function DaemonToken(t: Token): (r: seq<byte>)
    requires ValidToken(t)
    ensures |r| == if Wide(t) then 5 else 1
  {
    match t
    case Plain(b) => [b]
    case Short(e) => [ShortValue(e)]
    case Unicode(h3, h2, h1, h0) =>
      if CodeUnit(t) < 0x80 then [CodeUnit(t)] else [Ch('u'), h3, h2, h1, h0]
  }

  function DaemonMeaning(ts: seq<Token>): seq<byte>
    requires ValidBody(ts)
  {
    if ts == [] then [] else DaemonToken(ts[0]) + DaemonMeaning(ts[1..])
  }

  lemma UnescapePlain(s: seq<byte>, p: nat, end: nat)
    requires p < end <= |s| && s[p] != BACKSLASH
    ensures UnescapeFrom(s, p, end) == [s[p]] + UnescapeFrom(s, p + 1, end)
  {
  }

  lemma UnescapeShort(s: seq<byte>, p: nat, e: byte, end: nat)
    requires p + 2 <= end <= |s| && s[p] == BACKSLASH && s[p + 1] == e && e != Ch('u')
    ensures UnescapeFrom(s, p, end) == [ShortValue(e)] + UnescapeFrom(s, p + 2, end)
  {
  }

  lemma UnescapeNarrow(s: seq<byte>, p: nat, t: Token, end: nat)
    requires t.Unicode? && ValidToken(t) && !Wide(t) && p + 6 <= end <= |s| && MatchesAt(s, Print(t), p)
    ensures UnescapeFrom(s, p, end) == [CodeUnit(t)] + UnescapeFrom(s, p + 6, end)
  {
    ScanToken(s, p, t);
  }

  lemma UnescapeWide(s: seq<byte>, p: nat, t: Token, end: nat)
    requires ValidToken(t) && Wide(t) && p + 6 <= end <= |s| && MatchesAt(s, Print(t), p)
    ensures UnescapeFrom(s, p, end) == [Ch('u'), t.h3, t.h2, t.h1, t.h0] + UnescapeFrom(s, p + 6, end)
  {
    hide UnescapeFrom, UnescapeStep;
    WideStep(s, p, t, end);
    var u2 := UnescapeFrom(s, p + 2, end);
    var u3 := UnescapeFrom(s, p + 3, end);
    var u4 := UnescapeFrom(s, p + 4, end);
    var u5 := UnescapeFrom(s, p + 5, end);
    var u6 := UnescapeFrom(s, p + 6, end);
    assert u2 == [t.h3] + u3 by { UnescapePlain(s, p + 2, end); }
    assert u3 == [t.h2] + u4 by { UnescapePlain(s, p + 3, end); }
    assert u4 == [t.h1] + u5 by { UnescapePlain(s, p + 4, end); }
    assert u5 == [t.h0] + u6 by { UnescapePlain(s, p + 5, end); }
  }

  /** A wide escape is not taken as one: the loop emits the u and goes on behind it. */
  lemma WideStep(s: seq<byte>, p: nat, t: Token, end: nat)
    requires ValidToken(t) && Wide(t) && p + 6 <= end <= |s| && MatchesAt(s, Print(t), p)
    ensures s[p + 2] == t.h3 && s[p + 3] == t.h2 && s[p + 4] == t.h1 && s[p + 5] == t.h0
    ensures UnescapeFrom(s, p, end) == [Ch('u')] + UnescapeFrom(s, p + 2, end)
  {
    ScanToken(s, p, t);
  }

  lemma ScanToken(s: seq<byte>, p: nat, t: Token)
    requires t.Unicode? && ValidToken(t) && MatchesAt(s, Print(t), p)
    ensures s[p] == BACKSLASH && s[p + 1] == Ch('u')
    ensures s[p + 2] == t.h3 && s[p + 3] == t.h2 && s[p + 4] == t.h1 && s[p + 5] == t.h0
    ensures ScanHex4(s, p + 2) == Some(CodeUnit(t))
  {
    var w := Print(t);
    assert s[p + 0] == w[0] && s[p + 1] == w[1] && s[p + 2] == w[2];
    assert s[p + 3] == w[3] && s[p + 4] == w[4] && s[p + 5] == w[5];
    ScanFourDigits(s, p + 2, t);
  }

  lemma UnescapeToken(s: seq<byte>, p: nat, t: Token, end: nat)
    requires ValidToken(t) && p + |Print(t)| <= end <= |s| && MatchesAt(s, Print(t), p)
    ensures UnescapeFrom(s, p, end) == DaemonToken(t) + UnescapeFrom(s, p + |Print(t)|, end)
  {
    var w := Print(t);
    assert s[p + 0] == w[0];
    match t
    case Plain(_) => UnescapePlain(s, p, end);
    case Short(e) =>
      assert s[p + 1] == w[1];
      UnescapeShort(s, p, e, end);
    case Unicode(_, _, _, _) =>
      if Wide(t) {
        UnescapeWide(s, p, t, end);
      } else {
        UnescapeNarrow(s, p, t, end);
      }
  }

  /** The loop reads any valid body, wherever it lies in the line, token by token. */
  lemma {:induction false} UnescapeBody(s: seq<byte>, p: nat, ts: seq<Token>, end: nat)
    requires ValidBody(ts) && MatchesAt(s, PrintAll(ts), p) && end == p + |PrintAll(ts)|
    ensures UnescapeFrom(s, p, end) == DaemonMeaning(ts)
    decreases |ts|
  {
    if ts != [] {
      var head, tail := Print(ts[0]), PrintAll(ts[1..]);
      MatchesSplit(s, head, tail, p);
      UnescapeToken(s, p, ts[0], end);
      UnescapeBody(s, p + |head|, ts[1..], end);
    }
  }

  lemma MatchesSplit(s: seq<byte>, a: seq<byte>, b: seq<byte>, p: nat)
    requires MatchesAt(s, a + b, p)
    ensures MatchesAt(s, a, p) && MatchesAt(s, b, p + |a|)
  {
    assert forall j :: 0 <= j < |a| ==> a[j] == (a + b)[j];
    forall j | 0 <= j < |b|
      ensures s[p + |a| + j] == b[j]
    {
      assert (a + b)[|a| + j] == b[j];
      assert s[p + (|a| + j)] == (a + b)[|a| + j];
    }
  }

  /** Without wide escapes the daemon agrees with RFC 8259; each wide escape makes its output longer. */
  lemma {:induction false} DaemonAgainstStandard(ts: seq<Token>)
    requires ValidBody(ts)
    ensures AsciiEscapesOnly(ts) ==> DaemonMeaning(ts) == Meaning(ts)
    ensures !AsciiEscapesOnly(ts) ==> |DaemonMeaning(ts)| > |Meaning(ts)|
    ensures |DaemonMeaning(ts)| >= |Meaning(ts)|
  {
    if ts != [] {
      assert ValidBody(ts[1..]);
      if IsSurrogatePair(ts) {
        assert ValidBody(ts[2..]) && ts[1..][1..] == ts[2..];
        DaemonAgainstStandard(ts[2..]);
        assert Wide(ts[0]) && Wide(ts[1]);
        assert ts[1..][0] == ts[1];
        assert DaemonMeaning(ts) == DaemonToken(ts[0]) + (DaemonToken(ts[1]) + DaemonMeaning(ts[2..]));
      } else {
        DaemonAgainstStandard(ts[1..]);
        if Wide(ts[0]) {
        } else if AsciiEscapesOnly(ts[1..]) {
          assert forall i :: 1 <= i < |ts| ==> ts[i] == ts[1..][i - 1];
        }
      }
    }
  }

  /** The daemon's unescape loop meets RFC 8259 on a valid body exactly when the body has no \uXXXX
      escape of 0x80 or more. */
  lemma {:induction false} UnescapeMeetsRfc8259Iff(s: seq<byte>, p: nat, ts: seq<Token>, end: nat)
    requires ValidBody(ts) && MatchesAt(s, PrintAll(ts), p) && end == p + |PrintAll(ts)|
    ensures UnescapeFrom(s, p, end) == Meaning(ts) <==> AsciiEscapesOnly(ts)
  {
    UnescapeBody(s, p, ts, end);
    DaemonAgainstStandard(ts);
  }

  /** "é", which json.dumps sends as \u00e9, is two UTF-8 bytes; the daemon makes it the five characters u00e9. */
  lemma AccentedLetterIsGarbled()
    ensures var ts := [Unicode(Ch('0'), Ch('0'), Ch('e'), Ch('9'))];
            && ValidBody(ts) && Meaning(ts) == [0xC3, 0xA9]
            && DaemonMeaning(ts) == [Ch('u'), Ch('0'), Ch('0'), Ch('e'), Ch('9')]
  {
  }
}
