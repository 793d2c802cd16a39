/** The receiving side of the Python client: `CNativeBackend.read` decodes each frame on its own, with
    errors="replace", and takes the data out of the JSON; `pump_output` does so until the connection ends. */
module PtyReader {
  import opened Bytes
  import opened Options
  import opened PtyEscaping
  import opened PtyEncoder
  import opened PtyRelay
  import opened PtyClient

  // ---------- bytes.decode("utf-8", errors="replace") ----------

  const REPLACEMENT: Char := 0xFFFD

  predicate IsContinuation(b: byte) {
    0x80 <= b < 0xC0
  }

  /** How long a character is that begins with this byte; none begins with the others. */
  function Need(b: byte): nat {
    if b < 0x80 then 1
    else if 0xC2 <= b < 0xE0 then 2
    else if 0xE0 <= b < 0xF0 then 3
    else if 0xF0 <= b < 0xF5 then 4
    else 0
  }

  /** No overlong forms, no surrogates, nothing past 0x10FFFF. */
  predicate SecondOk(b0: byte, b1: byte) {
    && IsContinuation(b1)
    && (b0 == 0xE0 ==> b1 >= 0xA0) && (b0 == 0xED ==> b1 < 0xA0)
    && (b0 == 0xF0 ==> b1 >= 0x90) && (b0 == 0xF4 ==> b1 < 0x90)
  }

  /** The bytes the decoder takes at once: a character, or as much of one as there is, or one byte. */
  function UnitLen(s: seq<byte>): (n: nat)
    requires s != []
    ensures 1 <= n <= 4 && n <= |s|
  {
    var need := Need(s[0]);
    if need <= 1 || |s| < 2 || !SecondOk(s[0], s[1]) then 1
    else if need == 2 || |s| < 3 || !IsContinuation(s[2]) then 2
    else if need == 3 || |s| < 4 || !IsContinuation(s[3]) then 3
    else 4
  }

  /** The character they stand for; anything incomplete is replaced. */
  function UnitChar(s: seq<byte>): (c: Char)
    requires s != []
    ensures s[0] >= 0x80 ==> c >= 0x80
  {
    var n := UnitLen(s);
    if n != Need(s[0]) then REPLACEMENT
    else if n == 1 then s[0]
    else if n == 2 then s[0] as int * 64 + s[1] as int - 0x3080
    else if n == 3 then s[0] as int * 4096 + s[1] as int * 64 + s[2] as int - 0xE2080
    else s[0] as int * 262144 + s[1] as int * 4096 + s[2] as int * 64 + s[3] as int - 0x3C82080
  }

  function Decode(s: seq<byte>): Text {
    if s == [] then [] else [UnitChar(s)] + Decode(s[UnitLen(s)..])
  }

  /** The decoder stops at this point of the string: no character lies across it. */
  predicate Boundary(s: seq<byte>, n: nat)
    requires n <= |s|
  {
    n == 0 || (UnitLen(s) <= n && Boundary(s[UnitLen(s)..], n - UnitLen(s)))
  }

  /** The first unit of a string, seen from a prefix of it: the same, or cut short. */
  lemma UnitOfPrefix(a: seq<byte>, b: seq<byte>)
    requires a != []
    ensures UnitLen(a + b) <= |a| ==> UnitLen(a) == UnitLen(a + b) && UnitChar(a) == UnitChar(a + b)
    ensures UnitLen(a + b) > |a| ==>
      && UnitLen(a) == |a| && UnitChar(a) == REPLACEMENT
      && forall k :: 0 <= k < UnitLen(a + b) - |a| ==> IsContinuation(b[k])
  {
    var s := a + b;
    assert forall k :: 0 <= k < |a| ==> s[k] == a[k];
    assert forall k :: 0 <= k < |b| ==> s[|a| + k] == b[k];
    if UnitLen(s) > |a| {
      forall k | 0 <= k < UnitLen(s) - |a|
        ensures IsContinuation(b[k])
      {
        assert s[|a| + k] == b[k];
      }
    }
  }

  /** No character begins with a continuation byte: each is replaced. */
  lemma {:induction false} ContinuationsAreReplaced(b: seq<byte>, k: nat)
    requires k <= |b| && forall i :: 0 <= i < k ==> IsContinuation(b[i])
    ensures |Decode(b)| == k + |Decode(b[k..])|
    decreases k
  {
    if k > 0 {
      ContinuationsAreReplaced(b[1..], k - 1);
      assert b[1..][k - 1..] == b[k..];
    }
  }

  lemma DecodeStep(s: seq<byte>)
    requires s != []
    ensures Decode(s) == [UnitChar(s)] + Decode(s[UnitLen(s)..])
    ensures forall n :: 0 < n <= |s| ==>
      (Boundary(s, n) <==> UnitLen(s) <= n && Boundary(s[UnitLen(s)..], n - UnitLen(s)))
  {
  }

  /** Decoding two pieces apart gives the same as decoding them together exactly when no character is cut;
      otherwise it gives more characters. */
  lemma {:induction false} DecodeApartIff(a: seq<byte>, b: seq<byte>)
    ensures Decode(a + b) == Decode(a) + Decode(b) <==> Boundary(a + b, |a|)
    ensures Boundary(a + b, |a|) || |Decode(a)| + |Decode(b)| > |Decode(a + b)|
    decreases |a|
  {
    hide UnitLen, UnitChar, Decode, Boundary;
    EmptyDecodes();
    AtStart(a + b);
    if a == [] {
      assert a + b == b;
    } else {
      var s := a + b;
      var n := UnitLen(s);
      UnitOfPrefix(a, b);
      DecodeStep(s);
      DecodeStep(a);
      if n <= |a| {
        assert s[n..] == a[n..] + b;
        DecodeApartIff(a[n..], b);
        FirstSame(UnitChar(s), Decode(a[n..] + b), Decode(a[n..]), Decode(b));
      } else {
        var k := n - |a|;
        assert a[|a|..] == [] && Decode(a) == [REPLACEMENT];
        ContinuationsAreReplaced(b, k);
        assert s[n..] == b[k..];
      }
    }
  }

  lemma EmptyDecodes()
    ensures Decode([]) == []
  {
  }

  lemma AtStart(s: seq<byte>)
    ensures Boundary(s, 0)
  {
  }

  lemma FirstSame(c: Char, whole: Text, x: Text, y: Text)
    ensures [c] + whole == [c] + x + y <==> whole == x + y
  {
    assert ([c] + whole)[1..] == whole && ([c] + x + y)[1..] == x + y;
  }

  lemma {:induction false} BoundaryAdds(s: seq<byte>, m: nat, n: nat)
    requires m + n <= |s| && Boundary(s, m)
    ensures Boundary(s, m + n) <==> Boundary(s[m..], n)
    decreases m
  {
    hide UnitLen, Boundary;
    AtStart(s);
    if m == 0 {
      assert s[m..] == s;
    } else {
      DecodeStep(s);
      var u := UnitLen(s);
      BoundaryAdds(s[u..], m - u, n);
      assert s[u..][m - u..] == s[m..];
    }
  }

  // ---------- many pieces ----------

  /** What comes out when every piece is decoded on its own. */
  function DecodeEach(pieces: seq<seq<byte>>): Text {
    if pieces == [] then [] else Decode(pieces[0]) + DecodeEach(pieces[1..])
  }

  /** Where the i-th piece ends in the whole string. */
  function EndOf(pieces: seq<seq<byte>>, i: nat): (n: nat)
    requires i <= |pieces|
    ensures n <= |Concat(pieces)|
  {
    if i == 0 then 0 else |pieces[0]| + EndOf(pieces[1..], i - 1)
  }

  /** No character lies across the end of a piece. */
  predicate NoCharacterCut(pieces: seq<seq<byte>>) {
    forall i :: 0 <= i <= |pieces| ==> Boundary(Concat(pieces), EndOf(pieces, i))
  }

  lemma LaterPiece(pieces: seq<seq<byte>>, i: nat)
    requires i < |pieces| && Boundary(Concat(pieces), |pieces[0]|)
    ensures Boundary(Concat(pieces), EndOf(pieces, i + 1)) <==> Boundary(Concat(pieces[1..]), EndOf(pieces[1..], i))
  {
    hide Boundary;
    BoundaryAdds(Concat(pieces), |pieces[0]|, EndOf(pieces[1..], i));
    assert Concat(pieces)[|pieces[0]|..] == Concat(pieces[1..]);
  }

  lemma FirstPieceCut(pieces: seq<seq<byte>>)
    requires pieces != []
    ensures NoCharacterCut(pieces) <==> Boundary(Concat(pieces), |pieces[0]|) && NoCharacterCut(pieces[1..])
  {
    hide Boundary, Concat;
    var whole, rest := Concat(pieces), pieces[1..];
    AtStart(whole);
    assert EndOf(pieces, 1) == |pieces[0]|;
    if Boundary(whole, |pieces[0]|) {
      forall i | 0 <= i <= |rest|
        ensures Boundary(whole, EndOf(pieces, i + 1)) <==> Boundary(Concat(rest), EndOf(rest, i))
      {
        LaterPiece(pieces, i);
      }
      if NoCharacterCut(rest) {
        forall i | 1 <= i <= |pieces|
          ensures Boundary(whole, EndOf(pieces, i))
        {
          assert Boundary(Concat(rest), EndOf(rest, i - 1));
        }
      }
    }
  }

  lemma {:induction false} DecodeEachIff(pieces: seq<seq<byte>>)
    ensures DecodeEach(pieces) == Decode(Concat(pieces)) <==> NoCharacterCut(pieces)
    ensures |DecodeEach(pieces)| >= |Decode(Concat(pieces))|
    ensures NoCharacterCut(pieces) || |DecodeEach(pieces)| > |Decode(Concat(pieces))|
    decreases |pieces|
  {
    hide Decode, Boundary;
    if pieces == [] {
      EmptyDecodes();
      AtStart([]);
    } else {
      FirstPieceCut(pieces);
      DecodeEachIff(pieces[1..]);
      DecodeApartIff(pieces[0], Concat(pieces[1..]));
    }
  }

  // ---------- the JSON string of a frame ----------

  predicate IsHex4(t: Text) {
    |t| == 4 && forall i :: 0 <= i < 4 ==> t[i] < 256 && IsHexDigit(t[i])
  }

  function Hex4Value(t: Text): nat
    requires IsHex4(t)
  {
    CodeUnit(Unicode(t[0], t[1], t[2], t[3]))
  }

  predicate IsUnicodeEscape(t: Text) {
    |t| >= 6 && t[0] == BACKSLASH && t[1] == Ch('u') && IsHex4(t[2..6])
  }

  function Put(c: Char, r: Option<(Text, Text)>): Option<(Text, Text)> {
    if r.None? then None else Some(([c] + r.value.0, r.value.1))
  }

  /** json.loads behind an opening quote: the string and what follows its closing quote. */
  function LoadString(t: Text): Option<(Text, Text)>
    decreases |t|
  {
    if t == [] || t[0] < 0x20 then None
    else if t[0] == QUOTE then Some(([], t[1..]))
    else if t[0] != BACKSLASH then Put(t[0], LoadString(t[1..]))
    else if IsUnicodeEscape(t) then
      var u := Hex4Value(t[2..6]);
      var next := t[6..];
      if High(u) && IsUnicodeEscape(next) && Low(Hex4Value(next[2..6])) then
        Put(0x10000 + (u - 0xD800) * 1024 + (Hex4Value(next[2..6]) - 0xDC00), LoadString(next[6..]))
      else Put(u, LoadString(t[6..]))
    else if |t| >= 2 && t[1] < 256 && ValidToken(Short(t[1])) then Put(ShortValue(t[1]), LoadString(t[2..]))
    else None
  }

  /** ASCII bytes decode to themselves. */
  lemma {:induction false} DecodeAscii(a: seq<byte>, rest: seq<byte>)
    requires forall i :: 0 <= i < |a| ==> a[i] < 0x80
    ensures Decode(a + rest) == a + Decode(rest)
    decreases |a|
  {
    if a == [] {
      assert a + rest == rest;
    } else {
      var s := a + rest;
      assert s[0] == a[0] && s[1..] == a[1..] + rest;
      DecodeAscii(a[1..], rest);
    }
  }

  /** The escape of an ASCII byte is read as that byte. */
  lemma LoadToken(c: byte, rest: Text)
    requires c < 0x80
    ensures LoadString(Print(TokenOf(c)) + rest) == Put(c, LoadString(rest))
    ensures forall i :: 0 <= i < |Print(TokenOf(c))| ==> Print(TokenOf(c))[i] < 0x80
  {
    var t := Print(TokenOf(c)) + rest;
    match TokenOf(c)
    case Plain(_) => assert t[1..] == rest;
    case Short(e) =>
      assert t[2..] == rest;
    case Unicode(h3, h2, h1, h0) =>
      assert t[2..6] == [h3, h2, h1, h0] && t[6..] == rest;
  }

  lemma EscapeHead(src: seq<byte>)
    requires src != []
    ensures Escape(src) == Print(TokenOf(src[0])) + Escape(src[1..])
  {
    hide TokenOf, Print;
    assert Tokens(src)[0] == TokenOf(src[0]) && Tokens(src)[1..] == Tokens(src[1..]);
  }

  /** Bytes from 0x80 on are not escaped. */
  lemma {:induction false} EscapeHigh(src: seq<byte>, n: nat)
    requires n <= |src| && forall i :: 0 <= i < n ==> src[i] >= 0x80
    ensures Escape(src) == src[..n] + Escape(src[n..])
    decreases n
  {
    hide Escape, TokenOf, Print;
    if n == 0 {
      assert src[n..] == src;
    } else {
      EscapeHead(src);
      HighIsPlain(src[0]);
      EscapeHigh(src[1..], n - 1);
      assert src[1..][n - 1..] == src[n..];
      assert src[..n] == [src[0]] + src[1..][..n - 1];
    }
  }

  lemma HighIsPlain(c: byte)
    requires c >= 0x80
    ensures Print(TokenOf(c)) == [c]
  {
  }

  /** A unit stays a unit when what follows it begins with the same byte or an ASCII one. */
  lemma UnitStays(src: seq<byte>, next: seq<byte>)
    requires src != [] && src[0] >= 0x80 && next != []
    requires next[0] < 0x80 || (UnitLen(src) < |src| && next[0] == src[UnitLen(src)])
    ensures var n := UnitLen(src);
            && (forall i :: 0 <= i < n ==> src[i] >= 0x80)
            && UnitLen(src[..n] + next) == n && UnitChar(src[..n] + next) == UnitChar(src)
  {
    var n := UnitLen(src);
    var s := src[..n] + next;
    assert forall i :: 0 <= i < n ==> s[i] == src[i];
    assert s[n] == next[0];
  }

  /** Decoding an escaped frame and loading the string gives what decoding the source would have given: the
      escapes are ASCII and stand between the units. */
  lemma {:induction false} LoadOfEscaped(src: seq<byte>, more: seq<byte>)
    ensures LoadString(Decode(Escape(src) + ([QUOTE] + more))) == Some((Decode(src), Decode(more)))
    decreases |src|
  {
    hide LoadString, UnitLen, UnitChar, TokenOf, Print;
    var tail := [QUOTE] + more;
    if src == [] {
      EscapeOfNothing();
      assert Escape(src) + tail == tail;
      DecodeAscii([QUOTE], more);
      LoadEnd(Decode(more));
      EmptyDecodes();
    } else if src[0] < 0x80 {
      var p, rest := Print(TokenOf(src[0])), Escape(src[1..]) + tail;
      EscapeHead(src);
      assert Escape(src) + tail == p + rest;
      LoadToken(src[0], Decode(rest));
      DecodeAscii(p, rest);
      DecodeAscii([src[0]], src[1..]);
      assert [src[0]] + src[1..] == src;
      LoadOfEscaped(src[1..], more);
    } else {
      var n := UnitLen(src);
      var rest := Escape(src[n..]) + tail;
      NextByte(src, n, tail);
      UnitStays(src, rest);
      EscapeHigh(src, n);
      var s := src[..n] + rest;
      assert Escape(src) + tail == s && s[n..] == rest;
      LoadPlain(UnitChar(src), Decode(rest));
      LoadOfEscaped(src[n..], more);
    }
  }

  lemma LoadEnd(rest: Text)
    ensures LoadString([QUOTE] + rest) == Some(([], rest))
  {
    assert ([QUOTE] + rest)[1..] == rest;
  }

  lemma LoadPlain(c: Char, rest: Text)
    requires c >= 0x80
    ensures LoadString([c] + rest) == Put(c, LoadString(rest))
  {
    assert ([c] + rest)[1..] == rest;
  }

  /** What follows a unit in the frame begins with the byte that followed it in the source, or with ASCII. */
  lemma NextByte(src: seq<byte>, n: nat, tail: seq<byte>)
    requires n <= |src| && tail != [] && tail[0] < 0x80
    ensures var rest := Escape(src[n..]) + tail;
            rest != [] && (rest[0] < 0x80 || (n < |src| && rest[0] == src[n]))
  {
    if n < |src| {
      EscapeHead(src[n..]);
    } else {
      EscapeOfNothing();
      assert src[n..] == [];
    }
  }

  /** What read() returns for a line in the layout of the daemon's data frames; it is None for any other. */
  function ReadLine(line: seq<byte>): Option<Text> {
    var text := Decode(line);
    var k := |COMPACT_PREFIX|;
    if |text| < k || text[..k] != COMPACT_PREFIX then None
    else
      var loaded := LoadString(text[k..]);
      if loaded.Some? && loaded.value.1 == [Ch('}'), NEWLINE] then Some(loaded.value.0) else None
  }

  lemma PrefixIsAscii()
    ensures forall i :: 0 <= i < |COMPACT_PREFIX| ==> COMPACT_PREFIX[i] < 0x80
  {
  }

  /** A frame of the daemon is read as its source, decoded on its own. */
  lemma FrameIsRead(src: seq<byte>)
    ensures ReadLine(Frame(src)) == Some(Decode(src))
  {
    hide Decode, LoadString;
    var more := [Ch('}'), NEWLINE];
    var body := Escape(src) + ([QUOTE] + more);
    assert Frame(src) == COMPACT_PREFIX + body;
    PrefixIsAscii();
    DecodeAscii(COMPACT_PREFIX, body);
    var text := Decode(Frame(src));
    assert text[..|COMPACT_PREFIX|] == COMPACT_PREFIX && text[|COMPACT_PREFIX|..] == Decode(body);
    DecodeAscii(more, []);
    assert more + [] == more;
    EmptyDecodes();
    assert more + Decode([]) == more;
    LoadOfEscaped(src, more);
  }

  // ---------- a whole connection ----------

  lemma {:induction false} DecodeEachExtends(pieces: seq<seq<byte>>, piece: seq<byte>)
    ensures DecodeEach(pieces + [piece]) == DecodeEach(pieces) + Decode(piece)
    decreases |pieces|
  {
    hide Decode;
    if pieces == [] {
      assert pieces + [piece] == [piece] && [piece][1..] == [] && DecodeEach([]) == [];
    } else {
      assert (pieces + [piece])[0] == pieces[0] && (pieces + [piece])[1..] == pieces[1..] + [piece];
      DecodeEachExtends(pieces[1..], piece);
    }
  }

  lemma {:induction false} PartsExtend(blocks: seq<seq<byte>>, block: seq<byte>)
    ensures TakenParts(blocks + [block]) == TakenParts(blocks) + [TakenPart(block)]
    decreases |blocks|
  {
    hide TakenPart;
    if blocks == [] {
      assert blocks + [block] == [block] && [block][1..] == [];
    } else {
      assert (blocks + [block])[0] == blocks[0] && (blocks + [block])[1..] == blocks[1..] + [block];
      PartsExtend(blocks[1..], block);
    }
  }

  /** The first line of what the daemon sent is its first frame. */
  lemma FirstFrame(blocks: seq<seq<byte>>)
    requires blocks != [] && blocks[0] != []
    ensures var end := StrChr(Sent(blocks), NEWLINE, 0) + 1;
            && 0 < end <= |Sent(blocks)|
            && Sent(blocks)[..end] == Frame(TakenPart(blocks[0])) && Sent(blocks)[end..] == Sent(blocks[1..])
  {
    hide Frame, TakenPart;
    FrameLineIsLine(blocks[0]);
    LineFirst(FrameLine(TakenPart(blocks[0])), Sent(blocks[1..]));
  }

  /** pump_output over what one daemon sends for its PTY reads: everything read, in order. */
  method PumpOutput(stream: seq<byte>, ghost blocks: seq<seq<byte>>) returns (heard: Text)
    requires [] !in blocks && stream == Sent(blocks)
    ensures heard == DecodeEach(TakenParts(blocks))
  {
    hide Frame, TakenPart, TakenParts, DecodeEach, StrChr, Decode, ReadLine, Sent;
    heard := [];
    var rest := stream;
    ghost var i := 0;
    Nothing(blocks);
    while rest != []
      invariant 0 <= i <= |blocks| && rest == Sent(blocks[i..])
      invariant heard == DecodeEach(TakenParts(blocks[..i]))
      decreases |blocks| - i
    {
      NotAllSent(blocks[i..]);
      FirstFrame(blocks[i..]);
      FrameIsRead(TakenPart(blocks[i]));
      PartsExtend(blocks[..i], blocks[i]);
      DecodeEachExtends(TakenParts(blocks[..i]), TakenPart(blocks[i]));
      assert blocks[..i + 1] == blocks[..i] + [blocks[i]] && blocks[i..][1..] == blocks[i + 1..];
      var end := StrChr(rest, NEWLINE, 0) + 1;
      var data := ReadLine(rest[..end]);
      if data.Some? {
        heard := heard + data.value;
      }
      rest := rest[end..];
      i := i + 1;
    }
    NotAllSent(blocks[i..]);
    assert blocks[..|blocks|] == blocks;
  }

  lemma Nothing(blocks: seq<seq<byte>>)
    ensures DecodeEach(TakenParts(blocks[..0])) == [] && blocks[0..] == blocks
  {
  }

  lemma NotAllSent(blocks: seq<seq<byte>>)
    requires [] !in blocks
    ensures Sent(blocks) == [] <==> blocks == []
  {
  }

  /** If every read fits its frame, the client reads what the whole PTY output decodes to exactly when no
      character is cut by the end of a read; each cut makes it read more characters than there are. */
  lemma OutputReadIff(blocks: seq<seq<byte>>)
    requires AllFit(blocks)
    ensures DecodeEach(TakenParts(blocks)) == Decode(Concat(blocks)) <==> NoCharacterCut(blocks)
    ensures NoCharacterCut(blocks) || |DecodeEach(TakenParts(blocks))| > |Decode(Concat(blocks))|
  {
    PartsShorter(blocks);
    DecodeEachIff(blocks);
  }

  // ---------- a program that prints text ----------

  /** Text that has UTF-8: no surrogates. */
  predicate IsUnicode(text: Text) {
    forall i :: 0 <= i < |text| ==> !High(text[i]) && !Low(text[i])
  }

  /** The two, three and four bytes of a character past ASCII. */
  lemma UnitOfTwo(c: Char, s: seq<byte>)
    requires 0x80 <= c < 0x800 && |s| >= 2 && s[0] == 0xC0 + c / 64 && s[1] == 0x80 + c % 64
    ensures UnitLen(s) == 2 && UnitChar(s) == c
  {
  }

  lemma UnitOfThree(c: Char, s: seq<byte>)
    requires 0x800 <= c < 0x10000 && !High(c) && !Low(c) && |s| >= 3
    requires s[0] == 0xE0 + c / 4096 && s[1] == 0x80 + c / 64 % 64 && s[2] == 0x80 + c % 64
    ensures UnitLen(s) == 3 && UnitChar(s) == c
  {
    Digits(c / 64);
    Digits(c);
    assert c / 4096 == c / 64 / 64;
  }

  lemma UnitOfFour(c: Char, s: seq<byte>)
    requires c >= 0x10000 && |s| >= 4
    requires s[0] == 0xF0 + c / 262144 && s[1] == 0x80 + c / 4096 % 64
      && s[2] == 0x80 + c / 64 % 64 && s[3] == 0x80 + c % 64
    ensures UnitLen(s) == 4 && UnitChar(s) == c
  {
    Digits(c / 4096);
    Digits(c / 64);
    Digits(c);
    assert c / 4096 == c / 64 / 64 && c / 262144 == c / 4096 / 64;
  }

  lemma Digits(n: nat)
    ensures n == n / 64 * 64 + n % 64 && 0 <= n % 64 < 64
  {
  }

  lemma UnitOfChar(c: Char, rest: seq<byte>)
    requires !High(c) && !Low(c)
    ensures UnitLen(Utf8(c) + rest) == |Utf8(c)| >= 1 && UnitChar(Utf8(c) + rest) == c
  {
    hide UnitLen, UnitChar, High, Low;
    var s := Utf8(c) + rest;
    if c < 0x80 {
      UnitOfOne(s);
    } else if c < 0x800 {
      UnitOfTwo(c, s);
    } else if c < 0x10000 {
      UnitOfThree(c, s);
    } else {
      UnitOfFour(c, s);
    }
  }

  lemma UnitOfOne(s: seq<byte>)
    requires s != [] && s[0] < 0x80
    ensures UnitLen(s) == 1 && UnitChar(s) == s[0]
  {
  }

  /** What UTF-8 writes, the decoder reads. */
  lemma {:induction false} DecodeOfText(text: Text)
    requires IsUnicode(text)
    ensures Decode(Utf8Of(text)) == text
    decreases |text|
  {
    if text != [] {
      hide UnitLen, UnitChar, Utf8;
      var c, rest := text[0], Utf8Of(text[1..]);
      UnitOfChar(c, rest);
      assert (Utf8(c) + rest)[|Utf8(c)|..] == rest;
      DecodeOfText(text[1..]);
    }
  }

  /** The first n bytes are those of the first k characters, for some k. */
  predicate EndsCharacter(text: Text, n: nat) {
    exists k :: 0 <= k <= |text| && n == |Utf8Of(text[..k])|
  }

  /** Its boundaries are the ends of its characters. */
  lemma {:induction false} BoundaryOfText(text: Text, n: nat)
    requires IsUnicode(text) && n <= |Utf8Of(text)|
    ensures Boundary(Utf8Of(text), n) <==> EndsCharacter(text, n)
    decreases |text|
  {
    hide UnitLen, Utf8;
    assert text[..0] == [];
    if n > 0 {
      var c, rest := text[0], Utf8Of(text[1..]);
      var m := |Utf8(c)|;
      UnitOfChar(c, rest);
      assert (Utf8(c) + rest)[m..] == rest;
      forall k | 1 <= k <= |text|
        ensures |Utf8Of(text[..k])| == m + |Utf8Of(text[1..][..k - 1])|
      {
        assert text[..k][1..] == text[1..][..k - 1];
      }
      if n >= m {
        BoundaryOfText(text[1..], n - m);
        if j: int :| 0 <= j <= |text[1..]| && n - m == |Utf8Of(text[1..][..j])| {
          assert n == |Utf8Of(text[..j + 1])|;
        }
      }
    }
  }

  /** Every read ends at the end of a character. */
  predicate ReadsEndCharacters(text: Text, blocks: seq<seq<byte>>) {
    forall i :: 0 <= i <= |blocks| ==> EndsCharacter(text, EndOf(blocks, i))
  }

  lemma CutIffInsideCharacter(text: Text, blocks: seq<seq<byte>>)
    requires IsUnicode(text) && Concat(blocks) == Utf8Of(text)
    ensures NoCharacterCut(blocks) <==> ReadsEndCharacters(text, blocks)
  {
    hide Boundary, EndsCharacter, Concat, Utf8Of, EndOf, IsUnicode;
    forall i | 0 <= i <= |blocks|
      ensures Boundary(Concat(blocks), EndOf(blocks, i)) <==> EndsCharacter(text, EndOf(blocks, i))
    {
      BoundaryOfText(text, EndOf(blocks, i));
    }
  }

  lemma CharOfTwo(s: seq<byte>)
    requires s != [] && UnitLen(s) == Need(s[0]) == 2
    ensures Utf8(UnitChar(s)) == s[..2]
  {
    QuotientOf(s[0] as int - 0xC0, s[1] as int - 0x80);
  }

  lemma CharOfThree(s: seq<byte>)
    requires s != [] && UnitLen(s) == Need(s[0]) == 3
    ensures !High(UnitChar(s)) && !Low(UnitChar(s)) && Utf8(UnitChar(s)) == s[..3]
  {
    var top := s[0] as int - 0xE0;
    QuotientOf(top, s[1] as int - 0x80);
    QuotientOf(top * 64 + s[1] as int - 0x80, s[2] as int - 0x80);
    assert UnitChar(s) / 4096 == UnitChar(s) / 64 / 64;
  }

  lemma CharOfFour(s: seq<byte>)
    requires s != [] && UnitLen(s) == Need(s[0]) == 4
    ensures !High(UnitChar(s)) && !Low(UnitChar(s)) && Utf8(UnitChar(s)) == s[..4]
  {
    var c, top := UnitChar(s), s[0] as int - 0xF0;
    QuotientOf(top, s[1] as int - 0x80);
    QuotientOf(top * 64 + s[1] as int - 0x80, s[2] as int - 0x80);
    QuotientOf((top * 64 + s[1] as int - 0x80) * 64 + s[2] as int - 0x80, s[3] as int - 0x80);
    assert c / 4096 == c / 64 / 64 && c / 262144 == c / 4096 / 64;
  }

  lemma QuotientOf(q: nat, r: nat)
    requires r < 64
    ensures (q * 64 + r) / 64 == q && (q * 64 + r) % 64 == r
  {
  }

  /** A complete unit is the UTF-8 of its character. */
  lemma CharOfUnit(s: seq<byte>)
    requires s != [] && UnitLen(s) == Need(s[0])
    ensures !High(UnitChar(s)) && !Low(UnitChar(s)) && Utf8(UnitChar(s)) == s[..UnitLen(s)]
  {
    if UnitLen(s) == 2 {
      CharOfTwo(s);
    } else if UnitLen(s) == 3 {
      CharOfThree(s);
    } else if UnitLen(s) == 4 {
      CharOfFour(s);
    }
  }

  /** The inverse of DecodeOfText: bytes that decode without a replacement character are the UTF-8 of what
      they decode to. */
  lemma {:induction false} TextOfDecoded(s: seq<byte>)
    requires REPLACEMENT !in Decode(s)
    ensures IsUnicode(Decode(s)) && Utf8Of(Decode(s)) == s
    decreases |s|
  {
    hide UnitLen, UnitChar, Decode, Utf8, High, Low;
    EmptyDecodes();
    if s != [] {
      var n := UnitLen(s);
      DecodeStep(s);
      NotReplaced(s);
      assert Decode(s)[0] == UnitChar(s) && Decode(s)[1..] == Decode(s[n..]);
      CharOfUnit(s);
      TextOfDecoded(s[n..]);
      assert s == s[..n] + s[n..];
    }
  }

  /** The bytes of a character begin with these. */
  predicate Begins(c: Char, s: seq<byte>) {
    !High(c) && !Low(c) && s <= Utf8(c)
  }

  ghost predicate NoneBegins(s: seq<byte>) {
    forall c :: !Begins(c, s)
  }

  lemma UnitCompletes(s: seq<byte>) returns (c: Char)
    requires s != [] && 1 < UnitLen(s) != Need(s[0])
    ensures Begins(c, s[..UnitLen(s)])
  {
    var n := UnitLen(s);
    var pad: seq<byte> := if Need(s[0]) - n == 1 then [0x80] else [0x80, 0x80];
    var whole := s[..n] + pad;
    assert whole[..n] == s[..n];
    c := UnitChar(whole);
    CharOfUnit(whole);
    assert whole[..UnitLen(whole)] == whole;
  }

  /** A character that begins with what the decoder took, and goes on with the byte behind it, does not exist. */
  lemma NothingLonger(s: seq<byte>, c: Char)
    requires s != [] && UnitLen(s) < |s| && UnitLen(s) != Need(s[0])
    ensures !Begins(c, s[..UnitLen(s) + 1])
  {
    var n := UnitLen(s);
    if Begins(c, s[..n + 1]) {
      var u := Utf8(c);
      UnitOfChar(c, []);
      assert u + [] == u;
      forall k | 0 <= k <= n
        ensures s[k] == u[k]
      {
        assert s[..n + 1][k] == u[k];
      }
      UnitOfSame(s, u);
    }
  }

  /** How long a unit is shows in its bytes and the one behind them. */
  lemma UnitOfSame(s: seq<byte>, u: seq<byte>)
    requires s != [] && UnitLen(s) < |s| && UnitLen(s) < |u|
    requires forall k :: 0 <= k <= UnitLen(s) ==> s[k] == u[k]
    ensures UnitLen(u) == UnitLen(s)
  {
  }

  /** Section 3.9 of the Unicode Standard, substitution of maximal subparts: the decoder takes a whole character,
      or replaces by one character the longest piece that a character could begin with, or a single byte. */
  lemma UnitIsMaximalSubpart(s: seq<byte>)
    requires s != []
    ensures var n := UnitLen(s);
            || (Begins(UnitChar(s), s[..n]) && Utf8(UnitChar(s)) == s[..n])
            || (&& UnitChar(s) == REPLACEMENT && (n == 1 || exists c :: Begins(c, s[..n]))
                && (n < |s| ==> NoneBegins(s[..n + 1])))
  {
    hide UnitLen, UnitChar, Begins;
    NotReplaced(s);
    if UnitLen(s) == Need(s[0]) {
      CharOfUnit(s);
      assert Begins(UnitChar(s), s[..UnitLen(s)]) by {
        BeginsWithItself(UnitChar(s));
      }
    } else {
      ReplacedIfCut(s);
      if UnitLen(s) > 1 {
        var c := UnitCompletes(s);
      }
      if UnitLen(s) < |s| {
        var longer := s[..UnitLen(s) + 1];
        forall c: Char
          ensures !Begins(c, longer)
        {
          NothingLonger(s, c);
        }
      }
    }
  }

  lemma BeginsWithItself(c: Char)
    requires !High(c) && !Low(c)
    ensures Begins(c, Utf8(c))
  {
  }

  lemma ReplacedIfCut(s: seq<byte>)
    requires s != [] && UnitLen(s) != Need(s[0])
    ensures UnitChar(s) == REPLACEMENT
  {
  }

  lemma NotReplaced(s: seq<byte>)
    requires s != []
    ensures UnitChar(s) == REPLACEMENT || UnitLen(s) == Need(s[0])
  {
  }

  /** After bytes that decode without a replacement character nothing is left hanging. */
  lemma {:induction false} CleanEndsAtBoundary(a: seq<byte>, b: seq<byte>)
    requires REPLACEMENT !in Decode(a)
    ensures Boundary(a + b, |a|)
    decreases |a|
  {
    hide UnitLen, UnitChar, Decode, Boundary;
    AtStart(a + b);
    if a != [] {
      var s := a + b;
      UnitOfPrefix(a, b);
      DecodeStep(a);
      DecodeStep(s);
      var n := UnitLen(a);
      assert UnitChar(a) == Decode(a)[0];
      assert Decode(a[n..]) == Decode(a)[1..];
      assert s[n..] == a[n..] + b;
      CleanEndsAtBoundary(a[n..], b);
    }
  }

  lemma {:induction false} CleanPiecesAreNotCut(pieces: seq<seq<byte>>)
    requires REPLACEMENT !in DecodeEach(pieces)
    ensures NoCharacterCut(pieces)
    decreases |pieces|
  {
    if pieces == [] {
      AtStart([]);
    } else {
      hide Boundary, Decode, NoCharacterCut;
      FirstPieceCut(pieces);
      CleanEndsAtBoundary(pieces[0], Concat(pieces[1..]));
      CleanPiecesAreNotCut(pieces[1..]);
    }
  }

  /** A program prints a text and the kernel hands its UTF-8 to the daemon in reads of any sizes: the browser
      gets the text exactly when every read fits its frame and ends at the end of a character. (A text that
      holds the replacement character itself could make up for lost ones.) */
  lemma TextArrivesIff(text: Text, blocks: seq<seq<byte>>)
    requires IsUnicode(text) && REPLACEMENT !in text && Concat(blocks) == Utf8Of(text)
    ensures DecodeEach(TakenParts(blocks)) == text <==> AllFit(blocks) && ReadsEndCharacters(text, blocks)
  {
    hide NoCharacterCut, ReadsEndCharacters, Decode, DecodeEach, TakenParts, Utf8Of, Concat, AllFit, IsUnicode;
    var parts := TakenParts(blocks);
    DecodeOfText(text);
    CutIffInsideCharacter(text, blocks);
    PartsShorter(blocks);
    if AllFit(blocks) {
      OutputReadIff(blocks);
    } else if DecodeEach(parts) == text {
      CleanPiecesAreNotCut(parts);
      DecodeEachIff(parts);
      TextOfDecoded(Concat(parts));
    }
  }

  /** The euro sign, split after its first byte by two reads, arrives as three replacement characters. */
  lemma EuroSignIsLost()
    ensures Utf8Of([0x20AC]) == [0xE2, 0x82, 0xAC]
    ensures DecodeEach([[0xE2], [0x82, 0xAC]]) == [REPLACEMENT, REPLACEMENT, REPLACEMENT]
  {
    assert [0x20AC][1..] == [];
    assert [0x82, 0xAC][1..] == [0xAC] && [0xAC][1..] == [] && [0xE2][1..] == [];
    assert [[0xE2], [0x82, 0xAC]][1..] == [[0x82, 0xAC]] && [[0x82, 0xAC]][1..] == [];
  }
}
