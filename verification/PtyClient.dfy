/** The other client of the wire: `CNativeBackend.write` sends each piece of typed text as one line of
    json.dumps output, and the daemon types it into the PTY. */
module PtyClient {
  import opened Bytes
  import opened Options
  import opened PtyEscaping
  import opened PtyPayload
  import opened PtyRelay

  /** An element of a Python str: any code point, surrogates included. */
  type Char = c: nat | c < 0x110000

  type Text = seq<Char>

  predicate High(c: Char) {
    0xD800 <= c < 0xDC00
  }

  predicate Low(c: Char) {
    0xDC00 <= c < 0xE000
  }

  /** The UTF-8 bytes of a text. A lone surrogate has none; its three-byte form stands in. */
  function Utf8Of(text: Text): seq<byte> {
    if text == [] then [] else Utf8(text[0]) + Utf8Of(text[1..])
  }

  // ---------- json.dumps ----------

  /** The four lower-case hexadecimal digits of u. */
  function Hex4(u: nat): (t: Token)
    requires u < 0x10000
    ensures t.Unicode? && ValidToken(t) && CodeUnit(t) == u
  {
    var q1 := u / 16;
    var q2 := q1 / 16;
    Unicode(HexDigit(q2 / 16), HexDigit(q2 % 16), HexDigit(q1 % 16), HexDigit(u % 16))
  }

  /** One character: printable ASCII as it is, the short escapes, \uXXXX, and a surrogate pair past 0xFFFF. */
  function Dump(c: Char): (ts: seq<Token>)
    ensures ts != [] && ValidBody(ts)
  {
    if c == QUOTE || c == BACKSLASH then [Short(c)]
    else if c == NEWLINE then [Short(Ch('n'))]
    else if c == CARRIAGE_RETURN then [Short(Ch('r'))]
    else if c == TAB then [Short(Ch('t'))]
    else if c == FORM_FEED then [Short(Ch('f'))]
    else if c == BACKSPACE then [Short(Ch('b'))]
    else if 0x20 <= c < 0x7F then [Plain(c)]
    else if c < 0x10000 then [Hex4(c)]
    else [Hex4(0xD800 + (c - 0x10000) / 1024), Hex4(0xDC00 + (c - 0x10000) % 1024)]
  }

  function DumpAll(text: Text): (ts: seq<Token>)
    ensures ValidBody(ts) && (ts == [] <==> text == [])
  {
    if text == [] then [] else Dump(text[0]) + DumpAll(text[1..])
  }

  predicate IsAscii(text: Text) {
    forall i :: 0 <= i < |text| ==> text[i] < 0x80
  }

  lemma DumpOfBmp(c: Char)
    requires c < 0x10000
    ensures |Dump(c)| == 1 && TokenMeaning(Dump(c)[0]) == Utf8(c)
    ensures Wide(Dump(c)[0]) <==> c >= 0x80
    ensures Dump(c)[0].Unicode? ==> CodeUnit(Dump(c)[0]) == c
    ensures !Dump(c)[0].Unicode? ==> c < 0x80
  {
    hide HexDigit, CodeUnit;
  }

  lemma DumpOfPair(c: Char)
    requires c >= 0x10000
    ensures |Dump(c)| == 2 && IsSurrogatePair(Dump(c)) && Wide(Dump(c)[0]) && Wide(Dump(c)[1])
    ensures c == 0x10000 + (CodeUnit(Dump(c)[0]) - 0xD800) * 1024 + (CodeUnit(Dump(c)[1]) - 0xDC00)
  {
  }

  predicate StartsLow(ts: seq<Token>)
    requires ValidBody(ts)
  {
    ts != [] && ts[0].Unicode? && 0xDC00 <= CodeUnit(ts[0]) < 0xE000
  }

  /** Put in front of a body, the escape of a character adds that character to the meaning, unless it is a
      high surrogate and the body starts with a low one. */
  lemma DumpOne(c: Char, rest: seq<Token>)
    requires ValidBody(rest) && !(High(c) && StartsLow(rest))
    ensures Meaning(Dump(c) + rest) == Utf8(c) + Meaning(rest)
  {
    hide Dump, Utf8, CodeUnit, TokenMeaning, Wide, ValidToken;
    var ts := Dump(c) + rest;
    assert ts[0] == Dump(c)[0];
    if c < 0x10000 {
      DumpOfBmp(c);
      assert ts[1..] == rest;
      assert !IsSurrogatePair(ts);
    } else {
      DumpOfPair(c);
      assert ts[1] == Dump(c)[1] && ts[2..] == rest;
      assert IsSurrogatePair(ts);
    }
  }

  lemma Utf8Sizes(cp: nat)
    requires cp < 0x110000
    ensures 0x800 <= cp < 0x10000 ==> |Utf8(cp)| == 3
    ensures cp >= 0x10000 ==> |Utf8(cp)| == 4
  {
  }

  /** Two escaped surrogates read as one character. */
  lemma DumpTwo(high: Char, low: Char, rest: seq<Token>)
    requires ValidBody(rest) && High(high) && Low(low)
    ensures |Meaning(Dump(high) + (Dump(low) + rest))| == 4 + |Meaning(rest)|
    ensures |Utf8(high)| == 3 && |Utf8(low)| == 3
  {
    hide Dump, Utf8, CodeUnit, TokenMeaning, Wide, ValidToken;
    DumpOfBmp(high);
    DumpOfBmp(low);
    Utf8Sizes(high);
    Utf8Sizes(low);
    var ts := Dump(high) + (Dump(low) + rest);
    assert ts[0] == Dump(high)[0] && ts[1] == Dump(low)[0] && ts[2..] == rest;
    Utf8Sizes(0x10000 + (high - 0xD800) * 1024 + (low - 0xDC00));
  }

  lemma DumpStartsLow(text: Text)
    ensures StartsLow(DumpAll(text)) <==> text != [] && Low(text[0])
  {
    if text != [] {
      if text[0] < 0x10000 {
        DumpOfBmp(text[0]);
      } else {
        DumpOfPair(text[0]);
      }
      hide Dump, CodeUnit, Wide, TokenMeaning, ValidToken;
      assert DumpAll(text)[0] == Dump(text[0])[0];
    }
  }

  /** A high surrogate directly followed by a low one: two characters to Python, one to JSON. */
  predicate HasSplitPair(text: Text) {
    exists i :: 0 <= i < |text| - 1 && High(text[i]) && Low(text[i + 1])
  }

  lemma SplitPairLater(text: Text)
    requires text != []
    ensures HasSplitPair(text) <==> (|text| > 1 && High(text[0]) && Low(text[1])) || HasSplitPair(text[1..])
  {
    if HasSplitPair(text[1..]) {
      var i :| 0 <= i < |text[1..]| - 1 && High(text[1..][i]) && Low(text[1..][i + 1]);
      assert High(text[i + 1]) && Low(text[i + 2]);
    }
    if i :| 1 <= i < |text| - 1 && High(text[i]) && Low(text[i + 1]) {
      assert High(text[1..][i - 1]) && Low(text[1..][i]);
    }
  }

  /** Under the standard's own reading json.dumps is faithful exactly for text without split pairs; with one,
      less is read than was written. */
  lemma {:induction false} DumpMeansTextIff(text: Text)
    ensures Meaning(DumpAll(text)) == Utf8Of(text) <==> !HasSplitPair(text)
    ensures |Meaning(DumpAll(text))| <= |Utf8Of(text)|
    ensures HasSplitPair(text) ==> |Meaning(DumpAll(text))| < |Utf8Of(text)|
    decreases |text|
  {
    hide Dump, Utf8, High, Low, Meaning, StartsLow;
    if text == [] {
      assert Meaning([]) == [] by {
        NoMeaning();
      }
    } else if |text| > 1 && High(text[0]) && Low(text[1]) {
      DumpMeansTextIff(text[2..]);
      DumpTwo(text[0], text[1], DumpAll(text[2..]));
      assert text[1..][1..] == text[2..];
      assert DumpAll(text) == Dump(text[0]) + (Dump(text[1]) + DumpAll(text[2..]));
      assert HasSplitPair(text);
    } else {
      DumpStartsLow(text[1..]);
      DumpMeansTextIff(text[1..]);
      DumpOne(text[0], DumpAll(text[1..]));
      SplitPairLater(text);
    }
  }

  lemma NoMeaning()
    ensures Meaning([]) == []
  {
  }

  // ---------- from the keyboard to the PTY ----------

  /** json.dumps({"type": "data", "data": text}) */
  function ClientLine(text: Text): seq<byte> {
    Line(SPACED_PREFIX, DumpAll(text))
  }

  /** What the daemon writes to the PTY for a piece of typed text. */
  function Received(text: Text): seq<byte> {
    Written(AsList(Process(ClientLine(text))))
  }

  /** Text the daemon can be given: some, and only ASCII. */
  predicate Deliverable(text: Text) {
    text != [] && IsAscii(text)
  }

  lemma DaemonOfOne(c: Char)
    ensures if c < 0x80 then DaemonMeaning(Dump(c)) == [c] == Utf8(c) else |DaemonMeaning(Dump(c))| > |Utf8(c)|
  {
    if c < 0x10000 {
      DumpOfBmp(c);
    } else {
      DumpOfPair(c);
    }
    hide CodeUnit, Wide;
    assert Dump(c)[1..] == if c < 0x10000 then [] else [Dump(c)[1]];
    assert [Dump(c)[|Dump(c)| - 1]][1..] == [];
  }

  lemma {:induction false} DaemonMeaningConcat(a: seq<Token>, b: seq<Token>)
    requires ValidBody(a) && ValidBody(b)
    ensures DaemonMeaning(a + b) == DaemonMeaning(a) + DaemonMeaning(b)
    decreases |a|
  {
    hide DaemonToken;
    if a == [] {
      assert a + b == b;
    } else {
      assert (a + b)[0] == a[0] && (a + b)[1..] == a[1..] + b;
      DaemonMeaningConcat(a[1..], b);
    }
  }

  /** What the daemon makes of escaped text is the text exactly when it is ASCII; otherwise it is longer. */
  lemma {:induction false} DaemonAgainstText(text: Text)
    ensures DaemonMeaning(DumpAll(text)) == Utf8Of(text) <==> IsAscii(text)
    ensures |DaemonMeaning(DumpAll(text))| >= |Utf8Of(text)|
    ensures !IsAscii(text) ==> |DaemonMeaning(DumpAll(text))| > |Utf8Of(text)|
    decreases |text|
  {
    if text != [] {
      hide Dump, Utf8, DaemonToken;
      DaemonOfOne(text[0]);
      DaemonAgainstText(text[1..]);
      DaemonMeaningConcat(Dump(text[0]), DumpAll(text[1..]));
      assert text == [text[0]] + text[1..];
    }
  }

  /** A line that reaches the decoder is written as the UTF-8 of its text exactly when that is ASCII and not
      empty; otherwise too much is written. */
  lemma {:induction false} KeystrokesDecodedIff(text: Text)
    ensures Received(text) == Utf8Of(text) <==> Deliverable(text)
    ensures |Received(text)| >= |Utf8Of(text)|
    ensures Received(text) == Utf8Of(text) || |Received(text)| > |Utf8Of(text)|
  {
    hide Process, DaemonMeaning, PrintAll;
    if text == [] {
      EmptyFrame(SPACED_PREFIX);
      WrittenOne(ClientLine(text));
    } else {
      DataLine(SPACED_PREFIX, DumpAll(text));
      WrittenOne(DaemonMeaning(DumpAll(text)));
      DaemonAgainstText(text);
    }
  }

  lemma WrittenOne(bytes: seq<byte>)
    ensures Written(AsList(Some(Write(bytes)))) == bytes
  {
  }

  lemma {:induction false} WrittenAppend(a: seq<Effect>, b: seq<Effect>)
    ensures Written(a + b) == Written(a) + Written(b)
    decreases |a|
  {
    if a == [] {
      assert a + b == b;
    } else {
      assert (a + b)[0] == a[0] && (a + b)[1..] == a[1..] + b;
      WrittenAppend(a[1..], b);
    }
  }

  function ClientLines(texts: seq<Text>): seq<seq<byte>> {
    if texts == [] then [] else [ClientLine(texts[0])] + ClientLines(texts[1..])
  }

  function Typed(texts: seq<Text>): seq<byte> {
    if texts == [] then [] else Utf8Of(texts[0]) + Typed(texts[1..])
  }

  lemma ClientLineIsLine(text: Text)
    ensures IsLine(ClientLine(text)) && ClientLine(text) != []
  {
    LineBytes(SPACED_PREFIX, DumpAll(text));
  }

  lemma {:induction false} ClientLinesAreLines(texts: seq<Text>)
    ensures forall line :: line in ClientLines(texts) ==> IsLine(line)
    ensures NonEmpty(ClientLines(texts)) == ClientLines(texts)
    ensures forall line :: line in ClientLines(texts) <==> exists t :: t in texts && line == ClientLine(t)
    decreases |texts|
  {
    hide ClientLine, IsLine;
    if texts != [] {
      ClientLineIsLine(texts[0]);
      ClientLinesAreLines(texts[1..]);
      assert texts == [texts[0]] + texts[1..];
      assert texts[0] in texts;
    }
  }

  lemma {:induction false} ReceivedAgainstTyped(texts: seq<Text>)
    ensures var got := Written(ProcessAll(ClientLines(texts)));
            && |got| >= |Typed(texts)|
            && (got == Typed(texts) <==> forall t :: t in texts ==> Deliverable(t))
            && (got == Typed(texts) || |got| > |Typed(texts)|)
    decreases |texts|
  {
    hide Process, ClientLine, Deliverable, Utf8Of, Written, Received;
    if texts == [] {
      assert Written([]) == [] by {
        EmptyWritten();
      }
    } else {
      KeystrokesDecodedIff(texts[0]);
      ReceivedAgainstTyped(texts[1..]);
      WrittenAppend(AsList(Process(ClientLine(texts[0]))), ProcessAll(ClientLines(texts[1..])));
      assert ClientLines(texts)[0] == ClientLine(texts[0]) && ClientLines(texts)[1..] == ClientLines(texts[1..]);
      ReceivedIs(texts[0]);
      assert texts == [texts[0]] + texts[1..];
    }
  }

  lemma EmptyWritten()
    ensures Written([]) == []
  {
  }

  lemma ReceivedIs(text: Text)
    ensures Received(text) == Written(AsList(Process(ClientLine(text))))
  {
  }

  /** A line the daemon's buffer can take in. */
  predicate LineFits(text: Text) {
    |ClientLine(text)| < BUFFER_SIZE - 1
  }

  /** If every line is taken in, what is written is what was typed exactly when every piece was ASCII and not
      empty. */
  lemma SessionDecodedIff(texts: seq<Text>)
    ensures var stream := Unlines(ClientLines(texts));
            && (LinesFit(stream, BUFFER_SIZE - 1) <==> forall t :: t in texts ==> LineFits(t))
            && Payloads(stream) == ClientLines(texts) && Partial(stream) == []
            && (Written(ProcessAll(Payloads(stream))) == Typed(texts) <==> forall t :: t in texts ==> Deliverable(t))
  {
    hide ClientLine, Deliverable, Process, LinesFit, ProcessAll, Written;
    var lines := ClientLines(texts);
    ClientLinesAreLines(texts);
    LinesFitIff(lines, BUFFER_SIZE - 1);
    PayloadsAreTheLines(lines, []);
    assert Unlines(lines) + [] == Unlines(lines);
    ReceivedAgainstTyped(texts);
  }

  // ---------- a session over the relay ----------

  /** The writes of a session in which every piece arrives: one for each, its UTF-8. */
  function TypedWrites(texts: seq<Text>): (r: seq<Effect>)
    ensures |r| == |texts|
  {
    if texts == [] then [] else [Write(Utf8Of(texts[0]))] + TypedWrites(texts[1..])
  }

  lemma ClientLineWrites(text: Text)
    ensures Process(ClientLine(text)) == Some(Write(Received(text)))
  {
    hide Process, DaemonMeaning, PrintAll;
    if text == [] {
      EmptyFrame(SPACED_PREFIX);
    } else {
      DataLine(SPACED_PREFIX, DumpAll(text));
    }
    WrittenOne(Process(ClientLine(text)).value.bytes);
  }

  lemma {:induction false} EachIsTypedIff(texts: seq<Text>)
    ensures ProcessAll(ClientLines(texts)) == TypedWrites(texts) <==> forall t :: t in texts ==> Deliverable(t)
    ensures |ProcessAll(ClientLines(texts))| == |texts|
    decreases |texts|
  {
    hide Process, ClientLine, Deliverable, Utf8Of, Received;
    if texts != [] {
      ClientLineWrites(texts[0]);
      KeystrokesDecodedIff(texts[0]);
      EachIsTypedIff(texts[1..]);
      assert ClientLines(texts)[0] == ClientLine(texts[0]) && ClientLines(texts)[1..] == ClientLines(texts[1..]);
      assert texts == [texts[0]] + texts[1..];
      var got, rest := ProcessAll(ClientLines(texts)), ProcessAll(ClientLines(texts[1..]));
      assert got == [Write(Received(texts[0]))] + rest;
      assert got[1..] == rest && TypedWrites(texts)[1..] == TypedWrites(texts[1..]);
    }
  }

  lemma {:induction false} AtMostOneEffect(payloads: seq<seq<byte>>)
    ensures |ProcessAll(payloads)| <= |payloads|
    decreases |payloads|
  {
    hide Process;
    if payloads != [] {
      AtMostOneEffect(payloads[1..]);
    }
  }

  /** A stream of lines that is not taken in completely misses at least its last line. */
  lemma {:induction false} CutShortMisses(lines: seq<seq<byte>>, n: nat)
    requires (forall line :: line in lines ==> IsLine(line)) && n < |Unlines(lines)|
    ensures |Payloads(Unlines(lines)[..n])| < |lines|
    decreases |lines|
  {
    var line, tail := lines[0], Unlines(lines[1..]);
    var stream := Unlines(lines);
    if n <= |line| {
      assert stream[..n] == line[..n];
      assert line in lines && forall k :: 0 <= k < n ==> line[..n][k] in line;
      NoNewlineFound(line[..n]);
    } else {
      var m := n - |line| - 1;
      assert stream[..n] == line + [NEWLINE] + tail[..m];
      LineFirst(line, tail[..m]);
      assert stream[..n][|line| + 1..] == tail[..m];
      CutShortMisses(lines[1..], m);
    }
  }

  /** A whole connection typing `texts`: whatever the reads, given enough of them, every piece is written as
      its UTF-8 exactly when each is ASCII, not empty and short enough for its line to fit the buffer. A line
      that does not fit ends the connection. */
  method TypeAll(relay: Relay, texts: seq<Text>, sizes: seq<nat>)
    requires relay.Valid() && relay.Pending() == []
    requires |sizes| >= |Unlines(ClientLines(texts))| && forall i :: 0 <= i < |sizes| ==> sizes[i] >= 1
    modifies relay`inLen, relay.inBuf, relay.pty
    ensures relay.Valid()
    ensures relay.pty.effects == old(relay.pty.effects) + TypedWrites(texts)
            <==> forall t :: t in texts ==> Deliverable(t) && LineFits(t)
    ensures (forall t :: t in texts ==> LineFits(t)) ==>
      relay.pty.effects == old(relay.pty.effects) + ProcessAll(ClientLines(texts))
  {
    hide Process, ProcessAll, Payloads, Partial, LineFits, LinesFit, Deliverable, ClientLine;
    var stream := Unlines(ClientLines(texts));
    var consumed := relay.ServeClient(stream, sizes);
    SessionDecodedIff(texts);
    EachIsTypedIff(texts);
    ghost var before, new_ := old(relay.pty.effects), ProcessAll(Payloads(stream[..consumed]));
    assert (before + new_)[|before|..] == new_ && (before + TypedWrites(texts))[|before|..] == TypedWrites(texts);
    if consumed == |stream| {
      assert stream[..consumed] == stream;
    } else {
      ClientLinesAreLines(texts);
      ClientLinesCount(texts);
      CutShortMisses(ClientLines(texts), consumed);
      AtMostOneEffect(Payloads(stream[..consumed]));
    }
  }

  lemma ClientLinesCount(texts: seq<Text>)
    ensures |ClientLines(texts)| == |texts|
  {
  }

  /** Pasting 20000 letters types nothing, though the text is ASCII. */
  lemma LongPasteDoesNotFit()
    ensures var text := seq(20000, i => Ch('a')); Deliverable(text) && !LineFits(text)
  {
    var text := seq(20000, i => Ch('a'));
    DumpAtLeast(text);
    PrintedBytes(DumpAll(text));
  }

  lemma {:induction false} DumpAtLeast(text: Text)
    ensures |DumpAll(text)| >= |text|
    decreases |text|
  {
    hide Dump;
    if text != [] {
      DumpAtLeast(text[1..]);
    }
  }
}
