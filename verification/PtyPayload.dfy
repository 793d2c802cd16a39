/** `parse_and_process_payload`: what the daemon does with one line from its client. */
module PtyPayload {
  import opened Bytes
  import opened Options
  import opened PtyEscaping
  import opened PtyEncoder

  /** What reaches the PTY: bytes on its input, or a window size. */
  datatype Effect = Write(bytes: seq<byte>) | SetSize(cols: nat, rows: nat)

  const RESIZE_COMPACT: seq<byte> := Ascii("\"type\":\"resize\"")
  const RESIZE_SPACED: seq<byte> := Ascii("\"type\": \"resize\"")
  const DATA_COMPACT: seq<byte> := Ascii("\"type\":\"data\"")
  const DATA_SPACED: seq<byte> := Ascii("\"type\": \"data\"")
  const DATA_KEY: seq<byte> := Ascii("\"data\"")
  const COLS_KEY: seq<byte> := Ascii("\"cols\":")
  const ROWS_KEY: seq<byte> := Ascii("\"rows\":")

  /** strstr of the compact spelling, and of the spaced one if that is absent. */
  function FindEither(s: seq<byte>, compact: seq<byte>, spaced: seq<byte>): (r: int)
    ensures r == -1 <==> StrStr(s, compact, 0) == -1 && StrStr(s, spaced, 0) == -1
    ensures r == -1 || 0 <= r <= |s|
  {
    var p := StrStr(s, compact, 0);
    if p != -1 then p else StrStr(s, spaced, 0)
  }

  function DigitRun(s: seq<byte>, i: nat, acc: nat): nat
    requires i <= |s|
    decreases |s| - i
  {
    if i < |s| && 48 <= s[i] <= 57 then DigitRun(s, i + 1, acc * 10 + (s[i] - 48)) else acc
  }

  /** atoi(s + i), for values a C int can hold. */
  function Atoi(s: seq<byte>, i: nat): int
    requires i <= |s|
  {
    var j := SkipSpaces(s, i);
    if j < |s| && s[j] == Ch('-') then 0 - DigitRun(s, j + 1, 0) as int
    else if j < |s| && s[j] == Ch('+') then DigitRun(s, j + 1, 0)
    else DigitRun(s, j, 0)
  }

  /** The number behind a key, or the default when the key is absent. */
  function SizeField(payload: seq<byte>, key: seq<byte>, default: int): int {
    var p := StrStr(payload, key, 0);
    if p == -1 then default
    else
      var at := p + |key|;
      Atoi(payload, if at < |payload| && payload[at] == SPACE then at + 1 else at)
  }

  /** Start of the data value: past the quote after the colon after the first "data" literal, or -1. */
  function ValueStart(payload: seq<byte>): (r: int)
    ensures r == -1 || 0 < r <= |payload|
  {
    var key := StrStr(payload, DATA_KEY, 0);
    if key == -1 then -1
    else
      var colon := StrChr(payload, COLON, key);
      if colon == -1 then -1
      else
        var quote := StrChr(payload, QUOTE, colon);
        if quote == -1 then -1 else quote + 1
  }

  function ResizeEffect(payload: seq<byte>): Option<Effect> {
    var cols := SizeField(payload, COLS_KEY, 80);
    var rows := SizeField(payload, ROWS_KEY, 24);
    if cols > 0 && rows > 0 then Some(SetSize(cols % 0x10000, rows % 0x10000)) else None
  }

  /** The unescaped data value, or the raw payload when there is no data value or an empty one. */
  function DataBytes(payload: seq<byte>): seq<byte> {
    var start := if FindEither(payload, DATA_COMPACT, DATA_SPACED) != -1 then ValueStart(payload) else -1;
    var end := if start == -1 then -1 else StrRChr(payload, QUOTE, start);
    if start != -1 && end > start then UnescapeFrom(payload, start, end) else payload
  }

  /** The effect of one payload, if it has one. */
  function Process(payload: seq<byte>): Option<Effect> {
    if FindEither(payload, RESIZE_COMPACT, RESIZE_SPACED) != -1 then ResizeEffect(payload)
    else Some(Write(DataBytes(payload)))
  }

  // ---------- data frames in the two layouts in use ----------

  /** The layout `json_escape_pty_data` prints, and the one Python's json.dumps prints. */
  const SPACED_PREFIX: seq<byte> := Ascii("{\"type\": \"data\", \"data\": \"")
  const CLOSING: seq<byte> := [QUOTE, Ch('}')]

  function Line(prefix: seq<byte>, ts: seq<Token>): (r: seq<byte>)
    requires ValidBody(ts)
    ensures |r| == |prefix| + |PrintAll(ts)| + 2
    ensures forall i :: 0 <= i < |prefix| ==> r[i] == prefix[i]
    ensures forall i :: 0 <= i < |PrintAll(ts)| ==> r[|prefix| + i] == PrintAll(ts)[i]
    ensures r[|r| - 2] == QUOTE && r[|r| - 1] == Ch('}')
  {
    prefix + PrintAll(ts) + CLOSING
  }

  /** Behind the prefix, an unescaped quote is only the closing one. */
  lemma QuotesInLine(prefix: seq<byte>, ts: seq<Token>, j: nat)
    requires ValidBody(ts) && prefix != [] && prefix[|prefix| - 1] != BACKSLASH
    requires |prefix| <= j < |Line(prefix, ts)| && Line(prefix, ts)[j] == QUOTE
    ensures j == |Line(prefix, ts)| - 2 || (j > |prefix| && Line(prefix, ts)[j - 1] == BACKSLASH)
  {
    var line := Line(prefix, ts);
    PrintedBytes(ts);
    var i := j - |prefix|;
    if i < |PrintAll(ts)| {
      assert line[|prefix| + i] == PrintAll(ts)[i];
      assert line[|prefix| + (i - 1)] == PrintAll(ts)[i - 1];
    }
  }

  /** In a data prefix, only the "type" key ends in e and a quote, and what follows it is not `marker`. */
  predicate Excludes(prefix: seq<byte>, marker: seq<byte>, at: nat) {
    && |marker| > 6 && marker[4] == Ch('e') && marker[5] == QUOTE && marker[6] == COLON
    && prefix != [] && prefix[|prefix| - 1] == QUOTE
    && (forall j :: 5 <= j < |prefix| && prefix[j - 1] == Ch('e') && prefix[j] == QUOTE ==> j == 6)
    && at < |marker| && at + 1 < |prefix| && marker[at] != prefix[at + 1]
  }

  lemma CompactExcludes()
    ensures Excludes(COMPACT_PREFIX, RESIZE_COMPACT, 8) && Excludes(COMPACT_PREFIX, RESIZE_SPACED, 7)
  {
  }

  lemma SpacedExcludes()
    ensures Excludes(SPACED_PREFIX, RESIZE_COMPACT, 7) && Excludes(SPACED_PREFIX, RESIZE_SPACED, 9)
  {
  }

  /** An escaped body cannot spell a marker either: a quote in it follows a backslash, not an e. */
  lemma NoMarkerAt(prefix: seq<byte>, ts: seq<Token>, marker: seq<byte>, at: nat, k: nat)
    requires ValidBody(ts) && Excludes(prefix, marker, at)
    ensures !MatchesAt(Line(prefix, ts), marker, k)
  {
    var line := Line(prefix, ts);
    if MatchesAt(line, marker, k) {
      assert line[k + 4] == marker[4] && line[k + 5] == marker[5] && line[k + 6] == marker[6];
      if k + 5 >= |prefix| {
        QuotesInLine(prefix, ts, k + 5);
      }
    }
  }

  lemma NoMarker(prefix: seq<byte>, ts: seq<Token>, marker: seq<byte>, at: nat)
    requires ValidBody(ts) && Excludes(prefix, marker, at)
    ensures StrStr(Line(prefix, ts), marker, 0) == -1
  {
    forall k: nat
      ensures !MatchesAt(Line(prefix, ts), marker, k)
    {
      NoMarkerAt(prefix, ts, marker, at, k);
    }
  }

  /** No resize marker can occur in a data line, whatever its body. */
  lemma NoResizeMarker(prefix: seq<byte>, ts: seq<Token>)
    requires ValidBody(ts) && (prefix == COMPACT_PREFIX || prefix == SPACED_PREFIX)
    ensures FindEither(Line(prefix, ts), RESIZE_COMPACT, RESIZE_SPACED) == -1
  {
    if prefix == COMPACT_PREFIX {
      CompactExcludes();
      NoMarker(prefix, ts, RESIZE_COMPACT, 8);
      NoMarker(prefix, ts, RESIZE_SPACED, 7);
    } else {
      SpacedExcludes();
      NoMarker(prefix, ts, RESIZE_COMPACT, 7);
      NoMarker(prefix, ts, RESIZE_SPACED, 9);
    }
  }

  /** Where a data prefix has its "data" literal, the next colon and the next quote. */
  predicate Landmarks(prefix: seq<byte>, marker: seq<byte>, key: nat, colon: nat) {
    && MatchesAt(prefix, marker, 1)
    && MatchesAt(prefix, DATA_KEY, key) && (forall k: nat :: k < key ==> !MatchesAt(prefix, DATA_KEY, k))
    && key + |DATA_KEY| <= |prefix|
    && NextSigns(prefix, key, colon)
  }

  predicate NextSigns(prefix: seq<byte>, key: nat, colon: nat) {
    && key < colon < |prefix| && prefix[colon] == COLON
    && (forall i :: key <= i < colon ==> prefix[i] != COLON && prefix[i] != NUL)
    && (forall i :: colon <= i < |prefix| - 1 ==> prefix[i] != QUOTE && prefix[i] != NUL)
    && prefix[|prefix| - 1] == QUOTE
  }

  lemma CompactSigns()
    ensures NextSigns(COMPACT_PREFIX, 8, 21)
  {
  }

  lemma SpacedSigns()
    ensures NextSigns(SPACED_PREFIX, 9, 23)
  {
  }

  lemma CompactSpells()
    ensures MatchesAt(COMPACT_PREFIX, DATA_COMPACT, 1) && MatchesAt(COMPACT_PREFIX, DATA_KEY, 8)
  {
  }

  lemma SpacedSpells()
    ensures MatchesAt(SPACED_PREFIX, DATA_SPACED, 1) && MatchesAt(SPACED_PREFIX, DATA_KEY, 9)
  {
  }

  lemma CompactLandmarks()
    ensures Landmarks(COMPACT_PREFIX, DATA_COMPACT, 8, 21)
  {
    hide NextSigns, MatchesAt;
    CompactSigns();
    CompactSpells();
    FirstKey(COMPACT_PREFIX, 8);
  }

  lemma SpacedLandmarks()
    ensures Landmarks(SPACED_PREFIX, DATA_SPACED, 9, 23)
  {
    hide NextSigns, MatchesAt;
    SpacedSigns();
    SpacedSpells();
    FirstKey(SPACED_PREFIX, 9);
  }

  lemma FirstKey(prefix: seq<byte>, at: nat)
    requires (prefix == COMPACT_PREFIX && at == 8) || (prefix == SPACED_PREFIX && at == 9)
    ensures forall k: nat :: k < at ==> !MatchesAt(prefix, DATA_KEY, k)
  {
    forall k: nat | k < at
      ensures !MatchesAt(prefix, DATA_KEY, k)
    {
      assert DATA_KEY[0] == QUOTE && DATA_KEY[1] == Ch('d');
      assert prefix[k + 0] != QUOTE || prefix[k + 1] != Ch('d');
    }
  }

  lemma MatchInPrefix(prefix: seq<byte>, ts: seq<Token>, needle: seq<byte>, i: nat)
    requires ValidBody(ts) && i + |needle| <= |prefix|
    ensures MatchesAt(Line(prefix, ts), needle, i) <==> MatchesAt(prefix, needle, i)
  {
  }

  lemma ValueAtLandmarks(prefix: seq<byte>, ts: seq<Token>, marker: seq<byte>, key: nat, colon: nat)
    requires ValidBody(ts) && Landmarks(prefix, marker, key, colon)
    ensures StrStr(Line(prefix, ts), marker, 0) != -1
    ensures ValueStart(Line(prefix, ts)) == |prefix|
  {
    var line := Line(prefix, ts);
    MatchInPrefix(prefix, ts, marker, 1);
    forall k: nat | k <= key
      ensures MatchesAt(line, DATA_KEY, k) <==> k == key
    {
      MatchInPrefix(prefix, ts, DATA_KEY, k);
    }
    assert MatchesAt(line, DATA_KEY, key);
    assert StrStr(line, DATA_KEY, 0) == key;
    assert line[colon] == prefix[colon];
    assert StrChr(line, COLON, key) == colon;
    assert line[|prefix| - 1] == prefix[|prefix| - 1];
    assert StrChr(line, QUOTE, colon) == |prefix| - 1;
  }

  /** The data marker is found, and the value starts right behind the prefix. (The first "data" literal
      is the value of "type", not the key; the next colon leads to the right place all the same.) */
  lemma ValueFound(prefix: seq<byte>, ts: seq<Token>)
    requires ValidBody(ts) && (prefix == COMPACT_PREFIX || prefix == SPACED_PREFIX)
    ensures FindEither(Line(prefix, ts), DATA_COMPACT, DATA_SPACED) != -1
    ensures ValueStart(Line(prefix, ts)) == |prefix|
  {
    if prefix == COMPACT_PREFIX {
      CompactLandmarks();
      ValueAtLandmarks(prefix, ts, DATA_COMPACT, 8, 21);
    } else {
      SpacedLandmarks();
      ValueAtLandmarks(prefix, ts, DATA_SPACED, 9, 23);
    }
  }

  /** A data line with a non-empty body is written to the PTY as the daemon's reading of that body. */
  lemma {:induction false} DataLine(prefix: seq<byte>, ts: seq<Token>)
    requires ValidBody(ts) && ts != [] && (prefix == COMPACT_PREFIX || prefix == SPACED_PREFIX)
    ensures Process(Line(prefix, ts)) == Some(Write(DaemonMeaning(ts)))
  {
    hide StrStr, StrChr, ValueStart, FindEither, UnescapeFrom, PrintAll, DaemonMeaning, ResizeEffect;
    var line := Line(prefix, ts);
    NoResizeMarker(prefix, ts);
    ValueFound(prefix, ts);
    PrintedBytes(ts);
    var end := StrRChr(line, QUOTE, |prefix|);
    assert end == |line| - 2;
    UnescapeBody(line, |prefix|, ts, end);
  }

  /** Keystrokes sent as JSON reach the PTY as the standard reads them exactly when no escape is wide:
      a client that escapes non-ASCII text (json.dumps does) garbles it. */
  lemma {:induction false} DataLineDeliveredIff(prefix: seq<byte>, ts: seq<Token>)
    requires ValidBody(ts) && ts != [] && (prefix == COMPACT_PREFIX || prefix == SPACED_PREFIX)
    ensures Process(Line(prefix, ts)) == Some(Write(Meaning(ts))) <==> AsciiEscapesOnly(ts)
  {
    DataLine(prefix, ts);
    DaemonAgainstStandard(ts);
  }

  /** A data line has no control byte in it, so no newline and no NUL. */
  lemma LineBytes(prefix: seq<byte>, ts: seq<Token>)
    requires ValidBody(ts) && (prefix == COMPACT_PREFIX || prefix == SPACED_PREFIX)
    ensures forall i :: 0 <= i < |Line(prefix, ts)| ==> Line(prefix, ts)[i] >= 0x20
  {
    var line := Line(prefix, ts);
    PrintedBytes(ts);
    PrefixBytes();
    forall i | 0 <= i < |line|
      ensures line[i] >= 0x20
    {
      if |prefix| <= i < |line| - 2 {
        assert line[|prefix| + (i - |prefix|)] == PrintAll(ts)[i - |prefix|];
      }
    }
  }

  /** Without its newline, a frame is one line. */
  lemma {:induction false} FrameIsOneLine(src: seq<byte>)
    ensures var f := Frame(src);
            && f == Line(COMPACT_PREFIX, Tokens(src)) + [NEWLINE]
            && NEWLINE !in f[..|f| - 1] && NulFree(f[..|f| - 1])
  {
    var line := Line(COMPACT_PREFIX, Tokens(src));
    assert Frame(src)[..|Frame(src)| - 1] == line;
    LineBytes(COMPACT_PREFIX, Tokens(src));
  }

  lemma PrefixBytes()
    ensures forall i :: 0 <= i < |COMPACT_PREFIX| ==> COMPACT_PREFIX[i] >= 0x20
    ensures forall i :: 0 <= i < |SPACED_PREFIX| ==> SPACED_PREFIX[i] >= 0x20
  {
  }

  /** An empty frame falls through to the raw copy of the whole line. */
  lemma {:induction false} EmptyFrame(prefix: seq<byte>)
    requires prefix == COMPACT_PREFIX || prefix == SPACED_PREFIX
    ensures Process(Line(prefix, [])) == Some(Write(Line(prefix, [])))
  {
    var line := Line(prefix, []);
    NoResizeMarker(prefix, []);
    ValueFound(prefix, []);
    assert StrRChr(line, QUOTE, |prefix|) == |line| - 2;
  }

  /** The other end of `json_escape_pty_data`: a frame of its own comes back as the source bytes, except
      an empty one, which comes back as the frame itself. */
  lemma {:induction false} FrameRoundTrip(src: seq<byte>)
    ensures var line := Frame(src)[..|Frame(src)| - 1];
            Process(line) == Some(Write(if src != [] then src else line))
  {
    FrameIsOneLine(src);
    var ts := Tokens(src);
    assert Frame(src)[..|Frame(src)| - 1] == Line(COMPACT_PREFIX, ts);
    if src == [] {
      assert ts == [];
      EmptyFrame(COMPACT_PREFIX);
    } else {
      DataLine(COMPACT_PREFIX, ts);
      DaemonAgainstStandard(ts);
      EscapeMeansSource(src);
    }
  }

  /** The marker stands nowhere in the payload. */
  predicate Lacks(payload: seq<byte>, marker: string)
    requires forall i :: 0 <= i < |marker| ==> marker[i] < 128 as char
  {
    forall k: nat :: k <= |payload| ==> !MatchesAt(payload, Ascii(marker), k)
  }

  /** Anything that is neither a resize nor a data message is copied as it is. */
  lemma RawCopy(payload: seq<byte>)
    requires Lacks(payload, "\"type\":\"resize\"") && Lacks(payload, "\"type\": \"resize\"")
    requires Lacks(payload, "\"type\":\"data\"") && Lacks(payload, "\"type\": \"data\"")
    ensures Process(payload) == Some(Write(payload))
  {
    hide UnescapeFrom;
  }

  // ---------- the imperative code ----------

  /** The PTY master: everything written and every size set, in order. */
  class Pty {
    var effects: seq<Effect>

    constructor ()
      ensures effects == []
    {
      effects := [];
    }
  }

  function AsList(e: Option<Effect>): seq<Effect> {
    if e.Some? then [e.value] else []
  }

  /** The branches of the unescape loop: the byte stored and the next position. */
  method UnescapeOne(payload: seq<byte>, p0: nat, endPos: nat) returns (b: byte, p: nat)
    requires p0 < endPos <= |payload|
    ensures (b, p) == UnescapeStep(payload, p0, endPos)
  {
    p := p0;
    if payload[p] == BACKSLASH && p + 1 < endPos {
      p := p + 1;
      if payload[p] == Ch('n') {
        b := NEWLINE;
      } else if payload[p] == Ch('r') {
        b := CARRIAGE_RETURN;
      } else if payload[p] == Ch('t') {
        b := TAB;
      } else if payload[p] == Ch('b') {
        b := BACKSPACE;
      } else if payload[p] == Ch('f') {
        b := FORM_FEED;
      } else if payload[p] == Ch('u') && p + 4 < endPos {
        var cp := ScanHex4(payload, p + 1);
        if cp.Some? && cp.value < 0x80 {
          b := cp.value;
          p := p + 4;
        } else {
          b := payload[p];
        }
      } else {
        b := payload[p];
      }
    } else {
      b := payload[p];
    }
    p := p + 1;
  }

  lemma UnescapeUnroll(done: seq<byte>, s: seq<byte>, p: nat, end: nat)
    requires p < end <= |s|
    ensures var (b, next) := UnescapeStep(s, p, end);
            done + UnescapeFrom(s, p, end) == done + [b] + UnescapeFrom(s, next, end)
  {
  }

  /** The unescape loop over `unencoded`. */
  method Unescape(payload: seq<byte>, valPos: nat, endPos: nat) returns (unencoded: array<byte>, uidx: nat)
    requires valPos < endPos <= |payload|
    ensures uidx <= unencoded.Length && unencoded[..uidx] == UnescapeFrom(payload, valPos, endPos)
    ensures fresh(unencoded)
  {
    unencoded := new byte[endPos - valPos + 1];
    uidx := 0;
    var p := valPos;
    while p < endPos
      invariant valPos <= p <= endPos && uidx <= p - valPos
      invariant unencoded[..uidx] + UnescapeFrom(payload, p, endPos) == UnescapeFrom(payload, valPos, endPos)
    {
      UnescapeUnroll(unencoded[..uidx], payload, p, endPos);
      var b;
      b, p := UnescapeOne(payload, p, endPos);
      uidx := Put(unencoded, uidx, b);
    }
    assert unencoded[..uidx] + [] == unencoded[..uidx];
  }

  method ProcessResize(pty: Pty, payload: seq<byte>)
    modifies pty
    ensures pty.effects == old(pty.effects) + AsList(ResizeEffect(payload))
  {
    var cols := SizeField(payload, COLS_KEY, 80);
    var rows := SizeField(payload, ROWS_KEY, 24);
    if cols > 0 && rows > 0 {
      pty.effects := pty.effects + [SetSize(cols % 0x10000, rows % 0x10000)];
    }
  }

  /** The nested searches for the data value; -1 when one of them fails. */
  method FindValue(payload: seq<byte>) returns (valPos: int)
    ensures valPos == if FindEither(payload, DATA_COMPACT, DATA_SPACED) != -1 then ValueStart(payload) else -1
  {
    var dataPos := StrStr(payload, DATA_COMPACT, 0);
    if dataPos == -1 {
      dataPos := StrStr(payload, DATA_SPACED, 0);
    }
    valPos := -1;
    if dataPos != -1 {
      valPos := StrStr(payload, DATA_KEY, 0);
      if valPos != -1 {
        valPos := StrChr(payload, COLON, valPos);
        if valPos != -1 {
          valPos := StrChr(payload, QUOTE, valPos);
          if valPos != -1 {
            valPos := valPos + 1;
          }
        }
      }
    }
  }

  method ParseAndProcessPayload(pty: Pty, payload: seq<byte>)
    modifies pty
    ensures pty.effects == old(pty.effects) + AsList(Process(payload))
  {
    var typePos := StrStr(payload, RESIZE_COMPACT, 0);
    if typePos == -1 {
      typePos := StrStr(payload, RESIZE_SPACED, 0);
    }
    if typePos != -1 {
      ProcessResize(pty, payload);
      return;
    }
    var valPos := FindValue(payload);
    if valPos != -1 {
      var endPos := StrRChr(payload, QUOTE, valPos);
      if endPos != -1 && endPos > valPos {
        var unencoded, uidx := Unescape(payload, valPos, endPos);
        pty.effects := pty.effects + [Write(unencoded[..uidx])];
        return;
      }
    }
    pty.effects := pty.effects + [Write(payload)];
  }
}
