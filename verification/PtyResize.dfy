/** The client's resize lines (`CNativeBackend.resize`) and what the daemon makes of them. */
module PtyResize {
  import opened Bytes
  import opened Options
  import opened PtyEscaping
  import opened PtyPayload
  import opened PtyRelay

  /** What atoi can return. */
  type CInt = n: int | -0x8000_0000 <= n < 0x8000_0000

  const HEAD: seq<byte> := Ascii("{\"type\": \"resize\", \"cols\": ")
  const MIDDLE: seq<byte> := Ascii(", \"rows\": ")
  const COLS_AT: nat := 19
  const BRACE: byte := 125

  function Digits(n: nat): (r: seq<byte>)
    ensures r != [] && forall i :: 0 <= i < |r| ==> 48 <= r[i] <= 57
  {
    if n < 10 then [48 + n] else Digits(n / 10) + [48 + n % 10]
  }

  function Decimal(n: int): (r: seq<byte>)
    ensures r != []
    ensures forall i :: 0 <= i < |r| ==> 48 <= r[i] <= 57 || r[i] == Ch('-')
  {
    if n < 0 then [Ch('-')] + Digits(0 - n) else Digits(n)
  }

  /** json.dumps({"type": "resize", "cols": cols, "rows": rows}) */
  function ResizeLine(cols: int, rows: int): seq<byte> {
    HEAD + Decimal(cols) + MIDDLE + Decimal(rows) + [BRACE]
  }

  // ---------- reading a number back ----------

  predicate EndsNumber(s: seq<byte>, end: nat) {
    end < |s| && !(48 <= s[end] <= 57)
  }

  lemma {:induction false} RunOverDigits(s: seq<byte>, i: nat, n: nat)
    requires MatchesAt(s, Digits(n), i)
    ensures DigitRun(s, i, 0) == DigitRun(s, i + |Digits(n)|, n)
    decreases n
  {
    if n < 10 {
      assert s[i + 0] == Digits(n)[0];
    } else {
      var front := Digits(n / 10);
      var last: seq<byte> := [48 + n % 10];
      MatchesSplit(s, front, last, i);
      RunOverDigits(s, i, n / 10);
      assert s[(i + |front|) + 0] == last[0];
    }
  }

  /** atoi reads a printed number as that number. */
  lemma AtoiReads(s: seq<byte>, i: nat, n: int)
    requires MatchesAt(s, Decimal(n), i) && EndsNumber(s, i + |Decimal(n)|)
    ensures Atoi(s, i) == n
  {
    hide Digits;
    assert s[i + 0] == Decimal(n)[0];
    assert SkipSpaces(s, i) == i;
    if n < 0 {
      MatchesSplit(s, [Ch('-')], Digits(0 - n), i);
      RunOverDigits(s, i + 1, 0 - n);
    } else {
      RunOverDigits(s, i, n);
    }
  }

  // ---------- finding the fields ----------

  /** The line is `before`, then `part`, then `after`. */
  lemma PartMatches(before: seq<byte>, part: seq<byte>, after: seq<byte>)
    ensures MatchesAt(before + part + after, part, |before|)
  {
  }

  /** The keys start with a quote; in HEAD the one before an r is that of "resize". */
  lemma HeadQuotes()
    ensures |HEAD| == COLS_AT + |COLS_KEY| + 1 && HEAD[|HEAD| - 1] == SPACE
    ensures forall k :: 0 <= k < COLS_AT ==> HEAD[k] != QUOTE || HEAD[k + 1] != Ch('c')
    ensures forall k :: 0 <= k < |HEAD| - 2 ==> HEAD[k] != QUOTE || HEAD[k + 1] != Ch('r') || HEAD[k + 2] != Ch('o')
    ensures HEAD[|HEAD| - 2] != QUOTE
  {
  }

  lemma HeadBytes()
    ensures forall k :: 0 <= k < |HEAD| ==> HEAD[k] >= 0x20
  {
  }

  lemma HeadHasCols()
    ensures MatchesAt(HEAD, COLS_KEY, COLS_AT)
  {
  }

  lemma HeadHasMarker()
    ensures MatchesAt(HEAD, RESIZE_SPACED, 1)
  {
  }

  lemma MiddleQuotes()
    ensures |MIDDLE| == |ROWS_KEY| + 3 && MatchesAt(MIDDLE, ROWS_KEY, 2)
    ensures MIDDLE[0] == Ch(',') && MIDDLE[1] == SPACE && MIDDLE[|MIDDLE| - 1] == SPACE
    ensures ROWS_KEY[0] == QUOTE && ROWS_KEY[1] == Ch('r') && ROWS_KEY[2] == Ch('o')
    ensures COLS_KEY[0] == QUOTE && COLS_KEY[1] == Ch('c')
    ensures forall k :: 0 <= k < |MIDDLE| ==> MIDDLE[k] >= 0x20
  {
  }

  lemma MatchesInside(before: seq<byte>, part: seq<byte>, after: seq<byte>, needle: seq<byte>, at: nat)
    requires MatchesAt(part, needle, at)
    ensures MatchesAt(before + part + after, needle, |before| + at)
  {
    var s := before + part + after;
    forall j | 0 <= j < |needle|
      ensures s[|before| + at + j] == needle[j]
    {
      assert s[|before| + (at + j)] == part[at + j];
    }
  }

  /** strstr finds a needle where it stands, if it stands nowhere before. */
  lemma FoundAt(s: seq<byte>, needle: seq<byte>, at: nat)
    requires MatchesAt(s, needle, at) && forall k: nat :: k < at ==> !MatchesAt(s, needle, k)
    ensures StrStr(s, needle, 0) == at
  {
  }

  lemma NoColsKey(rest: seq<byte>, k: nat)
    requires k < COLS_AT
    ensures !MatchesAt(HEAD + rest, COLS_KEY, k)
  {
    hide HEAD;
    HeadQuotes();
    MiddleQuotes();
    var line := HEAD + rest;
    assert line[k + 0] == HEAD[k] && line[k + 1] == HEAD[k + 1];
  }

  lemma ColsFound(rest: seq<byte>)
    ensures StrStr(HEAD + rest, COLS_KEY, 0) == COLS_AT
  {
    hide HEAD, StrStr;
    HeadHasCols();
    assert HEAD + rest == [] + HEAD + rest;
    MatchesInside([], HEAD, rest, COLS_KEY, COLS_AT);
    forall k: nat | k < COLS_AT
      ensures !MatchesAt(HEAD + rest, COLS_KEY, k)
    {
      NoColsKey(rest, k);
    }
    FoundAt(HEAD + rest, COLS_KEY, COLS_AT);
  }

  lemma NumberBehind(before: seq<byte>, n: int, after: seq<byte>)
    requires EndsNumber(after, 0)
    ensures Atoi(before + Decimal(n) + after, |before|) == n
  {
    hide Atoi, Decimal;
    PartMatches(before, Decimal(n), after);
    AtoiReads(before + Decimal(n) + after, |before|, n);
  }

  lemma ColsField(cols: int, rows: int)
    ensures SizeField(ResizeLine(cols, rows), COLS_KEY, 80) == cols
  {
    hide HEAD, MIDDLE, Atoi, StrStr, Decimal, EndsNumber;
    var line := ResizeLine(cols, rows);
    var number, behind := Decimal(cols), MIDDLE + Decimal(rows) + [BRACE];
    HeadQuotes();
    ColsFound(number + behind);
    assert line == HEAD + (number + behind);
    assert line == HEAD + number + behind;
    EndsAtMiddle(Decimal(rows) + [BRACE]);
    assert behind == MIDDLE + (Decimal(rows) + [BRACE]);
    NumberBehind(HEAD, cols, behind);
  }

  lemma EndsAtMiddle(rest: seq<byte>)
    ensures EndsNumber(MIDDLE + rest, 0)
  {
    hide MIDDLE;
    MiddleQuotes();
  }

  /** Nothing before the rows key looks like it. */
  lemma NoRowsKey(number: seq<byte>, rest: seq<byte>, k: nat)
    requires QUOTE !in number && k < |HEAD| + |number| + 2
    ensures !MatchesAt(HEAD + number + MIDDLE + rest, ROWS_KEY, k)
  {
    hide HEAD, MIDDLE;
    HeadQuotes();
    MiddleQuotes();
    var line := HEAD + number + MIDDLE + rest;
    if k < |HEAD| - 2 {
      assert line[k + 0] == HEAD[k] && line[k + 1] == HEAD[k + 1] && line[k + 2] == HEAD[k + 2];
    } else if k < |HEAD| {
      assert line[k + 0] == HEAD[k];
    } else if k < |HEAD| + |number| {
      assert line[k + 0] == number[k - |HEAD|];
    } else {
      assert line[k + 0] == MIDDLE[k - |HEAD| - |number|];
    }
  }

  lemma RowsFound(number: seq<byte>, rest: seq<byte>)
    requires QUOTE !in number
    ensures StrStr(HEAD + number + MIDDLE + rest, ROWS_KEY, 0) == |HEAD| + |number| + 2
  {
    hide HEAD, MIDDLE, StrStr;
    MiddleQuotes();
    var line := HEAD + number + MIDDLE + rest;
    MatchesInside(HEAD + number, MIDDLE, rest, ROWS_KEY, 2);
    forall k: nat | k < |HEAD| + |number| + 2
      ensures !MatchesAt(line, ROWS_KEY, k)
    {
      NoRowsKey(number, rest, k);
    }
    FoundAt(line, ROWS_KEY, |HEAD| + |number| + 2);
  }

  lemma RowsField(cols: int, rows: int)
    ensures SizeField(ResizeLine(cols, rows), ROWS_KEY, 24) == rows
  {
    hide HEAD, MIDDLE, Atoi, StrStr;
    var line := ResizeLine(cols, rows);
    var before := HEAD + Decimal(cols) + MIDDLE;
    MiddleQuotes();
    RowsFound(Decimal(cols), Decimal(rows) + [BRACE]);
    assert line == before + (Decimal(rows) + [BRACE]);
    assert line == before + Decimal(rows) + [BRACE];
    assert line[|before| - 1] == MIDDLE[|MIDDLE| - 1];
    NumberBehind(before, rows, [BRACE]);
  }

  // ---------- any layout ----------

  /** The first occurrence of the key stands at `at`, and the number is printed behind it, after a blank or
      without one. */
  predicate HasField(s: seq<byte>, key: seq<byte>, at: nat, n: int) {
    && MatchesAt(s, key, at) && (forall k: nat :: k < at ==> !MatchesAt(s, key, k))
    && exists from :: at + |key| <= from <= at + |key| + 1
             && (from == at + |key| || (from <= |s| && s[from - 1] == SPACE))
             && MatchesAt(s, Decimal(n), from) && EndsNumber(s, from + |Decimal(n)|)
  }

  lemma FieldReads(s: seq<byte>, key: seq<byte>, at: nat, n: int, default: int)
    requires HasField(s, key, at, n)
    ensures SizeField(s, key, default) == n
  {
    hide Decimal, StrStr, Atoi;
    FoundAt(s, key, at);
    var from: nat :| at + |key| <= from <= at + |key| + 1
             && (from == at + |key| || (from <= |s| && s[from - 1] == SPACE))
             && MatchesAt(s, Decimal(n), from) && EndsNumber(s, from + |Decimal(n)|);
    AtoiReads(s, from, n);
    assert s[from + 0] == Decimal(n)[0];
  }

  /** Whatever the layout: a message with the resize marker sets the size its two fields name. */
  lemma ResizeReads(payload: seq<byte>, marker: nat, colsAt: nat, rowsAt: nat, cols: CInt, rows: CInt)
    requires MatchesAt(payload, Ascii("\"type\":\"resize\""), marker)
      || MatchesAt(payload, Ascii("\"type\": \"resize\""), marker)
    requires HasField(payload, COLS_KEY, colsAt, cols) && HasField(payload, ROWS_KEY, rowsAt, rows)
    ensures Process(payload) ==
      if cols > 0 && rows > 0 then Some(SetSize(cols % 0x10000, rows % 0x10000)) else None
  {
    hide HasField, SizeField, DataBytes;
    FieldReads(payload, COLS_KEY, colsAt, cols, 80);
    FieldReads(payload, ROWS_KEY, rowsAt, rows, 24);
  }

  /** Without either field it sets 80 by 24. */
  lemma ResizeDefaults(payload: seq<byte>, marker: nat)
    requires MatchesAt(payload, Ascii("\"type\":\"resize\""), marker)
      || MatchesAt(payload, Ascii("\"type\": \"resize\""), marker)
    requires Lacks(payload, "\"cols\":") && Lacks(payload, "\"rows\":")
    ensures Process(payload) == Some(SetSize(80, 24))
  {
    hide DataBytes, Atoi;
  }

  // ---------- what a resize line does ----------

  lemma HasMarker(cols: int, rows: int)
    ensures FindEither(ResizeLine(cols, rows), RESIZE_COMPACT, RESIZE_SPACED) != -1
  {
    hide HEAD, MIDDLE, StrStr, Decimal;
    HeadHasMarker();
    var rest := Decimal(cols) + MIDDLE + Decimal(rows) + [BRACE];
    assert ResizeLine(cols, rows) == [] + HEAD + rest;
    MatchesInside([], HEAD, rest, RESIZE_SPACED, 1);
  }

  /** A resize line sets exactly the size it names, cut to 16 bits, when both numbers are positive; otherwise
      it does nothing. */
  lemma {:induction false} ResizeSetsSize(cols: CInt, rows: CInt)
    ensures Process(ResizeLine(cols, rows)) ==
      if cols > 0 && rows > 0 then Some(SetSize(cols % 0x10000, rows % 0x10000)) else None
  {
    hide ResizeLine, FindEither, SizeField, DataBytes;
    HasMarker(cols, rows);
    ColsField(cols, rows);
    RowsField(cols, rows);
  }

  /** Sent over the wire as one line it arrives as that one payload. */
  lemma {:induction false} ResizeArrives(cols: CInt, rows: CInt)
    ensures ProcessAll(Payloads(ResizeLine(cols, rows) + [NEWLINE])) ==
      if cols > 0 && rows > 0 then [SetSize(cols % 0x10000, rows % 0x10000)] else []
  {
    hide HEAD, MIDDLE, Process;
    var line := ResizeLine(cols, rows);
    HeadBytes();
    MiddleQuotes();
    assert forall i :: 0 <= i < |line| ==> line[i] >= 0x20;
    var one := [line];
    assert one[1..] == [];
    assert Unlines(one) + [] == line + [NEWLINE];
    PayloadsAreTheLines(one, []);
    assert NonEmpty(one) == one;
    ResizeSetsSize(cols, rows);
  }
}
