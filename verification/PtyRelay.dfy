/** The relay loop of the terminal daemon: PTY bytes out as frames, socket bytes in as lines. */
module PtyRelay {
  import opened Bytes
  import opened Options
  import opened PtyEscaping
  import opened PtyEncoder
  import opened PtyPayload

  const BUFFER_SIZE: nat := 16384
  const PTY_READ_SIZE: nat := 4096
  const JSON_BUFFER_SIZE: nat := 16384

  // ---------- cutting a byte stream into payloads ----------

  /** The payload before a newline at nl: none if the line is empty. */
  function LineBefore(b: seq<byte>, nl: nat): seq<seq<byte>>
    requires nl <= |b|
  {
    if nl > 0 then [b[..nl]] else []
  }

  /** The payloads the line loop hands on from a buffer: the non-empty lines, up to the first NUL. */
  function Payloads(b: seq<byte>): seq<seq<byte>>
    decreases |b|
  {
    var nl := StrChr(b, NEWLINE, 0);
    if nl == -1 then []
    else LineBefore(b, nl) + Payloads(b[nl + 1..])
  }

  /** What the line loop leaves in the buffer. */
  function Partial(b: seq<byte>): (r: seq<byte>)
    ensures |r| <= |b|
    decreases |b|
  {
    var nl := StrChr(b, NEWLINE, 0);
    if nl == -1 then b else Partial(b[nl + 1..])
  }

  lemma FirstNewlineStays(b: seq<byte>, more: seq<byte>)
    requires StrChr(b, NEWLINE, 0) != -1
    ensures StrChr(b + more, NEWLINE, 0) == StrChr(b, NEWLINE, 0)
  {
    var nl := StrChr(b, NEWLINE, 0);
    assert (b + more)[nl] == NEWLINE;
    assert forall k :: 0 <= k < nl ==> (b + more)[k] == b[k];
  }

  /** One turn of the line loop: the line up to the first newline, then the rest. */
  lemma CutOne(b: seq<byte>, nl: nat)
    requires StrChr(b, NEWLINE, 0) == nl
    ensures Payloads(b) == LineBefore(b, nl) + Payloads(b[nl + 1..])
    ensures Partial(b) == Partial(b[nl + 1..])
  {
  }

  lemma CutNone(b: seq<byte>)
    requires StrChr(b, NEWLINE, 0) == -1
    ensures Payloads(b) == [] && Partial(b) == b
  {
  }

  /** Cutting is independent of where the reads fall, for every byte stream. */
  lemma {:induction false} CutAnywhere(b: seq<byte>, more: seq<byte>)
    ensures Payloads(b + more) == Payloads(b) + Payloads(Partial(b) + more)
    ensures Partial(b + more) == Partial(Partial(b) + more)
    decreases |b|
  {
    hide Payloads, Partial;
    var nl := StrChr(b, NEWLINE, 0);
    if nl == -1 {
      CutNone(b);
    } else {
      var line, rest := LineBefore(b, nl), b[nl + 1..];
      FirstNewlineStays(b, more);
      CutOne(b, nl);
      CutOne(b + more, nl);
      assert (b + more)[..nl] == b[..nl];
      assert (b + more)[nl + 1..] == rest + more;
      CutAnywhere(rest, more);
    }
  }

  lemma {:induction false} PartialHasNoPayload(b: seq<byte>)
    ensures Payloads(Partial(b)) == [] && Partial(Partial(b)) == Partial(b)
    decreases |b|
  {
    var nl := StrChr(b, NEWLINE, 0);
    if nl != -1 {
      PartialHasNoPayload(b[nl + 1..]);
    }
  }

  lemma PartialGrowth(a: seq<byte>, b: seq<byte>)
    ensures |Partial(a + b)| <= |Partial(a)| + |b|
  {
    CutAnywhere(a, b);
  }

  function Unlines(lines: seq<seq<byte>>): seq<byte> {
    if lines == [] then [] else lines[0] + [NEWLINE] + Unlines(lines[1..])
  }

  function NonEmpty(lines: seq<seq<byte>>): seq<seq<byte>> {
    if lines == [] then []
    else (if lines[0] == [] then [] else [lines[0]]) + NonEmpty(lines[1..])
  }

  predicate IsLine(line: seq<byte>) {
    NEWLINE !in line && NulFree(line)
  }

  lemma NoNewlineFound(b: seq<byte>)
    requires IsLine(b)
    ensures StrChr(b, NEWLINE, 0) == -1
  {
  }

  lemma LineFirst(line: seq<byte>, rest: seq<byte>)
    requires IsLine(line)
    ensures StrChr(line + [NEWLINE] + rest, NEWLINE, 0) == |line|
  {
    var b := line + [NEWLINE] + rest;
    assert b[|line|] == NEWLINE;
    assert forall k :: 0 <= k < |line| ==> b[k] == line[k];
    assert forall k :: 0 <= k < |line| ==> b[k] in line;
  }

  /** On a NUL-free stream the payloads are exactly its non-empty lines, in order, and the text after the
      last newline is what stays. */
  lemma {:induction false} PayloadsAreTheLines(lines: seq<seq<byte>>, rest: seq<byte>)
    requires (forall line :: line in lines ==> IsLine(line)) && IsLine(rest)
    ensures Payloads(Unlines(lines) + rest) == NonEmpty(lines)
    ensures Partial(Unlines(lines) + rest) == rest
    decreases |lines|
  {
    if lines == [] {
      assert Unlines(lines) + rest == rest;
      NoNewlineFound(rest);
    } else {
      var line := lines[0];
      var b := Unlines(lines) + rest;
      assert b == line + [NEWLINE] + (Unlines(lines[1..]) + rest);
      LineFirst(line, Unlines(lines[1..]) + rest);
      assert b[..|line|] == line && b[|line| + 1..] == Unlines(lines[1..]) + rest;
      PayloadsAreTheLines(lines[1..], rest);
    }
  }

  /** Every NUL-free stream has that form. */
  lemma {:induction false} EveryStreamIsLines(b: seq<byte>) returns (lines: seq<seq<byte>>, rest: seq<byte>)
    requires NulFree(b)
    ensures b == Unlines(lines) + rest && IsLine(rest)
    ensures forall line :: line in lines ==> IsLine(line)
    decreases |b|
  {
    var nl := StrChr(b, NEWLINE, 0);
    if nl == -1 {
      lines, rest := [], b;
      forall k | 0 <= k < |b|
        ensures b[k] != NEWLINE
      {
        assert forall z :: 0 <= z < k ==> b[z] in b;
      }
    } else {
      assert forall k :: nl + 1 <= k < |b| ==> b[k] in b;
      var ls, r := EveryStreamIsLines(b[nl + 1..]);
      lines, rest := [b[..nl]] + ls, r;
      assert lines[0] == b[..nl] && lines[1..] == ls;
      assert b == b[..nl] + [NEWLINE] + b[nl + 1..];
      assert Unlines(lines) + rest == b[..nl] + [NEWLINE] + (Unlines(ls) + rest);
    }
  }

  // ---------- when the buffer never fills ----------

  /** At no point with input still to come does the unfinished line fill the buffer. */
  predicate LinesFit(stream: seq<byte>, capacity: nat) {
    forall n :: 0 <= n < |stream| ==> |Partial(stream[..n])| < capacity
  }

  lemma PartialInLines(line: seq<byte>, tail: seq<byte>, n: nat)
    requires IsLine(line) && n <= |line| + 1 + |tail|
    ensures var stream := line + [NEWLINE] + tail;
            Partial(stream[..n]) == if n <= |line| then line[..n] else Partial(tail[..n - |line| - 1])
  {
    var stream := line + [NEWLINE] + tail;
    if n <= |line| {
      assert stream[..n] == line[..n];
      NoNewlineFound(line[..n]);
    } else {
      var m := n - |line| - 1;
      assert stream[..n] == line + [NEWLINE] + tail[..m];
      LineFirst(line, tail[..m]);
      assert stream[..n][|line| + 1..] == tail[..m];
    }
  }

  /** For a stream of complete lines: no line reaches the capacity. */
  lemma {:induction false} LinesFitIff(lines: seq<seq<byte>>, capacity: nat)
    requires forall line :: line in lines ==> IsLine(line)
    ensures LinesFit(Unlines(lines), capacity) <==> forall line :: line in lines ==> |line| < capacity
    decreases |lines|
  {
    if lines != [] {
      hide Partial;
      var line, tail := lines[0], Unlines(lines[1..]);
      var stream := Unlines(lines);
      LinesFitIff(lines[1..], capacity);
      forall n | 0 <= n < |stream|
        ensures |Partial(stream[..n])| == if n <= |line| then n else |Partial(tail[..n - |line| - 1])|
      {
        PartialInLines(line, tail, n);
      }
      if LinesFit(stream, capacity) {
        assert |Partial(stream[..|line|])| == |line|;
        forall m | 0 <= m < |tail|
          ensures |Partial(tail[..m])| < capacity
        {
          assert |Partial(stream[..m + |line| + 1])| < capacity;
        }
      }
      assert lines == [line] + lines[1..];
    }
  }

  // ---------- the effects of a run ----------

  function ProcessAll(payloads: seq<seq<byte>>): seq<Effect> {
    if payloads == [] then [] else AsList(Process(payloads[0])) + ProcessAll(payloads[1..])
  }

  lemma {:induction false} ProcessAllConcat(a: seq<seq<byte>>, b: seq<seq<byte>>)
    ensures ProcessAll(a + b) == ProcessAll(a) + ProcessAll(b)
    decreases |a|
  {
    hide Process;
    if a == [] {
      assert a + b == b;
    } else {
      assert (a + b)[0] == a[0] && (a + b)[1..] == a[1..] + b;
      ProcessAllConcat(a[1..], b);
    }
  }

  lemma EffectsExtend(before: seq<Effect>, done: seq<seq<byte>>, more: seq<seq<byte>>)
    ensures before + ProcessAll(done) + ProcessAll(more) == before + ProcessAll(done + more)
  {
    hide ProcessAll;
    ProcessAllConcat(done, more);
  }

  lemma {:induction false} StrChrShift(s: seq<byte>, from: nat, k: nat, end: nat)
    requires from <= k <= end < |s| && s[end] == NUL
    ensures var r := StrChr(s[from..end], NEWLINE, k - from);
            StrChr(s, NEWLINE, k) == if r == -1 then -1 else from + r
    decreases end - k
  {
    if k < end && s[k] != NUL && s[k] != NEWLINE {
      StrChrShift(s, from, k + 1, end);
    }
  }

  function NextPos(rest: seq<byte>, start: nat): (p: int)
    ensures p != -1 ==> start <= p < start + |rest|
  {
    var nl := StrChr(rest, NEWLINE, 0);
    if nl == -1 then -1 else start + nl
  }

  ghost predicate CutSoFar(data: seq<byte>, done: seq<seq<byte>>, rest: seq<byte>) {
    Payloads(data) == done + Payloads(rest) && Partial(data) == Partial(rest)
  }

  lemma CutOneMore(data: seq<byte>, done: seq<seq<byte>>, rest: seq<byte>)
    requires CutSoFar(data, done, rest) && StrChr(rest, NEWLINE, 0) != -1
    ensures var nl := StrChr(rest, NEWLINE, 0);
            CutSoFar(data, done + LineBefore(rest, nl), rest[nl + 1..])
  {
    hide Payloads, Partial, StrChr;
    CutOne(rest, StrChr(rest, NEWLINE, 0));
  }

  lemma AllCut(data: seq<byte>, done: seq<seq<byte>>, rest: seq<byte>)
    requires CutSoFar(data, done, rest) && StrChr(rest, NEWLINE, 0) == -1
    ensures Payloads(data) == done && Partial(data) == rest
  {
  }

  class Relay {
    const inBuf: array<byte>
    const pty: Pty
    var inLen: nat
    var sent: seq<byte>

    ghost predicate Valid()
      reads this, inBuf
    {
      && inBuf.Length == BUFFER_SIZE && inLen < BUFFER_SIZE
      && Payloads(inBuf[..inLen]) == [] && Partial(inBuf[..inLen]) == inBuf[..inLen]
    }

    ghost function Pending(): seq<byte>
      reads this, inBuf
      requires Valid()
    {
      inBuf[..inLen]
    }

    constructor (pty: Pty)
      ensures Valid() && Pending() == [] && sent == [] && this.pty == pty && fresh(inBuf)
    {
      this.pty := pty;
      inBuf := new byte[BUFFER_SIZE];
      inLen := 0;
      sent := [];
    }

    /** PTY output is ready: encode what was read and send it to the client. */
    method OnPtyReadable(read: seq<byte>) returns (running: bool)
      requires Valid() && |read| <= PTY_READ_SIZE
      modifies this`sent
      ensures running <==> read != []
      ensures sent == old(sent) + if read == [] then [] else Frame(TakenPart(read))
    {
      if |read| <= 0 {
        return false;
      }
      var jsonBuf := new byte[JSON_BUFFER_SIZE];
      var jlen := JsonEscapePtyData(read, jsonBuf, jsonBuf.Length);
      sent := sent + jsonBuf[..jlen];
      running := true;
    }

    /** Client input is ready: append it, process each complete line, keep the rest. */
    method OnClientReadable(read: seq<byte>) returns (running: bool)
      requires Valid() && |read| <= BUFFER_SIZE - inLen - 1
      modifies this`inLen, inBuf, pty
      ensures Valid() && (running <==> read != [])
      ensures pty.effects == old(pty.effects) + ProcessAll(Payloads(old(Pending()) + read))
      ensures Pending() == Partial(old(Pending()) + read)
    {
      if |read| <= 0 {
        assert inBuf[..inLen] + read == inBuf[..inLen];
        return false;
      }
      ghost var data := inBuf[..inLen] + read;
      Append(read);
      var lineStart := ProcessLines(data);
      Compact(lineStart, Partial(data));
      PartialHasNoPayload(data);
      running := true;
    }

    method Append(read: seq<byte>)
      requires inBuf.Length == BUFFER_SIZE && inLen + |read| < BUFFER_SIZE
      modifies this`inLen, inBuf
      ensures inLen == old(inLen) + |read|
      ensures inBuf[..inLen] == old(inBuf[..inLen]) + read && inBuf[inLen] == NUL
    {
      var i := 0;
      while i < |read|
        invariant 0 <= i <= |read| && inLen == old(inLen)
        invariant inBuf[..inLen + i] == old(inBuf[..inLen]) + read[..i]
      {
        inBuf[inLen + i] := read[i];
        i := i + 1;
      }
      inLen := inLen + |read|;
      inBuf[inLen] := NUL;
    }

    /** The line loop has handled `done` of the buffer contents `data`; `rest` starts at lineStart. */
    ghost predicate AtLine(data: seq<byte>, done: seq<seq<byte>>, rest: seq<byte>, lineStart: nat,
                           before: seq<Effect>)
      reads this, inBuf, pty
    {
      && inBuf.Length == BUFFER_SIZE && lineStart <= inLen < BUFFER_SIZE
      && inBuf[lineStart..inLen] == rest && inBuf[inLen] == NUL
      && CutSoFar(data, done, rest)
      && pty.effects == before + ProcessAll(done)
    }

    /** *newline_pos = '\0': the line before it becomes a C string. */
    method Terminate(lineStart: nat, newlinePos: nat, ghost rest: seq<byte>)
      requires inBuf.Length == BUFFER_SIZE && lineStart <= newlinePos < inLen < BUFFER_SIZE
      requires inBuf[lineStart..inLen] == rest && inBuf[inLen] == NUL
      modifies inBuf
      ensures inBuf[inLen] == NUL && inBuf[lineStart..newlinePos] == rest[..newlinePos - lineStart]
      ensures inBuf[newlinePos + 1..inLen] == rest[newlinePos - lineStart + 1..]
    {
      assert inBuf[lineStart..newlinePos] == inBuf[lineStart..inLen][..newlinePos - lineStart];
      assert inBuf[newlinePos + 1..inLen] == inBuf[lineStart..inLen][newlinePos - lineStart + 1..];
      inBuf[newlinePos] := NUL;
    }

    method ProcessUnlessEmpty(line: seq<byte>)
      modifies pty
      ensures pty.effects == old(pty.effects) + ProcessAll(if |line| > 0 then [line] else [])
    {
      if |line| > 0 {
        ParseAndProcessPayload(pty, line);
      }
    }

    /** One complete line of the strchr loop. */
    method HandleLine(lineStart: nat, newlinePos: nat, ghost data: seq<byte>, ghost done: seq<seq<byte>>,
                      ghost rest: seq<byte>, ghost before: seq<Effect>)
      returns (ghost done': seq<seq<byte>>)
      requires AtLine(data, done, rest, lineStart, before) && newlinePos == NextPos(rest, lineStart)
      modifies inBuf, pty
      ensures AtLine(data, done', rest[newlinePos - lineStart + 1..], newlinePos + 1, before)
    {
      hide Process, Payloads, Partial, ProcessAll;
      ghost var line := LineBefore(rest, newlinePos - lineStart);
      CutOneMore(data, done, rest);
      EffectsExtend(before, done, line);
      done' := done + line;
      Terminate(lineStart, newlinePos, rest);
      ProcessUnlessEmpty(inBuf[lineStart..newlinePos]);
    }

    /** The strchr loop; returns the start of the unfinished line. */
    method ProcessLines(ghost data: seq<byte>) returns (lineStart: nat)
      requires inBuf.Length == BUFFER_SIZE && inLen < BUFFER_SIZE
      requires inBuf[..inLen] == data && inBuf[inLen] == NUL
      modifies inBuf, pty
      ensures pty.effects == old(pty.effects) + ProcessAll(Payloads(data))
      ensures lineStart <= inLen && inBuf[lineStart..inLen] == Partial(data)
    {
      hide Process, StrChr;
      lineStart := 0;
      ghost var done: seq<seq<byte>> := [];
      ghost var rest := data;
      var newlinePos := NextNewline(lineStart, rest);
      while newlinePos != -1
        invariant AtLine(data, done, rest, lineStart, old(pty.effects))
        invariant newlinePos == NextPos(rest, lineStart)
        decreases inLen - lineStart
      {
        done := HandleLine(lineStart, newlinePos, data, done, rest, old(pty.effects));
        rest := rest[newlinePos - lineStart + 1..];
        lineStart := newlinePos + 1;
        newlinePos := NextNewline(lineStart, rest);
      }
      AllCut(data, done, rest);
    }

    /** strchr(line_start, '\n') over the whole buffer: the NUL behind the input ends the search. */
    method NextNewline(lineStart: nat, ghost rest: seq<byte>) returns (newlinePos: int)
      requires inBuf.Length == BUFFER_SIZE && lineStart <= inLen < BUFFER_SIZE
      requires inBuf[lineStart..inLen] == rest && inBuf[inLen] == NUL
      ensures newlinePos == NextPos(rest, lineStart)
    {
      newlinePos := StrChr(inBuf[..], NEWLINE, lineStart);
      StrChrShift(inBuf[..], lineStart, lineStart, inLen);
      assert inBuf[..][lineStart..inLen] == rest;
    }

    /** memmove of the unfinished line to the front. */
    method Compact(lineStart: nat, ghost rest: seq<byte>)
      requires inBuf.Length == BUFFER_SIZE && lineStart <= inLen < BUFFER_SIZE
      requires inBuf[lineStart..inLen] == rest
      modifies this`inLen, inBuf
      ensures inLen == |rest| && inBuf[..inLen] == rest
    {
      var remaining := inLen - lineStart;
      var i := 0;
      while i < remaining
        invariant 0 <= i <= remaining && inLen == old(inLen)
        invariant inBuf[..i] == rest[..i]
        invariant inBuf[lineStart + i..inLen] == rest[i..]
      {
        assert inBuf[lineStart + i..inLen][0] == rest[i..][0];
        inBuf[i] := inBuf[lineStart + i];
        i := i + 1;
      }
      inLen := remaining;
    }

    /** The relay has taken in the first `upto` bytes of the stream, its PTY having started from `before`. */
    ghost predicate Served(stream: seq<byte>, upto: nat, before: seq<Effect>)
      reads this, inBuf, pty
    {
      && Valid() && upto <= |stream| && Pending() == Partial(stream[..upto])
      && pty.effects == before + ProcessAll(Payloads(stream[..upto]))
      && NeverFull(stream, upto)
    }

    /** One read of at most `size` bytes from what is left of the stream. */
    method ReadOnce(stream: seq<byte>, from: nat, size: nat, ghost before: seq<Effect>)
      returns (running: bool, upto: nat)
      requires size >= 1 && Served(stream, from, before)
      modifies this`inLen, inBuf, pty
      ensures Served(stream, upto, before) && from <= upto && (running <==> from < upto)
      ensures !running ==> upto == |stream| || inLen == BUFFER_SIZE - 1
    {
      hide Process, ProcessAll, Payloads, Partial;
      var room := BUFFER_SIZE - inLen - 1;
      var n := if size < room then size else room;
      n := if n < |stream| - from then n else |stream| - from;
      ReadStep(stream, from, n, before);
      PartialsInside(stream, from, n);
      running := OnClientReadable(stream[from..from + n]);
      upto := from + n;
    }

    /** A whole connection: `stream` is what the client sends before it closes, `sizes` what the reads
        ask the kernel for at most. Returns how much of the stream was consumed. */
    method ServeClient(stream: seq<byte>, sizes: seq<nat>) returns (consumed: nat)
      requires Valid() && Pending() == []
      requires forall i :: 0 <= i < |sizes| ==> sizes[i] >= 1
      modifies this`inLen, inBuf, pty
      ensures Valid() && consumed <= |stream|
      ensures pty.effects == old(pty.effects) + ProcessAll(Payloads(stream[..consumed]))
      ensures Pending() == Partial(stream[..consumed])
      // Given enough reads, everything arrives exactly when no line fills the buffer.
      ensures |sizes| >= |stream| ==> (consumed == |stream| <==> LinesFit(stream, BUFFER_SIZE - 1))
    {
      hide Process;
      consumed := 0;
      var i := 0;
      var running := true;
      assert stream[..0] == [];
      while running && i < |sizes|
        invariant i <= |sizes| && Served(stream, consumed, old(pty.effects))
        invariant running ==> consumed >= i
        invariant !running ==> consumed == |stream| || inLen == BUFFER_SIZE - 1
        decreases running, |sizes| - i
      {
        running, consumed := ReadOnce(stream, consumed, sizes[i], old(pty.effects));
        i := i + 1;
      }
    }
  }

  /** Before `upto` the unfinished line always left room to read. */
  predicate NeverFull(stream: seq<byte>, upto: nat)
    requires upto <= |stream|
  {
    forall n :: 0 <= n < upto ==> |Partial(stream[..n])| < BUFFER_SIZE - 1
  }

  lemma ReadStep(stream: seq<byte>, from: nat, n: nat, before: seq<Effect>)
    requires from + n <= |stream|
    ensures var carried := Partial(stream[..from]) + stream[from..from + n];
            && Partial(stream[..from + n]) == Partial(carried)
            && before + ProcessAll(Payloads(stream[..from])) + ProcessAll(Payloads(carried))
               == before + ProcessAll(Payloads(stream[..from + n]))
  {
    var read := stream[from..from + n];
    assert stream[..from] + read == stream[..from + n];
    CutAnywhere(stream[..from], read);
    EffectsExtend(before, Payloads(stream[..from]), Payloads(Partial(stream[..from]) + read));
  }

  /** While a read is being taken in, the unfinished line never outgrows the buffer. */
  lemma PartialsInside(stream: seq<byte>, from: nat, n: nat)
    requires from + n <= |stream| && |Partial(stream[..from])| + n <= BUFFER_SIZE - 1
    requires NeverFull(stream, from)
    ensures NeverFull(stream, from + n)
  {
    hide Partial;
    forall k | from <= k < from + n
      ensures |Partial(stream[..k])| < BUFFER_SIZE - 1
    {
      PartialGrowth(stream[..from], stream[from..k]);
      assert stream[..from] + stream[from..k] == stream[..k];
    }
  }

  // ---------- the wire, end to end ----------

  function Concat(blocks: seq<seq<byte>>): seq<byte> {
    if blocks == [] then [] else blocks[0] + Concat(blocks[1..])
  }

  function Written(effects: seq<Effect>): seq<byte> {
    if effects == [] then []
    else (if effects[0].Write? then effects[0].bytes else []) + Written(effects[1..])
  }

  /** What the encoder takes of one PTY read. */
  function TakenPart(block: seq<byte>): (r: seq<byte>)
    ensures |r| <= |block|
  {
    block[..Taken(block, JSON_BUFFER_SIZE)]
  }

  /** What one daemon sends for a list of PTY reads. */
  function Sent(blocks: seq<seq<byte>>): seq<byte> {
    if blocks == [] then [] else Frame(TakenPart(blocks[0])) + Sent(blocks[1..])
  }

  function TakenParts(blocks: seq<seq<byte>>): seq<seq<byte>> {
    if blocks == [] then [] else [TakenPart(blocks[0])] + TakenParts(blocks[1..])
  }

  function FrameLine(src: seq<byte>): seq<byte> {
    Frame(src)[..|Frame(src)| - 1]
  }

  function FrameLines(blocks: seq<seq<byte>>): seq<seq<byte>> {
    if blocks == [] then [] else [FrameLine(TakenPart(blocks[0]))] + FrameLines(blocks[1..])
  }

  function Writes(blocks: seq<seq<byte>>): seq<Effect> {
    if blocks == [] then [] else [Write(blocks[0])] + Writes(blocks[1..])
  }

  lemma TakenNotEmpty(block: seq<byte>)
    requires block != []
    ensures TakenPart(block) != []
  {
  }

  lemma FrameLineWrites(block: seq<byte>)
    requires block != []
    ensures AsList(Process(FrameLine(TakenPart(block)))) == [Write(TakenPart(block))]
  {
    TakenNotEmpty(block);
    FrameRoundTrip(TakenPart(block));
  }

  lemma FrameLineIsLine(block: seq<byte>)
    requires block != []
    ensures var line := FrameLine(TakenPart(block));
            && IsLine(line) && line != [] && |line| < BUFFER_SIZE - 1
            && Frame(TakenPart(block)) == line + [NEWLINE]
  {
    var part := TakenPart(block);
    TakenNotEmpty(block);
    FrameIsOneLine(part);
    TakenFits(block, JSON_BUFFER_SIZE);
    FrameLength(part, JSON_BUFFER_SIZE);
  }

  lemma {:induction false} SentIsLines(blocks: seq<seq<byte>>)
    requires [] !in blocks
    ensures Sent(blocks) == Unlines(FrameLines(blocks))
    ensures NonEmpty(FrameLines(blocks)) == FrameLines(blocks)
    ensures forall line :: line in FrameLines(blocks) ==> IsLine(line) && |line| < BUFFER_SIZE - 1
    decreases |blocks|
  {
    if blocks != [] {
      FrameLineIsLine(blocks[0]);
      SentIsLines(blocks[1..]);
    }
  }

  lemma {:induction false} FrameLinesWrite(blocks: seq<seq<byte>>)
    requires [] !in blocks
    ensures ProcessAll(FrameLines(blocks)) == Writes(TakenParts(blocks))
    decreases |blocks|
  {
    if blocks != [] {
      FrameLineWrites(blocks[0]);
      FrameLinesWrite(blocks[1..]);
    }
  }

  lemma {:induction false} WrittenConcat(blocks: seq<seq<byte>>)
    ensures Written(Writes(blocks)) == Concat(blocks)
    decreases |blocks|
  {
    if blocks != [] {
      WrittenConcat(blocks[1..]);
    }
  }

  predicate AllFit(blocks: seq<seq<byte>>) {
    forall b :: b in blocks ==> Fits(b, JSON_BUFFER_SIZE)
  }

  lemma {:induction false} PartsShorter(blocks: seq<seq<byte>>)
    ensures |Concat(TakenParts(blocks))| <= |Concat(blocks)|
    ensures AllFit(blocks) ==> TakenParts(blocks) == blocks
    ensures !AllFit(blocks) ==> |Concat(TakenParts(blocks))| < |Concat(blocks)|
    decreases |blocks|
  {
    if blocks != [] {
      PartsShorter(blocks[1..]);
      TakesAllIffFits(blocks[0], JSON_BUFFER_SIZE);
      assert blocks == [blocks[0]] + blocks[1..];
      assert AllFit(blocks) <==> Fits(blocks[0], JSON_BUFFER_SIZE) && AllFit(blocks[1..]);
      assert Fits(blocks[0], JSON_BUFFER_SIZE) ==> TakenPart(blocks[0]) == blocks[0];
    }
  }

  /** What one daemon frames, another one reads back: for every list of non-empty PTY reads, in whatever
      pieces the frames arrive, no frame is taken for a resize or copied raw, the buffer never fills, and
      exactly the encoded bytes are written. */
  lemma {:induction false} WireDelivery(blocks: seq<seq<byte>>)
    requires [] !in blocks
    ensures LinesFit(Sent(blocks), BUFFER_SIZE - 1)
    ensures Partial(Sent(blocks)) == []
    ensures ProcessAll(Payloads(Sent(blocks))) == Writes(TakenParts(blocks))
  {
    var lines := FrameLines(blocks);
    SentIsLines(blocks);
    FrameLinesWrite(blocks);
    LinesFitIff(lines, BUFFER_SIZE - 1);
    PayloadsAreTheLines(lines, []);
    assert Unlines(lines) + [] == Unlines(lines);
  }

  /** The wire is the identity exactly when no read overflows the frame buffer. */
  lemma WireIdentityIff(blocks: seq<seq<byte>>)
    requires [] !in blocks
    ensures Written(ProcessAll(Payloads(Sent(blocks)))) == Concat(blocks) <==> AllFit(blocks)
  {
    WireDelivery(blocks);
    WrittenConcat(TakenParts(blocks));
    PartsShorter(blocks);
  }

  lemma {:induction false} SentExtends(blocks: seq<seq<byte>>, block: seq<byte>)
    ensures Sent(blocks + [block]) == Sent(blocks) + Frame(TakenPart(block))
    decreases |blocks|
  {
    hide Frame, TakenPart;
    if blocks == [] {
      assert [block][1..] == [] && Sent([]) == [];
      assert blocks + [block] == [block];
    } else {
      assert (blocks + [block])[0] == blocks[0] && (blocks + [block])[1..] == blocks[1..] + [block];
      SentExtends(blocks[1..], block);
    }
  }

  /** One relay reads its PTY block by block and sends the frames. */
  method SendAll(sender: Relay, blocks: seq<seq<byte>>)
    requires sender.Valid() && sender.sent == []
    requires forall b :: b in blocks ==> 0 < |b| <= PTY_READ_SIZE
    modifies sender`sent
    ensures sender.Valid() && sender.sent == Sent(blocks)
  {
    hide Frame, TakenPart, Payloads, Partial;
    var i := 0;
    while i < |blocks|
      invariant 0 <= i <= |blocks| && sender.Valid() && sender.sent == Sent(blocks[..i])
    {
      SentExtends(blocks[..i], blocks[i]);
      assert blocks[..i + 1] == blocks[..i] + [blocks[i]];
      var running := sender.OnPtyReadable(blocks[i]);
      i := i + 1;
    }
    assert blocks[..i] == blocks;
  }

  /** The wire from PTY to PTY: whatever the reads on both sides, given enough of them, the receiver writes
      one block per block read, each the encoded part of it, and so the blocks themselves if they all fit. */
  method Transfer(sender: Relay, receiver: Relay, blocks: seq<seq<byte>>, sizes: seq<nat>)
    requires sender.Valid() && sender.sent == [] && receiver.Valid() && receiver.Pending() == []
    requires sender != receiver && sender.inBuf != receiver.inBuf
    requires forall b :: b in blocks ==> 0 < |b| <= PTY_READ_SIZE
    requires |sizes| >= |Sent(blocks)| && forall i :: 0 <= i < |sizes| ==> sizes[i] >= 1
    modifies sender`sent, receiver`inLen, receiver.inBuf, receiver.pty
    ensures sender.Valid() && receiver.Valid() && receiver.Pending() == []
    ensures receiver.pty.effects == old(receiver.pty.effects) + Writes(TakenParts(blocks))
    ensures AllFit(blocks) ==> receiver.pty.effects == old(receiver.pty.effects) + Writes(blocks)
  {
    hide Payloads, Partial, ProcessAll, Sent, Writes, TakenPart;
    SendAll(sender, blocks);
    WireDelivery(blocks);
    PartsShorter(blocks);
    var consumed := receiver.ServeClient(sender.sent, sizes);
    assert Sent(blocks)[..consumed] == Sent(blocks);
  }
}
