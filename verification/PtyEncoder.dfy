/** `json_escape_pty_data`: PTY bytes into one JSON data frame in a bounded buffer. */
module PtyEncoder {
  import opened Bytes
  import opened PtyEscaping

  const COMPACT_PREFIX: seq<byte> := Ascii("{\"type\":\"data\",\"data\":\"")
  const FRAME_SUFFIX: seq<byte> := [QUOTE, Ch('}'), NEWLINE]

  function Frame(src: seq<byte>): seq<byte> {
    COMPACT_PREFIX + Escape(src) + FRAME_SUFFIX
  }

  /** How many source bytes from s on the loop takes, with d bytes written and the loop stopping at `limit`. */
  function TakenFrom(src: seq<byte>, s: nat, d: nat, limit: int): (k: nat)
    requires s <= |src|
    ensures s <= k <= |src|
    decreases |src| - s
  {
    if s < |src| && d < limit then TakenFrom(src, s + 1, d + |Print(TokenOf(src[s]))|, limit) else s
  }

  function Taken(src: seq<byte>, dstMax: nat): (k: nat)
    ensures k <= |src|
  {
    TakenFrom(src, 0, |COMPACT_PREFIX|, dstMax - 30)
  }

  /** Every byte is taken exactly when the output before the last one is still below the limit. */
  predicate Fits(src: seq<byte>, dstMax: nat) {
    src == [] || |COMPACT_PREFIX| + |Escape(src[..|src| - 1])| < dstMax - 30
  }

  lemma EscapeOfNothing()
    ensures Escape([]) == []
  {
  }

  lemma EscapeGrows(src: seq<byte>, i: nat, j: nat)
    requires i <= j <= |src|
    ensures |Escape(src[..i])| <= |Escape(src[..j])|
    decreases j - i
  {
    if i < j {
      EscapeStep(src, j - 1);
      EscapeGrows(src, i, j - 1);
    }
  }

  lemma {:induction false} TakenFromIsMaximal(src: seq<byte>, s: nat, d: nat, limit: int)
    requires s <= |src| && d == |COMPACT_PREFIX| + |Escape(src[..s])|
    ensures var k := TakenFrom(src, s, d, limit);
            && (k > s ==> |COMPACT_PREFIX| + |Escape(src[..k - 1])| < limit)
            && (k < |src| ==> |COMPACT_PREFIX| + |Escape(src[..k])| >= limit)
    decreases |src| - s
  {
    hide TokenOf, Print, PrintAll;
    if s < |src| && d < limit {
      EscapeStep(src, s);
      TakenFromIsMaximal(src, s + 1, d + |Print(TokenOf(src[s]))|, limit);
      var k := TakenFrom(src, s, d, limit);
      if k == s + 1 {
        assert src[..k - 1] == src[..s];
      }
    }
  }

  /** The encoder takes the whole source exactly when it fits; otherwise it stops at the first position
      where the output has reached the limit, and drops the rest. */
  lemma TakesAllIffFits(src: seq<byte>, dstMax: nat)
    ensures Taken(src, dstMax) == |src| <==> Fits(src, dstMax)
    ensures var k := Taken(src, dstMax);
            && (k > 0 ==> |COMPACT_PREFIX| + |Escape(src[..k - 1])| < dstMax - 30)
            && (k < |src| ==> |COMPACT_PREFIX| + |Escape(src[..k])| >= dstMax - 30)
  {
    assert src[..0] == [];
    TakenFromIsMaximal(src, 0, |COMPACT_PREFIX|, dstMax - 30);
    var k := Taken(src, dstMax);
    if k < |src| {
      EscapeGrows(src, k, |src| - 1);
    }
  }

  /** Prefix and escapes within the limit are enough. */
  lemma WithinLimitFits(src: seq<byte>, dstMax: nat)
    requires |COMPACT_PREFIX| + |Escape(src)| <= dstMax - 30
    ensures Fits(src, dstMax)
  {
    if src != [] {
      EscapeStep(src, |src| - 1);
      assert src[..|src| - 1 + 1] == src;
    }
  }

  /** What is taken always fits, so the prefix property of the encoder is itself a complete encoding. */
  lemma TakenFits(src: seq<byte>, dstMax: nat)
    ensures Fits(src[..Taken(src, dstMax)], dstMax)
  {
    TakesAllIffFits(src, dstMax);
    var k := Taken(src, dstMax);
    if k > 0 {
      assert src[..k][..k - 1] == src[..k - 1];
    }
  }

  lemma FrameLength(src: seq<byte>, dstMax: nat)
    requires Fits(src, dstMax) && dstMax >= 30
    ensures |Frame(src)| <= if src == [] then 26 else dstMax - 22
  {
    if src == [] {
      assert Escape(src) == [];
    } else {
      EscapeStep(src, |src| - 1);
      assert src[..|src| - 1 + 1] == src;
    }
  }

  lemma {:induction false} EscapeOfNuls(n: nat)
    ensures |Escape(seq(n, i => NUL))| == 6 * n
  {
    if n > 0 {
      var src := seq(n, i => NUL);
      assert src[..n] == src && src[..n - 1] == seq(n - 1, i => NUL);
      EscapeStep(src, n - 1);
      EscapeOfNuls(n - 1);
    }
  }

  /** The daemon reads at most 4096 PTY bytes into a 16384-byte frame buffer. That is not always enough:
      a full read of NUL bytes loses its tail. */
  lemma FullReadCanBeTruncated()
    ensures var src := seq(4096, i => NUL); Taken(src, 16384) < |src|
  {
    var src := seq(4096, i => NUL);
    assert src[..4095] == seq(4095, i => NUL);
    EscapeOfNuls(4095);
    TakesAllIffFits(src, 16384);
  }

  /** A read of at most 2722 bytes is never truncated by that buffer. */
  lemma ShortReadFits(src: seq<byte>)
    requires |src| <= 2722
    ensures Fits(src, 16384)
  {
    if src != [] {
      PrintedBytes(Tokens(src[..|src| - 1]));
    }
  }

  /** snprintf(dst + d, max, text): at most max - 1 bytes and a terminating NUL. */
  method Snprintf(dst: array<byte>, d: nat, max: nat, text: seq<byte>) returns (n: nat)
    requires 0 < max && d + max <= dst.Length
    modifies dst
    ensures n == |text|
    ensures var w := if |text| < max then text else text[..max - 1];
            && dst[..d + |w|] == old(dst[..d]) + w && dst[d + |w|] == NUL
            && forall k :: d + max <= k < dst.Length ==> dst[k] == old(dst[k])
  {
    var w := if |text| < max then |text| else max - 1;
    var i := 0;
    while i < w
      invariant 0 <= i <= w
      invariant dst[..d + i] == old(dst[..d]) + text[..i]
      invariant forall k :: d + max <= k < dst.Length ==> dst[k] == old(dst[k])
    {
      dst[d + i] := text[i];
      i := i + 1;
    }
    dst[d + w] := NUL;
    n := |text|;
    assert text[..|text|] == text;
  }

  /** dst[d++] = b. */
  method Put(dst: array<byte>, d0: nat, b: byte) returns (d: nat)
    requires d0 < dst.Length
    modifies dst
    ensures d == d0 + 1 && dst[..d] == old(dst[..d0]) + [b]
    ensures forall k :: d <= k < dst.Length ==> dst[k] == old(dst[k])
  {
    dst[d0] := b;
    d := d0 + 1;
  }

  method PutShort(dst: array<byte>, d0: nat, e: byte) returns (d: nat)
    requires d0 + 2 <= dst.Length
    modifies dst
    ensures d == d0 + 2 && dst[..d] == old(dst[..d0]) + [BACKSLASH, e]
    ensures forall k :: d <= k < dst.Length ==> dst[k] == old(dst[k])
  {
    d := Put(dst, d0, BACKSLASH);
    d := Put(dst, d, e);
  }

  /** The branch taken for one source byte. */
  method EscapeOne(c: byte, dst: array<byte>, d0: nat) returns (d: nat)
    requires d0 + 6 <= dst.Length
    modifies dst
    ensures d == d0 + |Print(TokenOf(c))|
    ensures dst[..d] == old(dst[..d0]) + Print(TokenOf(c))
    ensures forall k :: d <= k < dst.Length ==> dst[k] == old(dst[k])
  {
    if c == QUOTE {
      d := PutShort(dst, d0, QUOTE);
    } else if c == BACKSLASH {
      d := PutShort(dst, d0, BACKSLASH);
    } else if c == NEWLINE {
      d := PutShort(dst, d0, Ch('n'));
    } else if c == CARRIAGE_RETURN {
      d := PutShort(dst, d0, Ch('r'));
    } else if c == TAB {
      d := PutShort(dst, d0, Ch('t'));
    } else if c == BACKSPACE {
      d := PutShort(dst, d0, Ch('b'));
    } else if c < 0x20 {
      d := PutUnicode(dst, d0, HexDigit(c / 16 % 16), HexDigit(c % 16));
    } else {
      d := Put(dst, d0, c);
    }
  }

  method PutUnicode(dst: array<byte>, d0: nat, h1: byte, h0: byte) returns (d: nat)
    requires d0 + 6 <= dst.Length
    modifies dst
    ensures d == d0 + 6 && dst[..d] == old(dst[..d0]) + [BACKSLASH, Ch('u'), 48, 48, h1, h0]
    ensures forall k :: d <= k < dst.Length ==> dst[k] == old(dst[k])
  {
    d := PutShort(dst, d0, Ch('u'));
    d := Put(dst, d, Ch('0'));
    d := Put(dst, d, Ch('0'));
    d := Put(dst, d, h1);
    d := Put(dst, d, h0);
  }

  /** The loop over the source bytes. */
  method EscapeAll(src: seq<byte>, dst: array<byte>, dstMax: nat, d0: nat) returns (d: nat)
    requires 30 <= dstMax <= dst.Length && d0 == |COMPACT_PREFIX| && dst[..d0] == COMPACT_PREFIX
    modifies dst
    ensures d + 4 <= dstMax && dst[..d] == COMPACT_PREFIX + Escape(src[..Taken(src, dstMax)])
    ensures forall k :: dstMax <= k < dst.Length ==> dst[k] == old(dst[k])
  {
    hide TokenOf, Print, PrintAll;
    d := d0;
    var s := 0;
    EscapeOfNothing();
    assert src[..0] == [];
    while s < |src| && d < dstMax - 30
      invariant s <= |src| && d + 4 <= dstMax
      invariant dst[..d] == COMPACT_PREFIX + Escape(src[..s])
      invariant TakenFrom(src, s, d, dstMax - 30) == Taken(src, dstMax)
      invariant forall k :: dstMax <= k < dst.Length ==> dst[k] == old(dst[k])
    {
      EscapeStep(src, s);
      d := EscapeOne(src[s], dst, d);
      s := s + 1;
    }
  }

  /** The encoder: the frame of exactly the bytes taken, a NUL behind it, and nothing else touched.
      Below 30 the C expression dst_max - 30 wraps around; callers pass at least that. */
  method JsonEscapePtyData(src: seq<byte>, dst: array<byte>, dstMax: nat) returns (d: nat)
    requires 30 <= dstMax <= dst.Length
    modifies dst
    ensures d < dstMax && dst[..d] == Frame(src[..Taken(src, dstMax)]) && dst[d] == NUL
    ensures forall k :: dstMax <= k < dst.Length ==> dst[k] == old(dst[k])
  {
    var w := Snprintf(dst, 0, dstMax, COMPACT_PREFIX);
    assert dst[..w] == COMPACT_PREFIX;
    d := EscapeAll(src, dst, dstMax, w);
    w := Snprintf(dst, d, dstMax - d, FRAME_SUFFIX);
    d := d + w;
  }
}
