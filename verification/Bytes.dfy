/** Bytes as the terminal daemon sees them, and the C string functions it relies on. */
module Bytes {

  type byte = b: int | 0 <= b < 256

  const NUL: byte := 0
  const BACKSPACE: byte := 8
  const TAB: byte := 9
  const NEWLINE: byte := 10
  const FORM_FEED: byte := 12
  const CARRIAGE_RETURN: byte := 13
  const SPACE: byte := 32
  const QUOTE: byte := 34
  const COLON: byte := 58
  const BACKSLASH: byte := 92

  function Ch(c: char): byte
    requires c < 128 as char
  {
    c as int
  }

  /** The bytes of an ASCII literal. */
  function Ascii(s: string): (r: seq<byte>)
    requires forall i :: 0 <= i < |s| ==> s[i] < 128 as char
    ensures |r| == |s|
    ensures forall i :: 0 <= i < |s| ==> r[i] == s[i] as int
  {
    seq(|s|, i requires 0 <= i < |s| => Ch(s[i]))
  }

  predicate MatchesAt(s: seq<byte>, needle: seq<byte>, i: nat) {
    i + |needle| <= |s| && forall j :: 0 <= j < |needle| ==> s[i + j] == needle[j]
  }

  /** strstr(s + from, needle): the first match at or after `from`, or -1. */
  function StrStr(s: seq<byte>, needle: seq<byte>, from: nat): (r: int)
    requires from <= |s|
    ensures r == -1 || (from <= r <= |s| && MatchesAt(s, needle, r))
    ensures forall k :: from <= k <= |s| && (r == -1 || k < r) ==> !MatchesAt(s, needle, k)
    decreases |s| - from
  {
    if MatchesAt(s, needle, from) then from
    else if from == |s| then -1
    else StrStr(s, needle, from + 1)
  }

  /** strchr(s + from, c) for a character other than NUL: the scan ends at a NUL byte. */
  function StrChr(s: seq<byte>, c: byte, from: nat): (r: int)
    requires from <= |s| && c != NUL
    ensures r == -1 || (from <= r < |s| && s[r] == c)
    ensures forall k :: from <= k < |s| && k < r ==> s[k] != c && s[k] != NUL
    ensures r == -1 ==> forall k :: from <= k < |s| && s[k] == c ==> exists z :: from <= z < k && s[z] == NUL
    decreases |s| - from
  {
    if from == |s| || s[from] == NUL then -1
    else if s[from] == c then from
    else StrChr(s, c, from + 1)
  }

  /** strrchr(s + from, c) on a NUL-free string: the last occurrence at or after `from`, or -1. */
  function StrRChr(s: seq<byte>, c: byte, from: nat): (r: int)
    requires from <= |s|
    ensures r == -1 || (from <= r < |s| && s[r] == c)
    ensures forall k :: from <= k < |s| && r < k ==> s[k] != c
    decreases |s| - from
  {
    if from == |s| then -1
    else
      var later := StrRChr(s, c, from + 1);
      if later != -1 then later else if s[from] == c then from else -1
  }

  predicate NulFree(s: seq<byte>) {
    NUL !in s
  }
}
