/** Python string operations on ASCII text. */
module Texts {

  /** The characters str.strip() removes. */
  const BLANKS: set<char> := {
    ' ', '\t', '\n', '\r', '\U{0B}', '\U{0C}', '\U{1C}', '\U{1D}', '\U{1E}', '\U{1F}'
  }

  function LowerChar(c: char): char {
    if 'A' <= c <= 'Z' then c - 'A' + 'a' else c
  }

  /** s.lower() */
  function Lower(s: string): (r: string)
    ensures |r| == |s| && forall i :: 0 <= i < |s| ==> r[i] == LowerChar(s[i])
  {
    seq(|s|, i requires 0 <= i < |s| => LowerChar(s[i]))
  }

  function StripLeft(s: string, drop: set<char>): string {
    if s != "" && s[0] in drop then StripLeft(s[1..], drop) else s
  }

  function StripRight(s: string, drop: set<char>): string {
    if s != "" && s[|s| - 1] in drop then StripRight(s[..|s| - 1], drop) else s
  }

  /** s.strip(drop) */
  function Strip(s: string, drop: set<char>): string {
    StripRight(StripLeft(s, drop), drop)
  }

  predicate AllIn(s: string, drop: set<char>) {
    forall c :: c in s ==> c in drop
  }

  /** `t` is `s` without the characters to drop at both ends, which leaves something. */
  ghost predicate Trimmed(s: string, drop: set<char>, t: string) {
    && t != "" && t[0] !in drop && t[|t| - 1] !in drop
    && exists before, behind :: s == before + t + behind && AllIn(before, drop) && AllIn(behind, drop)
  }

  /** Stripping removes everything if there is nothing else, and otherwise exactly the two ends. */
  lemma StripTrims(s: string, drop: set<char>)
    ensures if AllIn(s, drop) then Strip(s, drop) == "" else Trimmed(s, drop, Strip(s, drop))
  {
    var before := StripsLeft(s, drop);
    var middle := StripLeft(s, drop);
    var behind := StripsRight(middle, drop);
    var t := Strip(s, drop);
    assert s == before + t + behind;
    if t == "" {
      assert AllIn(s, drop);
    } else {
      assert t[0] == middle[0] && t[0] in s;
    }
  }

  lemma {:induction false} StripsLeft(s: string, drop: set<char>) returns (before: string)
    ensures s == before + StripLeft(s, drop) && AllIn(before, drop)
    ensures StripLeft(s, drop) != "" ==> StripLeft(s, drop)[0] !in drop
  {
    before := "";
    if s != "" && s[0] in drop {
      var rest := StripsLeft(s[1..], drop);
      before := [s[0]] + rest;
    }
  }

  lemma {:induction false} StripsRight(s: string, drop: set<char>) returns (behind: string)
    ensures s == StripRight(s, drop) + behind && AllIn(behind, drop)
    ensures StripRight(s, drop) != "" ==> StripRight(s, drop)[|StripRight(s, drop)| - 1] !in drop
  {
    behind := "";
    if s != "" && s[|s| - 1] in drop {
      var rest := StripsRight(s[..|s| - 1], drop);
      behind := rest + [s[|s| - 1]];
    }
  }

  /** The blanks of ASCII: the space, the five from the tab on, and the four separators. */
  lemma BlanksAre(c: char)
    ensures c in BLANKS <==> c == ' ' || '\t' <= c <= '\r' || '\U{1C}' <= c <= '\U{1F}'
  {
  }
}
