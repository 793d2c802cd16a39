/** MCP servers and their tool names: the slug rule, the names published to the model
    (`_schemas_from_mcp_servers`), their dispatch (`_execute_mcp_call`), and the slug-uniqueness invariant
    kept by the server endpoints (`routers/mcp.py`). */
module McpDispatch {
  import opened Options
  import opened Texts

  const MAX_TOOLS_PER_SERVER: nat := 100
  const PREFIX := "mcp__"
  const UNDERSCORE: set<char> := {'_'}

  // ---------- slugs ----------

  predicate IsSlugChar(c: char) {
    'a' <= c <= 'z' || '0' <= c <= '9'
  }

  function DropOthers(s: string): (r: string)
    ensures |r| <= |s| && (r == "" || IsSlugChar(r[0]))
  {
    if s == "" || IsSlugChar(s[0]) then s else DropOthers(s[1..])
  }

  /** re.sub("[^a-z0-9]+", "_", s) */
  function Underscored(s: string): string
    decreases |s|
  {
    if s == "" then ""
    else if IsSlugChar(s[0]) then [s[0]] + Underscored(s[1..])
    else "_" + Underscored(DropOthers(s[1..]))
  }

  function ServerSlug(name: string): string {
    var slug := Strip(Underscored(Lower(name)), UNDERSCORE);
    if slug == "" then "server" else slug
  }

  predicate NoDouble(s: string) {
    forall i :: 0 <= i < |s| - 1 ==> !(s[i] == '_' && s[i + 1] == '_')
  }

  predicate SlugChars(s: string) {
    forall i :: 0 <= i < |s| ==> IsSlugChar(s[i]) || s[i] == '_'
  }

  lemma {:induction false} UnderscoredShape(s: string)
    ensures NoDouble(Underscored(s)) && SlugChars(Underscored(s))
    ensures s != "" && IsSlugChar(s[0]) ==> Underscored(s) != "" && Underscored(s)[0] == s[0]
    decreases |s|
  {
    if s != "" {
      UnderscoredShape(if IsSlugChar(s[0]) then s[1..] else DropOthers(s[1..]));
    }
  }

  lemma StripLeftShape(s: string)
    requires NoDouble(s) && SlugChars(s)
    ensures NoDouble(StripLeft(s, UNDERSCORE)) && SlugChars(StripLeft(s, UNDERSCORE))
    ensures StripLeft(s, UNDERSCORE) != "" ==> StripLeft(s, UNDERSCORE)[0] != '_'
  {
  }

  lemma StripRightShape(s: string)
    requires NoDouble(s) && SlugChars(s)
    ensures NoDouble(StripRight(s, UNDERSCORE)) && SlugChars(StripRight(s, UNDERSCORE))
    ensures StripRight(s, UNDERSCORE) != "" ==>
      StripRight(s, UNDERSCORE)[|StripRight(s, UNDERSCORE)| - 1] != '_' && StripRight(s, UNDERSCORE)[0] == s[0]
  {
  }

  /** A slug that can be told apart from what follows it. */
  predicate GoodSlug(s: string) {
    s != "" && NoDouble(s) && s[|s| - 1] != '_'
  }

  /** Every server name gives such a slug, made of a-z, 0-9 and single inner underscores. */
  lemma SlugIsGood(name: string)
    ensures GoodSlug(ServerSlug(name)) && SlugChars(ServerSlug(name)) && ServerSlug(name)[0] != '_'
  {
    var u := Underscored(Lower(name));
    UnderscoredShape(Lower(name));
    StripLeftShape(u);
    StripRightShape(StripLeft(u, UNDERSCORE));
  }

  // ---------- what a slug is ----------

  predicate IsAlnum(c: char) {
    'a' <= c <= 'z' || 'A' <= c <= 'Z' || '0' <= c <= '9'
  }

  predicate LowersTo(c: char, d: char) {
    d as int == c as int + if 'A' <= c <= 'Z' then 32 else 0
  }

  predicate Rising(at: seq<nat>) {
    forall j, k :: 0 <= j < k < |at| ==> at[j] < at[k]
  }

  /** Letters and digits are copied in lower case, anything else gives an underscore. */
  predicate CopyOf(c: char, d: char) {
    if IsAlnum(c) then LowersTo(c, d) else d == '_'
  }

  predicate Copies(name: string, s: string, at: seq<nat>) {
    |at| == |s| && forall k :: 0 <= k < |s| ==> at[k] < |name| && CopyOf(name[at[k]], s[k])
  }

  /** No letter or digit is left out. */
  predicate Complete(name: string, at: seq<nat>) {
    forall i: nat :: i < |name| && IsAlnum(name[i]) ==> i in at
  }

  predicate AlnumAt(name: string, i: nat) {
    i < |name| && IsAlnum(name[i])
  }

  /** Letters and digits that follow each other did so in the name. */
  predicate Tight(name: string, at: seq<nat>) {
    forall k :: 0 < k < |at| && AlnumAt(name, at[k - 1]) && AlnumAt(name, at[k]) ==> at[k] == at[k - 1] + 1
  }

  /** `s` holds every letter and digit of `name`, in order and in lower case, and one underscore for each gap
      between two of them; `at` says where its characters stand. */
  predicate Spells(name: string, s: string, at: seq<nat>) {
    Rising(at) && Copies(name, s, at) && Complete(name, at) && Tight(name, at)
  }

  lemma DropOthersAt(s: string) returns (m: nat)
    ensures m <= |s| && DropOthers(s) == s[m..] && forall i :: 0 <= i < m ==> !IsSlugChar(s[i])
  {
    m := 0;
    if s != "" && !IsSlugChar(s[0]) {
      var rest := DropOthersAt(s[1..]);
      m := rest + 1;
    }
  }

  function ShiftBy(at: seq<nat>, n: nat): (r: seq<nat>)
    ensures |r| == |at| && forall k :: 0 <= k < |at| ==> r[k] == at[k] + n
  {
    seq(|at|, k requires 0 <= k < |at| => at[k] + n)
  }

  function Ahead(at: seq<nat>, n: nat): (r: seq<nat>)
    ensures |r| == |at| + 1 && r[0] == 0 && forall k :: 0 < k < |r| ==> r[k] == at[k - 1] + n
  {
    [0] + ShiftBy(at, n)
  }

  lemma RisingAhead(at: seq<nat>, n: nat)
    requires Rising(at) && n > 0
    ensures Rising(Ahead(at, n))
  {
    hide Ahead;
  }

  lemma CopiesAhead(name: string, n: nat, d: char, s: string, at: seq<nat>)
    requires n <= |name| && name != "" && CopyOf(name[0], d) && Copies(name[n..], s, at)
    ensures Copies(name, [d] + s, Ahead(at, n))
  {
    hide CopyOf, Ahead;
    var t, to := [d] + s, Ahead(at, n);
    forall k | 0 <= k < |t|
      ensures to[k] < |name| && CopyOf(name[to[k]], t[k])
    {
      assert k > 0 ==> t[k] == s[k - 1] && name[n..][at[k - 1]] == name[to[k]];
    }
  }

  lemma CompleteAhead(name: string, n: nat, at: seq<nat>)
    requires 0 < n <= |name| && Complete(name[n..], at) && forall i :: 1 <= i < n ==> !IsAlnum(name[i])
    ensures Complete(name, Ahead(at, n))
  {
    hide IsAlnum, Ahead;
    var to := Ahead(at, n);
    forall i: nat | i < |name| && IsAlnum(name[i])
      ensures i in to
    {
      if i == 0 {
        assert to[0] == 0;
      } else {
        assert name[i] == name[n..][i - n];
        var k :| 0 <= k < |at| && at[k] == i - n;
        assert to[k + 1] == i;
      }
    }
  }

  lemma TightAhead(name: string, n: nat, at: seq<nat>)
    requires 0 < n <= |name| && Tight(name[n..], at)
    requires at != [] && IsAlnum(name[0]) ==> n == 1 && at[0] == 0
    ensures Tight(name, Ahead(at, n))
  {
    hide IsAlnum, Ahead;
    var to := Ahead(at, n);
    forall k | 0 < k < |to| && AlnumAt(name, to[k - 1]) && AlnumAt(name, to[k])
      ensures to[k] == to[k - 1] + 1
    {
      if k > 1 {
        assert AlnumAt(name[n..], at[k - 1]) && AlnumAt(name[n..], at[k - 2]);
      }
    }
  }

  lemma LowerSlug(c: char)
    ensures IsSlugChar(LowerChar(c)) <==> IsAlnum(c)
    ensures LowersTo(c, LowerChar(c))
  {
  }

  lemma {:induction false} UnderscoredSpells(name: string) returns (at: seq<nat>)
    ensures Spells(name, Underscored(Lower(name)), at)
    ensures name != "" ==> at != [] && at[0] == 0
    decreases |name|
  {
    at := [];
    var low := Lower(name);
    if name != "" {
      hide Spells, IsAlnum, LowersTo, LowerChar, IsSlugChar;
      forall i | 0 <= i < |name|
        ensures IsSlugChar(low[i]) <==> IsAlnum(name[i])
      {
        LowerSlug(name[i]);
      }
      LowerSlug(name[0]);
      var n := 1;
      if !IsSlugChar(low[0]) {
        var m := DropOthersAt(low[1..]);
        n := m + 1;
      }
      assert low[n..] == Lower(name[n..]);
      var rest := UnderscoredSpells(name[n..]);
      at := Ahead(rest, n);
      SpellsAhead(name, n, if IsSlugChar(low[0]) then low[0] else '_', Underscored(low[n..]), rest);
    }
  }

  /** One character in front, after which `n - 1` separators are skipped. */
  lemma SpellsAhead(name: string, n: nat, d: char, s: string, at: seq<nat>)
    requires 0 < n <= |name| && CopyOf(name[0], d) && Spells(name[n..], s, at)
    requires forall i :: 1 <= i < n ==> !IsAlnum(name[i])
    requires at != [] && IsAlnum(name[0]) ==> n == 1 && at[0] == 0
    ensures Spells(name, [d] + s, Ahead(at, n))
  {
    hide Rising, Copies, Complete, Tight;
    RisingAhead(at, n);
    CopiesAhead(name, n, d, s, at);
    CompleteAhead(name, n, at);
    TightAhead(name, n, at);
  }

  /** Without underscores at its ends the text still holds every letter and digit. */
  lemma SpellsWithin(name: string, before: string, s: string, behind: string, at: seq<nat>)
    requires Spells(name, before + s + behind, at) && AllIn(before, UNDERSCORE) && AllIn(behind, UNDERSCORE)
    ensures |at| == |before| + |s| + |behind|
    ensures Spells(name, s, at[|before|..|before| + |s|])
  {
    CopiesWithin(name, before, s, behind, at);
    CompleteWithin(name, before, s, behind, at);
    TightWithin(name, at, |before|, |before| + |s|);
  }

  lemma CopiesWithin(name: string, before: string, s: string, behind: string, at: seq<nat>)
    requires Copies(name, before + s + behind, at)
    ensures Copies(name, s, at[|before|..|before| + |s|])
  {
    hide CopyOf;
    var whole, n := before + s + behind, |before|;
    forall k | 0 <= k < |s|
      ensures at[n + k] < |name| && CopyOf(name[at[n + k]], s[k])
    {
      assert whole[n + k] == s[k];
    }
  }

  lemma OnlyUnderscores(s: string)
    requires AllIn(s, UNDERSCORE)
    ensures forall i :: 0 <= i < |s| ==> s[i] == '_'
  {
    forall i | 0 <= i < |s|
      ensures s[i] == '_'
    {
      assert s[i] in s;
    }
  }

  lemma NotAtTheEnds(before: string, s: string, behind: string, k: nat)
    requires AllIn(before, UNDERSCORE) && AllIn(behind, UNDERSCORE)
    requires k < |before + s + behind| && (before + s + behind)[k] != '_'
    ensures |before| <= k < |before| + |s|
  {
    OnlyUnderscores(before);
    OnlyUnderscores(behind);
  }

  lemma CompleteWithin(name: string, before: string, s: string, behind: string, at: seq<nat>)
    requires Copies(name, before + s + behind, at) && Complete(name, at)
    requires AllIn(before, UNDERSCORE) && AllIn(behind, UNDERSCORE)
    ensures Complete(name, at[|before|..|before| + |s|])
  {
    hide IsAlnum, CopyOf;
    var whole, n := before + s + behind, |before|;
    var part := at[n..n + |s|];
    forall i: nat | i < |name| && IsAlnum(name[i])
      ensures i in part
    {
      var k :| 0 <= k < |at| && at[k] == i;
      AlnumIsNoUnderscore(name[i], whole[k]);
      NotAtTheEnds(before, s, behind, k);
      assert part[k - n] == i;
    }
  }

  lemma TightWithin(name: string, at: seq<nat>, from: nat, to: nat)
    requires from <= to <= |at| && Tight(name, at)
    ensures Tight(name, at[from..to])
  {
    var part := at[from..to];
    forall k | 0 < k < |part| && AlnumAt(name, part[k - 1]) && AlnumAt(name, part[k])
      ensures part[k] == part[k - 1] + 1
    {
      assert part[k] == at[from + k] && part[k - 1] == at[from + k - 1];
    }
  }

  lemma AlnumIsNoUnderscore(c: char, d: char)
    requires IsAlnum(c) && CopyOf(c, d)
    ensures d != '_'
  {
  }

  /** A server's slug spells its name, without underscores at the ends; a name without a letter or digit gives
      the fixed slug. */
  lemma SlugSpellsName(name: string) returns (at: seq<nat>)
    ensures if forall i :: 0 <= i < |name| ==> !IsAlnum(name[i]) then ServerSlug(name) == "server"
            else Spells(name, ServerSlug(name), at) && GoodSlug(ServerSlug(name)) && ServerSlug(name)[0] != '_'
  {
    hide Spells, GoodSlug;
    var all := UnderscoredSpells(name);
    var u := Underscored(Lower(name));
    var slug := Strip(u, UNDERSCORE);
    var before, behind := StripsApart(u);
    at := all[|before|..|before| + |slug|] by {
      SpellsLength(name, u, all);
    }
    SpellsWithin(name, before, slug, behind, all);
    SlugIsGood(name);
    SpellsSome(name, slug, at);
  }

  lemma SpellsLength(name: string, s: string, at: seq<nat>)
    requires Spells(name, s, at)
    ensures |at| == |s|
  {
  }

  lemma StripsApart(u: string) returns (before: string, behind: string)
    ensures u == before + Strip(u, UNDERSCORE) + behind && AllIn(before, UNDERSCORE) && AllIn(behind, UNDERSCORE)
  {
    before := StripsLeft(u, UNDERSCORE);
    behind := StripsRight(StripLeft(u, UNDERSCORE), UNDERSCORE);
  }

  /** What is spelled is empty exactly when there is nothing to spell, if no underscore stands alone. */
  lemma SpellsSome(name: string, s: string, at: seq<nat>)
    requires Spells(name, s, at) && (s != "" ==> s[0] != '_')
    ensures s == "" <==> forall i :: 0 <= i < |name| ==> !IsAlnum(name[i])
  {
    if s != "" {
      assert CopyOf(name[at[0]], s[0]);
    } else {
      assert at == [];
    }
  }

  // ---------- printing and parsing names ----------

  function Published(slug: string, tool: string): string {
    PREFIX + slug + "__" + tool
  }

  /** s.split("__", 1): the parts around the first "__", or None when there is none. */
  function SplitFirst(s: string): Option<(string, string)>
    decreases |s|
  {
    if |s| < 2 then None
    else if s[0] == '_' && s[1] == '_' then Some(("", s[2..]))
    else
      var rest := SplitFirst(s[1..]);
      if rest.None? then None else Some(([s[0]] + rest.value.0, rest.value.1))
  }

  /** How _execute_tool_call and _execute_mcp_call read a name. */
  function ParseName(name: string): Option<(string, string)> {
    if |name| >= |PREFIX| && name[..|PREFIX|] == PREFIX then SplitFirst(name[|PREFIX|..]) else None
  }

  lemma {:induction false} SplitAt(slug: string, tool: string)
    requires NoDouble(slug) && (slug != "" ==> slug[|slug| - 1] != '_')
    ensures SplitFirst(slug + "__" + tool) == Some((slug, tool))
    decreases |slug|
  {
    var s := slug + "__" + tool;
    if slug == "" {
      assert s[2..] == tool;
    } else {
      assert s[0] == slug[0];
      assert |slug| > 1 ==> s[1] == slug[1];
      assert s[1..] == slug[1..] + "__" + tool;
      SplitAt(slug[1..], tool);
      assert [slug[0]] + slug[1..] == slug;
    }
  }

  lemma NoDoubleCons(c: char, left: string)
    requires NoDouble(left)
    requires if left == "" then c != '_' else !(c == '_' && left[0] == '_') && left[|left| - 1] != '_'
    ensures NoDouble([c] + left) && ([c] + left)[|left|] != '_'
  {
    var s := [c] + left;
    assert forall i :: 1 <= i < |s| ==> s[i] == left[i - 1];
  }

  lemma {:induction false} SplitLeftIsSplittable(s: string)
    requires SplitFirst(s).Some?
    ensures var (left, right) := SplitFirst(s).value;
            s == left + "__" + right && NoDouble(left) && (left != "" ==> left[|left| - 1] != '_')
    decreases |s|
  {
    if s[0] == '_' && s[1] == '_' {
      assert s == "" + "__" + s[2..];
    } else {
      SplitLeftIsSplittable(s[1..]);
      var (left, right) := SplitFirst(s[1..]).value;
      hide NoDouble, SplitFirst;
      SplitGrows(s, left, right);
      NoDoubleCons(s[0], left);
    }
  }

  lemma SplitGrows(s: string, left: string, right: string)
    requires |s| >= 2 && s[1..] == left + "__" + right
    ensures s == ([s[0]] + left) + "__" + right
    ensures if left == "" then s[1] == '_' else left[0] == s[1]
  {
    var rest := s[1..];
    assert s == [s[0]] + rest && s[1] == rest[0];
  }

  /** Splitting a published name recovers slug and tool, for every tool name, exactly when the slug has no
      double underscore and does not end in one. */
  lemma PrintParseIff(slug: string, tool: string)
    ensures ParseName(Published(slug, tool)) == Some((slug, tool))
            <==> NoDouble(slug) && (slug != "" ==> slug[|slug| - 1] != '_')
  {
    var name := Published(slug, tool);
    assert name[..|PREFIX|] == PREFIX;
    assert name[|PREFIX|..] == slug + "__" + tool;
    if NoDouble(slug) && (slug != "" ==> slug[|slug| - 1] != '_') {
      SplitAt(slug, tool);
    } else if ParseName(name) == Some((slug, tool)) {
      SplitLeftIsSplittable(slug + "__" + tool);
    }
  }

  /** A name is read as slug and tool exactly when it is printed from them and the slug is one that can be told
      apart. */
  lemma ParseIff(name: string, slug: string, tool: string)
    ensures ParseName(name) == Some((slug, tool)) <==>
      name == "mcp__" + slug + "__" + tool && NoDouble(slug) && (slug != "" ==> slug[|slug| - 1] != '_')
  {
    hide NoDouble, SplitFirst;
    PrintParseIff(slug, tool);
    if ParseName(name) == Some((slug, tool)) {
      SplitLeftIsSplittable(name[|PREFIX|..]);
      assert name == PREFIX + name[|PREFIX|..];
      assert PREFIX + (slug + "__" + tool) == PREFIX + slug + "__" + tool;
    }
  }

  // ---------- servers and dispatch ----------

  type Id = nat
  type UserId = nat

  datatype Tool = Tool(name: string, schemaFits: bool)

  datatype Server = Server(user: UserId, name: string, url: string, enabled: bool, tools: seq<Tool>)

  type Servers = map<Id, Server>

  /** No two servers of a user have the same slug. */
  predicate SlugsDistinct(servers: Servers) {
    forall a, b :: a in servers && b in servers && a != b && servers[a].user == servers[b].user ==>
      ServerSlug(servers[a].name) != ServerSlug(servers[b].name)
  }

  predicate SlugFree(servers: Servers, user: UserId, slug: string, exclude: Option<Id>) {
    forall x :: x in servers && servers[x].user == user && exclude != Some(x) ==> ServerSlug(servers[x].name) != slug
  }

  predicate Usable(t: Tool) {
    t.name != "" && t.schemaFits
  }

  /** The first `room` usable tools. */
  function UsableTools(tools: seq<Tool>, room: nat): seq<string> {
    if tools == [] || room == 0 then []
    else if Usable(tools[0]) then [tools[0].name] + UsableTools(tools[1..], room - 1)
    else UsableTools(tools[1..], room)
  }

  /** The names of the first `room` tools that have a name and a schema that fits; `at` says where they stand. */
  predicate FirstUsable(tools: seq<Tool>, room: nat, names: seq<string>, at: seq<nat>) {
    && |at| == |names| <= room && Rising(at)
    && (forall k :: 0 <= k < |at| ==> at[k] < |tools| && names[k] == tools[at[k]].name && Fits(tools[at[k]]))
    && forall i: nat :: i < |tools| && Fits(tools[i]) && i !in at ==>
      |at| == room && forall k :: 0 <= k < |at| ==> at[k] < i
  }

  predicate Fits(t: Tool) {
    t.name != "" && t.schemaFits
  }

  lemma FirstUsableAhead(tools: seq<Tool>, room: nat, names: seq<string>, at: seq<nat>)
    requires tools != [] && room > 0 && Fits(tools[0]) && FirstUsable(tools[1..], room - 1, names, at)
    ensures FirstUsable(tools, room, [tools[0].name] + names, Ahead(at, 1))
  {
    hide Fits, Ahead, Rising;
    var to := Ahead(at, 1);
    RisingAhead(at, 1);
    forall k | 0 <= k < |to|
      ensures to[k] < |tools| && ([tools[0].name] + names)[k] == tools[to[k]].name && Fits(tools[to[k]])
    {
      assert k > 0 ==> tools[1..][at[k - 1]] == tools[to[k]];
    }
    forall i: nat | i < |tools| && Fits(tools[i]) && i !in to
      ensures |to| == room && forall k :: 0 <= k < |to| ==> to[k] < i
    {
      assert to[0] == 0;
      NotAhead(at, 1, i);
      assert tools[1..][i - 1] == tools[i];
    }
  }

  lemma NotAhead(at: seq<nat>, n: nat, i: nat)
    requires i >= n && i !in Ahead(at, n)
    ensures i - n !in at
  {
    hide Ahead;
    forall k | 0 <= k < |at|
      ensures at[k] + n in Ahead(at, n)
    {
      assert Ahead(at, n)[k + 1] == at[k] + n;
    }
  }

  lemma RisingShift(at: seq<nat>, n: nat)
    requires Rising(at)
    ensures Rising(ShiftBy(at, n))
  {
    hide ShiftBy;
  }

  lemma NotShifted(at: seq<nat>, n: nat, i: nat)
    requires i >= n && i !in ShiftBy(at, n)
    ensures i - n !in at
  {
    hide ShiftBy;
    forall k | 0 <= k < |at|
      ensures at[k] + n in ShiftBy(at, n)
    {
      assert ShiftBy(at, n)[k] == at[k] + n;
    }
  }

  lemma FirstUsableSkip(tools: seq<Tool>, room: nat, names: seq<string>, at: seq<nat>)
    requires tools != [] && !Fits(tools[0]) && FirstUsable(tools[1..], room, names, at)
    ensures FirstUsable(tools, room, names, ShiftBy(at, 1))
  {
    hide Fits, ShiftBy, Rising;
    var to := ShiftBy(at, 1);
    RisingShift(at, 1);
    forall k | 0 <= k < |to|
      ensures to[k] < |tools| && names[k] == tools[to[k]].name && Fits(tools[to[k]])
    {
      assert tools[1..][at[k]] == tools[to[k]];
    }
    forall i: nat | i < |tools| && Fits(tools[i]) && i !in to
      ensures |to| == room && forall k :: 0 <= k < |to| ==> to[k] < i
    {
      SkippedLater(tools, room, names, at, i);
    }
  }

  lemma SkippedLater(tools: seq<Tool>, room: nat, names: seq<string>, at: seq<nat>, i: nat)
    requires tools != [] && FirstUsable(tools[1..], room, names, at)
    requires 0 < i < |tools| && Fits(tools[i]) && i !in ShiftBy(at, 1)
    ensures |at| == room && forall k :: 0 <= k < |at| ==> at[k] + 1 < i
  {
    hide Fits, ShiftBy, Rising;
    assert tools[1..][i - 1] == tools[i];
    NotShifted(at, 1, i);
  }

  lemma {:induction false} UsableToolsAre(tools: seq<Tool>, room: nat) returns (at: seq<nat>)
    ensures FirstUsable(tools, room, UsableTools(tools, room), at)
    decreases |tools|
  {
    at := [];
    if tools != [] && room > 0 {
      hide FirstUsable;
      if Usable(tools[0]) {
        var rest := UsableToolsAre(tools[1..], room - 1);
        FirstUsableAhead(tools, room, UsableTools(tools[1..], room - 1), rest);
        at := Ahead(rest, 1);
      } else {
        var rest := UsableToolsAre(tools[1..], room);
        FirstUsableSkip(tools, room, UsableTools(tools[1..], room), rest);
        at := ShiftBy(rest, 1);
      }
    }
  }

  /** The servers an agent of `user` may use. */
  predicate Attached(servers: Servers, user: UserId, allowed: set<Id>, x: Id) {
    x in servers && servers[x].user == user && servers[x].enabled && x in allowed
  }

  /** A name the model is offered, with the server and tool it was built from. */
  predicate Offers(servers: Servers, user: UserId, allowed: set<Id>, name: string, x: Id, tool: string) {
    && Attached(servers, user, allowed, x)
    && tool in UsableTools(servers[x].tools, MAX_TOOLS_PER_SERVER)
    && name == Published(ServerSlug(servers[x].name), tool)
  }

  /** Where a called name may go: an attached server with the parsed slug. */
  predicate DispatchesTo(servers: Servers, user: UserId, allowed: set<Id>, name: string, x: Id, tool: string) {
    && ParseName(name).Some? && ParseName(name).value.1 == tool
    && Attached(servers, user, allowed, x)
    && ServerSlug(servers[x].name) == ParseName(name).value.0
  }

  /** A published name dispatches to exactly the server and tool that published it. */
  lemma DispatchIsExact(servers: Servers, user: UserId, allowed: set<Id>, name: string, x: Id, tool: string)
    requires SlugsDistinct(servers) && Offers(servers, user, allowed, name, x, tool)
    ensures forall y, t :: DispatchesTo(servers, user, allowed, name, y, t) <==> y == x && t == tool
  {
    hide ServerSlug;
    SlugIsGood(servers[x].name);
    PrintParseIff(ServerSlug(servers[x].name), tool);
    forall y, t
      ensures DispatchesTo(servers, user, allowed, name, y, t) <==> y == x && t == tool
    {
    }
  }

  /** Any name dispatches to at most one server, and never to one that is disabled, another user's, or
      not attached to the agent. */
  lemma DispatchIsUnique(servers: Servers, user: UserId, allowed: set<Id>, name: string,
                         x: Id, y: Id, tool: string, tool': string)
    requires SlugsDistinct(servers)
    requires DispatchesTo(servers, user, allowed, name, x, tool) && DispatchesTo(servers, user, allowed, name, y, tool')
    ensures x == y && tool == tool'
    ensures x in servers && servers[x].user == user && servers[x].enabled && x in allowed
    ensures name == "mcp__" + ServerSlug(servers[x].name) + "__" + tool
  {
    DispatchesIff(servers, user, allowed, name, x, tool);
  }

  /** A name goes to a server and tool exactly when the server is the user's own, enabled and in the agent's
      allow-list, and the name is printed from its slug and the tool. */
  lemma DispatchesIff(servers: Servers, user: UserId, allowed: set<Id>, name: string, x: Id, tool: string)
    ensures DispatchesTo(servers, user, allowed, name, x, tool) <==>
      && x in servers && servers[x].user == user && servers[x].enabled && x in allowed
      && name == "mcp__" + ServerSlug(servers[x].name) + "__" + tool
  {
    hide ServerSlug, ParseName, NoDouble;
    if x in servers {
      SlugIsGood(servers[x].name);
      ParseIff(name, ServerSlug(servers[x].name), tool);
    }
  }

  /** A server may be changed if its slug stays or is free. */
  lemma ChangeKeepsDistinct(servers: Servers, id: Id, row: Server)
    requires SlugsDistinct(servers) && id in servers && row.user == servers[id].user
    requires row.name == servers[id].name || SlugFree(servers, row.user, ServerSlug(row.name), Some(id))
    ensures SlugsDistinct(servers[id := row])
  {
    hide ServerSlug;
  }

  // ---------- the imperative code ----------

  /** _schemas_from_mcp_servers, names only. */
  method SchemaNames(list: seq<Server>) returns (names: seq<string>)
    ensures names == AllNames(list)
  {
    hide NamesOf;
    names := [];
    var i := 0;
    while i < |list|
      invariant 0 <= i <= |list| && names == AllNames(list[..i])
    {
      assert list[..i + 1][..i] == list[..i];
      var own := ServerNames(list[i]);
      names := names + own;
      i := i + 1;
    }
    assert list[..i] == list;
  }

  /** The names still to be printed from tool j on, with room for that many. */
  function NamesFrom(prefix: string, tools: seq<Tool>, j: nat, room: nat): seq<string>
    requires j <= |tools|
  {
    Prefixed(prefix, UsableTools(tools[j..], room))
  }

  lemma NamesStep(prefix: string, tools: seq<Tool>, j: nat, room: nat)
    requires j < |tools| && room > 0
    ensures NamesFrom(prefix, tools, j, room) ==
      if Usable(tools[j]) then [prefix + tools[j].name] + NamesFrom(prefix, tools, j + 1, room - 1)
      else NamesFrom(prefix, tools, j + 1, room)
  {
    assert tools[j..][1..] == tools[j + 1..];
    PrefixedCons(prefix, tools[j].name, UsableTools(tools[j + 1..], room - 1));
  }

  lemma NamesEnd(prefix: string, tools: seq<Tool>, j: nat, room: nat)
    requires j <= |tools| && (j == |tools| || room == 0)
    ensures NamesFrom(prefix, tools, j, room) == []
  {
  }

  /** The loop over one server's tools: skip unusable ones, stop at the cap. */
  method ServerNames(s: Server) returns (names: seq<string>)
    ensures names == NamesOf(s)
    ensures exists tools, at :: FirstUsable(s.tools, 100, tools, at) && |names| == |tools|
                         && forall k :: 0 <= k < |names| ==>
                              names[k] == "mcp__" + ServerSlug(s.name) + "__" + tools[k]
  {
    hide ServerSlug, FirstUsable;
    ghost var at := UsableToolsAre(s.tools, 100);
    assert FirstUsable(s.tools, 100, UsableTools(s.tools, 100), at);
    var prefix := PREFIX + ServerSlug(s.name) + "__";
    names := [];
    var count, j := 0, 0;
    assert s.tools[0..] == s.tools;
    while j < |s.tools| && count < MAX_TOOLS_PER_SERVER
      invariant 0 <= j <= |s.tools| && 0 <= count <= MAX_TOOLS_PER_SERVER
      invariant NamesOf(s) == names + NamesFrom(prefix, s.tools, j, MAX_TOOLS_PER_SERVER - count)
    {
      hide NamesOf, NamesFrom;
      NamesStep(prefix, s.tools, j, MAX_TOOLS_PER_SERVER - count);
      if Usable(s.tools[j]) {
        names := names + [prefix + s.tools[j].name];
        count := count + 1;
      }
      j := j + 1;
    }
    NamesEnd(prefix, s.tools, j, MAX_TOOLS_PER_SERVER - count);
  }

  function Prefixed(prefix: string, tools: seq<string>): (r: seq<string>)
    ensures |r| == |tools| && forall i :: 0 <= i < |r| ==> r[i] == prefix + tools[i]
  {
    seq(|tools|, i requires 0 <= i < |tools| => prefix + tools[i])
  }

  lemma PrefixedCons(prefix: string, t: string, ts: seq<string>)
    ensures Prefixed(prefix, [t] + ts) == [prefix + t] + Prefixed(prefix, ts)
  {
  }

  function NamesOf(s: Server): seq<string> {
    Prefixed(PREFIX + ServerSlug(s.name) + "__", UsableTools(s.tools, MAX_TOOLS_PER_SERVER))
  }

  function AllNames(list: seq<Server>): seq<string> {
    if list == [] then [] else AllNames(list[..|list| - 1]) + NamesOf(list[|list| - 1])
  }

  /** Server by server. */
  lemma {:induction false} AllNamesInOrder(a: seq<Server>, b: seq<Server>, s: Server)
    ensures AllNames(a + b) == AllNames(a) + AllNames(b) && AllNames([s]) == NamesOf(s)
    decreases |b|
  {
    hide NamesOf;
    assert [s][..0] == [];
    if b == [] {
      assert a + b == a;
    } else {
      assert (a + b)[..|a + b| - 1] == a + b[..|b| - 1];
      AllNamesInOrder(a, b[..|b| - 1], s);
    }
  }

  lemma {:induction false} AllNamesAre(list: seq<Server>, name: string)
    ensures name in AllNames(list) <==>
      exists s, tool :: s in list && tool in UsableTools(s.tools, MAX_TOOLS_PER_SERVER)
              && name == Published(ServerSlug(s.name), tool)
    decreases |list|
  {
    hide ServerSlug, UsableTools;
    if list != [] {
      var last := list[|list| - 1];
      AllNamesAre(list[..|list| - 1], name);
      NamesOfServer(last, name);
      assert list == list[..|list| - 1] + [last];
    }
  }

  lemma NamesOfServer(s: Server, name: string)
    ensures name in NamesOf(s) <==>
      exists tool :: tool in UsableTools(s.tools, MAX_TOOLS_PER_SERVER) && name == Published(ServerSlug(s.name), tool)
  {
    hide ServerSlug, UsableTools;
    var tools := UsableTools(s.tools, MAX_TOOLS_PER_SERVER);
    var prefix := PREFIX + ServerSlug(s.name) + "__";
    if tool :| tool in tools && name == Published(ServerSlug(s.name), tool) {
      var i :| 0 <= i < |tools| && tools[i] == tool;
      assert NamesOf(s)[i] == prefix + tool == name;
    }
    if name in NamesOf(s) {
      var i :| 0 <= i < |NamesOf(s)| && NamesOf(s)[i] == name;
      assert tools[i] in tools && name == Published(ServerSlug(s.name), tools[i]);
    }
  }

  /** The names the model is offered are exactly those some attached server offers. */
  lemma OfferedNames(servers: Servers, user: UserId, allowed: set<Id>, list: seq<Server>, name: string)
    requires forall s :: s in list <==>
      exists x :: x in servers && servers[x] == s && s.user == user && s.enabled && x in allowed
    ensures name in AllNames(list) <==> exists x, tool :: Offers(servers, user, allowed, name, x, tool)
  {
    hide ServerSlug, UsableTools, Published;
    AllNamesAre(list, name);
    assert forall x :: Attached(servers, user, allowed, x) ==> servers[x] in list;
    if name in AllNames(list) {
      var s, tool :| s in list && tool in UsableTools(s.tools, MAX_TOOLS_PER_SERVER)
              && name == Published(ServerSlug(s.name), tool);
      var x :| Attached(servers, user, allowed, x) && servers[x] == s;
      assert Offers(servers, user, allowed, name, x, tool);
    }
    if x, tool :| Offers(servers, user, allowed, name, x, tool) {
      assert servers[x] in list;
    }
  }

  /** The candidate search of _execute_mcp_call over the rows of a query, in the order it returns them. */
  method Dispatch(servers: Servers, user: UserId, allowed: set<Id>, rows: seq<Id>, name: string)
    returns (target: Option<(Id, string)>)
    requires forall x :: x in rows <==> x in servers && servers[x].user == user && servers[x].enabled
    ensures target.Some? ==> DispatchesTo(servers, user, allowed, name, target.value.0, target.value.1)
    ensures target.Some? ==>
      var (x, tool) := target.value;
      && x in servers && servers[x].user == user && servers[x].enabled && x in allowed
      && name == "mcp__" + ServerSlug(servers[x].name) + "__" + tool
    ensures target.None? ==> forall x, tool {:trigger DispatchesTo(servers, user, allowed, name, x, tool)} ::
      x in servers && servers[x].user == user && servers[x].enabled && x in allowed ==>
        name != "mcp__" + ServerSlug(servers[x].name) + "__" + tool
  {
    hide ServerSlug, ParseName;
    forall x, tool
      ensures DispatchesTo(servers, user, allowed, name, x, tool) <==>
        && x in servers && servers[x].user == user && servers[x].enabled && x in allowed
        && name == "mcp__" + ServerSlug(servers[x].name) + "__" + tool
    {
      DispatchesIff(servers, user, allowed, name, x, tool);
    }
    var parts := ParseName(name);
    if parts.None? {
      return None;
    }
    var (slug, tool) := parts.value;
    var i := 0;
    while i < |rows|
      invariant 0 <= i <= |rows|
      invariant forall k :: 0 <= k < i && rows[k] in allowed ==> ServerSlug(servers[rows[k]].name) != slug
    {
      if rows[i] in allowed && ServerSlug(servers[rows[i]].name) == slug {
        assert rows[i] in rows;
        return Some((rows[i], tool));
      }
      i := i + 1;
    }
    target := None;
  }

  datatype Status = Done | Missing | Unprocessable | ServerError

  predicate IsHttp(url: string) {
    var l := Lower(url);
    (|l| >= 7 && l[..7] == "http://") || (|l| >= 8 && l[..8] == "https://")
  }

  /** The text begins with `start`, whose letters are small, in any case. */
  predicate BeginsLike(s: string, start: string) {
    |s| >= |start| && forall i :: 0 <= i < |start| ==> LowersTo(s[i], start[i])
  }

  lemma IsHttpIff(url: string)
    ensures IsHttp(url) <==> BeginsLike(url, "http://") || BeginsLike(url, "https://")
  {
    var l := Lower(url);
    forall start: string | |start| <= |url|
      ensures l[..|start|] == start <==> BeginsLike(url, start)
    {
      LowerPrefix(url, start);
    }
  }

  lemma LowerPrefix(s: string, start: string)
    requires |start| <= |s|
    ensures Lower(s)[..|start|] == start <==> BeginsLike(s, start)
  {
    if Lower(s)[..|start|] == start {
      forall i | 0 <= i < |start|
        ensures LowersTo(s[i], start[i])
      {
        assert Lower(s)[..|start|][i] == LowerChar(s[i]);
      }
    }
  }

  class Registry {
    var servers: Servers
    var nextId: Id

    ghost predicate Valid()
      reads this
    {
      SlugsDistinct(servers) && forall x :: x in servers ==> x < nextId
    }

    constructor ()
      ensures Valid() && servers == map[]
    {
      servers, nextId := map[], 0;
    }

    /** _ensure_slug_free: one pass over the user's servers. */
    method EnsureSlugFree(user: UserId, name: string, exclude: Option<Id>) returns (free: bool)
      ensures free <==> forall x :: x in servers && servers[x].user == user && exclude != Some(x) ==>
        ServerSlug(servers[x].name) != ServerSlug(name)
    {
      hide ServerSlug;
      var slug := ServerSlug(name);
      var todo := servers.Keys;
      while todo != {}
        invariant todo <= servers.Keys
        invariant forall x :: x in servers && x !in todo && servers[x].user == user && exclude != Some(x) ==>
          ServerSlug(servers[x].name) != slug
        decreases |todo|
      {
        var x :| x in todo;
        if servers[x].user == user && exclude != Some(x) && ServerSlug(servers[x].name) == slug {
          return false;
        }
        todo := todo - {x};
      }
      free := true;
    }

    method Create(user: UserId, name: string, url: string) returns (st: Status, id: Id)
      requires Valid()
      modifies this
      ensures Valid()
      ensures st == Done || st == Unprocessable
      ensures st == Done <==>
        && (BeginsLike(url, "http://") || BeginsLike(url, "https://"))
        && forall x :: x in old(servers) && old(servers)[x].user == user ==>
          ServerSlug(old(servers)[x].name) != ServerSlug(Strip(name, BLANKS))
      ensures st == Done ==> id !in old(servers)
      ensures st == Done ==>
        servers == old(servers)[id := Server(user, Strip(name, BLANKS), Strip(url, BLANKS), true, [])]
      ensures st != Done ==> servers == old(servers)
    {
      hide ServerSlug, IsHttp, Strip, BeginsLike;
      IsHttpIff(url);
      id := nextId;
      if !IsHttp(url) {
        return Unprocessable, id;
      }
      var free := EnsureSlugFree(user, Strip(name, BLANKS), None);
      if !free {
        return Unprocessable, id;
      }
      servers := servers[id := Server(user, Strip(name, BLANKS), Strip(url, BLANKS), true, [])];
      nextId := nextId + 1;
      st := Done;
    }

    /** A refusal after the name was already assigned is never committed, so nothing changes. */
    method Update(user: UserId, id: Id, name: Option<string>, url: Option<string>, enabled: Option<bool>)
      returns (st: Status)
      requires Valid()
      modifies this
      ensures Valid()
      ensures st ==
        if id !in old(servers) || old(servers)[id].user != user then Missing
        else if name.Some? && Strip(name.value, BLANKS) != old(servers)[id].name
                && exists x :: x in old(servers) && old(servers)[x].user == user && x != id
                     && ServerSlug(old(servers)[x].name) == ServerSlug(Strip(name.value, BLANKS)) then Unprocessable
        else if url.Some? && !BeginsLike(url.value, "http://") && !BeginsLike(url.value, "https://") then Unprocessable
        else Done
      ensures st == Done ==>
        && id in servers && servers == old(servers)[id := servers[id]]
        && servers[id].user == user && servers[id].tools == old(servers)[id].tools
        && servers[id].name == (if name.Some? then Strip(name.value, BLANKS) else old(servers)[id].name)
        && servers[id].url == (if url.Some? then Strip(url.value, BLANKS) else old(servers)[id].url)
        && servers[id].enabled == (if enabled.Some? then enabled.value else old(servers)[id].enabled)
      ensures st != Done ==> servers == old(servers)
    {
      hide ServerSlug, IsHttp, Strip, SlugsDistinct, BeginsLike;
      if url.Some? {
        IsHttpIff(url.value);
      }
      if id !in servers || servers[id].user != user {
        return Missing;
      }
      var row := servers[id];
      if name.Some? {
        var newName := Strip(name.value, BLANKS);
        if newName != row.name {
          var free := EnsureSlugFree(user, newName, Some(id));
          if !free {
            return Unprocessable;
          }
        }
        row := row.(name := newName);
      }
      if url.Some? {
        if !IsHttp(url.value) {
          return Unprocessable;
        }
        row := row.(url := Strip(url.value, BLANKS));
      }
      if enabled.Some? {
        row := row.(enabled := enabled.value);
      }
      ChangeKeepsDistinct(servers, id, row);
      servers := servers[id := row];
      st := Done;
    }

    method Remove(user: UserId, id: Id) returns (st: Status)
      requires Valid()
      modifies this
      ensures Valid()
      ensures st == if id !in old(servers) || old(servers)[id].user != user then Missing else Done
      ensures servers == if st == Done then old(servers) - {id} else old(servers)
    {
      if id !in servers || servers[id].user != user {
        return Missing;
      }
      servers := servers - {id};
      st := Done;
    }

    /** The Test button: a fresh tool catalogue for one server, if the server answers. */
    method RefreshTools(user: UserId, id: Id, fetched: Option<seq<Tool>>) returns (st: Status)
      requires Valid()
      modifies this
      ensures Valid()
      ensures st ==
        if id !in old(servers) || old(servers)[id].user != user then Missing
        else if fetched.None? then ServerError
        else Done
      ensures servers ==
        if st == Done then old(servers)[id := old(servers)[id].(tools := fetched.value)] else old(servers)
    {
      if id !in servers || servers[id].user != user {
        return Missing;
      }
      if fetched.None? {
        return ServerError;
      }
      servers := servers[id := servers[id].(tools := fetched.value)];
      st := Done;
    }
  }
}
