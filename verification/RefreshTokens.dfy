/** Refresh-token rotation (`routers/auth.py`, `security.py`): requests served one at a time, a refresh
    possibly stopping between its two commits. A decoded token is its claims; a token that fails to decode
    (bad signature, expired, wrong type) has none. */
module RefreshTokens {
  import opened Options

  type UserId = nat
  type Jti = nat

  /** A row of refresh_tokens. */
  datatype Token = Token(user: UserId, revoked: bool, used: bool)

  datatype Claims = Claims(sub: UserId, jti: Jti)

  datatype Request =
    | Issue(user: UserId, newJti: Jti)
    | Refresh(claims: Option<Claims>, userExists: bool, newJti: Jti, stops: bool)
    | Logout(user: UserId, claims: Option<Claims>)

  datatype Answer = NewToken(jti: Jti) | Ok | Unauthorized | NoAnswer

  /** The token table, and what is not stored anywhere: for each token a refresh issued, the token that
      refresh consumed; the chains the tokens were issued in; and the place of each token. A login or
      registration starts a chain, a refresh adds to the chain of the token it consumes. */
  datatype State = State(tokens: map<Jti, Token>, consumed: map<Jti, Jti>, chains: seq<seq<Jti>>,
                         place: map<Jti, Place>)

  datatype Place = Place(chain: nat, pos: nat)

  const INIT := State(map[], map[], [], map[])

  // ---------- the requests ----------

  predicate Enabled(s: State, r: Request) {
    (r.Issue? || r.Refresh?) ==> r.newJti !in s.tokens
  }

  /** The checks of refresh, in the order of the code; they all answer 401. */
  predicate Refreshable(tokens: map<Jti, Token>, claims: Option<Claims>) {
    && claims.Some?
    && claims.value.jti in tokens
    && !tokens[claims.value.jti].revoked
    && !tokens[claims.value.jti].used
    && tokens[claims.value.jti].user == claims.value.sub
  }

  function MarkUsed(tokens: map<Jti, Token>, jti: Jti): map<Jti, Token> {
    if jti in tokens then tokens[jti := tokens[jti].(used := true)] else tokens
  }

  function Revoke(tokens: map<Jti, Token>, jti: Jti): map<Jti, Token> {
    if jti in tokens then tokens[jti := tokens[jti].(revoked := true)] else tokens
  }

  /** A first token of a new chain. */
  function StartChain(s: State, newJti: Jti, user: UserId): State {
    State(s.tokens[newJti := Token(user, false, false)], s.consumed, s.chains + [[newJti]],
          s.place[newJti := Place(|s.chains|, 0)])
  }

  /** A token that follows `jti` in its chain. */
  function AddSuccessor(s: State, jti: Jti, newJti: Jti, user: UserId): State
    requires jti in s.place && s.place[jti].chain < |s.chains|
  {
    var c := s.place[jti].chain;
    State(s.tokens[newJti := Token(user, false, false)], s.consumed[newJti := jti],
          s.chains[c := s.chains[c] + [newJti]], s.place[newJti := Place(c, |s.chains[c]|)])
  }

  function Step(s: State, r: Request): (State, Answer)
    requires Inv(s) && Enabled(s, r)
  {
    match r
    case Issue(user, newJti) => (StartChain(s, newJti, user), NewToken(newJti))
    case Refresh(claims, userExists, newJti, stops) =>
      if !Refreshable(s.tokens, claims) then (s, Unauthorized)
      else
        assert PlaceOk(s, claims.value.jti);
        var marked := s.(tokens := MarkUsed(s.tokens, claims.value.jti));
        if stops then (marked, NoAnswer)
        else if !userExists then (marked, Unauthorized)
        else (AddSuccessor(marked, claims.value.jti, newJti, claims.value.sub), NewToken(newJti))
    case Logout(user, claims) =>
      if claims.None? || claims.value.sub != user then (s, Unauthorized)
      else (s.(tokens := Revoke(s.tokens, claims.value.jti)), Ok)
  }

  predicate Reaches(s: State, run: seq<Request>, t: State)
    requires Inv(s)
    decreases |run|
  {
    if run == [] then s == t
    else
      && Enabled(s, run[0])
      && (StepKeepsInv(s, run[0]);
          Reaches(Step(s, run[0]).0, run[1..], t))
  }

  // ---------- the invariant ----------

  /** Token x stands where `place` says. */
  predicate PlaceOk(s: State, x: Jti) {
    && x in s.place && s.place[x].chain < |s.chains| && s.place[x].pos < |s.chains[s.place[x].chain]|
    && s.chains[s.place[x].chain][s.place[x].pos] == x
  }

  /** What stands at position i of chain c is a token placed there (so chains are disjoint and without
      repetition); a refresh that consumed its predecessor issued it, to the same user; the first one was
      issued without consuming any; and all but the last are used. */
  predicate SlotOk(s: State, c: nat, i: nat)
    requires c < |s.chains| && i < |s.chains[c]|
  {
    var x := s.chains[c][i];
    && x in s.tokens && x in s.place && s.place[x] == Place(c, i)
    && (i < |s.chains[c]| - 1 ==> s.tokens[x].used)
    && (i == 0 ==> x !in s.consumed)
    && (i > 0 ==> x in s.consumed && s.consumed[x] == s.chains[c][i - 1])
    && (i > 0 && s.chains[c][i - 1] in s.tokens ==> s.tokens[s.chains[c][i - 1]].user == s.tokens[x].user)
  }

  predicate ChainOk(s: State, c: nat)
    requires c < |s.chains|
  {
    s.chains[c] != [] && forall i :: 0 <= i < |s.chains[c]| ==> SlotOk(s, c, i)
  }

  predicate Inv(s: State) {
    && (forall x :: x in s.tokens ==> PlaceOk(s, x))
    && (forall x :: x in s.place ==> x in s.tokens)
    && (forall x :: x in s.consumed ==> x in s.tokens)
    && (forall c :: 0 <= c < |s.chains| ==> ChainOk(s, c))
  }

  function LastOf(s: State, c: nat): Jti
    requires c < |s.chains| && s.chains[c] != []
  {
    s.chains[c][|s.chains[c]| - 1]
  }

  /** Only the last token of a chain can be unused. */
  lemma LiveIsLast(s: State, x: Jti)
    requires Inv(s) && x in s.tokens && !s.tokens[x].used
    ensures PlaceOk(s, x) && x == LastOf(s, s.place[x].chain)
  {
    assert PlaceOk(s, x);
    assert ChainOk(s, s.place[x].chain);
    assert SlotOk(s, s.place[x].chain, s.place[x].pos);
  }

  /** Setting a flag of one token keeps every chain sound. */
  lemma FlagKeepsInv(s: State, x: Jti, t: Token)
    requires Inv(s) && x in s.tokens && t.user == s.tokens[x].user && (s.tokens[x].used ==> t.used)
    ensures Inv(s.(tokens := s.tokens[x := t]))
  {
    var t' := s.(tokens := s.tokens[x := t]);
    forall y | y in t'.tokens
      ensures PlaceOk(t', y)
    {
      assert PlaceOk(s, y);
    }
    forall c | 0 <= c < |s.chains|
      ensures ChainOk(t', c)
    {
      assert ChainOk(s, c);
      forall i | 0 <= i < |s.chains[c]|
        ensures SlotOk(t', c, i)
      {
        assert SlotOk(s, c, i);
      }
    }
  }

  lemma StartKeepsInv(s: State, user: UserId, newJti: Jti)
    requires Inv(s) && newJti !in s.tokens
    ensures Inv(StartChain(s, newJti, user))
  {
    var t := StartChain(s, newJti, user);
    forall y | y in t.tokens
      ensures PlaceOk(t, y)
    {
      assert y != newJti ==> PlaceOk(s, y);
    }
    forall c | 0 <= c < |t.chains|
      ensures ChainOk(t, c)
    {
      assert c < |s.chains| ==> ChainOk(s, c);
      forall i | 0 <= i < |t.chains[c]|
        ensures SlotOk(t, c, i)
      {
        assert c < |s.chains| ==> SlotOk(s, c, i);
        assert c < |s.chains| && i > 0 ==> SlotOk(s, c, i - 1);
      }
    }
  }

  lemma SuccessorKeepsInv(s: State, x: Jti, newJti: Jti)
    requires Inv(s) && newJti !in s.tokens && x in s.tokens && s.tokens[x].used
    requires PlaceOk(s, x) && x == LastOf(s, s.place[x].chain)
    ensures Inv(AddSuccessor(s, x, newJti, s.tokens[x].user))
  {
    var t := AddSuccessor(s, x, newJti, s.tokens[x].user);
    var at := s.place[x].chain;
    forall y | y in t.tokens
      ensures PlaceOk(t, y)
    {
      assert y != newJti ==> PlaceOk(s, y);
    }
    forall c | 0 <= c < |t.chains|
      ensures ChainOk(t, c)
    {
      assert ChainOk(s, c);
      forall i | 0 <= i < |t.chains[c]|
        ensures SlotOk(t, c, i)
      {
        assert i < |s.chains[c]| ==> SlotOk(s, c, i);
        assert i > 0 ==> SlotOk(s, c, i - 1);
      }
    }
  }

  /** Every request keeps the invariant. */
  lemma StepKeepsInv(s: State, r: Request)
    requires Inv(s) && Enabled(s, r)
    ensures Inv(Step(s, r).0)
  {
    hide Inv, StartChain, AddSuccessor;
    match r
    case Issue(user, newJti) => StartKeepsInv(s, user, newJti);
    case Refresh(claims, userExists, newJti, stops) =>
      if Refreshable(s.tokens, claims) {
        var x := claims.value.jti;
        LiveIsLast(s, x);
        FlagKeepsInv(s, x, s.tokens[x].(used := true));
        SuccessorKeepsInv(s.(tokens := MarkUsed(s.tokens, x)), x, newJti);
      }
    case Logout(user, claims) =>
      if claims.Some? && claims.value.jti in s.tokens {
        var x := claims.value.jti;
        FlagKeepsInv(s, x, s.tokens[x].(revoked := true));
      }
  }

  lemma {:induction false} RunKeepsInv(s: State, run: seq<Request>, t: State)
    requires Inv(s) && Reaches(s, run, t)
    ensures Inv(t)
    decreases |run|
  {
    hide Inv, Step;
    if run != [] {
      StepKeepsInv(s, run[0]);
      RunKeepsInv(Step(s, run[0]).0, run[1..], t);
    }
  }

  function IssueCount(run: seq<Request>): nat {
    if run == [] then 0 else (if run[0].Issue? then 1 else 0) + IssueCount(run[1..])
  }

  lemma {:induction false} ChainCount(s: State, run: seq<Request>, t: State)
    requires Inv(s) && Reaches(s, run, t)
    ensures |t.chains| == |s.chains| + IssueCount(run)
    decreases |run|
  {
    if run != [] {
      StepKeepsInv(s, run[0]);
      ChainCount(Step(s, run[0]).0, run[1..], t);
    }
  }

  /** A refresh that answers with a new token has consumed the last token of a chain, and the new one comes
      right behind it. */
  lemma RefreshExtendsChain(s: State, r: Request)
    requires Inv(s) && Enabled(s, r) && r.Refresh? && Step(s, r).1.NewToken?
    ensures r.claims.Some? && PlaceOk(s, r.claims.value.jti)
    ensures var (t, answer) := Step(s, r);
            var x, n := r.claims.value.jti, answer.jti;
            var c := s.place[x].chain;
            && n == r.newJti && x == LastOf(s, c) && t.chains == s.chains[c := s.chains[c] + [n]]
            && t.consumed == s.consumed[n := x] && t.tokens[x].used
            && t.tokens[n] == Token(s.tokens[x].user, false, false)
  {
    LiveIsLast(s, r.claims.value.jti);
  }

  /** The claims name a token of theirs that was neither revoked nor used. */
  predicate Live(tokens: map<Jti, Token>, claims: Option<Claims>) {
    claims.Some? && claims.value.jti in tokens && tokens[claims.value.jti] == Token(claims.value.sub, false, false)
  }

  /** A refresh goes through exactly for a live token of a user that still exists; it changes nothing for any
      other token; and of the old tokens it touches only the one it was given. */
  lemma RefreshIff(s: State, claims: Option<Claims>, userExists: bool, newJti: Jti, stops: bool)
    requires Inv(s) && newJti !in s.tokens
    ensures var (t, answer) := Step(s, Refresh(claims, userExists, newJti, stops));
            if !Live(s.tokens, claims) then t == s && answer == Unauthorized
            else
              var spent := s.tokens[claims.value.jti := Token(claims.value.sub, false, true)];
              && (answer == NewToken(newJti) <==> userExists && !stops) && (answer == NoAnswer <==> stops)
              && (answer == Unauthorized <==> !userExists && !stops)
              && t.tokens == (if userExists && !stops then spent[newJti := Token(claims.value.sub, false, false)]
                              else spent)
  {
    hide Inv;
    if Live(s.tokens, claims) {
      LiveIsLast(s, claims.value.jti);
    }
  }

  /** A logout is refused exactly without claims of the user's own; otherwise it revokes the token they name,
      if there is one, and touches no other. */
  lemma LogoutIff(s: State, user: UserId, claims: Option<Claims>)
    requires Inv(s)
    ensures var (t, answer) := Step(s, Logout(user, claims));
            if claims.None? || claims.value.sub != user then t == s && answer == Unauthorized
            else
              && answer == Ok && t == s.(tokens := t.tokens) && t.tokens.Keys == s.tokens.Keys
              && forall x :: x in s.tokens ==>
                t.tokens[x] == if x == claims.value.jti then s.tokens[x].(revoked := true) else s.tokens[x]
  {
    hide Inv;
  }

  /** The token at a place of a chain: the first consumed no other; a later one was issued by the refresh
      that consumed its predecessor; all but the last are used. */
  predicate Linked(s: State, c: nat, i: nat)
    requires c < |s.chains| && i < |s.chains[c]|
  {
    var x := s.chains[c][i];
    && x in s.tokens && (x in s.consumed <==> i > 0)
    && (i > 0 ==> s.consumed[x] == s.chains[c][i - 1])
    && (i < |s.chains[c]| - 1 ==> s.tokens[x].used)
  }

  lemma SlotFacts(s: State, c: nat, i: nat)
    requires Inv(s) && c < |s.chains| && i < |s.chains[c]|
    ensures Linked(s, c, i)
    ensures s.chains[c][i] in s.place && s.place[s.chains[c][i]] == Place(c, i)
  {
    assert ChainOk(s, c);
    assert SlotOk(s, c, i);
  }

  /** The token stands somewhere in the chains. */
  predicate Stands(s: State, x: Jti) {
    exists c, i :: 0 <= c < |s.chains| && 0 <= i < |s.chains[c]| && s.chains[c][i] == x
  }

  /** In every reachable state the issued tokens form disjoint chains, one per login or registration: every
      token stands in exactly one place, and each place is linked to the one before it. */
  lemma TokensFormChains(run: seq<Request>, s: State)
    requires Reaches(INIT, run, s)
    ensures Inv(s) && |s.chains| == IssueCount(run)
    ensures forall x :: x in s.tokens <==> Stands(s, x)
    ensures forall c, i, d, j ::
              (&& 0 <= c < |s.chains| && 0 <= i < |s.chains[c]| && 0 <= d < |s.chains| && 0 <= j < |s.chains[d]|
               && s.chains[c][i] == s.chains[d][j]) ==>
              c == d && i == j
    ensures forall c, i :: 0 <= c < |s.chains| && 0 <= i < |s.chains[c]| ==> Linked(s, c, i)
  {
    RunKeepsInv(INIT, run, s);
    ChainCount(INIT, run, s);
    forall x | x in s.tokens
      ensures Stands(s, x)
    {
      assert PlaceOk(s, x);
    }
    hide Inv, PlaceOk;
    forall c, i | 0 <= c < |s.chains| && 0 <= i < |s.chains[c]|
      ensures s.chains[c][i] in s.place && s.place[s.chains[c][i]] == Place(c, i)
      ensures s.chains[c][i] in s.tokens && Linked(s, c, i)
    {
      SlotFacts(s, c, i);
    }
  }

  /** No token is ever consumed twice: two refreshes that answered cannot have presented the same one. */
  lemma OneSuccessor(run: seq<Request>, s: State, a: Jti, b: Jti)
    requires Reaches(INIT, run, s)
    requires a in s.consumed && b in s.consumed && s.consumed[a] == s.consumed[b]
    ensures a == b && s.consumed[a] in s.tokens && s.tokens[s.consumed[a]].used
  {
    RunKeepsInv(INIT, run, s);
    assert PlaceOk(s, a) && PlaceOk(s, b);
    SlotFacts(s, s.place[a].chain, s.place[a].pos);
    SlotFacts(s, s.place[b].chain, s.place[b].pos);
    SlotFacts(s, s.place[a].chain, s.place[a].pos - 1);
    SlotFacts(s, s.place[b].chain, s.place[b].pos - 1);
  }

  // ---------- spent tokens ----------

  predicate Spent(tokens: map<Jti, Token>, x: Jti) {
    x in tokens && (tokens[x].used || tokens[x].revoked)
  }

  lemma StepKeepsSpent(s: State, r: Request, x: Jti)
    requires Inv(s) && Enabled(s, r) && Spent(s.tokens, x)
    ensures Spent(Step(s, r).0.tokens, x)
  {
    hide Inv;
  }

  /** From the moment a token is marked used or revoked, no refresh with it ever answers, in any run. */
  lemma {:induction false} SpentForGood(s: State, run: seq<Request>, t: State, x: Jti)
    requires Inv(s) && Reaches(s, run, t) && Spent(s.tokens, x)
    ensures Inv(t) && Spent(t.tokens, x)
    ensures forall r: Request :: Enabled(t, r) && r.Refresh? && r.claims.Some? && r.claims.value.jti == x ==>
              Step(t, r) == (t, Unauthorized)
    decreases |run|
  {
    hide Inv;
    if run != [] {
      StepKeepsInv(s, run[0]);
      StepKeepsSpent(s, run[0], x);
      SpentForGood(Step(s, run[0]).0, run[1..], t, x);
    }
  }

  /** mark_refresh_token_used and revoke_refresh_token each spend exactly the token they are given, if there
      is one, and no other. */
  lemma MarkingSpendsExactly(tokens: map<Jti, Token>, jti: Jti, x: Jti)
    ensures Spent(MarkUsed(tokens, jti), x) <==> Spent(tokens, x) || (x == jti && x in tokens)
    ensures MarkUsed(tokens, jti).Keys == tokens.Keys
    ensures x in tokens ==> MarkUsed(tokens, jti)[x].user == tokens[x].user
    ensures x in tokens ==> MarkUsed(tokens, jti)[x].revoked == tokens[x].revoked
  {
  }

  lemma RevokingSpendsExactly(tokens: map<Jti, Token>, jti: Jti, x: Jti)
    ensures Spent(Revoke(tokens, jti), x) <==> Spent(tokens, x) || (x == jti && x in tokens)
    ensures Revoke(tokens, jti).Keys == tokens.Keys
    ensures x in tokens ==> Revoke(tokens, jti)[x].user == tokens[x].user
    ensures x in tokens ==> Revoke(tokens, jti)[x].used == tokens[x].used
  {
  }

  // ---------- dead chains ----------

  /** The last token of the chain is used up or revoked. */
  predicate Dead(s: State, c: nat)
    requires c < |s.chains|
  {
    && s.chains[c] != [] && LastOf(s, c) in s.tokens
    && (s.tokens[LastOf(s, c)].used || s.tokens[LastOf(s, c)].revoked)
  }

  /** The request refreshes with a token of chain c. */
  predicate RefreshesIn(s: State, r: Request, c: nat)
    requires Inv(s) && Enabled(s, r)
  {
    && r.Refresh? && r.claims.Some?
    && r.claims.value.jti in s.place && s.place[r.claims.value.jti].chain == c
    && Step(s, r).1.NewToken?
  }

  lemma DeadRefuses(s: State, c: nat, r: Request)
    requires Inv(s) && c < |s.chains| && Enabled(s, r) && RefreshesIn(s, r, c)
    ensures !Dead(s, c)
  {
    LiveIsLast(s, r.claims.value.jti);
  }

  /** A chain can still be refreshed exactly when it is not dead: a live last token refreshes, and nothing
      else in a chain does. */
  lemma DeadIffNoRefresh(s: State, c: nat, newJti: Jti)
    requires Inv(s) && c < |s.chains| && newJti !in s.tokens
    ensures Dead(s, c) <==> forall r: Request :: Enabled(s, r) ==> !RefreshesIn(s, r, c)
  {
    assert ChainOk(s, c);
    assert SlotOk(s, c, |s.chains[c]| - 1);
    var last := LastOf(s, c);
    if Dead(s, c) {
      forall r: Request | Enabled(s, r)
        ensures !RefreshesIn(s, r, c)
      {
        if RefreshesIn(s, r, c) {
          DeadRefuses(s, c, r);
        }
      }
    } else {
      var r := Refresh(Some(Claims(s.tokens[last].user, last)), true, newJti, false);
      assert Enabled(s, r) && RefreshesIn(s, r, c);
    }
  }

  lemma StepKeepsDead(s: State, r: Request, c: nat)
    requires Inv(s) && Enabled(s, r) && c < |s.chains| && Dead(s, c)
    ensures c < |Step(s, r).0.chains| && Step(s, r).0.chains[c] == s.chains[c] && Dead(Step(s, r).0, c)
  {
    if r.Refresh? && Refreshable(s.tokens, r.claims) {
      LiveIsLast(s, r.claims.value.jti);
    }
  }

  /** Once the last token of a chain is used up or revoked, no token of that chain ever refreshes again. */
  lemma {:induction false} DeadStaysDead(s: State, run: seq<Request>, t: State, c: nat)
    requires Inv(s) && Reaches(s, run, t) && c < |s.chains| && Dead(s, c)
    ensures Inv(t) && c < |t.chains| && t.chains[c] == s.chains[c] && Dead(t, c)
    ensures forall r: Request :: Enabled(t, r) ==> !RefreshesIn(t, r, c)
    decreases |run|
  {
    hide Inv, Step, Dead;
    if run == [] {
      forall r: Request | Enabled(t, r)
        ensures !RefreshesIn(t, r, c)
      {
        if RefreshesIn(t, r, c) {
          DeadRefuses(t, c, r);
        }
      }
    } else {
      StepKeepsInv(s, run[0]);
      StepKeepsDead(s, run[0], c);
      DeadStaysDead(Step(s, run[0]).0, run[1..], t, c);
    }
  }

  /** Logging out with the last token kills its chain; logging out with an earlier one leaves it alive. */
  lemma LogoutKillsIffLast(s: State, x: Jti)
    requires Inv(s) && x in s.tokens && PlaceOk(s, x) && !Dead(s, s.place[x].chain)
    ensures var t := Step(s, Logout(s.tokens[x].user, Some(Claims(s.tokens[x].user, x)))).0;
            t.chains == s.chains && (Dead(t, s.place[x].chain) <==> x == LastOf(s, s.place[x].chain))
  {
  }

  /** Presenting a token that was already exchanged is refused but does not touch the chain. */
  lemma ReuseIsRefused(s: State, r: Request)
    requires Inv(s) && Enabled(s, r) && r.Refresh? && r.claims.Some?
    requires r.claims.value.jti in s.tokens && s.tokens[r.claims.value.jti].used
    ensures Step(s, r) == (s, Unauthorized)
  {
  }

  // ---------- the imperative code ----------

  class TokenTable {
    var tokens: map<Jti, Token>
    ghost var consumed: map<Jti, Jti>
    ghost var chains: seq<seq<Jti>>
    ghost var place: map<Jti, Place>

    ghost function Abstract(): State
      reads this
    {
      State(tokens, consumed, chains, place)
    }

    ghost predicate Valid()
      reads this
    {
      Inv(Abstract())
    }

    constructor ()
      ensures Valid() && Abstract() == INIT
    {
      tokens, consumed, chains, place := map[], map[], [], map[];
    }

    /** The token part of register and login. */
    method IssueToken(user: UserId, newJti: Jti) returns (a: Answer)
      requires Valid() && newJti !in tokens
      modifies this
      ensures Valid() && (Abstract(), a) == Step(old(Abstract()), Issue(user, newJti))
      ensures a == NewToken(newJti) && tokens == old(tokens)[newJti := Token(user, false, false)]
    {
      StepKeepsInv(Abstract(), Issue(user, newJti));
      place := place[newJti := Place(|chains|, 0)];
      chains := chains + [[newJti]];
      tokens := tokens[newJti := Token(user, false, false)];
      a := NewToken(newJti);
    }

    method MarkRefreshTokenUsed(jti: Jti)
      modifies this`tokens
      ensures tokens == MarkUsed(old(tokens), jti)
    {
      if jti in tokens {
        tokens := tokens[jti := tokens[jti].(used := true)];
      }
    }

    method RevokeRefreshToken(jti: Jti)
      modifies this`tokens
      ensures tokens == Revoke(old(tokens), jti)
    {
      if jti in tokens {
        tokens := tokens[jti := tokens[jti].(revoked := true)];
      }
    }

    /** refresh; `stops` says that the process dies after the first commit. */
    method RefreshToken(claims: Option<Claims>, userExists: bool, newJti: Jti, stops: bool) returns (a: Answer)
      requires Valid() && newJti !in tokens
      modifies this
      ensures Valid() && (Abstract(), a) == Step(old(Abstract()), Refresh(claims, userExists, newJti, stops))
      ensures !Live(old(tokens), claims) ==> a == Unauthorized && tokens == old(tokens)
      ensures Live(old(tokens), claims) ==>
        var spent := old(tokens)[claims.value.jti := Token(claims.value.sub, false, true)];
        && a == (if stops then NoAnswer else if userExists then NewToken(newJti) else Unauthorized)
        && tokens == (if a.NewToken? then spent[newJti := Token(claims.value.sub, false, false)] else spent)
    {
      hide Inv;
      StepKeepsInv(Abstract(), Refresh(claims, userExists, newJti, stops));
      if claims.None? {
        return Unauthorized;
      }
      var userId, jti := claims.value.sub, claims.value.jti;
      if jti !in tokens {
        return Unauthorized;
      }
      if tokens[jti].revoked {
        return Unauthorized;
      }
      if tokens[jti].used {
        return Unauthorized;
      }
      if tokens[jti].user != userId {
        return Unauthorized;
      }
      MarkRefreshTokenUsed(jti);
      if stops {
        return NoAnswer;
      }
      if !userExists {
        return Unauthorized;
      }
      LiveIsLast(old(Abstract()), jti);
      ghost var successor := AddSuccessor(Abstract(), jti, newJti, userId);
      tokens := tokens[newJti := Token(userId, false, false)];
      consumed, chains, place := successor.consumed, successor.chains, successor.place;
      a := NewToken(newJti);
    }

    method LogOut(user: UserId, claims: Option<Claims>) returns (a: Answer)
      requires Valid()
      modifies this
      ensures Valid() && (Abstract(), a) == Step(old(Abstract()), Logout(user, claims))
      ensures a == if claims.Some? && claims.value.sub == user then Ok else Unauthorized
      ensures tokens ==
        if a == Ok && claims.value.jti in old(tokens)
        then old(tokens)[claims.value.jti := old(tokens)[claims.value.jti].(revoked := true)]
        else old(tokens)
    {
      hide Inv;
      StepKeepsInv(Abstract(), Logout(user, claims));
      if claims.None? || claims.value.sub != user {
        return Unauthorized;
      }
      RevokeRefreshToken(claims.value.jti);
      a := Ok;
    }
  }
}
