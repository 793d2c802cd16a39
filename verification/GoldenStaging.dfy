/** The pure half of freezing a golden set (`freeze_golden_set`): grouping, splitting and pairing traces.
    SHA-256 is a parameter; floats are reals. */
module GoldenStaging {
  import opened Options

  datatype Trace = Trace(
    id: nat,
    sessionId: Option<int>,
    inputUserText: Option<string>,
    input: Option<string>,
    finalText: Option<string>,
    expected: Option<string>)

  datatype Split = Train | Validation | Heldout

  datatype GroupKey = SessionKey(id: int) | PromptKey(digest: nat)

  datatype PairStatus = Unpaired | CrossSession | Paired

  datatype Staged = Staged(
    trace: Trace,
    split: Split,
    key: GroupKey,
    rejected: Option<string>,
    status: PairStatus)

  /** The two uses of SHA-256: the digest of a prompt, and a group key's digest over 2^256. */
  datatype Hashes = Hashes(digest: string -> nat, position: GroupKey -> real)

  type Ratios = map<string, real>

  const MIN_EXAMPLES_PER_SPLIT: nat := 5

  function NonEmptyText(t: Option<string>): Option<string> {
    if t == Some("") then None else t
  }

  /** t.get("input_user_text") or t.get("input") or "" */
  function InputOf(t: Trace): string {
    if NonEmptyText(t.inputUserText).Some? then t.inputUserText.value
    else if t.input.Some? then t.input.value
    else ""
  }

  /** trace.get("final_text") or trace.get("expected") or "" */
  function ExpectedOf(t: Trace): string {
    if NonEmptyText(t.finalText).Some? then t.finalText.value
    else if t.expected.Some? then t.expected.value
    else ""
  }

  /** (r.get("input_user_text") or r.get("input")) == text */
  predicate HasInput(r: Trace, text: string) {
    (if NonEmptyText(r.inputUserText).Some? then r.inputUserText else r.input) == Some(text)
  }

  function SplitGroupKey(t: Trace, h: Hashes): GroupKey {
    if t.sessionId.Some? then SessionKey(t.sessionId.value) else PromptKey(h.digest(InputOf(t)))
  }

  function Abs(x: real): real {
    if x < 0.0 then -x else x
  }

  predicate ValidRatios(r: Ratios) {
    && r.Keys == {"train", "validation", "heldout"}
    && Abs(r["train"] + r["validation"] + r["heldout"] - 1.0) <= 0.000001
    && r["train"] >= 0.0 && r["validation"] >= 0.0 && r["heldout"] >= 0.0
  }

  function SplitOf(key: GroupKey, r: Ratios, h: Hashes): Split
    requires ValidRatios(r)
  {
    var val := h.position(key);
    if val < r["train"] then Train
    else if val < r["train"] + r["validation"] then Validation
    else Heldout
  }

  predicate Matches(r: Trace, text: string, session: int) {
    HasInput(r, text) && r.sessionId == Some(session)
  }

  /** The i-th trace matches, and none before it does. */
  predicate FirstMatchAt(rs: seq<Trace>, i: nat, text: string, session: int) {
    i < |rs| && Matches(rs[i], text, session) && forall k :: 0 <= k < i ==> !Matches(rs[k], text, session)
  }

  lemma FirstMatchLater(rs: seq<Trace>, j: nat, text: string, session: int)
    requires rs != [] && !Matches(rs[0], text, session) && FirstMatchAt(rs[1..], j, text, session)
    ensures FirstMatchAt(rs, j + 1, text, session)
  {
    assert forall k :: 1 <= k < j + 1 ==> rs[k] == rs[1..][k - 1];
  }

  /** The first match, as next(...) over a filtered list finds it. */
  function FirstInSession(rs: seq<Trace>, text: string, session: int): (m: Option<Trace>)
    ensures m.Some? ==> exists i: nat :: FirstMatchAt(rs, i, text, session) && rs[i] == m.value
    ensures m.None? ==> forall r :: r in rs ==> !Matches(r, text, session)
  {
    if rs == [] then None
    else if Matches(rs[0], text, session) then assert FirstMatchAt(rs, 0, text, session); Some(rs[0])
    else
      var m := FirstInSession(rs[1..], text, session);
      assert m.Some? ==> exists i: nat :: FirstMatchAt(rs, i, text, session) && rs[i] == m.value by {
        if m.Some? {
          var j: nat :| FirstMatchAt(rs[1..], j, text, session) && rs[1..][j] == m.value;
          FirstMatchLater(rs, j, text, session);
        }
      }
      m
  }

  function Stage(t: Trace, rejected: seq<Trace>, r: Ratios, h: Hashes): Staged
    requires ValidRatios(r)
  {
    var key := SplitGroupKey(t, h);
    var split := SplitOf(key, r, h);
    if !exists c :: c in rejected && HasInput(c, InputOf(t)) then Staged(t, split, key, None, Unpaired)
    else if t.sessionId.None? then Staged(t, split, key, None, CrossSession)
    else
      var m := FirstInSession(rejected, InputOf(t), t.sessionId.value);
      if m.Some? then Staged(t, split, key, m.value.finalText, Paired)
      else Staged(t, split, key, None, CrossSession)
  }

  function StageAll(ts: seq<Trace>, rejected: seq<Trace>, r: Ratios, h: Hashes): (s: seq<Staged>)
    requires ValidRatios(r)
    ensures |s| == |ts| && forall i :: 0 <= i < |s| ==> s[i] == Stage(ts[i], rejected, r, h)
  {
    seq(|ts|, i requires 0 <= i < |ts| => Stage(ts[i], rejected, r, h))
  }

  function Count(items: seq<Staged>, split: Split): nat {
    if items == [] then 0 else Count(items[..|items| - 1], split) + if items[|items| - 1].split == split then 1 else 0
  }

  datatype Counts = Counts(train: nat, validation: nat, heldout: nat)

  function CountAll(items: seq<Staged>): Counts {
    Counts(Count(items, Train), Count(items, Validation), Count(items, Heldout))
  }

  predicate TooSmall(c: Counts) {
    c.train < MIN_EXAMPLES_PER_SPLIT || c.validation < MIN_EXAMPLES_PER_SPLIT || c.heldout < MIN_EXAMPLES_PER_SPLIT
  }

  predicate FallsBack(items: seq<Staged>) {
    |items| > 0 && TooSmall(CountAll(items))
  }

  function AllToTrain(items: seq<Staged>): (r: seq<Staged>)
    ensures |r| == |items| && forall i :: 0 <= i < |r| ==> r[i] == items[i].(split := Train)
  {
    seq(|items|, i requires 0 <= i < |items| => items[i].(split := Train))
  }

  /** The staged examples a version is frozen with. */
  function Frozen(ts: seq<Trace>, rejected: seq<Trace>, r: Ratios, h: Hashes): seq<Staged>
    requires ValidRatios(r)
  {
    var items := StageAll(ts, rejected, r, h);
    if FallsBack(items) then AllToTrain(items) else items
  }

  // ---------- what a frozen version promises ----------

  predicate NoSplitLeak(items: seq<Staged>) {
    forall i, j :: 0 <= i < |items| && 0 <= j < |items| && items[i].key == items[j].key ==>
      items[i].split == items[j].split
  }

  /** All examples of a group share one split. */
  lemma FrozenHasNoSplitLeak(ts: seq<Trace>, rejected: seq<Trace>, r: Ratios, h: Hashes)
    requires ValidRatios(r)
    ensures NoSplitLeak(Frozen(ts, rejected, r, h))
  {
  }

  /** Two traces of one session are never separated. */
  lemma SessionsStayTogether(ts: seq<Trace>, rejected: seq<Trace>, r: Ratios, h: Hashes, i: nat, j: nat)
    requires ValidRatios(r) && i < |ts| && j < |ts|
    requires ts[i].sessionId.Some? && ts[i].sessionId == ts[j].sessionId
    ensures Frozen(ts, rejected, r, h)[i].split == Frozen(ts, rejected, r, h)[j].split
  {
  }

  /** The first of two stored fields that is there and not empty, or an empty second one, holds `text`. */
  predicate FirstHolds(a: Option<string>, b: Option<string>, text: string) {
    (a == Some(text) && text != "") || ((a == None || a == Some("")) && b == Some(text))
  }

  /** `t` asks `text`; a trace without either field asks the empty question. */
  predicate Asks(t: Trace, text: string) {
    || FirstHolds(t.inputUserText, t.input, text)
    || (text == "" && (t.inputUserText == None || t.inputUserText == Some("")) && t.input == None)
  }

  lemma AsksInput(t: Trace, text: string)
    ensures Asks(t, text) <==> InputOf(t) == text
    ensures HasInput(t, text) <==> FirstHolds(t.inputUserText, t.input, text)
  {
  }

  /** The answer to learn from `t` is `text`; of a trace without either field it is empty. */
  predicate Teaches(t: Trace, text: string) {
    || FirstHolds(t.finalText, t.expected, text)
    || (text == "" && (t.finalText == None || t.finalText == Some("")) && t.expected == None)
  }

  lemma TeachesExpected(t: Trace, text: string)
    ensures Teaches(t, text) <==> ExpectedOf(t) == text
  {
  }

  /** Two traces are in one group exactly when they are of one session, or of none and their questions have
      one digest. */
  lemma SameGroupIff(t: Trace, u: Trace, h: Hashes)
    ensures SplitGroupKey(t, h) == SplitGroupKey(u, h) <==>
      || (t.sessionId.Some? && u.sessionId == t.sessionId)
      || (t.sessionId.None? && u.sessionId.None?
          && exists x, y :: Asks(t, x) && Asks(u, y) && h.digest(x) == h.digest(y))
  {
    AsksInput(t, InputOf(t));
    AsksInput(u, InputOf(u));
    forall x, y | Asks(t, x) && Asks(u, y)
      ensures x == InputOf(t) && y == InputOf(u)
    {
      AsksInput(t, x);
      AsksInput(u, y);
    }
  }

  /** A rejected trace of the same question, in any session. */
  ghost predicate SameQuestion(t: Trace, c: Trace) {
    exists text :: Asks(t, text) && FirstHolds(c.inputUserText, c.input, text)
  }

  lemma SameQuestionIff(t: Trace, c: Trace)
    ensures SameQuestion(t, c) <==> HasInput(c, InputOf(t))
  {
    hide Asks, FirstHolds, InputOf, HasInput;
    AsksInput(t, InputOf(t));
    AsksInput(c, InputOf(t));
    forall text | Asks(t, text)
      ensures text == InputOf(t)
    {
      AsksInput(t, text);
    }
  }

  /** The i-th rejected trace is the first of the same question in the same session. */
  ghost predicate FirstRival(t: Trace, rejected: seq<Trace>, i: nat) {
    && i < |rejected| && SameQuestion(t, rejected[i]) && t.sessionId.Some? && rejected[i].sessionId == t.sessionId
    && forall k :: 0 <= k < i ==> !(SameQuestion(t, rejected[k]) && rejected[k].sessionId == t.sessionId)
  }

  /** What each pairing status means, and where a rejected text comes from. */
  ghost predicate PairedCorrectly(item: Staged, t: Trace, rejected: seq<Trace>) {
    && item.trace == t
    && (item.status == Unpaired <==> forall c :: c in rejected ==> !SameQuestion(t, c))
    && (item.status == Paired <==>
        t.sessionId.Some? && exists c :: c in rejected && SameQuestion(t, c) && c.sessionId == t.sessionId)
    && (item.status == Paired ==> exists i: nat :: FirstRival(t, rejected, i) && item.rejected == rejected[i].finalText)
    && (item.status != Paired ==> item.rejected == None)
  }

  lemma FrozenPairs(ts: seq<Trace>, rejected: seq<Trace>, r: Ratios, h: Hashes, i: nat)
    requires ValidRatios(r) && i < |ts|
    ensures |Frozen(ts, rejected, r, h)| == |ts|
    ensures PairedCorrectly(Frozen(ts, rejected, r, h)[i], ts[i], rejected)
  {
    StagePairs(ts[i], rejected, r, h);
    assert Frozen(ts, rejected, r, h)[i].(split := Train) == Stage(ts[i], rejected, r, h).(split := Train);
  }

  lemma StagePairs(t: Trace, rejected: seq<Trace>, r: Ratios, h: Hashes)
    requires ValidRatios(r)
    ensures PairedCorrectly(Stage(t, rejected, r, h), t, rejected)
  {
    hide SameQuestion, HasInput, InputOf, SplitOf, SplitGroupKey;
    forall c
      ensures SameQuestion(t, c) <==> HasInput(c, InputOf(t))
    {
      SameQuestionIff(t, c);
    }
    if t.sessionId.Some? {
      var m := FirstInSession(rejected, InputOf(t), t.sessionId.value);
      if m.Some? {
        var i: nat :| FirstMatchAt(rejected, i, InputOf(t), t.sessionId.value) && rejected[i] == m.value;
        assert rejected[i] in rejected && FirstRival(t, rejected, i);
      }
    }
  }

  lemma {:induction false} CountsSum(items: seq<Staged>)
    ensures Count(items, Train) + Count(items, Validation) + Count(items, Heldout) == |items|
  {
    if items != [] {
      CountsSum(items[..|items| - 1]);
    }
  }

  lemma {:induction false} CountAllTrain(items: seq<Staged>)
    requires forall i :: 0 <= i < |items| ==> items[i].split == Train
    ensures CountAll(items) == Counts(|items|, 0, 0)
  {
    if items != [] {
      CountAllTrain(items[..|items| - 1]);
    }
  }

  ghost function PlacedIn(items: seq<Staged>, split: Split): set<int> {
    set i | 0 <= i < |items| && items[i].split == split
  }

  lemma PlacedOneMore(front: seq<Staged>, item: Staged, split: Split)
    ensures PlacedIn(front + [item], split) == PlacedIn(front, split) + if item.split == split then {|front|} else {}
  {
  }

  lemma {:induction false} CountIsSize(items: seq<Staged>, split: Split)
    ensures Count(items, split) == |PlacedIn(items, split)|
  {
    if items != [] {
      var last := |items| - 1;
      CountIsSize(items[..last], split);
      PlacedOneMore(items[..last], items[last], split);
      assert items[..last] + [items[last]] == items;
    }
  }

  /** The traces whose group hashes into `split`: below the train ratio, from there up to the sum of train and
      validation, or from that sum on. */
  ghost function HashedInto(ts: seq<Trace>, r: Ratios, h: Hashes, split: Split): set<int>
    requires ValidRatios(r)
  {
    set i | 0 <= i < |ts| && Lands(h.position(SplitGroupKey(ts[i], h)), r["train"], r["train"] + r["validation"], split)
  }

  predicate Lands(position: real, first: real, second: real, split: Split) {
    match split
    case Train => position < first
    case Validation => first <= position < second
    case Heldout => position >= first && position >= second
  }

  lemma SplitLands(key: GroupKey, r: Ratios, h: Hashes, split: Split)
    requires ValidRatios(r)
    ensures SplitOf(key, r, h) == split <==> Lands(h.position(key), r["train"], r["train"] + r["validation"], split)
  {
  }

  lemma StagedIsHashed(ts: seq<Trace>, rejected: seq<Trace>, r: Ratios, h: Hashes, split: Split)
    requires ValidRatios(r)
    ensures Count(StageAll(ts, rejected, r, h), split) == |HashedInto(ts, r, h, split)|
  {
    hide Count, Lands, SplitOf, ValidRatios, SplitGroupKey;
    var items := StageAll(ts, rejected, r, h);
    CountIsSize(items, split);
    forall i | 0 <= i < |ts|
      ensures items[i].split == split <==> i in HashedInto(ts, r, h, split)
    {
      SplitLands(SplitGroupKey(ts[i], h), r, h, split);
    }
    assert PlacedIn(items, split) == HashedInto(ts, r, h, split);
  }

  /** Some split got fewer than five traces. */
  ghost predicate SmallSplit(ts: seq<Trace>, r: Ratios, h: Hashes)
    requires ValidRatios(r)
  {
    exists split :: |HashedInto(ts, r, h, split)| < 5
  }

  lemma FallsBackIff(ts: seq<Trace>, rejected: seq<Trace>, r: Ratios, h: Hashes)
    requires ValidRatios(r)
    ensures FallsBack(StageAll(ts, rejected, r, h)) <==> ts != [] && SmallSplit(ts, r, h)
  {
    hide Count, HashedInto;
    forall split
      ensures Count(StageAll(ts, rejected, r, h), split) == |HashedInto(ts, r, h, split)|
    {
      StagedIsHashed(ts, rejected, r, h, split);
    }
    assert SmallSplit(ts, r, h) <==> TooSmall(CountAll(StageAll(ts, rejected, r, h))) by {
      var c := CountAll(StageAll(ts, rejected, r, h));
      assert c == Counts(|HashedInto(ts, r, h, Train)|, |HashedInto(ts, r, h, Validation)|,
                         |HashedInto(ts, r, h, Heldout)|);
      if small :| |HashedInto(ts, r, h, small)| < 5 {
        match small
        case Train =>
        case Validation =>
        case Heldout =>
      }
    }
  }

  /** A non-empty version has at least five examples in every split, or everything in train; and each example
      is in the split its group hashes into, unless some split got fewer than five that way: then all are in
      train. */
  lemma FrozenSplitSizes(ts: seq<Trace>, rejected: seq<Trace>, r: Ratios, h: Hashes)
    requires ValidRatios(r) && ts != []
    ensures var c := CountAll(Frozen(ts, rejected, r, h));
            && c.train + c.validation + c.heldout == |ts|
            && ((c.train >= 5 && c.validation >= 5 && c.heldout >= 5) || c == Counts(|ts|, 0, 0))
    ensures |Frozen(ts, rejected, r, h)| == |ts|
    ensures forall i, split :: 0 <= i < |ts| ==>
      (Frozen(ts, rejected, r, h)[i].split == split <==>
       if exists small :: |HashedInto(ts, r, h, small)| < 5 then split == Train else i in HashedInto(ts, r, h, split))
  {
    CountsSum(Frozen(ts, rejected, r, h));
    CountAllTrain(AllToTrain(StageAll(ts, rejected, r, h)));
    FallsBackIff(ts, rejected, r, h);
    forall i, split | 0 <= i < |ts|
      ensures i in HashedInto(ts, r, h, split) <==> StageAll(ts, rejected, r, h)[i].split == split
    {
      SplitLands(SplitGroupKey(ts[i], h), r, h, split);
    }
    assert SmallSplit(ts, r, h) <==> exists small :: |HashedInto(ts, r, h, small)| < 5;
  }

  /** Two versions built with equal ratios put a shared group in the same split exactly when both or neither
      have a split with fewer than five traces, or the group hashes into train anyway. */
  lemma VersionsAgreeIff(ts: seq<Trace>, us: seq<Trace>, rejT: seq<Trace>, rejU: seq<Trace>, r: Ratios, h: Hashes,
                         i: nat, j: nat)
    requires ValidRatios(r) && i < |ts| && j < |us|
    requires SplitGroupKey(ts[i], h) == SplitGroupKey(us[j], h)
    ensures Frozen(ts, rejT, r, h)[i].split == Frozen(us, rejU, r, h)[j].split <==>
      || (SmallSplit(ts, r, h) <==> SmallSplit(us, r, h))
      || h.position(SplitGroupKey(ts[i], h)) < r["train"]
  {
    FallsBackIff(ts, rejT, r, h);
    FallsBackIff(us, rejU, r, h);
  }

  lemma {:induction false} CountOfAlike(items: seq<Staged>, split: Split)
    requires forall i :: 0 <= i < |items| ==> items[i].split == split
    ensures forall other :: Count(items, other) == if other == split then |items| else 0
    decreases |items|
  {
    if items != [] {
      CountOfAlike(items[..|items| - 1], split);
    }
  }

  lemma {:induction false} CountConcat(a: seq<Staged>, b: seq<Staged>, split: Split)
    ensures Count(a + b, split) == Count(a, split) + Count(b, split)
    decreases |b|
  {
    if b == [] {
      assert a + b == a;
    } else {
      assert (a + b)[..|a + b| - 1] == a + b[..|b| - 1];
      CountConcat(a, b[..|b| - 1], split);
    }
  }

  function TraceOf(session: int): Trace {
    Trace(0, Some(session), Some("question"), None, Some("answer"), None)
  }

  /** `n` traces of one session. */
  function Session(session: int, n: nat): seq<Trace> {
    seq(n, i => TraceOf(session))
  }

  /** Two trace lists that disagree, under the default ratios and any hash that spreads three sessions over
      the three splits: five traces of each session keep their splits; one trace of session 2 alone falls
      back, so its group moves from validation to train. */
  lemma SessionTwoMoves(h: Hashes)
    requires h.position(SessionKey(1)) == 0.1 && h.position(SessionKey(2)) == 0.8 && h.position(SessionKey(3)) == 0.9
    ensures var r: Ratios := map["train" := 0.7, "validation" := 0.15, "heldout" := 0.15];
            var many := Session(1, 5) + Session(2, 5) + Session(3, 5);
            var one := Session(2, 1);
            && ValidRatios(r) && SplitGroupKey(many[5], h) == SplitGroupKey(one[0], h)
            && Frozen(many, [], r, h)[5].split == Validation && Frozen(one, [], r, h)[0].split == Train
  {
    var r: Ratios := map["train" := 0.7, "validation" := 0.15, "heldout" := 0.15];
    var many := Session(1, 5) + Session(2, 5) + Session(3, 5);
    assert ValidRatios(r);
    var items := StageAll(many, [], r, h);
    var a, b, c := items[..5], items[5..10], items[10..];
    CountOfAlike(a, Train);
    CountOfAlike(b, Validation);
    CountOfAlike(c, Heldout);
    assert items == (a + b) + c;
    forall split
      ensures Count(items, split) == Count(a, split) + Count(b, split) + Count(c, split)
    {
      CountConcat(a, b, split);
      CountConcat(a + b, c, split);
    }
    assert !FallsBack(items);
    var single := StageAll(Session(2, 1), [], r, h);
    CountOfAlike(single, Validation);
    assert FallsBack(single);
  }

  /** A split with ratio zero gets no group; for heldout, which takes what is left, only if the ratios sum to
      exactly one (a sum within the tolerance is accepted too). */
  lemma ZeroRatioGetsNothing(key: GroupKey, r: Ratios, h: Hashes)
    requires ValidRatios(r) && 0.0 <= h.position(key) < 1.0
    ensures r["train"] == 0.0 ==> SplitOf(key, r, h) != Train
    ensures r["validation"] == 0.0 ==> SplitOf(key, r, h) != Validation
    ensures r["heldout"] == 0.0 && r["train"] + r["validation"] == 1.0 ==> SplitOf(key, r, h) != Heldout
  {
  }

  // ---------- the imperative code ----------

  datatype Staging = Staging(items: seq<Staged>, counts: Counts, warned: bool)

  /** _assign_split: validates the ratios on every call. */
  method AssignSplit(key: GroupKey, r: Ratios, h: Hashes) returns (res: Result<Split>)
    ensures res == if ValidRatios(r) then Success(SplitOf(key, r, h)) else Failure
    ensures res.Failure? <==>
      || r.Keys != {"train", "validation", "heldout"}
      || r["train"] < 0.0 || r["validation"] < 0.0 || r["heldout"] < 0.0
      || !(0.999999 <= r["train"] + r["validation"] + r["heldout"] <= 1.000001)
    ensures res.Success? ==> Lands(h.position(key), r["train"], r["train"] + r["validation"], res.value)
  {
    if r.Keys != {"train", "validation", "heldout"} {
      return Failure;
    }
    var total := r["train"] + r["validation"] + r["heldout"];
    if Abs(total - 1.0) > 0.000001 || r["train"] < 0.0 || r["validation"] < 0.0 || r["heldout"] < 0.0 {
      return Failure;
    }
    var val := h.position(key);
    if val < r["train"] {
      return Success(Train);
    } else if val < r["train"] + r["validation"] {
      return Success(Validation);
    }
    return Success(Heldout);
  }

  function OrElse<T>(a: Option<T>, b: Option<T>): Option<T> {
    if a.Some? then a else b
  }

  method PairTrace(t: Trace, rejected: seq<Trace>) returns (matched: Option<string>, status: PairStatus)
    ensures forall r: Ratios, h: Hashes {:trigger Stage(t, rejected, r, h)} :: ValidRatios(r) ==>
      matched == Stage(t, rejected, r, h).rejected && status == Stage(t, rejected, r, h).status
  {
    matched, status := None, Unpaired;
    var i := 0;
    var sameInput := [];
    while i < |rejected|
      invariant 0 <= i <= |rejected|
      invariant forall c :: c in sameInput <==> c in rejected[..i] && HasInput(c, InputOf(t))
      invariant t.sessionId.Some? ==>
        var session := t.sessionId.value;
        FirstInSession(rejected, InputOf(t), session)
          == OrElse(FirstInSession(sameInput, InputOf(t), session), FirstInSession(rejected[i..], InputOf(t), session))
    {
      if HasInput(rejected[i], InputOf(t)) {
        if t.sessionId.Some? {
          FirstInSessionAppend(sameInput, rejected[i], InputOf(t), t.sessionId.value);
        }
        sameInput := sameInput + [rejected[i]];
      }
      assert rejected[..i + 1] == rejected[..i] + [rejected[i]];
      assert rejected[i..][1..] == rejected[i + 1..];
      i := i + 1;
    }
    assert rejected[..i] == rejected && rejected[i..] == [];
    if sameInput != [] {
      assert sameInput[0] in rejected;
      if t.sessionId.Some? {
        var m := FirstInSession(sameInput, InputOf(t), t.sessionId.value);
        if m.Some? {
          status := Paired;
          matched := m.value.finalText;
        } else {
          status := CrossSession;
        }
      } else {
        status := CrossSession;
      }
    }
  }

  lemma {:induction false} FirstInSessionAppend(rs: seq<Trace>, r: Trace, text: string, session: int)
    ensures FirstInSession(rs + [r], text, session)
         == OrElse(FirstInSession(rs, text, session), FirstInSession([r], text, session))
    decreases |rs|
  {
    if rs == [] {
      assert rs + [r] == [r];
    } else {
      assert (rs + [r])[0] == rs[0] && (rs + [r])[1..] == rs[1..] + [r];
      FirstInSessionAppend(rs[1..], r, text, session);
    }
  }

  /** Grouping with the group_splits dictionary, pairing, counting and the small-set fallback. Invalid
      ratios are only noticed when there is a trace to assign. */
  method StageTraces(traces: seq<Trace>, rejected: seq<Trace>, r: Ratios, h: Hashes) returns (res: Result<Staging>)
    ensures res.Failure? <==> traces != [] && !ValidRatios(r)
    ensures res.Success? && traces == [] ==> res.value == Staging([], Counts(0, 0, 0), false)
    ensures res.Success? && traces != [] ==>
              && res.value.items == Frozen(traces, rejected, r, h)
              && res.value.counts == CountAll(res.value.items)
              && (res.value.warned <==> exists split :: |HashedInto(traces, r, h, split)| < 5)
  {
    var groupSplits: map<GroupKey, Split> := map[];
    var items: seq<Staged> := [];
    var i := 0;
    while i < |traces|
      invariant 0 <= i <= |traces| && |items| == i
      invariant i > 0 ==> ValidRatios(r)
      invariant ValidRatios(r) ==> forall k :: k in groupSplits ==> groupSplits[k] == SplitOf(k, r, h)
      invariant !ValidRatios(r) ==> groupSplits == map[]
      invariant ValidRatios(r) ==> forall k :: 0 <= k < i ==> items[k] == Stage(traces[k], rejected, r, h)
    {
      var t := traces[i];
      var key := SplitGroupKey(t, h);
      if key !in groupSplits {
        var choice := AssignSplit(key, r, h);
        if choice.Failure? {
          return Failure;
        }
        groupSplits := groupSplits[key := choice.value];
      }
      var matched, status := PairTrace(t, rejected);
      items := items + [Staged(t, groupSplits[key], key, matched, status)];
      assert Stage(t, rejected, r, h) == items[i];
      i := i + 1;
    }
    assert ValidRatios(r) ==> items == StageAll(traces, rejected, r, h);
    if ValidRatios(r) {
      FallsBackIff(traces, rejected, r, h);
      assert SmallSplit(traces, r, h) <==> exists split :: |HashedInto(traces, r, h, split)| < 5;
    }
    var counts := CountLoop(items);
    var warned := false;
    if |items| > 0 && TooSmall(counts) {
      warned := true;
      items := AllToTrain(items);
      counts := Counts(|items|, 0, 0);
      CountAllTrain(items);
    }
    res := Success(Staging(items, counts, warned));
  }

  method CountLoop(items: seq<Staged>) returns (c: Counts)
    ensures c == CountAll(items)
  {
    c := Counts(0, 0, 0);
    var i := 0;
    while i < |items|
      invariant 0 <= i <= |items| && c == CountAll(items[..i])
    {
      assert items[..i + 1][..i] == items[..i];
      match items[i].split {
        case Train => c := c.(train := c.train + 1);
        case Validation => c := c.(validation := c.validation + 1);
        case Heldout => c := c.(heldout := c.heldout + 1);
      }
      i := i + 1;
    }
    assert items[..i] == items;
  }
}
