/** The dataset-version protocol of one user (`_reserve_next_version`, `freeze_golden_set`,
    `get_golden_set`): any number of freezers and readers, interleaved one database call at a time.
    Queries filter on the user, so rows of other users play no part. */
module GoldenVersions {
  import opened Options
  import opened GoldenStaging

  const MAX_VERSION_ALLOCATION_RETRIES: nat := 5

  datatype Status = Building | Ready | Failed

  type Pid = nat

  /** A row of dataset_versions, with the freezer that inserted it. */
  datatype Manifest = Manifest(version: int, status: Status, owner: Pid)

  /** A document of golden_traces. */
  datatype Golden = Golden(version: int, example: Staged)

  /** Where a freezer stands. `tries` are the candidate versions of its retry loop so far. */
  datatype Phase =
    | Reading(tries: seq<int>)
    | Inserting(tries: seq<int>)
    | Filling(version: int, stored: nat)
    | Failing(version: int)
    | Done(version: int)
    | GaveUp(tries: seq<int>)
    | Stopped

  datatype Freezer = Freezer(staged: seq<Staged>, phase: Phase)

  /** A reader that gave no version: get_golden_set resolves one, then fetches. An export or evaluation first
      resolves one itself, which it reports; get_golden_set is given that one and resolves again if it is
      none. */
  datatype Reader =
    | Reporting(version: Option<int>)
    | Resolved(reported: Option<Option<int>>, version: Option<int>)
    | Answered(reported: Option<Option<int>>, version: Option<int>, split: Option<Split>, limit: nat, docs: seq<Staged>)

  datatype State = State(
    rows: seq<Manifest>,
    golden: seq<Golden>,
    freezers: map<Pid, Freezer>,
    readers: map<nat, Reader>)

  datatype Action =
    | Begin(pid: Pid, staged: seq<Staged>)
    | ReadLatest(pid: Pid)
    | Insert(pid: Pid)
    | StoreExample(pid: Pid)
    | RaiseWhileStoring(pid: Pid)
    | MarkReady(pid: Pid)
    | MarkFailed(pid: Pid)
    | Stop(pid: Pid)
    | Report(rid: nat)
    | Resolve(rid: nat)
    | Fetch(rid: nat, split: Option<Split>, limit: nat)

  const INIT := State([], [], map[], map[])

  // ---------- the database queries ----------

  /** find().sort("version", -1).limit(1), or 0 for an empty collection. */
  function MaxVersion(rows: seq<Manifest>): int {
    if rows == [] then 0
    else
      var rest := MaxVersion(rows[..|rows| - 1]);
      var v := rows[|rows| - 1].version;
      if |rows| == 1 || v > rest then v else rest
  }

  /** The unique index on (user_id, version). */
  predicate VersionTaken(rows: seq<Manifest>, version: int) {
    exists i :: 0 <= i < |rows| && rows[i].version == version
  }

  /** update_one({"version": version}, {"$set": {"status": status}}) */
  function SetStatus(rows: seq<Manifest>, version: int, status: Status): (r: seq<Manifest>)
    ensures |r| == |rows|
    ensures forall i :: 0 <= i < |rows| ==>
      r[i] == if rows[i].version == version then rows[i].(status := status) else rows[i]
  {
    seq(|rows|, i requires 0 <= i < |rows| =>
      if rows[i].version == version then rows[i].(status := status) else rows[i])
  }

  /** find({"dataset_version": version}) in insertion order. */
  function ExamplesOf(golden: seq<Golden>, version: int): seq<Staged> {
    if golden == [] then []
    else
      var last := golden[|golden| - 1];
      ExamplesOf(golden[..|golden| - 1], version) + if last.version == version then [last.example] else []
  }

  /** The greatest ready version. */
  function LatestReady(rows: seq<Manifest>): (r: Option<int>)
    ensures r.Some? ==> exists i :: 0 <= i < |rows| && rows[i].status == Ready && rows[i].version == r.value
    ensures forall i :: 0 <= i < |rows| && rows[i].status == Ready ==> r.Some? && rows[i].version <= r.value
  {
    if rows == [] then None
    else
      var rest := LatestReady(rows[..|rows| - 1]);
      var last := rows[|rows| - 1];
      if last.status == Ready && (rest.None? || last.version > rest.value) then Some(last.version) else rest
  }

  function InSplit(items: seq<Staged>, split: Option<Split>): seq<Staged> {
    if items == [] then []
    else
      InSplit(items[1..], split) + if split.None? || items[0].split == split.value then [items[0]] else []
  }

  /** What get_golden_set returns of a version's examples: one split, newest first, at most
      `limit` (a limit of 0 is none). */
  function View(items: seq<Staged>, split: Option<Split>, limit: nat): seq<Staged> {
    var found := InSplit(items, split);
    if limit == 0 || |found| <= limit then found else found[..limit]
  }

  // ---------- the steps ----------

  predicate Enabled(s: State, a: Action) {
    match a
    case Begin(pid, _) => pid !in s.freezers
    case ReadLatest(pid) => pid in s.freezers && s.freezers[pid].phase.Reading?
    case Insert(pid) => pid in s.freezers && s.freezers[pid].phase.Inserting? && s.freezers[pid].phase.tries != []
    case StoreExample(pid) =>
      pid in s.freezers && s.freezers[pid].phase.Filling? && s.freezers[pid].phase.stored < |s.freezers[pid].staged|
    case RaiseWhileStoring(pid) => pid in s.freezers && s.freezers[pid].phase.Filling?
    case MarkReady(pid) =>
      pid in s.freezers && s.freezers[pid].phase.Filling? && s.freezers[pid].phase.stored == |s.freezers[pid].staged|
    case MarkFailed(pid) => pid in s.freezers && s.freezers[pid].phase.Failing?
    case Stop(pid) => pid in s.freezers && !s.freezers[pid].phase.Done? && !s.freezers[pid].phase.GaveUp?
    case Report(rid) => true
    case Resolve(rid) => true
    case Fetch(rid, _, _) => rid in s.readers && s.readers[rid].Resolved?
  }

  function Move(s: State, pid: Pid, phase: Phase): State
    requires pid in s.freezers
  {
    s.(freezers := s.freezers[pid := s.freezers[pid].(phase := phase)])
  }

  /** One attempt to insert the building manifest of the last candidate. */
  function InsertStep(s: State, pid: Pid): State
    requires Enabled(s, Insert(pid))
  {
    var tries := s.freezers[pid].phase.tries;
    var candidate := tries[|tries| - 1];
    if VersionTaken(s.rows, candidate) then
      Move(s, pid, if |tries| < MAX_VERSION_ALLOCATION_RETRIES then Reading(tries) else GaveUp(tries))
    else
      Move(s.(rows := s.rows + [Manifest(candidate, Building, pid)]), pid, Filling(candidate, 0))
  }

  /** _resolve_dataset_version inside get_golden_set. */
  function ResolveStep(s: State, rid: nat): State {
    var reader :=
      if rid in s.readers && s.readers[rid].Reporting? then
        var given := s.readers[rid].version;
        Resolved(Some(given), if given.Some? then given else LatestReady(s.rows))
      else Resolved(None, LatestReady(s.rows));
    s.(readers := s.readers[rid := reader])
  }

  function FetchStep(s: State, rid: nat, split: Option<Split>, limit: nat): State
    requires Enabled(s, Fetch(rid, split, limit))
  {
    var v := s.readers[rid].version;
    var docs := if v.Some? then View(ExamplesOf(s.golden, v.value), split, limit) else [];
    s.(readers := s.readers[rid := Answered(s.readers[rid].reported, v, split, limit, docs)])
  }

  function Step(s: State, a: Action): State
    requires Enabled(s, a)
  {
    match a
    case Begin(pid, staged) => s.(freezers := s.freezers[pid := Freezer(staged, Reading([]))])
    case ReadLatest(pid) => Move(s, pid, Inserting(s.freezers[pid].phase.tries + [MaxVersion(s.rows) + 1]))
    case Insert(pid) => InsertStep(s, pid)
    case StoreExample(pid) =>
      var f := s.freezers[pid];
      Move(s.(golden := s.golden + [Golden(f.phase.version, f.staged[f.phase.stored])]), pid,
           Filling(f.phase.version, f.phase.stored + 1))
    case RaiseWhileStoring(pid) => Move(s, pid, Failing(s.freezers[pid].phase.version))
    case MarkReady(pid) =>
      var v := s.freezers[pid].phase.version;
      Move(s.(rows := SetStatus(s.rows, v, Ready)), pid, Done(v))
    case MarkFailed(pid) =>
      var v := s.freezers[pid].phase.version;
      Move(s.(rows := SetStatus(s.rows, v, Failed)), pid, Stopped)
    case Stop(pid) => Move(s, pid, Stopped)
    case Report(rid) => s.(readers := s.readers[rid := Reporting(LatestReady(s.rows))])
    case Resolve(rid) => ResolveStep(s, rid)
    case Fetch(rid, split, limit) => FetchStep(s, rid, split, limit)
  }

  /** `t` is reached from `s` by the steps `run`, in that order. */
  predicate Reaches(s: State, run: seq<Action>, t: State)
    decreases |run|
  {
    if run == [] then s == t
    else Enabled(s, run[0]) && Reaches(Step(s, run[0]), run[1..], t)
  }

  // ---------- the invariant ----------

  /** The k-th row has version k: no gap, no duplicate. */
  predicate Numbered(rows: seq<Manifest>) {
    forall i :: 0 <= i < |rows| ==> rows[i].version == i + 1
  }

  predicate Increasing(tries: seq<int>) {
    forall i, j :: 0 <= i < j < |tries| ==> tries[i] < tries[j]
  }

  /** The candidates tried so far: positive, strictly increasing, and all taken up to `taken`. */
  predicate TriesOk(tries: seq<int>, taken: int) {
    && Increasing(tries) && |tries| <= MAX_VERSION_ALLOCATION_RETRIES
    && forall i :: 0 <= i < |tries| ==> 1 <= tries[i] <= taken
  }

  predicate OwnsNothing(s: State, pid: Pid) {
    forall i :: 0 <= i < |s.rows| ==> s.rows[i].owner != pid
  }

  predicate Owns(s: State, pid: Pid, version: int, status: Status) {
    && 1 <= version <= |s.rows|
    && s.rows[version - 1].owner == pid && s.rows[version - 1].status == status
  }

  predicate FreezerOk(s: State, pid: Pid)
    requires pid in s.freezers
  {
    var f := s.freezers[pid];
    match f.phase
    case Reading(tries) => OwnsNothing(s, pid) && TriesOk(tries, |s.rows|) && |tries| < MAX_VERSION_ALLOCATION_RETRIES
    case Inserting(tries) =>
      && OwnsNothing(s, pid) && tries != [] && TriesOk(tries, |s.rows| + 1)
    case GaveUp(tries) =>
      OwnsNothing(s, pid) && TriesOk(tries, |s.rows|) && |tries| == MAX_VERSION_ALLOCATION_RETRIES
    case Filling(v, stored) =>
      Owns(s, pid, v, Building) && stored <= |f.staged| && ExamplesOf(s.golden, v) == f.staged[..stored]
    case Failing(v) => Owns(s, pid, v, Building)
    case Done(v) => Owns(s, pid, v, Ready) && ExamplesOf(s.golden, v) == f.staged
    case Stopped => true
  }

  predicate RowOk(s: State, i: nat)
    requires i < |s.rows|
  {
    && s.rows[i].owner in s.freezers
    && (s.rows[i].status == Ready ==> s.freezers[s.rows[i].owner].phase == Done(i + 1))
  }

  predicate ReaderOk(s: State, r: Reader) {
    && (r.version.Some? ==> 1 <= r.version.value <= |s.rows| && s.rows[r.version.value - 1].status == Ready)
    && (!r.Reporting? && r.reported.Some? && r.reported.value.Some? ==> r.version == r.reported.value)
    && (r.Answered? && r.version.None? ==> r.docs == [])
    && (r.Answered? && r.version.Some? ==> r.docs == View(ExamplesOf(s.golden, r.version.value), r.split, r.limit))
  }

  predicate Inv(s: State) {
    && Numbered(s.rows)
    && (forall g :: g in s.golden ==> 1 <= g.version <= |s.rows|)
    && (forall pid :: pid in s.freezers ==> FreezerOk(s, pid))
    && (forall i :: 0 <= i < |s.rows| ==> RowOk(s, i))
    && (forall rid :: rid in s.readers ==> ReaderOk(s, s.readers[rid]))
  }

  lemma {:induction false} MaxOfNumbered(rows: seq<Manifest>)
    requires Numbered(rows)
    ensures MaxVersion(rows) == |rows|
    ensures forall v :: VersionTaken(rows, v) <==> 1 <= v <= |rows|
    decreases |rows|
  {
    if rows != [] {
      MaxOfNumbered(rows[..|rows| - 1]);
    }
    forall v | 1 <= v <= |rows|
      ensures VersionTaken(rows, v)
    {
      assert rows[v - 1].version == v;
    }
  }

  lemma ExamplesAfterStore(golden: seq<Golden>, g: Golden, version: int)
    ensures ExamplesOf(golden + [g], version)
         == ExamplesOf(golden, version) + if g.version == version then [g.example] else []
  {
  }

  lemma {:induction false} NoExamplesYet(golden: seq<Golden>, version: int)
    requires forall g :: g in golden ==> g.version != version
    ensures ExamplesOf(golden, version) == []
    decreases |golden|
  {
    if golden != [] {
      NoExamplesYet(golden[..|golden| - 1], version);
    }
  }

  lemma BeginKeepsInv(s: State, pid: Pid, staged: seq<Staged>)
    requires Inv(s) && Enabled(s, Begin(pid, staged))
    ensures Inv(Step(s, Begin(pid, staged)))
  {
    hide View, InSplit, LatestReady, MaxVersion, ExamplesOf;
    var t := Step(s, Begin(pid, staged));
    assert OwnsNothing(t, pid) by {
      forall i | 0 <= i < |s.rows|
        ensures s.rows[i].owner != pid
      {
        assert RowOk(s, i);
      }
    }
    forall q | q in t.freezers
      ensures FreezerOk(t, q)
    {
      assert q != pid ==> FreezerOk(s, q);
    }
    forall i | 0 <= i < |t.rows|
      ensures RowOk(t, i)
    {
      assert RowOk(s, i);
    }
    forall rid | rid in t.readers
      ensures ReaderOk(t, t.readers[rid])
    {
      assert ReaderOk(s, s.readers[rid]);
    }
  }

  lemma ReadKeepsInv(s: State, pid: Pid)
    requires Inv(s) && Enabled(s, ReadLatest(pid))
    ensures Inv(Step(s, ReadLatest(pid)))
  {
    MaxOfNumbered(s.rows);
    assert FreezerOk(s, pid);
    MoveKeepsOthers(s, pid, Inserting(s.freezers[pid].phase.tries + [|s.rows| + 1]));
  }

  /** A step of one freezer that leaves the collections alone only has to re-establish its own part. */
  lemma MoveKeepsOthers(s: State, pid: Pid, phase: Phase)
    requires Inv(s) && pid in s.freezers && !s.freezers[pid].phase.Done?
    requires FreezerOk(Move(s, pid, phase), pid)
    ensures Inv(Move(s, pid, phase))
  {
    hide View, MaxVersion, LatestReady, ExamplesOf;
    var t := Move(s, pid, phase);
    forall q | q in t.freezers
      ensures FreezerOk(t, q)
    {
      assert q != pid ==> FreezerOk(s, q);
    }
    forall i | 0 <= i < |t.rows|
      ensures RowOk(t, i)
    {
      assert RowOk(s, i);
    }
    forall rid | rid in t.readers
      ensures ReaderOk(t, t.readers[rid])
    {
      assert ReaderOk(s, s.readers[rid]);
    }
  }

  lemma InsertKeepsInv(s: State, pid: Pid)
    requires Inv(s) && Enabled(s, Insert(pid))
    ensures Inv(Step(s, Insert(pid)))
  {
    hide View, InSplit, LatestReady, MaxVersion, ExamplesOf;
    var t := Step(s, Insert(pid));
    var tries := s.freezers[pid].phase.tries;
    var candidate := tries[|tries| - 1];
    assert FreezerOk(s, pid);
    MaxOfNumbered(s.rows);
    if VersionTaken(s.rows, candidate) {
      forall i | 0 <= i < |tries|
        ensures 1 <= tries[i] <= |s.rows|
      {
        assert i < |tries| - 1 ==> tries[i] < candidate;
      }
      MoveKeepsOthers(s, pid, t.freezers[pid].phase);
    } else {
      ReserveKeepsInv(s, pid, candidate);
    }
  }

  /** The insert of a free candidate. */
  lemma ReserveKeepsInv(s: State, pid: Pid, candidate: int)
    requires Inv(s) && pid in s.freezers && OwnsNothing(s, pid) && candidate == |s.rows| + 1
    requires !s.freezers[pid].phase.Done?
    ensures Inv(Move(s.(rows := s.rows + [Manifest(candidate, Building, pid)]), pid, Filling(candidate, 0)))
  {
    hide View, InSplit, LatestReady, MaxVersion, ExamplesOf;
    var t := Move(s.(rows := s.rows + [Manifest(candidate, Building, pid)]), pid, Filling(candidate, 0));
    NoExamplesYet(s.golden, candidate);
    assert t.freezers[pid].staged[..0] == [];
    forall q | q in t.freezers
      ensures FreezerOk(t, q)
    {
      assert FreezerOk(s, q);
    }
    forall i | 0 <= i < |t.rows|
      ensures RowOk(t, i)
    {
      assert i < |s.rows| ==> RowOk(s, i);
    }
    forall rid | rid in t.readers
      ensures ReaderOk(t, t.readers[rid])
    {
      assert ReaderOk(s, s.readers[rid]);
    }
  }

  lemma StoreKeepsInv(s: State, pid: Pid)
    requires Inv(s) && Enabled(s, StoreExample(pid))
    ensures Inv(Step(s, StoreExample(pid)))
  {
    hide View, InSplit, LatestReady, MaxVersion, ExamplesOf;
    var t := Step(s, StoreExample(pid));
    var f := s.freezers[pid];
    assert FreezerOk(s, pid);
    var g := Golden(f.phase.version, f.staged[f.phase.stored]);
    forall v
      ensures ExamplesOf(t.golden, v) == ExamplesOf(s.golden, v) + if g.version == v then [g.example] else []
    {
      ExamplesAfterStore(s.golden, g, v);
    }
    assert f.staged[..f.phase.stored + 1] == f.staged[..f.phase.stored] + [g.example];
    forall q | q in t.freezers
      ensures FreezerOk(t, q)
    {
      assert FreezerOk(s, q);
    }
    forall i | 0 <= i < |t.rows|
      ensures RowOk(t, i)
    {
      assert RowOk(s, i);
    }
    forall rid | rid in t.readers
      ensures ReaderOk(t, t.readers[rid])
    {
      var r := s.readers[rid];
      assert ReaderOk(s, r);
      assert r.version != Some(g.version);
      assert r.version.Some? ==> ExamplesOf(t.golden, r.version.value) == ExamplesOf(s.golden, r.version.value);
    }
  }

  lemma MarkKeepsFreezer(s: State, pid: Pid, a: Action, q: Pid)
    requires a == MarkReady(pid) || a == MarkFailed(pid)
    requires Inv(s) && Enabled(s, a) && q in s.freezers
    ensures FreezerOk(Step(s, a), q)
  {
    hide View, InSplit, LatestReady, MaxVersion, ExamplesOf;
    assert FreezerOk(s, pid) && FreezerOk(s, q);
    assert s.freezers[pid].staged[..|s.freezers[pid].staged|] == s.freezers[pid].staged;
  }

  lemma MarkKeepsInv(s: State, pid: Pid, a: Action)
    requires a == MarkReady(pid) || a == MarkFailed(pid)
    requires Inv(s) && Enabled(s, a)
    ensures Inv(Step(s, a))
  {
    hide View, InSplit, LatestReady, MaxVersion, ExamplesOf, FreezerOk;
    var t := Step(s, a);
    var v := s.freezers[pid].phase.version;
    assert FreezerOk(s, pid);
    assert Owns(s, pid, v, Building) by {
      BuildingOf(s, pid);
    }
    forall q | q in t.freezers
      ensures FreezerOk(t, q)
    {
      MarkKeepsFreezer(s, pid, a, q);
    }
    forall i | 0 <= i < |t.rows|
      ensures RowOk(t, i)
    {
      assert RowOk(s, i);
    }
    forall rid | rid in t.readers
      ensures ReaderOk(t, t.readers[rid])
    {
      assert ReaderOk(s, s.readers[rid]);
    }
  }

  lemma BuildingOf(s: State, pid: Pid)
    requires pid in s.freezers && FreezerOk(s, pid)
    requires s.freezers[pid].phase.Filling? || s.freezers[pid].phase.Failing?
    ensures Owns(s, pid, s.freezers[pid].phase.version, Building)
  {
  }

  lemma SetReaderKeepsInv(s: State, rid: nat, reader: Reader)
    requires Inv(s) && ReaderOk(s, reader)
    ensures Inv(s.(readers := s.readers[rid := reader]))
  {
    hide View, InSplit, MaxVersion, ExamplesOf, LatestReady;
    var t := s.(readers := s.readers[rid := reader]);
    forall q | q in t.freezers
      ensures FreezerOk(t, q)
    {
      assert FreezerOk(s, q);
    }
    forall i | 0 <= i < |t.rows|
      ensures RowOk(t, i)
    {
      assert RowOk(s, i);
    }
    forall x | x in t.readers
      ensures ReaderOk(t, t.readers[x])
    {
      assert x != rid ==> ReaderOk(s, s.readers[x]);
    }
  }

  lemma ReaderIsOk(s: State, rid: nat)
    requires Inv(s) && rid in s.readers
    ensures ReaderOk(s, s.readers[rid])
  {
  }

  lemma LatestIsReady(s: State)
    requires Inv(s)
    ensures var v := LatestReady(s.rows);
            v.Some? ==> 1 <= v.value <= |s.rows| && s.rows[v.value - 1].status == Ready
  {
  }

  lemma ReaderKeepsInv(s: State, a: Action)
    requires a.Report? || a.Resolve? || a.Fetch?
    requires Inv(s) && Enabled(s, a)
    ensures Inv(Step(s, a))
  {
    hide View, InSplit, LatestReady, MaxVersion, ExamplesOf, Inv;
    LatestIsReady(s);
    if a.rid in s.readers {
      ReaderIsOk(s, a.rid);
    }
    SetReaderKeepsInv(s, a.rid, Step(s, a).readers[a.rid]);
  }

  /** Every step keeps the invariant. */
  lemma StepKeepsInv(s: State, a: Action)
    requires Inv(s) && Enabled(s, a)
    ensures Inv(Step(s, a))
  {
    match a
    case Begin(pid, staged) => BeginKeepsInv(s, pid, staged);
    case ReadLatest(pid) => ReadKeepsInv(s, pid);
    case Insert(pid) => InsertKeepsInv(s, pid);
    case StoreExample(pid) => StoreKeepsInv(s, pid);
    case RaiseWhileStoring(pid) => MoveKeepsOthers(s, pid, Step(s, a).freezers[pid].phase);
    case MarkReady(pid) => MarkKeepsInv(s, pid, a);
    case MarkFailed(pid) => MarkKeepsInv(s, pid, a);
    case Stop(pid) => MoveKeepsOthers(s, pid, Step(s, a).freezers[pid].phase);
    case Report(_) => ReaderKeepsInv(s, a);
    case Resolve(_) => ReaderKeepsInv(s, a);
    case Fetch(_, _, _) => ReaderKeepsInv(s, a);
  }

  lemma {:induction false} RunKeepsInv(s: State, run: seq<Action>, t: State)
    requires Inv(s) && Reaches(s, run, t)
    ensures Inv(t)
    decreases |run|
  {
    if run != [] {
      StepKeepsInv(s, run[0]);
      RunKeepsInv(Step(s, run[0]), run[1..], t);
    }
  }

  // ---------- what the invariant gives ----------

  /** Under any interleaving the versions present are exactly 1..n, each once, in order of insertion. */
  lemma VersionsAreGapFree(run: seq<Action>, s: State)
    requires Reaches(INIT, run, s)
    ensures forall v :: VersionTaken(s.rows, v) <==> 1 <= v <= |s.rows|
    ensures forall i, j :: 0 <= i < j < |s.rows| ==> s.rows[i].version < s.rows[j].version
  {
    RunKeepsInv(INIT, run, s);
    MaxOfNumbered(s.rows);
  }

  /** A freezer's first candidate counts the rows it saw; it never reuses a candidate; and it gives up only
      if others have inserted at least as many rows since its first read as it made attempts. */
  lemma GivingUpNeedsCompetition(run: seq<Action>, s: State, pid: Pid)
    requires Reaches(INIT, run, s) && pid in s.freezers && s.freezers[pid].phase.GaveUp?
    ensures var tries := s.freezers[pid].phase.tries;
            && |tries| == MAX_VERSION_ALLOCATION_RETRIES && Increasing(tries)
            && 1 <= tries[0] && |s.rows| - (tries[0] - 1) >= MAX_VERSION_ALLOCATION_RETRIES
            && forall i :: tries[0] - 1 <= i < |s.rows| ==> s.rows[i].owner != pid
  {
    RunKeepsInv(INIT, run, s);
    assert FreezerOk(s, pid);
    var tries := s.freezers[pid].phase.tries;
    assert tries[0] < tries[1] < tries[2] < tries[3] < tries[4];
  }

  lemma CandidateCountsRows(run: seq<Action>, s: State, pid: Pid)
    requires Reaches(INIT, run, s) && Enabled(s, ReadLatest(pid))
    ensures var tries := s.freezers[pid].phase.tries;
            && Step(s, ReadLatest(pid)).freezers[pid].phase == Inserting(tries + [|s.rows| + 1])
            && forall i :: 0 <= i < |tries| ==> tries[i] < |s.rows| + 1
  {
    RunKeepsInv(INIT, run, s);
    MaxOfNumbered(s.rows);
    assert FreezerOk(s, pid);
  }

  predicate IsReady(s: State, version: int) {
    exists i :: 0 <= i < |s.rows| && s.rows[i].version == version && s.rows[i].status == Ready
  }

  /** A ready version holds every example staged for it, in order, and nothing else. */
  lemma ReadyIsComplete(run: seq<Action>, s: State, version: int)
    requires Reaches(INIT, run, s) && IsReady(s, version)
    ensures 1 <= version <= |s.rows| && s.rows[version - 1].owner in s.freezers
    ensures ExamplesOf(s.golden, version) == s.freezers[s.rows[version - 1].owner].staged
  {
    RunKeepsInv(INIT, run, s);
    var i :| 0 <= i < |s.rows| && s.rows[i].version == version && s.rows[i].status == Ready;
    assert RowOk(s, i);
    assert FreezerOk(s, s.rows[i].owner);
  }

  lemma BuildingIsNotReady(s: State, pid: Pid)
    requires Inv(s) && pid in s.freezers && (s.freezers[pid].phase.Filling? || s.freezers[pid].phase.Failing?)
    ensures !IsReady(s, s.freezers[pid].phase.version)
  {
    hide FreezerOk;
    assert FreezerOk(s, pid);
    BuildingOf(s, pid);
  }

  lemma StepKeepsReady(s: State, a: Action, version: int)
    requires Inv(s) && Enabled(s, a) && IsReady(s, version)
    ensures IsReady(Step(s, a), version)
    ensures ExamplesOf(Step(s, a).golden, version) == ExamplesOf(s.golden, version)
  {
    hide View, InSplit, MaxVersion, ExamplesOf, LatestReady, Inv;
    var t := Step(s, a);
    var i :| 0 <= i < |s.rows| && s.rows[i].version == version && s.rows[i].status == Ready;
    if a.StoreExample? {
      BuildingIsNotReady(s, a.pid);
      var f := s.freezers[a.pid];
      ExamplesAfterStore(s.golden, Golden(f.phase.version, f.staged[f.phase.stored]), version);
    } else if a.MarkReady? || a.MarkFailed? {
      BuildingIsNotReady(s, a.pid);
    }
    assert t.rows[i].version == version && t.rows[i].status == Ready;
  }

  /** From the moment a version is ready its status and its examples never change. */
  lemma {:induction false} ReadyIsFrozen(s: State, run: seq<Action>, t: State, version: int)
    requires Inv(s) && Reaches(s, run, t) && IsReady(s, version)
    ensures IsReady(t, version) && ExamplesOf(t.golden, version) == ExamplesOf(s.golden, version)
    decreases |run|
  {
    if run != [] {
      StepKeepsInv(s, run[0]);
      StepKeepsReady(s, run[0], version);
      ReadyIsFrozen(Step(s, run[0]), run[1..], t, version);
    }
  }

  /** `docs` are the newest `limit` (all, if that is 0) of those `items` that are in the asked split, newest
      first; `at` says where they stand. */
  predicate NewestOf(items: seq<Staged>, split: Option<Split>, limit: nat, docs: seq<Staged>, at: seq<nat>) {
    && |at| == |docs| && (forall k :: 0 <= k < |at| ==> at[k] < |items| && docs[k] == items[at[k]])
    && (forall j, k :: 0 <= j < k < |at| ==> at[j] > at[k])
    && (split.Some? ==> forall k :: 0 <= k < |docs| ==> docs[k].split == split.value)
    && (limit > 0 ==> |docs| <= limit)
    && (forall i: nat :: i < |items| && i !in at && (split.None? || items[i].split == split.value) ==>
          |docs| == limit && limit > 0 && forall k :: 0 <= k < |at| ==> i < at[k])
  }

  predicate Asked(item: Staged, split: Option<Split>) {
    split.None? || item.split == split.value
  }

  /** `at` lists, downwards, exactly the positions of the asked split. */
  predicate Positions(items: seq<Staged>, split: Option<Split>, at: seq<nat>) {
    && (forall k :: 0 <= k < |at| ==> at[k] < |items| && Asked(items[at[k]], split))
    && (forall j, k :: 0 <= j < k < |at| ==> at[j] > at[k])
    && (forall i: nat :: i < |items| && Asked(items[i], split) ==> i in at)
  }

  lemma OneBefore(items: seq<Staged>, split: Option<Split>, rest: seq<nat>, at: seq<nat>)
    requires items != [] && Positions(items[1..], split, rest)
    requires at == Shifted(rest) + if Asked(items[0], split) then [0] else []
    ensures Positions(items, split, at)
  {
    hide Asked;
    forall i: nat | i < |items| && Asked(items[i], split)
      ensures i in at
    {
      if i == 0 {
        assert at[|rest|] == 0;
      } else {
        assert items[1..][i - 1] == items[i];
        var k :| 0 <= k < |rest| && rest[k] == i - 1;
        assert at[k] == i;
      }
    }
  }

  function Shifted(at: seq<nat>): (r: seq<nat>)
    ensures |r| == |at| && forall k :: 0 <= k < |at| ==> r[k] == at[k] + 1
  {
    seq(|at|, k requires 0 <= k < |at| => at[k] + 1)
  }

  /** The documents are those at these positions. */
  predicate Picks(items: seq<Staged>, docs: seq<Staged>, at: seq<nat>) {
    |at| == |docs| && forall k :: 0 <= k < |at| ==> at[k] < |items| && docs[k] == items[at[k]]
  }

  lemma PicksOneBefore(items: seq<Staged>, docs: seq<Staged>, rest: seq<nat>)
    requires items != [] && Picks(items[1..], docs, rest)
    ensures Picks(items, docs, Shifted(rest)) && Picks(items, docs + [items[0]], Shifted(rest) + [0])
  {
    hide Shifted;
  }

  lemma {:induction false} InSplitAt(items: seq<Staged>, split: Option<Split>) returns (at: seq<nat>)
    ensures Positions(items, split, at) && Picks(items, InSplit(items, split), at)
  {
    if items == [] {
      at := [];
    } else {
      hide Positions, Picks, Shifted;
      var rest := InSplitAt(items[1..], split);
      at := Shifted(rest) + if Asked(items[0], split) then [0] else [];
      OneBefore(items, split, rest, at);
      PicksOneBefore(items, InSplit(items[1..], split), rest);
      assert Shifted(rest) + [] == Shifted(rest) && InSplit(items[1..], split) + [] == InSplit(items[1..], split);
    }
  }

  /** What is not among the first `n` positions stands below all of them. */
  lemma BelowTheFirst(all: seq<nat>, n: nat, i: nat)
    requires n <= |all| && (forall j, k :: 0 <= j < k < |all| ==> all[j] > all[k])
    requires i in all && i !in all[..n]
    ensures n < |all| && forall k :: 0 <= k < n ==> i < all[k]
  {
    var k :| 0 <= k < |all| && all[k] == i;
    assert forall j :: 0 <= j < n ==> all[..n][j] == all[j];
    assert k >= n;
  }

  lemma ViewIsNewest(items: seq<Staged>, split: Option<Split>, limit: nat) returns (at: seq<nat>)
    ensures NewestOf(items, split, limit, View(items, split, limit), at)
  {
    hide InSplit, Positions, Picks, NewestOf;
    var found := InSplit(items, split);
    var all := InSplitAt(items, split);
    PicksAsMany(items, found, all);
    var n := if limit == 0 || |all| <= limit then |all| else limit;
    at := all[..n];
    assert all[..|all|] == all && found[..|found|] == found;
    FirstAreNewest(items, split, limit, found, all, n);
  }

  lemma PicksAsMany(items: seq<Staged>, docs: seq<Staged>, at: seq<nat>)
    requires Picks(items, docs, at)
    ensures |at| == |docs|
  {
  }

  lemma FirstAreNewest(items: seq<Staged>, split: Option<Split>, limit: nat, docs: seq<Staged>, all: seq<nat>, n: nat)
    requires Positions(items, split, all) && Picks(items, docs, all)
    requires n == if limit == 0 || |all| <= limit then |all| else limit
    ensures NewestOf(items, split, limit, docs[..n], all[..n])
  {
    forall i: nat | i < |items| && i !in all[..n] && (split.None? || items[i].split == split.value)
      ensures n == limit && limit > 0 && forall k :: 0 <= k < n ==> i < all[k]
    {
      AskedIsListed(items, split, all, i);
      BelowTheFirst(all, n, i);
    }
  }

  lemma AskedIsListed(items: seq<Staged>, split: Option<Split>, all: seq<nat>, i: nat)
    requires Positions(items, split, all) && i < |items| && (split.None? || items[i].split == split.value)
    ensures i in all
  {
    assert Asked(items[i], split);
  }

  /** A reader that gave no version gets the newest examples of the asked split out of a ready version's
      complete example set, however the freezers moved between its two queries; it gets nothing at all only
      when no version was ready. */
  lemma DefaultReadsAreComplete(run: seq<Action>, s: State, rid: nat) returns (at: seq<nat>)
    requires Reaches(INIT, run, s) && rid in s.readers && s.readers[rid].Answered?
    ensures var r := s.readers[rid];
            if r.version.None? then r.docs == []
            else
              && IsReady(s, r.version.value) && 1 <= r.version.value <= |s.rows|
              && s.rows[r.version.value - 1].owner in s.freezers
              && NewestOf(s.freezers[s.rows[r.version.value - 1].owner].staged, r.split, r.limit, r.docs, at)
  {
    hide View, InSplit, LatestReady, MaxVersion, ExamplesOf, NewestOf;
    RunKeepsInv(INIT, run, s);
    var r := s.readers[rid];
    assert ReaderOk(s, r);
    at := [];
    if r.version.Some? {
      assert IsReady(s, r.version.value) by {
        assert s.rows[r.version.value - 1].version == r.version.value;
      }
      ReadyIsComplete(run, s, r.version.value);
      at := ViewIsNewest(s.freezers[s.rows[r.version.value - 1].owner].staged, r.split, r.limit);
    }
  }

  /** The answer is to what was asked: the version the reader had resolved, with the split and the limit of
      the request. */
  lemma FetchAnswersRequest(run: seq<Action>, s: State, rid: nat, split: Option<Split>, limit: nat)
    returns (at: seq<nat>)
    requires Reaches(INIT, run, s) && Enabled(s, Fetch(rid, split, limit)) && s.readers[rid].version.Some?
    ensures var v := s.readers[rid].version.value;
            var r := Step(s, Fetch(rid, split, limit)).readers[rid];
            && IsReady(s, v) && 1 <= v <= |s.rows| && s.rows[v - 1].owner in s.freezers
            && r.Answered? && r.version == Some(v) && r.reported == s.readers[rid].reported
            && NewestOf(s.freezers[s.rows[v - 1].owner].staged, split, limit, r.docs, at)
  {
    hide View, InSplit, LatestReady, MaxVersion, ExamplesOf, NewestOf;
    var a := Fetch(rid, split, limit);
    ReachesThen(INIT, run, s, a);
    at := DefaultReadsAreComplete(run + [a], Step(s, a), rid);
  }

  /** A reader that reports nothing resolves to the newest ready version, and to none only if there is none;
      so does the reporting itself. */
  lemma ResolvesToNewest(s: State, rid: nat)
    requires Inv(s)
    ensures var r := Step(s, Report(rid)).readers[rid];
            r.Reporting? && NewestReady(s, r.version)
    ensures rid !in s.readers || !s.readers[rid].Reporting? ==>
      var r := Step(s, Resolve(rid)).readers[rid];
      r.Resolved? && r.reported.None? && NewestReady(s, r.version)
  {
    var latest := LatestReady(s.rows);
    if latest.Some? {
      assert IsReady(s, latest.value);
    }
  }

  ghost predicate NewestReady(s: State, version: Option<int>) {
    && (version.None? <==> forall v :: !IsReady(s, v))
    && (version.Some? ==> IsReady(s, version.value) && forall v :: IsReady(s, v) ==> v <= version.value)
  }

  /** A freezer that returned has made a ready version of exactly its examples. */
  lemma DoneIsComplete(run: seq<Action>, s: State, pid: Pid)
    requires Reaches(INIT, run, s) && pid in s.freezers && s.freezers[pid].phase.Done?
    ensures var v := s.freezers[pid].phase.version;
            IsReady(s, v) && ExamplesOf(s.golden, v) == s.freezers[pid].staged
  {
    RunKeepsInv(INIT, run, s);
    assert FreezerOk(s, pid);
    assert s.rows[s.freezers[pid].phase.version - 1].status == Ready;
  }

  /** The version of a freezer that has raised or stopped. */
  predicate Abandoned(s: State, pid: Pid, version: int) {
    && 1 <= version <= |s.rows| && s.rows[version - 1].status != Ready
    && pid in s.freezers && s.rows[version - 1].owner == pid
    && (s.freezers[pid].phase == Stopped || s.freezers[pid].phase == Failing(version))
  }

  lemma StepKeepsAbandoned(s: State, a: Action, pid: Pid, version: int)
    requires Inv(s) && Enabled(s, a) && Abandoned(s, pid, version)
    ensures Abandoned(Step(s, a), pid, version)
  {
    hide View, InSplit, MaxVersion, ExamplesOf, LatestReady, Inv;
    if a.MarkReady? || a.MarkFailed? {
      assert FreezerOk(s, a.pid) by {
        FreezerIsOk(s, a.pid);
      }
      BuildingOf(s, a.pid);
      var v := s.freezers[a.pid].phase.version;
      assert s.rows[v - 1].version == v && s.rows[version - 1].version == version by {
        RowsNumbered(s);
      }
      assert a.pid == pid || v != version;
    }
  }

  lemma FreezerIsOk(s: State, pid: Pid)
    requires Inv(s) && pid in s.freezers
    ensures FreezerOk(s, pid)
  {
  }

  lemma {:induction false} AbandonedForGood(s: State, run: seq<Action>, t: State, pid: Pid, version: int)
    requires Inv(s) && Abandoned(s, pid, version) && Reaches(s, run, t)
    ensures Inv(t) && Abandoned(t, pid, version)
    decreases |run|
  {
    if run != [] {
      StepKeepsInv(s, run[0]);
      StepKeepsAbandoned(s, run[0], pid, version);
      AbandonedForGood(Step(s, run[0]), run[1..], t, pid, version);
    }
  }

  /** All or nothing: from the moment a freezer raises, or its process stops, while it stores examples, no run
      makes its version ready, so no default read ever sees a part of it. */
  lemma RaisedIsNeverReady(s: State, a: Action, run: seq<Action>, t: State)
    requires a.RaiseWhileStoring? || a.Stop?
    requires Inv(s) && Enabled(s, a) && s.freezers[a.pid].phase.Filling? && Reaches(Step(s, a), run, t)
    ensures !IsReady(t, s.freezers[a.pid].phase.version)
  {
    hide View, InSplit, MaxVersion, ExamplesOf, LatestReady, Inv;
    var v := s.freezers[a.pid].phase.version;
    FreezerIsOk(s, a.pid);
    StepKeepsInv(s, a);
    assert Abandoned(Step(s, a), a.pid, v);
    AbandonedForGood(Step(s, a), run, t, a.pid, v);
    assert Numbered(t.rows) by {
      RowsNumbered(t);
    }
  }

  lemma RowsNumbered(s: State)
    requires Inv(s)
    ensures Numbered(s.rows)
  {
  }

  /** The except branch marks exactly the freezer's own row as failed. */
  lemma FailureIsMarked(s: State, pid: Pid)
    requires Inv(s) && Enabled(s, MarkFailed(pid))
    ensures var v := s.freezers[pid].phase.version;
            && 1 <= v <= |s.rows| && s.rows[v - 1].owner == pid
            && Step(s, MarkFailed(pid)).rows == s.rows[v - 1 := Manifest(v, Failed, pid)]
            && Step(s, MarkFailed(pid)).golden == s.golden
  {
    assert FreezerOk(s, pid);
  }

  /** Successive default reads resolve to non-decreasing versions. */
  lemma DefaultReadsAreMonotone(s: State, run: seq<Action>, t: State)
    requires Inv(s) && Reaches(s, run, t)
    ensures LatestReady(s.rows).Some? ==>
      LatestReady(t.rows).Some? && LatestReady(s.rows).value <= LatestReady(t.rows).value
  {
    var v := LatestReady(s.rows);
    if v.Some? {
      assert IsReady(s, v.value);
      ReadyIsFrozen(s, run, t, v.value);
    }
  }

  /** When get_golden_set resolves for an export or evaluation, it uses the version to be reported exactly if
      there is one, or if no version is ready at that moment either. */
  lemma ReportedIsUsedIff(s: State, rid: nat)
    requires Inv(s) && rid in s.readers && s.readers[rid].Reporting?
    ensures var reported := s.readers[rid].version;
            Step(s, Resolve(rid)).readers[rid].version == reported <==> reported.Some? || forall v :: !IsReady(s, v)
  {
    var latest := LatestReady(s.rows);
    if latest.Some? {
      assert IsReady(s, latest.value);
    }
  }

  /** A reported version is the one evaluated, on the newest examples of the asked split out of all its freezer
      staged. */
  lemma ReportedIsEvaluated(run: seq<Action>, s: State, rid: nat) returns (at: seq<nat>)
    requires Reaches(INIT, run, s) && rid in s.readers && s.readers[rid].Answered?
    requires s.readers[rid].reported.Some? && s.readers[rid].reported.value.Some?
    ensures var r := s.readers[rid];
            var v := r.reported.value.value;
            && r.version == Some(v) && IsReady(s, v) && 1 <= v <= |s.rows| && s.rows[v - 1].owner in s.freezers
            && NewestOf(s.freezers[s.rows[v - 1].owner].staged, r.split, r.limit, r.docs, at)
  {
    hide View, InSplit, LatestReady, MaxVersion, ExamplesOf, NewestOf;
    RunKeepsInv(INIT, run, s);
    ReaderIsOk(s, rid);
    at := DefaultReadsAreComplete(run, s, rid);
  }

  lemma {:induction false} ReachesThen(s: State, run: seq<Action>, t: State, a: Action)
    requires Reaches(s, run, t) && Enabled(t, a)
    ensures Reaches(s, run + [a], Step(t, a))
    decreases |run|
  {
    hide Step, Enabled;
    if run == [] {
      assert [] + [a] == [a] && [a][1..] == [];
    } else {
      assert (run + [a])[0] == run[0] && (run + [a])[1..] == run[1..] + [a];
      ReachesThen(Step(s, run[0]), run[1..], t, a);
    }
  }

  /** A run in which it is not: an evaluation finds no ready version and will report none; a first version
      becomes ready; get_golden_set resolves again and hands out its examples. */
  lemma LateVersionIsMisreported(x: Staged) returns (run: seq<Action>, s: State)
    ensures Reaches(INIT, run, s) && 0 in s.readers
    ensures s.readers[0] == Answered(Some(None), Some(1), None, 0, [x])
  {
    run, s := Then([], INIT, Report(0));
    run, s := FirstVersion(run, s, x);
    hide MaxVersion, View, ExamplesOf;
    run, s := Then(run, s, Resolve(0));
    OneExample(x);
    run, s := Then(run, s, Fetch(0, None, 0));
  }

  /** A freezer on empty collections makes version 1. */
  lemma FirstVersion(run: seq<Action>, s: State, x: Staged) returns (run': seq<Action>, t: State)
    requires Reaches(INIT, run, s) && s.rows == [] && s.golden == [] && s.freezers == map[]
    ensures Reaches(INIT, run', t) && t.readers == s.readers
    ensures t.rows == [Manifest(1, Ready, 1)] && t.golden == [Golden(1, x)]
  {
    hide Reaches, View, ExamplesOf, LatestReady;
    run', t := Then(run, s, Begin(1, [x]));
    run', t := Then(run', t, ReadLatest(1));
    run', t := Then(run', t, Insert(1));
    hide MaxVersion;
    run', t := Then(run', t, StoreExample(1));
    run', t := Then(run', t, MarkReady(1));
  }

  lemma Then(run: seq<Action>, s: State, a: Action) returns (run': seq<Action>, t: State)
    requires Reaches(INIT, run, s) && Enabled(s, a)
    ensures Reaches(INIT, run', t) && t == Step(s, a)
  {
    run', t := run + [a], Step(s, a);
    ReachesThen(INIT, run, s, a);
  }

  lemma OneExample(x: Staged)
    ensures View(ExamplesOf([Golden(1, x)], 1), None, 0) == [x]
  {
    var g := [Golden(1, x)];
    var items := [x];
    assert g[..0] == [] && items[1..] == [];
    assert ExamplesOf(g, 1) == items;
    assert InSplit(items, None) == items;
  }

  /** The invariant holds at the start, so the lemmas about runs from any `Inv` state cover every history. */
  lemma InitHolds()
    ensures Inv(INIT)
  {
  }
}
