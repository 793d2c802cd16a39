/** The version history behind one file id (`upload_file`, `upload_new_version`, `restore_version`,
    `_commit_version`): any number of writers, each loading the file row, staging a version and committing,
    interleaved in any order, while users delete the file or its whole space, change their storage settings,
    and a database that uses row ids again gives the id of a file that is gone to a new one. Document
    conversion may replace the uploaded bytes by any others. */
module FileHistory {
  import opened Options
  import opened Bytes
  import opened MediaStorage
  import Workspace

  type Wid = nat

  /** A row of file_versions. */
  datatype VersionRow = VersionRow(no: int, ref: Ref, size: nat, uploader: UserId)

  datatype FileEvent = VersionAdded(no: int) | Restored(fromVersion: int, no: int) | Other

  /** A request: which file it loaded, what of its row, and what it is about to commit. */
  datatype Writer =
    | Uploading(life: nat, user: UserId, seenNo: int, seenSize: nat)
    | Restoring(life: nat, user: UserId, seenNo: int, seenSize: nat)
    | Staged(life: nat, row: VersionRow, event: FileEvent, seenNo: int, seenSize: nat)
    | Committed(no: int)
    | Conflict
    | NotFound
    | TooLarge
    | ServerError

  /** `life` counts the files that had this id before. `dropped` says that the file went with its space, and
      its versions and events with it. */
  datatype State = State(
    life: nat,
    dropped: bool,
    versions: seq<VersionRow>,
    currentNo: int,
    byteSize: nat,
    deleted: bool,
    events: seq<FileEvent>,
    settings: Settings,
    blobs: map<Ref, Blob>,
    writers: map<Wid, Writer>)

  datatype Action =
    | BeginUpload(w: Wid, user: UserId)
    | BeginRestore(w: Wid, user: UserId)
    | SaveBlob(w: Wid, rawSize: nat, ref: Ref, bytes: seq<byte>)
    | PickSource(w: Wid, no: int)
    | Commit(w: Wid)
    | Delete
    | DropSpace
    | ReuseId(user: UserId, ref: Ref, bytes: seq<byte>)
    | SwitchBackend(user: UserId, backend: Backend)
    | LogOther

  /** What upload_file commits: the file row, version 1 and its two events, in one transaction. */
  function NewFile(life: nat, user: UserId, settings: Settings, ref: Ref, bytes: seq<byte>, blobs: map<Ref, Blob>,
                   writers: map<Wid, Writer>): State {
    State(life, false, [VersionRow(1, ref, |bytes|, user)], 1, |bytes|, false, [Other, VersionAdded(1)],
          settings, blobs[ref := Blob(user, BackendOf(settings, user), bytes)], writers)
  }

  function Created(user: UserId, settings: Settings, ref: Ref, bytes: seq<byte>): State {
    NewFile(0, user, settings, ref, bytes, map[], map[])
  }

  /** The unique constraint on (file_id, version_no). */
  predicate NoTaken(versions: seq<VersionRow>, no: int) {
    exists i :: 0 <= i < |versions| && versions[i].no == no
  }

  function FindVersion(versions: seq<VersionRow>, no: int): (r: Option<VersionRow>)
    ensures r.Some? ==> r.value in versions && r.value.no == no
    ensures r.None? ==> !NoTaken(versions, no)
  {
    if versions == [] then None
    else
      var last := versions[|versions| - 1];
      if last.no == no then Some(last) else FindVersion(versions[..|versions| - 1], no)
  }

  // ---------- the steps ----------

  predicate Enabled(s: State, a: Action) {
    match a
    case BeginUpload(w, _) => w !in s.writers
    case BeginRestore(w, _) => w !in s.writers
    case SaveBlob(w, _, ref, _) => w in s.writers && s.writers[w].Uploading? && ref !in s.blobs
    case PickSource(w, _) => w in s.writers && s.writers[w].Restoring?
    case Commit(w) => w in s.writers && s.writers[w].Staged?
    case Delete => !s.deleted && !s.dropped
    case DropSpace => !s.dropped
    case ReuseId(_, ref, _) => s.dropped && ref !in s.blobs
    case SwitchBackend(_, _) => true
    case LogOther => !s.dropped
  }

  function Put(s: State, w: Wid, writer: Writer): State {
    s.(writers := s.writers[w := writer])
  }

  /** The transaction of _commit_version. The ORM writes the columns that differ from what was loaded. A
      duplicate version number rolls everything back, and so does a file that is gone: the event and the
      version are inserted before the row is updated, and both refer to it. */
  function CommitStep(s: State, w: Wid): State
    requires Enabled(s, Commit(w))
  {
    var p := s.writers[w];
    if s.dropped || NoTaken(s.versions, p.row.no) then Put(s, w, Conflict)
    else
      s.(versions := s.versions + [p.row],
         currentNo := if p.row.no != p.seenNo then p.row.no else s.currentNo,
         byteSize := if p.row.size != p.seenSize then p.row.size else s.byteSize,
         events := s.events + [p.event],
         writers := s.writers[w := Committed(p.row.no)])
  }

  function Step(s: State, a: Action): State
    requires Enabled(s, a)
  {
    match a
    case BeginUpload(w, user) =>
      Put(s, w, if s.dropped || s.deleted then NotFound else Uploading(s.life, user, s.currentNo, s.byteSize))
    case BeginRestore(w, user) =>
      Put(s, w, if s.dropped || s.deleted then NotFound else Restoring(s.life, user, s.currentNo, s.byteSize))
    case SaveBlob(w, rawSize, ref, bytes) =>
      var p := s.writers[w];
      var backend := BackendOf(s.settings, p.user);
      if rawSize > Workspace.MAX_FILE_SIZE then Put(s, w, TooLarge)
      else if !Accepts(backend, |bytes|) then Put(s, w, ServerError)
      else
        Put(s.(blobs := s.blobs[ref := Blob(p.user, backend, bytes)]), w,
            Staged(p.life, VersionRow(p.seenNo + 1, ref, |bytes|, p.user), VersionAdded(p.seenNo + 1),
                   p.seenNo, p.seenSize))
    case PickSource(w, no) =>
      var p := s.writers[w];
      var source := FindVersion(s.versions, no);
      if source.None? then Put(s, w, NotFound)
      else
        Put(s, w, Staged(p.life, source.value.(no := p.seenNo + 1), Restored(source.value.no, p.seenNo + 1),
                         p.seenNo, p.seenSize))
    case Commit(w) => CommitStep(s, w)
    case Delete => s.(deleted := true, events := s.events + [Other])
    case DropSpace => s.(dropped := true, versions := [], currentNo := 0, byteSize := 0, deleted := false, events := [])
    case ReuseId(user, ref, bytes) => NewFile(s.life + 1, user, s.settings, ref, bytes, s.blobs, s.writers)
    case SwitchBackend(user, backend) =>
      s.(settings := s.settings.(chosen := s.settings.chosen[user := backend]))
    case LogOther => s.(events := s.events + [Other])
  }

  predicate Reaches(s: State, run: seq<Action>, t: State)
    decreases |run|
  {
    if run == [] then s == t
    else Enabled(s, run[0]) && Reaches(Step(s, run[0]), run[1..], t)
  }

  // ---------- the invariant ----------

  predicate Numbered(versions: seq<VersionRow>) {
    forall i :: 0 <= i < |versions| ==> versions[i].no == i + 1
  }

  /** The version_added and restored events, in order. */
  function Ledger(events: seq<FileEvent>): seq<FileEvent> {
    if events == [] then []
    else
      var last := events[|events| - 1];
      Ledger(events[..|events| - 1]) + if last.Other? then [] else [last]
  }

  /** Same content and same reader of the content. */
  predicate SameContent(a: VersionRow, b: VersionRow) {
    a.ref == b.ref && a.size == b.size && a.uploader == b.uploader
  }

  /** An event that tells the truth about version row `row`. */
  predicate Explains(e: FileEvent, row: VersionRow, versions: seq<VersionRow>) {
    match e
    case VersionAdded(no) => no == row.no
    case Restored(source, no) =>
      no == row.no && 1 <= source < no && source <= |versions| && SameContent(row, versions[source - 1])
    case Other => false
  }

  predicate Backed(row: VersionRow, blobs: map<Ref, Blob>) {
    row.ref in blobs && blobs[row.ref].owner == row.uploader && |blobs[row.ref].bytes| == row.size
  }

  /** The file a writer loaded is the one that has the id now. */
  predicate Current(s: State, life: nat) {
    life == s.life && !s.dropped
  }

  predicate Seen(s: State, life: nat, seenNo: int, seenSize: nat) {
    && life <= s.life && seenNo >= 1
    && (Current(s, life) ==> seenNo <= |s.versions| && seenSize == s.versions[seenNo - 1].size)
  }

  predicate WriterOk(s: State, p: Writer) {
    match p
    case Uploading(life, _, no, size) => Seen(s, life, no, size)
    case Restoring(life, _, no, size) => Seen(s, life, no, size)
    case Staged(life, row, event, no, size) =>
      && Seen(s, life, no, size) && row.no == no + 1 && Backed(row, s.blobs)
      && !event.Other? && event.no == row.no
      && (event.Restored? && Current(s, life) ==> 1 <= event.fromVersion <= |s.versions|
                                                  && SameContent(row, s.versions[event.fromVersion - 1]))
    case _ => true
  }

  predicate Inv(s: State) {
    && Numbered(s.versions) && s.currentNo == |s.versions|
    && (if s.dropped then s.versions == [] && s.events == []
        else s.versions != [] && s.byteSize == s.versions[|s.versions| - 1].size)
    && (forall i :: 0 <= i < |s.versions| ==> Backed(s.versions[i], s.blobs))
    && |Ledger(s.events)| == |s.versions|
    && (forall i :: 0 <= i < |s.versions| ==> Explains(Ledger(s.events)[i], s.versions[i], s.versions))
    && (forall w :: w in s.writers ==> WriterOk(s, s.writers[w]))
  }

  /** A commit that lands on another file than the one its writer loaded. It takes a database that uses ids
      again, and a writer still at work when the space of its file was deleted. */
  predicate Stray(s: State, a: Action)
    requires Enabled(s, a)
  {
    a.Commit? && !s.dropped && s.writers[a.w].life != s.life && !NoTaken(s.versions, s.writers[a.w].row.no)
  }

  /** A run without such a commit. */
  predicate Undisturbed(s: State, run: seq<Action>)
    decreases |run|
  {
    run == [] || (Enabled(s, run[0]) && !Stray(s, run[0]) && Undisturbed(Step(s, run[0]), run[1..]))
  }

  lemma TakenUpToCurrent(versions: seq<VersionRow>, no: int)
    requires Numbered(versions)
    ensures NoTaken(versions, no) <==> 1 <= no <= |versions|
  {
    if 1 <= no <= |versions| {
      assert versions[no - 1].no == no;
    }
  }

  /** A commit is rejected exactly when the file is gone or a later version than the one its writer loaded
      exists; for a writer of the present file: exactly when another version was committed since it loaded
      the file. So nobody's update is lost, and nobody is refused without a reason. */
  lemma ConflictIffModified(s: State, w: Wid)
    requires Inv(s) && Enabled(s, Commit(w))
    ensures var p := s.writers[w];
            && (Step(s, Commit(w)).writers[w] == Conflict <==> s.dropped || p.seenNo < s.currentNo)
            && (Current(s, p.life) ==> p.seenNo <= s.currentNo)
  {
    assert WriterOk(s, s.writers[w]);
    TakenUpToCurrent(s.versions, s.writers[w].row.no);
  }

  /** A losing writer changes nothing but its own answer. */
  lemma LoserChangesNothing(s: State, w: Wid)
    requires Inv(s) && Enabled(s, Commit(w)) && (s.dropped || s.writers[w].seenNo < s.currentNo)
    ensures Step(s, Commit(w)) == s.(writers := s.writers[w := Conflict])
  {
    ConflictIffModified(s, w);
  }

  /** A winner's version becomes current, even though the row update was computed from what it loaded. */
  lemma WinnerBecomesCurrent(s: State, w: Wid)
    requires Inv(s) && Enabled(s, Commit(w)) && Current(s, s.writers[w].life) && s.currentNo == s.writers[w].seenNo
    ensures var t := Step(s, Commit(w));
            var p := s.writers[w];
            && t.versions == s.versions + [p.row] && t.currentNo == p.row.no == s.currentNo + 1
            && t.byteSize == p.row.size && t.events == s.events + [p.event]
            && t.writers == s.writers[w := Committed(p.row.no)]
  {
    assert WriterOk(s, s.writers[w]);
    TakenUpToCurrent(s.versions, s.writers[w].row.no);
  }

  /** What a commit that goes through adds is what the invariant wants next. */
  predicate AddsNext(s: State, p: Writer)
    requires p.Staged?
  {
    && p.row.no == s.currentNo + 1
    && (p.row.size != p.seenSize || p.row.size == s.byteSize)
    && Explains(p.event, p.row, s.versions + [p.row])
  }

  /** A commit that goes through keeps the invariant exactly when it adds the next version, leaves its size
      in the file row and logs it truthfully. */
  lemma CommitKeepsInvIff(s: State, w: Wid)
    requires Inv(s) && Enabled(s, Commit(w)) && !s.dropped && !NoTaken(s.versions, s.writers[w].row.no)
    ensures Inv(Step(s, Commit(w))) <==> AddsNext(s, s.writers[w])
  {
    hide Ledger;
    var t := Step(s, Commit(w));
    var p := s.writers[w];
    assert WriterOk(s, p);
    LedgerGrows(s.events, p.event);
    if Inv(t) {
      var last := |s.versions|;
      assert t.versions[last] == p.row && Explains(Ledger(t.events)[last], p.row, t.versions);
    }
    if AddsNext(s, p) {
      forall i | 0 <= i < |t.versions|
        ensures Explains(Ledger(t.events)[i], t.versions[i], t.versions)
      {
        assert i < |s.versions| ==> Explains(Ledger(s.events)[i], s.versions[i], s.versions);
      }
      forall x | x in t.writers
        ensures WriterOk(t, t.writers[x])
      {
        assert WriterOk(s, s.writers[x]);
      }
    }
  }

  /** A commit on the file its writer loaded adds what is wanted. */
  lemma OwnCommitAddsNext(s: State, w: Wid)
    requires Inv(s) && Enabled(s, Commit(w)) && Current(s, s.writers[w].life)
    requires !NoTaken(s.versions, s.writers[w].row.no)
    ensures AddsNext(s, s.writers[w])
  {
    assert WriterOk(s, s.writers[w]);
    TakenUpToCurrent(s.versions, s.writers[w].row.no);
  }

  lemma CommitKeepsInv(s: State, w: Wid)
    requires Inv(s) && Enabled(s, Commit(w)) && !Stray(s, Commit(w))
    ensures Inv(Step(s, Commit(w)))
  {
    if s.dropped || NoTaken(s.versions, s.writers[w].row.no) {
      PutKeepsInv(s, w, Conflict);
    } else {
      OwnCommitAddsNext(s, w);
      CommitKeepsInvIff(s, w);
    }
  }

  lemma LedgerGrows(events: seq<FileEvent>, e: FileEvent)
    ensures Ledger(events + [e]) == Ledger(events) + if e.Other? then [] else [e]
  {
  }

  /** Giving one writer a sound phase disturbs nothing else. */
  lemma PutKeepsInv(s: State, w: Wid, p: Writer)
    requires Inv(s) && WriterOk(s, p)
    ensures Inv(Put(s, w, p))
  {
    hide Ledger, Explains;
    var t := Put(s, w, p);
    forall x | x in t.writers
      ensures WriterOk(t, t.writers[x])
    {
      assert x != w ==> WriterOk(s, s.writers[x]);
    }
  }

  lemma StoreKeepsInv(s: State, ref: Ref, blob: Blob)
    requires Inv(s) && ref !in s.blobs
    ensures Inv(s.(blobs := s.blobs[ref := blob]))
  {
  }

  lemma SaveKeepsInv(s: State, w: Wid, rawSize: nat, ref: Ref, bytes: seq<byte>)
    requires Inv(s) && Enabled(s, SaveBlob(w, rawSize, ref, bytes))
    ensures Inv(Step(s, SaveBlob(w, rawSize, ref, bytes)))
  {
    hide Ledger, Explains, Inv;
    var p := s.writers[w];
    assert WriterOk(s, p) by {
      WriterIsOk(s, w);
    }
    var backend := BackendOf(s.settings, p.user);
    if rawSize > Workspace.MAX_FILE_SIZE {
      PutKeepsInv(s, w, TooLarge);
    } else if !Accepts(backend, |bytes|) {
      PutKeepsInv(s, w, ServerError);
    } else {
      StoreKeepsInv(s, ref, Blob(p.user, backend, bytes));
      PutKeepsInv(s.(blobs := s.blobs[ref := Blob(p.user, backend, bytes)]), w,
                          Step(s, SaveBlob(w, rawSize, ref, bytes)).writers[w]);
    }
  }

  lemma PickKeepsInv(s: State, w: Wid, no: int)
    requires Inv(s) && Enabled(s, PickSource(w, no))
    ensures Inv(Step(s, PickSource(w, no)))
  {
    hide Ledger, Explains;
    WriterIsOk(s, w);
    PutKeepsInv(s, w, Step(s, PickSource(w, no)).writers[w]);
  }

  lemma WriterIsOk(s: State, w: Wid)
    requires Inv(s) && w in s.writers
    ensures WriterOk(s, s.writers[w])
  {
  }

  /** The cascade takes versions and events; what writers staged stays backed. */
  lemma DropKeepsInv(s: State)
    requires Inv(s) && Enabled(s, DropSpace)
    ensures Inv(Step(s, DropSpace))
  {
    var t := Step(s, DropSpace);
    forall x | x in t.writers
      ensures WriterOk(t, t.writers[x])
    {
      assert WriterOk(s, s.writers[x]);
    }
  }

  lemma ReuseKeepsInv(s: State, user: UserId, ref: Ref, bytes: seq<byte>)
    requires Inv(s) && Enabled(s, ReuseId(user, ref, bytes))
    ensures Inv(Step(s, ReuseId(user, ref, bytes)))
  {
    var t := Step(s, ReuseId(user, ref, bytes));
    assert Ledger(t.events) == [VersionAdded(1)] by {
      LedgerGrows([Other], VersionAdded(1));
      LedgerGrows([], Other);
    }
    forall x | x in t.writers
      ensures WriterOk(t, t.writers[x])
    {
      assert WriterOk(s, s.writers[x]);
    }
  }

  /** Every step keeps the invariant, but for a stray commit. */
  lemma StepKeepsInv(s: State, a: Action)
    requires Inv(s) && Enabled(s, a) && !Stray(s, a)
    ensures Inv(Step(s, a))
  {
    hide Ledger;
    match a
    case Commit(w) => CommitKeepsInv(s, w);
    case SaveBlob(w, rawSize, ref, bytes) => SaveKeepsInv(s, w, rawSize, ref, bytes);
    case PickSource(w, no) => PickKeepsInv(s, w, no);
    case DropSpace => DropKeepsInv(s);
    case ReuseId(user, ref, bytes) => ReuseKeepsInv(s, user, ref, bytes);
    case BeginUpload(w, _) => PutKeepsInv(s, w, Step(s, a).writers[w]);
    case BeginRestore(w, _) => PutKeepsInv(s, w, Step(s, a).writers[w]);
    case _ => OtherKeepsInv(s, a);
  }

  lemma OtherKeepsInv(s: State, a: Action)
    requires Inv(s) && Enabled(s, a) && (a.Delete? || a.SwitchBackend? || a.LogOther?)
    ensures Inv(Step(s, a))
  {
    hide Ledger, Explains;
    var t := Step(s, a);
    LedgerGrows(s.events, Other);
    forall x | x in t.writers
      ensures WriterOk(t, t.writers[x])
    {
      assert WriterOk(s, s.writers[x]);
    }
  }

  lemma {:induction false} RunKeepsInv(s: State, run: seq<Action>, t: State)
    requires Inv(s) && Reaches(s, run, t) && Undisturbed(s, run)
    ensures Inv(t)
    decreases |run|
  {
    if run != [] {
      StepKeepsInv(s, run[0]);
      RunKeepsInv(Step(s, run[0]), run[1..], t);
    }
  }

  lemma CreatedHolds(user: UserId, settings: Settings, ref: Ref, bytes: seq<byte>)
    ensures Inv(Created(user, settings, ref, bytes))
  {
  }

  /** Every writer at work loaded the file that has the id now, or had it last. */
  predicate OneLife(s: State) {
    forall w :: w in s.writers ==>
      var p := s.writers[w];
      p.Uploading? || p.Restoring? || p.Staged? ==> p.life == s.life
  }

  lemma StepKeepsOneLife(s: State, a: Action)
    requires OneLife(s) && Enabled(s, a) && !a.ReuseId?
    ensures OneLife(Step(s, a)) && !Stray(s, a)
  {
  }

  /** On a database that never uses an id again no run has a stray commit. */
  lemma {:induction false} UndisturbedWithoutReuse(s: State, run: seq<Action>, t: State)
    requires Reaches(s, run, t) && OneLife(s) && forall a :: a in run ==> !a.ReuseId?
    ensures Undisturbed(s, run)
    decreases |run|
  {
    if run != [] {
      hide Step, OneLife, Stray;
      assert run[0] in run;
      assert forall a :: a in run[1..] ==> a in run;
      StepKeepsOneLife(s, run[0]);
      UndisturbedWithoutReuse(Step(s, run[0]), run[1..], t);
    }
  }

  // ---------- what every history satisfies ----------

  /** For any interleaving without a stray commit: as long as the file exists, committed numbers are exactly
      1..current, the file's size is that of its current version, and the ledger has one event per version
      row, the k-th for version k; once its space is deleted there are neither versions nor events. */
  lemma HistoryIsConsistent(user: UserId, settings: Settings, ref: Ref, bytes: seq<byte>, run: seq<Action>, s: State)
    requires Reaches(Created(user, settings, ref, bytes), run, s)
    requires Undisturbed(Created(user, settings, ref, bytes), run)
    ensures forall no :: NoTaken(s.versions, no) <==> 1 <= no <= s.currentNo
    ensures !s.dropped ==> s.currentNo == |s.versions| >= 1 && s.byteSize == s.versions[s.currentNo - 1].size
    ensures s.dropped ==> s.versions == [] && s.events == []
    ensures |Ledger(s.events)| == |s.versions|
    ensures forall k :: 0 <= k < |s.versions| ==>
      !Ledger(s.events)[k].Other? && Ledger(s.events)[k].no == s.versions[k].no == k + 1
  {
    CreatedHolds(user, settings, ref, bytes);
    RunKeepsInv(Created(user, settings, ref, bytes), run, s);
    forall no
      ensures NoTaken(s.versions, no) <==> 1 <= no <= s.currentNo
    {
      TakenUpToCurrent(s.versions, no);
    }
    forall k | 0 <= k < |s.versions|
      ensures !Ledger(s.events)[k].Other? && Ledger(s.events)[k].no == s.versions[k].no == k + 1
    {
      assert Explains(Ledger(s.events)[k], s.versions[k], s.versions);
    }
  }

  lemma {:induction false} ReachesFurther(s: State, run: seq<Action>, t: State, a: Action)
    requires Reaches(s, run, t) && Enabled(t, a)
    ensures Reaches(s, run + [a], Step(t, a))
    decreases |run|
  {
    if run == [] {
      assert run + [a] == [a] && [a][1..] == [];
    } else {
      assert (run + [a])[0] == run[0] && (run + [a])[1..] == run[1..] + [a];
      ReachesFurther(Step(s, run[0]), run[1..], t, a);
    }
  }

  /** A run with a stray commit: a file has two versions, a third is staged; its space is deleted, another
      user's upload gets the id, and the staged version lands there. The new file then has versions 1 and 3,
      its owner never wrote the second of them, and it is what a download returns. */
  lemma LateWriterHitsNewFile(user: UserId, other: UserId, settings: Settings, one: seq<byte>, two: seq<byte>,
                              three: seq<byte>) returns (run: seq<Action>, s: State)
    requires |two| <= GRIDFS_MAX_SIZE && |three| <= GRIDFS_MAX_SIZE
    ensures Reaches(Created(user, settings, 1, one), run, s) && Current(s, 1)
    ensures s.versions == [VersionRow(1, 4, |one|, other), VersionRow(3, 3, |three|, user)]
    ensures !NoTaken(s.versions, 2) && Download(s, 1, s.currentNo) == Some(three)
  {
    hide Step, Reaches, Created;
    var start := Created(user, settings, 1, one);
    run, s := TwoVersions(user, settings, one, two);
    run, s := StageUpload(start, run, s, 1, user, 3, three);
    run, s := GiveAway(start, run, s, other, 4, one);
    var row := VersionRow(3, 3, |three|, user);
    run, s := Land(start, run, s, 1, row);
    assert FindVersion(s.versions, 3) == Some(row);
  }

  lemma TwoVersions(user: UserId, settings: Settings, one: seq<byte>, two: seq<byte>)
    returns (run: seq<Action>, s: State)
    requires |two| <= GRIDFS_MAX_SIZE
    ensures Reaches(Created(user, settings, 1, one), run, s)
    ensures Current(s, 0) && !s.deleted && s.currentNo == 2 && s.settings == settings
    ensures s.blobs.Keys == {1, 2} && s.writers.Keys == {0}
    ensures s.versions == [VersionRow(1, 1, |one|, user), VersionRow(2, 2, |two|, user)]
    ensures s.blobs[1] == Blob(user, BackendOf(settings, user), one)
  {
    var start := Created(user, settings, 1, one);
    run, s := StageUpload(start, [], start, 0, user, 2, two);
    run, s := Take(start, run, s, Commit(0));
  }

  /** The space is deleted, and another user's upload gets the id. */
  lemma GiveAway(from: State, run: seq<Action>, s: State, user: UserId, ref: Ref, bytes: seq<byte>)
    returns (run': seq<Action>, t: State)
    requires Reaches(from, run, s) && !s.dropped && ref !in s.blobs
    ensures Reaches(from, run', t) && t == NewFile(s.life + 1, user, s.settings, ref, bytes, s.blobs, s.writers)
  {
    run', t := Take(from, run, s, DropSpace);
    run', t := Take(from, run', t, ReuseId(user, ref, bytes));
  }

  /** A staged version with a free number is committed. */
  lemma Land(from: State, run: seq<Action>, s: State, w: Wid, row: VersionRow) returns (run': seq<Action>, t: State)
    requires Reaches(from, run, s) && !s.dropped && w in s.writers && s.writers[w].Staged? && s.writers[w].row == row
    requires !NoTaken(s.versions, row.no) && s.writers[w].seenNo != row.no
    ensures Reaches(from, run', t) && t.versions == s.versions + [row] && t.currentNo == row.no
    ensures t.life == s.life && !t.dropped && t.deleted == s.deleted && t.settings == s.settings && t.blobs == s.blobs
  {
    run', t := Take(from, run, s, Commit(w));
  }

  lemma Take(from: State, run: seq<Action>, s: State, a: Action) returns (run': seq<Action>, t: State)
    requires Reaches(from, run, s) && Enabled(s, a)
    ensures Reaches(from, run', t) && t == Step(s, a)
  {
    ReachesFurther(from, run, s, a);
    run', t := run + [a], Step(s, a);
  }

  /** One writer loads the file and stages an upload. */
  lemma StageUpload(from: State, run: seq<Action>, s: State, w: Wid, user: UserId, ref: Ref, bytes: seq<byte>)
    returns (run': seq<Action>, t: State)
    requires Reaches(from, run, s) && !s.dropped && !s.deleted && w !in s.writers && ref !in s.blobs
    requires |bytes| <= GRIDFS_MAX_SIZE
    ensures Reaches(from, run', t)
    ensures t == s.(
      blobs := s.blobs[ref := Blob(user, BackendOf(s.settings, user), bytes)],
      writers := s.writers[w := Staged(s.life, VersionRow(s.currentNo + 1, ref, |bytes|, user),
                                       VersionAdded(s.currentNo + 1), s.currentNo, s.byteSize)])
  {
    run', t := Take(from, run, s, BeginUpload(w, user));
    run', t := Take(from, run', t, SaveBlob(w, |bytes|, ref, bytes));
    assert t.writers == s.writers[w := t.writers[w]];
  }

  /** Of a file whose space was deleted nothing is left behind its id. */
  predicate Cleared(s: State) {
    s.dropped ==> s.versions == [] && s.events == []
  }

  lemma StepAppends(s: State, a: Action)
    requires Enabled(s, a) && Cleared(s)
    ensures Cleared(Step(s, a)) && s.life <= Step(s, a).life
    ensures Current(Step(s, a), s.life) ==>
      !s.dropped && s.versions <= Step(s, a).versions && s.events <= Step(s, a).events
    ensures forall r :: r in s.blobs ==> r in Step(s, a).blobs && Step(s, a).blobs[r] == s.blobs[r]
  {
  }

  /** Append-only for as long as the file's space exists: no committed version row or event changes or
      disappears. Afterwards there are none. A stored blob never changes or disappears at all. */
  lemma {:induction false} HistoryOnlyGrows(s: State, run: seq<Action>, t: State)
    requires Reaches(s, run, t) && Cleared(s)
    ensures s.life <= t.life && Cleared(t)
    ensures Current(t, s.life) ==> !s.dropped && s.versions <= t.versions && s.events <= t.events
    ensures forall r :: r in s.blobs ==> r in t.blobs && t.blobs[r] == s.blobs[r]
    decreases |run|
  {
    if run != [] {
      hide Step;
      StepAppends(s, run[0]);
      HistoryOnlyGrows(Step(s, run[0]), run[1..], t);
    }
  }

  /** What the download endpoints return of a version of one of the files that had the id: _require_file
      refuses a file that is gone or deleted, and the bytes are asked for in the name of the uploader. */
  function Download(s: State, life: nat, no: int): Option<seq<byte>> {
    var row := FindVersion(s.versions, no);
    if !Current(s, life) || s.deleted || row.None? then None
    else GetBytes(s.settings, s.blobs, row.value.uploader, row.value.ref)
  }

  lemma FindNumbered(versions: seq<VersionRow>, no: int)
    requires Numbered(versions) && 1 <= no <= |versions|
    ensures FindVersion(versions, no) == Some(versions[no - 1])
  {
  }

  /** No two rows have the same number. */
  predicate Distinct(versions: seq<VersionRow>) {
    forall i, j :: 0 <= i < j < |versions| ==> versions[i].no != versions[j].no
  }

  /** The unique constraint keeps numbers apart in every run, stray commits included. */
  lemma {:induction false} NumbersStayDistinct(s: State, run: seq<Action>, t: State)
    requires Distinct(s.versions) && Reaches(s, run, t)
    ensures Distinct(t.versions)
    decreases |run|
  {
    if run != [] {
      NumbersStayDistinct(Step(s, run[0]), run[1..], t);
    }
  }

  lemma {:induction false} FindDistinct(versions: seq<VersionRow>, i: nat)
    requires Distinct(versions) && i < |versions|
    ensures FindVersion(versions, versions[i].no) == Some(versions[i])
    decreases |versions|
  {
    if i < |versions| - 1 {
      FindDistinct(versions[..|versions| - 1], i);
    }
  }

  /** In every run: a version that was committed can be read at its number if and only if its file's space
      still exists, the file is not deleted and the version's uploader uses the backend the bytes were stored
      on; and what is read are those bytes. */
  lemma VersionsStayReadable(s: State, run: seq<Action>, t: State, no: int)
    requires Inv(s) && Reaches(s, run, t) && 1 <= no <= s.currentNo
    ensures s.versions[no - 1].ref in s.blobs
    ensures var row := s.versions[no - 1];
            var blob := s.blobs[row.ref];
            var read := Download(t, s.life, no);
            var chosen := t.settings.chosen;
            var backend := if row.uploader in chosen then chosen[row.uploader] else t.settings.default_;
            && (read.Some? <==> t.life == s.life && !t.dropped && !t.deleted && backend == blob.backend)
            && (read.Some? ==> read.value == blob.bytes && |blob.bytes| == row.size)
  {
    hide Step, Reaches, Ledger, Explains, FindVersion;
    HistoryOnlyGrows(s, run, t);
    NumbersStayDistinct(s, run, t);
    assert Backed(s.versions[no - 1], s.blobs);
    if Current(t, s.life) {
      assert s.versions[no - 1] == t.versions[no - 1];
      FindDistinct(t.versions, no - 1);
    }
  }

  /** The file is deleted, or its space is, or the id has gone to another file. */
  predicate Gone(s: State, life: nat) {
    life < s.life || (life == s.life && (s.deleted || s.dropped))
  }

  /** There is no undelete: once the file or its space is deleted no version of it is ever read again. */
  lemma {:induction false} DeletedForGood(s: State, life: nat, run: seq<Action>, t: State, no: int)
    requires Gone(s, life) && Reaches(s, run, t)
    ensures Gone(t, life) && Download(t, life, no) == None
    decreases |run|
  {
    if run != [] {
      DeletedForGood(Step(s, run[0]), life, run[1..], t, no);
    }
  }

  /** The three ways to lose a version, on a new file: delete it, delete its space, or change the uploader's
      backend. Only changing the backend back brings it back. */
  lemma VersionOneCanBeLost(user: UserId, settings: Settings, ref: Ref, bytes: seq<byte>, other: Backend)
    requires other != BackendOf(settings, user)
    ensures var s := Created(user, settings, ref, bytes);
            && Download(s, 0, 1) == Some(bytes)
            && Download(Step(s, Delete), 0, 1) == None
            && Download(Step(s, DropSpace), 0, 1) == None && Step(s, DropSpace).versions == []
            && Download(Step(s, SwitchBackend(user, other)), 0, 1) == None
            && Download(Step(Step(s, SwitchBackend(user, other)), SwitchBackend(user, BackendOf(settings, user))), 0, 1)
               == Some(bytes)
  {
    FindNumbered(Created(user, settings, ref, bytes).versions, 1);
  }

  // ---------- what one request does ----------

  /** A request is refused exactly when the file or its space is deleted; otherwise it loads the last version's
      number and size. */
  lemma LoadsLastVersion(s: State, w: Wid, user: UserId)
    requires Inv(s) && w !in s.writers
    ensures var up, re := Step(s, BeginUpload(w, user)).writers[w], Step(s, BeginRestore(w, user)).writers[w];
            if s.deleted || s.dropped then up == re == NotFound
            else
              && s.versions != []
              && up == Uploading(s.life, user, |s.versions|, s.versions[|s.versions| - 1].size)
              && re == Restoring(s.life, user, |s.versions|, s.versions[|s.versions| - 1].size)
  {
  }

  /** A restore stages the content of the version whose number it was asked for, as the next version, if there
      is such a version, and is refused if there is none. */
  lemma RestoreStagesAsked(s: State, w: Wid, no: int)
    requires Distinct(s.versions) && Enabled(s, PickSource(w, no))
    ensures var p, t := s.writers[w], Step(s, PickSource(w, no));
            && t == s.(writers := s.writers[w := t.writers[w]])
            && (t.writers[w] == NotFound <==> forall i :: 0 <= i < |s.versions| ==> s.versions[i].no != no)
            && forall i :: 0 <= i < |s.versions| && s.versions[i].no == no ==>
              var row := VersionRow(p.seenNo + 1, s.versions[i].ref, s.versions[i].size, s.versions[i].uploader);
              t.writers[w] == Staged(p.life, row, Restored(no, p.seenNo + 1), p.seenNo, p.seenSize)
  {
    forall i | 0 <= i < |s.versions| && s.versions[i].no == no
      ensures FindVersion(s.versions, no) == Some(s.versions[i])
    {
      FindDistinct(s.versions, i);
    }
  }

  /** An upload stages the bytes it stored, for its user and on the user's backend, if at most 50 MB arrived
      and, on MongoDB, at most 20 MB are to be stored. */
  lemma UploadStages(s: State, w: Wid, rawSize: nat, ref: Ref, bytes: seq<byte>)
    requires Enabled(s, SaveBlob(w, rawSize, ref, bytes))
    ensures var p, t := s.writers[w], Step(s, SaveBlob(w, rawSize, ref, bytes));
            var chosen := s.settings.chosen;
            var backend := if p.user in chosen then chosen[p.user] else s.settings.default_;
            && (t.writers[w] == TooLarge <==> rawSize > 50 * 1048576)
            && (t.writers[w] == ServerError <==>
                rawSize <= 50 * 1048576 && backend.Mongodb? && |bytes| > 20 * 1048576)
            && t == s.(writers := s.writers[w := t.writers[w]],
                       blobs := if t.writers[w].Staged? then s.blobs[ref := Blob(p.user, backend, bytes)] else s.blobs)
            && (t.writers[w].TooLarge? || t.writers[w].ServerError?
                || t.writers[w] == Staged(p.life, VersionRow(p.seenNo + 1, ref, |bytes|, p.user),
                                          VersionAdded(p.seenNo + 1), p.seenNo, p.seenSize))
  {
  }

  lemma StepKeepsStaged(s: State, a: Action, w: Wid, p: Writer)
    requires Enabled(s, a) && w in s.writers && p.Staged?
    requires s.writers[w] == p || s.writers[w].Committed? || s.writers[w] == Conflict
    ensures var q := Step(s, a).writers;
            w in q && (q[w] == p || q[w].Committed? || q[w] == Conflict)
  {
    hide FindVersion, NoTaken, BackendOf, Accepts;
  }

  /** Nobody else touches what a writer has staged. */
  lemma {:induction false} StagedStays(s: State, run: seq<Action>, t: State, w: Wid, p: Writer)
    requires Reaches(s, run, t) && w in s.writers
    requires s.writers[w] == p || s.writers[w].Committed? || s.writers[w] == Conflict
    requires p.Staged?
    ensures w in t.writers && (t.writers[w] == p || t.writers[w].Committed? || t.writers[w] == Conflict)
    decreases |run|
  {
    if run != [] {
      hide Step;
      StepKeepsStaged(s, run[0], w, p);
      StagedStays(Step(s, run[0]), run[1..], t, w, p);
    }
  }

  lemma StepKeepsAnswered(s: State, a: Action, w: Wid)
    requires Enabled(s, a) && w in s.writers
    requires !s.writers[w].Uploading? && !s.writers[w].Restoring? && !s.writers[w].Staged?
    ensures w in Step(s, a).writers && Step(s, a).writers[w] == s.writers[w]
  {
    hide FindVersion, NoTaken, BackendOf, Accepts;
  }

  /** A request that was answered stays answered. */
  lemma {:induction false} OnlyStagedCommits(s: State, run: seq<Action>, t: State, w: Wid)
    requires Reaches(s, run, t) && w in s.writers && !s.writers[w].Uploading? && !s.writers[w].Restoring?
    requires Enabled(t, Commit(w))
    ensures s.writers[w].Staged?
    decreases |run|
  {
    if run != [] && !s.writers[w].Staged? {
      hide Step;
      StepKeepsAnswered(s, run[0], w);
      OnlyStagedCommits(Step(s, run[0]), run[1..], t, w);
    }
  }

  lemma CommitKeepsBlobs(s: State, w: Wid)
    requires Enabled(s, Commit(w))
    ensures Step(s, Commit(w)).blobs == s.blobs && Step(s, Commit(w)).life == s.life
    ensures Cleared(s) ==> Cleared(Step(s, Commit(w)))
  {
  }

  /** The row that a commit that goes through adds is there in every later state, as long as the file is. */
  lemma CommittedStays(s: State, w: Wid, run: seq<Action>, t: State)
    requires Distinct(s.versions) && Cleared(s) && Enabled(s, Commit(w)) && Step(s, Commit(w)).writers[w].Committed?
    requires Reaches(Step(s, Commit(w)), run, t)
    ensures Current(t, s.life) ==>
      && FindVersion(t.versions, s.writers[w].row.no) == Some(s.writers[w].row)
      && forall i :: 0 <= i < |s.versions| ==> FindVersion(t.versions, s.versions[i].no) == Some(s.versions[i])
  {
    hide Reaches, FindVersion;
    var after := Step(s, Commit(w));
    assert after.versions == s.versions + [s.writers[w].row];
    assert Distinct(after.versions) && Cleared(after);
    HistoryOnlyGrows(after, run, t);
    NumbersStayDistinct(after, run, t);
    if Current(t, s.life) {
      assert t.versions[|s.versions|] == s.writers[w].row;
      FindDistinct(t.versions, |s.versions|);
      forall i | 0 <= i < |s.versions|
        ensures FindVersion(t.versions, s.versions[i].no) == Some(s.versions[i])
      {
        assert t.versions[i] == s.versions[i];
        FindDistinct(t.versions, i);
      }
    }
  }

  /** Once a restore has committed on the file it loaded, its new version reads in every later state as the
      version it was asked for does: the same bytes, or neither can be read. */
  lemma RestoredReadsAsAsked(s: State, w: Wid, no: int, run: seq<Action>, u: State, further: seq<Action>, t: State)
    requires Distinct(s.versions) && Cleared(s) && Enabled(s, PickSource(w, no)) && s.writers[w].life == s.life
    requires Reaches(Step(s, PickSource(w, no)), run, u) && Current(u, s.life)
    requires Enabled(u, Commit(w)) && Step(u, Commit(w)).writers[w].Committed?
    requires Reaches(Step(u, Commit(w)), further, t)
    ensures Download(t, s.life, s.writers[w].seenNo + 1) == Download(t, s.life, no)
  {
    hide Step, Reaches, FindVersion, GetBytes;
    RestoreStagesAsked(s, w, no);
    var staged := Step(s, PickSource(w, no));
    HistoryOnlyGrows(staged, run, u);
    NumbersStayDistinct(staged, run, u);
    OnlyStagedCommits(staged, run, u, w);
    StagedStays(staged, run, u, w, staged.writers[w]);
    var i :| 0 <= i < |s.versions| && s.versions[i].no == no;
    assert u.versions[i] == s.versions[i];
    CommittedStays(u, w, further, t);
  }

  /** Once an upload has committed on the file it loaded, its new version reads in every later state as the
      bytes it stored, unless the file or its space is deleted or its user has left the backend. */
  lemma UploadReadsBack(s: State, w: Wid, rawSize: nat, ref: Ref, bytes: seq<byte>, run: seq<Action>, u: State,
                        further: seq<Action>, t: State)
    requires Distinct(s.versions) && Cleared(s) && Enabled(s, SaveBlob(w, rawSize, ref, bytes))
    requires s.writers[w].life == s.life
    requires Reaches(Step(s, SaveBlob(w, rawSize, ref, bytes)), run, u) && Current(u, s.life)
    requires Enabled(u, Commit(w)) && Step(u, Commit(w)).writers[w].Committed?
    requires Reaches(Step(u, Commit(w)), further, t)
    ensures var user := s.writers[w].user;
            Download(t, s.life, s.writers[w].seenNo + 1)
            == if Current(t, s.life) && !t.deleted && BackendOf(t.settings, user) == BackendOf(s.settings, user)
               then Some(bytes)
               else None
  {
    hide Step, Reaches, FindVersion;
    UploadStages(s, w, rawSize, ref, bytes);
    var staged := Step(s, SaveBlob(w, rawSize, ref, bytes));
    HistoryOnlyGrows(staged, run, u);
    NumbersStayDistinct(staged, run, u);
    OnlyStagedCommits(staged, run, u, w);
    StagedStays(staged, run, u, w, staged.writers[w]);
    CommittedStays(u, w, further, t);
    CommitKeepsBlobs(u, w);
    HistoryOnlyGrows(Step(u, Commit(w)), further, t);
  }

  /** A run in which that happens: of a file with two versions the first is restored. */
  lemma FirstIsRestored(user: UserId, settings: Settings, one: seq<byte>, two: seq<byte>)
    returns (run: seq<Action>, s: State)
    requires |two| <= GRIDFS_MAX_SIZE
    ensures Reaches(Created(user, settings, 1, one), run, s) && s.currentNo == 3
    ensures Download(s, 0, 3) == Download(s, 0, 1) == Some(one)
  {
    hide Step, Reaches;
    var start := Created(user, settings, 1, one);
    run, s := TwoVersions(user, settings, one, two);
    var row := s.versions[0];
    run, s := RestoreFirst(start, run, s, 1, user);
    assert FindVersion(s.versions, 3) == Some(row.(no := 3));
    assert FindVersion(s.versions[..2][..1], 1) == Some(row);
    assert FindVersion(s.versions[..2], 1) == Some(row);
  }

  lemma RestoreFirst(from: State, run: seq<Action>, s: State, w: Wid, user: UserId)
    returns (run': seq<Action>, t: State)
    requires Reaches(from, run, s) && !s.dropped && !s.deleted && w !in s.writers
    requires |s.versions| == s.currentNo == 2 && s.versions[0].no == 1 && s.versions[1].no == 2
    ensures Reaches(from, run', t) && t.life == s.life && !t.dropped && !t.deleted && t.currentNo == 3
    ensures t.versions == s.versions + [s.versions[0].(no := 3)] && t.blobs == s.blobs && t.settings == s.settings
  {
    assert FindVersion(s.versions[..1], 1) == Some(s.versions[0]);
    run', t := Take(from, run, s, BeginRestore(w, user));
    run', t := Take(from, run', t, PickSource(w, 1));
    run', t := Take(from, run', t, Commit(w));
  }

  /** A restored version reads as the version its event names does: the same bytes, or neither can be read. */
  lemma RestoreReadsSource(s: State, no: int)
    requires Inv(s) && 1 <= no <= s.currentNo && Ledger(s.events)[no - 1].Restored?
    ensures var source := Ledger(s.events)[no - 1].fromVersion;
            1 <= source < no && Download(s, s.life, no) == Download(s, s.life, source)
  {
    assert Explains(Ledger(s.events)[no - 1], s.versions[no - 1], s.versions);
    FindNumbered(s.versions, no);
    FindNumbered(s.versions, Ledger(s.events)[no - 1].fromVersion);
  }

  /** Every version's content goes back to an original upload, made by the user it is read through. */
  lemma {:induction false} ContentHasUpload(s: State, no: int) returns (origin: int)
    requires Inv(s) && 1 <= no <= s.currentNo
    ensures 1 <= origin <= no && Ledger(s.events)[origin - 1] == VersionAdded(origin)
    ensures SameContent(s.versions[no - 1], s.versions[origin - 1])
    decreases no
  {
    var e := Ledger(s.events)[no - 1];
    assert Explains(e, s.versions[no - 1], s.versions);
    if e.VersionAdded? {
      origin := no;
    } else {
      origin := ContentHasUpload(s, e.fromVersion);
    }
  }
}
