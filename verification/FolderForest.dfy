/** The folder trees of a workspace as a parent relation, and what create, move and delete do to it. */
module FolderForest {
  import opened Options

  type Id = nat

  datatype Folder = Folder(space: Id, parent: Option<Id>, name: string)

  type Folders = map<Id, Folder>

  /** The folder n steps above `id`, if the chain is that long. */
  function Climb(fs: Folders, id: Id, n: nat): Option<Id>
    decreases n
  {
    if id !in fs then None
    else if n == 0 then Some(id)
    else if fs[id].parent.None? then None
    else Climb(fs, fs[id].parent.value, n - 1)
  }

  /** `x` is `f` or one of its descendants. */
  ghost predicate Within(fs: Folders, x: Id, f: Id) {
    exists n: nat :: Climb(fs, x, n) == Some(f)
  }

  ghost predicate NoCycle(fs: Folders) {
    forall f: Id, n: nat :: n > 0 ==> Climb(fs, f, n) != Some(f)
  }

  /** Parents exist and lie in the same space. */
  predicate Closed(fs: Folders) {
    forall f :: f in fs && fs[f].parent.Some? ==>
      fs[f].parent.value in fs && fs[fs[f].parent.value].space == fs[f].space
  }

  ghost predicate Forest(fs: Folders) {
    Closed(fs) && NoCycle(fs)
  }

  /** A rank that falls along every parent link. */
  predicate Ranked(fs: Folders, rank: map<Id, nat>) {
    && fs.Keys <= rank.Keys
    && forall f :: f in fs && fs[f].parent.Some? ==> fs[f].parent.value in rank && rank[fs[f].parent.value] < rank[f]
  }

  /** Steps to a root, counting only folders in `unseen`. */
  function Height(fs: Folders, id: Id, unseen: set<Id>): nat
    decreases unseen
  {
    if id !in unseen || id !in fs || fs[id].parent.None? then 0
    else 1 + Height(fs, fs[id].parent.value, unseen - {id})
  }

  lemma {:induction false} ClimbOneMore(fs: Folders, x: Id, n: nat)
    requires x in fs && fs[x].parent.Some?
    ensures Climb(fs, x, n + 1) == Climb(fs, fs[x].parent.value, n)
  {
  }

  lemma {:induction false} HeightIgnores(fs: Folders, x: Id, unseen: set<Id>, f: Id)
    requires !Within(fs, x, f)
    ensures Height(fs, x, unseen) == Height(fs, x, unseen - {f})
    decreases unseen
  {
    if x in unseen && x in fs && fs[x].parent.Some? {
      assert Climb(fs, x, 0) == Some(x);
      var p := fs[x].parent.value;
      if Within(fs, p, f) {
        var n: nat :| Climb(fs, p, n) == Some(f);
        ClimbOneMore(fs, x, n);
        assert false;
      }
      HeightIgnores(fs, p, unseen - {x}, f);
      assert unseen - {x} - {f} == unseen - {f} - {x};
    }
  }

  lemma {:induction false} ClimbLowersRank(fs: Folders, rank: map<Id, nat>, f: Id, n: nat)
    requires Ranked(fs, rank) && Climb(fs, f, n).Some?
    ensures f in rank && Climb(fs, f, n).value in rank
    ensures n > 0 ==> rank[Climb(fs, f, n).value] < rank[f]
    decreases n
  {
    if n > 0 {
      ClimbLowersRank(fs, rank, fs[f].parent.value, n - 1);
    }
  }

  /** Having no cycle is the same as having a rank. */
  lemma NoCycleIffRanked(fs: Folders)
    requires Closed(fs)
    ensures NoCycle(fs) <==> exists rank :: Ranked(fs, rank)
  {
    if NoCycle(fs) {
      var rank := RankOf(fs);
    }
    if rank :| Ranked(fs, rank) {
      RankedHasNoCycle(fs, rank);
    }
  }

  lemma RankedHasNoCycle(fs: Folders, rank: map<Id, nat>)
    requires Ranked(fs, rank)
    ensures NoCycle(fs)
  {
    forall f: Id, n: nat | n > 0
      ensures Climb(fs, f, n) != Some(f)
    {
      if Climb(fs, f, n) == Some(f) {
        ClimbLowersRank(fs, rank, f, n);
      }
    }
  }

  lemma RankOf(fs: Folders) returns (rank: map<Id, nat>)
    requires Forest(fs)
    ensures Ranked(fs, rank)
  {
    rank := map f | f in fs :: Height(fs, f, fs.Keys);
    forall f | f in fs && fs[f].parent.Some?
      ensures rank[fs[f].parent.value] < rank[f]
    {
      var p := fs[f].parent.value;
      if Within(fs, p, f) {
        var n: nat :| Climb(fs, p, n) == Some(f);
        ClimbOneMore(fs, f, n);
        assert false;
      }
      HeightIgnores(fs, p, fs.Keys, f);
    }
  }

  // ---------- moving a folder ----------

  function Reparent(fs: Folders, f: Id, p: Id): Folders
    requires f in fs
  {
    fs[f := fs[f].(parent := Some(p))]
  }

  /** The subtree below f goes up by one more than the new parent's rank. */
  lemma RaiseSubtree(fs: Folders, f: Id, p: Id)
    requires Forest(fs) && f in fs && p in fs && !Within(fs, p, f)
    ensures NoCycle(Reparent(fs, f, p))
  {
    var rank := RankOf(fs);
    var raised := map x | x in fs :: if Within(fs, x, f) then rank[x] + rank[p] + 1 else rank[x];
    var t := Reparent(fs, f, p);
    forall x | x in t && t[x].parent.Some?
      ensures t[x].parent.value in raised && raised[t[x].parent.value] < raised[x]
    {
      if x == f {
        assert Climb(fs, f, 0) == Some(f);
      } else {
        var q := fs[x].parent.value;
        if Within(fs, q, f) {
          var n: nat :| Climb(fs, q, n) == Some(f);
          ClimbOneMore(fs, x, n);
        } else if Within(fs, x, f) {
          var n: nat :| Climb(fs, x, n) == Some(f);
          ClimbOneMore(fs, x, n - 1);
          assert false;
        }
      }
    }
    assert Ranked(t, raised);
    RankedHasNoCycle(t, raised);
  }

  /** Above `x` the climb only sees the change at f once it has reached f. */
  lemma {:induction false} ClimbUntil(fs: Folders, f: Id, p: Id, x: Id, n: nat)
    requires f in fs && forall k: nat :: k < n ==> Climb(fs, x, k) != Some(f)
    ensures Climb(Reparent(fs, f, p), x, n) == Climb(fs, x, n)
    decreases n
  {
    if n > 0 && x in fs {
      assert Climb(fs, x, 0) == Some(x);
      if fs[x].parent.Some? {
        var q := fs[x].parent.value;
        forall k: nat | k < n - 1
          ensures Climb(fs, q, k) != Some(f)
        {
          ClimbOneMore(fs, x, k);
          assert Climb(fs, x, k + 1) != Some(f);
        }
        ClimbUntil(fs, f, p, q, n - 1);
      }
    }
  }

  lemma {:induction false} FirstReach(fs: Folders, x: Id, f: Id, n: nat) returns (m: nat)
    requires Climb(fs, x, n) == Some(f)
    ensures Climb(fs, x, m) == Some(f) && forall k: nat :: k < m ==> Climb(fs, x, k) != Some(f)
    decreases n
  {
    if k: nat :| k < n && Climb(fs, x, k) == Some(f) {
      m := FirstReach(fs, x, f, k);
    } else {
      m := n;
    }
  }

  /** Moving f under an existing folder of its space keeps the forest exactly when the target is neither
      f itself nor one of its descendants. */
  lemma MoveKeepsForestIff(fs: Folders, f: Id, p: Id)
    requires Forest(fs) && f in fs && p in fs && fs[p].space == fs[f].space
    ensures Forest(Reparent(fs, f, p)) <==> !Within(fs, p, f)
  {
    var t := Reparent(fs, f, p);
    if Within(fs, p, f) {
      var n: nat :| Climb(fs, p, n) == Some(f);
      var m := FirstReach(fs, p, f, n);
      ClimbUntil(fs, f, p, p, m);
      ClimbOneMore(t, f, m);
      assert Climb(t, f, m + 1) == Some(f);
    } else {
      RaiseSubtree(fs, f, p);
    }
  }

  // ---------- creating and deleting ----------

  lemma CreateKeepsForest(fs: Folders, id: Id, folder: Folder)
    requires Forest(fs) && id !in fs
    requires folder.parent.Some? ==> folder.parent.value in fs && fs[folder.parent.value].space == folder.space
    ensures Forest(fs[id := folder])
  {
    var rank := RankOf(fs);
    var top := if folder.parent.Some? then rank[folder.parent.value] + 1 else 0;
    RankedHasNoCycle(fs[id := folder], rank[id := top]);
  }

  /** ON DELETE SET NULL on folders.parent_id. */
  function Orphaned(folder: Folder, gone: Id): Folder {
    if folder.parent == Some(gone) then folder.(parent := None) else folder
  }

  function Delete(fs: Folders, id: Id): Folders {
    map f | f in fs && f != id :: Orphaned(fs[f], id)
  }

  /** Deleting a folder keeps the forest, removes just that folder, re-roots its children and leaves every
      other folder where it was. */
  lemma DeleteKeepsForest(fs: Folders, id: Id)
    requires Forest(fs)
    ensures Forest(Delete(fs, id)) && Delete(fs, id).Keys == fs.Keys - {id}
    ensures forall f :: f in Delete(fs, id) ==>
              Delete(fs, id)[f] == if fs[f].parent == Some(id) then fs[f].(parent := None) else fs[f]
  {
    var rank := RankOf(fs);
    RankedHasNoCycle(Delete(fs, id), rank);
  }

  /** ON DELETE CASCADE on folders.space_id. */
  function WithoutSpace(fs: Folders, space: Id): Folders {
    map f | f in fs && fs[f].space != space :: fs[f]
  }

  lemma DropSpaceKeepsForest(fs: Folders, space: Id)
    requires Forest(fs)
    ensures Forest(WithoutSpace(fs, space))
  {
    var rank := RankOf(fs);
    RankedHasNoCycle(WithoutSpace(fs, space), rank);
  }

  /** In a forest every folder's ancestors are in its own space. */
  lemma {:induction false} AncestorsShareSpace(fs: Folders, x: Id, n: nat)
    requires Closed(fs) && Climb(fs, x, n).Some?
    ensures x in fs && Climb(fs, x, n).value in fs && fs[Climb(fs, x, n).value].space == fs[x].space
    decreases n
  {
    if n > 0 {
      AncestorsShareSpace(fs, fs[x].parent.value, n - 1);
    }
  }
}
