/** The workspace store behind the endpoints of `routers/workspace.py`: spaces, members, folders and the
    places of files. Requests are served one at a time; what a handler refuses it leaves unchanged. */
module Workspace {
  import opened Options
  import opened FolderForest
  import opened Sets
  import opened MediaStorage

  const MAX_FILE_SIZE: nat := 50 * 1024 * 1024

  datatype Role = Viewer | Editor | Owner

  datatype FileRow = FileRow(space: Id, folder: Option<Id>, deleted: bool)

  datatype Status = Done | BadRequest | Forbidden | Missing | Duplicate | Unprocessable | TooLarge | ServerError

  /** How add_member finds its target: neither key given, no such user, or a user. */
  datatype Lookup = NoKey | NoUser | User(id: UserId)

  type Members = map<(Id, UserId), Role>

  function Level(r: Role): int {
    match r
    case Viewer => 0
    case Editor => 1
    case Owner => 2
  }

  /** require_member. */
  predicate Allowed(members: Members, user: UserId, space: Id, min: Role) {
    (space, user) in members && Level(members[(space, user)]) >= Level(min)
  }

  function Owners(members: Members, space: Id): set<UserId> {
    set k | k in members && k.0 == space && members[k] == Owner :: k.1
  }

  /** _guard_last_owner raises: the only owner row is this user's. */
  predicate IsLastOwner(members: Members, space: Id, user: UserId) {
    |Owners(members, space)| == 1 && user in Owners(members, space)
  }

  predicate EverySpaceOwned(spaces: set<Id>, members: Members) {
    forall sp :: sp in spaces ==> Owners(members, sp) != {}
  }

  /** ON DELETE SET NULL on files.folder_id. */
  function Unfiled(row: FileRow, gone: Id): FileRow {
    if row.folder == Some(gone) then row.(folder := None) else row
  }

  /** Row ids are positive, and nextId is past all of them. */
  predicate IdsGiven(ids: set<Id>, nextId: Id) {
    nextId >= 1 && forall x :: x in ids ==> 1 <= x < nextId
  }

  predicate MembersPlaced(spaces: set<Id>, members: Members) {
    forall k :: k in members ==> k.0 in spaces
  }

  predicate FoldersPlaced(spaces: set<Id>, folders: Folders) {
    forall f :: f in folders ==> folders[f].space in spaces
  }

  predicate FilesPlaced(spaces: set<Id>, folders: Folders, files: map<Id, FileRow>) {
    forall x :: x in files ==>
      && files[x].space in spaces
      && (files[x].folder.Some? ==>
            files[x].folder.value in folders && folders[files[x].folder.value].space == files[x].space)
  }

  // ---------- the last-owner guard ----------

  lemma SingleOwner(members: Members, space: Id, user: UserId)
    ensures IsLastOwner(members, space, user) <==> Owners(members, space) == {user}
  {
    var os := Owners(members, space);
    if |os| == 1 && user in os {
      if other :| other in os && other != user {
        assert {user, other} <= os;
        assert |{user, other}| == 2;
        SubsetSize({user, other}, os);
      }
      assert os == {user};
    }
  }

  lemma SoleOwner(members: Members, space: Id, user: UserId)
    requires (space, user) in members && members[(space, user)] == Owner
    ensures IsLastOwner(members, space, user) <==>
      forall u {:trigger (space, u)} :: (space, u) in members && members[(space, u)] == Owner ==> u == user
  {
    SingleOwner(members, space, user);
    assert user in Owners(members, space);
    assert forall u {:trigger (space, u)} ::
      (space, u) in members && members[(space, u)] == Owner ==> u in Owners(members, space);
  }

  /** Taking the owner role away, by demotion or removal, leaves the space without an owner exactly when
      the guard raises. */
  lemma GuardIsExact(members: Members, space: Id, user: UserId, role: Role)
    requires (space, user) in members && members[(space, user)] == Owner && role != Owner
    ensures Owners(members[(space, user) := role], space) == {} <==> IsLastOwner(members, space, user)
    ensures Owners(members - {(space, user)}, space) == {} <==> IsLastOwner(members, space, user)
    ensures forall sp: Id :: sp != space ==>
              && Owners(members[(space, user) := role], sp) == Owners(members, sp)
              && Owners(members - {(space, user)}, sp) == Owners(members, sp)
  {
    SingleOwner(members, space, user);
    var os := Owners(members, space);
    assert user in os;
    assert Owners(members[(space, user) := role], space) == os - {user};
    assert Owners(members - {(space, user)}, space) == os - {user};
    assert os - {user} == {} <==> os == {user};
    forall sp: Id | sp != space
      ensures Owners(members[(space, user) := role], sp) == Owners(members, sp)
      ensures Owners(members - {(space, user)}, sp) == Owners(members, sp)
    {
    }
  }

  lemma OwnersGrow(members: Members, key: (Id, UserId), role: Role)
    requires key in members ==> members[key] != Owner || role == Owner
    ensures forall sp: Id :: Owners(members, sp) <= Owners(members[key := role], sp)
    ensures role == Owner ==> key.1 in Owners(members[key := role], key.0)
  {
  }

  // ---------- the answers ----------

  /** What update_folder answers. */
  ghost function UpdateFolderAnswer(folders: Folders, members: Members, user: UserId,
                                    id: Id, parent: Option<Id>): Status {
    if id !in folders then Missing
    else if !Allowed(members, user, folders[id].space, Editor) then Forbidden
    else if parent.None? then Done
    else if parent.value !in folders || folders[parent.value].space != folders[id].space then BadRequest
    else if Within(folders, parent.value, id) then BadRequest
    else Done
  }

  /** What update_folder leaves: an omitted parent keeps the old one (there is no way back to the root). */
  function UpdatedFolder(folder: Folder, name: Option<string>, parent: Option<Id>): Folder {
    Folder(folder.space, if parent.Some? then parent else folder.parent, if name.Some? then name.value else folder.name)
  }

  /** What update_member and remove_member answer; `keeps` says that an owner stays an owner. */
  function MemberAnswer(members: Members, user: UserId, space: Id, target: UserId, keeps: bool): Status {
    if !Allowed(members, user, space, Owner) then Forbidden
    else if (space, target) !in members then Missing
    else if members[(space, target)] == Owner && !keeps && IsLastOwner(members, space, target) then BadRequest
    else Done
  }

  function FilesOutside(files: map<Id, FileRow>, space: Id): map<Id, FileRow> {
    map x | x in files && files[x].space != space :: files[x]
  }

  function MembersOutside(members: Members, space: Id): Members {
    map k | k in members && k.0 != space :: members[k]
  }

  lemma OutsideIsExact(members: Members, folders: Folders, files: map<Id, FileRow>, space: Id)
    ensures forall k :: k in MembersOutside(members, space) <==> k in members && k.0 != space
    ensures forall f :: f in WithoutSpace(folders, space) <==> f in folders && folders[f].space != space
    ensures forall x :: x in FilesOutside(files, space) <==> x in files && files[x].space != space
    ensures MembersOutside(members, space) == map k | k in MembersOutside(members, space) :: members[k]
    ensures WithoutSpace(folders, space) == map f | f in WithoutSpace(folders, space) :: folders[f]
    ensures FilesOutside(files, space) == map x | x in FilesOutside(files, space) :: files[x]
  {
  }

  lemma DropSpaceKeepsIds(spaces: set<Id>, folders: Folders, files: map<Id, FileRow>, space: Id, nextId: Id)
    requires IdsGiven(spaces, nextId) && IdsGiven(folders.Keys, nextId) && IdsGiven(files.Keys, nextId)
    ensures IdsGiven(spaces - {space}, nextId) && IdsGiven(WithoutSpace(folders, space).Keys, nextId)
    ensures IdsGiven(FilesOutside(files, space).Keys, nextId)
  {
  }

  lemma DropSpaceKeepsMembers(spaces: set<Id>, members: Members, space: Id)
    requires MembersPlaced(spaces, members) && EverySpaceOwned(spaces, members)
    ensures MembersPlaced(spaces - {space}, MembersOutside(members, space))
    ensures EverySpaceOwned(spaces - {space}, MembersOutside(members, space))
  {
  }

  lemma DropSpaceKeepsFiles(spaces: set<Id>, folders: Folders, files: map<Id, FileRow>, space: Id)
    requires FoldersPlaced(spaces, folders) && FilesPlaced(spaces, folders, files)
    ensures FoldersPlaced(spaces - {space}, WithoutSpace(folders, space))
    ensures FilesPlaced(spaces - {space}, WithoutSpace(folders, space), FilesOutside(files, space))
  {
  }

  lemma SpacesGrow(spaces: set<Id>, id: Id, folders: Folders, files: map<Id, FileRow>)
    requires FoldersPlaced(spaces, folders) && FilesPlaced(spaces, folders, files)
    ensures FoldersPlaced(spaces + {id}, folders) && FilesPlaced(spaces + {id}, folders, files)
  {
  }

  function UnfileAll(files: map<Id, FileRow>, gone: Id): map<Id, FileRow> {
    map x | x in files :: Unfiled(files[x], gone)
  }

  lemma DeleteKeepsPlaces(spaces: set<Id>, folders: Folders, files: map<Id, FileRow>, id: Id)
    requires FoldersPlaced(spaces, folders) && FilesPlaced(spaces, folders, files)
    ensures FoldersPlaced(spaces, Delete(folders, id)) && FilesPlaced(spaces, Delete(folders, id), UnfileAll(files, id))
  {
  }

  /** A change that keeps every folder's space keeps everything placed. */
  lemma SameSpacesKeepPlaces(spaces: set<Id>, folders: Folders, files: map<Id, FileRow>, folders': Folders)
    requires FoldersPlaced(spaces, folders) && FilesPlaced(spaces, folders, files)
    requires folders'.Keys == folders.Keys && forall f :: f in folders ==> folders'[f].space == folders[f].space
    ensures FoldersPlaced(spaces, folders') && FilesPlaced(spaces, folders', files)
  {
  }

  lemma WithinMeans(folders: Folders, x: Id, f: Id)
    ensures Within(folders, x, f) <==> exists n: nat :: Climb(folders, x, n) == Some(f)
  {
    if Within(folders, x, f) {
      var n: nat :| Climb(folders, x, n) == Some(f);
      assert Climb(folders, x, n) == Some(f);
    } else {
      assert forall n: nat :: Climb(folders, x, n) != Some(f);
    }
  }

  /** update_folder's effect on the forest, once its checks have passed. */
  lemma UpdateKeepsForest(folders: Folders, id: Id, name: Option<string>, parent: Option<Id>)
    requires Forest(folders) && id in folders
    requires parent.Some? ==>
      && parent.value in folders && folders[parent.value].space == folders[id].space
      && !Within(folders, parent.value, id)
    ensures Forest(folders[id := UpdatedFolder(folders[id], name, parent)])
  {
    var moved := if parent.Some? then Reparent(folders, id, parent.value) else folders;
    if parent.Some? {
      MoveKeepsForestIff(folders, id, parent.value);
    }
    var updated := UpdatedFolder(folders[id], name, parent);
    RenameKeepsForest(moved, id, updated.name);
    assert moved[id := moved[id].(name := updated.name)] == folders[id := updated];
  }

  class Store {
    var spaces: set<Id>
    var members: Members
    var folders: Folders
    var files: map<Id, FileRow>
    var nextId: Id

    ghost predicate Valid()
      reads this
    {
      && IdsGiven(spaces, nextId) && IdsGiven(folders.Keys, nextId) && IdsGiven(files.Keys, nextId)
      && MembersPlaced(spaces, members) && EverySpaceOwned(spaces, members)
      && Forest(folders) && FoldersPlaced(spaces, folders)
      && FilesPlaced(spaces, folders, files)
    }

    constructor ()
      ensures Valid() && spaces == {} && members == map[] && folders == map[] && files == map[]
    {
      spaces, members, folders, files, nextId := {}, map[], map[], map[], 1;
    }

    method CreateSpace(user: UserId) returns (id: Id)
      requires Valid()
      modifies this
      ensures Valid() && id !in old(spaces)
      ensures spaces == old(spaces) + {id} && members == old(members)[(id, user) := Owner]
      ensures folders == old(folders) && files == old(files)
    {
      hide Forest, FilesPlaced, FoldersPlaced;
      id := nextId;
      nextId := nextId + 1;
      SpacesGrow(spaces, id, folders, files);
      OwnersGrow(members, (id, user), Owner);
      spaces := spaces + {id};
      members := members[(id, user) := Owner];
      assert forall sp :: sp in spaces && sp != id ==> Owners(old(members), sp) != {};
    }

    /** ON DELETE CASCADE takes the space's members, folders and files along. */
    method DeleteSpace(user: UserId, space: Id) returns (st: Status)
      requires Valid()
      modifies this
      ensures Valid()
      ensures st == Done || st == Forbidden
      ensures st == Forbidden <==> (space, user) !in old(members) || old(members)[(space, user)] != Owner
      ensures st != Done ==> unchanged(this)
      ensures st == Done ==>
                && spaces == old(spaces) - {space}
                && (forall k :: k in members <==> k in old(members) && k.0 != space)
                && (forall f :: f in folders <==> f in old(folders) && old(folders)[f].space != space)
                && (forall x :: x in files <==> x in old(files) && old(files)[x].space != space)
                && members == (map k | k in members :: old(members)[k])
                && folders == (map f | f in folders :: old(folders)[f])
                && files == (map x | x in files :: old(files)[x])
    {
      if !Allowed(members, user, space, Owner) {
        return Forbidden;
      }
      hide Forest, Closed, EverySpaceOwned, MembersPlaced, FoldersPlaced, FilesPlaced, IdsGiven;
      hide MembersOutside, FilesOutside, WithoutSpace;
      OutsideIsExact(members, folders, files, space);
      DropSpaceKeepsIds(spaces, folders, files, space, nextId);
      DropSpaceKeepsForest(folders, space);
      DropSpaceKeepsMembers(spaces, members, space);
      DropSpaceKeepsFiles(spaces, folders, files, space);
      spaces := spaces - {space};
      members := MembersOutside(members, space);
      folders := WithoutSpace(folders, space);
      files := FilesOutside(files, space);
      st := Done;
    }

    method AddMember(user: UserId, space: Id, target: Lookup, role: Role) returns (st: Status)
      requires Valid()
      modifies this`members
      ensures Valid()
      ensures st ==
        if (space, user) !in old(members) || old(members)[(space, user)] != Owner then Forbidden
        else if target.NoKey? then Unprocessable
        else if target.NoUser? then Missing
        else if (space, target.id) in old(members) then Duplicate
        else Done
      ensures members == if st == Done then old(members)[(space, target.id) := role] else old(members)
    {
      if !Allowed(members, user, space, Owner) {
        return Forbidden;
      }
      match target {
        case NoKey => return Unprocessable;
        case NoUser => return Missing;
        case User(id) =>
          if (space, id) in members {
            return Duplicate;
          }
          OwnersGrow(members, (space, id), role);
          members := members[(space, id) := role];
          assert forall sp :: sp in spaces ==> Owners(old(members), sp) != {};
      }
      st := Done;
    }

    method UpdateMember(user: UserId, space: Id, target: UserId, role: Role) returns (st: Status)
      requires Valid()
      modifies this`members
      ensures Valid()
      ensures st == MemberAnswer(old(members), user, space, target, role == Owner)
      ensures st == Forbidden <==> (space, user) !in old(members) || old(members)[(space, user)] != Owner
      ensures st != Forbidden ==> (st == Missing <==> (space, target) !in old(members))
      ensures st != Forbidden && st != Missing ==>
        (st == BadRequest <==>
          && role != Owner && old(members)[(space, target)] == Owner
          && forall u {:trigger (space, u)} ::
            (space, u) in old(members) && old(members)[(space, u)] == Owner ==> u == target)
      ensures members == if st == Done then old(members)[(space, target) := role] else old(members)
    {
      if !Allowed(members, user, space, Owner) {
        return Forbidden;
      }
      if (space, target) !in members {
        return Missing;
      }
      if members[(space, target)] == Owner {
        SoleOwner(members, space, target);
      }
      if members[(space, target)] == Owner && role != Owner {
        if IsLastOwner(members, space, target) {
          return BadRequest;
        }
        GuardIsExact(members, space, target, role);
      } else {
        OwnersGrow(members, (space, target), role);
      }
      members := members[(space, target) := role];
      assert forall sp :: sp in spaces ==> Owners(old(members), sp) != {};
      st := Done;
    }

    method RemoveMember(user: UserId, space: Id, target: UserId) returns (st: Status)
      requires Valid()
      modifies this`members
      ensures Valid()
      ensures st == MemberAnswer(old(members), user, space, target, false)
      ensures st == Forbidden <==> (space, user) !in old(members) || old(members)[(space, user)] != Owner
      ensures st != Forbidden ==> (st == Missing <==> (space, target) !in old(members))
      ensures st != Forbidden && st != Missing ==>
        (st == BadRequest <==>
          && old(members)[(space, target)] == Owner
          && forall u {:trigger (space, u)} ::
            (space, u) in old(members) && old(members)[(space, u)] == Owner ==> u == target)
      ensures members == if st == Done then old(members) - {(space, target)} else old(members)
    {
      if !Allowed(members, user, space, Owner) {
        return Forbidden;
      }
      if (space, target) !in members {
        return Missing;
      }
      if members[(space, target)] == Owner {
        SoleOwner(members, space, target);
      }
      if members[(space, target)] == Owner {
        if IsLastOwner(members, space, target) {
          return BadRequest;
        }
        GuardIsExact(members, space, target, Viewer);
      } else {
        OwnersWithout(members, space, target);
      }
      members := members - {(space, target)};
      assert forall sp :: sp in spaces ==> Owners(old(members), sp) != {};
      st := Done;
    }

    method CreateFolder(user: UserId, space: Id, parent: Option<Id>, name: string) returns (st: Status, id: Id)
      requires Valid()
      modifies this`folders, this`nextId
      ensures Valid()
      ensures st ==
        if (space, user) !in old(members) || old(members)[(space, user)] == Viewer then Forbidden
        else if parent.Some? && (parent.value !in old(folders) || old(folders)[parent.value].space != space)
        then BadRequest
        else Done
      ensures st == Done ==> id !in old(folders) && folders == old(folders)[id := Folder(space, parent, name)]
      ensures st != Done ==> unchanged(this)
    {
      id := nextId;
      if !Allowed(members, user, space, Editor) {
        return Forbidden, id;
      }
      if parent.Some? {
        if parent.value !in folders || folders[parent.value].space != space {
          return BadRequest, id;
        }
      }
      CreateKeepsForest(folders, id, Folder(space, parent, name));
      folders := folders[id := Folder(space, parent, name)];
      nextId := nextId + 1;
      st := Done;
    }

    /** The cursor walk of update_folder: does the chain above `target` reach `id`? */
    method ReachesUpwards(target: Id, id: Id) returns (found: bool)
      requires Valid() && target in folders && id in folders
      ensures found <==> Within(folders, target, id)
    {
      ghost var rank := RankOf(folders);
      ghost var n: nat := 0;
      var cursor: Option<Id> := Some(target);
      while cursor.Some?
        invariant Climb(folders, target, n) == cursor && (cursor.Some? ==> cursor.value in folders)
        invariant forall k: nat :: k < n ==> Climb(folders, target, k) != Some(id)
        decreases if cursor.Some? then rank[cursor.value] + 1 else 0
      {
        if cursor.value == id {
          return true;
        }
        ClimbNext(folders, target, n);
        var above := folders[cursor.value].parent;
        cursor := if above.Some? && above.value != 0 && above.value in folders then above else None;
        n := n + 1;
      }
      ClimbStaysNone(folders, target, n);
      found := false;
    }

    method UpdateFolder(user: UserId, id: Id, name: Option<string>, parent: Option<Id>) returns (st: Status)
      requires Valid()
      modifies this`folders
      ensures Valid()
      ensures st == UpdateFolderAnswer(old(folders), old(members), user, id, parent)
      ensures st == Missing <==> id !in old(folders)
      ensures id in old(folders) ==>
        var mine := (old(folders)[id].space, user);
        (st == Forbidden <==> mine !in old(members) || old(members)[mine] == Viewer)
      ensures st != Missing && st != Forbidden ==>
        (st == BadRequest <==>
          parent.Some?
          && (parent.value !in old(folders) || old(folders)[parent.value].space != old(folders)[id].space
              || exists n: nat :: Climb(old(folders), parent.value, n) == Some(id)))
      ensures st != Done ==> unchanged(this)
      ensures st == Done ==>
        && id in folders && folders == old(folders)[id := folders[id]] && folders[id].space == old(folders)[id].space
        && folders[id].parent == (if parent.None? then old(folders)[id].parent else parent)
        && folders[id].name == (if name.None? then old(folders)[id].name else name.value)
    {
      if id !in folders {
        return Missing;
      }
      if !Allowed(members, user, folders[id].space, Editor) {
        return Forbidden;
      }
      hide Forest, Closed, NoCycle, Within, FoldersPlaced, FilesPlaced, EverySpaceOwned;
      if parent.Some? {
        WithinMeans(folders, parent.value, id);
      }
      var newParent := if parent.Some? then parent else folders[id].parent;
      if parent.Some? {
        if parent.value !in folders || folders[parent.value].space != folders[id].space {
          return BadRequest;
        }
        var cyclic := ReachesUpwards(parent.value, id);
        if cyclic {
          return BadRequest;
        }
      }
      UpdateKeepsForest(folders, id, name, parent);
      SameSpacesKeepPlaces(spaces, folders, files, folders[id := UpdatedFolder(folders[id], name, parent)]);
      assert folders[id := UpdatedFolder(folders[id], name, parent)].Keys == folders.Keys;
      var row := folders[id];
      if name.Some? {
        row := row.(name := name.value);
      }
      row := row.(parent := newParent);
      folders := folders[id := row];
      st := Done;
    }

    method DeleteFolder(user: UserId, id: Id) returns (st: Status)
      requires Valid()
      modifies this`folders, this`files
      ensures Valid()
      ensures st == Missing || st == Forbidden || st == Done
      ensures st == Missing <==> id !in old(folders)
      ensures id in old(folders) ==>
        var mine := (old(folders)[id].space, user);
        (st == Forbidden <==> mine !in old(members) || old(members)[mine] == Viewer)
      ensures st == Done ==> folders == Delete(old(folders), id) && files == UnfileAll(old(files), id)
      ensures st == Done ==> files.Keys == old(files).Keys && forall x :: x in files ==>
        files[x] == if old(files)[x].folder == Some(id) then old(files)[x].(folder := None) else old(files)[x]
      ensures st != Done ==> unchanged(this)
    {
      if id !in folders {
        return Missing;
      }
      if !Allowed(members, user, folders[id].space, Editor) {
        return Forbidden;
      }
      hide Forest, Closed, NoCycle, FoldersPlaced, FilesPlaced, EverySpaceOwned;
      DeleteKeepsForest(folders, id);
      DeleteKeepsPlaces(spaces, folders, files, id);
      folders := Delete(folders, id);
      files := UnfileAll(files, id);
      assert files.Keys == old(files).Keys;
      st := Done;
    }

    /** upload_file, as far as the place of the new file goes: `size` bytes arrive, `stored` bytes are left
        after conversion. */
    method UploadFile(user: UserId, space: Id, folder: Option<Id>, size: nat, stored: nat, backend: Backend)
      returns (st: Status, id: Id)
      requires Valid()
      modifies this`files, this`nextId
      ensures Valid()
      ensures st ==
        if (space, user) !in members || members[(space, user)] == Viewer then Forbidden
        else if folder.Some? && (folder.value !in folders || folders[folder.value].space != space) then BadRequest
        else if size > 50 * 1048576 then TooLarge
        else if backend.Mongodb? && stored > 20 * 1048576 then ServerError
        else Done
      ensures st == Done ==> id !in old(files) && files == old(files)[id := FileRow(space, folder, false)]
      ensures st != Done ==> unchanged(this)
    {
      id := nextId;
      if !Allowed(members, user, space, Editor) {
        return Forbidden, id;
      }
      if folder.Some? && (folder.value !in folders || folders[folder.value].space != space) {
        return BadRequest, id;
      }
      if size > MAX_FILE_SIZE {
        return TooLarge, id;
      }
      if !Accepts(backend, stored) {
        return ServerError, id;
      }
      files := files[id := FileRow(space, folder, false)];
      nextId := nextId + 1;
      st := Done;
    }

    method MoveFile(user: UserId, id: Id, folder: Option<Id>) returns (st: Status)
      requires Valid()
      modifies this`files
      ensures Valid()
      ensures st ==
        if id !in old(files) || old(files)[id].deleted then Missing
        else if (old(files)[id].space, user) !in members || members[(old(files)[id].space, user)] == Viewer
        then Forbidden
        else if folder.Some? && (folder.value !in folders || folders[folder.value].space != old(files)[id].space)
        then BadRequest
        else Done
      ensures files == if st == Done then old(files)[id := old(files)[id].(folder := folder)] else old(files)
    {
      if id !in files || files[id].deleted {
        return Missing;
      }
      if !Allowed(members, user, files[id].space, Editor) {
        return Forbidden;
      }
      if folder.Some? {
        if folder.value !in folders || folders[folder.value].space != files[id].space {
          return BadRequest;
        }
      }
      files := files[id := files[id].(folder := folder)];
      st := Done;
    }

    method DeleteFile(user: UserId, id: Id) returns (st: Status)
      requires Valid()
      modifies this`files
      ensures Valid()
      ensures st ==
        if id !in old(files) || old(files)[id].deleted then Missing
        else if (old(files)[id].space, user) !in members || members[(old(files)[id].space, user)] == Viewer
        then Forbidden
        else Done
      ensures files == if st == Done then old(files)[id := old(files)[id].(deleted := true)] else old(files)
    {
      if id !in files || files[id].deleted {
        return Missing;
      }
      if !Allowed(members, user, files[id].space, Editor) {
        return Forbidden;
      }
      files := files[id := files[id].(deleted := true)];
      st := Done;
    }
  }

  lemma OwnersWithout(members: Members, space: Id, user: UserId)
    requires (space, user) in members && members[(space, user)] != Owner
    ensures forall sp: Id :: Owners(members - {(space, user)}, sp) == Owners(members, sp)
  {
  }

  lemma {:induction false} ClimbNext(fs: Folders, x: Id, n: nat)
    requires Climb(fs, x, n).Some?
    ensures var at := Climb(fs, x, n).value;
            && at in fs
            && Climb(fs, x, n + 1) == if fs[at].parent.Some? && fs[at].parent.value in fs then fs[at].parent else None
    decreases n
  {
    if n > 0 {
      ClimbNext(fs, fs[x].parent.value, n - 1);
    }
  }

  lemma {:induction false} ClimbStaysNone(fs: Folders, x: Id, n: nat)
    requires Climb(fs, x, n).None?
    ensures forall k: nat :: k >= n ==> Climb(fs, x, k).None?
    decreases n
  {
    if x in fs && fs[x].parent.Some? && n > 0 {
      ClimbStaysNone(fs, fs[x].parent.value, n - 1);
      forall k: nat | k >= n
        ensures Climb(fs, x, k).None?
      {
        assert Climb(fs, fs[x].parent.value, k - 1).None?;
      }
    }
  }

  lemma RenameKeepsForest(fs: Folders, id: Id, name: string)
    requires Forest(fs) && id in fs
    ensures Forest(fs[id := fs[id].(name := name)])
  {
    var rank := RankOf(fs);
    RankedHasNoCycle(fs[id := fs[id].(name := name)], rank);
  }
}
