/**
 * The project services: ordered argument checks with their own messages,
 * creation with the caller as the only member, membership growth with
 * `$addToSet`/`$each`, lookups, and file-tree replacement. The collection is
 * a class holding the stored documents by id.
 */
module ProjectService {
  import opened Wrappers
  import Text
  import Collections
  import opened Persistence
  import opened ProjectModel

  // ---------------------------------------------------------------------
  // $addToSet with $each
  // ---------------------------------------------------------------------

  /** `$addToSet: { users: { $each: ids } }`: each id, in order, is appended unless already present. */
  function AddToSet(xs: seq<UserId>, ids: seq<UserId>): (r: seq<UserId>)
    ensures |xs| <= |r| && r[..|xs|] == xs
    ensures forall i :: 0 <= i < |ids| ==> ids[i] in r
    ensures forall i :: |xs| <= i < |r| ==> r[i] in ids && r[i] !in xs
    ensures Collections.NoDup(xs) ==> Collections.NoDup(r)
    decreases |ids|
  {
    if ids == [] then xs
    else
      var next := AddOne(xs, ids[0]);
      var r := AddToSet(next, ids[1..]);
      assert forall i :: 1 <= i < |ids| ==> ids[i] == ids[1..][i - 1];
      assert r[..|xs|] == next[..|xs|];
      r
  }

  /** With no duplicate members to begin with, `$addToSet/$each` is de-duplicating the old list followed by the new ids. */
  lemma {:induction false} AddToSetIsDedup(xs: seq<UserId>, ids: seq<UserId>)
    requires Collections.NoDup(xs)
    ensures AddToSet(xs, ids) == Collections.Dedup(xs + ids)
    decreases |ids|
  {
    if ids == [] {
      assert xs + ids == xs;
      Collections.DedupOfNoDup(xs);
    } else {
      var x, rest := ids[0], ids[1..];
      var next := AddOne(xs, x);
      DedupOfNewOne(xs, x);
      AddToSetIsDedup(next, rest);
      ConcatFirst(xs, ids);
      Collections.DedupOfDedupedPrefix(xs + [x], rest);
    }
  }

  lemma ConcatFirst(xs: seq<UserId>, ids: seq<UserId>)
    requires ids != []
    ensures xs + ids == (xs + [ids[0]]) + ids[1..]
  {
    assert ids == [ids[0]] + ids[1..];
  }

  /** One step of `$addToSet`: the id is appended unless already present. */
  function AddOne(xs: seq<UserId>, x: UserId): (r: seq<UserId>)
    ensures |xs| <= |r| <= |xs| + 1 && r[..|xs|] == xs && x in r
    ensures |r| == |xs| + 1 <==> x !in xs
    ensures |r| == |xs| + 1 ==> r[|xs|] == x
    ensures Collections.NoDup(xs) ==> Collections.NoDup(r)
  {
    if x in xs then xs else xs + [x]
  }

  /** On a list without duplicates, one `$addToSet` step is de-duplication of the list with the id appended. */
  lemma DedupOfNewOne(xs: seq<UserId>, x: UserId)
    requires Collections.NoDup(xs)
    ensures Collections.Dedup(xs + [x]) == AddOne(xs, x)
    ensures Collections.NoDup(AddOne(xs, x))
  {
    Collections.DedupSnoc(xs, x);
    Collections.DedupOfNoDup(xs);
  }

  /** Adding the same ids a second time changes nothing. */
  lemma AddToSetIdempotent(xs: seq<UserId>, ids: seq<UserId>)
    requires Collections.NoDup(xs)
    ensures AddToSet(AddToSet(xs, ids), ids) == AddToSet(xs, ids)
  {
    var once := AddToSet(xs, ids);
    AddToSetIsDedup(once, ids);
    Collections.DedupOfNoDup(once);
    DedupAbsorbsPresent(once, ids);
  }

  /** Appending elements that are already present does not change a de-duplicated sequence. */
  lemma {:induction false} DedupAbsorbsPresent(s: seq<UserId>, ids: seq<UserId>)
    requires Collections.NoDup(s)
    requires forall i :: 0 <= i < |ids| ==> ids[i] in s
    ensures Collections.Dedup(s + ids) == s
    decreases |ids|
  {
    if ids == [] {
      assert s + ids == s;
      Collections.DedupOfNoDup(s);
    } else {
      var init, last := ids[..|ids| - 1], ids[|ids| - 1];
      forall i | 0 <= i < |init| ensures init[i] in s {
        assert init[i] == ids[i];
      }
      DedupAbsorbsPresent(s, init);
      Collections.SplitLast(s, ids);
      assert last in s + init;
      Collections.DedupSnoc(s + init, last);
    }
  }

  // ---------------------------------------------------------------------
  // outcomes of the services, as functions of the stored documents
  // ---------------------------------------------------------------------

  /** `createProject({ name, userId })`. */
  function CreateOutcome(projects: map<ProjectId, Project>, name: Option<string>, userId: Option<UserId>,
                         isValidId: string -> bool, newId: ProjectId): (r: Result<Project, StoreError>)
    ensures !Text.Present(name) ==> r == Failure(Thrown("Name is required"))
    ensures Text.Present(name) && !Text.Present(userId) ==> r == Failure(Thrown("user is required"))
    ensures r.Success? ==>
      && r.value.id == newId
      && r.value.users == [userId.value]
      && r.value.name == Text.Normalized(name.value) && r.value.name != ""
      && r.value.fileTree == map[]
      && !NameTaken(projects, r.value.name)
    ensures r.Failure? ==> !r.error.DuplicateKey?
    ensures Text.Present(name) && Text.Present(userId) && (Text.Normalized(name.value) == "" || !isValidId(userId.value)) ==>
      && r.Failure? && r.error.ValidationError?
      && ("name" in r.error.failures <==> Text.Normalized(name.value) == "")
      && ("users" in r.error.failures <==> !isValidId(userId.value))
    ensures Text.Present(name) && Text.Present(userId) && Text.Normalized(name.value) != "" && isValidId(userId.value) ==>
      && (r.Success? <==> !NameTaken(projects, Text.Normalized(name.value)))
      && (r.Failure? ==> r.error == Thrown("Project name already Exists"))
  {
    if !Text.Present(name) then Failure(Thrown("Name is required"))
    else if !Text.Present(userId) then Failure(Thrown("user is required"))
    else
      var doc := NewProject(newId, name.value, [userId.value]);
      assert doc.users == [userId.value] && |doc.users| == 1 && doc.users[0] == userId.value;
      match Save(projects, doc, isValidId)
      case Success(p) => Success(p)
      case Failure(e) => if Code(e) == 11000 then Failure(Thrown("Project name already Exists")) else Failure(e)
  }

  /** `addUserToproject({ projectId, users, userId })`: the argument `users` is missing, not an array, or an array of ids. */
  datatype UsersArgument = Missing | NotAnArray | Ids(ids: seq<UserId>)

  /** The `users` argument is an array, and every element casts to an ObjectId. */
  predicate ArrayOfValidIds(users: UsersArgument, isValidId: string -> bool) {
    users.Ids? && forall i :: 0 <= i < |users.ids| ==> isValidId(users.ids[i])
  }

  /** `findOne({ _id: projectId, users: userId })` finds a document. */
  predicate IsMember(projects: map<ProjectId, Project>, projectId: ProjectId, userId: UserId) {
    projectId in projects && userId in projects[projectId].users
  }

  function AddUsersOutcome(projects: map<ProjectId, Project>, projectId: Option<ProjectId>, users: UsersArgument,
                           userId: Option<UserId>, isValidId: string -> bool): (r: Result<Project, StoreError>)
    ensures !Text.Present(projectId) ==> r == Failure(Thrown("ProjectId is required"))
    ensures Text.Present(projectId) && !isValidId(projectId.value) ==> r == Failure(Thrown("Invalid projectId"))
    ensures Text.Present(projectId) && isValidId(projectId.value) ==>
      && (users.Missing? ==> r == Failure(Thrown("users is required")))
      && (!users.Missing? && !ArrayOfValidIds(users, isValidId) ==> r == Failure(Thrown("Invalid userId(s) in users array")))
      && (ArrayOfValidIds(users, isValidId) && !Text.Present(userId) ==> r == Failure(Thrown("UserId is required")))
      && (ArrayOfValidIds(users, isValidId) && Text.Present(userId) && !isValidId(userId.value) ==>
            r == Failure(CastError("users")))
      && (ArrayOfValidIds(users, isValidId) && Text.Present(userId) && isValidId(userId.value) ==>
            && (r.Success? <==> IsMember(projects, projectId.value, userId.value))
            && (r.Failure? ==> r.error == Thrown("user not belongs to this project")))
    ensures r.Success? ==>
      && ArrayOfValidIds(users, isValidId)
      && Text.Present(userId)
      && IsMember(projects, projectId.value, userId.value)
      && r.value == projects[projectId.value].(users := AddToSet(projects[projectId.value].users, users.ids))
  {
    if !Text.Present(projectId) then Failure(Thrown("ProjectId is required"))
    else if !isValidId(projectId.value) then Failure(Thrown("Invalid projectId"))
    else if users.Missing? then Failure(Thrown("users is required"))
    else if !ArrayOfValidIds(users, isValidId) then Failure(Thrown("Invalid userId(s) in users array"))
    else if !Text.Present(userId) then Failure(Thrown("UserId is required"))
    else if !isValidId(userId.value) then Failure(CastError("users"))
    else if !IsMember(projects, projectId.value, userId.value) then Failure(Thrown("user not belongs to this project"))
    else
      var p := projects[projectId.value];
      Success(p.(users := AddToSet(p.users, users.ids)))
  }

  /** `updateFileTree({ projectId, fileTree })`: `Success(None)` when no project has that id. */
  function UpdateTreeOutcome(projects: map<ProjectId, Project>, projectId: Option<ProjectId>, fileTree: Option<FileTree>,
                             isValidId: string -> bool): (r: Result<Option<Project>, StoreError>)
    ensures !Text.Present(projectId) ==> r == Failure(Thrown("projectId is required"))
    ensures Text.Present(projectId) && !isValidId(projectId.value) ==> r == Failure(Thrown("Invalid projectId"))
    ensures Text.Present(projectId) && isValidId(projectId.value) && fileTree.None? ==>
      r == Failure(Thrown("fileTree is required"))
    ensures r.Success? && r.value.Some? ==>
      && projectId.value in projects
      && r.value.value == projects[projectId.value].(fileTree := fileTree.value)
    ensures r.Success? && r.value.None? ==> projectId.value !in projects
    ensures Text.Present(projectId) && isValidId(projectId.value) && fileTree.Some? ==>
      r.Success? && (r.value.None? <==> projectId.value !in projects)
  {
    if !Text.Present(projectId) then Failure(Thrown("projectId is required"))
    else if !isValidId(projectId.value) then Failure(Thrown("Invalid projectId"))
    else if fileTree.None? then Failure(Thrown("fileTree is required"))
    else if projectId.value !in projects then Success(None)
    else Success(Some(projects[projectId.value].(fileTree := fileTree.value)))
  }

  /** Storing a new, well-formed document under a fresh id with an unused name keeps the collection valid. */
  lemma InsertKeepsValid(projects: map<ProjectId, Project>, p: Project)
    requires WellFormed(projects) && UniqueNames(projects)
    requires p.id !in projects && !NameTaken(projects, p.name)
    requires Text.IsNormal(p.name) && Collections.NoDup(p.users)
    ensures WellFormed(projects[p.id := p]) && UniqueNames(projects[p.id := p])
  {
    var m := projects[p.id := p];
    forall id | id in m
      ensures m[id].id == id && Text.IsNormal(m[id].name) && Collections.NoDup(m[id].users)
    {
      if id != p.id {
        assert m[id] == projects[id];
      }
    }
    forall a, b | a in m && b in m && a != b
      ensures m[a].name != m[b].name
    {
      if a == p.id {
        assert b in projects && m[b] == projects[b];
      } else if b == p.id {
        assert a in projects && m[a] == projects[a];
      }
    }
  }

  /** Replacing a document by one with the same id and name and no repeated member keeps the collection valid. */
  lemma ReplaceKeepsValid(projects: map<ProjectId, Project>, p: Project)
    requires WellFormed(projects) && UniqueNames(projects)
    requires p.id in projects && p.name == projects[p.id].name && Collections.NoDup(p.users)
    ensures WellFormed(projects[p.id := p]) && UniqueNames(projects[p.id := p])
  {
    var m := projects[p.id := p];
    forall id | id in m
      ensures m[id].id == id && Text.IsNormal(m[id].name) && Collections.NoDup(m[id].users)
    {
      if id != p.id {
        assert m[id] == projects[id];
      }
    }
    forall a, b | a in m && b in m && a != b
      ensures m[a].name != m[b].name
    {
      assert m[a].name == projects[a].name && m[b].name == projects[b].name;
    }
  }

  // ---------------------------------------------------------------------
  // the collection
  // ---------------------------------------------------------------------

  class ProjectStore {
    var projects: map<ProjectId, Project>

    ghost predicate Valid()
      reads this
    {
      WellFormed(projects) && UniqueNames(projects)
    }

    constructor ()
      ensures Valid() && projects == map[]
    {
      projects := map[];
    }

    /** `createProject`: on success the new document is stored under its id; on any error nothing is stored. */
    method CreateProject(name: Option<string>, userId: Option<UserId>, isValidId: string -> bool, newId: ProjectId)
      returns (r: Result<Project, StoreError>)
      requires Valid() && newId !in projects
      modifies this
      ensures Valid()
      ensures r == CreateOutcome(old(projects), name, userId, isValidId, newId)
      ensures projects == if r.Success? then old(projects)[newId := r.value] else old(projects)
    {
      r := CreateOutcome(projects, name, userId, isValidId, newId);
      if r.Success? {
        InsertKeepsValid(projects, r.value);
        projects := projects[newId := r.value];
      }
    }

    /** `getAllProjectsById`: exactly the stored projects that list the user as a member. */
    function GetAllProjectsById(userId: Option<UserId>, isValidId: string -> bool): (r: Result<set<Project>, StoreError>)
      reads this
      ensures !Text.Present(userId) ==> r == Failure(Thrown("userId must be required"))
      ensures Text.Present(userId) && isValidId(userId.value) ==>
        && r.Success?
        && (forall p :: p in r.value ==> p in projects.Values && userId.value in p.users)
        && (forall id :: id in projects && userId.value in projects[id].users ==> projects[id] in r.value)
      ensures Text.Present(userId) && !isValidId(userId.value) ==> r == Failure(CastError("users"))
    {
      if !Text.Present(userId) then Failure(Thrown("userId must be required"))
      else if !isValidId(userId.value) then Failure(CastError("users"))
      else Success(set p | p in projects.Values && userId.value in p.users)
    }

    /**
     * `addUserToproject`: after the checks, a caller who is a member grows the
     * member list; every failure leaves the collection as it was.
     */
    method AddUserToProject(projectId: Option<ProjectId>, users: UsersArgument, userId: Option<UserId>,
                            isValidId: string -> bool) returns (r: Result<Project, StoreError>)
      requires Valid()
      modifies this
      ensures Valid()
      ensures r == AddUsersOutcome(old(projects), projectId, users, userId, isValidId)
      ensures projects == if r.Success? then old(projects)[projectId.value := r.value] else old(projects)
    {
      r := AddUsersOutcome(projects, projectId, users, userId, isValidId);
      if r.Success? {
        ReplaceKeepsValid(projects, r.value);
        projects := projects[projectId.value := r.value];
      }
    }

    /** `getProjectById`: the matching documents, at most one. */
    function GetProjectById(projectId: Option<ProjectId>, isValidId: string -> bool): (r: Result<seq<Project>, StoreError>)
      reads this
      ensures !Text.Present(projectId) ==> r == Failure(Thrown("ProjectId is required"))
      ensures Text.Present(projectId) && !isValidId(projectId.value) ==> r == Failure(Thrown("Inavlid projectId"))
      ensures r.Success? ==> |r.value| <= 1 && (|r.value| == 1 <==> projectId.value in projects)
      ensures r.Success? ==> forall i :: 0 <= i < |r.value| ==> r.value[i] == projects[projectId.value]
      ensures Text.Present(projectId) && isValidId(projectId.value) ==> r.Success?
    {
      if !Text.Present(projectId) then Failure(Thrown("ProjectId is required"))
      else if !isValidId(projectId.value) then Failure(Thrown("Inavlid projectId"))
      else if projectId.value in projects then Success([projects[projectId.value]])
      else Success([])
    }

    /** `updateFileTree`: only the named project's file tree changes. */
    method UpdateFileTree(projectId: Option<ProjectId>, fileTree: Option<FileTree>, isValidId: string -> bool)
      returns (r: Result<Option<Project>, StoreError>)
      requires Valid()
      modifies this
      ensures Valid()
      ensures r == UpdateTreeOutcome(old(projects), projectId, fileTree, isValidId)
      ensures projects == if r.Success? && r.value.Some? then old(projects)[projectId.value := r.value.value]
                          else old(projects)
    {
      r := UpdateTreeOutcome(projects, projectId, fileTree, isValidId);
      if r.Success? && r.value.Some? {
        ReplaceKeepsValid(projects, r.value.value);
        projects := projects[projectId.value := r.value.value];
      }
    }
  }

  // ---------------------------------------------------------------------
  // properties across calls
  // ---------------------------------------------------------------------

  /** A name whose stored form is already taken is refused with the duplicate-name message. */
  lemma StoredNameCollides(projects: map<ProjectId, Project>, stored: ProjectId, name: string, userId: UserId,
                           isValidId: string -> bool, newId: ProjectId)
    requires stored in projects && projects[stored].name == Text.Normalized(name) && Text.Normalized(name) != ""
    requires userId != "" && isValidId(userId)
    ensures CreateOutcome(projects, Some(name), Some(userId), isValidId, newId)
            == Failure(Thrown("Project name already Exists"))
  {
    assert name != "" by { assert |Text.Normalized(name)| <= |name|; }
    assert NameTaken(projects, Text.Normalized(name)) by { assert projects[stored].name == Text.Normalized(name); }
    assert forall i :: 0 <= i < |[userId]| ==> isValidId([userId][i]);
    SaveOfTakenName(projects, NewProject(newId, name, [userId]), isValidId);
    DuplicateNameIsReported(projects, name, userId, isValidId, newId);
  }

  /** A duplicate-key error from saving the new document becomes the duplicate-name message. */
  lemma DuplicateNameIsReported(projects: map<ProjectId, Project>, name: string, userId: UserId,
                                isValidId: string -> bool, newId: ProjectId)
    requires name != "" && userId != ""
    requires Save(projects, NewProject(newId, name, [userId]), isValidId) == Failure(DuplicateKey("name"))
    ensures CreateOutcome(projects, Some(name), Some(userId), isValidId, newId)
            == Failure(Thrown("Project name already Exists"))
  {
    assert Code(DuplicateKey("name")) == 11000;
  }

  /**
   * A name that differs from a stored one only by surrounding white space or
   * letter case is refused as a duplicate.
   */
  lemma NameCollisionIsReported(projects: map<ProjectId, Project>, stored: ProjectId, s: string,
                                before: string, after: string, userId: UserId,
                                isValidId: string -> bool, newId: ProjectId)
    requires stored in projects && projects[stored].name == Text.Normalized(s) && Text.Normalized(s) != ""
    requires Text.AllWhitespace(before) && Text.AllWhitespace(after)
    requires userId != "" && isValidId(userId)
    ensures CreateOutcome(projects, Some(before + s + after), Some(userId), isValidId, newId)
            == Failure(Thrown("Project name already Exists"))
    ensures CreateOutcome(projects, Some(Text.ToLower(s)), Some(userId), isValidId, newId)
            == Failure(Thrown("Project name already Exists"))
  {
    Text.NormalizedIgnoresPadding(before, s, after);
    StoredNameCollides(projects, stored, before + s + after, userId, isValidId, newId);
    Text.NormalizedIgnoresCase(s);
    StoredNameCollides(projects, stored, Text.ToLower(s), userId, isValidId, newId);
  }

  /** After a successful add the caller, every earlier member and every added id are members, each once. */
  lemma AddedMembersAreKept(projects: map<ProjectId, Project>, projectId: Option<ProjectId>, ids: seq<UserId>,
                            userId: Option<UserId>, isValidId: string -> bool)
    requires WellFormed(projects)
    requires AddUsersOutcome(projects, projectId, Ids(ids), userId, isValidId).Success?
    ensures var p := AddUsersOutcome(projects, projectId, Ids(ids), userId, isValidId).value;
            && userId.value in p.users
            && (forall u :: u in projects[projectId.value].users ==> u in p.users)
            && (forall i :: 0 <= i < |ids| ==> ids[i] in p.users)
            && Collections.NoDup(p.users)
  {
    var old_users := projects[projectId.value].users;
    var p := AddUsersOutcome(projects, projectId, Ids(ids), userId, isValidId).value;
    forall u | u in old_users
      ensures u in p.users
    {
      var k :| 0 <= k < |old_users| && old_users[k] == u;
      assert p.users[..|old_users|][k] == u;
    }
  }
}
