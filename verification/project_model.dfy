/**
 * The project schema: a required name that is stored trimmed and
 * lower-cased and is unique, a list of member user ids, and a file tree that
 * defaults to the empty object.
 */
module ProjectModel {
  import opened Wrappers
  import Text
  import Collections
  import opened Persistence

  type ProjectId = string
  type UserId = string

  /** One entry of a file tree in the WebContainer layout: `{ file: { contents } }` or `{ directory: { ... } }`. */
  datatype Entry = File(contents: string) | Directory(children: map<string, Entry>)

  /** A file tree: names mapped to entries. */
  type FileTree = map<string, Entry>

  /** A stored project document. */
  datatype Project = Project(id: ProjectId, name: string, users: seq<UserId>, fileTree: FileTree)

  /** The document `projectModel.create({ name, users })` builds before saving it. */
  function NewProject(id: ProjectId, name: string, users: seq<UserId>): (p: Project)
    ensures p.name == Text.Normalized(name)
    ensures p.fileTree == map[]
  {
    Project(id, Text.Normalized(name), users, map[])
  }

  /** Some stored project already holds this name. */
  predicate NameTaken(projects: map<ProjectId, Project>, name: string) {
    exists id :: id in projects && projects[id].name == name
  }

  /** The unique index on `name`: no two stored projects share a name. */
  ghost predicate UniqueNames(projects: map<ProjectId, Project>) {
    forall a, b :: a in projects && b in projects && a != b ==> projects[a].name != projects[b].name
  }

  /** Every stored document is keyed by its id, has its name in stored form and no member twice. */
  ghost predicate WellFormed(projects: map<ProjectId, Project>) {
    forall id :: id in projects ==>
      && projects[id].id == id
      && Text.IsNormal(projects[id].name)
      && Collections.NoDup(projects[id].users)
  }

  /**
   * Schema validation of a new document: the (already normalised) name is
   * required, so the empty string fails, and every member id must cast to an
   * ObjectId.
   */
  function Validate(p: Project, isValidId: string -> bool): (failures: map<string, Validator>)
    ensures "name" in failures <==> p.name == ""
    ensures "users" in failures <==> exists i :: 0 <= i < |p.users| && !isValidId(p.users[i])
    ensures forall path :: path in failures ==> path in {"name", "users"}
  {
    var badUsers := exists i :: 0 <= i < |p.users| && !isValidId(p.users[i]);
    if p.name == "" && badUsers then map["name" := Required, "users" := CastToObjectId]
    else if p.name == "" then map["name" := Required]
    else if badUsers then map["users" := CastToObjectId]
    else map[]
  }

  /**
   * `projectModel.create(doc)`: validation first, then the unique index on
   * `name`, then the document is stored.
   */
  function Save(projects: map<ProjectId, Project>, p: Project, isValidId: string -> bool): (r: Result<Project, StoreError>)
    ensures r.Success? <==> Validate(p, isValidId) == map[] && !NameTaken(projects, p.name)
    ensures r.Success? ==> r.value == p
    ensures r.Failure? && Validate(p, isValidId) == map[] ==> r.error == DuplicateKey("name")
  {
    var failures := Validate(p, isValidId);
    if failures != map[] then Failure(ValidationError(failures))
    else if NameTaken(projects, p.name) then Failure(DuplicateKey("name"))
    else Success(p)
  }

  /** A document that passes validation but whose name is taken is refused by the unique index. */
  lemma SaveOfTakenName(projects: map<ProjectId, Project>, p: Project, isValidId: string -> bool)
    requires p.name != "" && forall i :: 0 <= i < |p.users| ==> isValidId(p.users[i])
    requires NameTaken(projects, p.name)
    ensures Save(projects, p, isValidId) == Failure(DuplicateKey("name"))
  {
  }
}
