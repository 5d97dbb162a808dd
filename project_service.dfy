/** services/project_manager.py: the database-backed project service. Names
    are checked by a lookup before every write, the number of projects is
    capped, and length limits count whitespace-separated words. Deleting a
    project does not touch its tasks. */
module ProjectServices {
  import opened Wrappers
  import opened Errors
  import opened ProjectModel
  import opened Sessions
  import opened ProjectRepo
  import Text
  import Seqs
  import Tables

  const DEFAULT_MAX_PROJECTS: int := 5
  const MAX_NAME_WORDS: nat := 30
  const MAX_DESCRIPTION_WORDS: nat := 150

  /** What `create_project` raises, given the project found under the same name
      and the current count: the checks run in the order name words,
      description words, duplicate name, project limit. */
  function CreateProjectOutcome(name: string, description: string, sameName: Option<ProjectRow>,
                                count: nat, maxProjects: int): (e: Option<Error>)
    ensures e.None? <==> && |Text.Split(name)| <= MAX_NAME_WORDS && |Text.Split(description)| <= MAX_DESCRIPTION_WORDS
                         && sameName.None? && count < maxProjects
    ensures |Text.Split(name)| > MAX_NAME_WORDS ==> e == Some(ValidationError(NameTooManyWords))
    ensures (|Text.Split(name)| <= MAX_NAME_WORDS && |Text.Split(description)| > MAX_DESCRIPTION_WORDS) ==>
              e == Some(ValidationError(DescriptionTooManyWords))
    ensures e == Some(ProjectNameExistsError) <==>
              |Text.Split(name)| <= MAX_NAME_WORDS && |Text.Split(description)| <= MAX_DESCRIPTION_WORDS && sameName.Some?
    ensures e == Some(ProjectLimitExceededError) <==>
              && |Text.Split(name)| <= MAX_NAME_WORDS && |Text.Split(description)| <= MAX_DESCRIPTION_WORDS
              && sameName.None? && count >= maxProjects
  {
    if |Text.Split(name)| > MAX_NAME_WORDS then Some(ValidationError(NameTooManyWords))
    else if |Text.Split(description)| > MAX_DESCRIPTION_WORDS then Some(ValidationError(DescriptionTooManyWords))
    else if sameName.Some? then Some(ProjectNameExistsError)
    else if count >= maxProjects then Some(ProjectLimitExceededError)
    else None
  }

  /** What `update_project` does to the found project `p`, and what it raises.
      `holder` is the project found under the new name. An empty or absent
      field is skipped; the name is assigned before the description is checked,
      so a description error comes after the new name is in place. */
  function UpdateProjectOutcome(p: ProjectRow, newName: Option<string>, newDescription: Option<string>,
                                holder: Option<ProjectRow>): (res: (ProjectRow, Option<Error>))
    ensures res.0.id == p.id
    ensures newName.None? || newName.value == "" ==> res.0.name == p.name
    ensures newDescription.None? || newDescription.value == "" ==> res.0.description == p.description
    ensures res.0.name != p.name ==> newName.Some? && res.0.name == newName.value
                                     && (holder.None? || holder.value.id == p.id)
    ensures res.1.None? <==>
              && (newName.None? || newName.value == ""
                  || (|Text.Split(newName.value)| <= MAX_NAME_WORDS && (holder.None? || holder.value.id == p.id)))
              && (newDescription.None? || newDescription.value == ""
                  || |Text.Split(newDescription.value)| <= MAX_DESCRIPTION_WORDS)
    ensures newName.Some? && newName.value != "" && |Text.Split(newName.value)| > MAX_NAME_WORDS ==>
              res == (p, Some(ValidationError(NameTooManyWords)))
    ensures (newName.Some? && newName.value != "" && |Text.Split(newName.value)| <= MAX_NAME_WORDS
             && holder.Some? && holder.value.id != p.id) ==> res == (p, Some(ProjectNameExistsError))
    ensures res.1.None? ==> && (newName.Some? && newName.value != "" ==> res.0.name == newName.value)
                            && (newDescription.Some? && newDescription.value != "" ==> res.0.description == newDescription.value)
    ensures res.1.Some? ==> res.1.value in {ValidationError(NameTooManyWords), ProjectNameExistsError,
                                            ValidationError(DescriptionTooManyWords)}
  {
    var nameGiven := newName.Some? && newName.value != "";
    if nameGiven && |Text.Split(newName.value)| > MAX_NAME_WORDS then (p, Some(ValidationError(NameTooManyWords)))
    else if nameGiven && holder.Some? && holder.value.id != p.id then (p, Some(ProjectNameExistsError))
    else
      var p1 := if nameGiven then p.(name := newName.value) else p;
      if newDescription.Some? && newDescription.value != "" then
        if |Text.Split(newDescription.value)| > MAX_DESCRIPTION_WORDS then (p1, Some(ValidationError(DescriptionTooManyWords)))
        else (p1.(description := newDescription.value), None)
      else (p1, None)
  }

  /** Renaming a project to the name it is stored under is allowed: the lookup
      finds the project itself, which is not "another" project. */
  lemma OwnNameAllowed(p: ProjectRow, name: string)
    requires name != "" && |Text.Split(name)| <= MAX_NAME_WORDS
    ensures UpdateProjectOutcome(p, Some(name), None, Some(p)) == (p.(name := name), None)
  {
  }

  /** A name that passed the check in `update_project` cannot collide: writing
      it back keeps the names unique. */
  lemma ReplaceKeepsNamesUnique(rows: seq<ProjectRow>, q: ProjectRow)
    requires UniqueNames(rows) && Tables.IdsAscending(rows, ProjectKey)
    requires forall i :: 0 <= i < |rows| && rows[i].name == q.name ==> rows[i].id == q.id
    ensures UniqueNames(Tables.Replace(rows, q, ProjectKey))
  {
    var r := Tables.Replace(rows, q, ProjectKey);
    forall i, j | 0 <= i < j < |rows|
      ensures r[i].name != r[j].name
    {
      assert rows[i].id < rows[j].id;
    }
  }

  /** Under unique names a name identifies one row. */
  lemma SameNameSameRow(rows: seq<ProjectRow>, i: nat, j: nat)
    requires UniqueNames(rows) && i < |rows| && j < |rows| && rows[i].name == rows[j].name
    ensures i == j
  {
  }

  /** The outcome of `update_project` keeps the names unique when `holder` is
      what the lookup by name finds among `rows`: a rename gets through only
      when no other project holds the name. */
  lemma UpdateKeepsNamesUnique(rows: seq<ProjectRow>, project: ProjectRow, newName: Option<string>,
                               newDescription: Option<string>, holder: Option<ProjectRow>)
    requires Tables.IdsAscending(rows, ProjectKey) && project in rows
    requires newName.Some? && holder.None? ==> forall i :: 0 <= i < |rows| ==> rows[i].name != newName.value
    requires newName.Some? && holder.Some? ==> holder.value in rows && holder.value.name == newName.value
    ensures UniqueNames(rows) ==>
              UniqueNames(Tables.Replace(rows, UpdateProjectOutcome(project, newName, newDescription, holder).0, ProjectKey))
  {
    var q := UpdateProjectOutcome(project, newName, newDescription, holder).0;
    if UniqueNames(rows) {
      var k :| 0 <= k < |rows| && rows[k] == project;
      forall i | 0 <= i < |rows| && rows[i].name == q.name
        ensures rows[i].id == q.id
      {
        if q.name == project.name {
          SameNameSameRow(rows, i, k);
        } else {
          // A changed name passes the check only when no row holds it yet.
          assert false;
        }
      }
      ReplaceKeepsNamesUnique(rows, q);
    }
  }

  /** A description error after a successful rename: `update_project` raises,
      with the new name already assigned. */
  lemma UpdateKeepsNameOnDescriptionError(p: ProjectRow, name: string, description: string)
    requires name != "" && |Text.Split(name)| <= MAX_NAME_WORDS
    requires |Text.Split(description)| > MAX_DESCRIPTION_WORDS
    ensures UpdateProjectOutcome(p, Some(name), Some(description), None)
         == (p.(name := name), Some(ValidationError(DescriptionTooManyWords)))
  {
    Text.SplitEmptyIffBlank(description);
  }

  /** The stored names are unique and no project object holds an unwritten
      value, so the next commit writes no project row. */
  ghost predicate NamesSettled(db: Session)
    reads db
  {
    UniqueNames(db.projects) && db.pendingProjects == map[]
  }

  /** `n` one-letter words, each followed by a space. */
  function SpacedWords(n: nat): (s: string)
    ensures |s| == 2 * n
  {
    if n == 0 then "" else "w " + SpacedWords(n - 1)
  }

  lemma {:induction false} SpacedWordsCount(n: nat)
    ensures |Text.Split(SpacedWords(n))| == n
  {
    if n > 0 {
      var s := SpacedWords(n);
      assert Text.WordLength(s[1..]) == 0;
      assert Text.WordLength(s) == 1;
      assert s[1..][1..] == SpacedWords(n - 1);
      SpacedWordsCount(n - 1);
    }
  }

  class ProjectManager {
    const projectRepo: ProjectRepository

    constructor (projectRepository: ProjectRepository)
      ensures projectRepo == projectRepository
    {
      projectRepo := projectRepository;
    }

    /** `create_project`: on an error nothing changes; on success the session
        is committed and the project stored under the next id. When nothing
        else is pending, stored names stay unique. */
    method CreateProject(name: string, description: string, maxProjects: int := DEFAULT_MAX_PROJECTS)
      returns (r: Result<ProjectRow, Error>)
      requires projectRepo.db.Valid()
      modifies projectRepo.db
      ensures projectRepo.db.Valid()
      ensures var e := CreateProjectOutcome(name, description, old(projectRepo.GetByName(name)),
                                            old(projectRepo.Count()), maxProjects);
              && (e.Some? ==> r == Err(e.value) && unchanged(projectRepo.db))
              && (e.None? ==> && r == Ok(ProjectRow(old(projectRepo.db.nextProjectId), name, description))
                              && projectRepo.db.Settled(old(projectRepo.db.ProjectView()) + [r.value],
                                                        old(projectRepo.db.TaskView()))
                              && projectRepo.db.nextProjectId == old(projectRepo.db.nextProjectId) + 1)
      ensures old(NamesSettled(projectRepo.db)) ==> NamesSettled(projectRepo.db)
      ensures r.Ok? ==> |projectRepo.db.projects| <= maxProjects
    {
      if |Text.Split(name)| > MAX_NAME_WORDS {
        return Err(ValidationError(NameTooManyWords));
      }
      if |Text.Split(description)| > MAX_DESCRIPTION_WORDS {
        return Err(ValidationError(DescriptionTooManyWords));
      }
      var existing := projectRepo.GetByName(name);
      if existing.Some? {
        return Err(ProjectNameExistsError);
      }
      var currentCount := projectRepo.Count();
      if currentCount >= maxProjects {
        return Err(ProjectLimitExceededError);
      }
      Tables.FlushNothing(projectRepo.db.projects, ProjectKey);
      var created := projectRepo.Create(ProjectRow(0, name, description));
      r := Ok(created);
    }

    /** `get_project`. */
    function GetProject(projectId: int): (r: Option<ProjectRow>)
      requires projectRepo.db.Valid()
      reads projectRepo.db
      ensures r.Some? ==> r.value in projectRepo.db.ProjectView() && r.value.id == projectId
      ensures r.None? <==> forall i :: 0 <= i < |projectRepo.db.projects| ==> projectRepo.db.projects[i].id != projectId
    {
      projectRepo.GetById(projectId)
    }

    /** `get_all_projects`: the session's objects for every stored project. */
    function GetAllProjects(): (r: seq<ProjectRow>)
      requires projectRepo.db.Valid()
      reads projectRepo.db
      ensures |r| == |projectRepo.db.projects|
      ensures forall i :: 0 <= i < |r| ==> r[i].id == projectRepo.db.projects[i].id
      ensures projectRepo.db.pendingProjects == map[] ==> r == projectRepo.db.projects
    {
      projectRepo.GetAll()
    }

    /** `count_projects`. */
    function CountProjects(): (n: nat)
      requires projectRepo.db.Valid()
      reads projectRepo.db
      ensures n == |GetAllProjects()|
    {
      projectRepo.Count()
    }

    /** `update_project`: see `UpdateProjectOutcome`. The fields are assigned
        on the session's object; on success the session is committed, on an
        error the assignments made so far stay pending on that object. */
    method UpdateProject(projectId: int, newName: Option<string> := None, newDescription: Option<string> := None)
      returns (r: Result<ProjectRow, Error>)
      requires projectRepo.db.Valid()
      modifies projectRepo.db
      ensures projectRepo.db.Valid()
      ensures old(projectRepo.GetById(projectId)).None? ==> r == Err(ProjectNotFoundError) && unchanged(projectRepo.db)
      ensures old(projectRepo.GetById(projectId)).Some? ==>
                var holder := if newName.Some? then old(projectRepo.GetByName(newName.value)) else None;
                var res := UpdateProjectOutcome(old(projectRepo.GetById(projectId)).value, newName, newDescription, holder);
                && (res.1.Some? ==> && r == Err(res.1.value) && projectRepo.db.ProjectObjectsAssigned()
                                     && projectRepo.db.ProjectView()
                                        == Tables.Replace(old(projectRepo.db.ProjectView()), res.0, ProjectKey))
                && (res.1.None? ==> && r == Ok(res.0)
                                     && projectRepo.db.Settled(Tables.Replace(old(projectRepo.db.ProjectView()), res.0, ProjectKey),
                                                               old(projectRepo.db.TaskView())))
      ensures old(NamesSettled(projectRepo.db)) ==> UniqueNames(projectRepo.db.ProjectView())
      ensures old(NamesSettled(projectRepo.db)) && r.Ok? ==> NamesSettled(projectRepo.db)
    {
      var found := projectRepo.GetById(projectId);
      if found.None? {
        return Err(ProjectNotFoundError);
      }
      var written, err := WriteFields(found.value, newName, newDescription);
      if err.Some? {
        return Err(err.value);
      }
      Tables.InReplaceWithKey(old(projectRepo.db.ProjectView()), written, projectRepo.GetById(projectId).value, ProjectKey);
      var project := projectRepo.Update(written);
      Tables.FlushNothing(projectRepo.db.projects, ProjectKey);
      r := Ok(project);
    }

    /** With no project value pending, the outcome of `update_project` on the
        found project keeps the names of the objects unique. */
    lemma KeepsNamesUnique(project: ProjectRow, newName: Option<string>, newDescription: Option<string>)
      requires projectRepo.db.Valid() && project in projectRepo.db.ProjectView()
      ensures var holder := if newName.Some? then projectRepo.GetByName(newName.value) else None;
              NamesSettled(projectRepo.db) ==>
                && projectRepo.db.ProjectView() == projectRepo.db.projects
                && UniqueNames(Tables.Replace(projectRepo.db.projects,
                                              UpdateProjectOutcome(project, newName, newDescription, holder).0, ProjectKey))
    {
      var holder := if newName.Some? then projectRepo.GetByName(newName.value) else None;
      if NamesSettled(projectRepo.db) {
        Tables.FlushNothing(projectRepo.db.projects, ProjectKey);
        UpdateKeepsNamesUnique(projectRepo.db.projects, project, newName, newDescription, holder);
      }
    }

    /** The field assignments of `update_project` on the session's object
        `project`; the first failing check stops them, and nothing is written. */
    method WriteFields(project: ProjectRow, newName: Option<string>, newDescription: Option<string>)
      returns (written: ProjectRow, err: Option<Error>)
      requires projectRepo.db.Valid() && project in projectRepo.db.ProjectView()
      modifies projectRepo.db
      ensures projectRepo.db.Valid() && projectRepo.db.ProjectObjectsAssigned()
      ensures var holder := if newName.Some? then old(projectRepo.GetByName(newName.value)) else None;
              (written, err) == UpdateProjectOutcome(project, newName, newDescription, holder)
      ensures projectRepo.db.ProjectView() == Tables.Replace(old(projectRepo.db.ProjectView()), written, ProjectKey)
      ensures old(NamesSettled(projectRepo.db)) ==> UniqueNames(projectRepo.db.ProjectView())
    {
      KeepsNamesUnique(project, newName, newDescription);
      ghost var view0 := projectRepo.db.ProjectView();
      ghost var k :| 0 <= k < |view0| && view0[k] == project;
      Tables.FlushNumbered(projectRepo.db.projects, projectRepo.db.pendingProjects, ProjectKey, projectRepo.db.nextProjectId);
      Tables.ReplaceWithStored(view0, k, ProjectKey);
      ghost var holder := if newName.Some? then projectRepo.GetByName(newName.value) else None;
      ghost var outcome := UpdateProjectOutcome(project, newName, newDescription, holder);
      written, err := project, None;
      if newName.Some? && newName.value != "" {
        if |Text.Split(newName.value)| > MAX_NAME_WORDS {
          return written, Some(ValidationError(NameTooManyWords));
        }
        var existing := projectRepo.GetByName(newName.value);
        if existing.Some? && existing.value.id != project.id {
          return written, Some(ProjectNameExistsError);
        }
        written := Assign(view0, written, written.(name := newName.value));
      }
      if newDescription.Some? && newDescription.value != "" {
        if |Text.Split(newDescription.value)| > MAX_DESCRIPTION_WORDS {
          assert outcome == (written, Some(ValidationError(DescriptionTooManyWords)));
          return written, Some(ValidationError(DescriptionTooManyWords));
        }
        written := Assign(view0, written, written.(description := newDescription.value));
      }
      assert outcome == (written, None);
    }

    /** Assigns `next` to the object that last held `current`, the same project. */
    method Assign(ghost view0: seq<ProjectRow>, current: ProjectRow, next: ProjectRow) returns (written: ProjectRow)
      requires projectRepo.db.Valid() && projectRepo.db.ProjectView() == Tables.Replace(view0, current, ProjectKey)
      requires next.id == current.id
      modifies projectRepo.db
      ensures projectRepo.db.Valid() && projectRepo.db.ProjectObjectsAssigned() && written == next
      ensures projectRepo.db.ProjectView() == Tables.Replace(view0, next, ProjectKey)
    {
      Tables.ReplaceTwice(view0, current, next, ProjectKey);
      projectRepo.db.AssignProject(next);
      written := next;
    }

    /** `update_project` as evidently intended: every check runs before any
        field is assigned, so an error changes nothing, and settled unique
        names stay settled and unique whatever the outcome. */
    method UpdateProjectAtomically(projectId: int, newName: Option<string> := None,
                                   newDescription: Option<string> := None)
      returns (r: Result<ProjectRow, Error>)
      requires projectRepo.db.Valid()
      modifies projectRepo.db
      ensures projectRepo.db.Valid()
      ensures old(projectRepo.GetById(projectId)).None? ==> r == Err(ProjectNotFoundError)
      ensures old(projectRepo.GetById(projectId)).Some? ==>
                var holder := if newName.Some? then old(projectRepo.GetByName(newName.value)) else None;
                var res := UpdateProjectOutcome(old(projectRepo.GetById(projectId)).value, newName, newDescription, holder);
                && (res.1.Some? ==> r == Err(res.1.value))
                && (res.1.None? ==> && r == Ok(res.0)
                                     && projectRepo.db.Settled(Tables.Replace(old(projectRepo.db.ProjectView()), res.0, ProjectKey),
                                                               old(projectRepo.db.TaskView())))
      ensures r.Err? ==> unchanged(projectRepo.db)
      ensures old(NamesSettled(projectRepo.db)) ==> NamesSettled(projectRepo.db)
    {
      var found := projectRepo.GetById(projectId);
      if found.None? {
        return Err(ProjectNotFoundError);
      }
      var holder := if newName.Some? then projectRepo.GetByName(newName.value) else None;
      var res := UpdateProjectOutcome(found.value, newName, newDescription, holder);
      if res.1.Some? {
        return Err(res.1.value);
      }
      KeepsNamesUnique(found.value, newName, newDescription);
      ghost var view0 := projectRepo.db.ProjectView();
      projectRepo.db.AssignProject(res.0);
      Tables.InReplaceWithKey(view0, res.0, projectRepo.GetById(projectId).value, ProjectKey);
      var project := projectRepo.Update(res.0);
      r := Ok(project);
    }

    /** `delete_project`: `true` once the session is committed with the project
        removed; an error changes nothing. The project's tasks are left as they
        are. */
    method DeleteProject(projectId: int) returns (r: Result<bool, Error>)
      requires projectRepo.db.Valid()
      modifies projectRepo.db
      ensures projectRepo.db.Valid()
      ensures old(projectRepo.GetById(projectId)).None? ==> r == Err(ProjectNotFoundError) && unchanged(projectRepo.db)
      ensures old(projectRepo.GetById(projectId)).Some? ==>
                && r == Ok(true)
                && projectRepo.db.Settled(Tables.Without(old(projectRepo.db.ProjectView()), projectId, ProjectKey),
                                          old(projectRepo.db.TaskView()))
                && |projectRepo.db.projects| == |old(projectRepo.db.projects)| - 1
    {
      var project := projectRepo.GetById(projectId);
      if project.None? {
        return Err(ProjectNotFoundError);
      }
      var deleted := projectRepo.Delete(projectId);
      r := Ok(deleted);
    }
  }

  /** A name of one letter is one word. */
  lemma {:induction false} OneLetterName(c: char)
    requires !Text.IsSpace(c)
    ensures |Text.Split([c])| == 1
  {
    assert Text.WordLength([c]) == 1 by {
      assert [c][1..] == [];
    }
    assert [c][1..] == [];
  }

  /** A new session holding the single project "A". */
  method SessionWithA() returns (manager: ProjectManager)
    ensures fresh(manager.projectRepo.db)
    ensures manager.projectRepo.db.Valid() && manager.projectRepo.db.Settled([ProjectRow(1, "A", "")], [])
    ensures manager.projectRepo.db.nextProjectId == 2
  {
    var db := new Session();
    var repo := new ProjectRepository(db);
    manager := new ProjectManager(repo);
    OneLetterName('A');
    var a := manager.CreateProject("A", "");
  }

  /** `create_project("B", "")` on a session storing only "A": the lookup by
      name finds nothing stored, so "B" is added after whatever was pending. */
  method CreateB(manager: ProjectManager)
    requires manager.projectRepo.db.Valid() && manager.projectRepo.db.projects == [ProjectRow(1, "A", "")]
    requires manager.projectRepo.db.nextProjectId == 2
    modifies manager.projectRepo.db
    ensures manager.projectRepo.db.projects == old(manager.projectRepo.db.ProjectView()) + [ProjectRow(2, "B", "")]
  {
    OneLetterName('B');
    assert manager.projectRepo.GetByName("B").None?;
    var b := manager.CreateProject("B", "");
  }

  /** `update_project(1, "B", <151 words>)` as written on a session storing
      only "A": the description is refused after the rename is assigned, so
      the object shows "B" while the table still stores "A". */
  method RefusedRenameToB(manager: ProjectManager)
    requires manager.projectRepo.db.Valid() && manager.projectRepo.db.Settled([ProjectRow(1, "A", "")], [])
    requires manager.projectRepo.db.nextProjectId == 2
    modifies manager.projectRepo.db
    ensures manager.projectRepo.db.Valid() && manager.projectRepo.db.projects == [ProjectRow(1, "A", "")]
    ensures manager.projectRepo.db.nextProjectId == 2
    ensures manager.projectRepo.db.ProjectView() == [ProjectRow(1, "B", "")]
  {
    Tables.FlushNothing([ProjectRow(1, "A", "")], ProjectKey);
    var long := SpacedWords(MAX_DESCRIPTION_WORDS + 1);
    SpacedWordsCount(MAX_DESCRIPTION_WORDS + 1);
    OneLetterName('B');
    assert manager.projectRepo.GetById(1) == Some(ProjectRow(1, "A", ""));
    assert manager.projectRepo.GetByName("B").None?;
    UpdateKeepsNameOnDescriptionError(ProjectRow(1, "A", ""), "B", long);
    var u := manager.UpdateProject(1, Some("B"), Some(long));
  }

  /** Under `update_project` as written a session can end up storing two
      projects with one name: a rename refused for its description stays
      pending, `create_project`'s lookup by name reads only stored names, and
      its commit writes the pending rename next to the new project. */
  method DuplicateNameScenario() returns (names: seq<string>)
    ensures names == ["B", "B"]
  {
    var manager := SessionWithA();
    RefusedRenameToB(manager);
    CreateB(manager);
    names := [manager.projectRepo.db.projects[0].name, manager.projectRepo.db.projects[1].name];
  }

  /** The same update checked before it assigns anything: it is refused and
      leaves the session as it was. */
  method AtomicRefusedRenameToB(manager: ProjectManager)
    requires manager.projectRepo.db.Valid() && manager.projectRepo.db.Settled([ProjectRow(1, "A", "")], [])
    requires manager.projectRepo.db.nextProjectId == 2
    modifies manager.projectRepo.db
    ensures manager.projectRepo.db.Valid() && manager.projectRepo.db.Settled([ProjectRow(1, "A", "")], [])
    ensures manager.projectRepo.db.nextProjectId == 2
  {
    Tables.FlushNothing([ProjectRow(1, "A", "")], ProjectKey);
    var long := SpacedWords(MAX_DESCRIPTION_WORDS + 1);
    SpacedWordsCount(MAX_DESCRIPTION_WORDS + 1);
    OneLetterName('B');
    assert manager.projectRepo.GetById(1) == Some(ProjectRow(1, "A", ""));
    assert manager.projectRepo.GetByName("B").None?;
    UpdateKeepsNameOnDescriptionError(ProjectRow(1, "A", ""), "B", long);
    var u := manager.UpdateProjectAtomically(1, Some("B"), Some(long));
  }

  /** The same calls with the update checked before it assigns anything: the
      refused rename leaves nothing behind and the names stay distinct. */
  method AtomicUpdateScenario() returns (names: seq<string>)
    ensures names == ["A", "B"]
  {
    var manager := SessionWithA();
    AtomicRefusedRenameToB(manager);
    Tables.FlushNothing([ProjectRow(1, "A", "")], ProjectKey);
    CreateB(manager);
    names := [manager.projectRepo.db.projects[0].name, manager.projectRepo.db.projects[1].name];
  }
}
