/** repositories/project_repository.py: queries and writes on the `project`
    table through a session. Lookups filter on the stored values and return
    the session's objects; `create`, `update` and `delete` each end in a commit
    of the whole session. */
module ProjectRepo {
  import opened Wrappers
  import opened ProjectModel
  import opened Sessions
  import Seqs
  import Tables

  class ProjectRepository {
    const db: Session

    constructor (session: Session)
      ensures db == session
    {
      db := session;
    }

    /** `create`: `add` and `commit`. Every pending value is written and the
        project is inserted under the next id. */
    method Create(project: ProjectRow) returns (created: ProjectRow)
      requires db.Valid()
      modifies db
      ensures db.Valid()
      ensures created == project.(id := old(db.nextProjectId))
      ensures db.Settled(old(db.ProjectView()) + [created], old(db.TaskView()))
      ensures db.nextProjectId == old(db.nextProjectId) + 1 && db.nextTaskId == old(db.nextTaskId)
    {
      db.Commit();
      created := project.(id := db.nextProjectId);
      db.projects := db.projects + [created];
      db.nextProjectId := db.nextProjectId + 1;
    }

    /** `get_by_id`: the session's object for the project with that id, or `None`. */
    function GetById(projectId: int): (r: Option<ProjectRow>)
      requires db.Valid()
      reads db
      ensures r.None? <==> forall i :: 0 <= i < |db.projects| ==> db.projects[i].id != projectId
      ensures r.Some? ==> r.value in db.ProjectView() && r.value.id == projectId
    {
      match Seqs.IndexWhere(db.projects, HasId(projectId))
      case None => None
      case Some(i) => Some(db.ProjectView()[i])
    }

    /** `get_by_name`: the first project whose STORED name equals `name`,
        handed back as the session's object. A name assigned but not yet
        committed is not found, and the object found may already carry
        another name. */
    function GetByName(name: string): (r: Option<ProjectRow>)
      reads db
      ensures r.None? <==> forall i :: 0 <= i < |db.projects| ==> db.projects[i].name != name
      ensures r.Some? ==> exists i :: 0 <= i < |db.projects| && db.projects[i].name == name
                                      && r.value == db.ProjectView()[i]
    {
      match Seqs.IndexWhere(db.projects, HasName(name))
      case None => None
      case Some(i) => Some(db.ProjectView()[i])
    }

    /** `get_all`: the session's objects for every stored project. */
    function GetAll(): (r: seq<ProjectRow>)
      requires db.Valid()
      reads db
      ensures |r| == |db.projects|
      ensures forall i :: 0 <= i < |r| ==> r[i].id == db.projects[i].id
      ensures db.pendingProjects == map[] ==> r == db.projects
    {
      db.ProjectView()
    }

    /** `update`: `commit` and `refresh`. What the session's objects hold is
        written, the given project's included; the project is passed as the
        session's object, and comes back with the values now stored. */
    method Update(project: ProjectRow) returns (updated: ProjectRow)
      requires db.Valid() && GetById(project.id).Some?
      modifies db
      ensures db.Valid()
      ensures Some(updated) == old(GetById(project.id))
      ensures db.Settled(old(db.ProjectView()), old(db.TaskView()))
      ensures db.nextProjectId == old(db.nextProjectId) && db.nextTaskId == old(db.nextTaskId)
    {
      updated := GetById(project.id).value;
      db.Commit();
    }

    /** `delete`: when the project exists, `delete` and `commit` write every
        pending value and remove it, giving `true`; otherwise `false` and
        nothing happens. */
    method Delete(projectId: int) returns (deleted: bool)
      requires db.Valid()
      modifies db
      ensures db.Valid()
      ensures deleted <==> old(GetById(projectId)).Some?
      ensures deleted ==> && db.Settled(Tables.Without(old(db.ProjectView()), projectId, ProjectKey), old(db.TaskView()))
                          && |db.projects| == |old(db.projects)| - 1
                          && db.nextProjectId == old(db.nextProjectId) && db.nextTaskId == old(db.nextTaskId)
      ensures !deleted ==> unchanged(db)
    {
      var project := GetById(projectId);
      if project.Some? {
        var k := Seqs.IndexWhere(db.projects, HasId(projectId)).value;
        db.Commit();
        Tables.WithoutPresent(db.projects, k, ProjectKey);
        Tables.WithoutAscending(db.projects, projectId, ProjectKey);
        db.projects := Tables.Without(db.projects, projectId, ProjectKey);
        deleted := true;
      } else {
        deleted := false;
      }
    }

    /** `count`: the number of stored projects. */
    function Count(): (n: nat)
      requires db.Valid()
      reads db
      ensures n == |GetAll()|
    {
      |db.projects|
    }
  }
}
