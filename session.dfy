/** The SQLAlchemy session of db/session.py, made with `autocommit=False` and
    `autoflush=False`, over the `project` and `tasks` tables. The tables hold
    what has been committed. A value assigned to an object the session has
    loaded stays pending on that object: queries still filter on the stored
    values but hand back the object with its pending values, and the next
    commit, whichever repository issues it, writes every pending value of both
    tables. */
module Sessions {
  import opened TaskModel
  import opened ProjectModel
  import Tables

  function ProjectKey(p: ProjectRow): int
  {
    p.id
  }

  function TaskKey(t: TaskRow): int
  {
    t.id
  }

  class Session {
    var projects: seq<ProjectRow>
    var tasks: seq<TaskRow>
    var nextProjectId: int
    var nextTaskId: int
    /** Values assigned to loaded objects and not yet written, by primary key. */
    var pendingProjects: map<int, ProjectRow>
    var pendingTasks: map<int, TaskRow>

    ghost predicate Valid()
      reads this
    {
      && Tables.Numbered(projects, ProjectKey, nextProjectId) && Tables.KeyedBy(pendingProjects, ProjectKey)
      && Tables.Numbered(tasks, TaskKey, nextTaskId) && Tables.KeyedBy(pendingTasks, TaskKey)
    }

    /** The projects as the session's objects show them. */
    function ProjectView(): seq<ProjectRow>
      reads this
    {
      Tables.Flush(projects, pendingProjects, ProjectKey)
    }

    /** The tasks as the session's objects show them. */
    function TaskView(): seq<TaskRow>
      reads this
    {
      Tables.Flush(tasks, pendingTasks, TaskKey)
    }

    /** Nothing is pending and the tables hold exactly `projectRows` and `taskRows`. */
    predicate Settled(projectRows: seq<ProjectRow>, taskRows: seq<TaskRow>)
      reads this
    {
      projects == projectRows && tasks == taskRows && pendingProjects == map[] && pendingTasks == map[]
    }

    /** Since the previous state only task objects were assigned to. */
    twostate predicate TaskObjectsAssigned()
      reads this
    {
      && projects == old(projects) && tasks == old(tasks) && pendingProjects == old(pendingProjects)
      && nextProjectId == old(nextProjectId) && nextTaskId == old(nextTaskId)
    }

    /** Since the previous state only project objects were assigned to. */
    twostate predicate ProjectObjectsAssigned()
      reads this
    {
      && projects == old(projects) && tasks == old(tasks) && pendingTasks == old(pendingTasks)
      && nextProjectId == old(nextProjectId) && nextTaskId == old(nextTaskId)
    }

    /** A session on empty tables whose autoincrement counters start at 1. */
    constructor ()
      ensures Valid() && Settled([], [])
      ensures nextProjectId == 1 && nextTaskId == 1
    {
      projects, tasks, nextProjectId, nextTaskId := [], [], 1, 1;
      pendingProjects, pendingTasks := map[], map[];
    }

    /** `commit()`: every pending value of both tables is written. */
    method Commit()
      requires Valid()
      modifies this
      ensures Valid() && Settled(old(ProjectView()), old(TaskView()))
      ensures nextProjectId == old(nextProjectId) && nextTaskId == old(nextTaskId)
    {
      Tables.FlushNumbered(projects, pendingProjects, ProjectKey, nextProjectId);
      Tables.FlushNumbered(tasks, pendingTasks, TaskKey, nextTaskId);
      projects, tasks := ProjectView(), TaskView();
      pendingProjects, pendingTasks := map[], map[];
    }

    /** Assigning to the attributes of the loaded project with key `p.id`: that
        object now holds `p`, and nothing is written. */
    method AssignProject(p: ProjectRow)
      requires Valid()
      modifies this
      ensures Valid() && ProjectObjectsAssigned()
      ensures pendingProjects == old(pendingProjects)[p.id := p]
      ensures ProjectView() == Tables.Replace(old(ProjectView()), p, ProjectKey)
    {
      Tables.FlushAssign(projects, pendingProjects, p, ProjectKey);
      pendingProjects := pendingProjects[p.id := p];
    }

    /** Assigning to the attributes of the loaded task with key `t.id`: that
        object now holds `t`, and nothing is written. */
    method AssignTask(t: TaskRow)
      requires Valid()
      modifies this
      ensures Valid() && TaskObjectsAssigned()
      ensures pendingTasks == old(pendingTasks)[t.id := t]
      ensures TaskView() == Tables.Replace(old(TaskView()), t, TaskKey)
    {
      Tables.FlushAssign(tasks, pendingTasks, t, TaskKey);
      pendingTasks := pendingTasks[t.id := t];
    }
  }
}
