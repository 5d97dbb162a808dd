/** repositories/task_repository.py: queries and writes on the `tasks` table
    through a session. Filters read the stored values and the results are the
    session's objects; `create`, `update` and `delete` each end in a commit of
    the whole session. */
module TaskRepo {
  import opened Wrappers
  import opened Time
  import opened TaskModel
  import opened Sessions
  import Seqs
  import Tables

  function HasId(taskId: int): TaskRow -> bool
  {
    (t: TaskRow) => t.id == taskId
  }

  function InProject(projectId: int): TaskRow -> bool
  {
    (t: TaskRow) => t.projectId == projectId
  }

  /** The filter of `get_overdue_tasks`: `deadline < current_time AND status != 'done'`.
      The date is compared as its midnight; a NULL deadline never compares, so a
      task without a deadline is never overdue. */
  predicate IsOverdue(t: TaskRow, now: Instant)
  {
    t.deadline.Some? && Midnight(t.deadline.value) < now && t.status != "done"
  }

  function OverdueAt(now: Instant): TaskRow -> bool
  {
    (t: TaskRow) => IsOverdue(t, now)
  }

  class TaskRepository {
    const db: Session

    constructor (session: Session)
      ensures db == session
    {
      db := session;
    }

    /** `create`: `add` and `commit`. Every pending value is written and the
        task is inserted under the next id. */
    method Create(task: TaskRow) returns (created: TaskRow)
      requires db.Valid()
      modifies db
      ensures db.Valid()
      ensures created == task.(id := old(db.nextTaskId))
      ensures db.Settled(old(db.ProjectView()), old(db.TaskView()) + [created])
      ensures db.nextTaskId == old(db.nextTaskId) + 1 && db.nextProjectId == old(db.nextProjectId)
    {
      db.Commit();
      created := task.(id := db.nextTaskId);
      db.tasks := db.tasks + [created];
      db.nextTaskId := db.nextTaskId + 1;
    }

    /** `get_by_id`: the session's object for the task with that id, or `None`. */
    function GetById(taskId: int): (r: Option<TaskRow>)
      requires db.Valid()
      reads db
      ensures r.None? <==> forall i :: 0 <= i < |db.tasks| ==> db.tasks[i].id != taskId
      ensures r.Some? ==> r.value in db.TaskView() && r.value.id == taskId
    {
      match Seqs.IndexWhere(db.tasks, HasId(taskId))
      case None => None
      case Some(i) => Some(db.TaskView()[i])
    }

    /** `get_by_project_id`: the objects of exactly the tasks stored under
        that project. */
    function GetByProjectId(projectId: int): (r: seq<TaskRow>)
      requires db.Valid()
      reads db
      ensures forall i :: 0 <= i < |r| ==> r[i] in db.TaskView()
      ensures forall i :: 0 <= i < |db.tasks| ==> (db.TaskView()[i] in r <==> db.tasks[i].projectId == projectId)
    {
      Tables.Select(db.tasks, db.pendingTasks, InProject(projectId), TaskKey)
    }

    /** `get_overdue_tasks(current_time)`: the objects of exactly the tasks
        whose stored values are overdue. */
    function GetOverdueTasks(now: Instant): (r: seq<TaskRow>)
      requires db.Valid()
      reads db
      ensures forall i :: 0 <= i < |r| ==> r[i] in db.TaskView()
      ensures forall i :: 0 <= i < |db.tasks| ==> (db.TaskView()[i] in r <==> IsOverdue(db.tasks[i], now))
    {
      Tables.Select(db.tasks, db.pendingTasks, OverdueAt(now), TaskKey)
    }

    /** `update`: `commit` and `refresh`. What the session's objects hold is
        written, the given task's included; the task is passed as the
        session's object, and comes back with the values now stored. */
    method Update(task: TaskRow) returns (updated: TaskRow)
      requires db.Valid() && GetById(task.id).Some?
      modifies db
      ensures db.Valid()
      ensures Some(updated) == old(GetById(task.id))
      ensures db.Settled(old(db.ProjectView()), old(db.TaskView()))
      ensures db.nextProjectId == old(db.nextProjectId) && db.nextTaskId == old(db.nextTaskId)
    {
      updated := GetById(task.id).value;
      db.Commit();
    }

    /** `delete`: when the task exists, `delete` and `commit` write every
        pending value and remove it, giving `true`; otherwise `false` and
        nothing happens. */
    method Delete(taskId: int) returns (deleted: bool)
      requires db.Valid()
      modifies db
      ensures db.Valid()
      ensures deleted <==> old(GetById(taskId)).Some?
      ensures deleted ==> && db.Settled(old(db.ProjectView()), Tables.Without(old(db.TaskView()), taskId, TaskKey))
                          && |db.tasks| == |old(db.tasks)| - 1
                          && db.nextProjectId == old(db.nextProjectId) && db.nextTaskId == old(db.nextTaskId)
      ensures !deleted ==> unchanged(db)
    {
      var task := GetById(taskId);
      if task.Some? {
        var k := Seqs.IndexWhere(db.tasks, HasId(taskId)).value;
        db.Commit();
        Tables.WithoutPresent(db.tasks, k, TaskKey);
        Tables.WithoutAscending(db.tasks, taskId, TaskKey);
        db.tasks := Tables.Without(db.tasks, taskId, TaskKey);
        deleted := true;
      } else {
        deleted := false;
      }
    }

    /** `count_by_project`: the number of tasks `get_by_project_id` lists. */
    function CountByProject(projectId: int): (n: nat)
      requires db.Valid()
      reads db
      ensures n == |GetByProjectId(projectId)|
    {
      Seqs.CountIsFilterLength(db.tasks, InProject(projectId));
      Seqs.CountWhere(db.tasks, InProject(projectId))
    }
  }
}
