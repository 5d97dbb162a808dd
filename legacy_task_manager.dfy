/** task_manager.py: the legacy task adder over the shared project list. */
module LegacyTaskManager {
  import opened Wrappers
  import opened Errors
  import opened LegacyModels
  import opened LegacyValidators
  import opened LegacyStorage
  import Seqs

  function HasId(projectId: int): Project -> bool
  {
    (p: Project) => p.id == projectId
  }

  /** Appending the next task to a project below the task limit keeps the
      shared list consistent. */
  lemma AppendKeepsConsistent(projects: seq<Project>, i: nat, task: Task)
    requires i < |projects|
    requires |projects[i].tasks| < MAX_TASKS && task.id == |projects[i].tasks| + 1
    ensures Consistent(projects) ==> Consistent(projects[i := projects[i].(tasks := projects[i].tasks + [task])])
  {
    if Consistent(projects) {
      var after := projects[i := projects[i].(tasks := projects[i].tasks + [task])];
      assert TaskIdsSequential(after[i]);
    }
  }

  class TaskManager {
    const storage: Storage

    constructor (shared: Storage)
      ensures storage == shared
    {
      storage := shared;
    }

    /** `add_task`: find the first project with the id, validate against its
        tasks, then append a task whose id is that list's length plus one.
        Only that project changes. */
    method AddTask(projectId: int, title: string, description: string, deadline: Option<string> := None)
      returns (r: Result<Task, Error>)
      modifies storage
      ensures var k := Seqs.IndexWhere(old(storage.projects), HasId(projectId));
              && (k.None? ==> r == Err(ValueError(ProjectMissing)) && storage.projects == old(storage.projects))
              && (k.Some? ==>
                    var p := old(storage.projects)[k.value];
                    && (ValidateTask(title, description, p.tasks).Some? ==>
                          r == Err(ValidateTask(title, description, p.tasks).value)
                          && storage.projects == old(storage.projects))
                    && (ValidateTask(title, description, p.tasks).None? ==>
                          r == Ok(NewTask(|p.tasks| + 1, title, description, deadline := deadline))
                          && storage.projects == old(storage.projects)[k.value := p.(tasks := p.tasks + [r.value])]))
      ensures Consistent(old(storage.projects)) ==> Consistent(storage.projects)
    {
      var projects := storage.projects;
      var i := 0;
      while i < |projects| && projects[i].id != projectId
        invariant 0 <= i <= |projects|
        invariant forall j :: 0 <= j < i ==> projects[j].id != projectId
      {
        i := i + 1;
      }
      if i == |projects| {
        return Err(ValueError(ProjectMissing));
      }
      var project := projects[i];
      var e := ValidateTask(title, description, project.tasks);
      if e.Some? {
        return Err(e.value);
      }
      var taskId := |project.tasks| + 1;
      var task := NewTask(taskId, title, description, deadline := deadline);
      AppendKeepsConsistent(projects, i, task);
      storage.projects := projects[i := project.(tasks := project.tasks + [task])];
      r := Ok(task);
    }
  }
}
