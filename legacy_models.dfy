/** models.py: the plain records of the legacy in-memory variant. Nothing is
    validated on construction. */
module LegacyModels {
  import opened Wrappers

  const DEFAULT_STATUS: string := "todo"

  /** A legacy task; `deadline` is whatever text was passed, unchecked. */
  datatype Task = Task(id: int, title: string, description: string, status: string, deadline: Option<string>)

  /** A legacy project with the list of its tasks. */
  datatype Project = Project(id: int, name: string, description: string, tasks: seq<Task>)

  /** `Project(project_id, name, description="")`: the arguments as given and no tasks. */
  function NewProject(projectId: int, name: string, description: string := ""): (p: Project)
    ensures p.id == projectId && p.name == name && p.description == description
    ensures p.tasks == []
  {
    Project(projectId, name, description, [])
  }

  /** `Task(id, title, description, status="todo", deadline=None)`: any status
      string and any deadline are stored as given. */
  function NewTask(id: int, title: string, description: string,
                   status: string := DEFAULT_STATUS, deadline: Option<string> := None): (t: Task)
    ensures t.id == id && t.title == title && t.description == description
    ensures t.status == status && t.deadline == deadline
  {
    Task(id, title, description, status, deadline)
  }
}
