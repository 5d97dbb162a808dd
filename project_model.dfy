/** The `Project` row of models/project.py and the name property the services
    maintain. The `name` column carries no unique constraint. */
module ProjectModel {

  /** The columns of one project. `id` is 0 until the store assigns one. */
  datatype ProjectRow = ProjectRow(id: int, name: string, description: string)

  function HasId(projectId: int): ProjectRow -> bool
  {
    (p: ProjectRow) => p.id == projectId
  }

  function HasName(name: string): ProjectRow -> bool
  {
    (p: ProjectRow) => p.name == name
  }

  /** No two projects share a name. */
  predicate UniqueNames(rows: seq<ProjectRow>)
  {
    forall i, j :: 0 <= i < j < |rows| ==> rows[i].name != rows[j].name
  }
}
