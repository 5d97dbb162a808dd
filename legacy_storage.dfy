/** The shared list of projects the legacy managers append to, and the shape
    the legacy managers keep it in. */
module LegacyStorage {
  import opened LegacyModels
  import LegacyValidators

  /** The single shared store; `projects` is changed in place. */
  class Storage {
    var projects: seq<Project>

    constructor ()
      ensures projects == []
    {
      projects := [];
    }
  }

  /** Task ids within a project run 1..n in list order. */
  predicate TaskIdsSequential(p: Project)
  {
    forall j :: 0 <= j < |p.tasks| ==> p.tasks[j].id == j + 1
  }

  /** What the legacy managers maintain when they are the only writers:
      project ids run 1..n, names are unique, and both limits hold. */
  predicate Consistent(projects: seq<Project>)
  {
    && |projects| <= LegacyValidators.MAX_PROJECTS
    && (forall i :: 0 <= i < |projects| ==> projects[i].id == i + 1)
    && (forall i, j :: 0 <= i < j < |projects| ==> projects[i].name != projects[j].name)
    && (forall i :: 0 <= i < |projects| ==>
          TaskIdsSequential(projects[i]) && |projects[i].tasks| <= LegacyValidators.MAX_TASKS)
  }
}
