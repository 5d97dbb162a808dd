/** project_manager.py: the legacy project creator over the shared list. */
module LegacyProjectManager {
  import opened Wrappers
  import opened Errors
  import opened LegacyModels
  import opened LegacyValidators
  import opened LegacyStorage

  class ProjectManager {
    const storage: Storage

    constructor (shared: Storage)
      ensures storage == shared
    {
      storage := shared;
    }

    /** `create_project`: validate against the whole list, then append a new
        project whose id is the list length plus one. */
    method CreateProject(name: string, description: string) returns (r: Result<Project, Error>)
      modifies storage
      ensures var e := ValidateProject(name, description, old(storage.projects));
              && (e.Some? ==> r == Err(e.value) && storage.projects == old(storage.projects))
              && (e.None? ==> r == Ok(NewProject(|old(storage.projects)| + 1, name, description))
                              && storage.projects == old(storage.projects) + [r.value])
      ensures Consistent(old(storage.projects)) ==> Consistent(storage.projects)
      ensures r.Ok? ==> |storage.projects| <= MAX_PROJECTS
    {
      var e := ValidateProject(name, description, storage.projects);
      if e.Some? {
        return Err(e.value);
      }
      var projectId := |storage.projects| + 1;
      var project := NewProject(projectId, name, description);
      storage.projects := storage.projects + [project];
      r := Ok(project);
    }
  }
}
