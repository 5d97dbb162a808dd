/** validators.py: the legacy pre-creation checks. Each raises the built-in
    `ValueError`; lengths count whitespace-separated words. */
module LegacyValidators {
  import opened Wrappers
  import opened Errors
  import opened LegacyModels
  import Text
  import ProjectModel
  import ProjectServices

  /** `MAX_NUMBER_OF_PROJECT` with its default. */
  const MAX_PROJECTS: int := 5
  /** `MAX_NUMBER_OF_TASK` with its default. */
  const MAX_TASKS: int := 10
  const MAX_NAME_WORDS: nat := 30
  const MAX_DESCRIPTION_WORDS: nat := 150

  /** `any(p.name == name for p in existing_projects)`. */
  predicate NameTaken(name: string, existing: seq<Project>)
  {
    exists i :: 0 <= i < |existing| && existing[i].name == name
  }

  predicate WordsWithin(name: string, description: string)
  {
    |Text.Split(name)| <= MAX_NAME_WORDS && |Text.Split(description)| <= MAX_DESCRIPTION_WORDS
  }

  /** `validate_project`: length, then duplicate name, then the project limit. */
  function ValidateProject(name: string, description: string, existing: seq<Project>): (e: Option<Error>)
    ensures e.None? <==> WordsWithin(name, description) && !NameTaken(name, existing) && |existing| < MAX_PROJECTS
    ensures e.Some? ==> e.value.IsValueError()
    ensures !WordsWithin(name, description) ==> e == Some(ValueError(TooLong))
    ensures e == Some(ValueError(DuplicateName)) <==> WordsWithin(name, description) && NameTaken(name, existing)
    ensures e == Some(ValueError(LimitReached)) <==>
              WordsWithin(name, description) && !NameTaken(name, existing) && |existing| >= MAX_PROJECTS
  {
    if !WordsWithin(name, description) then Some(ValueError(TooLong))
    else if NameTaken(name, existing) then Some(ValueError(DuplicateName))
    else if |existing| >= MAX_PROJECTS then Some(ValueError(LimitReached))
    else None
  }

  /** `validate_task`: length, then the per-project task limit. */
  function ValidateTask(title: string, description: string, existingTasks: seq<Task>): (e: Option<Error>)
    ensures e.None? <==> WordsWithin(title, description) && |existingTasks| < MAX_TASKS
    ensures !WordsWithin(title, description) ==> e == Some(ValueError(TooLong))
    ensures e == Some(ValueError(LimitReached)) <==> WordsWithin(title, description) && |existingTasks| >= MAX_TASKS
  {
    if !WordsWithin(title, description) then Some(ValueError(TooLong))
    else if |existingTasks| >= MAX_TASKS then Some(ValueError(LimitReached))
    else None
  }

  /** The legacy check and the database service's `create_project` (with its
      default limit) accept the same requests and refuse them for the same
      reasons, under their own exception types. */
  lemma ValidateProjectAgreesWithService(name: string, description: string, existing: seq<Project>,
                                         sameName: Option<ProjectModel.ProjectRow>)
    requires sameName.Some? <==> NameTaken(name, existing)
    ensures var service := ProjectServices.CreateProjectOutcome(name, description, sameName, |existing|,
                                                                ProjectServices.DEFAULT_MAX_PROJECTS);
            && (ValidateProject(name, description, existing).None? <==> service.None?)
            && (ValidateProject(name, description, existing) == Some(ValueError(TooLong)) <==>
                  service.Some? && service.value.IsValidationError())
            && (ValidateProject(name, description, existing) == Some(ValueError(DuplicateName)) <==>
                  service == Some(ProjectNameExistsError))
            && (ValidateProject(name, description, existing) == Some(ValueError(LimitReached)) <==>
                  service == Some(ProjectLimitExceededError))
  {
  }
}
