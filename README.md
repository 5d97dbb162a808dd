# ToDoList constraint layer in Dafny

This project models the project/task rules of the ToDoList tracker and proves
properties about them. It covers three layers and the request schemas.

- **The `Task` entity** (models/task.py). It covers field validation, `change_status` with its
  `closed_at` bookkeeping, and `edit` with its rollback. That rollback catches only `ValueError`.
- **The database-backed services** (services/task_manager.py, services/project_manager.py) and
  the two repositories they call. Both repositories share one session. The session keeps each
  table as a sequence of rows in primary-key order.
- **The legacy in-memory variant.** It consists of validators.py, task_manager.py,
  project_manager.py and models.py. It is a shared list of projects, and new ids are the list
  length plus one.
- **The request schemas** (api/controller_schemas/requests/). Field bounds are checked on the raw
  value, then the validator strips it. All failures are reported together.

The modelling choices, layer by layer:

- **Errors.** The exception hierarchy is one datatype (`Errors.Error`). `ValidationError`, and with
  it `InvalidDeadlineError`, is an application error. It is never caught by `except ValueError`.
  The built-in `ValueError` is a separate case.
- **Time.** The current instant `now` (seconds) and today's date `today` (days) are parameters.
  `Time.Today` and `Time.Midnight` relate the two. Parsing a `YYYY-MM-DD` string is a parameter
  `parse: string -> Option<Day>`.
- **Session.** db/session.py makes sessions with `autocommit=False` and `autoflush=False`. The
  `Sessions.Session` class holds the committed `project` and `tasks` tables and the two
  autoincrement counters. It also holds, per table, the values assigned to loaded objects and not
  yet written. Queries filter on the committed values and hand back the objects with their pending
  values. Every commit, whichever repository issues it, writes all pending values of both tables.
  So when a check fails after an assignment, the assignment stays pending, and the next commit of
  any operation writes it.

Modules, one per source file:

- `TaskModel`: models/task.py.
- `ProjectModel`: the project row of models/project.py.
- `Sessions`: the session of db/session.py.
- `TaskRepo` and `ProjectRepo`: the repositories.
- `TaskServices` and `ProjectServices`: the database-backed services.
- `LegacyModels`, `LegacyValidators`, `LegacyStorage`, `LegacyTaskManager` and
  `LegacyProjectManager`: the legacy variant.
- `RequestFields`, `TaskRequests` and `ProjectRequests`: the request schemas.

Helper modules:

- `Text`: Python's `str.strip` and `str.split`, over Python's whitespace set.
- `Seqs` and `Tables`: filters, first-match lookups, replace-by-key and delete-by-key.
- `Time`: the clock arithmetic above.
- `Wrappers`: `Option` and `Result`.

Places where the code does something other than what its own names, comments or settings suggest:

- **Edits are not atomic.** `Task.edit`, `update_task` and `update_project` leave earlier
  assignments in place when a later check fails. In the services these assignments stay pending
  and are written by the next commit.
- **Deleting a project does not delete its tasks.** The tasks' foreign key declares
  `ondelete="CASCADE"` (models/task.py:35), but it names a table `projects`, while the project
  table is called `project`. The relationship at models/project.py:13 configures no ORM cascade.
- **The limits are the managers' defaults.** `create_project` and `create_task` default to 5
  projects and 10 tasks per project (services/project_manager.py:27, services/task_manager.py:35).
  The configured `MAX_NUMBER_OF_PROJECT` and `MAX_NUMBER_OF_TASK` (50 and 500, config.py:25-26)
  are not read by them.
- **The closing pass sets only the status.** The docstring of `close_overdue_tasks`
  (services/task_manager.py:267) says it adds `closed_at`, but the loop assigns only the status.

## Model

| member | source | states |
|---|---|---|
| TaskModel.CheckTitle | models/task.py:55-60 | a title is accepted iff it is a string, not blank after stripping, and at most 30 characters; a blank or non-string title is reported as empty |
| TaskModel.CheckDescription | models/task.py:62-67 | `None` becomes ""; a given description is accepted unchanged iff it has at most 150 characters, else `ValidationError` |
| TaskModel.CheckStatus | models/task.py:85-88 | a status is accepted iff it is "todo", "doing" or "done" |
| TaskModel.CheckDeadline | models/task.py:69-83 | `None` passes; text that does not parse is a format `ValidationError`; a date, given or parsed, is kept iff it is not before today, else `InvalidDeadlineError`; every error is a `ValidationError` |
| TaskModel.Construct | models/task.py:47-53 | construction succeeds iff all four checks pass; otherwise the first failure in the order title, description, status, deadline is raised, with that check's own error; a new task has the given title, status and project, no `closed_at`, the normalised description and the checked deadline |
| TaskModel.ConstructedDoneTaskHasNoClosedAt | models/task.py:47-53 | a task constructed with status "done" is done but has no `closed_at` |
| TaskModel.ClosedAtAfter | models/task.py:107-111 | after a status change `closed_at` is set iff the status is "done"; an existing one is kept, otherwise it becomes now |
| TaskModel.EditOutcome | models/task.py:117-178 | `edit` never changes the id, the project or the creation time |
| TaskModel.EditDeadlineStep | models/task.py:160-178 | the deadline step of `edit`: no deadline changes nothing; a date or parsed text is assigned, and raises `InvalidDeadlineError` iff it is before today; text that does not parse raises `ValueError` and restores title, description, status and deadline while `closed_at` stays |
| TaskModel.EditRollsBackOnlyOnBadDeadlineText | models/task.py:161-178 | `edit` raises `ValueError` iff every earlier check passed and the deadline text does not parse; it then restores every field except `closed_at` |
| TaskModel.EditKeepsTitleOnValidationError | models/task.py:141-172 | when `edit` raises a `ValidationError`, a given title stays assigned, even when the title was the failing field |
| TaskModel.EditLeavesPartialWrites | models/task.py:141-148 | a valid title followed by an over-long description raises, and both new values stay |
| TaskModel.EditRollbackBreaksClosedIffDone | models/task.py:150-177 | marking a task done together with an unparseable deadline restores the status but keeps the new `closed_at` |
| TaskModel.EditSuccess | models/task.py:141-170 | a successful `edit` stores every given value, all of them valid; a given deadline is stored as the day it names, not before today; `closed_at` stays set exactly when done |
| TaskModel.EditSucceedsIff | models/task.py:117-178 | `edit` succeeds iff every given field passes its entity check |
| TaskModel.EditRefusesPastDate | models/task.py:173-178 | a date before today is assigned and then refused with `InvalidDeadlineError`, and it stays assigned |
| TaskModel.Task.ChangeStatus | models/task.py:90-115 | an invalid status raises with the task untouched; otherwise only status and `closed_at` change, and `closed_at` set exactly when done is preserved |
| TaskModel.Task.Edit | models/task.py:117-178 | the fields assigned one at a time end exactly as `EditOutcome` describes, with the same error |
| TaskModel.Task.AssignDeadline | models/task.py:160-178 | the deadline assignment and its rollback leave the object as `EditDeadlineStep` describes |
| Sessions.Session.constructor | db/session.py:24-35 | a new session has empty tables, nothing pending and both counters at 1 |
| Sessions.Session.Commit | db/session.py:24-29 | a commit writes the pending values of both tables, so the tables become what the objects showed, with nothing pending |
| Sessions.Session.AssignProject | db/session.py:24-29 | assigning to a loaded project object changes what that object shows and writes nothing |
| Sessions.Session.AssignTask | db/session.py:24-29 | assigning to a loaded task object changes what that object shows and writes nothing |
| TaskRepo.TaskRepository.Create | repositories/task_repository.py:13-18 | the commit writes everything pending, and the task gets the next id and is appended |
| TaskRepo.TaskRepository.GetById | repositories/task_repository.py:20-22 | the session's object for the task with that id, or `None` exactly when no stored task has that id |
| TaskRepo.TaskRepository.GetByProjectId | repositories/task_repository.py:24-26 | a task's object is listed iff its stored project id matches, and only session objects are listed |
| TaskRepo.TaskRepository.GetOverdueTasks | repositories/task_repository.py:28-36 | a task's object is listed iff its stored values have a deadline whose midnight is before now and a status other than "done"; tasks without a deadline never appear |
| TaskRepo.TaskRepository.Update | repositories/task_repository.py:38-42 | the commit writes every pending value of both tables, and the task comes back as the session's object |
| TaskRepo.TaskRepository.Delete | repositories/task_repository.py:44-51 | `true` iff the task existed; then everything pending is written and exactly that row is removed; otherwise nothing changes |
| TaskRepo.TaskRepository.CountByProject | repositories/task_repository.py:53-55 | equals the length of `GetByProjectId` for the same project |
| ProjectRepo.ProjectRepository.Create | repositories/project_repository.py:12-17 | the commit writes everything pending, and the project gets the next id and is appended |
| ProjectRepo.ProjectRepository.GetById | repositories/project_repository.py:19-21 | the session's object for the project with that id, or `None` exactly when none has it |
| ProjectRepo.ProjectRepository.GetByName | repositories/project_repository.py:23-25 | the object of a project whose stored name equals the argument, or `None` exactly when no stored name does; a name assigned but not committed is not found |
| ProjectRepo.ProjectRepository.GetAll | repositories/project_repository.py:27-29 | one object per stored project, in order, showing the stored rows when nothing is pending |
| ProjectRepo.ProjectRepository.Update | repositories/project_repository.py:31-35 | the commit writes every pending value of both tables, and the project comes back as the session's object |
| ProjectRepo.ProjectRepository.Delete | repositories/project_repository.py:37-44 | `true` iff the project existed; then everything pending is written and exactly that row is removed; otherwise nothing changes |
| ProjectRepo.ProjectRepository.Count | repositories/project_repository.py:46-48 | the number of projects `GetAll` lists |
| TaskServices.ResolveTask | services/task_manager.py:108-119 | a missing project is reported first; a missing task or one of another project is `TaskNotFoundError`; the lookup succeeds iff both exist and match |
| TaskServices.ServiceDeadline | services/task_manager.py:74-80 | unparseable text is a `ValidationError`; a parsed date is accepted iff its midnight is not before now, so an accepted date is never before today |
| TaskServices.ServiceRefusesToday | services/task_manager.py:74-80 | once the day has begun the service refuses today's date, which the entity's own check accepts |
| TaskServices.RequestedDeadline | services/task_manager.py:73-80 | an absent or empty deadline is no deadline; otherwise the service check decides, with its own error, and an accepted one is a date whose midnight is not before now |
| TaskServices.CreateTaskOutcome | services/task_manager.py:55-89 | errors come in the order project, title words, description words, task limit, deadline, entity checks, each with its own error value; a created task belongs to the project, is "todo" with no `closed_at`, and its deadline is the day `ServiceDeadline` accepted, which is not before now |
| TaskServices.CreateSucceedsIff | services/task_manager.py:55-89 | `create_task` succeeds iff the project exists, there is room, the deadline passes the service check, and title and description pass the entity's checks |
| TaskServices.CreateTaskOutcomeAsWritten | services/task_manager.py:73-89 | as written, every request with a deadline fails; without one the outcome is `CreateTaskOutcome`'s |
| TaskServices.CreateWithDeadlineRaisesTypeError | models/task.py:81-83 | a request accepted in every other respect raises `TypeError` as written, while the corrected outcome stores the deadline |
| TaskServices.WordLimitsImpliedByCharacterLimits | services/task_manager.py:61-65 | a title and a description within the entity's character limits are also within the service's word limits |
| TaskServices.UpdateOutcome | services/task_manager.py:165-188 | `update_task` succeeds iff every given field passes its check; each failure gives its own error and keeps the deadline; on success every given value is stored, "" clears the deadline, and only title, description and deadline can change |
| TaskServices.TitleStep | services/task_manager.py:165-169 | an absent or empty title changes nothing; the step fails iff the title has over 30 words, and then changes nothing; otherwise exactly the title is written |
| TaskServices.DescriptionStep | services/task_manager.py:171-175 | an absent or empty description changes nothing; the step fails iff it has over 150 words, and then changes nothing; otherwise exactly the description is written |
| TaskServices.DeadlineStep | services/task_manager.py:176-187 | an absent deadline changes nothing and "" clears it; other text fails iff the service check refuses it, with that error and nothing changed; otherwise exactly the deadline is written as the accepted day |
| TaskServices.UpdateKeepsEarlierWrites | services/task_manager.py:165-188 | a valid title and description followed by an unparseable deadline raise and leave both new values in place |
| TaskServices.CloseOverdue | services/task_manager.py:265-281 | every task stored as overdue is written "done", every other task as its object held it, and every other field as its object held it |
| TaskServices.SecondPassClosesNothing | services/task_manager.py:265-281 | with nothing pending, after one pass nothing is overdue at the same instant, so a second pass changes nothing |
| TaskServices.PendingDeadlineNotClosed | repositories/task_repository.py:28-36 | a past deadline assigned but not committed does not make a task overdue, and the pass writes it without closing the task |
| TaskServices.ClosedOverdueTaskHasNoClosedAt | services/task_manager.py:275-278 | an overdue task closed by the pass is done yet has no `closed_at` |
| TaskServices.TaskManager.CreateTask | services/task_manager.py:34-89 | on error the error of `CreateTaskOutcome` and nothing changed; on success everything pending is written and exactly its task is appended under the next id |
| TaskServices.TaskManager.ChangeStatus | services/task_manager.py:91-128 | lookup errors and an invalid status leave the session unchanged; otherwise the task's object takes the new status and the commit writes it with everything pending |
| TaskServices.TaskManager.UpdateTask | services/task_manager.py:130-190 | lookup errors leave the session unchanged; on an `UpdateOutcome` error its earlier assignments stay pending on the object; on success the commit writes the row `UpdateOutcome` gives |
| TaskServices.TaskManager.WriteFields | services/task_manager.py:165-188 | the field assignments leave the object holding the row `UpdateOutcome` gives, with its error, and write nothing |
| TaskServices.TaskManager.WriteTitle | services/task_manager.py:165-169 | the object afterwards holds exactly the row `TitleStep` gives |
| TaskServices.TaskManager.WriteDescription | services/task_manager.py:171-175 | the object afterwards holds exactly the row `DescriptionStep` gives |
| TaskServices.TaskManager.WriteDeadline | services/task_manager.py:176-187 | the object afterwards holds exactly the row `DeadlineStep` gives |
| TaskServices.TaskManager.DeleteTask | services/task_manager.py:192-221 | lookup errors leave the session unchanged; otherwise the result is `true`, everything pending is written and exactly that task is removed |
| TaskServices.TaskManager.GetTasksByProject | services/task_manager.py:223-241 | `ProjectNotFoundError` iff the project does not exist, otherwise exactly its tasks |
| TaskServices.TaskManager.CountTasksByProject | services/task_manager.py:243-253 | the number of tasks listed for that project id, without a project check |
| TaskServices.TaskManager.GetOverdueTasks | services/task_manager.py:255-263 | exactly the tasks whose stored values are overdue at now |
| TaskServices.TaskManager.CloseOverdueTasks | services/task_manager.py:265-281 | returns the number of tasks overdue before the pass; with none nothing changes, otherwise the tables become `CloseOverdue`; with nothing pending before, nothing is overdue after |
| TaskServices.TaskManager.CloseEach | services/task_manager.py:273-281 | after the loop every listed object is "done" and committed with everything pending, and the count is the number listed; with none listed nothing changes |
| ProjectServices.CreateProjectOutcome | services/project_manager.py:44-59 | creation is refused iff a word limit is exceeded, the name exists or the count has reached the limit, in that order of precedence |
| ProjectServices.UpdateProjectOutcome | services/project_manager.py:108-134 | `update_project` succeeds iff a given name has at most 30 words and no other project holds it, and a given description has at most 150 words; a name error changes nothing; a description error leaves the new name in place; on success every given value is stored; the id never changes |
| ProjectServices.OwnNameAllowed | services/project_manager.py:118-123 | renaming a project to a name only it holds succeeds |
| ProjectServices.ReplaceKeepsNamesUnique | services/project_manager.py:118-123 | writing back a project whose name no other project holds keeps the names unique |
| ProjectServices.UpdateKeepsNamesUnique | services/project_manager.py:113-134 | over committed rows with unique names, any `update_project` outcome keeps the names unique |
| ProjectServices.UpdateKeepsNameOnDescriptionError | services/project_manager.py:113-131 | a valid rename followed by an over-long description raises and keeps the new name |
| ProjectServices.ProjectManager.CreateProject | services/project_manager.py:27-66 | on error the error of `CreateProjectOutcome` and nothing changed; on success everything pending is written and one project is appended under the next id; with nothing pending and unique names, names stay unique; the count stays within the limit |
| ProjectServices.ProjectManager.GetProject | services/project_manager.py:68-78 | the project with that id, or `None` exactly when none has it |
| ProjectServices.ProjectManager.GetAllProjects | services/project_manager.py:80-87 | one object per stored project |
| ProjectServices.ProjectManager.CountProjects | services/project_manager.py:157-164 | the number of projects `GetAllProjects` lists |
| ProjectServices.ProjectManager.UpdateProject | services/project_manager.py:89-134 | an unknown id is `ProjectNotFoundError` with nothing changed; an `UpdateProjectOutcome` error leaves its assignments pending on the object; success commits its row; from settled unique names the objects' names stay unique |
| ProjectServices.ProjectManager.KeepsNamesUnique | services/project_manager.py:113-134 | from settled unique names, the outcome of `update_project` on a loaded project keeps the names unique |
| ProjectServices.ProjectManager.WriteFields | services/project_manager.py:113-131 | the name and description assignments leave the object holding the row `UpdateProjectOutcome` gives, with its error, and write nothing; from settled unique names the objects' names stay unique |
| ProjectServices.ProjectManager.UpdateProjectAtomically | services/project_manager.py:89-134 | the corrected update: the same results as `UpdateProjectOutcome`, an error changes nothing, and settled unique names stay settled and unique |
| ProjectServices.ProjectManager.DeleteProject | services/project_manager.py:136-155 | an unknown id is `ProjectNotFoundError` with nothing changed; otherwise `true`, everything pending is written and exactly that project is removed, its tasks untouched |
| ProjectServices.RefusedRenameToB | services/project_manager.py:113-131 | after the refused rename of "A" to "B" the object shows "B" while the table still stores "A" |
| ProjectServices.AtomicRefusedRenameToB | services/project_manager.py:113-131 | the corrected update refuses the same rename and leaves the session as it was |
| ProjectServices.DuplicateNameScenario | services/project_manager.py:113-134 | a refused rename of "A" to "B", then `create_project("B")`, stores two projects named "B" |
| ProjectServices.AtomicUpdateScenario | services/project_manager.py:113-134 | the same calls with the corrected update store "A" and "B" |
| LegacyModels.NewProject | models.py:12-24 | a project holds the arguments as given, description "" by default, and starts with no tasks |
| LegacyModels.NewTask | models.py:39-54 | a task holds the arguments as given, with no check of its status; status "todo" and no deadline by default |
| LegacyValidators.ValidateProject | validators.py:10-34 | a project is refused with `ValueError` iff a word limit is exceeded, the name is taken or the limit is reached, in that order of precedence |
| LegacyValidators.ValidateTask | validators.py:37-56 | a task is refused with `ValueError` iff a word limit is exceeded or the project already has the maximum number of tasks, in that order |
| LegacyValidators.ValidateProjectAgreesWithService | validators.py:24-34 | the legacy check and the service's `create_project` accept the same requests and refuse them for corresponding reasons |
| LegacyProjectManager.ProjectManager.CreateProject | project_manager.py:8-13 | a refused project leaves the list unchanged; otherwise one project with id length+1 is appended; ids 1..n, unique names and both limits are preserved |
| LegacyTaskManager.TaskManager.AddTask | task_manager.py:9-17 | the first project with the id is used; a missing project or a refused task changes nothing; otherwise only that project gains one task with id length+1; ids 1..n and both limits are preserved |
| LegacyTaskManager.AppendKeepsConsistent | task_manager.py:13-17 | appending a task numbered length+1 to a project below the task limit keeps project ids 1..n, unique names, task ids 1..n and both limits |
| RequestFields.RequiredStripped | api/controller_schemas/requests/task_requests.py:37-42 | a required string is accepted iff it is given, 1 to max characters long as sent, and not blank; the accepted value is stripped |
| RequestFields.OptionalStripped | api/controller_schemas/requests/task_requests.py:78-83 | an absent or null string passes as `None`; a given one follows the required rules |
| RequestFields.OptionalText | api/controller_schemas/requests/task_requests.py:21-25 | an absent member takes the default, null stays `None`, and a given one passes unchanged iff within the length bound |
| RequestFields.StripKeepsBoundsAndContent | api/controller_schemas/requests/task_requests.py:37-42 | stripping an accepted value keeps it non-blank and within the bound, with no space at either end |
| TaskRequests.TaskStatusMatchesEntity | api/controller_schemas/requests/task_requests.py:8 | `TaskStatus` is exactly the entity's three statuses |
| TaskRequests.OptionalStatus | api/controller_schemas/requests/task_requests.py:27-30 | an absent status takes the default, null stays `None`, and a given one is accepted iff it is in `TaskStatus` |
| TaskRequests.OptionalDeadline | api/controller_schemas/requests/task_requests.py:44-49 | an absent or null deadline passes; a date is accepted iff it is not before today |
| TaskRequests.ParseTaskCreate | api/controller_schemas/requests/task_requests.py:11-49 | accepted iff every field passes, otherwise all failures in declaration order; the title is stripped, and the description defaults to "" and the status to "todo" |
| TaskRequests.CreateRequestFitsEntity | api/controller_schemas/requests/task_requests.py:11-49 | everything the create schema accepts also passes the entity's title, description, status and deadline checks |
| TaskRequests.StrippedTitleFitsEntity | api/controller_schemas/requests/task_requests.py:37-42 | a title of 1 to 30 characters that is not blank still passes the entity's title check after stripping |
| TaskRequests.DeadlineFitsEntity | api/controller_schemas/requests/task_requests.py:44-49 | a deadline the schema accepts is accepted unchanged by the entity's deadline check on the same day |
| TaskRequests.ParseTaskUpdate | api/controller_schemas/requests/task_requests.py:52-90 | every member defaults to `None`; accepted iff every field passes; a given title is stripped and passes the entity's title check |
| TaskRequests.ParseStatusUpdate | api/controller_schemas/requests/task_requests.py:93-99 | accepted iff a status of `TaskStatus` is given; absent and null are errors |
| ProjectRequests.ParseProjectCreate | api/controller_schemas/requests/project_requests.py:5-18 | accepted iff the name is 1-30 characters as sent and not blank, and the description is within 150 characters; the name is stripped and the description defaults to "" |
| ProjectRequests.ParseProjectUpdate | api/controller_schemas/requests/project_requests.py:21-43 | both members default to `None`; a given name is stripped, non-blank and within 30 characters; a given description is within 150 |

## Left out

- **Transport, CLI and jobs.** The HTTP controllers, routers, response schemas, the CLI, the
  scheduler thread and the auto-close command are I/O around the modelled operations.
- **Service wrappers.** services/task_service.py and services/project_service.py call repository
  signatures that do not exist, so they are not part of this model.
- **Clock and parsing.** The clock (`datetime.now`, `date.today`) is a parameter. The internals of
  `strptime` are a parameter too. For the request schemas, pydantic's reading of a date string is
  not modelled: a deadline arrives as a date.
- **Session lifetime.** The engine, the connection string and `get_session` are not modelled. No
  session is closed or rolled back. `refresh` is modelled as handing back the object, which after
  the commit holds the stored row. Repositories built on different sessions are separate stores.
  Objects are identified by primary key, one per row, so two Python objects for one row do not arise.
- **Limits from the environment.** `MAX_NUMBER_OF_PROJECT`, `MAX_NUMBER_OF_TASK` and the other
  config.py values are taken at their defaults.
- **Cascade delete.** It is not modelled because the code has none. `DeleteProject` leaves the
  project's tasks in the store.
- **Column widths.** The ORM's `String(30)` and `String(10)` column widths are not modelled.
- **Non-string values.** The schemas' type coercion of non-string JSON values is not modelled.
- TaskServices.TaskManager.CreateTask: the source passes the `datetime` from `strptime` to
  `Task`, whose check then raises `TypeError` (see Findings). The method follows the corrected
  `CreateTaskOutcome` and hands the entity the parsed date.
- TaskServices.TaskManager.CreateTask: the source constructs `Task` without a status and relies
  on the column default. The model gives the entity "todo" explicitly.
- TaskRepo.IsOverdue: the query compares a `DATE` column with a timestamp. The model compares
  the deadline's midnight with now. A dialect that orders a bare date before the timestamp of its
  own midnight would also count a deadline of today as overdue at exactly midnight.
- **Legacy imports.** project_manager.py imports `utils.validators` and `data.in_memory_storage`,
  and never imports `Project`. The model uses validators.py, the shared store of
  in_memory_storage.py and models.py's `Project`, which the code evidently intends.
- **Legacy managers and the shared store.** The legacy managers receive the shared store in
  their constructor instead of reading the module-level global.
- TaskModel.Task.Edit: the `isinstance(deadline, str)` test is modelled by the `DateText`/`Date`
  distinction. Other deadline types are not modelled.

## Findings

| source | as written | input that shows it | evidently intended | confidence | as-written member | corrected member |
|---|---|---|---|---|---|---|
| services/project_manager.py:113-134 | `project.name` is assigned before the description is checked. With `autoflush=False` (db/session.py:24-29) the refused rename stays pending on the session's object, and the next commit of any operation writes it. `get_by_name` in `create_project` reads only committed names. | project 1 "A"; `update_project(1, "B", <151 words>)` raises; then `create_project("B")` stores two projects named "B" | check everything before assigning, so an error leaves nothing behind and names stay unique | not executed; the pending-write semantics follow SQLAlchemy's documented session behaviour | ProjectServices.DuplicateNameScenario | ProjectServices.ProjectManager.UpdateProjectAtomically |
| services/task_manager.py:76-87 | the deadline handed to `Task` is the `datetime` from `strptime`, and models/task.py:82 orders it against `date.today()`, which raises `TypeError` in CPython | project with room, title "t", description "", deadline "2999-01-01" | hand the entity the parsed date (`.date()`), so the task is created with that deadline | not executed; the model assumes the entity's status check passes, as the column default suggests | TaskServices.CreateWithDeadlineRaisesTypeError | TaskServices.CreateSucceedsIff |
