/** services/task_manager.py: the database-backed task service. Every task
    operation first resolves the project, then the task, and treats a task of
    another project as missing. Length limits here count whitespace-separated
    words. Fields are assigned on the session's object one at a time; when a
    later check fails the earlier assignments are not undone but stay pending
    in the session, to be written by whichever commit comes next. */
module TaskServices {
  import opened Wrappers
  import opened Errors
  import opened Time
  import opened TaskModel
  import opened TaskRepo
  import opened ProjectRepo
  import opened ProjectModel
  import opened Sessions
  import Text
  import Seqs
  import Tables

  const DEFAULT_MAX_TASKS: int := 10
  const MAX_TITLE_WORDS: nat := 30
  const MAX_DESCRIPTION_WORDS: nat := 150

  /** The lookup that `change_status`, `update_task` and `delete_task` begin
      with: project first, then the task, which must belong to that project. */
  function ResolveTask(project: Option<ProjectRow>, task: Option<TaskRow>, projectId: int): (r: Result<TaskRow, Error>)
    ensures project.None? ==> r == Err(ProjectNotFoundError)
    ensures project.Some? && (task.None? || task.value.projectId != projectId) ==> r == Err(TaskNotFoundError)
    ensures r.Ok? <==> project.Some? && task.Some? && task.value.projectId == projectId
    ensures r.Ok? ==> Some(r.value) == task
  {
    if project.None? then Err(ProjectNotFoundError)
    else if task.None? || task.value.projectId != projectId then Err(TaskNotFoundError)
    else Ok(task.value)
  }

  /** The service's deadline check: the text is parsed (a failure is a
      `ValidationError`), taken as midnight of that date, and refused with
      `InvalidDeadlineError` when that midnight is earlier than now. */
  function ServiceDeadline(text: string, now: Instant, parse: DateParser): (r: Result<Day, Error>)
    ensures parse(text).None? ==> r == Err(ValidationError(DeadlineFormat))
    ensures parse(text).Some? ==> (r.Ok? <==> now <= Midnight(parse(text).value))
    ensures r.Ok? ==> Some(r.value) == parse(text) && Today(now) <= r.value
    ensures r.Err? && parse(text).Some? ==> r.error == InvalidDeadlineError
  {
    match parse(text)
    case None => Err(ValidationError(DeadlineFormat))
    case Some(d) =>
      if Midnight(d) < now then Err(InvalidDeadlineError)
      else
        Time.MidnightBeforeNow(d, now);
        Ok(d)
  }

  /** Unlike the entity's check, the service refuses today's date once the day
      has begun, because the date counts as its midnight. */
  lemma ServiceRefusesToday(text: string, now: Instant, parse: DateParser)
    requires parse(text) == Some(Today(now)) && now % SECONDS_PER_DAY != 0
    ensures ServiceDeadline(text, now, parse) == Err(InvalidDeadlineError)
    ensures CheckDeadline(Some(Date(Today(now))), Today(now), parse).Ok?
  {
    Time.MidnightBeforeNow(Today(now), now);
  }

  /** The deadline `create_task` hands to the entity: none for an absent or
      empty string, otherwise the service's check of the text. */
  function RequestedDeadline(deadline: Option<string>, now: Instant, parse: DateParser): (r: Result<Option<DeadlineValue>, Error>)
    ensures deadline.None? || deadline.value == "" ==> r == Ok(None)
    ensures deadline.Some? && deadline.value != "" ==>
              && (r.Err? <==> ServiceDeadline(deadline.value, now, parse).Err?)
              && (r.Err? ==> r.error == ServiceDeadline(deadline.value, now, parse).error)
              && (r.Ok? ==> r.value == Some(Date(ServiceDeadline(deadline.value, now, parse).value)))
    ensures r.Ok? && r.value.Some? ==> r.value.value.Date? && now <= Midnight(r.value.value.day)
  {
    if deadline.None? || deadline.value == "" then Ok(None)
    else match ServiceDeadline(deadline.value, now, parse)
      case Err(e) => Err(e)
      case Ok(d) => Ok(Some(Date(d)))
  }

  /** What `create_task` decides, given the project lookup and the project's
      current task count: the row to insert, or the first error in the order
      project, title words, description words, task limit, deadline, and then
      the entity's own checks. */
  function CreateTaskOutcome(project: Option<ProjectRow>, projectId: int, title: string, description: string,
                             deadline: Option<string>, taskCount: nat, maxTasks: int,
                             now: Instant, parse: DateParser): (r: Result<TaskRow, Error>)
    ensures project.None? ==> r == Err(ProjectNotFoundError)
    ensures project.Some? && |Text.Split(title)| > MAX_TITLE_WORDS ==> r == Err(ValidationError(TitleTooManyWords))
    ensures (project.Some? && |Text.Split(title)| <= MAX_TITLE_WORDS && |Text.Split(description)| > MAX_DESCRIPTION_WORDS) ==>
              r == Err(ValidationError(DescriptionTooManyWords))
    ensures (project.Some? && |Text.Split(title)| <= MAX_TITLE_WORDS && |Text.Split(description)| <= MAX_DESCRIPTION_WORDS
             && taskCount >= maxTasks) ==> r == Err(TaskLimitExceededError)
    ensures (&& project.Some? && |Text.Split(title)| <= MAX_TITLE_WORDS && |Text.Split(description)| <= MAX_DESCRIPTION_WORDS
             && taskCount < maxTasks && RequestedDeadline(deadline, now, parse).Err?) ==>
              r == Err(RequestedDeadline(deadline, now, parse).error)
    ensures (&& project.Some? && |Text.Split(title)| <= MAX_TITLE_WORDS && |Text.Split(description)| <= MAX_DESCRIPTION_WORDS
             && taskCount < maxTasks && RequestedDeadline(deadline, now, parse).Ok?
             && Construct(projectId, Some(title), Some(description), DEFAULT_STATUS,
                          RequestedDeadline(deadline, now, parse).value, now, parse).Err?) ==>
              r == Err(Construct(projectId, Some(title), Some(description), DEFAULT_STATUS,
                                 RequestedDeadline(deadline, now, parse).value, now, parse).error)
    ensures r.Ok? ==> project.Some? && taskCount < maxTasks && RequestedDeadline(deadline, now, parse).Ok?
    ensures r.Ok? ==> && r.value.projectId == projectId && r.value.title == title
                      && r.value.description == description && r.value.status == DEFAULT_STATUS
                      && r.value.closedAt.None? && r.value.createdAt == now
    ensures r.Ok? ==> CheckTitle(Some(title)).None? && |description| <= MAX_DESCRIPTION_CHARS
    ensures r.Ok? && r.value.deadline.Some? ==> now <= Midnight(r.value.deadline.value)
    ensures r.Ok? && (deadline.None? || deadline.value == "") ==> r.value.deadline.None?
    ensures r.Ok? && deadline.Some? && deadline.value != "" ==>
              r.value.deadline == Some(ServiceDeadline(deadline.value, now, parse).value)
  {
    if project.None? then Err(ProjectNotFoundError)
    else if |Text.Split(title)| > MAX_TITLE_WORDS then Err(ValidationError(TitleTooManyWords))
    else if |Text.Split(description)| > MAX_DESCRIPTION_WORDS then Err(ValidationError(DescriptionTooManyWords))
    else if taskCount >= maxTasks then Err(TaskLimitExceededError)
    else
      var day := RequestedDeadline(deadline, now, parse);
      if day.Err? then Err(day.error)
      else Construct(projectId, Some(title), Some(description), DEFAULT_STATUS, day.value, now, parse)
  }

  /** The service's word limits never decide alone: a title or description the
      entity accepts by its character limits has few enough words, so the word
      checks only change which error an over-long input reports. */
  lemma WordLimitsImpliedByCharacterLimits(title: string, description: string)
    requires CheckTitle(Some(title)).None? && |description| <= MAX_DESCRIPTION_CHARS
    ensures |Text.Split(title)| <= MAX_TITLE_WORDS && |Text.Split(description)| <= MAX_DESCRIPTION_WORDS
  {
    Text.WordCountAtMostLength(title);
    Text.WordCountAtMostLength(description);
  }

  /** `create_task` succeeds exactly when the project exists, there is room,
      the deadline passes the service's check and the title and description
      pass the entity's checks. */
  lemma CreateSucceedsIff(project: Option<ProjectRow>, projectId: int, title: string, description: string,
                          deadline: Option<string>, taskCount: nat, maxTasks: int, now: Instant, parse: DateParser)
    ensures CreateTaskOutcome(project, projectId, title, description, deadline, taskCount, maxTasks, now, parse).Ok?
        <==> && project.Some? && taskCount < maxTasks && RequestedDeadline(deadline, now, parse).Ok?
             && CheckTitle(Some(title)).None? && |description| <= MAX_DESCRIPTION_CHARS
  {
    if project.Some? && taskCount < maxTasks && RequestedDeadline(deadline, now, parse).Ok?
       && CheckTitle(Some(title)).None? && |description| <= MAX_DESCRIPTION_CHARS {
      WordLimitsImpliedByCharacterLimits(title, description);
      var day := RequestedDeadline(deadline, now, parse);
      assert CheckDescription(Some(description)).Ok?;
      assert CheckStatus(DEFAULT_STATUS).None?;
      assert CheckDeadline(day.value, Today(now), parse).Ok?;
    }
  }

  /** `create_task` as written: the deadline the service accepts is the
      `datetime` that `strptime` returns, and the entity, after its title,
      description and status checks, orders that `datetime` against
      `date.today()`, which raises `TypeError`. No task with a deadline is
      ever created. */
  function CreateTaskOutcomeAsWritten(project: Option<ProjectRow>, projectId: int, title: string, description: string,
                                      deadline: Option<string>, taskCount: nat, maxTasks: int,
                                      now: Instant, parse: DateParser): (r: Result<TaskRow, Error>)
    ensures deadline.Some? && deadline.value != "" ==> r.Err?
    ensures deadline.None? || deadline.value == "" ==>
              r == CreateTaskOutcome(project, projectId, title, description, deadline, taskCount, maxTasks, now, parse)
  {
    if project.None? then Err(ProjectNotFoundError)
    else if |Text.Split(title)| > MAX_TITLE_WORDS then Err(ValidationError(TitleTooManyWords))
    else if |Text.Split(description)| > MAX_DESCRIPTION_WORDS then Err(ValidationError(DescriptionTooManyWords))
    else if taskCount >= maxTasks then Err(TaskLimitExceededError)
    else
      var day := RequestedDeadline(deadline, now, parse);
      if day.Err? then Err(day.error)
      else
        match Construct(projectId, Some(title), Some(description), DEFAULT_STATUS, None, now, parse)
        case Err(e) => Err(e)
        case Ok(t) => if day.value.None? then Ok(t) else Err(TypeError)
  }

  /** A request that `create_task` accepts in every respect, with a deadline,
      raises `TypeError` as written; the corrected outcome stores the deadline. */
  lemma CreateWithDeadlineRaisesTypeError(project: Option<ProjectRow>, projectId: int, title: string, description: string,
                                          text: string, taskCount: nat, maxTasks: int, now: Instant, parse: DateParser)
    requires project.Some? && taskCount < maxTasks && text != ""
    requires CheckTitle(Some(title)).None? && |description| <= MAX_DESCRIPTION_CHARS
    requires ServiceDeadline(text, now, parse).Ok?
    ensures CreateTaskOutcomeAsWritten(project, projectId, title, description, Some(text), taskCount, maxTasks, now, parse)
            == Err(TypeError)
    ensures var fixed := CreateTaskOutcome(project, projectId, title, description, Some(text), taskCount, maxTasks, now, parse);
            fixed.Ok? && fixed.value.deadline == Some(ServiceDeadline(text, now, parse).value)
  {
    WordLimitsImpliedByCharacterLimits(title, description);
    CreateSucceedsIff(project, projectId, title, description, Some(text), taskCount, maxTasks, now, parse);
    assert CheckDescription(Some(description)).Ok?;
    assert CheckStatus(DEFAULT_STATUS).None?;
  }

  /** What `update_task` does to a resolved task, and what it raises. An empty
      or absent title or description is skipped; a deadline of "" clears the
      deadline. Writes happen in the order title, description, deadline, and an
      error leaves the earlier writes in place. */
  function UpdateOutcome(t: TaskRow, newTitle: Option<string>, newDescription: Option<string>,
                         newDeadline: Option<string>, now: Instant, parse: DateParser): (res: (TaskRow, Option<Error>))
    ensures res.0 == t.(title := res.0.title, description := res.0.description, deadline := res.0.deadline)
    ensures newTitle.None? || newTitle.value == "" ==> res.0.title == t.title
    ensures newDescription.None? || newDescription.value == "" ==> res.0.description == t.description
    ensures res.1.None? <==>
              && (newTitle.None? || newTitle.value == "" || |Text.Split(newTitle.value)| <= MAX_TITLE_WORDS)
              && (newDescription.None? || newDescription.value == ""
                  || |Text.Split(newDescription.value)| <= MAX_DESCRIPTION_WORDS)
              && (newDeadline.None? || newDeadline.value == "" || ServiceDeadline(newDeadline.value, now, parse).Ok?)
    ensures newTitle.Some? && newTitle.value != "" && |Text.Split(newTitle.value)| > MAX_TITLE_WORDS ==>
              res == (t, Some(ValidationError(TitleTooManyWords)))
    ensures (&& (newTitle.None? || newTitle.value == "" || |Text.Split(newTitle.value)| <= MAX_TITLE_WORDS)
             && newDescription.Some? && newDescription.value != ""
             && |Text.Split(newDescription.value)| > MAX_DESCRIPTION_WORDS) ==>
              res.1 == Some(ValidationError(DescriptionTooManyWords)) && res.0.deadline == t.deadline
    ensures (&& (newTitle.None? || newTitle.value == "" || |Text.Split(newTitle.value)| <= MAX_TITLE_WORDS)
             && (newDescription.None? || newDescription.value == ""
                 || |Text.Split(newDescription.value)| <= MAX_DESCRIPTION_WORDS)
             && newDeadline.Some? && newDeadline.value != "" && ServiceDeadline(newDeadline.value, now, parse).Err?) ==>
              res.1 == Some(ServiceDeadline(newDeadline.value, now, parse).error)
    ensures res.1.Some? ==> res.1.value.IsValidationError() && res.0.deadline == t.deadline
    ensures res.1.None? ==> && (newTitle.Some? && newTitle.value != "" ==> res.0.title == newTitle.value)
                            && (newDescription.Some? && newDescription.value != "" ==> res.0.description == newDescription.value)
                            && (newDeadline == Some("") ==> res.0.deadline.None?)
                            && (newDeadline.Some? && newDeadline.value != "" ==>
                                  res.0.deadline == Some(ServiceDeadline(newDeadline.value, now, parse).value)
                                  && now <= Midnight(res.0.deadline.value))
                            && (newDeadline.None? ==> res.0.deadline == t.deadline)
  {
    var afterTitle := TitleStep(t, newTitle);
    if afterTitle.1.Some? then afterTitle
    else
      var afterDescription := DescriptionStep(afterTitle.0, newDescription);
      if afterDescription.1.Some? then afterDescription
      else DeadlineStep(afterDescription.0, newDeadline, now, parse)
  }

  /** The title step of `update_task`: skipped when absent or empty, refused
      above `MAX_TITLE_WORDS` words, otherwise written. */
  function TitleStep(t: TaskRow, newTitle: Option<string>): (res: (TaskRow, Option<Error>))
    ensures newTitle.None? || newTitle.value == "" ==> res == (t, None)
    ensures res.1.Some? <==> newTitle.Some? && newTitle.value != "" && |Text.Split(newTitle.value)| > MAX_TITLE_WORDS
    ensures res.1.Some? ==> res == (t, Some(ValidationError(TitleTooManyWords)))
    ensures res.1.None? && newTitle.Some? && newTitle.value != "" ==> res.0 == t.(title := newTitle.value)
  {
    if newTitle.None? || newTitle.value == "" then (t, None)
    else if |Text.Split(newTitle.value)| > MAX_TITLE_WORDS then (t, Some(ValidationError(TitleTooManyWords)))
    else (t.(title := newTitle.value), None)
  }

  /** The description step of `update_task`: skipped when absent or empty,
      refused above `MAX_DESCRIPTION_WORDS` words, otherwise written. */
  function DescriptionStep(t: TaskRow, newDescription: Option<string>): (res: (TaskRow, Option<Error>))
    ensures newDescription.None? || newDescription.value == "" ==> res == (t, None)
    ensures res.1.Some? <==> && newDescription.Some? && newDescription.value != ""
                             && |Text.Split(newDescription.value)| > MAX_DESCRIPTION_WORDS
    ensures res.1.Some? ==> res == (t, Some(ValidationError(DescriptionTooManyWords)))
    ensures res.1.None? && newDescription.Some? && newDescription.value != "" ==>
              res.0 == t.(description := newDescription.value)
  {
    if newDescription.None? || newDescription.value == "" then (t, None)
    else if |Text.Split(newDescription.value)| > MAX_DESCRIPTION_WORDS then
      (t, Some(ValidationError(DescriptionTooManyWords)))
    else (t.(description := newDescription.value), None)
  }

  /** The deadline step of `update_task`: absent leaves the deadline, "" clears
      it, any other text must pass the service's deadline check and is then
      written as that day. */
  function DeadlineStep(t: TaskRow, newDeadline: Option<string>, now: Instant, parse: DateParser)
    : (res: (TaskRow, Option<Error>))
    ensures newDeadline.None? ==> res == (t, None)
    ensures newDeadline == Some("") ==> res == (t.(deadline := None), None)
    ensures res.1.Some? <==> newDeadline.Some? && newDeadline.value != "" && ServiceDeadline(newDeadline.value, now, parse).Err?
    ensures res.1.Some? ==> res == (t, Some(ServiceDeadline(newDeadline.value, now, parse).error))
    ensures res.1.None? && newDeadline.Some? && newDeadline.value != "" ==>
              res.0 == t.(deadline := Some(ServiceDeadline(newDeadline.value, now, parse).value))
  {
    if newDeadline.None? then (t, None)
    else if newDeadline.value == "" then (t.(deadline := None), None)
    else match ServiceDeadline(newDeadline.value, now, parse)
      case Err(e) => (t, Some(e))
      case Ok(d) => (t.(deadline := Some(d)), None)
  }

  /** A valid new title with a bad deadline: `update_task` raises, yet the
      title (and description) written before stay. */
  lemma UpdateKeepsEarlierWrites(t: TaskRow, title: string, description: string, text: string,
                                 now: Instant, parse: DateParser)
    requires title != "" && |Text.Split(title)| <= MAX_TITLE_WORDS
    requires description != "" && |Text.Split(description)| <= MAX_DESCRIPTION_WORDS
    requires text != "" && parse(text).None?
    ensures UpdateOutcome(t, Some(title), Some(description), Some(text), now, parse)
         == (t.(title := title, description := description), Some(ValidationError(DeadlineFormat)))
  {
  }

  /** The tasks after `close_overdue_tasks`, from the stored rows and the
      values the session held for them: every task stored as overdue is
      written as "done" (with any other value its object held), every other
      task with what its object held; `closed_at` is not set. */
  function CloseOverdue(rows: seq<TaskRow>, pending: map<int, TaskRow>, now: Instant): (r: seq<TaskRow>)
    ensures |r| == |rows|
    ensures forall i :: 0 <= i < |rows| ==>
              r[i] == var loaded := Tables.Loaded(rows[i], pending, TaskKey);
                      if IsOverdue(rows[i], now) then loaded.(status := "done") else loaded
  {
    seq(|rows|, i requires 0 <= i < |rows| =>
          var loaded := Tables.Loaded(rows[i], pending, TaskKey);
          if IsOverdue(rows[i], now) then loaded.(status := "done") else loaded)
  }

  /** With nothing pending, after one closing pass nothing is overdue at the
      same instant, so a second pass changes nothing and closes 0. */
  lemma SecondPassClosesNothing(rows: seq<TaskRow>, now: Instant)
    ensures Seqs.Filter(CloseOverdue(rows, map[], now), OverdueAt(now)) == []
    ensures CloseOverdue(CloseOverdue(rows, map[], now), map[], now) == CloseOverdue(rows, map[], now)
  {
    var closed := CloseOverdue(rows, map[], now);
    forall j | 0 <= j < |closed|
      ensures !OverdueAt(now)(closed[j])
    {
    }
    Seqs.FilterNone(closed, OverdueAt(now));
  }

  /** The filter reads stored values only: a deadline assigned but not yet
      written that is already past does not make the task overdue, and the
      closing pass writes it without closing the task. */
  lemma PendingDeadlineNotClosed(row: TaskRow, pending: TaskRow, now: Instant)
    requires pending.id == row.id && !IsOverdue(row, now) && IsOverdue(pending, now)
    ensures CloseOverdue([row], map[row.id := pending], now) == [pending]
    ensures IsOverdue(CloseOverdue([row], map[row.id := pending], now)[0], now)
  {
  }

  /** The closing pass writes only the status: an overdue task without a
      `closed_at` ends up done and still without one. */
  lemma ClosedOverdueTaskHasNoClosedAt(rows: seq<TaskRow>, pending: map<int, TaskRow>, now: Instant, i: nat)
    requires i < |rows| && IsOverdue(rows[i], now) && Tables.Loaded(rows[i], pending, TaskKey).closedAt.None?
    ensures CloseOverdue(rows, pending, now)[i].status == "done"
    ensures !ClosedIffDone(CloseOverdue(rows, pending, now)[i])
  {
  }

  /** The session's objects part-way through `close_overdue_tasks`: the ones
      already handled (`handled`) are "done". */
  function MarkDone(objects: seq<TaskRow>, handled: seq<TaskRow>): (r: seq<TaskRow>)
    ensures |r| == |objects|
    ensures forall j :: 0 <= j < |objects| ==>
              r[j] == if objects[j] in handled then objects[j].(status := "done") else objects[j]
  {
    seq(|objects|, j requires 0 <= j < |objects| =>
          if objects[j] in handled then objects[j].(status := "done") else objects[j])
  }

  /** One iteration of the closing loop: the next listed object, at `m`, is
      set to "done". */
  lemma MarkDoneStep(objects: seq<TaskRow>, listed: seq<TaskRow>, i: nat, m: nat)
    requires Tables.IdsAscending(objects, TaskKey) && i < |listed| && m < |objects| && objects[m] == listed[i]
    ensures Tables.Replace(MarkDone(objects, listed[..i]), objects[m].(status := "done"), TaskKey)
         == MarkDone(objects, listed[..i + 1])
  {
    var before := Tables.Replace(MarkDone(objects, listed[..i]), objects[m].(status := "done"), TaskKey);
    var after := MarkDone(objects, listed[..i + 1]);
    forall j | 0 <= j < |objects|
      ensures before[j] == after[j]
    {
      assert objects[j] in listed[..i + 1] <==> objects[j] in listed[..i] || objects[j] == listed[i] by {
        assert listed[..i + 1] == listed[..i] + [listed[i]];
      }
      if j < m {
        assert objects[j].id < objects[m].id;
      } else if j > m {
        assert objects[m].id < objects[j].id;
      }
    }
  }

  /** Once every listed object is handled the tasks are `CloseOverdue`. */
  lemma MarkDoneAll(rows: seq<TaskRow>, pending: map<int, TaskRow>, listed: seq<TaskRow>, now: Instant)
    requires forall j :: 0 <= j < |rows| ==> (Tables.Flush(rows, pending, TaskKey)[j] in listed <==> IsOverdue(rows[j], now))
    ensures MarkDone(Tables.Flush(rows, pending, TaskKey), listed) == CloseOverdue(rows, pending, now)
  {
    var objects := Tables.Flush(rows, pending, TaskKey);
    forall j | 0 <= j < |rows|
      ensures MarkDone(objects, listed)[j] == CloseOverdue(rows, pending, now)[j]
    {
      assert objects[j] in listed <==> IsOverdue(rows[j], now);
    }
  }

  class TaskManager {
    const taskRepo: TaskRepository
    const projectRepo: ProjectRepository

    constructor (taskRepository: TaskRepository, projectRepository: ProjectRepository)
      ensures taskRepo == taskRepository && projectRepo == projectRepository
    {
      taskRepo, projectRepo := taskRepository, projectRepository;
    }

    /** `create_task`: on an error nothing changes; on success the session is
        committed and exactly one task, of that project, is added. */
    method CreateTask(now: Instant, parse: DateParser, projectId: int, title: string, description: string,
                      deadline: Option<string> := None, maxTasks: int := DEFAULT_MAX_TASKS)
      returns (r: Result<TaskRow, Error>)
      requires taskRepo.db.Valid() && projectRepo.db.Valid()
      modifies taskRepo.db
      ensures taskRepo.db.Valid()
      ensures var expected := CreateTaskOutcome(old(projectRepo.GetById(projectId)), projectId, title, description,
                                                deadline, old(taskRepo.CountByProject(projectId)), maxTasks, now, parse);
              && (expected.Err? ==> r == expected && unchanged(taskRepo.db))
              && (expected.Ok? ==> && r == Ok(expected.value.(id := old(taskRepo.db.nextTaskId)))
                                   && taskRepo.db.Settled(old(taskRepo.db.ProjectView()), old(taskRepo.db.TaskView()) + [r.value])
                                   && taskRepo.db.nextTaskId == old(taskRepo.db.nextTaskId) + 1)
    {
      var project := projectRepo.GetById(projectId);
      if project.None? {
        return Err(ProjectNotFoundError);
      }
      if |Text.Split(title)| > MAX_TITLE_WORDS {
        return Err(ValidationError(TitleTooManyWords));
      }
      if |Text.Split(description)| > MAX_DESCRIPTION_WORDS {
        return Err(ValidationError(DescriptionTooManyWords));
      }
      var taskCount := taskRepo.CountByProject(projectId);
      if taskCount >= maxTasks {
        return Err(TaskLimitExceededError);
      }
      var deadlineDate := RequestedDeadline(deadline, now, parse);
      if deadlineDate.Err? {
        return Err(deadlineDate.error);
      }
      var task := Construct(projectId, Some(title), Some(description), DEFAULT_STATUS, deadlineDate.value, now, parse);
      if task.Err? {
        return Err(task.error);
      }
      var created := taskRepo.Create(task.value);
      r := Ok(created);
    }

    /** `change_status`: after the lookup and the status check, only `status`
        is assigned (`closed_at` keeps its value) and the session is committed;
        an error changes nothing. */
    method ChangeStatus(projectId: int, taskId: int, newStatus: string) returns (r: Result<TaskRow, Error>)
      requires taskRepo.db.Valid() && projectRepo.db.Valid()
      modifies taskRepo.db
      ensures taskRepo.db.Valid()
      ensures var found := ResolveTask(old(projectRepo.GetById(projectId)), old(taskRepo.GetById(taskId)), projectId);
              && (found.Err? ==> r == Err(found.error) && unchanged(taskRepo.db))
              && (found.Ok? && CheckStatus(newStatus).Some? ==>
                    r == Err(ValidationError(StatusInvalid)) && unchanged(taskRepo.db))
              && (found.Ok? && CheckStatus(newStatus).None? ==>
                    && r == Ok(found.value.(status := newStatus))
                    && taskRepo.db.Settled(old(taskRepo.db.ProjectView()),
                                           Tables.Replace(old(taskRepo.db.TaskView()), r.value, TaskKey)))
    {
      var project := projectRepo.GetById(projectId);
      if project.None? {
        return Err(ProjectNotFoundError);
      }
      var task := taskRepo.GetById(taskId);
      if task.None? || task.value.projectId != projectId {
        return Err(TaskNotFoundError);
      }
      if !ValidStatus(newStatus) {
        return Err(ValidationError(StatusInvalid));
      }
      var changed := task.value.(status := newStatus);
      taskRepo.db.AssignTask(changed);
      Tables.InReplaceWithKey(old(taskRepo.db.TaskView()), changed, taskRepo.GetById(taskId).value, TaskKey);
      var updated := taskRepo.Update(changed);
      r := Ok(updated);
    }

    /** `update_task`: see `UpdateOutcome`. The fields are assigned on the
        session's object; on success the session is committed, on an error the
        assignments made so far stay pending on that object. */
    method UpdateTask(now: Instant, parse: DateParser, projectId: int, taskId: int,
                      newTitle: Option<string> := None, newDescription: Option<string> := None,
                      newDeadline: Option<string> := None)
      returns (r: Result<TaskRow, Error>)
      requires taskRepo.db.Valid() && projectRepo.db.Valid()
      modifies taskRepo.db
      ensures taskRepo.db.Valid()
      ensures var found := ResolveTask(old(projectRepo.GetById(projectId)), old(taskRepo.GetById(taskId)), projectId);
              && (found.Err? ==> r == Err(found.error) && unchanged(taskRepo.db))
              && (found.Ok? ==>
                    var res := UpdateOutcome(found.value, newTitle, newDescription, newDeadline, now, parse);
                    && (res.1.Some? ==> && r == Err(res.1.value) && taskRepo.db.TaskObjectsAssigned()
                                         && taskRepo.db.TaskView() == Tables.Replace(old(taskRepo.db.TaskView()), res.0, TaskKey))
                    && (res.1.None? ==> && r == Ok(res.0)
                                         && taskRepo.db.Settled(old(taskRepo.db.ProjectView()),
                                                                Tables.Replace(old(taskRepo.db.TaskView()), res.0, TaskKey))))
    {
      var project := projectRepo.GetById(projectId);
      if project.None? {
        return Err(ProjectNotFoundError);
      }
      var found := taskRepo.GetById(taskId);
      if found.None? || found.value.projectId != projectId {
        return Err(TaskNotFoundError);
      }
      assert ResolveTask(project, found, projectId) == Ok(found.value);
      var written, err := WriteFields(found.value, newTitle, newDescription, newDeadline, now, parse);
      if err.Some? {
        return Err(err.value);
      }
      Tables.InReplaceWithKey(old(taskRepo.db.TaskView()), written, taskRepo.GetById(taskId).value, TaskKey);
      var task := taskRepo.Update(written);
      r := Ok(task);
    }

    /** The field assignments of `update_task` on the session's object `task`;
        the first failing check stops them, and nothing is written. */
    method WriteFields(task: TaskRow, newTitle: Option<string>, newDescription: Option<string>,
                       newDeadline: Option<string>, now: Instant, parse: DateParser)
      returns (written: TaskRow, err: Option<Error>)
      requires taskRepo.db.Valid() && task in taskRepo.db.TaskView()
      modifies taskRepo.db
      ensures taskRepo.db.Valid() && taskRepo.db.TaskObjectsAssigned()
      ensures (written, err) == UpdateOutcome(task, newTitle, newDescription, newDeadline, now, parse)
      ensures taskRepo.db.TaskView() == Tables.Replace(old(taskRepo.db.TaskView()), written, TaskKey)
    {
      ghost var view0 := taskRepo.db.TaskView();
      ghost var k :| 0 <= k < |view0| && view0[k] == task;
      Tables.FlushNumbered(taskRepo.db.tasks, taskRepo.db.pendingTasks, TaskKey, taskRepo.db.nextTaskId);
      Tables.ReplaceWithStored(view0, k, TaskKey);
      written, err := WriteTitle(view0, task, newTitle);
      if err.Some? {
        return;
      }
      written, err := WriteDescription(view0, written, newDescription);
      if err.Some? {
        return;
      }
      written, err := WriteDeadline(view0, written, newDeadline, now, parse);
    }

    /** Assigns `next` to the object that last held `current`, the same task. */
    method Assign(ghost view0: seq<TaskRow>, current: TaskRow, next: TaskRow) returns (written: TaskRow)
      requires taskRepo.db.Valid() && taskRepo.db.TaskView() == Tables.Replace(view0, current, TaskKey)
      requires next.id == current.id
      modifies taskRepo.db
      ensures taskRepo.db.Valid() && taskRepo.db.TaskObjectsAssigned() && written == next
      ensures taskRepo.db.TaskView() == Tables.Replace(view0, next, TaskKey)
    {
      Tables.ReplaceTwice(view0, current, next, TaskKey);
      taskRepo.db.AssignTask(next);
      written := next;
    }

    method WriteTitle(ghost view0: seq<TaskRow>, task: TaskRow, newTitle: Option<string>)
      returns (written: TaskRow, err: Option<Error>)
      requires taskRepo.db.Valid() && taskRepo.db.TaskView() == Tables.Replace(view0, task, TaskKey)
      modifies taskRepo.db
      ensures taskRepo.db.Valid() && taskRepo.db.TaskObjectsAssigned() && (written, err) == TitleStep(task, newTitle)
      ensures taskRepo.db.TaskView() == Tables.Replace(view0, written, TaskKey)
    {
      written, err := task, None;
      if newTitle.Some? && newTitle.value != "" {
        if |Text.Split(newTitle.value)| > MAX_TITLE_WORDS {
          return written, Some(ValidationError(TitleTooManyWords));
        }
        written := Assign(view0, task, task.(title := newTitle.value));
      }
    }

    method WriteDescription(ghost view0: seq<TaskRow>, task: TaskRow, newDescription: Option<string>)
      returns (written: TaskRow, err: Option<Error>)
      requires taskRepo.db.Valid() && taskRepo.db.TaskView() == Tables.Replace(view0, task, TaskKey)
      modifies taskRepo.db
      ensures taskRepo.db.Valid() && taskRepo.db.TaskObjectsAssigned()
      ensures (written, err) == DescriptionStep(task, newDescription)
      ensures taskRepo.db.TaskView() == Tables.Replace(view0, written, TaskKey)
    {
      written, err := task, None;
      if newDescription.Some? && newDescription.value != "" {
        if |Text.Split(newDescription.value)| > MAX_DESCRIPTION_WORDS {
          return written, Some(ValidationError(DescriptionTooManyWords));
        }
        written := Assign(view0, task, task.(description := newDescription.value));
      }
    }

    method WriteDeadline(ghost view0: seq<TaskRow>, task: TaskRow, newDeadline: Option<string>,
                         now: Instant, parse: DateParser)
      returns (written: TaskRow, err: Option<Error>)
      requires taskRepo.db.Valid() && taskRepo.db.TaskView() == Tables.Replace(view0, task, TaskKey)
      modifies taskRepo.db
      ensures taskRepo.db.Valid() && taskRepo.db.TaskObjectsAssigned()
      ensures (written, err) == DeadlineStep(task, newDeadline, now, parse)
      ensures taskRepo.db.TaskView() == Tables.Replace(view0, written, TaskKey)
    {
      written, err := task, None;
      if newDeadline.Some? {
        if newDeadline.value != "" {
          var day := ServiceDeadline(newDeadline.value, now, parse);
          if day.Err? {
            return written, Some(day.error);
          }
          written := Assign(view0, task, task.(deadline := Some(day.value)));
        } else {
          written := Assign(view0, task, task.(deadline := None));
        }
      }
    }

    /** `delete_task`: after the lookup the session is committed with the task
        removed, and the result is `true`; an error changes nothing. */
    method DeleteTask(projectId: int, taskId: int) returns (r: Result<bool, Error>)
      requires taskRepo.db.Valid() && projectRepo.db.Valid()
      modifies taskRepo.db
      ensures taskRepo.db.Valid()
      ensures var found := ResolveTask(old(projectRepo.GetById(projectId)), old(taskRepo.GetById(taskId)), projectId);
              && (found.Err? ==> r == Err(found.error) && unchanged(taskRepo.db))
              && (found.Ok? ==> && r == Ok(true)
                                && taskRepo.db.Settled(old(taskRepo.db.ProjectView()),
                                                       Tables.Without(old(taskRepo.db.TaskView()), taskId, TaskKey))
                                && |taskRepo.db.tasks| == |old(taskRepo.db.tasks)| - 1)
    {
      var project := projectRepo.GetById(projectId);
      if project.None? {
        return Err(ProjectNotFoundError);
      }
      var task := taskRepo.GetById(taskId);
      if task.None? || task.value.projectId != projectId {
        return Err(TaskNotFoundError);
      }
      var deleted := taskRepo.Delete(taskId);
      r := Ok(deleted);
    }

    /** `get_tasks_by_project`: `ProjectNotFoundError` for an unknown project,
        otherwise the objects of exactly the tasks stored under that project. */
    function GetTasksByProject(projectId: int): (r: Result<seq<TaskRow>, Error>)
      requires taskRepo.db.Valid() && projectRepo.db.Valid()
      reads projectRepo.db, taskRepo.db
      ensures r.Err? <==> projectRepo.GetById(projectId).None?
      ensures r.Err? ==> r.error == ProjectNotFoundError
      ensures r.Ok? ==> && (forall i :: 0 <= i < |r.value| ==> r.value[i] in taskRepo.db.TaskView())
                        && (forall i :: 0 <= i < |taskRepo.db.tasks| ==>
                              (taskRepo.db.TaskView()[i] in r.value <==> taskRepo.db.tasks[i].projectId == projectId))
    {
      if projectRepo.GetById(projectId).None? then Err(ProjectNotFoundError)
      else Ok(taskRepo.GetByProjectId(projectId))
    }

    /** `count_tasks_by_project`: no project check; the number of tasks listed
        for that project id. */
    function CountTasksByProject(projectId: int): (n: nat)
      requires taskRepo.db.Valid()
      reads taskRepo.db
      ensures n == |taskRepo.GetByProjectId(projectId)|
    {
      taskRepo.CountByProject(projectId)
    }

    /** `get_overdue_tasks` at the instant `now`: the objects of exactly the
        tasks whose stored values are overdue. */
    function GetOverdueTasks(now: Instant): (r: seq<TaskRow>)
      requires taskRepo.db.Valid()
      reads taskRepo.db
      ensures forall i :: 0 <= i < |r| ==> r[i] in taskRepo.db.TaskView()
      ensures forall i :: 0 <= i < |taskRepo.db.tasks| ==>
                (taskRepo.db.TaskView()[i] in r <==> IsOverdue(taskRepo.db.tasks[i], now))
    {
      taskRepo.GetOverdueTasks(now)
    }

    /** `close_overdue_tasks`: sets "done" on every object `get_overdue_tasks`
        returned, committing the session after each, and returns how many there
        were. With none listed nothing is written. */
    method CloseOverdueTasks(now: Instant) returns (closedCount: nat)
      requires taskRepo.db.Valid()
      modifies taskRepo.db
      ensures taskRepo.db.Valid()
      ensures closedCount == |old(GetOverdueTasks(now))|
      ensures closedCount == 0 ==> unchanged(taskRepo.db)
      ensures closedCount > 0 ==>
                taskRepo.db.Settled(old(taskRepo.db.ProjectView()),
                                    CloseOverdue(old(taskRepo.db.tasks), old(taskRepo.db.pendingTasks), now))
      ensures old(taskRepo.db.pendingTasks) == map[] ==> GetOverdueTasks(now) == []
    {
      var overdueTasks := GetOverdueTasks(now);
      ghost var rows0, pending0 := taskRepo.db.tasks, taskRepo.db.pendingTasks;
      Tables.FlushNumbered(rows0, pending0, TaskKey, taskRepo.db.nextTaskId);
      closedCount := CloseEach(taskRepo.db.TaskView(), overdueTasks);
      MarkDoneAll(rows0, pending0, overdueTasks, now);
      if pending0 == map[] {
        SecondPassClosesNothing(rows0, now);
        Tables.FlushNothing(rows0, TaskKey);
      }
    }

    /** The loop of `close_overdue_tasks` over the objects `listed`, all of
        them among the session's objects `objects0`: each is set to "done" and
        the session committed, so the tables end as `MarkDone` says. */
    method CloseEach(ghost objects0: seq<TaskRow>, listed: seq<TaskRow>) returns (closedCount: nat)
      requires taskRepo.db.Valid() && taskRepo.db.TaskView() == objects0
      requires Tables.IdsAscending(objects0, TaskKey) && forall k :: 0 <= k < |listed| ==> listed[k] in objects0
      requires forall j :: 0 <= j < |objects0| ==> taskRepo.db.tasks[j].id == objects0[j].id
      modifies taskRepo.db
      ensures taskRepo.db.Valid() && closedCount == |listed|
      ensures closedCount == 0 ==> unchanged(taskRepo.db)
      ensures closedCount > 0 ==> taskRepo.db.Settled(old(taskRepo.db.ProjectView()), MarkDone(objects0, listed))
    {
      ghost var projects0 := taskRepo.db.ProjectView();
      assert MarkDone(objects0, listed[..0]) == objects0;
      closedCount := 0;
      for i := 0 to |listed|
        invariant taskRepo.db.Valid()
        invariant closedCount == i
        invariant taskRepo.db.TaskView() == MarkDone(objects0, listed[..i])
        invariant |taskRepo.db.tasks| == |objects0|
        invariant forall j :: 0 <= j < |objects0| ==> taskRepo.db.tasks[j].id == objects0[j].id
        invariant i == 0 ==> unchanged(taskRepo.db)
        invariant i > 0 ==> taskRepo.db.Settled(projects0, MarkDone(objects0, listed[..i]))
      {
        if i > 0 {
          Tables.FlushNothing(projects0, ProjectKey);
        }
        CloseListed(objects0, listed, i);
        closedCount := closedCount + 1;
      }
      assert listed[..|listed|] == listed;
    }

    /** One iteration of `close_overdue_tasks`: the object `listed[i]`, one of
        `objects0`, is set to "done" and the session is committed. */
    method CloseListed(ghost objects0: seq<TaskRow>, listed: seq<TaskRow>, i: nat)
      requires taskRepo.db.Valid() && i < |listed| && listed[i] in objects0
      requires Tables.IdsAscending(objects0, TaskKey)
      requires taskRepo.db.TaskView() == MarkDone(objects0, listed[..i])
      requires |taskRepo.db.tasks| == |objects0|
      requires forall j :: 0 <= j < |objects0| ==> taskRepo.db.tasks[j].id == objects0[j].id
      modifies taskRepo.db
      ensures taskRepo.db.Valid()
      ensures taskRepo.db.Settled(old(taskRepo.db.ProjectView()), MarkDone(objects0, listed[..i + 1]))
      ensures forall j :: 0 <= j < |objects0| ==> taskRepo.db.tasks[j].id == objects0[j].id
    {
      var task := listed[i];
      ghost var m :| 0 <= m < |objects0| && objects0[m] == task;
      MarkDoneStep(objects0, listed, i, m);
      assert taskRepo.db.tasks[m].id == task.id;
      var done := task.(status := "done");
      taskRepo.db.AssignTask(done);
      Tables.InReplaceWithKey(MarkDone(objects0, listed[..i]), done, taskRepo.GetById(done.id).value, TaskKey);
      var updated := taskRepo.Update(done);
    }
  }
}
