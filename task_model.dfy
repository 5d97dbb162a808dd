/** The Task entity of models/task.py: field validation, the constructor's
    validate-after-assign, `change_status` with its `closed_at` bookkeeping,
    and `edit` with its partial, `ValueError`-only rollback. */
module TaskModel {
  import opened Wrappers
  import opened Errors
  import opened Time
  import Text

  const VALID_STATUSES: seq<string> := ["todo", "doing", "done"]
  /** The `status` column default. */
  const DEFAULT_STATUS: string := "todo"
  const MAX_TITLE_CHARS: nat := 30
  const MAX_DESCRIPTION_CHARS: nat := 150

  predicate ValidStatus(s: string)
  {
    s in VALID_STATUSES
  }

  /** What may be assigned to `Task.deadline`: a "YYYY-MM-DD" string or a date. */
  datatype DeadlineValue = DateText(text: string) | Date(day: Day)

  /** The columns of one task. `id` is 0 until the store assigns one. */
  datatype TaskRow = TaskRow(
    id: int,
    title: string,
    description: string,
    status: string,
    deadline: Option<Day>,
    closedAt: Option<Instant>,
    projectId: int,
    createdAt: Instant)

  /** The coupling `change_status` maintains (models/task.py:106-110): `closed_at` is set exactly when the task is done. */
  predicate ClosedIffDone(t: TaskRow)
  {
    t.closedAt.Some? <==> t.status == "done"
  }

  /** `_validate_title`: `None` stands for a title that is not a string. */
  function CheckTitle(title: Option<string>): (e: Option<Error>)
    ensures e.None? <==> title.Some? && !Text.AllSpace(title.value) && |title.value| <= MAX_TITLE_CHARS
    ensures title.None? || Text.AllSpace(title.value) ==> e == Some(ValidationError(TitleEmpty))
    ensures e.Some? ==> e.value.ValidationError?
  {
    if title.None? || Text.Strip(title.value) == [] then Some(ValidationError(TitleEmpty))
    else if |title.value| > MAX_TITLE_CHARS then Some(ValidationError(TitleTooLong))
    else None
  }

  /** `_validate_description`: `None` becomes "", then at most 150 characters. */
  function CheckDescription(description: Option<string>): (r: Result<string, Error>)
    ensures description.None? ==> r == Ok("")
    ensures description.Some? ==> (r.Ok? <==> |description.value| <= MAX_DESCRIPTION_CHARS)
    ensures r.Ok? && description.Some? ==> r.value == description.value
    ensures r.Err? ==> r.error == ValidationError(DescriptionTooLong)
  {
    var d := if description.None? then "" else description.value;
    if |d| > MAX_DESCRIPTION_CHARS then Err(ValidationError(DescriptionTooLong)) else Ok(d)
  }

  /** `_validate_status`. */
  function CheckStatus(status: string): (e: Option<Error>)
    ensures e.None? <==> status == "todo" || status == "doing" || status == "done"
    ensures e.Some? ==> e == Some(ValidationError(StatusInvalid))
  {
    if ValidStatus(status) then None else Some(ValidationError(StatusInvalid))
  }

  /** The day a deadline value names: a date as it is, a string as parsed. */
  function NamedDay(value: DeadlineValue, parse: DateParser): Option<Day>
  {
    match value
    case DateText(text) => parse(text)
    case Date(d) => Some(d)
  }

  /** `_validate_deadline`: a string is parsed first; a date before today is refused. */
  function CheckDeadline(deadline: Option<DeadlineValue>, today: Day, parse: DateParser): (r: Result<Option<Day>, Error>)
    ensures deadline.None? ==> r == Ok(None)
    ensures r.Ok? && r.value.Some? ==> today <= r.value.value
    ensures deadline.Some? && deadline.value.Date? ==>
              r == if today <= deadline.value.day then Ok(Some(deadline.value.day)) else Err(InvalidDeadlineError)
    ensures deadline.Some? && deadline.value.DateText? && parse(deadline.value.text).None? ==>
              r == Err(ValidationError(DeadlineFormat))
    ensures deadline.Some? && deadline.value.DateText? && parse(deadline.value.text).Some? ==>
              r == if today <= parse(deadline.value.text).value then Ok(parse(deadline.value.text))
                   else Err(InvalidDeadlineError)
    ensures r.Err? ==> r.error.IsValidationError()
  {
    match deadline
    case None => Ok(None)
    case Some(value) =>
      var day := NamedDay(value, parse);
      if day.None? then Err(ValidationError(DeadlineFormat))
      else if day.value < today then Err(InvalidDeadlineError)
      else Ok(day)
  }

  /** `Task.__init__`: assign the fields, then validate title, description, status
      and deadline in that order; on the first failure no task exists. */
  function Construct(projectId: int, title: Option<string>, description: Option<string>,
                     status: string, deadline: Option<DeadlineValue>,
                     now: Instant, parse: DateParser): (r: Result<TaskRow, Error>)
    ensures r.Ok? <==> && CheckTitle(title).None? && CheckDescription(description).Ok?
                       && CheckStatus(status).None? && CheckDeadline(deadline, Today(now), parse).Ok?
    ensures CheckTitle(title).Some? ==> r == Err(CheckTitle(title).value)
    ensures CheckTitle(title).None? && CheckDescription(description).Err? ==> r == Err(ValidationError(DescriptionTooLong))
    ensures CheckTitle(title).None? && CheckDescription(description).Ok? && CheckStatus(status).Some? ==>
              r == Err(ValidationError(StatusInvalid))
    ensures && CheckTitle(title).None? && CheckDescription(description).Ok? && CheckStatus(status).None?
            && CheckDeadline(deadline, Today(now), parse).Err? ==>
              r == Err(CheckDeadline(deadline, Today(now), parse).error)
    ensures r.Ok? ==> && Some(r.value.title) == title && r.value.status == status
                      && r.value.projectId == projectId && r.value.createdAt == now
                      && r.value.closedAt.None?
                      && |r.value.description| <= MAX_DESCRIPTION_CHARS
                      && r.value.description == CheckDescription(description).value
                      && r.value.deadline == CheckDeadline(deadline, Today(now), parse).value
  {
    if CheckTitle(title).Some? then Err(CheckTitle(title).value)
    else
      var desc := CheckDescription(description);
      if desc.Err? then Err(desc.error)
      else if CheckStatus(status).Some? then Err(CheckStatus(status).value)
      else
        var day := CheckDeadline(deadline, Today(now), parse);
        if day.Err? then Err(day.error)
        else Ok(TaskRow(0, title.value, desc.value, status, day.value, None, projectId, now))
  }

  /** The constructor does not set `closed_at`, so a task created as "done" is
      done without a closing time. */
  lemma ConstructedDoneTaskHasNoClosedAt(projectId: int, title: string, now: Instant, parse: DateParser)
    requires CheckTitle(Some(title)).None?
    ensures Construct(projectId, Some(title), None, "done", None, now, parse).Ok?
    ensures !ClosedIffDone(Construct(projectId, Some(title), None, "done", None, now, parse).value)
  {
  }

  /** `closed_at` after a status change: set to now when becoming done with no
      closing time yet, kept when already set, cleared for any other status. */
  function ClosedAtAfter(closedAt: Option<Instant>, status: string, now: Instant): (c: Option<Instant>)
    ensures c.Some? <==> status == "done"
    ensures status == "done" && closedAt.Some? ==> c == closedAt
    ensures status == "done" && closedAt.None? ==> c == Some(now)
  {
    if status == "done" && closedAt.None? then Some(now)
    else if status != "done" then None
    else closedAt
  }

  /** The effect of `edit` on a task's row, and what it raises. Fields are
      assigned one at a time, each validated right after its assignment. Only an
      unparseable deadline string raises `ValueError`, which restores title,
      description, status and deadline (not `closed_at`); every `ValidationError`
      escapes the `except ValueError` and leaves the earlier assignments. */
  function EditOutcome(t: TaskRow, title: Option<string>, description: Option<string>,
                       status: Option<string>, deadline: Option<DeadlineValue>,
                       now: Instant, parse: DateParser): (res: (TaskRow, Option<Error>))
    ensures res.0.id == t.id && res.0.projectId == t.projectId && res.0.createdAt == t.createdAt
  {
    var t1 := if title.Some? then t.(title := title.value) else t;
    if title.Some? && CheckTitle(title).Some? then (t1, CheckTitle(title))
    else
      var t2 := if description.Some? then t1.(description := description.value) else t1;
      if description.Some? && CheckDescription(description).Err? then (t2, Some(CheckDescription(description).error))
      else
        var t3 := if status.Some? then t2.(status := status.value) else t2;
        if status.Some? && CheckStatus(status.value).Some? then (t3, CheckStatus(status.value))
        else
          var t4 := if status.Some? then t3.(closedAt := ClosedAtAfter(t3.closedAt, status.value, now)) else t3;
          EditDeadlineStep(t, t4, deadline, now, parse)
  }

  /** The last step of `edit`, on the row `t` left by the earlier steps of an
      edit of `original`: assign the deadline, then validate it. Only a string
      that does not parse raises `ValueError`, and then title, description,
      status and deadline go back to `original`'s. */
  function EditDeadlineStep(original: TaskRow, t: TaskRow, deadline: Option<DeadlineValue>,
                            now: Instant, parse: DateParser): (res: (TaskRow, Option<Error>))
    ensures res.1.None? || res.1.value.IsValidationError() ==> res.0 == t.(deadline := res.0.deadline)
    ensures res.1.Some? && !res.1.value.IsValidationError() ==>
              res == (t.(title := original.title, description := original.description, status := original.status,
                         deadline := original.deadline), Some(ValueError(BadDeadlineText)))
    ensures res.1.Some? && !res.1.value.IsValidationError() <==>
              deadline.Some? && deadline.value.DateText? && parse(deadline.value.text).None?
    ensures res.1.None? && deadline.Some? ==> res.0.deadline.Some? && Today(now) <= res.0.deadline.value
    ensures deadline.Some? && NamedDay(deadline.value, parse).Some? ==>
              && res.0 == t.(deadline := NamedDay(deadline.value, parse))
              && res.1 == if Today(now) <= NamedDay(deadline.value, parse).value then None else Some(InvalidDeadlineError)
    ensures deadline.None? ==> res == (t, None)
  {
    if deadline.None? then (t, None)
    else
      var day := NamedDay(deadline.value, parse);
      if day.None? then
        (t.(title := original.title, description := original.description, status := original.status,
            deadline := original.deadline),
         Some(ValueError(BadDeadlineText)))
      else
        var t5 := t.(deadline := day);
        var checked := CheckDeadline(Some(Date(day.value)), Today(now), parse);
        if checked.Err? then (t5, Some(checked.error)) else (t5, None)
  }

  /** A rollback happens only for an unparseable deadline string reached after
      every earlier check passed; it restores every field but `closed_at`. */
  lemma EditRollsBackOnlyOnBadDeadlineText(t: TaskRow, title: Option<string>, description: Option<string>,
                                           status: Option<string>, deadline: Option<DeadlineValue>,
                                           now: Instant, parse: DateParser)
    ensures var res := EditOutcome(t, title, description, status, deadline, now, parse);
            (res.1.Some? && res.1.value.IsValueError()) <==>
              && (title.None? || CheckTitle(title).None?)
              && (description.None? || CheckDescription(description).Ok?)
              && (status.None? || CheckStatus(status.value).None?)
              && deadline.Some? && deadline.value.DateText? && parse(deadline.value.text).None?
    ensures var res := EditOutcome(t, title, description, status, deadline, now, parse);
            res.1.Some? && res.1.value.IsValueError() ==> res.0 == t.(closedAt := res.0.closedAt)
  {
  }

  /** A `ValidationError` from `edit` is never rolled back: a given title is
      always left assigned, even when it is the title that failed. */
  lemma EditKeepsTitleOnValidationError(t: TaskRow, title: Option<string>, description: Option<string>,
                                        status: Option<string>, deadline: Option<DeadlineValue>,
                                        now: Instant, parse: DateParser)
    requires title.Some?
    ensures var res := EditOutcome(t, title, description, status, deadline, now, parse);
            res.1.Some? && res.1.value.IsValidationError() ==> res.0.title == title.value
  {
  }

  /** A valid new title followed by an over-long description: `edit` raises, and
      the title and description both stay changed. */
  lemma EditLeavesPartialWrites(t: TaskRow, title: string, description: string, now: Instant, parse: DateParser)
    requires CheckTitle(Some(title)).None? && |description| > MAX_DESCRIPTION_CHARS
    ensures EditOutcome(t, Some(title), Some(description), None, None, now, parse)
         == (t.(title := title, description := description), Some(ValidationError(DescriptionTooLong)))
  {
  }

  /** Marking a not-done task "done" while passing a deadline string that does
      not parse: the status is restored but the new `closed_at` stays, so the
      task ends up not done yet closed. */
  lemma EditRollbackBreaksClosedIffDone(t: TaskRow, text: string, now: Instant, parse: DateParser)
    requires t.status == "todo" && t.closedAt.None? && parse(text).None?
    ensures var res := EditOutcome(t, None, None, Some("done"), Some(DateText(text)), now, parse);
            && res.1 == Some(ValueError(BadDeadlineText))
            && res.0.status == "todo" && res.0.closedAt == Some(now)
            && ClosedIffDone(t) && !ClosedIffDone(res.0)
  {
  }

  /** A successful `edit` stores every given value, keeps the fields valid and
      the `closed_at`/done coupling, and any new deadline is not before today. */
  lemma EditSuccess(t: TaskRow, title: Option<string>, description: Option<string>,
                    status: Option<string>, deadline: Option<DeadlineValue>,
                    now: Instant, parse: DateParser)
    requires ClosedIffDone(t)
    requires EditOutcome(t, title, description, status, deadline, now, parse).1.None?
    ensures var r := EditOutcome(t, title, description, status, deadline, now, parse).0;
            && (title.Some? ==> r.title == title.value && CheckTitle(Some(r.title)).None?)
            && (description.Some? ==> r.description == description.value && |r.description| <= MAX_DESCRIPTION_CHARS)
            && (status.Some? ==> r.status == status.value && ValidStatus(r.status))
            && (deadline.Some? ==> r.deadline == NamedDay(deadline.value, parse) && r.deadline.Some?
                                   && Today(now) <= r.deadline.value)
            && (deadline.None? ==> r.deadline == t.deadline)
            && ClosedIffDone(r)
  {
  }

  /** `edit` succeeds exactly when every given field passes its check. */
  lemma EditSucceedsIff(t: TaskRow, title: Option<string>, description: Option<string>,
                        status: Option<string>, deadline: Option<DeadlineValue>,
                        now: Instant, parse: DateParser)
    ensures EditOutcome(t, title, description, status, deadline, now, parse).1.None? <==>
              && (title.None? || CheckTitle(title).None?)
              && (description.None? || CheckDescription(description).Ok?)
              && (status.None? || CheckStatus(status.value).None?)
              && CheckDeadline(deadline, Today(now), parse).Ok?
  {
  }

  /** A date before today is assigned and then refused: `edit` raises
      `InvalidDeadlineError` and, as a `ValidationError`, leaves it assigned. */
  lemma EditRefusesPastDate(t: TaskRow, d: Day, now: Instant, parse: DateParser)
    requires d < Today(now)
    ensures EditOutcome(t, None, None, None, Some(Date(d)), now, parse)
         == (t.(deadline := Some(d)), Some(InvalidDeadlineError))
  {
  }

  /** The ORM `Task` object. Its methods assign fields in place. */
  class Task {
    var id: int
    var title: string
    var description: string
    var status: string
    var deadline: Option<Day>
    var closedAt: Option<Instant>
    var projectId: int
    var createdAt: Instant

    function Row(): TaskRow
      reads this
    {
      TaskRow(id, title, description, status, deadline, closedAt, projectId, createdAt)
    }

    /** A task object holding the given columns (as loaded from the store). */
    constructor Load(row: TaskRow)
      ensures Row() == row
    {
      id, title, description, status := row.id, row.title, row.description, row.status;
      deadline, closedAt, projectId, createdAt := row.deadline, row.closedAt, row.projectId, row.createdAt;
    }

    /** `change_status`: an invalid status raises before anything is assigned;
        otherwise the status is written and `closed_at` follows it. */
    method ChangeStatus(newStatus: string, now: Instant) returns (err: Option<Error>)
      modifies this
      ensures err == CheckStatus(newStatus)
      ensures err.Some? ==> Row() == old(Row())
      ensures err.None? ==> Row() == old(Row()).(status := newStatus, closedAt := ClosedAtAfter(old(closedAt), newStatus, now))
      ensures err.None? && ClosedIffDone(old(Row())) ==> ClosedIffDone(Row())
    {
      if !ValidStatus(newStatus) {
        return Some(ValidationError(StatusInvalid));
      }
      status := newStatus;
      // `_validate_status` now passes, so the `except ValueError` rollback never runs.
      if newStatus == "done" && closedAt.None? {
        closedAt := Some(now);
      } else if newStatus != "done" {
        closedAt := None;
      }
      err := None;
    }

    /** `edit`: see `EditOutcome`. */
    method Edit(newTitle: Option<string>, newDescription: Option<string>, newStatus: Option<string>,
                newDeadline: Option<DeadlineValue>, now: Instant, parse: DateParser) returns (err: Option<Error>)
      modifies this
      ensures (Row(), err) == EditOutcome(old(Row()), newTitle, newDescription, newStatus, newDeadline, now, parse)
    {
      var original := Row();
      if newTitle.Some? {
        title := newTitle.value;
        err := CheckTitle(Some(title));
        if err.Some? {
          return;
        }
      }
      if newDescription.Some? {
        description := newDescription.value;
        var checked := CheckDescription(Some(description));
        if checked.Err? {
          return Some(checked.error);
        }
        description := checked.value;
      }
      if newStatus.Some? {
        status := newStatus.value;
        err := CheckStatus(status);
        if err.Some? {
          return;
        }
        if newStatus.value == "done" && closedAt.None? {
          closedAt := Some(now);
        } else if newStatus.value != "done" {
          closedAt := None;
        }
      }
      err := AssignDeadline(original, newDeadline, now, parse);
    }

    /** The deadline part of `edit`; `original` is the row before the edit began. */
    method AssignDeadline(original: TaskRow, newDeadline: Option<DeadlineValue>, now: Instant, parse: DateParser)
      returns (err: Option<Error>)
      modifies this
      ensures (Row(), err) == EditDeadlineStep(original, old(Row()), newDeadline, now, parse)
    {
      if newDeadline.Some? {
        if newDeadline.value.DateText? {
          var parsed := parse(newDeadline.value.text);
          if parsed.None? {
            // the `except ValueError` rollback; `closed_at` is not restored
            title, description, status, deadline := original.title, original.description, original.status, original.deadline;
            return Some(ValueError(BadDeadlineText));
          }
          deadline := parsed;
        } else {
          deadline := Some(newDeadline.value.day);
        }
        var checked := CheckDeadline(Some(Date(deadline.value)), Today(now), parse);
        if checked.Err? {
          return Some(checked.error);
        }
      }
      err := None;
    }
  }
}
