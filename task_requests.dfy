/** api/controller_schemas/requests/task_requests.py: the task request bodies.
    A deadline arrives already read as a date. */
module TaskRequests {
  import opened Wrappers
  import opened Time
  import opened RequestFields
  import TaskModel
  import Text

  /** The `TaskStatus` literal type. */
  const TASK_STATUSES: seq<string> := ["todo", "doing", "done"]
  const DEFAULT_STATUS: string := "todo"
  const MAX_TITLE_CHARS: nat := 30
  const MAX_DESCRIPTION_CHARS: nat := 150

  predicate IsTaskStatus(s: string)
  {
    s in TASK_STATUSES
  }

  /** The request enum and the entity's `VALID_STATUSES` are the same three values. */
  lemma TaskStatusMatchesEntity(s: string)
    ensures IsTaskStatus(s) <==> TaskModel.ValidStatus(s)
    ensures IsTaskStatus(s) <==> s == "todo" || s == "doing" || s == "done"
  {
  }

  /** An `Optional[TaskStatus]` member: absent takes `default`, `null` stays `None`. */
  function OptionalStatus(v: Input<string>, default: Option<string>): (r: Result<Option<string>, FieldError>)
    ensures v.Missing? ==> r == Ok(default)
    ensures v.Null? ==> r == Ok(None)
    ensures v.Given? ==> (r.Ok? <==> IsTaskStatus(v.value)) && (r.Ok? ==> r.value == Some(v.value))
    ensures r.Err? ==> r.error == FieldError(Status, NotAStatus)
  {
    match v
    case Missing => Ok(default)
    case Null => Ok(None)
    case Given(s) => if IsTaskStatus(s) then Ok(Some(s)) else Err(FieldError(Status, NotAStatus))
  }

  /** `validate_deadline` on an `Optional[date]` member: `None` passes, a date
      before today is refused, today passes. */
  function OptionalDeadline(v: Input<Day>, today: Day): (r: Result<Option<Day>, FieldError>)
    ensures !v.Given? ==> r == Ok(None)
    ensures v.Given? ==> (r.Ok? <==> today <= v.value) && (r.Ok? ==> r.value == Some(v.value))
    ensures r.Err? ==> r.error == FieldError(Deadline, PastDeadline)
  {
    match v
    case Given(d) => if d < today then Err(FieldError(Deadline, PastDeadline)) else Ok(Some(d))
    case _ => Ok(None)
  }

  datatype TaskCreateRequest = TaskCreateRequest(
    title: string, description: Option<string>, status: Option<string>, deadline: Option<Day>)

  /** `TaskCreateRequest`: every field is checked and the failures are listed in
      declaration order. */
  function ParseTaskCreate(title: Input<string>, description: Input<string>, status: Input<string>,
                           deadline: Input<Day>, today: Day): (r: Result<TaskCreateRequest, seq<FieldError>>)
    ensures var t := RequiredStripped(Title, title, MAX_TITLE_CHARS);
            var d := OptionalText(Description, description, Some(""), MAX_DESCRIPTION_CHARS);
            var s := OptionalStatus(status, Some(DEFAULT_STATUS));
            var dl := OptionalDeadline(deadline, today);
            && (r.Ok? <==> t.Ok? && d.Ok? && s.Ok? && dl.Ok?)
            && (r.Ok? ==> r.value == TaskCreateRequest(t.value, d.value, s.value, dl.value))
            && (r.Err? ==> r.error == ErrorsOf(t) + ErrorsOf(d) + ErrorsOf(s) + ErrorsOf(dl) && r.error != [])
    ensures r.Ok? ==> title.Given? && r.value.title == Text.Strip(title.value)
    ensures r.Ok? && description.Missing? ==> r.value.description == Some("")
    ensures r.Ok? && status.Missing? ==> r.value.status == Some(DEFAULT_STATUS)
    ensures r.Ok? && !deadline.Given? ==> r.value.deadline.None?
  {
    var t := RequiredStripped(Title, title, MAX_TITLE_CHARS);
    var d := OptionalText(Description, description, Some(""), MAX_DESCRIPTION_CHARS);
    var s := OptionalStatus(status, Some(DEFAULT_STATUS));
    var dl := OptionalDeadline(deadline, today);
    if t.Ok? && d.Ok? && s.Ok? && dl.Ok? then Ok(TaskCreateRequest(t.value, d.value, s.value, dl.value))
    else Err(ErrorsOf(t) + ErrorsOf(d) + ErrorsOf(s) + ErrorsOf(dl))
  }

  /** Whatever the create schema accepts the Task entity accepts too, on the
      same day. */
  lemma CreateRequestFitsEntity(title: Input<string>, description: Input<string>, status: Input<string>,
                                deadline: Input<Day>, today: Day, parse: DateParser)
    requires ParseTaskCreate(title, description, status, deadline, today).Ok?
    ensures var req := ParseTaskCreate(title, description, status, deadline, today).value;
            TaskModel.CheckTitle(Some(req.title)).None?
    ensures var req := ParseTaskCreate(title, description, status, deadline, today).value;
            TaskModel.CheckDescription(req.description).Ok?
    ensures var req := ParseTaskCreate(title, description, status, deadline, today).value;
            req.status.Some? ==> TaskModel.CheckStatus(req.status.value).None?
    ensures var req := ParseTaskCreate(title, description, status, deadline, today).value;
            req.deadline.Some? ==> TaskModel.CheckDeadline(Some(TaskModel.Date(req.deadline.value)), today, parse).Ok?
  {
    var req := ParseTaskCreate(title, description, status, deadline, today).value;
    var t := RequiredStripped(Title, title, MAX_TITLE_CHARS);
    var d := OptionalText(Description, description, Some(""), MAX_DESCRIPTION_CHARS);
    var s := OptionalStatus(status, Some(DEFAULT_STATUS));
    var dl := OptionalDeadline(deadline, today);
    assert t.Ok? && d.Ok? && s.Ok? && dl.Ok?;
    assert req == TaskCreateRequest(t.value, d.value, s.value, dl.value);
    StrippedTitleFitsEntity(title.value);
    if req.deadline.Some? {
      DeadlineFitsEntity(deadline, today, parse);
    }
  }

  /** A deadline the schema accepts is one the entity accepts on the same day. */
  lemma DeadlineFitsEntity(deadline: Input<Day>, today: Day, parse: DateParser)
    requires OptionalDeadline(deadline, today).Ok? && OptionalDeadline(deadline, today).value.Some?
    ensures TaskModel.CheckDeadline(Some(TaskModel.Date(deadline.value)), today, parse) == Ok(Some(deadline.value))
  {
  }

  /** A title the schema accepts still passes the entity's title check once stripped. */
  lemma StrippedTitleFitsEntity(title: string)
    requires 1 <= |title| <= MAX_TITLE_CHARS && !Text.AllSpace(title)
    ensures TaskModel.CheckTitle(Some(Text.Strip(title))).None?
  {
    StripKeepsBoundsAndContent(title, MAX_TITLE_CHARS);
  }

  datatype TaskUpdateRequest = TaskUpdateRequest(
    title: Option<string>, description: Option<string>, status: Option<string>, deadline: Option<Day>)

  /** `TaskUpdateRequest`: every member optional with default `None`. */
  function ParseTaskUpdate(title: Input<string>, description: Input<string>, status: Input<string>,
                           deadline: Input<Day>, today: Day): (r: Result<TaskUpdateRequest, seq<FieldError>>)
    ensures var t := OptionalStripped(Title, title, MAX_TITLE_CHARS);
            var d := OptionalText(Description, description, None, MAX_DESCRIPTION_CHARS);
            var s := OptionalStatus(status, None);
            var dl := OptionalDeadline(deadline, today);
            && (r.Ok? <==> t.Ok? && d.Ok? && s.Ok? && dl.Ok?)
            && (r.Ok? ==> r.value == TaskUpdateRequest(t.value, d.value, s.value, dl.value))
            && (r.Err? ==> r.error == ErrorsOf(t) + ErrorsOf(d) + ErrorsOf(s) + ErrorsOf(dl) && r.error != [])
    ensures title.Missing? && description.Missing? && status.Missing? && deadline.Missing? ==>
              r == Ok(TaskUpdateRequest(None, None, None, None))
    ensures r.Ok? && r.value.title.Some? ==> title.Given? && r.value.title.value == Text.Strip(title.value)
                                              && TaskModel.CheckTitle(r.value.title).None?
  {
    var t := OptionalStripped(Title, title, MAX_TITLE_CHARS);
    var d := OptionalText(Description, description, None, MAX_DESCRIPTION_CHARS);
    var s := OptionalStatus(status, None);
    var dl := OptionalDeadline(deadline, today);
    if t.Ok? && d.Ok? && s.Ok? && dl.Ok? then
      if t.value.Some? then
        StripKeepsBoundsAndContent(title.value, MAX_TITLE_CHARS);
        Ok(TaskUpdateRequest(t.value, d.value, s.value, dl.value))
      else Ok(TaskUpdateRequest(t.value, d.value, s.value, dl.value))
    else Err(ErrorsOf(t) + ErrorsOf(d) + ErrorsOf(s) + ErrorsOf(dl))
  }

  /** `TaskStatusUpdateRequest`: a required member of the enum. */
  function ParseStatusUpdate(status: Input<string>): (r: Result<string, seq<FieldError>>)
    ensures r.Ok? <==> status.Given? && IsTaskStatus(status.value)
    ensures r.Ok? ==> r.value == status.value && TaskModel.CheckStatus(r.value).None?
    ensures status.Missing? ==> r == Err([FieldError(Status, Required)])
    ensures status.Null? ==> r == Err([FieldError(Status, NotNullable)])
    ensures status.Given? && r.Err? ==> r == Err([FieldError(Status, NotAStatus)])
  {
    match status
    case Missing => Err([FieldError(Status, Required)])
    case Null => Err([FieldError(Status, NotNullable)])
    case Given(s) => if IsTaskStatus(s) then Ok(s) else Err([FieldError(Status, NotAStatus)])
  }
}
