/** Field rules shared by the request schemas, as the pydantic models apply
    them: a declared length bound is checked on the raw value first, and only
    then does a field validator run (and possibly strip the value). Every field
    is checked and all failures are reported together, in declaration order. */
module RequestFields {
  import opened Wrappers
  import Text

  /** A JSON member as it arrives: absent, `null`, or a value. */
  datatype Input<+T> = Missing | Null | Given(value: T)

  datatype Field = Title | Name | Description | Status | Deadline

  /** The pydantic error kinds these schemas can produce. */
  datatype Problem =
    | Required       // a required member is absent
    | NotNullable    // `null` for a member that is not Optional
    | TooShort       // below `min_length`
    | TooLong        // above `max_length`
    | Blank          // the validator found only whitespace
    | NotAStatus     // not one of the `TaskStatus` literals
    | PastDeadline   // the validator found a date before today

  datatype FieldError = FieldError(field: Field, problem: Problem)

  /** The failure of one field check, as a list of zero or one errors. */
  function ErrorsOf<T>(r: Result<T, FieldError>): (errs: seq<FieldError>)
    ensures |errs| <= 1
    ensures errs == [] <==> r.Ok?
  {
    if r.Err? then [r.error] else []
  }

  /** A required string with `min_length=1, max_length=maxLen` and the
      strip-and-refuse-blank validator. */
  function RequiredStripped(field: Field, v: Input<string>, maxLen: nat): (r: Result<string, FieldError>)
    ensures v.Missing? ==> r == Err(FieldError(field, Required))
    ensures v.Null? ==> r == Err(FieldError(field, NotNullable))
    ensures r.Ok? <==> v.Given? && 1 <= |v.value| <= maxLen && !Text.AllSpace(v.value)
    ensures r.Ok? ==> r.value == Text.Strip(v.value)
    ensures r.Err? ==> r.error.field == field
  {
    match v
    case Missing => Err(FieldError(field, Required))
    case Null => Err(FieldError(field, NotNullable))
    case Given(s) =>
      if |s| < 1 then Err(FieldError(field, TooShort))
      else if |s| > maxLen then Err(FieldError(field, TooLong))
      else if Text.Strip(s) == [] then Err(FieldError(field, Blank))
      else Ok(Text.Strip(s))
  }

  /** An optional string (default `None`) with the same bounds; the validator
      passes `None` through and strips any other value, refusing a blank one. */
  function OptionalStripped(field: Field, v: Input<string>, maxLen: nat): (r: Result<Option<string>, FieldError>)
    ensures !v.Given? ==> r == Ok(None)
    ensures v.Given? ==> (r.Ok? <==> 1 <= |v.value| <= maxLen && !Text.AllSpace(v.value))
    ensures v.Given? && r.Ok? ==> r.value == Some(Text.Strip(v.value))
    ensures r.Err? ==> r.error.field == field
  {
    match v
    case Given(s) =>
      if |s| < 1 then Err(FieldError(field, TooShort))
      else if |s| > maxLen then Err(FieldError(field, TooLong))
      else if Text.Strip(s) == [] then Err(FieldError(field, Blank))
      else Ok(Some(Text.Strip(s)))
    case _ => Ok(None)
  }

  /** An optional string with `max_length=maxLen` and no validator; an absent
      member takes `default`, an explicit `null` stays `None`. */
  function OptionalText(field: Field, v: Input<string>, default: Option<string>, maxLen: nat): (r: Result<Option<string>, FieldError>)
    ensures v.Missing? ==> r == Ok(default)
    ensures v.Null? ==> r == Ok(None)
    ensures v.Given? ==> (r.Ok? <==> |v.value| <= maxLen)
    ensures v.Given? && r.Ok? ==> r.value == Some(v.value)
    ensures r.Err? ==> r.error == FieldError(field, TooLong)
  {
    match v
    case Missing => Ok(default)
    case Null => Ok(None)
    case Given(s) => if |s| > maxLen then Err(FieldError(field, TooLong)) else Ok(Some(s))
  }

  /** Stripping gives a value the entity's title check would also accept: not
      blank, no longer than the raw value, and with no space at either end. */
  lemma StripKeepsBoundsAndContent(s: string, maxLen: nat)
    requires |s| <= maxLen && !Text.AllSpace(s)
    ensures 1 <= |Text.Strip(s)| <= maxLen && !Text.AllSpace(Text.Strip(s))
    ensures !Text.IsSpace(Text.Strip(s)[0]) && !Text.IsSpace(Text.Strip(s)[|Text.Strip(s)| - 1])
  {
    assert !Text.IsSpace(Text.Strip(s)[0]);
  }
}
