/** api/controller_schemas/requests/project_requests.py: the project request bodies. */
module ProjectRequests {
  import opened Wrappers
  import opened RequestFields
  import Text

  const MAX_NAME_CHARS: nat := 30
  const MAX_DESCRIPTION_CHARS: nat := 150

  datatype ProjectCreateRequest = ProjectCreateRequest(name: string, description: Option<string>)

  /** `ProjectCreateRequest`: a required name of 1-30 characters, stripped and
      not blank; a description of at most 150 characters defaulting to "". */
  function ParseProjectCreate(name: Input<string>, description: Input<string>): (r: Result<ProjectCreateRequest, seq<FieldError>>)
    ensures var n := RequiredStripped(Name, name, MAX_NAME_CHARS);
            var d := OptionalText(Description, description, Some(""), MAX_DESCRIPTION_CHARS);
            && (r.Ok? <==> n.Ok? && d.Ok?)
            && (r.Ok? ==> r.value == ProjectCreateRequest(n.value, d.value))
            && (r.Err? ==> r.error == ErrorsOf(n) + ErrorsOf(d) && r.error != [])
    ensures r.Ok? ==> && name.Given? && r.value.name == Text.Strip(name.value)
                      && 1 <= |r.value.name| <= MAX_NAME_CHARS && !Text.AllSpace(r.value.name)
    ensures r.Ok? && description.Missing? ==> r.value.description == Some("")
    ensures r.Ok? && r.value.description.Some? ==> |r.value.description.value| <= MAX_DESCRIPTION_CHARS
  {
    var n := RequiredStripped(Name, name, MAX_NAME_CHARS);
    var d := OptionalText(Description, description, Some(""), MAX_DESCRIPTION_CHARS);
    if n.Ok? && d.Ok? then
      StripKeepsBoundsAndContent(name.value, MAX_NAME_CHARS);
      Ok(ProjectCreateRequest(n.value, d.value))
    else Err(ErrorsOf(n) + ErrorsOf(d))
  }

  datatype ProjectUpdateRequest = ProjectUpdateRequest(name: Option<string>, description: Option<string>)

  /** `ProjectUpdateRequest`: both members optional with default `None`; a
      given name is stripped and must not be blank. */
  function ParseProjectUpdate(name: Input<string>, description: Input<string>): (r: Result<ProjectUpdateRequest, seq<FieldError>>)
    ensures var n := OptionalStripped(Name, name, MAX_NAME_CHARS);
            var d := OptionalText(Description, description, None, MAX_DESCRIPTION_CHARS);
            && (r.Ok? <==> n.Ok? && d.Ok?)
            && (r.Ok? ==> r.value == ProjectUpdateRequest(n.value, d.value))
            && (r.Err? ==> r.error == ErrorsOf(n) + ErrorsOf(d) && r.error != [])
    ensures !name.Given? && !description.Given? ==> r == Ok(ProjectUpdateRequest(None, None))
    ensures r.Ok? && r.value.name.Some? ==> && name.Given? && r.value.name.value == Text.Strip(name.value)
                                            && 1 <= |r.value.name.value| <= MAX_NAME_CHARS
                                            && !Text.AllSpace(r.value.name.value)
    ensures r.Ok? && r.value.description.Some? ==> |r.value.description.value| <= MAX_DESCRIPTION_CHARS
  {
    var n := OptionalStripped(Name, name, MAX_NAME_CHARS);
    var d := OptionalText(Description, description, None, MAX_DESCRIPTION_CHARS);
    if n.Ok? && d.Ok? then
      if n.value.Some? then
        StripKeepsBoundsAndContent(name.value, MAX_NAME_CHARS);
        Ok(ProjectUpdateRequest(n.value, d.value))
      else Ok(ProjectUpdateRequest(n.value, d.value))
    else Err(ErrorsOf(n) + ErrorsOf(d))
  }
}
