/** The execute callback of the chat route's validateFormData tool: a wrapper
    over FormSchema.safeParse that reports the issues on failure and nothing
    (undefined) on success. */
module ChatRoute {
  import opened JsValues
  import opened FormSchema

  /** None stands for the undefined the callback returns on success; Some
      carries the issues behind the { error } object it returns otherwise. */
  function ExecuteValidateFormData(formData: Value, isEmail: string -> bool): (r: Option<seq<Issue>>)
    ensures r.None? <==> Acceptable(formData, isEmail)
    ensures r.Some? ==> r.value == ExpectedIssues(formData, isEmail) && |r.value| > 0
  {
    ValidateSucceedsIff(formData, isEmail);
    ValidateReportsExactly(formData, isEmail);
    match Validate(formData, isEmail)
    case Ok(_) => None
    case Err(issues) => Some(issues)
  }
}
