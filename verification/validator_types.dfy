/** The uniform result every validation returns, whichever schema library
    produced it. */
module ValidatorTypes {
  import opened Js

  /** One field-level failure: `{path, message, type?}`. The field `type`
      is a keyword here, so it is called `kind`. */
  datatype ErrorDetail = ErrorDetail(path: string, message: string, kind: Option<string>)

  /** `{success: true, data}` or `{success: false, errors}`: exactly one of
      the two by construction. */
  datatype ValidationResult<+D> = Valid(data: D) | Invalid(errors: seq<ErrorDetail>)
}
