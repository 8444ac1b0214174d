/**
 * The rule chain that guards user creation: `email` must satisfy `isEmail`,
 * `password` must be at least six characters long, `name` must not be empty.
 * `validationResult(req).array()` lists one error per failed rule, in the
 * order the rules are declared.
 *
 * The `isEmail` check is an abstract input (its implementation is not part
 * of the model); `isLength({min: 6})` and `notEmpty()` are written out.
 */
module Validation {

  /**
   * One entry of the error array: the kind of error (`type` in the JSON,
   * always "field" here), the submitted value, the message, the field and
   * where in the request it was read (always "body" here).
   */
  datatype FieldError = FieldError(kind: string, value: string, msg: string, path: string, location: string)

  /** The entry a failed rule on body field `path` reports. */
  function RuleError(path: string, msg: string, value: string): FieldError {
    FieldError("field", value, msg, path, "body")
  }

  const EmailMessage: string := "Must be a valid email address"
  const PasswordMessage: string := "Password must be at least 6 characters long"
  const NameMessage: string := "Name is required"
  const MinPasswordLength: nat := 6

  /** `isLength({min: 6})`: the password has at least six characters; a long enough password is never empty. */
  function LongEnough(password: string): (ok: bool)
    ensures ok <==> MinPasswordLength <= |password|
    ensures ok ==> NotEmpty(password)
  {
    |password| >= MinPasswordLength
  }

  /** `notEmpty()`: only the empty string fails; a name of spaces passes. */
  function NotEmpty(name: string): (ok: bool)
    ensures ok <==> name != ""
  {
    |name| > 0
  }

  /** Position of a field in the declared rule chain. */
  function RuleIndex(path: string): nat {
    if path == "email" then 0 else if path == "password" then 1 else 2
  }

  function FailIf(failed: bool, e: FieldError): seq<FieldError> {
    if failed then [e] else []
  }

  /** The errors the three creation rules report for one request body. */
  function CreateErrors(email: string, password: string, name: string, emailIsEmail: bool): (errs: seq<FieldError>)
    ensures errs == [] <==> emailIsEmail && LongEnough(password) && NotEmpty(name)
    ensures RuleError("email", EmailMessage, email) in errs <==> !emailIsEmail
    ensures RuleError("password", PasswordMessage, password) in errs <==> !LongEnough(password)
    ensures RuleError("name", NameMessage, name) in errs <==> !NotEmpty(name)
    ensures forall e :: e in errs ==>
      e == RuleError("email", EmailMessage, email) ||
      e == RuleError("password", PasswordMessage, password) ||
      e == RuleError("name", NameMessage, name)
    ensures forall i, j :: 0 <= i < j < |errs| ==> RuleIndex(errs[i].path) < RuleIndex(errs[j].path)
  {
    FailIf(!emailIsEmail, RuleError("email", EmailMessage, email))
    + FailIf(!LongEnough(password), RuleError("password", PasswordMessage, password))
    + FailIf(!NotEmpty(name), RuleError("name", NameMessage, name))
  }
}
