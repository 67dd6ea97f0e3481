/** The request-body checks that run before the register and login handlers.
    Every check of a chain runs; the failures are reported in chain order.
    The e-mail syntax test (`isEmail`) belongs to a foreign library and is a
    parameter. */
module Validation {
  import opened Wrappers

  const FullNameRequired := "Full Name is required"
  const EmailRequired := "Email is required"
  const EmailMalformed := "Please enter valid email"
  const PasswordRequired := "Password is required"

  datatype RegisterForm = RegisterForm(fullName: Option<string>, email: Option<string>, password: Option<string>)

  datatype LoginForm = LoginForm(email: Option<string>, password: Option<string>)

  /** The validator reads an absent field as the empty string. */
  function FieldText(f: Option<string>): (text: string) {
    match f
    case None => ""
    case Some(v) => v
  }

  /** `not().isEmpty()` / `notEmpty()`: present and of non-zero length
      (whitespace counts as content). */
  predicate Filled(f: Option<string>) {
    f.Some? && f.value != ""
  }

  /** What the register chain demands of a request. */
  predicate RegisterAccepted(form: RegisterForm, isEmail: string -> bool) {
    && Filled(form.fullName)
    && Filled(form.email)
    && isEmail(FieldText(form.email))
    && Filled(form.password)
  }

  /** What the login chain demands of a request. */
  predicate LoginAccepted(form: LoginForm, isEmail: string -> bool) {
    && Filled(form.email)
    && isEmail(FieldText(form.email))
    && Filled(form.password)
  }

  function Check(ok: bool, message: string): (errs: seq<string>) {
    if ok then [] else [message]
  }

  /** The messages the register chain reports, in chain order. */
  function RegisterErrors(form: RegisterForm, isEmail: string -> bool): (errs: seq<string>)
    ensures errs == [] <==> RegisterAccepted(form, isEmail)
    ensures FullNameRequired in errs <==> !Filled(form.fullName)
    ensures EmailRequired in errs <==> !Filled(form.email)
    ensures EmailMalformed in errs <==> !isEmail(FieldText(form.email))
    ensures PasswordRequired in errs <==> !Filled(form.password)
    ensures |errs| <= 4
  {
    Check(FieldText(form.fullName) != "", FullNameRequired)
    + Check(FieldText(form.email) != "", EmailRequired)
    + Check(isEmail(FieldText(form.email)), EmailMalformed)
    + Check(FieldText(form.password) != "", PasswordRequired)
  }

  /** The messages the login chain reports, in chain order. */
  function LoginErrors(form: LoginForm, isEmail: string -> bool): (errs: seq<string>)
    ensures errs == [] <==> LoginAccepted(form, isEmail)
    ensures EmailRequired in errs <==> !Filled(form.email)
    ensures EmailMalformed in errs <==> !isEmail(FieldText(form.email))
    ensures PasswordRequired in errs <==> !Filled(form.password)
    ensures FullNameRequired !in errs
    ensures |errs| <= 3
  {
    Check(FieldText(form.email) != "", EmailRequired)
    + Check(isEmail(FieldText(form.email)), EmailMalformed)
    + Check(FieldText(form.password) != "", PasswordRequired)
  }
}
