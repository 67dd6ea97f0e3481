/** The four account handlers as pure transitions from a store and a request
    to a new store and a response. Foreign calls are parameters:
    `isEmail` (the validator's e-mail test), `hashed` (what argon2 produced
    for the submitted password), `passwordMatches` (argon2's verify, stored
    hash first), `token` (what `randomString(200)` produced), `sign` (the
    JWT signer, given the payload and the lifetime in seconds) and `now`. */
module AuthController {
  import opened Wrappers
  import opened Text
  import opened Store
  import opened Validation

  /** The record kind the resend handler looks up to supersede: it differs
      from `ActivationKind` in case and by a doubled letter. */
  const ResendLookupKind := "Register new aaccount"

  /** Session lifetime passed to the signer, in seconds. */
  const TokenLifetime := 3600

  const EmailTaken := "Email already registered"
  const TokenUnknown := "Verification data not found"
  const BadCredentials := "Invalid Email or Password"
  const NotVerified := "Please verify your account before log in"
  const EmailUnknown := "Email not found"
  const InternalError := "Internal Server Error"

  datatype Payload =
    | NoData
    | Invalid(errors: seq<string>)
    | Failed(message: string)
    | Registered(user: PublicUser, verification: Verification)
    | SessionToken(token: string)
    | Reissued(verification: Verification)

  datatype Outcome = Outcome(status: nat, payload: Payload)

  datatype Step = Step(store: Store, outcome: Outcome)

  /** POST /register. Validation, then the duplicate check on the
      lower-cased e-mail, then one new unverified account and one activation
      record bound to it. */
  function Register(s: Store, form: RegisterForm, isEmail: string -> bool,
                    hashed: string, token: string, now: Timestamp): (r: Step)
    ensures !RegisterAccepted(form, isEmail) ==>
      r.store == s && r.outcome == Outcome(422, Invalid(RegisterErrors(form, isEmail)))
    ensures (RegisterAccepted(form, isEmail)
             && FindUserByEmail(s.users, Lower(FieldText(form.email))).Some?) ==>
      r.store == s && r.outcome == Outcome(422, Failed(EmailTaken))
    ensures r.outcome.status == 201 <==>
      RegisterAccepted(form, isEmail) && FindUserByEmail(s.users, Lower(FieldText(form.email))).None?
    ensures r.outcome.status == 201 ==>
      var id := |s.users|;
      && |r.store.users| == id + 1
      && r.store.users[..id] == s.users
      && r.store.users[id].fullName == Trim(FieldText(form.fullName))
      && r.store.users[id].email == NormalizeEmail(FieldText(form.email))
      && r.store.users[id].passwordHash == hashed
      && !r.store.users[id].verified
      && r.store.users[id].verifiedAt == None
      && r.store.users[id].createdAt == now
      && r.store.records == s.records + [Verification(token, id, ActivationKind)]
      && r.outcome.payload == Registered(PublicView(id, r.store.users[id]), r.store.records[|s.records|])
  {
    var errs := RegisterErrors(form, isEmail);
    if errs != [] then
      Step(s, Outcome(422, Invalid(errs)))
    else
      var email := FieldText(form.email);
      if FindUserByEmail(s.users, Lower(email)).Some? then
        Step(s, Outcome(422, Failed(EmailTaken)))
      else
        var id := |s.users|;
        var user := User(Trim(FieldText(form.fullName)), NormalizeEmail(email), hashed, false, None, now);
        var record := Verification(token, id, ActivationKind);
        Step(Store(s.users + [user], s.records + [record]),
             Outcome(201, Registered(PublicView(id, user), record)))
  }

  /** GET /verify/:token. Consumes the first activation record carrying the
      token and marks its account verified at `now`. A record whose account
      is gone makes the handler fail with 500 before any write. */
  function Verify(s: Store, token: string, now: Timestamp): (r: Step)
    ensures FindActivation(s.records, token).None? ==>
      r.store == s && r.outcome == Outcome(400, Failed(TokenUnknown))
    ensures r.outcome.status == 200 ==>
      var i := FindActivation(s.records, token).value;
      var id := s.records[i].userId;
      && id < |s.users|
      && |r.store.users| == |s.users|
      && r.store.users[id] == s.users[id].(verified := true, verifiedAt := Some(now))
      && (forall j :: 0 <= j < |s.users| && j != id ==> r.store.users[j] == s.users[j])
      && r.store.records == RemoveAt(s.records, i)
    ensures r.outcome.status == 400 <==> FindActivation(s.records, token).None?
    ensures r.outcome.status == 500 <==>
      FindActivation(s.records, token).Some? && s.records[FindActivation(s.records, token).value].userId >= |s.users|
    ensures r.outcome.status in {200, 400, 500}
    ensures r.outcome.status != 200 ==> r.store == s
  {
    match FindActivation(s.records, token)
    case None =>
      Step(s, Outcome(400, Failed(TokenUnknown)))
    case Some(i) =>
      var id := s.records[i].userId;
      if id >= |s.users| then
        Step(s, Outcome(500, Failed(InternalError)))
      else
        var user := s.users[id].(verified := true, verifiedAt := Some(now));
        Step(Store(s.users[id := user], RemoveAt(s.records, i)), Outcome(200, NoData))
  }

  /** POST /login. The account is looked up by the e-mail exactly as sent.
      An unknown e-mail and a wrong password give the same answer; a correct
      password on an unverified account gives 400; success signs the
      account's id, name and e-mail for one hour. The store is never
      written. */
  function Login(s: Store, form: LoginForm, isEmail: string -> bool,
                 passwordMatches: (string, string) -> bool,
                 sign: (SessionPayload, nat) -> string): (r: Step)
    ensures r.store == s
    ensures !LoginAccepted(form, isEmail) ==>
      r.outcome == Outcome(422, Invalid(LoginErrors(form, isEmail)))
    ensures r.outcome.status == 200 <==>
      && LoginAccepted(form, isEmail)
      && var found := FindUserByEmail(s.users, FieldText(form.email));
      && found.Some?
      && passwordMatches(s.users[found.value].passwordHash, FieldText(form.password))
      && s.users[found.value].verified
    ensures r.outcome.status == 200 ==>
      var id := FindUserByEmail(s.users, FieldText(form.email)).value;
      r.outcome.payload == SessionToken(sign(SessionPayload(Claims(id, s.users[id].fullName, s.users[id].email)), TokenLifetime))
  {
    var errs := LoginErrors(form, isEmail);
    if errs != [] then
      Step(s, Outcome(422, Invalid(errs)))
    else
      match FindUserByEmail(s.users, FieldText(form.email))
      case None =>
        Step(s, Outcome(422, Failed(BadCredentials)))
      case Some(id) =>
        var user := s.users[id];
        if !passwordMatches(user.passwordHash, FieldText(form.password)) then
          Step(s, Outcome(422, Failed(BadCredentials)))
        else if !user.verified then
          Step(s, Outcome(400, Failed(NotVerified)))
        else
          var payload := SessionPayload(Claims(id, user.fullName, user.email));
          Step(s, Outcome(200, SessionToken(sign(payload, TokenLifetime))))
  }

  /** POST /verify/resend, parameterised by the record kind it supersedes.
      A missing e-mail is refused before any lookup; the account is found by
      the lower-cased e-mail; the first record of that account and kind, if
      any, is deleted; a fresh activation record is appended. */
  function Resend(s: Store, email: Option<string>, supersededKind: string, token: string): (r: Step)
    ensures !Filled(email) ==> r.store == s && r.outcome == Outcome(422, Failed(EmailRequired))
    ensures Filled(email) && FindUserByEmail(s.users, Lower(email.value)).None? ==>
      r.store == s && r.outcome == Outcome(404, Failed(EmailUnknown))
    ensures r.outcome.status == 201 <==> Filled(email) && FindUserByEmail(s.users, Lower(email.value)).Some?
    ensures r.outcome.status == 201 ==>
      var id := FindUserByEmail(s.users, Lower(email.value)).value;
      var issued := Verification(token, id, ActivationKind);
      && r.store.users == s.users
      && r.outcome.payload == Reissued(issued)
      && (match FindRecordOf(s.records, id, supersededKind)
          case None => r.store.records == s.records + [issued]
          case Some(i) => r.store.records == RemoveAt(s.records, i) + [issued])
  {
    if FieldText(email) == "" then
      Step(s, Outcome(422, Failed(EmailRequired)))
    else
      match FindUserByEmail(s.users, Lower(email.value))
      case None =>
        Step(s, Outcome(404, Failed(EmailUnknown)))
      case Some(id) =>
        var kept :=
          (match FindRecordOf(s.records, id, supersededKind)
           case None => s.records
           case Some(i) => RemoveAt(s.records, i));
        var issued := Verification(token, id, ActivationKind);
        Step(Store(s.users, kept + [issued]), Outcome(201, Reissued(issued)))
  }

  /** The resend handler as written: it supersedes records of kind
      `ResendLookupKind`, a kind no handler ever writes, so on a store of
      activation records it deletes nothing. */
  function ResendVerification(s: Store, email: Option<string>, token: string): (r: Step)
    ensures (AllActivation(s.records) && Filled(email)
             && FindUserByEmail(s.users, Lower(email.value)).Some?) ==>
      && r.outcome.status == 201
      && r.store.users == s.users
      && r.store.records == s.records + [Verification(token, FindUserByEmail(s.users, Lower(email.value)).value, ActivationKind)]
  {
    Resend(s, email, ResendLookupKind, token)
  }

  /** The resend handler with the lookup kind it evidently meant: when the
      account had at most one pending activation, the freshly appended
      record is the only one it has afterwards. */
  function ResendVerificationFixed(s: Store, email: Option<string>, token: string): (r: Step)
    ensures (Filled(email) && FindUserByEmail(s.users, Lower(email.value)).Some?) ==>
      var id := FindUserByEmail(s.users, Lower(email.value)).value;
      && r.outcome.status == 201
      && r.store.users == s.users
      && |r.store.records| >= 1
      && r.store.records[|r.store.records| - 1] == Verification(token, id, ActivationKind)
      && (OnePendingPerUser(s.records) && AllActivation(s.records) ==>
            forall j :: 0 <= j < |r.store.records| - 1 ==> r.store.records[j].userId != id)
  {
    var r := Resend(s, email, ActivationKind, token);
    if Filled(email) && FindUserByEmail(s.users, Lower(email.value)).Some? then
      var id := FindUserByEmail(s.users, Lower(email.value)).value;
      match FindRecordOf(s.records, id, ActivationKind)
      case None =>
        assert r.store.records[..|r.store.records| - 1] == s.records;
        r
      case Some(i) =>
        RemoveAtKeepsInvariants(s.records, i);
        assert r.store.records[..|r.store.records| - 1] == RemoveAt(s.records, i);
        r
    else r
  }
}
