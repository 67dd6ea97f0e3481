/** Properties that relate several handler calls: the store invariant each
    handler keeps, the single-use life of an activation token, the quirks of
    the e-mail keys, and the end-to-end register, verify, login path. */
module Workflow {
  import opened Wrappers
  import opened Text
  import opened Store
  import opened Validation
  import opened AuthController

  // ---------------------------------------------------------------------
  // The store invariant

  lemma RegisterKeepsWellFormed(s: Store, form: RegisterForm, isEmail: string -> bool,
                                hashed: string, token: string, now: Timestamp)
    requires WellFormed(s) && TokenFresh(s, token)
    ensures WellFormed(Register(s, form, isEmail, hashed, token, now).store)
    ensures OnePendingPerUser(s.records) ==>
      OnePendingPerUser(Register(s, form, isEmail, hashed, token, now).store.records)
  {
    var r := Register(s, form, isEmail, hashed, token, now);
    if r.outcome.status == 201 {
      var v := Verification(token, |s.users|, ActivationKind);
      assert r.store.records == s.records + [v];
      assert |r.store.users| == |s.users| + 1;
      AppendKeepsInvariants(s.records, v);
    } else {
      assert r.store == s;
    }
  }

  lemma {:induction false} VerifyKeepsWellFormed(s: Store, token: string, now: Timestamp)
    requires WellFormed(s)
    ensures WellFormed(Verify(s, token, now).store)
    ensures OnePendingPerUser(s.records) ==> OnePendingPerUser(Verify(s, token, now).store.records)
  {
    var r := Verify(s, token, now);
    if r.outcome.status == 200 {
      var i := FindActivation(s.records, token).value;
      var kept := r.store.records;
      assert forall j :: 0 <= j < |kept| ==> kept[j] == s.records[if j < i then j else j + 1];
    }
  }

  lemma ResendKeepsWellFormed(s: Store, email: Option<string>, token: string)
    requires WellFormed(s) && TokenFresh(s, token)
    ensures WellFormed(ResendVerification(s, email, token).store)
  {
  }

  /** Appending an activation record for an existing account that has no
      record left, under an unused token, keeps the whole invariant. */
  lemma ReissueKeepsInvariants(users: seq<User>, kept: seq<Verification>, v: Verification)
    requires WellFormed(Store(users, kept)) && OnePendingPerUser(kept)
    requires v.userId < |users| && v.kind == ActivationKind
    requires forall j :: 0 <= j < |kept| ==> kept[j].token != v.token && kept[j].userId != v.userId
    ensures WellFormed(Store(users, kept + [v])) && OnePendingPerUser(kept + [v])
  {
    AppendKeepsInvariants(kept, v);
  }

  /** The corrected resend keeps at most one pending activation per account
      and the rest of the invariant. */
  lemma {:induction false} ResendFixedKeepsOnePending(s: Store, email: Option<string>, token: string)
    requires WellFormed(s) && OnePendingPerUser(s.records) && TokenFresh(s, token)
    ensures WellFormed(ResendVerificationFixed(s, email, token).store)
    ensures OnePendingPerUser(ResendVerificationFixed(s, email, token).store.records)
  {
    var r := Resend(s, email, ActivationKind, token);
    assert ResendVerificationFixed(s, email, token) == r;
    if r.outcome.status == 201 {
      var id := FindUserByEmail(s.users, Lower(email.value)).value;
      var issued := Verification(token, id, ActivationKind);
      match FindRecordOf(s.records, id, ActivationKind)
      case None =>
        ReissueKeepsInvariants(s.users, s.records, issued);
      case Some(i) =>
        var kept := RemoveAt(s.records, i);
        RemoveAtKeepsInvariants(s.records, i);
        assert forall j :: 0 <= j < |kept| ==> kept[j] == s.records[if j < i then j else j + 1];
        ReissueKeepsInvariants(s.users, kept, issued);
    }
  }

  /** The resend handler as written breaks that: an account with a pending
      activation ends up with two. */
  lemma ResendDuplicatesPending(s: Store, email: string, token: string, i: nat)
    requires WellFormed(s)
    requires email != "" && FindUserByEmail(s.users, Lower(email)).Some?
    requires i < |s.records| && s.records[i].userId == FindUserByEmail(s.users, Lower(email)).value
    ensures !OnePendingPerUser(ResendVerification(s, Some(email), token).store.records)
  {
    var r := ResendVerification(s, Some(email), token);
    assert r.store.records[i] == s.records[i];
    assert r.store.records[|s.records|].userId == s.records[i].userId;
  }

  // ---------------------------------------------------------------------
  // Activation tokens

  /** A consumed token is gone: the same link a second time answers 400 and
      changes nothing. */
  lemma {:induction false} VerifyIsSingleUse(s: Store, token: string, now1: Timestamp, now2: Timestamp)
    requires WellFormed(s)
    requires Verify(s, token, now1).outcome.status == 200
    ensures var s' := Verify(s, token, now1).store;
      Verify(s', token, now2) == Step(s', Outcome(400, Failed(TokenUnknown)))
  {
    var s' := Verify(s, token, now1).store;
    var i := FindActivation(s.records, token).value;
    assert forall j :: 0 <= j < |s'.records| ==> s'.records[j] == s.records[if j < i then j else j + 1];
    assert forall j :: 0 <= j < |s'.records| ==> s'.records[j].token != token;
  }

  /** A token with no activation record is refused with 400 and the store
      is left alone. */
  lemma UnknownTokenRefused(s: Store, token: string, now: Timestamp)
    requires forall j :: 0 <= j < |s.records| ==> s.records[j].token != token
    ensures Verify(s, token, now) == Step(s, Outcome(400, Failed(TokenUnknown)))
  {
  }

  /** As written, a resend supersedes nothing: an activation token issued
      before it still verifies afterwards. */
  lemma {:induction false} ResendKeepsOldToken(s: Store, email: string, token: string, i: nat, now: Timestamp)
    requires WellFormed(s) && TokenFresh(s, token)
    requires email != "" && FindUserByEmail(s.users, Lower(email)).Some?
    requires i < |s.records|
    ensures Verify(ResendVerification(s, Some(email), token).store, s.records[i].token, now).outcome.status == 200
  {
    var s' := ResendVerification(s, Some(email), token).store;
    ResendKeepsWellFormed(s, Some(email), token);
    assert s'.records[i] == s.records[i];
    var k := FindActivation(s'.records, s.records[i].token);
    assert k.Some?;
  }

  /** With the corrected lookup kind, the account's earlier token stops
      working and the freshly issued one is the account's only pending
      activation. */
  lemma {:induction false} ResendFixedSupersedes(s: Store, email: string, token: string, i: nat, now: Timestamp)
    requires WellFormed(s) && OnePendingPerUser(s.records) && TokenFresh(s, token)
    requires email != "" && FindUserByEmail(s.users, Lower(email)).Some?
    requires i < |s.records| && s.records[i].userId == FindUserByEmail(s.users, Lower(email)).value
    ensures var s' := ResendVerificationFixed(s, Some(email), token).store;
      && Verify(s', s.records[i].token, now).outcome.status == 400
      && forall j :: 0 <= j < |s'.records| && s'.records[j].userId == s.records[i].userId ==>
           s'.records[j] == Verification(token, s.records[i].userId, ActivationKind)
  {
    var id := s.records[i].userId;
    var s' := ResendVerificationFixed(s, Some(email), token).store;
    ResendFixedKeepsOnePending(s, Some(email), token);
    var found := FindRecordOf(s.records, id, ActivationKind);
    assert found == Some(i);
    var kept := RemoveAt(s.records, i);
    assert s'.records == kept + [Verification(token, id, ActivationKind)];
    assert forall j :: 0 <= j < |kept| ==> kept[j] == s.records[if j < i then j else j + 1];
    assert forall j :: 0 <= j < |s'.records| ==> s'.records[j].token != s.records[i].token;
  }

  // ---------------------------------------------------------------------
  // E-mail keys

  /** A registration whose lower-cased e-mail equals an already stored
      e-mail (say `A@x.com` after `a@x.com`) is refused with 422 and writes
      nothing. */
  lemma {:induction false} SecondRegistrationRefused(s: Store, first: RegisterForm, second: RegisterForm,
                                                    isEmail: string -> bool, h1: string, h2: string,
                                                    t1: string, t2: string, now1: Timestamp, now2: Timestamp)
    requires Register(s, first, isEmail, h1, t1, now1).outcome.status == 201
    requires RegisterAccepted(second, isEmail)
    requires Lower(FieldText(second.email)) == NormalizeEmail(FieldText(first.email))
    ensures var s1 := Register(s, first, isEmail, h1, t1, now1).store;
      Register(s1, second, isEmail, h2, t2, now2) == Step(s1, Outcome(422, Failed(EmailTaken)))
  {
    var s1 := Register(s, first, isEmail, h1, t1, now1).store;
    assert s1.users[|s.users|].email == Lower(FieldText(second.email));
  }

  /** The duplicate check's key (lower-cased only) and the stored key
      (lower-cased, first whitespace run removed, trimmed) differ, so a
      padded spelling of a stored e-mail passes the check and a second
      account with the same stored e-mail is created. */
  lemma PaddedDuplicateAdmitted(s: Store, form: RegisterForm, isEmail: string -> bool,
                                hashed: string, token: string, now: Timestamp, j: nat)
    requires RegisterAccepted(form, isEmail)
    requires FindUserByEmail(s.users, Lower(FieldText(form.email))).None?
    requires j < |s.users| && s.users[j].email == NormalizeEmail(FieldText(form.email))
    ensures var r := Register(s, form, isEmail, hashed, token, now);
      && r.outcome.status == 201
      && r.store.users[j].email == r.store.users[|s.users|].email
  {
  }

  /** Such spellings exist: any leading whitespace before a stored
      e-mail. */
  lemma PaddedDuplicateExample(s: Store, form: RegisterForm, isEmail: string -> bool,
                               hashed: string, token: string, now: Timestamp,
                               w: string, j: nat)
    requires RegisterAccepted(form, isEmail)
    requires w != [] && AllSpace(w)
    requires j < |s.users| && s.users[j].email != [] && NoSpace(s.users[j].email)
    requires FieldText(form.email) == w + s.users[j].email && NoUpper(FieldText(form.email))
    requires forall k :: 0 <= k < |s.users| ==> NoSpace(s.users[k].email)
    ensures var r := Register(s, form, isEmail, hashed, token, now);
      && r.outcome.status == 201
      && r.store.users[j].email == r.store.users[|s.users|].email
  {
    var e := FieldText(form.email);
    NormalizeEmailDropsPadding(w, s.users[j].email);
    assert FindUserByEmail(s.users, Lower(e)).None? by {
      forall k | 0 <= k < |s.users| ensures s.users[k].email != e {
        assert IsSpace(e[0]);
      }
    }
    PaddedDuplicateAdmitted(s, form, isEmail, hashed, token, now, j);
  }

  /** Login looks the account up by the e-mail exactly as sent: a capital
      letter where the stored e-mail has none finds no account. */
  lemma LoginIsCaseSensitive(s: Store, form: LoginForm, isEmail: string -> bool,
                             passwordMatches: (string, string) -> bool,
                             sign: (SessionPayload, nat) -> string)
    requires LoginAccepted(form, isEmail)
    requires forall j :: 0 <= j < |s.users| ==> NoUpper(s.users[j].email)
    requires !NoUpper(FieldText(form.email))
    ensures Login(s, form, isEmail, passwordMatches, sign).outcome == Outcome(422, Failed(BadCredentials))
  {
  }

  // ---------------------------------------------------------------------
  // Login answers

  /** An unknown e-mail and a wrong password are indistinguishable. */
  lemma LoginFailuresAlike(s: Store, form: LoginForm, isEmail: string -> bool,
                           passwordMatches: (string, string) -> bool,
                           sign: (SessionPayload, nat) -> string)
    requires LoginAccepted(form, isEmail)
    requires var found := FindUserByEmail(s.users, FieldText(form.email));
      found.None? || !passwordMatches(s.users[found.value].passwordHash, FieldText(form.password))
    ensures Login(s, form, isEmail, passwordMatches, sign).outcome == Outcome(422, Failed(BadCredentials))
  {
  }

  /** The right password on an unverified account is refused with 400 and
      no token is signed. */
  lemma LoginNeedsVerifiedAccount(s: Store, form: LoginForm, isEmail: string -> bool,
                                  passwordMatches: (string, string) -> bool,
                                  sign: (SessionPayload, nat) -> string)
    requires LoginAccepted(form, isEmail)
    requires var found := FindUserByEmail(s.users, FieldText(form.email));
      && found.Some?
      && passwordMatches(s.users[found.value].passwordHash, FieldText(form.password))
      && !s.users[found.value].verified
    ensures Login(s, form, isEmail, passwordMatches, sign).outcome == Outcome(400, Failed(NotVerified))
  {
  }

  // ---------------------------------------------------------------------
  // The whole path

  /** Registering opens one unverified account at the next id, under the
      normalised e-mail, with one activation record for it. */
  lemma {:induction false} FreshRegistration(s: Store, name: string, typed: string, password: string,
                                             isEmail: string -> bool, hashed: string, token: string, now: Timestamp)
    requires name != "" && typed != "" && password != "" && isEmail(typed)
    requires FindUserByEmail(s.users, Lower(typed)).None?
    ensures var r := Register(s, RegisterForm(Some(name), Some(typed), Some(password)), isEmail, hashed, token, now);
      && r.outcome.status == 201
      && r.store.users == s.users + [User(Trim(name), NormalizeEmail(typed), hashed, false, None, now)]
      && r.store.records == s.records + [Verification(token, |s.users|, ActivationKind)]
  {
    var form := RegisterForm(Some(name), Some(typed), Some(password));
    assert RegisterAccepted(form, isEmail);
    var r := Register(s, form, isEmail, hashed, token, now);
    assert r.outcome.status == 201;
    var u := r.store.users[|s.users|];
    assert u == User(Trim(name), NormalizeEmail(typed), hashed, false, None, now);
    assert r.store.users == r.store.users[..|s.users|] + [u];
  }

  /** Following the link of a fresh registration verifies exactly the new
      account. */
  lemma {:induction false} FreshActivation(users: seq<User>, records: seq<Verification>, u: User,
                                           token: string, now: Timestamp)
    requires forall j :: 0 <= j < |records| ==> records[j].token != token
    ensures var r := Verify(Store(users + [u], records + [Verification(token, |users|, ActivationKind)]), token, now);
      && r.outcome.status == 200
      && r.store.users == users + [u.(verified := true, verifiedAt := Some(now))]
  {
    var s := Store(users + [u], records + [Verification(token, |users|, ActivationKind)]);
    var last := |records|;
    assert s.records[last].token == token && s.records[last].kind == ActivationKind;
    var k := FindActivation(s.records, token);
    assert k.Some?;
    assert k == Some(last);
    var r := Verify(s, token, now);
    assert r.outcome.status == 200;
    assert r.store.users == users + [u.(verified := true, verifiedAt := Some(now))];
  }

  /** Login with the stored e-mail of a verified account that no earlier
      account shares, and a password the hash accepts, signs that account. */
  lemma {:induction false} VerifiedLogin(users: seq<User>, u: User, records: seq<Verification>,
                                         password: string, isEmail: string -> bool,
                                         passwordMatches: (string, string) -> bool,
                                         sign: (SessionPayload, nat) -> string)
    requires u.email != "" && password != "" && isEmail(u.email)
    requires FindUserByEmail(users, u.email).None?
    requires u.verified && passwordMatches(u.passwordHash, password)
    ensures Login(Store(users + [u], records), LoginForm(Some(u.email), Some(password)), isEmail, passwordMatches, sign).outcome
      == Outcome(200, SessionToken(sign(SessionPayload(Claims(|users|, u.fullName, u.email)), TokenLifetime)))
  {
    var all := users + [u];
    assert all[|users|].email == u.email;
    var k := FindUserByEmail(all, u.email);
    assert k.Some?;
    assert k == Some(|users|);
  }

  /** Registering, following the activation link, then logging in with
      the e-mail in the form it was stored (lower-cased, first whitespace
      run removed, trimmed) and the same password yields a session token
      signed over the new account's id, trimmed name and stored e-mail,
      valid for 3600 seconds. The hasher's promise that a hash verifies
      against its own password is the hypothesis on `passwordMatches`. */
  lemma {:induction false} RegisterVerifyLogin(s: Store, name: string, typed: string, password: string,
                                               isEmail: string -> bool, hashed: string,
                                               passwordMatches: (string, string) -> bool,
                                               sign: (SessionPayload, nat) -> string,
                                               token: string, registeredAt: Timestamp, verifiedAt: Timestamp)
    requires name != "" && typed != "" && password != "" && isEmail(typed)
    requires NormalizeEmail(typed) != "" && isEmail(NormalizeEmail(typed))
    requires FindUserByEmail(s.users, Lower(typed)).None?
    requires FindUserByEmail(s.users, NormalizeEmail(typed)).None?
    requires TokenFresh(s, token)
    requires passwordMatches(hashed, password)
    ensures var s1 := Register(s, RegisterForm(Some(name), Some(typed), Some(password)), isEmail, hashed, token, registeredAt);
      var s2 := Verify(s1.store, token, verifiedAt);
      var s3 := Login(s2.store, LoginForm(Some(NormalizeEmail(typed)), Some(password)), isEmail, passwordMatches, sign);
      && s1.outcome.status == 201
      && s2.outcome.status == 200
      && s3.outcome == Outcome(200, SessionToken(sign(SessionPayload(Claims(|s.users|, Trim(name), NormalizeEmail(typed))), 3600)))
  {
    FreshRegistration(s, name, typed, password, isEmail, hashed, token, registeredAt);
    var u := User(Trim(name), NormalizeEmail(typed), hashed, false, None, registeredAt);
    FreshActivation(s.users, s.records, u, token, verifiedAt);
    var v := u.(verified := true, verifiedAt := Some(verifiedAt));
    var s2 := Verify(Store(s.users + [u], s.records + [Verification(token, |s.users|, ActivationKind)]), token, verifiedAt).store;
    VerifiedLogin(s.users, v, s2.records, password, isEmail, passwordMatches, sign);
  }
}
