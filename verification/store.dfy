/** Optional values: an absent request field, a lookup that found nothing. */
module Wrappers {
  datatype Option<+T> = None | Some(value: T)
}

/** The persisted state of the account workflow: the user collection and the
    verification-record collection, both kept in insertion order so that a
    `findOne` is the first match in that order. A user's id is its position;
    the workflow never deletes a user. */
module Store {
  import opened Wrappers

  /** A point in time (`new Date()`), supplied by the caller. */
  type Timestamp = int

  type UserId = nat

  datatype User = User(
    fullName: string,
    email: string,
    passwordHash: string,
    verified: bool,
    verifiedAt: Option<Timestamp>,
    createdAt: Timestamp)

  /** A single-use capability: `token` stands for account `userId` for the
      purpose named by `kind`. */
  datatype Verification = Verification(token: string, userId: UserId, kind: string)

  datatype Store = Store(users: seq<User>, records: seq<Verification>)

  /** The user fields a response may show: everything but the password hash. */
  datatype PublicUser = PublicUser(
    id: UserId,
    fullName: string,
    email: string,
    verified: bool,
    verifiedAt: Option<Timestamp>,
    createdAt: Timestamp)

  /** The identity a session token carries. */
  datatype Claims = Claims(id: UserId, fullName: string, email: string)

  /** The whole signed payload: `{ user: { id, fullName, email } }`. */
  datatype SessionPayload = SessionPayload(user: Claims)

  /** The record kind written at registration and consumed by verification. */
  const ActivationKind := "Register New Account"

  function PublicView(id: UserId, u: User): (p: PublicUser)
    ensures p.id == id && p.email == u.email && p.fullName == u.fullName
    ensures p.verified == u.verified && p.verifiedAt == u.verifiedAt && p.createdAt == u.createdAt
  {
    PublicUser(id, u.fullName, u.email, u.verified, u.verifiedAt, u.createdAt)
  }

  /** Position of the first element satisfying `p`, as `findOne` sees it. */
  function FirstIndex<T>(xs: seq<T>, p: T -> bool): (r: Option<nat>)
    ensures r.Some? ==> r.value < |xs| && p(xs[r.value])
    ensures r.Some? ==> forall j :: 0 <= j < r.value ==> !p(xs[j])
    ensures r.None? <==> forall j :: 0 <= j < |xs| ==> !p(xs[j])
    decreases |xs|
  {
    if |xs| == 0 then None
    else if p(xs[0]) then Some(0)
    else match FirstIndex(xs[1..], p)
      case None => None
      case Some(k) => Some(k + 1)
  }

  /** `User.findOne({ email: key })`: an exact, case-sensitive match. */
  function FindUserByEmail(users: seq<User>, key: string): (r: Option<UserId>)
    ensures r.Some? ==> r.value < |users| && users[r.value].email == key
    ensures r.Some? ==> forall j :: 0 <= j < r.value ==> users[j].email != key
    ensures r.None? <==> forall j :: 0 <= j < |users| ==> users[j].email != key
  {
    FirstIndex(users, (u: User) => u.email == key)
  }

  /** `Verification.findOne({ token, type: "Register New Account" })`. */
  function FindActivation(records: seq<Verification>, token: string): (r: Option<nat>)
    ensures r.Some? ==> r.value < |records| && records[r.value].token == token
    ensures r.Some? ==> records[r.value].kind == ActivationKind
    ensures r.Some? ==> forall j :: 0 <= j < r.value ==>
      records[j].token != token || records[j].kind != ActivationKind
    ensures r.None? <==> forall j :: 0 <= j < |records| ==>
      records[j].token != token || records[j].kind != ActivationKind
  {
    FirstIndex(records, (v: Verification) => v.token == token && v.kind == ActivationKind)
  }

  /** `Verification.findOne({ userId, type: kind })`. */
  function FindRecordOf(records: seq<Verification>, id: UserId, kind: string): (r: Option<nat>)
    ensures r.Some? ==> r.value < |records| && records[r.value].userId == id
    ensures r.Some? ==> records[r.value].kind == kind
    ensures r.Some? ==> forall j :: 0 <= j < r.value ==>
      records[j].userId != id || records[j].kind != kind
    ensures r.None? <==> forall j :: 0 <= j < |records| ==>
      records[j].userId != id || records[j].kind != kind
  {
    FirstIndex(records, (v: Verification) => v.userId == id && v.kind == kind)
  }

  /** Deletes the element at position `i`, keeping the order of the rest. */
  function RemoveAt<T>(xs: seq<T>, i: nat): (r: seq<T>)
    requires i < |xs|
    ensures |r| == |xs| - 1
    ensures forall j :: 0 <= j < i ==> r[j] == xs[j]
    ensures forall j :: i <= j < |r| ==> r[j] == xs[j + 1]
  {
    xs[..i] + xs[i + 1..]
  }

  /** No activation token is used by two records. */
  ghost predicate TokensDistinct(records: seq<Verification>) {
    forall i, j :: 0 <= i < j < |records| ==> records[i].token != records[j].token
  }

  /** Every record points at an existing account. */
  ghost predicate RecordsReferToUsers(s: Store) {
    forall i :: 0 <= i < |s.records| ==> s.records[i].userId < |s.users|
  }

  /** Every record was issued for account activation (the only kind any
      handler writes). */
  ghost predicate AllActivation(records: seq<Verification>) {
    forall i :: 0 <= i < |records| ==> records[i].kind == ActivationKind
  }

  /** At most one pending activation per account. */
  ghost predicate OnePendingPerUser(records: seq<Verification>) {
    forall i, j :: 0 <= i < j < |records| ==> records[i].userId != records[j].userId
  }

  /** The invariant every handler keeps when its fresh token is fresh. */
  ghost predicate WellFormed(s: Store) {
    && RecordsReferToUsers(s)
    && TokensDistinct(s.records)
    && AllActivation(s.records)
  }

  /** Removing a record keeps every invariant that speaks about pairs or
      single records, and with one pending record per account, the removed
      record's account has none left. */
  lemma RemoveAtKeepsInvariants(records: seq<Verification>, i: nat)
    requires i < |records|
    ensures TokensDistinct(records) ==> TokensDistinct(RemoveAt(records, i))
    ensures AllActivation(records) ==> AllActivation(RemoveAt(records, i))
    ensures OnePendingPerUser(records) ==> OnePendingPerUser(RemoveAt(records, i))
    ensures OnePendingPerUser(records) ==>
      forall j :: 0 <= j < |RemoveAt(records, i)| ==> RemoveAt(records, i)[j].userId != records[i].userId
  {
    var kept := RemoveAt(records, i);
    assert forall j :: 0 <= j < |kept| ==> kept[j] == records[if j < i then j else j + 1];
  }

  /** Appending a record with an unused token, or for an account without a
      record, keeps the corresponding invariant. */
  lemma AppendKeepsInvariants(records: seq<Verification>, v: Verification)
    ensures TokensDistinct(records) && (forall j :: 0 <= j < |records| ==> records[j].token != v.token) ==>
      TokensDistinct(records + [v])
    ensures OnePendingPerUser(records) && (forall j :: 0 <= j < |records| ==> records[j].userId != v.userId) ==>
      OnePendingPerUser(records + [v])
  {
  }

  /** The token `randomString(200)` produced is not yet in use. */
  predicate TokenFresh(s: Store, token: string) {
    forall i :: 0 <= i < |s.records| ==> s.records[i].token != token
  }
}
