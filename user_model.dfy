/**
 * The staff account document (models/User.js): its fields, the brute-force
 * lockout counters, the password-hashing save hook, and the account
 * collection with the updates the routes send to it.
 */
module UserModel {
  import opened Base

  const MaxLoginAttempts: nat := 5
  /** 15 minutes. */
  const LockTimeMs: int := 15 * 60 * 1000
  const NameMaxLength: nat := 100
  const PasswordMinLength: nat := 8

  /** The `role` enum of the account schema. */
  const AccountRoles: set<string> := {"superAdmin", "admin", "moderator"}

  /** One element of `tokens`: a session opened by a login. */
  datatype Session = Session(
    token: string,
    ipAddress: Option<string>,
    userAgent: Option<string>,
    deviceId: Option<string>,
    createdAt: Time)

  /**
   * An account as stored. `password` holds the bcrypt hash. `isProtected` is
   * not declared by the schema; it is read by the users route and counts
   * as false when absent.
   */
  datatype UserDoc = UserDoc(
    id: Id,
    name: string,
    email: string,
    password: string,
    role: string,
    loginAttempts: nat,
    lockUntil: Option<Time>,
    tokens: seq<Session>,
    isProtected: bool,
    createdAt: Time)

  // ---------------------------------------------------------------------
  // Brute-force lockout

  /** The `isLocked` virtual: a lock is set and lies strictly in the future. */
  predicate IsLocked(u: UserDoc, now: Time) {
    u.lockUntil.Some? && u.lockUntil.value > now
  }

  /** The update `incrementLoginAttempts` sends after a wrong password. */
  function AfterFailedLogin(u: UserDoc, now: Time): (r: UserDoc)
    ensures r == u.(loginAttempts := r.loginAttempts, lockUntil := r.lockUntil)
    ensures r.loginAttempts >= 1
  {
    if u.lockUntil.Some? && u.lockUntil.value < now then
      u.(loginAttempts := 1, lockUntil := None)
    else if u.loginAttempts + 1 >= MaxLoginAttempts then
      u.(loginAttempts := u.loginAttempts + 1, lockUntil := Some(now + LockTimeMs))
    else
      u.(loginAttempts := u.loginAttempts + 1)
  }

  /** The update `resetLoginAttempts` sends. */
  function AfterReset(u: UserDoc): (r: UserDoc)
    ensures r == u.(loginAttempts := r.loginAttempts, lockUntil := r.lockUntil)
  {
    u.(loginAttempts := 0, lockUntil := None)
  }

  /** A lock that has already run out restarts the count at one, whatever the count was. */
  lemma StaleLockRestartsCount(u: UserDoc, now: Time)
    requires u.lockUntil.Some? && u.lockUntil.value < now
    ensures AfterFailedLogin(u, now).loginAttempts == 1
    ensures AfterFailedLogin(u, now).lockUntil == None
  {
  }

  /** Otherwise the count goes up by exactly one; a lock is set once it reaches five, and left alone below. */
  lemma FailureCountsOne(u: UserDoc, now: Time)
    requires !(u.lockUntil.Some? && u.lockUntil.value < now)
    ensures AfterFailedLogin(u, now).loginAttempts == u.loginAttempts + 1
    ensures u.loginAttempts + 1 >= MaxLoginAttempts ==> AfterFailedLogin(u, now).lockUntil == Some(now + LockTimeMs)
    ensures u.loginAttempts + 1 < MaxLoginAttempts ==> AfterFailedLogin(u, now).lockUntil == u.lockUntil
  {
  }

  /** A lock ending exactly now is not a lock, and the failure takes the counting branch. */
  lemma LockEndingNowCounts(u: UserDoc, now: Time)
    requires u.lockUntil == Some(now)
    ensures !IsLocked(u, now)
    ensures AfterFailedLogin(u, now).loginAttempts == u.loginAttempts + 1
    ensures AfterFailedLogin(u, now).lockUntil.Some?
  {
  }

  /** Failed passwords at the given times, one after the other. */
  function FailAll(u: UserDoc, times: seq<Time>): (r: UserDoc)
    ensures r == u.(loginAttempts := r.loginAttempts, lockUntil := r.lockUntil)
    decreases |times|
  {
    if times == [] then u else FailAll(AfterFailedLogin(u, times[0]), times[1..])
  }

  lemma {:induction false} FailuresBelowLimit(u: UserDoc, times: seq<Time>)
    requires u.lockUntil.None?
    requires u.loginAttempts + |times| <= MaxLoginAttempts
    ensures FailAll(u, times).loginAttempts == u.loginAttempts + |times|
    ensures u.loginAttempts + |times| < MaxLoginAttempts ==> FailAll(u, times).lockUntil.None?
    ensures times != [] && u.loginAttempts + |times| == MaxLoginAttempts ==>
              FailAll(u, times).lockUntil == Some(times[|times| - 1] + LockTimeMs)
    decreases |times|
  {
    if times != [] {
      var v := AfterFailedLogin(u, times[0]);
      if |times| == 1 {
        assert FailAll(v, times[1..]) == v;
      } else {
        assert v.lockUntil.None?;
        FailuresBelowLimit(v, times[1..]);
        assert times[1..][|times[1..]| - 1] == times[|times| - 1];
      }
    }
  }

  /**
   * From a fresh account, the first four failures set no lock and the fifth
   * is the first to set one, fifteen minutes after its own time.
   */
  lemma FifthFailureFirstLocks(u: UserDoc, times: seq<Time>)
    requires u.loginAttempts == 0 && u.lockUntil.None?
    requires |times| == MaxLoginAttempts
    ensures forall k :: 0 <= k < MaxLoginAttempts ==> FailAll(u, times[..k]).lockUntil.None?
    ensures FailAll(u, times).loginAttempts == MaxLoginAttempts
    ensures FailAll(u, times).lockUntil == Some(times[4] + LockTimeMs)
  {
    forall k | 0 <= k < MaxLoginAttempts
      ensures FailAll(u, times[..k]).lockUntil.None?
    {
      FailuresBelowLimit(u, times[..k]);
    }
    FailuresBelowLimit(u, times);
  }

  /** A lock set at time `t` holds exactly until `t` plus fifteen minutes. */
  lemma LockLastsFifteenMinutes(u: UserDoc, t: Time, now: Time)
    requires !(u.lockUntil.Some? && u.lockUntil.value < t)
    requires u.loginAttempts + 1 >= MaxLoginAttempts
    ensures IsLocked(AfterFailedLogin(u, t), now) <==> now < t + LockTimeMs
  {
  }

  /** Resetting clears the lock from any state and changes nothing more when repeated. */
  lemma ResetFromAnyState(u: UserDoc, now: Time)
    ensures AfterReset(u).loginAttempts == 0 && !IsLocked(AfterReset(u), now)
    ensures AfterReset(AfterReset(u)) == AfterReset(u)
  {
  }

  // ---------------------------------------------------------------------
  // Password check and the save hook

  datatype Comparison = Compared(matches: bool) | LockedError

  /** `comparePassword`: throws while locked, otherwise asks bcrypt. */
  function ComparePassword(u: UserDoc, candidate: string, now: Time, compare: (string, string) -> bool): (r: Comparison)
    ensures r.LockedError? <==> IsLocked(u, now)
  {
    if IsLocked(u, now) then LockedError else Compared(compare(candidate, u.password))
  }

  /** While locked the answer does not depend on bcrypt at all: the comparison is never reached. */
  lemma LockedNeverCompares(u: UserDoc, candidate: string, now: Time, f: (string, string) -> bool, g: (string, string) -> bool)
    requires IsLocked(u, now)
    ensures ComparePassword(u, candidate, now, f) == ComparePassword(u, candidate, now, g) == LockedError
  {
  }

  /** The pre-save hook: only a modified password is replaced by its hash. */
  function HashOnSave(u: UserDoc, passwordModified: bool, hash: string -> string): (r: UserDoc)
    ensures r == u.(password := r.password)
    ensures r.password != u.password ==> passwordModified
    ensures passwordModified ==> r.password == hash(u.password)
  {
    if passwordModified then u.(password := hash(u.password)) else u
  }

  // ---------------------------------------------------------------------
  // The collection

  predicate DocOk(u: UserDoc, nextId: Id) {
    u.id < nextId && u.role in AccountRoles && Lower(u.email) == u.email
  }

  /** What the schema and the unique index keep true of the stored accounts. */
  predicate WellFormed(docs: seq<UserDoc>, nextId: Id) {
    && (forall i :: 0 <= i < |docs| ==> DocOk(docs[i], nextId))
    && (forall i, j :: 0 <= i < j < |docs| ==> docs[i].id != docs[j].id && docs[i].email != docs[j].email)
  }

  /** Replacing one account by one with the same id and email keeps the collection well formed. */
  lemma WellFormedReplace(docs: seq<UserDoc>, nextId: Id, i: nat, u: UserDoc)
    requires WellFormed(docs, nextId) && i < |docs|
    requires u.id == docs[i].id && u.email == docs[i].email && u.role in AccountRoles
    ensures WellFormed(docs[i := u], nextId)
  {
    var d := docs[i := u];
    forall a, b | 0 <= a < b < |d|
      ensures d[a].id != d[b].id && d[a].email != d[b].email
    {
      assert d[a].id == docs[a].id && d[a].email == docs[a].email;
      assert d[b].id == docs[b].id && d[b].email == docs[b].email;
    }
  }

  predicate EmailTaken(docs: seq<UserDoc>, email: string) {
    exists k :: 0 <= k < |docs| && docs[k].email == email
  }

  /** `findById`: the position of the account with this `_id`. */
  function IndexOfId(docs: seq<UserDoc>, id: Id): (r: Option<nat>)
    ensures r.Some? ==> r.value < |docs| && docs[r.value].id == id
    ensures r.None? ==> forall k :: 0 <= k < |docs| ==> docs[k].id != id
  {
    if docs == [] then None
    else if docs[0].id == id then Some(0)
    else match IndexOfId(docs[1..], id)
      case None => None
      case Some(k) => Some(k + 1)
  }

  /** In a well-formed collection the id names exactly one position. */
  lemma IndexOfIdUnique(docs: seq<UserDoc>, nextId: Id, k: nat)
    requires WellFormed(docs, nextId) && k < |docs|
    ensures IndexOfId(docs, docs[k].id) == Some(k)
  {
  }

  /**
   * An account as the strict schema keeps it: `isProtected` is no path of
   * the schema, so `create` drops it and a loaded document reads it as
   * undefined, which counts as false.
   */
  function AsStored(u: UserDoc): (r: UserDoc)
    ensures !r.isProtected && r.(isProtected := u.isProtected) == u
  {
    u.(isProtected := false)
  }

  /** Every account as the strict schema keeps it. */
  function AllAsStored(docs: seq<UserDoc>): (r: seq<UserDoc>)
    ensures |r| == |docs| && forall i :: 0 <= i < |docs| ==> r[i] == AsStored(docs[i])
  {
    seq(|docs|, i requires 0 <= i < |docs| => AsStored(docs[i]))
  }

  /** Dropping `isProtected` keeps the collection well formed. */
  lemma AllAsStoredWellFormed(docs: seq<UserDoc>, nextId: Id)
    requires WellFormed(docs, nextId)
    ensures WellFormed(AllAsStored(docs), nextId)
  {
  }

  /** The schema checks of `User.create`, on the values its setters produce. */
  predicate SchemaAccepts(name: string, email: string, password: string, role: string, isEmail: string -> bool) {
    var n := Trim(name);
    var e := Lower(email);
    n != [] && JsLength(n) <= NameMaxLength && e != [] && isEmail(e)
    && JsLength(password) >= PasswordMinLength && role in AccountRoles
  }

  /** A new account: defaults, setters, and the hash the save hook stores. */
  function NewUser(id: Id, name: string, email: string, password: string, role: string, now: Time, hash: string -> string): (u: UserDoc)
    ensures u.loginAttempts == 0 && u.lockUntil.None? && u.tokens == [] && !u.isProtected
    ensures u.email == Lower(email) && u.role == role && u.id == id
  {
    HashOnSave(UserDoc(id, Trim(name), Lower(email), password, role, 0, None, [], false, now), true, hash)
  }

  datatype CreateOutcome = UserCreated(id: Id) | UserInvalid | DuplicateEmail

  class UserCollection {
    var docs: seq<UserDoc>
    var nextId: Id

    ghost predicate Valid()
      reads this
    {
      WellFormed(docs, nextId)
    }

    constructor ()
      ensures Valid() && docs == [] && nextId == 0
    {
      docs := [];
      nextId := 0;
    }

    /** `incrementLoginAttempts` on the account at position `i`. */
    method IncrementLoginAttempts(i: nat, now: Time)
      requires Valid() && i < |docs|
      modifies this
      ensures Valid() && nextId == old(nextId)
      ensures docs == old(docs)[i := AfterFailedLogin(old(docs)[i], now)]
    {
      WellFormedReplace(docs, nextId, i, AfterFailedLogin(docs[i], now));
      docs := docs[i := AfterFailedLogin(docs[i], now)];
    }

    /** `resetLoginAttempts` on the account at position `i`. */
    method ResetLoginAttempts(i: nat)
      requires Valid() && i < |docs|
      modifies this
      ensures Valid() && nextId == old(nextId)
      ensures docs == old(docs)[i := AfterReset(old(docs)[i])]
    {
      WellFormedReplace(docs, nextId, i, AfterReset(docs[i]));
      docs := docs[i := AfterReset(docs[i])];
    }

    /**
     * `save()` of a loaded account whose only modified path is `tokens`:
     * that path is written, and the hook leaves the password alone.
     */
    method SaveTokens(i: nat, tokens: seq<Session>, hash: string -> string)
      requires Valid() && i < |docs|
      modifies this
      ensures Valid() && nextId == old(nextId)
      ensures docs == old(docs)[i := old(docs)[i].(tokens := tokens)]
    {
      var saved := HashOnSave(docs[i].(tokens := tokens), false, hash);
      WellFormedReplace(docs, nextId, i, saved);
      docs := docs[i := saved];
    }

    /** `User.create`: schema validation, then the unique index on `email`. */
    method Create(name: string, email: string, password: string, role: string, now: Time,
                  isEmail: string -> bool, hash: string -> string) returns (r: CreateOutcome)
      requires Valid()
      modifies this
      ensures Valid()
      ensures r.UserInvalid? <==> !SchemaAccepts(name, email, password, role, isEmail)
      ensures r.DuplicateEmail? <==> SchemaAccepts(name, email, password, role, isEmail) && EmailTaken(old(docs), Lower(email))
      ensures r.UserCreated? ==> r.id == old(nextId) && nextId == old(nextId) + 1
      ensures r.UserCreated? ==> docs == old(docs) + [NewUser(old(nextId), name, email, password, role, now, hash)]
      ensures !r.UserCreated? ==> docs == old(docs) && nextId == old(nextId)
    {
      if !SchemaAccepts(name, email, password, role, isEmail) {
        return UserInvalid;
      }
      var e := Lower(email);
      var k := 0;
      while k < |docs|
        invariant 0 <= k <= |docs|
        invariant forall j :: 0 <= j < k ==> docs[j].email != e
      {
        if docs[k].email == e {
          return DuplicateEmail;
        }
        k := k + 1;
      }
      var u := NewUser(nextId, name, email, password, role, now, hash);
      LowerIdempotent(email);
      docs := docs + [u];
      nextId := nextId + 1;
      r := UserCreated(u.id);
    }

    /** `findByIdAndDelete` on the account at position `i`. */
    method RemoveAt(i: nat)
      requires Valid() && i < |docs|
      modifies this
      ensures Valid() && nextId == old(nextId)
      ensures docs == old(docs)[..i] + old(docs)[i + 1..]
    {
      var d := docs[..i] + docs[i + 1..];
      assert forall a :: 0 <= a < |d| ==> d[a] == docs[if a < i then a else a + 1];
      docs := d;
    }

    /** `findByIdAndUpdate(id, { role })` on the account at position `i`. */
    method SetRole(i: nat, role: string)
      requires Valid() && i < |docs| && role in AccountRoles
      modifies this
      ensures Valid() && nextId == old(nextId)
      ensures docs == old(docs)[i := old(docs)[i].(role := role)]
    {
      WellFormedReplace(docs, nextId, i, docs[i].(role := role));
      docs := docs[i := docs[i].(role := role)];
    }
  }
}
