/**
 * The account routes of routes/auth.js: `/login` (the lockout decision
 * chain and the session it records), `/register` (invite redemption) and
 * `/logout` (dropping the presented session).
 */
module AuthRoutes {
  import opened Base
  import opened UserModel
  import opened AuthMiddleware
  import Inv = InviteModel

  // ---------------------------------------------------------------------
  // Login

  datatype LoginReply =
    | LoggedIn(userId: Id, token: string)
    | LoginError        // 500: a missing email throws in `toLowerCase`
    | InvalidEmail      // 400
    | ShortPassword     // 400
    | NoAccount         // 401 'No authorized account found with this email'
    | Locked(retryAfter: int)   // 429
    | WrongPassword     // 401 'Incorrect password. Please try again'
  {
    function Status(): int {
      match this
      case LoggedIn(_, _) => 200
      case LoginError => 500
      case InvalidEmail => 400
      case ShortPassword => 400
      case NoAccount => 401
      case Locked(_) => 429
      case WrongPassword => 401
    }
  }

  /** `Math.ceil(ms / 1000)`: whole seconds, rounded up. */
  function CeilSeconds(ms: int): (s: int)
    ensures 1000 * (s - 1) < ms <= 1000 * s
  {
    if ms % 1000 == 0 then ms / 1000 else ms / 1000 + 1
  }

  /** `User.findOne({ email, role: { $in: staff } })`: the first staff account with this email. */
  function FindStaffByEmail(docs: seq<UserDoc>, email: string): (r: Option<nat>)
    ensures r.Some? ==> r.value < |docs| && docs[r.value].email == email && docs[r.value].role in StaffRoles
    ensures r.None? ==> forall k :: 0 <= k < |docs| ==> !(docs[k].email == email && docs[k].role in StaffRoles)
  {
    if docs == [] then None
    else if docs[0].email == email && docs[0].role in StaffRoles then Some(0)
    else match FindStaffByEmail(docs[1..], email)
      case None => None
      case Some(k) => Some(k + 1)
  }

  /** With unique emails the lookup finds the one staff account holding the email. */
  lemma FindStaffUnique(docs: seq<UserDoc>, nextId: Id, k: nat)
    requires WellFormed(docs, nextId) && k < |docs| && docs[k].role in StaffRoles
    ensures FindStaffByEmail(docs, docs[k].email) == Some(k)
  {
  }

  datatype LoginStep = LoginStep(reply: LoginReply, docs: seq<UserDoc>)

  /**
   * `/login` on the account collection `docs`. `ip` and `userAgent` are
   * the request's, recorded with the new session.
   */
  function LoginSpec(docs: seq<UserDoc>, email: Option<string>, password: Option<string>,
                     ip: Option<string>, userAgent: Option<string>, now: Time, o: Primitives): (r: LoginStep)
    ensures |r.docs| == |docs|
  {
    if email.None? then LoginStep(LoginError, docs)
    else
      var e := Lower(email.value);
      if !o.isEmail(e) then LoginStep(InvalidEmail, docs)
      else if password.None? || JsLength(password.value) < PasswordMinLength then LoginStep(ShortPassword, docs)
      else match FindStaffByEmail(docs, e)
        case None => LoginStep(NoAccount, docs)
        case Some(i) =>
          var u := docs[i];
          if IsLocked(u, now) then LoginStep(Locked(CeilSeconds(u.lockUntil.value - now)), docs)
          else match ComparePassword(u, password.value, now, o.compare)
            case LockedError => LoginStep(LoginError, docs)
            case Compared(ok) =>
              if !ok then LoginStep(WrongPassword, docs[i := AfterFailedLogin(u, now)])
              else
                var token := o.sign(u.id, u.role);
                var session := Session(token, ip, userAgent, None, now);
                LoginStep(LoggedIn(u.id, token), docs[i := AfterReset(u).(tokens := u.tokens + [session])])
  }

  /** The route, over the account collection. */
  method Login(users: UserCollection, email: Option<string>, password: Option<string>,
               ip: Option<string>, userAgent: Option<string>, now: Time, o: Primitives) returns (r: LoginReply)
    requires users.Valid()
    modifies users
    ensures users.Valid() && users.nextId == old(users.nextId)
    ensures LoginStep(r, users.docs) == LoginSpec(old(users.docs), email, password, ip, userAgent, now, o)
  {
    if email.None? {
      return LoginError;
    }
    var e := Lower(email.value);
    if !o.isEmail(e) {
      return InvalidEmail;
    }
    if password.None? || JsLength(password.value) < PasswordMinLength {
      return ShortPassword;
    }
    var found := FindStaffByEmail(users.docs, e);
    if found.None? {
      return NoAccount;
    }
    var i := found.value;
    var u := users.docs[i];
    if IsLocked(u, now) {
      return Locked(CeilSeconds(u.lockUntil.value - now));
    }
    var cmp := ComparePassword(u, password.value, now, o.compare);
    if cmp.LockedError? {
      return LoginError;
    }
    if !cmp.matches {
      users.IncrementLoginAttempts(i, now);
      return WrongPassword;
    }
    users.ResetLoginAttempts(i);
    var token := o.sign(u.id, u.role);
    users.SaveTokens(i, u.tokens + [Session(token, ip, userAgent, None, now)], o.hash);
    r := LoggedIn(u.id, token);
  }

  /** The email is lowercased before anything else: its case never changes the outcome. */
  lemma LoginIgnoresEmailCase(docs: seq<UserDoc>, email: string, password: Option<string>,
                              ip: Option<string>, userAgent: Option<string>, now: Time, o: Primitives)
    ensures LoginSpec(docs, Some(email), password, ip, userAgent, now, o)
         == LoginSpec(docs, Some(Lower(email)), password, ip, userAgent, now, o)
  {
    LowerIdempotent(email);
  }

  /** Input checks come first and change nothing: a non-email, then a password under eight characters. */
  lemma LoginInputChecks(docs: seq<UserDoc>, email: string, password: Option<string>,
                         ip: Option<string>, userAgent: Option<string>, now: Time, o: Primitives)
    ensures var step := LoginSpec(docs, Some(email), password, ip, userAgent, now, o);
            && (step.reply == InvalidEmail <==> !o.isEmail(Lower(email)))
            && (step.reply == ShortPassword <==>
                  o.isEmail(Lower(email)) && (password.None? || JsLength(password.value) < PasswordMinLength))
            && (step.reply == NoAccount <==>
                  o.isEmail(Lower(email)) && password.Some? && JsLength(password.value) >= PasswordMinLength
                  && forall k :: 0 <= k < |docs| ==> !(docs[k].email == Lower(email) && docs[k].role in StaffRoles))
            && (step.reply in {InvalidEmail, ShortPassword, NoAccount} ==> step.docs == docs)
  {
  }

  /** A locked account is answered 429 with the seconds left, and its counters are not touched. */
  lemma LockedLoginChangesNothing(docs: seq<UserDoc>, email: string, password: string,
                                  ip: Option<string>, userAgent: Option<string>, now: Time, o: Primitives)
    requires o.isEmail(Lower(email)) && JsLength(password) >= PasswordMinLength
    requires FindStaffByEmail(docs, Lower(email)).Some?
    requires IsLocked(docs[FindStaffByEmail(docs, Lower(email)).value], now)
    ensures var u := docs[FindStaffByEmail(docs, Lower(email)).value];
            var step := LoginSpec(docs, Some(email), Some(password), ip, userAgent, now, o);
            && step == LoginStep(Locked(CeilSeconds(u.lockUntil.value - now)), docs)
            && step.reply.retryAfter >= 1
  {
  }

  /** A wrong password counts exactly one failure on that account only, and no session is opened. */
  lemma WrongPasswordCountsOnce(docs: seq<UserDoc>, email: string, password: string,
                                ip: Option<string>, userAgent: Option<string>, now: Time, o: Primitives)
    requires o.isEmail(Lower(email)) && JsLength(password) >= PasswordMinLength
    requires FindStaffByEmail(docs, Lower(email)).Some?
    requires var u := docs[FindStaffByEmail(docs, Lower(email)).value];
             !IsLocked(u, now) && !o.compare(password, u.password)
    ensures var i := FindStaffByEmail(docs, Lower(email)).value;
            var step := LoginSpec(docs, Some(email), Some(password), ip, userAgent, now, o);
            && step.reply == WrongPassword && step.reply.Status() == 401
            && step.docs == docs[i := AfterFailedLogin(docs[i], now)]
            && step.docs[i].tokens == docs[i].tokens
  {
  }

  /**
   * A login succeeds only for an unlocked staff account whose password
   * matches; it clears the counters and appends exactly one session, and
   * every other account and every earlier session stays as it was.
   */
  lemma LoginSuccessShape(docs: seq<UserDoc>, email: Option<string>, password: Option<string>,
                          ip: Option<string>, userAgent: Option<string>, now: Time, o: Primitives)
    requires LoginSpec(docs, email, password, ip, userAgent, now, o).reply.LoggedIn?
    ensures email.Some? && password.Some? && FindStaffByEmail(docs, Lower(email.value)).Some?
    ensures var i := FindStaffByEmail(docs, Lower(email.value)).value;
            var step := LoginSpec(docs, email, password, ip, userAgent, now, o);
            var u := docs[i];
            && u.email == Lower(email.value) && u.role in StaffRoles
            && !IsLocked(u, now) && o.compare(password.value, u.password)
            && step.reply == LoggedIn(u.id, o.sign(u.id, u.role))
            && |step.docs| == |docs|
            && (forall k :: 0 <= k < |docs| && k != i ==> step.docs[k] == docs[k])
            && step.docs[i].loginAttempts == 0 && step.docs[i].lockUntil.None?
            && step.docs[i].tokens == u.tokens + [Session(step.reply.token, ip, userAgent, None, now)]
            && step.docs[i] == u.(loginAttempts := 0, lockUntil := None, tokens := step.docs[i].tokens)
  {
  }

  /** Consecutive wrong passwords from the same client, at the given times. */
  function FailedLogins(docs: seq<UserDoc>, email: string, password: string, times: seq<Time>, o: Primitives): (r: seq<UserDoc>)
    ensures |r| == |docs|
    decreases |times|
  {
    if times == [] then docs
    else FailedLogins(LoginSpec(docs, Some(email), Some(password), None, None, times[0], o).docs, email, password, times[1..], o)
  }

  lemma {:induction false} FailedLoginsCount(docs: seq<UserDoc>, nextId: Id, i: nat, email: string, password: string,
                                             times: seq<Time>, o: Primitives)
    requires WellFormed(docs, nextId) && i < |docs|
    requires docs[i].email == Lower(email) && docs[i].role in StaffRoles
    requires o.isEmail(Lower(email)) && JsLength(password) >= PasswordMinLength && !o.compare(password, docs[i].password)
    requires docs[i].lockUntil.None? && docs[i].loginAttempts + |times| <= MaxLoginAttempts
    ensures FailedLogins(docs, email, password, times, o) == docs[i := FailAll(docs[i], times)]
    decreases |times|
  {
    if times == [] {
      assert docs[i := docs[i]] == docs;
    } else {
      FindStaffUnique(docs, nextId, i);
      var v := AfterFailedLogin(docs[i], times[0]);
      assert LoginSpec(docs, Some(email), Some(password), None, None, times[0], o).docs == docs[i := v];
      WellFormedReplace(docs, nextId, i, v);
      if |times| == 1 {
        assert FailAll(v, times[1..]) == v;
      } else {
        FailedLoginsCount(docs[i := v], nextId, i, email, password, times[1..], o);
        assert docs[i := v][i := FailAll(v, times[1..])] == docs[i := FailAll(v, times[1..])];
      }
    }
  }

  /**
   * The lockout, end to end: five wrong passwords lock a fresh account
   * for fifteen minutes from the fifth; during the lock any password is
   * answered 429 and nothing changes; from the moment the lock ends the
   * right password logs in and the counter is back at zero.
   */
  lemma LockoutScenario(docs: seq<UserDoc>, nextId: Id, i: nat, email: string, wrong: string, right: string,
                        times: seq<Time>, during: Time, after: Time, ip: Option<string>, userAgent: Option<string>, o: Primitives)
    requires WellFormed(docs, nextId) && i < |docs|
    requires docs[i].email == Lower(email) && docs[i].role in StaffRoles && o.isEmail(Lower(email))
    requires docs[i].loginAttempts == 0 && docs[i].lockUntil.None?
    requires JsLength(wrong) >= PasswordMinLength && !o.compare(wrong, docs[i].password)
    requires JsLength(right) >= PasswordMinLength && o.compare(right, docs[i].password)
    requires |times| == MaxLoginAttempts
    ensures var locked := FailedLogins(docs, email, wrong, times, o);
            && locked[i].loginAttempts == MaxLoginAttempts
            && locked[i].lockUntil == Some(times[4] + LockTimeMs)
            && (during < times[4] + LockTimeMs ==>
                  LoginSpec(locked, Some(email), Some(right), ip, userAgent, during, o)
                  == LoginStep(Locked(CeilSeconds(times[4] + LockTimeMs - during)), locked))
            && (after >= times[4] + LockTimeMs ==>
                  var step := LoginSpec(locked, Some(email), Some(right), ip, userAgent, after, o);
                  step.reply.LoggedIn? && step.docs[i].loginAttempts == 0 && step.docs[i].lockUntil.None?)
  {
    FailedLoginsCount(docs, nextId, i, email, wrong, times, o);
    FifthFailureFirstLocks(docs[i], times);
    var locked := FailedLogins(docs, email, wrong, times, o);
    WellFormedReplace(docs, nextId, i, FailAll(docs[i], times));
    FindStaffUnique(locked, nextId, i);
    if during < times[4] + LockTimeMs {
      LoginWhileLocked(locked, nextId, i, email, right, ip, userAgent, during, times[4] + LockTimeMs, o);
    }
    if after >= times[4] + LockTimeMs {
      RightPasswordLogsIn(locked, email, right, ip, userAgent, after, o);
    }
  }

  /** A staff account locked until `lockEnd` answers every login before then with the seconds left. */
  lemma LoginWhileLocked(docs: seq<UserDoc>, nextId: Id, i: nat, email: string, password: string,
                         ip: Option<string>, userAgent: Option<string>, now: Time, lockEnd: Time, o: Primitives)
    requires WellFormed(docs, nextId) && i < |docs|
    requires docs[i].email == Lower(email) && docs[i].role in StaffRoles
    requires o.isEmail(Lower(email)) && JsLength(password) >= PasswordMinLength
    requires docs[i].lockUntil == Some(lockEnd) && now < lockEnd
    ensures LoginSpec(docs, Some(email), Some(password), ip, userAgent, now, o)
            == LoginStep(Locked(CeilSeconds(lockEnd - now)), docs)
  {
    FindStaffUnique(docs, nextId, i);
    LockedLoginChangesNothing(docs, email, password, ip, userAgent, now, o);
  }

  /** An unlocked staff account with the right password logs in, and its counters are cleared. */
  lemma RightPasswordLogsIn(docs: seq<UserDoc>, email: string, password: string,
                            ip: Option<string>, userAgent: Option<string>, now: Time, o: Primitives)
    requires o.isEmail(Lower(email)) && JsLength(password) >= PasswordMinLength
    requires FindStaffByEmail(docs, Lower(email)).Some?
    requires var u := docs[FindStaffByEmail(docs, Lower(email)).value];
             !IsLocked(u, now) && o.compare(password, u.password)
    ensures var i := FindStaffByEmail(docs, Lower(email)).value;
            var step := LoginSpec(docs, Some(email), Some(password), ip, userAgent, now, o);
            && step.reply == LoggedIn(docs[i].id, o.sign(docs[i].id, docs[i].role))
            && step.docs[i].loginAttempts == 0 && step.docs[i].lockUntil.None?
  {
  }

  // ---------------------------------------------------------------------
  // Registration

  /** The four messages the validation step can collect. */
  datatype RegisterProblem = BadEmailFormat | PasswordTooShort | NameTooShort | InviteCodeRequired

  /** The `min` the route passes to `validator.isLength` for the name. */
  const NameMinLength: nat := 2

  /**
   * Every failed check, in the order the route makes them; the two length
   * checks are `validator.isLength`, not the `.length` of the login route.
   */
  function RegisterProblems(email: string, password: string, name: string, inviteCode: Option<string>,
                            isEmail: string -> bool, isLength: (string, nat) -> bool): (errs: seq<RegisterProblem>)
    ensures BadEmailFormat in errs <==> !isEmail(email)
    ensures PasswordTooShort in errs <==> !isLength(password, PasswordMinLength)
    ensures NameTooShort in errs <==> !isLength(name, NameMinLength)
    ensures InviteCodeRequired in errs <==> inviteCode.None? || inviteCode.value == []
    ensures |errs| <= 4
  {
    (if !isEmail(email) then [BadEmailFormat] else [])
    + (if !isLength(password, PasswordMinLength) then [PasswordTooShort] else [])
    + (if !isLength(name, NameMinLength) then [NameTooShort] else [])
    + (if inviteCode.None? || inviteCode.value == [] then [InviteCodeRequired] else [])
  }

  datatype RegisterReply =
    | Registered(userId: Id, token: string)
    | RegistrationInvalid(problems: seq<RegisterProblem>)   // 400 VALIDATION_ERROR
    | InviteRejected                                        // 400 'Invalid or expired invite code'
    | RegistrationFailed                                    // 500
  {
    function Status(): int {
      match this
      case Registered(_, _) => 200
      case RegistrationInvalid(_) => 400
      case InviteRejected => 400
      case RegistrationFailed => 500
    }
  }

  /** `Invite.findOne({ code, email, status: 'sent' })`. */
  function FindRedeemable(invites: seq<Inv.InviteDoc>, code: string, email: string): (r: Option<nat>)
    ensures r.Some? ==> r.value < |invites| && invites[r.value].code == code
                        && invites[r.value].email == email && invites[r.value].status == Inv.Sent
    ensures r.None? ==> forall k :: 0 <= k < |invites| ==>
                          !(invites[k].code == code && invites[k].email == email && invites[k].status == Inv.Sent)
  {
    if invites == [] then None
    else if invites[0].code == code && invites[0].email == email && invites[0].status == Inv.Sent then Some(0)
    else match FindRedeemable(invites[1..], code, email)
      case None => None
      case Some(k) => Some(k + 1)
  }

  datatype RegisterStep = RegisterStep(reply: RegisterReply, users: seq<UserDoc>, usersNext: Id, invites: seq<Inv.InviteDoc>)

  /** `/register` on the account and invite collections. An absent body field is `None`. */
  function RegisterSpec(users: seq<UserDoc>, usersNext: Id, invites: seq<Inv.InviteDoc>,
                        inviteCode: Option<string>, email: Option<string>, password: Option<string>, name: Option<string>,
                        now: Time, o: Primitives): RegisterStep
  {
    if email.None? || password.None? || name.None? then
      // `validator` throws on a value that is not a string
      RegisterStep(RegistrationFailed, users, usersNext, invites)
    else
      var problems := RegisterProblems(email.value, password.value, name.value, inviteCode, o.isEmail, o.isLength);
      if problems != [] then RegisterStep(RegistrationInvalid(problems), users, usersNext, invites)
      else match FindRedeemable(invites, inviteCode.value, Lower(email.value))
        case None => RegisterStep(InviteRejected, users, usersNext, invites)
        case Some(j) => Redeem(users, usersNext, invites, j, Lower(email.value), Trim(name.value), password.value, now, o)
  }

  /**
   * The rest of `/register` once the invite at position `j` matched: the
   * expiry check, `User.create` with the trimmed name `n` and the
   * lowercased email `e`, then the invite's save.
   */
  function Redeem(users: seq<UserDoc>, usersNext: Id, invites: seq<Inv.InviteDoc>, j: nat,
                  e: string, n: string, password: string, now: Time, o: Primitives): RegisterStep
    requires j < |invites|
  {
    var inv := invites[j];
    if inv.expiresAt < now then RegisterStep(InviteRejected, users, usersNext, invites)
    else if !SchemaAccepts(n, e, password, inv.role, o.isEmail) || EmailTaken(users, Lower(e)) then
      RegisterStep(RegistrationFailed, users, usersNext, invites)
    else
      var u := NewUser(usersNext, n, e, password, inv.role, now, o.hash);
      var accepted := inv.(status := Inv.Accepted, usedAt := Some(now), usedBy := Some(usersNext));
      RegisterStep(Registered(usersNext, o.sign(usersNext, inv.role)),
                   users + [u], usersNext + 1, invites[j := Inv.BeforeSave(accepted, now)])
  }

  lemma RedeemShape(users: seq<UserDoc>, usersNext: Id, invites: seq<Inv.InviteDoc>, j: nat,
                    e: string, n: string, password: string, now: Time, o: Primitives)
    requires j < |invites|
    requires Redeem(users, usersNext, invites, j, e, n, password, now, o).reply.Registered?
    ensures var inv := invites[j];
            var step := Redeem(users, usersNext, invites, j, e, n, password, now, o);
            && !Inv.IsExpired(inv, now)
            && step.reply.userId == usersNext && step.usersNext == usersNext + 1
            && step.users == users + [NewUser(usersNext, n, e, password, inv.role, now, o.hash)]
            && step.invites == invites[j := inv.(status := Inv.Accepted, usedAt := Some(now), usedBy := Some(usersNext))]
  {
  }

  /** The route, over both collections. */
  method Register(users: UserCollection, invites: Inv.InviteCollection,
                  inviteCode: Option<string>, email: Option<string>, password: Option<string>, name: Option<string>,
                  now: Time, o: Primitives) returns (r: RegisterReply)
    requires users.Valid() && invites.Valid()
    modifies users, invites
    ensures users.Valid() && invites.Valid() && invites.nextId == old(invites.nextId)
    ensures RegisterStep(r, users.docs, users.nextId, invites.docs)
         == RegisterSpec(old(users.docs), old(users.nextId), old(invites.docs), inviteCode, email, password, name, now, o)
  {
    if email.None? || password.None? || name.None? {
      return RegistrationFailed;
    }
    var problems := RegisterProblems(email.value, password.value, name.value, inviteCode, o.isEmail, o.isLength);
    if problems != [] {
      return RegistrationInvalid(problems);
    }
    var found := FindRedeemable(invites.docs, inviteCode.value, Lower(email.value));
    if found.None? || invites.docs[found.value].expiresAt < now {
      return InviteRejected;
    }
    var j := found.value;
    var inv := invites.docs[j];
    var created := users.Create(Trim(name.value), Lower(email.value), password.value, inv.role, now, o.isEmail, o.hash);
    if !created.UserCreated? {
      return RegistrationFailed;
    }
    invites.Save(j, inv.(status := Inv.Accepted, usedAt := Some(now), usedBy := Some(created.id)), now);
    r := Registered(created.id, o.sign(created.id, inv.role));
  }

  /**
   * A registration with a string `inviteCode` succeeds only through a
   * `sent` invite with that exact code and the lowercased email that has
   * not passed its expiry (a code sent as an object is a query operator,
   * which this model does not represent). The new
   * account takes the invite's role, the lowercased email and the trimmed
   * name, and holds no session; the invite becomes `accepted`, used now by
   * the new account; nothing else changes.
   */
  lemma RegisterSuccessShape(users: seq<UserDoc>, usersNext: Id, invites: seq<Inv.InviteDoc>,
                             inviteCode: Option<string>, email: Option<string>, password: Option<string>, name: Option<string>,
                             now: Time, o: Primitives)
    requires RegisterSpec(users, usersNext, invites, inviteCode, email, password, name, now, o).reply.Registered?
    ensures email.Some? && password.Some? && name.Some? && inviteCode.Some?
    ensures FindRedeemable(invites, inviteCode.value, Lower(email.value)).Some?
    ensures var j := FindRedeemable(invites, inviteCode.value, Lower(email.value)).value;
            var inv := invites[j];
            var step := RegisterSpec(users, usersNext, invites, inviteCode, email, password, name, now, o);
            && inv.code == inviteCode.value && inv.email == Lower(email.value) && inv.status == Inv.Sent
            && !Inv.IsExpired(inv, now)
            && step.reply.userId == usersNext && step.usersNext == usersNext + 1
            && |step.users| == |users| + 1 && step.users[..|users|] == users
            && step.users[|users|].id == usersNext
            && step.users[|users|].role == inv.role
            && step.users[|users|].email == Lower(email.value)
            && step.users[|users|].name == Trim(name.value)
            && step.users[|users|].tokens == []
            && step.invites == invites[j := inv.(status := Inv.Accepted, usedAt := Some(now), usedBy := Some(usersNext))]
  {
    var j := FindRedeemable(invites, inviteCode.value, Lower(email.value)).value;
    RedeemShape(users, usersNext, invites, j, Lower(email.value), Trim(name.value), password.value, now, o);
    var u := NewUser(usersNext, Trim(name.value), Lower(email.value), password.value, invites[j].role, now, o.hash);
    TrimIdempotent(name.value);
    LowerIdempotent(email.value);
    assert (users + [u])[..|users|] == users;
  }

  /** Invites carry only the two lower roles, so registration never creates a super admin. */
  lemma RegisterNeverGrantsSuperAdmin(users: seq<UserDoc>, usersNext: Id, invites: seq<Inv.InviteDoc>,
                                      inviteCode: Option<string>, email: Option<string>, password: Option<string>, name: Option<string>,
                                      now: Time, o: Primitives)
    requires forall k :: 0 <= k < |invites| ==> invites[k].role in Inv.InviteRoles
    requires RegisterSpec(users, usersNext, invites, inviteCode, email, password, name, now, o).reply.Registered?
    ensures var step := RegisterSpec(users, usersNext, invites, inviteCode, email, password, name, now, o);
            |step.users| == |users| + 1
            && step.users[|users|].role in Inv.InviteRoles && step.users[|users|].role != "superAdmin"
  {
    RegisterSuccessShape(users, usersNext, invites, inviteCode, email, password, name, now, o);
    var j := FindRedeemable(invites, inviteCode.value, Lower(email.value)).value;
    assert invites[j].role in Inv.InviteRoles;
    var step := RegisterSpec(users, usersNext, invites, inviteCode, email, password, name, now, o);
    assert step.users[|users|].role == invites[j].role;
    Inv.SuperAdminNotInvitable();
  }

  /** Once redeemed, the same code with the same email never registers again, at any time and with any password or name. */
  lemma SecondRedemptionFails(users: seq<UserDoc>, usersNext: Id, invites: seq<Inv.InviteDoc>,
                              inviteCode: Option<string>, email: Option<string>, password: Option<string>, name: Option<string>,
                              now: Time, password2: Option<string>, name2: Option<string>, later: Time, o: Primitives)
    requires forall a, b :: 0 <= a < b < |invites| ==> invites[a].code != invites[b].code
    requires RegisterSpec(users, usersNext, invites, inviteCode, email, password, name, now, o).reply.Registered?
    ensures var step := RegisterSpec(users, usersNext, invites, inviteCode, email, password, name, now, o);
            var again := RegisterSpec(step.users, step.usersNext, step.invites, inviteCode, email, password2, name2, later, o);
            && !again.reply.Registered?
            && FindRedeemable(step.invites, inviteCode.value, Lower(email.value)).None?
            && (password2.Some? && name2.Some?
                && RegisterProblems(email.value, password2.value, name2.value, inviteCode, o.isEmail, o.isLength) == [] ==>
                  again == RegisterStep(InviteRejected, step.users, step.usersNext, step.invites))
  {
    RegisterSuccessShape(users, usersNext, invites, inviteCode, email, password, name, now, o);
    RedeemedCodeSpent(users, usersNext, invites, inviteCode, email, password, name, now, o);
    var step := RegisterSpec(users, usersNext, invites, inviteCode, email, password, name, now, o);
    NoSentCodeNoMatch(step.invites, inviteCode.value, Lower(email.value));
    UnmatchedCodeNeverRegisters(step.users, step.usersNext, step.invites, inviteCode.value, email.value, password2, name2, later, o);
  }

  /** Without a `sent` invite carrying the code, the lookup finds nothing, whatever the email. */
  lemma NoSentCodeNoMatch(invites: seq<Inv.InviteDoc>, code: string, email: string)
    requires forall k :: 0 <= k < |invites| ==> !(invites[k].code == code && invites[k].status == Inv.Sent)
    ensures FindRedeemable(invites, code, email).None?
  {
  }

  /** After a redemption no `sent` invite carries the redeemed code, whatever its email. */
  lemma RedeemedCodeSpent(users: seq<UserDoc>, usersNext: Id, invites: seq<Inv.InviteDoc>,
                          inviteCode: Option<string>, email: Option<string>, password: Option<string>, name: Option<string>,
                          now: Time, o: Primitives)
    requires forall a, b :: 0 <= a < b < |invites| ==> invites[a].code != invites[b].code
    requires RegisterSpec(users, usersNext, invites, inviteCode, email, password, name, now, o).reply.Registered?
    ensures var step := RegisterSpec(users, usersNext, invites, inviteCode, email, password, name, now, o);
            && inviteCode.Some? && |step.invites| == |invites|
            && forall k :: 0 <= k < |step.invites| ==> !(step.invites[k].code == inviteCode.value && step.invites[k].status == Inv.Sent)
  {
    RegisterSuccessShape(users, usersNext, invites, inviteCode, email, password, name, now, o);
    var step := RegisterSpec(users, usersNext, invites, inviteCode, email, password, name, now, o);
    var j := FindRedeemable(invites, inviteCode.value, Lower(email.value)).value;
    forall k | 0 <= k < |step.invites|
      ensures !(step.invites[k].code == inviteCode.value && step.invites[k].status == Inv.Sent)
    {
      if k != j {
        assert step.invites[k] == invites[k];
        assert invites[k].code != invites[j].code by {
          if k < j {} else {}
        }
      }
    }
  }

  /**
   * Without a `sent` invite for the code and the lowercased email,
   * registration cannot succeed; once the input checks pass it is the
   * invite refusal, and nothing changes.
   */
  lemma UnmatchedCodeNeverRegisters(users: seq<UserDoc>, usersNext: Id, invites: seq<Inv.InviteDoc>,
                                    inviteCode: string, email: string, password: Option<string>, name: Option<string>,
                                    now: Time, o: Primitives)
    requires FindRedeemable(invites, inviteCode, Lower(email)).None?
    ensures var step := RegisterSpec(users, usersNext, invites, Some(inviteCode), Some(email), password, name, now, o);
            && !step.reply.Registered?
            && (password.Some? && name.Some?
                && RegisterProblems(email, password.value, name.value, Some(inviteCode), o.isEmail, o.isLength) == [] ==>
                  step == RegisterStep(InviteRejected, users, usersNext, invites))
  {
  }

  /**
   * Once the input checks pass, a code that matches no `sent` invite for
   * the lowercased email, or whose invite has passed its expiry, is the
   * invite refusal (400), and neither collection changes.
   */
  lemma RegisterRefusesInvite(users: seq<UserDoc>, usersNext: Id, invites: seq<Inv.InviteDoc>,
                              inviteCode: string, email: string, password: string, name: string,
                              now: Time, o: Primitives)
    requires RegisterProblems(email, password, name, Some(inviteCode), o.isEmail, o.isLength) == []
    requires var found := FindRedeemable(invites, inviteCode, Lower(email));
             found.None? || Inv.IsExpired(invites[found.value], now)
    ensures RegisterSpec(users, usersNext, invites, Some(inviteCode), Some(email), Some(password), Some(name), now, o)
         == RegisterStep(InviteRejected, users, usersNext, invites)
  {
  }

  /**
   * Conversely, registration succeeds when the input checks pass, a `sent`
   * invite matches the code and the lowercased email and has not expired,
   * the account schema accepts the trimmed name, the lowercased email and
   * the password with the invite's role, and no account holds the email:
   * the reply carries the next account id and a token signed for it.
   */
  lemma RegisterSucceeds(users: seq<UserDoc>, usersNext: Id, invites: seq<Inv.InviteDoc>,
                         inviteCode: string, email: string, password: string, name: string,
                         now: Time, o: Primitives)
    requires RegisterProblems(email, password, name, Some(inviteCode), o.isEmail, o.isLength) == []
    requires FindRedeemable(invites, inviteCode, Lower(email)).Some?
    requires var inv := invites[FindRedeemable(invites, inviteCode, Lower(email)).value];
             && !Inv.IsExpired(inv, now)
             && SchemaAccepts(Trim(name), Lower(email), password, inv.role, o.isEmail)
             && !EmailTaken(users, Lower(email))
    ensures var inv := invites[FindRedeemable(invites, inviteCode, Lower(email)).value];
            RegisterSpec(users, usersNext, invites, Some(inviteCode), Some(email), Some(password), Some(name), now, o).reply
              == Registered(usersNext, o.sign(usersNext, inv.role))
  {
    LowerIdempotent(email);
  }

  /**
   * The token issued at registration is not recorded in the account's
   * sessions, so `auth` turns it away even though it verifies.
   */
  lemma RegistrationTokenRejected(users: seq<UserDoc>, usersNext: Id, invites: seq<Inv.InviteDoc>,
                                  inviteCode: Option<string>, email: Option<string>, password: Option<string>, name: Option<string>,
                                  now: Time, o: Primitives)
    requires WellFormed(users, usersNext)
    requires RegisterSpec(users, usersNext, invites, inviteCode, email, password, name, now, o).reply.Registered?
    requires var r := RegisterSpec(users, usersNext, invites, inviteCode, email, password, name, now, o).reply;
             o.verify(r.token) == Some(r.userId)
    ensures var step := RegisterSpec(users, usersNext, invites, inviteCode, email, password, name, now, o);
            var a := Authenticate(step.users, Some(step.reply.token), o.verify);
            a.Rejected? && (step.reply.token != [] ==> a.reason == InvalidToken)
  {
    RegisterSuccessShape(users, usersNext, invites, inviteCode, email, password, name, now, o);
    var step := RegisterSpec(users, usersNext, invites, inviteCode, email, password, name, now, o);
    NewAccountTokenRejected(users, usersNext, step.users, step.reply.token, o.verify);
  }

  /** A token naming the account just appended, which holds no session, is turned away. */
  lemma NewAccountTokenRejected(users: seq<UserDoc>, usersNext: Id, after: seq<UserDoc>, token: string,
                                verify: string -> Option<Id>)
    requires WellFormed(users, usersNext)
    requires |after| == |users| + 1 && after[..|users|] == users
    requires after[|users|].id == usersNext && after[|users|].tokens == []
    requires verify(token) == Some(usersNext)
    ensures var a := Authenticate(after, Some(token), verify);
            a.Rejected? && (token != [] ==> a.reason == InvalidToken)
  {
    assert after == users + [after[|users|]];
    NoSessionForNewId(users, usersNext, after[|users|], token);
  }

  /** No stored account has the next id, and the new one holds no session yet. */
  lemma NoSessionForNewId(users: seq<UserDoc>, usersNext: Id, u: UserDoc, token: string)
    requires WellFormed(users, usersNext) && u.tokens == []
    ensures forall k :: 0 <= k < |users + [u]| ==> !AcceptsSession((users + [u])[k], usersNext, token)
  {
    forall k | 0 <= k < |users + [u]|
      ensures !AcceptsSession((users + [u])[k], usersNext, token)
    {
      if k < |users| {
        assert (users + [u])[k] == users[k] && DocOk(users[k], usersNext);
      }
    }
  }

  // ---------------------------------------------------------------------
  // Logout

  datatype LogoutReply =
    | LoggedOut
    | LogoutRejected(reason: AuthFailure)   // 401 from `auth`
    | LogoutFailed                          // 500: the save found no document
  {
    function Status(): int {
      match this
      case LoggedOut => 200
      case LogoutRejected(_) => 401
      case LogoutFailed => 500
    }
  }

  /** `tokens.filter(t => t.token !== token)`. */
  function WithoutToken(tokens: seq<Session>, token: string): (r: seq<Session>)
    ensures forall k :: 0 <= k < |r| ==> r[k].token != token && r[k] in tokens
    ensures forall k :: 0 <= k < |tokens| && tokens[k].token != token ==> tokens[k] in r
    ensures !HoldsToken(r, token)
  {
    Filter(tokens, (s: Session) => s.token != token)
  }

  datatype LogoutStep = LogoutStep(reply: LogoutReply, docs: seq<UserDoc>)

  /** `auth` followed by `/logout`. */
  function LogoutSpec(docs: seq<UserDoc>, cookie: Option<string>, verify: string -> Option<Id>): LogoutStep {
    match Authenticate(docs, cookie, verify)
    case Rejected(f) => LogoutStep(LogoutRejected(f), docs)
    case Authenticated(t, u) =>
      match IndexOfId(docs, u.id)
      case None => LogoutStep(LogoutFailed, docs)
      case Some(i) => LogoutStep(LoggedOut, docs[i := docs[i].(tokens := WithoutToken(u.tokens, t))])
  }

  method Logout(users: UserCollection, cookie: Option<string>, verify: string -> Option<Id>, hash: string -> string)
    returns (r: LogoutReply)
    requires users.Valid()
    modifies users
    ensures users.Valid() && users.nextId == old(users.nextId)
    ensures LogoutStep(r, users.docs) == LogoutSpec(old(users.docs), cookie, verify)
  {
    var a := Authenticate(users.docs, cookie, verify);
    if a.Rejected? {
      return LogoutRejected(a.reason);
    }
    var found := IndexOfId(users.docs, a.user.id);
    if found.None? {
      return LogoutFailed;
    }
    users.SaveTokens(found.value, WithoutToken(a.user.tokens, a.token), hash);
    r := LoggedOut;
  }

  /**
   * A logout that passed `auth` drops from the caller's account exactly
   * the sessions holding the presented token; that token is refused from
   * then on, and every other account is untouched.
   */
  lemma LogoutDropsPresentedSession(docs: seq<UserDoc>, nextId: Id, cookie: Option<string>, verify: string -> Option<Id>)
    requires WellFormed(docs, nextId)
    requires Authenticate(docs, cookie, verify).Authenticated?
    ensures var a := Authenticate(docs, cookie, verify);
            var step := LogoutSpec(docs, cookie, verify);
            && IndexOfId(docs, a.user.id).Some?
            && var i := IndexOfId(docs, a.user.id).value;
            && step.reply == LoggedOut
            && step.docs == docs[i := docs[i].(tokens := WithoutToken(docs[i].tokens, a.token))]
            && Authenticate(step.docs, cookie, verify) == Rejected(InvalidToken)
  {
    var a := Authenticate(docs, cookie, verify);
    var k :| 0 <= k < |docs| && docs[k] == a.user;
    IndexOfIdUnique(docs, nextId, k);
    var step := LogoutSpec(docs, cookie, verify);
    forall m | 0 <= m < |step.docs|
      ensures !AcceptsSession(step.docs[m], a.user.id, a.token)
    {
      if m != k {
        assert step.docs[m] == docs[m];
      }
    }
  }

  /** Every other token that authenticated before the logout still does after it. */
  lemma LogoutKeepsOtherSessions(docs: seq<UserDoc>, nextId: Id, cookie: Option<string>, other: string,
                                 verify: string -> Option<Id>)
    requires WellFormed(docs, nextId)
    requires cookie.Some? && other != cookie.value
    requires Authenticate(docs, Some(other), verify).Authenticated?
    ensures Authenticate(LogoutSpec(docs, cookie, verify).docs, Some(other), verify).Authenticated?
  {
    var step := LogoutSpec(docs, cookie, verify);
    var b := Authenticate(docs, Some(other), verify);
    var id := verify(other).value;
    var m :| 0 <= m < |docs| && AcceptsSession(docs[m], id, other);
    if step.reply == LoggedOut {
      var a := Authenticate(docs, cookie, verify);
      var k :| 0 <= k < |docs| && docs[k] == a.user;
      IndexOfIdUnique(docs, nextId, k);
      if m == k {
        OtherTokenKept(docs[k].tokens, a.token, other);
        assert AcceptsSession(step.docs[k], id, other);
      } else {
        assert step.docs[m] == docs[m];
      }
    }
  }

  /** Dropping one token keeps every session with another. */
  lemma OtherTokenKept(tokens: seq<Session>, token: string, other: string)
    requires HoldsToken(tokens, other) && other != token
    ensures HoldsToken(WithoutToken(tokens, token), other)
  {
    var n :| 0 <= n < |tokens| && tokens[n].token == other;
    var r := WithoutToken(tokens, token);
    assert tokens[n] in r;
    var p :| 0 <= p < |r| && r[p] == tokens[n];
  }

  /**
   * Logging out with the token a login just issued undoes that login's
   * session: the account keeps its earlier sessions and only the cleared
   * counters remain of the login. `LoginSuccessShape` gives the collection
   * after a login in exactly the form assumed here.
   */
  lemma LogoutUndoesLogin(docs: seq<UserDoc>, nextId: Id, i: nat, s: Session, verify: string -> Option<Id>)
    requires WellFormed(docs, nextId) && i < |docs| && docs[i].role in StaffRoles
    requires s.token != [] && verify(s.token) == Some(docs[i].id) && !HoldsToken(docs[i].tokens, s.token)
    ensures var loggedIn := docs[i := AfterReset(docs[i]).(tokens := docs[i].tokens + [s])];
            LogoutSpec(loggedIn, Some(s.token), verify) == LogoutStep(LoggedOut, docs[i := AfterReset(docs[i])])
  {
    var v := AfterReset(docs[i]).(tokens := docs[i].tokens + [s]);
    var loggedIn := docs[i := v];
    WellFormedReplace(docs, nextId, i, v);
    assert v.tokens[|docs[i].tokens|] == s;
    assert AcceptsSession(loggedIn[i], docs[i].id, s.token);
    LogoutDropsPresentedSession(loggedIn, nextId, Some(s.token), verify);
    var a := Authenticate(loggedIn, Some(s.token), verify);
    assert a.user.id == docs[i].id;
    IndexOfIdUnique(loggedIn, nextId, i);
    WithoutFreshToken(docs[i].tokens, s);
    assert loggedIn[i := v.(tokens := docs[i].tokens)] == docs[i := AfterReset(docs[i])];
  }

  /** Dropping a token nobody held before it was appended gives back the earlier list. */
  lemma WithoutFreshToken(tokens: seq<Session>, s: Session)
    requires !HoldsToken(tokens, s.token)
    ensures WithoutToken(tokens + [s], s.token) == tokens
  {
    var p := (x: Session) => x.token != s.token;
    FilterAppend(tokens, [s], p);
    FilterKeepsAll(tokens, p);
    assert Filter([s], p) == [];
  }
}
