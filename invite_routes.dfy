/**
 * The invite routes of routes/invites.js: generate, resend, revoke and the
 * list. Each runs behind `auth` and `admin`; `caller` is the account `auth`
 * resolved (see `AuthMiddleware.AuthenticatedPassesAdmin`: `admin` then
 * always lets it through). The invitation mail is sent after the decision
 * and its result is ignored, so it does not appear here.
 */
module InviteRoutes {
  import opened Base
  import U = UserModel
  import opened InviteModel

  datatype InviteReply =
    | Created(invite: InviteDoc)              // 201
    | Updated(invite: InviteDoc)              // 200
    | Refused(code: int, message: string)     // 400, 403 or 404 with the route's message
    | ServerError                             // 500
  {
    function Status(): int {
      match this
      case Created(_) => 201
      case Updated(_) => 200
      case Refused(c, _) => c
      case ServerError => 500
    }
  }

  datatype InviteStep = InviteStep(reply: InviteReply, docs: seq<InviteDoc>, nextId: Id)

  /** `Invite.findOne({ email, status: { $in: ['pending', 'sent'] } })` finds something; expiry plays no part. */
  predicate ActiveInviteFor(invites: seq<InviteDoc>, email: string) {
    exists k :: 0 <= k < |invites| && invites[k].email == email && invites[k].status in {Pending, Sent}
  }

  // ---------------------------------------------------------------------
  // Generate

  /**
   * `POST /invites/generate`. `random` stands for the 16 bytes the code
   * default draws; an absent `email` makes the validator throw.
   */
  function GenerateSpec(users: seq<U.UserDoc>, invites: seq<InviteDoc>, nextId: Id, caller: U.UserDoc,
                        email: Option<string>, role: Option<string>, now: Time, random: seq<Byte>,
                        isEmail: string -> bool): InviteStep
    requires |random| == CodeBytes
  {
    var same := (r: InviteReply) => InviteStep(r, invites, nextId);
    if email.None? then same(ServerError)
    else if !isEmail(email.value) then same(Refused(400, "Valid email required"))
    else if role.None? || role.value !in InviteRoles then same(Refused(400, "Invalid role"))
    else
      var e := Lower(email.value);
      if U.EmailTaken(users, e) then same(Refused(400, "User already exists"))
      else if ActiveInviteFor(invites, e) then same(Refused(400, "Active invite exists for this email"))
      else
        var inv := DefaultInvite(nextId, e, role.value, caller.id, now, random).(status := Sent);
        if !SchemaAccepts(inv, isEmail) || CodeTaken(invites, inv.code) then same(ServerError)
        else InviteStep(Created(BeforeSave(inv, now)), invites + [BeforeSave(inv, now)], nextId + 1)
  }

  method Generate(users: U.UserCollection, invites: InviteCollection, caller: U.UserDoc,
                  email: Option<string>, role: Option<string>, now: Time, random: seq<Byte>,
                  isEmail: string -> bool) returns (r: InviteReply)
    requires invites.Valid() && |random| == CodeBytes
    modifies invites
    ensures invites.Valid()
    ensures InviteStep(r, invites.docs, invites.nextId)
         == GenerateSpec(users.docs, old(invites.docs), old(invites.nextId), caller, email, role, now, random, isEmail)
  {
    if email.None? {
      return ServerError;
    }
    if !isEmail(email.value) {
      return Refused(400, "Valid email required");
    }
    if role.None? || role.value !in InviteRoles {
      return Refused(400, "Invalid role");
    }
    var e := Lower(email.value);
    var k := 0;
    while k < |users.docs|
      invariant 0 <= k <= |users.docs|
      invariant forall j :: 0 <= j < k ==> users.docs[j].email != e
    {
      if users.docs[k].email == e {
        return Refused(400, "User already exists");
      }
      k := k + 1;
    }
    k := 0;
    while k < |invites.docs|
      invariant 0 <= k <= |invites.docs|
      invariant forall j :: 0 <= j < k ==> !(invites.docs[j].email == e && invites.docs[j].status in {Pending, Sent})
    {
      if invites.docs[k].email == e && invites.docs[k].status in {Pending, Sent} {
        return Refused(400, "Active invite exists for this email");
      }
      k := k + 1;
    }
    var inv := DefaultInvite(invites.nextId, e, role.value, caller.id, now, random).(status := Sent);
    LowerIdempotent(email.value);
    var outcome := invites.Insert(inv, now, isEmail);
    if !outcome.Inserted? {
      return ServerError;
    }
    r := Created(BeforeSave(inv, now));
  }

  /**
   * The refusals in the order the route makes them, each with the
   * collection left alone: a non-email, a role other than admin or
   * moderator, an account holding the email, an active invite for it.
   */
  lemma GenerateRefusals(users: seq<U.UserDoc>, invites: seq<InviteDoc>, nextId: Id, caller: U.UserDoc,
                         email: string, role: Option<string>, now: Time, random: seq<Byte>, isEmail: string -> bool)
    requires |random| == CodeBytes
    ensures var step := GenerateSpec(users, invites, nextId, caller, Some(email), role, now, random, isEmail);
            && (step.reply == Refused(400, "Valid email required") <==> !isEmail(email))
            && (step.reply == Refused(400, "Invalid role") <==>
                  isEmail(email) && (role.None? || role.value !in InviteRoles))
            && (step.reply == Refused(400, "User already exists") <==>
                  isEmail(email) && role.Some? && role.value in InviteRoles && U.EmailTaken(users, Lower(email)))
            && (step.reply == Refused(400, "Active invite exists for this email") <==>
                  isEmail(email) && role.Some? && role.value in InviteRoles && !U.EmailTaken(users, Lower(email))
                  && ActiveInviteFor(invites, Lower(email)))
            && (!step.reply.Created? ==> step.docs == invites && step.nextId == nextId)
  {
  }

  /** A `sent` invite whose expiry has passed still blocks a new one until the sweep marks it. */
  lemma DuplicateCheckIgnoresExpiry(users: seq<U.UserDoc>, invites: seq<InviteDoc>, nextId: Id, caller: U.UserDoc,
                                    email: string, role: string, now: Time, random: seq<Byte>,
                                    isEmail: string -> bool, k: nat)
    requires |random| == CodeBytes && isEmail(email) && role in InviteRoles && !U.EmailTaken(users, Lower(email))
    requires k < |invites| && invites[k].email == Lower(email) && invites[k].status == Sent && IsExpired(invites[k], now)
    ensures GenerateSpec(users, invites, nextId, caller, Some(email), Some(role), now, random, isEmail).reply
         == Refused(400, "Active invite exists for this email")
  {
  }

  /**
   * A successful generate appends exactly one invite: the lowercased email,
   * the requested role, created by the caller, `sent`, valid for a day,
   * with a fresh 32-digit hex code.
   */
  lemma GenerateCreatesOne(users: seq<U.UserDoc>, invites: seq<InviteDoc>, nextId: Id, caller: U.UserDoc,
                           email: Option<string>, role: Option<string>, now: Time, random: seq<Byte>,
                           isEmail: string -> bool)
    requires |random| == CodeBytes
    requires GenerateSpec(users, invites, nextId, caller, email, role, now, random, isEmail).reply.Created?
    ensures email.Some? && role.Some? && role.value in InviteRoles
    ensures var step := GenerateSpec(users, invites, nextId, caller, email, role, now, random, isEmail);
            var inv := step.reply.invite;
            && step.docs == invites + [inv] && step.nextId == nextId + 1
            && inv.id == nextId && inv.email == Lower(email.value) && inv.role == role.value
            && inv.createdBy == caller.id && inv.status == Sent
            && inv.expiresAt == now + DayMs && inv.usedAt.None? && inv.usedBy.None?
            && |inv.code| == 32 && !CodeTaken(invites, inv.code)
            && !U.EmailTaken(users, Lower(email.value)) && !ActiveInviteFor(invites, Lower(email.value))
  {
  }

  /**
   * Conversely, a well-formed request succeeds: an email the validator
   * accepts, a role of the two, no account and no active invite holding
   * the lowercased email, and a drawn code no stored invite has.
   */
  lemma GenerateSucceeds(users: seq<U.UserDoc>, invites: seq<InviteDoc>, nextId: Id, caller: U.UserDoc,
                         email: string, role: string, now: Time, random: seq<Byte>, isEmail: string -> bool)
    requires |random| == CodeBytes
    requires isEmail(email) && role in InviteRoles
    requires Lower(email) != [] && isEmail(Lower(email))
    requires !U.EmailTaken(users, Lower(email)) && !ActiveInviteFor(invites, Lower(email))
    requires !CodeTaken(invites, HexEncode(random))
    ensures var step := GenerateSpec(users, invites, nextId, caller, Some(email), Some(role), now, random, isEmail);
            && step.reply.Created?
            && step.docs == invites + [step.reply.invite] && step.nextId == nextId + 1
            && step.reply.invite.code == HexEncode(random)
  {
    LowerIdempotent(email);
    CreatedInviteAccepted(invites, nextId, Lower(email), role, caller.id, now, random, isEmail);
  }

  /** The invite built for a new lowercased email passes the schema and is stored with its drawn code. */
  lemma CreatedInviteAccepted(invites: seq<InviteDoc>, nextId: Id, e: string, role: string, createdBy: Id,
                              now: Time, random: seq<Byte>, isEmail: string -> bool)
    requires |random| == CodeBytes && role in InviteRoles
    requires e != [] && isEmail(e) && Lower(e) == e && !CodeTaken(invites, HexEncode(random))
    ensures var inv := DefaultInvite(nextId, e, role, createdBy, now, random).(status := Sent);
            && SchemaAccepts(inv, isEmail) && !CodeTaken(invites, inv.code)
            && BeforeSave(inv, now).code == HexEncode(random)
  {
  }

  // ---------------------------------------------------------------------
  // Resend

  /** `POST /invites/resend/:id`. */
  function ResendSpec(invites: seq<InviteDoc>, nextId: Id, id: Id, now: Time): InviteStep {
    match IndexOfId(invites, id)
    case None => InviteStep(Refused(404, "Invite not found"), invites, nextId)
    case Some(k) =>
      var inv := invites[k];
      if inv.status == Accepted then InviteStep(Refused(400, "Invite already accepted"), invites, nextId)
      else if IsExpired(inv, now) then InviteStep(Refused(400, "Invite expired"), invites, nextId)
      else
        var saved := BeforeSave(inv.(expiresAt := now + DayMs, status := Sent), now);
        InviteStep(Updated(saved), invites[k := saved], nextId)
  }

  method Resend(invites: InviteCollection, id: Id, now: Time) returns (r: InviteReply)
    requires invites.Valid()
    modifies invites
    ensures invites.Valid()
    ensures InviteStep(r, invites.docs, invites.nextId) == ResendSpec(old(invites.docs), old(invites.nextId), id, now)
  {
    var found := IndexOfId(invites.docs, id);
    if found.None? {
      return Refused(404, "Invite not found");
    }
    var k := found.value;
    var inv := invites.docs[k];
    if inv.status == Accepted {
      return Refused(400, "Invite already accepted");
    }
    if IsExpired(inv, now) {
      return Refused(400, "Invite expired");
    }
    var edited := inv.(expiresAt := now + DayMs, status := Sent);
    invites.Save(k, edited, now);
    r := Updated(BeforeSave(edited, now));
  }

  /**
   * A resend succeeds exactly on an invite that exists, is not accepted
   * and has not expired; it moves the expiry to a day from now and the
   * status to `sent`, and changes nothing else. `revoked` is not refused,
   * so a revoked invite comes back to life.
   */
  lemma ResendShape(invites: seq<InviteDoc>, nextId: Id, id: Id, now: Time)
    requires WellFormed(invites, nextId)
    ensures var step := ResendSpec(invites, nextId, id, now);
            && (step.reply.Updated? <==>
                  exists k :: 0 <= k < |invites| && invites[k].id == id
                              && invites[k].status != Accepted && !IsExpired(invites[k], now))
            && (step.reply.Updated? ==>
                  var k := IndexOfId(invites, id).value;
                  && step.docs == invites[k := invites[k].(expiresAt := now + DayMs, status := Sent)]
                  && step.reply.invite == step.docs[k])
            && (!step.reply.Updated? ==> step.docs == invites)
  {
    var step := ResendSpec(invites, nextId, id, now);
    if step.reply.Updated? {
      var k := IndexOfId(invites, id).value;
      assert invites[k].id == id && invites[k].status != Accepted && !IsExpired(invites[k], now);
    }
  }

  /** A revoked invite that has not expired goes back to `sent` on resend. */
  lemma ResendRevivesRevoked(invites: seq<InviteDoc>, nextId: Id, k: nat, now: Time)
    requires WellFormed(invites, nextId) && k < |invites|
    requires invites[k].status == Revoked && !IsExpired(invites[k], now)
    ensures var step := ResendSpec(invites, nextId, invites[k].id, now);
            step.reply.Updated? && step.docs[k].status == Sent && step.docs[k].expiresAt == now + DayMs
  {
    ResendShape(invites, nextId, invites[k].id, now);
  }

  // ---------------------------------------------------------------------
  // Revoke

  /** `POST /invites/:id/revoke`. */
  function RevokeSpec(invites: seq<InviteDoc>, nextId: Id, caller: U.UserDoc, id: Id, now: Time): InviteStep {
    match IndexOfId(invites, id)
    case None => InviteStep(Refused(404, "Invite not found"), invites, nextId)
    case Some(k) =>
      var inv := invites[k];
      if inv.status == Accepted then InviteStep(Refused(400, "Cannot revoke an accepted invite"), invites, nextId)
      else if inv.createdBy != caller.id && caller.role != "superAdmin" then
        InviteStep(Refused(403, "Not authorized to revoke this invite"), invites, nextId)
      else
        var saved := BeforeSave(inv.(status := Revoked), now);
        InviteStep(Updated(saved), invites[k := saved], nextId)
  }

  method Revoke(invites: InviteCollection, caller: U.UserDoc, id: Id, now: Time) returns (r: InviteReply)
    requires invites.Valid()
    modifies invites
    ensures invites.Valid()
    ensures InviteStep(r, invites.docs, invites.nextId) == RevokeSpec(old(invites.docs), old(invites.nextId), caller, id, now)
  {
    var found := IndexOfId(invites.docs, id);
    if found.None? {
      return Refused(404, "Invite not found");
    }
    var k := found.value;
    var inv := invites.docs[k];
    if inv.status == Accepted {
      return Refused(400, "Cannot revoke an accepted invite");
    }
    if inv.createdBy != caller.id && caller.role != "superAdmin" {
      return Refused(403, "Not authorized to revoke this invite");
    }
    invites.Save(k, inv.(status := Revoked), now);
    r := Updated(BeforeSave(inv.(status := Revoked), now));
  }

  /**
   * The revoke outcomes, each exactly when its condition holds: 404 for
   * an id no invite has, 400 for an accepted invite, 403 for an account
   * that neither created it nor is a super admin, and otherwise success,
   * which changes only that invite's status: to `revoked`, or to `expired`
   * when its expiry has passed, since the save hook runs after the route's
   * assignment. Re-revoking is not refused.
   */
  lemma RevokeShape(invites: seq<InviteDoc>, nextId: Id, caller: U.UserDoc, id: Id, now: Time)
    ensures var step := RevokeSpec(invites, nextId, caller, id, now);
            var found := IndexOfId(invites, id);
            && (step.reply == Refused(404, "Invite not found") <==> forall k :: 0 <= k < |invites| ==> invites[k].id != id)
            && (step.reply == Refused(400, "Cannot revoke an accepted invite") <==>
                  found.Some? && invites[found.value].status == Accepted)
            && (step.reply == Refused(403, "Not authorized to revoke this invite") <==>
                  found.Some? && invites[found.value].status != Accepted
                  && invites[found.value].createdBy != caller.id && caller.role != "superAdmin")
            && (step.reply.Updated? <==>
                  found.Some? && invites[found.value].status != Accepted
                  && (invites[found.value].createdBy == caller.id || caller.role == "superAdmin"))
            && (step.reply.Updated? ==>
                  var k := found.value;
                  && step.docs == invites[k := invites[k].(status := step.docs[k].status)]
                  && step.docs[k].status == (if IsExpired(invites[k], now) then Expired else Revoked)
                  && step.reply.invite == step.docs[k])
            && (!step.reply.Updated? ==> step.docs == invites)
            && step.nextId == nextId
  {
    if IndexOfId(invites, id).None? {
      assert RevokeSpec(invites, nextId, caller, id, now).reply == Refused(404, "Invite not found");
    } else {
      var k := IndexOfId(invites, id).value;
      assert invites[k].id == id;
    }
  }

  /** An administrator may revoke only invites they created. */
  lemma RevokeOthersForbidden(invites: seq<InviteDoc>, nextId: Id, caller: U.UserDoc, k: nat, now: Time)
    requires WellFormed(invites, nextId) && k < |invites|
    requires invites[k].status != Accepted && invites[k].createdBy != caller.id && caller.role != "superAdmin"
    ensures RevokeSpec(invites, nextId, caller, invites[k].id, now) == InviteStep(Refused(403, "Not authorized to revoke this invite"), invites, nextId)
  {
    IndexOfIdUnique(invites, nextId, k);
  }

  // ---------------------------------------------------------------------
  // List

  /** `Invite.find().sort({ createdAt: -1 })`: every invite, newest first. */
  function ListInvites(invites: seq<InviteDoc>): (r: seq<InviteDoc>)
    ensures multiset(r) == multiset(invites)
    ensures forall a, b :: 0 <= a < b < |r| ==> r[a].createdAt >= r[b].createdAt
  {
    var r := SortBy(invites, (inv: InviteDoc) => -inv.createdAt);
    assert forall a, b :: 0 <= a < b < |r| ==> -r[a].createdAt <= -r[b].createdAt;
    r
  }
}
