/**
 * The account routes of routes/users.js: the list with each account's
 * approval count, and the two `superAdmin` routes that delete an account
 * or change its role. `auth` ran before each handler and `caller` is the
 * account it resolved; the list also sits behind `admin`, which every
 * authenticated caller passes (`AuthMiddleware.AuthenticatedPassesAdmin`).
 */
module UserRoutes {
  import opened Base
  import opened UserModel
  import S = SubmissionModel
  import SubmissionRoutes
  import AuthMiddleware

  // ---------------------------------------------------------------------
  // The list

  /** One element of the list: the `$project` stage, with the `_id` it keeps by default. */
  datatype UserView = UserView(
    id: Id,
    name: string,
    email: string,
    role: string,
    codesGenerated: nat,
    createdAt: Time,
    isProtected: bool)

  /** The `$lookup` join condition: the submission's `approvedBy` is this account. */
  function ApprovedBy(id: Id): S.SubmissionDoc -> bool {
    (d: S.SubmissionDoc) => d.approvedBy == Some(id)
  }

  /** `$size` of the joined `approvals`. */
  function CodesGenerated(subs: seq<S.SubmissionDoc>, id: Id): (n: nat)
    ensures n <= |subs|
  {
    Count(subs, ApprovedBy(id))
  }

  function View(u: UserDoc, subs: seq<S.SubmissionDoc>): UserView {
    UserView(u.id, u.name, u.email, u.role, CodesGenerated(subs, u.id), u.createdAt, u.isProtected)
  }

  /** `GET /users`: every account, in collection order, as its projection. */
  function ListUsers(users: seq<UserDoc>, subs: seq<S.SubmissionDoc>): (r: seq<UserView>)
    ensures |r| == |users|
  {
    seq(|users|, i requires 0 <= i < |users| => View(users[i], subs))
  }

  /**
   * Each row is its account's name, email, role, creation time and
   * protection flag, and its count is the number of approvals it made;
   * nothing else of the account is carried.
   */
  lemma ListedAccounts(users: seq<UserDoc>, subs: seq<S.SubmissionDoc>, i: nat)
    requires i < |users|
    ensures var v := ListUsers(users, subs)[i];
      && v.id == users[i].id && v.name == users[i].name && v.email == users[i].email
      && v.role == users[i].role && v.createdAt == users[i].createdAt && v.isProtected == users[i].isProtected
      && v.codesGenerated == |Filter(subs, ApprovedBy(users[i].id))|
  {
    CountIsFilterLength(subs, ApprovedBy(users[i].id));
  }

  /** The count is the number of submissions this account approved, each one of them in the collection. */
  lemma CountedApprovals(subs: seq<S.SubmissionDoc>, id: Id)
    ensures var a := Filter(subs, ApprovedBy(id));
      && CodesGenerated(subs, id) == |a|
      && (forall k :: 0 <= k < |a| ==> a[k] in subs && a[k].approvedBy == Some(id))
      && (forall k :: 0 <= k < |subs| && subs[k].approvedBy == Some(id) ==> subs[k] in a)
  {
    CountIsFilterLength(subs, ApprovedBy(id));
  }

  /**
   * An approval through the review route credits the approving account
   * with the submission, taking it from the account recorded before (a
   * submitter may have set `approvedBy` when creating it): the caller's
   * count goes up by one unless it was already recorded, the previously
   * recorded account's goes down by one, and every other count is
   * unchanged; a rejection or a refused request changes no count.
   */
  lemma ApprovalCountsOne(subs: seq<S.SubmissionDoc>, caller: UserDoc, id: Id,
                          requested: Option<string>, now: Time, other: Id)
    ensures var r := SubmissionRoutes.TransitionSpec(subs, caller, id, requested, now);
      var approved := r.reply.StatusUpdated? && requested == Some("approved");
      var before := if approved then subs[S.IndexOfId(subs, id).value].approvedBy else None;
      && CodesGenerated(r.docs, caller.id) == CodesGenerated(subs, caller.id) + (if approved && before != Some(caller.id) then 1 else 0)
      && (other != caller.id ==>
            CodesGenerated(r.docs, other) + (if approved && before == Some(other) then 1 else 0) == CodesGenerated(subs, other))
  {
    var r := SubmissionRoutes.TransitionSpec(subs, caller, id, requested, now);
    if r.reply.StatusUpdated? {
      SubmissionRoutes.TransitionAccepted(subs, caller, id, requested, now);
      var k := S.IndexOfId(subs, id).value;
      CountUpdate(subs, k, r.reply.doc, ApprovedBy(caller.id));
      CountUpdate(subs, k, r.reply.doc, ApprovedBy(other));
    }
  }

  /** On a submission nobody had approved, an approval adds exactly one to the approving account's count and nothing to any other. */
  lemma FirstApprovalCountsOne(subs: seq<S.SubmissionDoc>, caller: UserDoc, id: Id, now: Time, other: Id)
    requires SubmissionRoutes.TransitionSpec(subs, caller, id, Some("approved"), now).reply.StatusUpdated?
    requires subs[S.IndexOfId(subs, id).value].approvedBy.None?
    ensures var r := SubmissionRoutes.TransitionSpec(subs, caller, id, Some("approved"), now);
      && CodesGenerated(r.docs, caller.id) == CodesGenerated(subs, caller.id) + 1
      && (other != caller.id ==> CodesGenerated(r.docs, other) == CodesGenerated(subs, other))
  {
    ApprovalCountsOne(subs, caller, id, Some("approved"), now, other);
  }

  // ---------------------------------------------------------------------
  // Delete and role change

  /** An account as the role route returns it: `.select("-password -tokens")`. */
  datatype Account = Account(
    id: Id,
    name: string,
    email: string,
    role: string,
    loginAttempts: nat,
    lockUntil: Option<Time>,
    isProtected: bool,
    createdAt: Time)

  function Public(u: UserDoc): Account {
    Account(u.id, u.name, u.email, u.role, u.loginAttempts, u.lockUntil, u.isProtected, u.createdAt)
  }

  datatype UserReply =
    | Deleted                       // 200, data: null
    | RoleSet(user: Account)        // 200
    | NotFound                      // 404
    | Forbidden(message: string)    // 403
    | BadRequest(message: string)   // 400
    | ServerError                   // 500
  {
    function Status(): int {
      match this
      case Deleted => 200
      case RoleSet(_) => 200
      case NotFound => 404
      case Forbidden(_) => 403
      case BadRequest(_) => 400
      case ServerError => 500
    }
  }

  datatype UserStep = UserStep(reply: UserReply, docs: seq<UserDoc>)

  const ProtectedMessage: string := "Protected admin cannot be deleted"
  const SelfMessage: string := "Cannot delete your own account"

  /**
   * `DELETE /users/:id` after `superAdmin`, on the raw path parameter:
   * `findById` casts it to an identifier (`castId`; a failed cast throws,
   * 500), then not found, then protected, then the self check, which
   * compares the caller's id rendered as text (`idText`, the `id` virtual)
   * with the raw parameter.
   */
  function DeleteUserSpec(docs: seq<UserDoc>, caller: UserDoc, param: string,
                          castId: string -> Option<Id>, idText: Id -> string): (r: UserStep)
    ensures !r.reply.Deleted? ==> r.docs == docs
  {
    var guard := AuthMiddleware.SuperAdmin(caller.role);
    if guard.Forbidden? then UserStep(Forbidden(guard.message), docs)
    else match castId(param)
      case None => UserStep(ServerError, docs)
      case Some(id) =>
        match IndexOfId(docs, id)
        case None => UserStep(NotFound, docs)
        case Some(k) =>
          if docs[k].isProtected then UserStep(Forbidden(ProtectedMessage), docs)
          else if idText(caller.id) == param then UserStep(BadRequest(SelfMessage), docs)
          else UserStep(Deleted, docs[..k] + docs[k + 1..])
  }

  method DeleteUser(users: UserCollection, caller: UserDoc, param: string,
                    castId: string -> Option<Id>, idText: Id -> string) returns (reply: UserReply)
    requires users.Valid()
    modifies users
    ensures users.Valid() && users.nextId == old(users.nextId)
    ensures UserStep(reply, users.docs) == DeleteUserSpec(old(users.docs), caller, param, castId, idText)
  {
    var guard := AuthMiddleware.SuperAdmin(caller.role);
    if guard.Forbidden? {
      return Forbidden(guard.message);
    }
    var id := castId(param);
    if id.None? {
      return ServerError;
    }
    var k := IndexOfId(users.docs, id.value);
    if k.None? {
      return NotFound;
    }
    if users.docs[k.value].isProtected {
      return Forbidden(ProtectedMessage);
    }
    if idText(caller.id) == param {
      return BadRequest(SelfMessage);
    }
    users.RemoveAt(k.value);
    reply := Deleted;
  }

  /**
   * The outcome of a delete, case by case: 403 for a caller who is not the
   * super admin, 500 for a parameter that is no identifier, 404 for an
   * absent account, 403 for a protected one, 400 when the parameter is the
   * caller's id as text, and otherwise the account is removed.
   */
  lemma DeleteUserOutcomes(docs: seq<UserDoc>, nextId: Id, caller: UserDoc, param: string,
                           castId: string -> Option<Id>, idText: Id -> string)
    requires WellFormed(docs, nextId)
    ensures var r := DeleteUserSpec(docs, caller, param, castId, idText).reply;
      var id := castId(param);
      && (caller.role != "superAdmin" <==> r == Forbidden("Super admin privileges required"))
      && (r == ServerError <==> caller.role == "superAdmin" && id.None?)
      && (r == NotFound <==> caller.role == "superAdmin" && id.Some? && forall k :: 0 <= k < |docs| ==> docs[k].id != id.value)
      && (r == Forbidden(ProtectedMessage) <==>
            caller.role == "superAdmin" && id.Some? && exists k :: 0 <= k < |docs| && docs[k].id == id.value && docs[k].isProtected)
      && (r == BadRequest(SelfMessage) <==>
            caller.role == "superAdmin" && id.Some? && idText(caller.id) == param &&
            exists k :: 0 <= k < |docs| && docs[k].id == id.value && !docs[k].isProtected)
      && (r == Deleted <==>
            caller.role == "superAdmin" && id.Some? && idText(caller.id) != param &&
            exists k :: 0 <= k < |docs| && docs[k].id == id.value && !docs[k].isProtected)
  {
    if castId(param).Some? {
      var id := castId(param).value;
      match IndexOfId(docs, id)
      case None =>
      case Some(k) =>
        forall j | 0 <= j < |docs| && docs[j].id == id
          ensures j == k
        {
          IndexOfIdUnique(docs, nextId, j);
        }
    }
  }

  /** The caller's own unprotected account, named by its id as text, is refused with 400. */
  lemma SelfDeleteRefused(docs: seq<UserDoc>, nextId: Id, caller: UserDoc, k: nat,
                          castId: string -> Option<Id>, idText: Id -> string)
    requires WellFormed(docs, nextId) && caller.role == "superAdmin"
    requires k < |docs| && docs[k].id == caller.id && !docs[k].isProtected
    requires castId(idText(caller.id)) == Some(caller.id)
    ensures DeleteUserSpec(docs, caller, idText(caller.id), castId, idText) == UserStep(BadRequest(SelfMessage), docs)
  {
    IndexOfIdUnique(docs, nextId, k);
  }

  /**
   * The self check compares text, not identifiers: a parameter that casts
   * to the caller's own id but is spelled differently from `idText` (for
   * an ObjectId, the same hex digits in upper case) deletes the caller's
   * own unprotected account.
   */
  lemma SelfDeleteOtherSpelling(docs: seq<UserDoc>, nextId: Id, caller: UserDoc, k: nat, param: string,
                                castId: string -> Option<Id>, idText: Id -> string)
    requires WellFormed(docs, nextId) && caller.role == "superAdmin"
    requires k < |docs| && docs[k].id == caller.id && !docs[k].isProtected
    requires castId(param) == Some(caller.id) && param != idText(caller.id)
    ensures DeleteUserSpec(docs, caller, param, castId, idText) == UserStep(Deleted, docs[..k] + docs[k + 1..])
  {
    IndexOfIdUnique(docs, nextId, k);
  }

  /** A protected account is refused as protected even when it is the caller's own. */
  lemma ProtectedCheckedBeforeSelf(docs: seq<UserDoc>, nextId: Id, caller: UserDoc,
                                   castId: string -> Option<Id>, idText: Id -> string)
    requires WellFormed(docs, nextId) && caller.role == "superAdmin"
    requires exists k :: 0 <= k < |docs| && docs[k] == caller && caller.isProtected
    requires castId(idText(caller.id)) == Some(caller.id)
    ensures DeleteUserSpec(docs, caller, idText(caller.id), castId, idText).reply == Forbidden(ProtectedMessage)
  {
    var j :| 0 <= j < |docs| && docs[j] == caller && caller.isProtected;
    IndexOfIdUnique(docs, nextId, j);
  }

  /**
   * As written, the protected branch is dead: through the strict schema no
   * account carries `isProtected`, so a super admin deletes any other
   * account, including the seeded one created with `isProtected: true`.
   */
  lemma SeededAdminDeletableAsWritten(docs: seq<UserDoc>, nextId: Id, caller: UserDoc, k: nat, param: string,
                                      castId: string -> Option<Id>, idText: Id -> string)
    requires WellFormed(docs, nextId) && caller.role == "superAdmin"
    requires k < |docs| && castId(param) == Some(docs[k].id) && idText(caller.id) != param
    ensures var stored := AllAsStored(docs);
      DeleteUserSpec(stored, caller, param, castId, idText) == UserStep(Deleted, stored[..k] + stored[k + 1..])
  {
    AllAsStoredWellFormed(docs, nextId);
    IndexOfIdUnique(AllAsStored(docs), nextId, k);
  }

  /** With `isProtected` kept, as the route means it, a protected account survives every delete request. */
  lemma ProtectedNeverDeleted(docs: seq<UserDoc>, nextId: Id, caller: UserDoc, k: nat, param: string,
                              castId: string -> Option<Id>, idText: Id -> string)
    requires WellFormed(docs, nextId) && k < |docs| && docs[k].isProtected
    ensures docs[k] in DeleteUserSpec(docs, caller, param, castId, idText).docs
  {
    var r := DeleteUserSpec(docs, caller, param, castId, idText);
    if r.reply.Deleted? {
      var j := IndexOfId(docs, castId(param).value).value;
      IndexOfIdUnique(docs, nextId, k);
      assert j != k;
      if k < j {
        assert r.docs[k] == docs[k];
      } else {
        assert r.docs[k - 1] == docs[k];
      }
    }
  }

  /** A successful delete takes out that one account and keeps every other in its order. */
  lemma DeleteUserRemovesOne(docs: seq<UserDoc>, nextId: Id, caller: UserDoc, param: string,
                             castId: string -> Option<Id>, idText: Id -> string)
    requires WellFormed(docs, nextId)
    requires DeleteUserSpec(docs, caller, param, castId, idText).reply.Deleted?
    ensures castId(param).Some?
    ensures var id := castId(param).value;
      var r := DeleteUserSpec(docs, caller, param, castId, idText).docs;
      && |r| == |docs| - 1
      && IndexOfId(r, id).None?
      && (forall u :: u in docs && u.id != id ==> u in r)
      && (forall u :: u in r ==> u in docs)
  {
    var id := castId(param).value;
    var k := IndexOfId(docs, id).value;
    var r := DeleteUserSpec(docs, caller, param, castId, idText).docs;
    assert forall a :: 0 <= a < |r| ==> r[a] == docs[if a < k then a else a + 1];
    forall u | u in docs && u.id != id
      ensures u in r
    {
      var a :| 0 <= a < |docs| && docs[a] == u;
      assert r[if a < k then a else a - 1] == u;
    }
    forall a | 0 <= a < |r|
      ensures r[a].id != id
    {
      var b := if a < k then a else a + 1;
      assert r[a] == docs[b] && b != k;
    }
  }

  /**
   * `PATCH /users/:id/role` after `superAdmin`. The update validators see
   * the role before the lookup, so a role outside the enum fails with 500
   * whether or not the account exists; an absent role drops out of the
   * update, which then changes nothing.
   */
  function ChangeRoleSpec(docs: seq<UserDoc>, caller: UserDoc, id: Id, role: Option<string>): (r: UserStep)
    ensures !r.reply.RoleSet? ==> r.docs == docs
  {
    var guard := AuthMiddleware.SuperAdmin(caller.role);
    if guard.Forbidden? then UserStep(Forbidden(guard.message), docs)
    else if role.Some? && role.value !in AccountRoles then UserStep(ServerError, docs)
    else match IndexOfId(docs, id)
      case None => UserStep(NotFound, docs)
      case Some(k) =>
        if role.None? then UserStep(RoleSet(Public(docs[k])), docs)
        else UserStep(RoleSet(Public(docs[k].(role := role.value))), docs[k := docs[k].(role := role.value)])
  }

  method ChangeRole(users: UserCollection, caller: UserDoc, id: Id, role: Option<string>) returns (reply: UserReply)
    requires users.Valid()
    modifies users
    ensures users.Valid() && users.nextId == old(users.nextId)
    ensures UserStep(reply, users.docs) == ChangeRoleSpec(old(users.docs), caller, id, role)
  {
    var guard := AuthMiddleware.SuperAdmin(caller.role);
    if guard.Forbidden? {
      return Forbidden(guard.message);
    }
    if role.Some? && role.value !in AccountRoles {
      return ServerError;
    }
    var k := IndexOfId(users.docs, id);
    if k.None? {
      return NotFound;
    }
    if role.None? {
      return RoleSet(Public(users.docs[k.value]));
    }
    users.SetRole(k.value, role.value);
    reply := RoleSet(Public(users.docs[k.value]));
  }

  /**
   * A role change by the super admin succeeds exactly when the role is in
   * the enum and the account exists: no protection or self check applies.
   * It then sets the role of that account only.
   */
  lemma RoleChangeSetsOnlyRole(docs: seq<UserDoc>, caller: UserDoc, id: Id, role: string)
    requires caller.role == "superAdmin"
    ensures var r := ChangeRoleSpec(docs, caller, id, Some(role));
      && (r.reply.RoleSet? <==> role in AccountRoles && exists k :: 0 <= k < |docs| && docs[k].id == id)
      && (r.reply == ServerError <==> role !in AccountRoles)
      && (r.reply.RoleSet? ==>
            var k := IndexOfId(docs, id).value;
            && r.docs == docs[k := docs[k].(role := role)]
            && r.reply.user.role == role && r.reply.user.id == id
            && r.reply.user.name == docs[k].name && r.reply.user.email == docs[k].email)
  {
  }

  /** A role change keeps the accounts well formed. */
  lemma RoleChangeKeepsWellFormed(docs: seq<UserDoc>, nextId: Id, caller: UserDoc, id: Id, role: Option<string>)
    requires WellFormed(docs, nextId)
    ensures WellFormed(ChangeRoleSpec(docs, caller, id, role).docs, nextId)
  {
    var r := ChangeRoleSpec(docs, caller, id, role);
    if r.docs != docs {
      var k := IndexOfId(docs, id).value;
      WellFormedReplace(docs, nextId, k, docs[k].(role := role.value));
    }
  }

  /** Only the super admin changes the accounts: anyone else gets 403 from both routes and nothing moves. */
  lemma MutationsNeedSuperAdmin(docs: seq<UserDoc>, caller: UserDoc, param: string, castId: string -> Option<Id>,
                                 idText: Id -> string, id: Id, role: Option<string>)
    requires caller.role != "superAdmin"
    ensures DeleteUserSpec(docs, caller, param, castId, idText) == UserStep(Forbidden("Super admin privileges required"), docs)
    ensures ChangeRoleSpec(docs, caller, id, role) == UserStep(Forbidden("Super admin privileges required"), docs)
  {
  }
}
