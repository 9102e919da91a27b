/**
 * The invite document (models/Invite.js): its defaults, the `isExpired`
 * virtual, the pre-save expiry hook, and the invite collection.
 */
module InviteModel {
  import opened Base

  /** The `role` enum of the invite schema: the highest role cannot be granted. */
  const InviteRoles: set<string> := {"admin", "moderator"}

  lemma SuperAdminNotInvitable()
    ensures "superAdmin" !in InviteRoles
  {
  }

  /** An invite lives 24 hours unless resent. */
  const InviteLifetimeMs: int := DayMs

  /** `crypto.randomBytes(16)`. */
  const CodeBytes: nat := 16

  const HexDigits: string := "0123456789abcdef"

  datatype InviteStatus = Pending | Sent | Accepted | Expired | Revoked

  datatype InviteDoc = InviteDoc(
    id: Id,
    code: string,
    email: string,
    role: string,
    createdBy: Id,
    expiresAt: Time,
    status: InviteStatus,
    usedAt: Option<Time>,
    usedBy: Option<Id>,
    createdAt: Time)

  type Byte = b: int | 0 <= b < 256

  /** `Buffer.toString('hex')`: two lower-case hex digits per byte, high nibble first. */
  function HexEncode(bytes: seq<Byte>): (r: string)
    ensures |r| == 2 * |bytes|
    ensures forall k :: 0 <= k < |r| ==> r[k] in HexDigits
  {
    if bytes == [] then []
    else [HexDigits[bytes[0] / 16], HexDigits[bytes[0] % 16]] + HexEncode(bytes[1..])
  }

  /** Different random bytes give different codes. */
  lemma {:induction false} HexEncodeInjective(a: seq<Byte>, b: seq<Byte>)
    requires HexEncode(a) == HexEncode(b)
    ensures a == b
  {
    if a != [] {
      var ea, eb := HexEncode(a), HexEncode(b);
      assert ea[0] == HexDigits[a[0] / 16] && ea[1] == HexDigits[a[0] % 16];
      assert eb[0] == HexDigits[b[0] / 16] && eb[1] == HexDigits[b[0] % 16];
      SameDigitsSameByte(a[0], b[0]);
      assert ea[2..] == HexEncode(a[1..]) && eb[2..] == HexEncode(b[1..]);
      HexEncodeInjective(a[1..], b[1..]);
      assert a == [a[0]] + a[1..] && b == [b[0]] + b[1..];
    }
  }

  /** A byte is fixed by its two hex digits. */
  lemma SameDigitsSameByte(x: Byte, y: Byte)
    requires HexDigits[x / 16] == HexDigits[y / 16] && HexDigits[x % 16] == HexDigits[y % 16]
    ensures x == y
  {
    DigitsDistinct(x / 16, y / 16);
    DigitsDistinct(x % 16, y % 16);
    assert x == x / 16 * 16 + x % 16;
    assert y == y / 16 * 16 + y % 16;
  }

  lemma DigitsDistinct(x: nat, y: nat)
    requires x < 16 && y < 16 && HexDigits[x] == HexDigits[y]
    ensures x == y
  {
  }

  /**
   * The schema's defaults for a new invite: a random code, expiry one day
   * after creation, status `pending`; the `lowercase` setter on `email`.
   */
  function DefaultInvite(id: Id, email: string, role: string, createdBy: Id, now: Time, random: seq<Byte>): (inv: InviteDoc)
    requires |random| == CodeBytes
    ensures |inv.code| == 32 && forall k :: 0 <= k < 32 ==> inv.code[k] in HexDigits
    ensures inv.expiresAt == now + 86400000 && inv.status == Pending
    ensures inv.email == Lower(email) && inv.usedAt.None? && inv.usedBy.None?
  {
    InviteDoc(id, HexEncode(random), Lower(email), role, createdBy, now + InviteLifetimeMs, Pending, None, None, now)
  }

  /** The `isExpired` virtual: strictly past its expiry, whatever the status. */
  predicate IsExpired(inv: InviteDoc, now: Time) {
    inv.expiresAt < now
  }

  /** The pre-save hook: an invite saved after its expiry becomes `expired` unless it was accepted. */
  function BeforeSave(inv: InviteDoc, now: Time): (r: InviteDoc)
    ensures r == inv.(status := r.status)
    ensures IsExpired(inv, now) && inv.status != Accepted ==> r.status == Expired
    ensures !IsExpired(inv, now) || inv.status == Accepted ==> r == inv
  {
    if IsExpired(inv, now) && inv.status != Accepted then inv.(status := Expired) else inv
  }

  /** The hook overrides every status but `accepted`, `revoked` included. */
  lemma HookOverridesRevoked(inv: InviteDoc, now: Time)
    requires IsExpired(inv, now) && inv.status in {Pending, Sent, Revoked}
    ensures BeforeSave(inv, now).status == Expired
  {
  }

  /** Saving twice at the same time is saving once. */
  lemma HookIdempotent(inv: InviteDoc, now: Time)
    ensures BeforeSave(BeforeSave(inv, now), now) == BeforeSave(inv, now)
  {
  }

  /** `usedAt` and `usedBy` are set exactly on accepted invites. */
  predicate UsageConsistent(inv: InviteDoc) {
    if inv.status == Accepted then inv.usedAt.Some? && inv.usedBy.Some?
    else inv.usedAt.None? && inv.usedBy.None?
  }

  predicate InviteOk(inv: InviteDoc, nextId: Id) {
    inv.id < nextId && inv.role in InviteRoles && Lower(inv.email) == inv.email && UsageConsistent(inv)
  }

  /** What the schema, the unique index on `code` and the routes keep true of the stored invites. */
  predicate WellFormed(docs: seq<InviteDoc>, nextId: Id) {
    && (forall i :: 0 <= i < |docs| ==> InviteOk(docs[i], nextId))
    && (forall i, j :: 0 <= i < j < |docs| ==> docs[i].id != docs[j].id && docs[i].code != docs[j].code)
  }

  /** Replacing one invite by one with the same id and code keeps the collection well formed. */
  lemma WellFormedReplace(docs: seq<InviteDoc>, nextId: Id, i: nat, inv: InviteDoc)
    requires WellFormed(docs, nextId) && i < |docs|
    requires inv.id == docs[i].id && inv.code == docs[i].code && InviteOk(inv, nextId)
    ensures WellFormed(docs[i := inv], nextId)
  {
    var d := docs[i := inv];
    forall a, b | 0 <= a < b < |d|
      ensures d[a].id != d[b].id && d[a].code != d[b].code
    {
      assert d[a].id == docs[a].id && d[a].code == docs[a].code;
      assert d[b].id == docs[b].id && d[b].code == docs[b].code;
    }
  }

  predicate CodeTaken(docs: seq<InviteDoc>, code: string) {
    exists k :: 0 <= k < |docs| && docs[k].code == code
  }

  /** `findById`: the position of the invite with this `_id`. */
  function IndexOfId(docs: seq<InviteDoc>, id: Id): (r: Option<nat>)
    ensures r.Some? ==> r.value < |docs| && docs[r.value].id == id
    ensures r.None? ==> forall k :: 0 <= k < |docs| ==> docs[k].id != id
  {
    if docs == [] then None
    else if docs[0].id == id then Some(0)
    else match IndexOfId(docs[1..], id)
      case None => None
      case Some(k) => Some(k + 1)
  }

  /** In a well-formed collection `findById` finds the one invite with the id. */
  lemma IndexOfIdUnique(docs: seq<InviteDoc>, nextId: Id, k: nat)
    requires WellFormed(docs, nextId) && k < |docs|
    ensures IndexOfId(docs, docs[k].id) == Some(k)
  {
  }

  /** What `Invite.create` validates: a role of the enum and an email the validator accepts. */
  predicate SchemaAccepts(inv: InviteDoc, isEmail: string -> bool) {
    inv.email != [] && isEmail(inv.email) && inv.role in InviteRoles
  }

  datatype InsertOutcome = Inserted | InviteInvalid | DuplicateCode

  class InviteCollection {
    var docs: seq<InviteDoc>
    var nextId: Id

    ghost predicate Valid()
      reads this
    {
      WellFormed(docs, nextId)
    }

    constructor ()
      ensures Valid() && docs == [] && nextId == 0
    {
      docs := [];
      nextId := 0;
    }

    /**
     * `Invite.create` of a document built with id `nextId`: validation, the
     * save hook, then the unique index on `code`.
     */
    method Insert(inv: InviteDoc, now: Time, isEmail: string -> bool) returns (r: InsertOutcome)
      requires Valid()
      requires inv.id == nextId && Lower(inv.email) == inv.email && UsageConsistent(inv)
      modifies this
      ensures Valid()
      ensures r.InviteInvalid? <==> !SchemaAccepts(inv, isEmail)
      ensures r.DuplicateCode? <==> SchemaAccepts(inv, isEmail) && CodeTaken(old(docs), inv.code)
      ensures r.Inserted? ==> docs == old(docs) + [BeforeSave(inv, now)] && nextId == old(nextId) + 1
      ensures !r.Inserted? ==> docs == old(docs) && nextId == old(nextId)
    {
      if !SchemaAccepts(inv, isEmail) {
        return InviteInvalid;
      }
      var k := 0;
      while k < |docs|
        invariant 0 <= k <= |docs|
        invariant forall j :: 0 <= j < k ==> docs[j].code != inv.code
      {
        if docs[k].code == inv.code {
          return DuplicateCode;
        }
        k := k + 1;
      }
      docs := docs + [BeforeSave(inv, now)];
      nextId := nextId + 1;
      r := Inserted;
    }

    /** `save()` of the loaded invite at position `i` after the route edited it. */
    method Save(i: nat, edited: InviteDoc, now: Time)
      requires Valid() && i < |docs|
      requires edited.id == docs[i].id && edited.code == docs[i].code
      requires edited.email == docs[i].email && edited.role == docs[i].role
      requires UsageConsistent(edited)
      modifies this
      ensures Valid() && nextId == old(nextId)
      ensures docs == old(docs)[i := BeforeSave(edited, now)]
    {
      WellFormedReplace(docs, nextId, i, BeforeSave(edited, now));
      docs := docs[i := BeforeSave(edited, now)];
    }
  }
}
