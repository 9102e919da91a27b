/**
 * The daily expiry job (jobs/expireInvites.js): one `updateMany` that marks
 * every overdue pending or sent invite as expired, modelled as one run at a
 * given time. The cron schedule itself is not modelled.
 */
module ExpireInvitesJob {
  import opened Base
  import opened InviteModel

  /** The filter of the bulk update. */
  predicate Due(inv: InviteDoc, now: Time) {
    inv.status in {Pending, Sent} && inv.expiresAt < now
  }

  /** `$set: { status: 'expired' }` on a document the filter matched. */
  function Swept(inv: InviteDoc, now: Time): InviteDoc {
    if Due(inv, now) then inv.(status := Expired) else inv
  }

  /** The collection after the bulk update. */
  function Sweep(docs: seq<InviteDoc>, now: Time): (r: seq<InviteDoc>)
    ensures |r| == |docs|
    ensures forall k :: 0 <= k < |docs| ==> r[k] == Swept(docs[k], now)
  {
    seq(|docs|, k requires 0 <= k < |docs| => Swept(docs[k], now))
  }

  /** How many documents the filter matches, counted over a prefix. */
  function CountDue(docs: seq<InviteDoc>, now: Time): nat {
    if docs == [] then 0
    else CountDue(docs[..|docs| - 1], now) + (if Due(docs[|docs| - 1], now) then 1 else 0)
  }

  /** How many positions differ between two collections of equal length. */
  function CountChanged(before: seq<InviteDoc>, after: seq<InviteDoc>): nat
    requires |before| == |after|
  {
    if before == [] then 0
    else CountChanged(before[..|before| - 1], after[..|after| - 1])
         + (if before[|before| - 1] != after[|after| - 1] then 1 else 0)
  }

  /** `result.modifiedCount`: the number of matched documents is the number actually changed. */
  lemma {:induction false} MatchedIsModified(docs: seq<InviteDoc>, now: Time)
    ensures CountChanged(docs, Sweep(docs, now)) == CountDue(docs, now)
  {
    if docs != [] {
      var n := |docs|;
      assert Sweep(docs, now)[..n - 1] == Sweep(docs[..n - 1], now);
      MatchedIsModified(docs[..n - 1], now);
      assert Sweep(docs, now)[n - 1] == Swept(docs[n - 1], now);
    }
  }

  /** Only the matched invites change, and on them only the status, to `expired`. */
  lemma SweepChangesOnlyDue(docs: seq<InviteDoc>, now: Time, k: nat)
    requires k < |docs|
    ensures Sweep(docs, now)[k] == docs[k].(status := Sweep(docs, now)[k].status)
    ensures Due(docs[k], now) ==> Sweep(docs, now)[k].status == Expired
    ensures !Due(docs[k], now) ==> Sweep(docs, now)[k] == docs[k]
    ensures docs[k].status in {Accepted, Revoked, Expired} ==> Sweep(docs, now)[k] == docs[k]
    ensures docs[k].expiresAt >= now ==> Sweep(docs, now)[k] == docs[k]
  {
  }

  /** A second run at the same time changes nothing. */
  lemma SweepIdempotent(docs: seq<InviteDoc>, now: Time)
    ensures Sweep(Sweep(docs, now), now) == Sweep(docs, now)
  {
    var once := Sweep(docs, now);
    assert forall k :: 0 <= k < |docs| ==> Sweep(once, now)[k] == once[k];
  }

  /** After a run nothing is overdue. */
  lemma NothingDueAfterSweep(docs: seq<InviteDoc>, now: Time)
    ensures forall k :: 0 <= k < |docs| ==> !Due(Sweep(docs, now)[k], now)
    ensures CountDue(Sweep(docs, now), now) == 0
  {
    CountDueZero(Sweep(docs, now), now);
  }

  lemma {:induction false} CountDueZero(docs: seq<InviteDoc>, now: Time)
    requires forall k :: 0 <= k < |docs| ==> !Due(docs[k], now)
    ensures CountDue(docs, now) == 0
  {
    if docs != [] {
      CountDueZero(docs[..|docs| - 1], now);
    }
  }

  /** The run keeps the invite collection well formed. */
  lemma SweepWellFormed(docs: seq<InviteDoc>, nextId: Id, now: Time)
    requires WellFormed(docs, nextId)
    ensures WellFormed(Sweep(docs, now), nextId)
  {
    var r := Sweep(docs, now);
    assert forall k :: 0 <= k < |r| ==> r[k].id == docs[k].id && r[k].code == docs[k].code;
  }

  /**
   * The job: one pass over the collection that rewrites the matched
   * documents, returning how many it modified.
   */
  method ExpireInvites(invites: InviteCollection, now: Time) returns (modifiedCount: nat)
    requires invites.Valid()
    modifies invites
    ensures invites.Valid() && invites.nextId == old(invites.nextId)
    ensures invites.docs == Sweep(old(invites.docs), now)
    ensures modifiedCount == CountDue(old(invites.docs), now)
    ensures modifiedCount == CountChanged(old(invites.docs), invites.docs)
  {
    ghost var before := invites.docs;
    var n := |invites.docs|;
    var i := 0;
    modifiedCount := 0;
    while i < n
      invariant 0 <= i <= n == |invites.docs| == |before|
      invariant invites.nextId == old(invites.nextId)
      invariant forall k :: 0 <= k < i ==> invites.docs[k] == Swept(before[k], now)
      invariant forall k :: i <= k < n ==> invites.docs[k] == before[k]
      invariant modifiedCount == CountDue(before[..i], now)
    {
      assert before[..i + 1][..i] == before[..i];
      if Due(invites.docs[i], now) {
        invites.docs := invites.docs[i := invites.docs[i].(status := Expired)];
        modifiedCount := modifiedCount + 1;
      }
      i := i + 1;
    }
    assert before[..n] == before;
    assert invites.docs == Sweep(before, now);
    SweepWellFormed(before, invites.nextId, now);
    MatchedIsModified(before, now);
  }
}
