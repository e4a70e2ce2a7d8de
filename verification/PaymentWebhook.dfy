/** The webhook use case (crates/application/src/payments_webhook.rs): claim the event id, read the
    payment, check the move, compare-and-set. */
module PaymentWebhooks {
  import opened Common
  import opened PaymentStatuses
  import opened PaymentStores

  datatype WebhookEvent = WebhookEvent(eventId: string, reference: Option<string>, newStatus: Option<Status>)

  /** What the signature verifier makes of a raw payload. */
  datatype Verdict = Verified(event: WebhookEvent) | BadSignature | Malformed

  datatype Delivery = Delivery(payload: string, verdict: Verdict, at: nat)

  /** How each storage call of one `handle` ends. */
  datatype Faults = Faults(reject: Fault, claim: Fault, find: Fault, apply: Fault)

  datatype Outcome = Processed | Ignored | Redelivered | Rejection | Error

  function Reason(v: Verdict): string
    requires !v.Verified?
  {
    if v == BadSignature then "invalid_signature" else "malformed"
  }

  /** What `handle` does to the tables and answers. */
  function Handle(db: Db, d: Delivery, f: Faults): (Db, Outcome) {
    match d.verdict
    case BadSignature | Malformed =>
      (if f.reject == Lost then db
       else db.(receipts := db.receipts + [Rejected(d.payload, Reason(d.verdict))]), Rejection)
    case Verified(e) =>
      var claimed :=
        if f.claim == Lost then db else db.(receipts := Claim(db.receipts, e.eventId, d.payload));
      if f.claim != Fine then (claimed, Error)
      else if e.eventId in Claimed(db.receipts) then (db, Redelivered)
      else if e.reference == None || e.newStatus == None then (claimed, Ignored)
      else if f.find != Fine then (claimed, Error)
      else
        var found := FindByReference(db.ledger, e.reference.value);
        if found == None then (claimed, Ignored)
        else
          var (id, seen) := found.value;
          var next := e.newStatus.value;
          if !seen.CanTransitionTo(next) then (claimed, Ignored)
          else if f.apply == Lost then (claimed, Error)
          else
            (claimed.(ledger := Transition(db.ledger, id, seen, next, ByEvent(e.eventId), d.at)),
             if f.apply == LostAck then Error else Processed)
  }

  class WebhookService {
    const store: Postgres

    constructor (store: Postgres)
      ensures this.store == store
    {
      this.store := store;
    }

    method HandleWebhook(d: Delivery, f: Faults) returns (outcome: Outcome)
      modifies store
      ensures (store.Snapshot(), outcome) == Handle(old(store.Snapshot()), d, f)
    {
      if !d.verdict.Verified? {
        store.RecordRejected(d.payload, Reason(d.verdict), f.reject);
        return Rejection;
      }
      var event := d.verdict.event;
      var claim := store.RecordAndClaim(event.eventId, d.payload, f.claim);
      match claim {
        case First =>
        case Duplicate => return Redelivered;
        case ClaimFailed => return Error;
      }
      if event.reference == None || event.newStatus == None {
        return Ignored;
      }
      if f.find != Fine {
        return Error;
      }
      var found := store.FindByProviderReference(event.reference.value);
      if found == None {
        return Ignored;
      }
      var (id, seen) := found.value;
      if !seen.CanTransitionTo(event.newStatus.value) {
        return Ignored;
      }
      var write := store.TransitionPayment(id, seen, event.newStatus.value, ByEvent(event.eventId), d.at, f.apply);
      match write {
        case Applied => return Processed;
        case Conflict => return Ignored;
        case WriteFailed => return Error;
      }
    }
  }

  /** `Processed` is answered exactly when the delivery verified, its event id is new, it names a
      known payment and a legal move, and no call failed; then exactly that move is recorded. */
  lemma ProcessedIff(db: Db, d: Delivery, f: Faults)
    ensures var (db', outcome) := Handle(db, d, f);
            outcome == Processed <==>
              && d.verdict.Verified?
              && f.claim == f.find == f.apply == Fine
              && d.verdict.event.eventId !in Claimed(db.receipts)
              && d.verdict.event.reference.Some? && d.verdict.event.newStatus.Some?
              && FindByReference(db.ledger, d.verdict.event.reference.value).Some?
              && FindByReference(db.ledger,
                   d.verdict.event.reference.value).value.1.CanTransitionTo(d.verdict.event.newStatus.value)
    ensures var (db', outcome) := Handle(db, d, f);
            outcome == Processed ==>
              var (id, seen) := FindByReference(db.ledger, d.verdict.event.reference.value).value;
              var e := d.verdict.event;
              && db'.ledger.payments.Keys == db.ledger.payments.Keys
              && (forall other <- db.ledger.payments :: other != id ==>
                   db'.ledger.payments[other] == db.ledger.payments[other])
              && db'.ledger.payments[id] == db.ledger.payments[id].(status := e.newStatus.value, updatedAt := d.at)
              && db'.ledger.history == db.ledger.history +
                   [Change(id, Some(seen), e.newStatus.value, ByEvent(e.eventId), d.at)]
    ensures var (db', outcome) := Handle(db, d, f);
            outcome in {Ignored, Redelivered, Rejection} ==> db'.ledger == db.ledger
  {
  }

  /** The exact condition of every answer, and what an unfinished delivery leaves. */
  lemma OutcomeIff(db: Db, d: Delivery, f: Faults)
    ensures var (db', outcome) := Handle(db, d, f);
            outcome == Rejection <==> !d.verdict.Verified?
    ensures var (db', outcome) := Handle(db, d, f);
            outcome == Rejection ==>
              var reason := if d.verdict == BadSignature then "invalid_signature" else "malformed";
              db' == if f.reject == Lost then db else db.(receipts := db.receipts + [Rejected(d.payload, reason)])
    ensures d.verdict.Verified? ==>
              var (db', outcome) := Handle(db, d, f);
              var e := d.verdict.event;
              var isNew := f.claim == Fine && e.eventId !in Claimed(db.receipts);
              var named := e.reference.Some? && e.newStatus.Some?;
              var found := if named then FindByReference(db.ledger, e.reference.value) else None;
              var legal := found.Some? && found.value.1.CanTransitionTo(e.newStatus.value);
              && (outcome == Redelivered <==> f.claim == Fine && e.eventId in Claimed(db.receipts))
              && (outcome == Ignored <==> isNew && (!named || (f.find == Fine && !legal)))
              && (outcome == Processed <==> isNew && named && f.find == Fine && legal && f.apply == Fine)
              && (outcome == Error <==>
                    f.claim != Fine || (isNew && named && (f.find != Fine || (legal && f.apply != Fine))))
              && (outcome == Error ==>
                    if isNew && f.find == Fine && f.apply == LostAck
                    then db'.ledger == Transition(db.ledger, found.value.0, found.value.1, e.newStatus.value,
                        ByEvent(e.eventId), d.at)
                    else db'.ledger == db.ledger)
  {
  }

  /** A verified delivery leaves a receipt of its payload exactly when its event id is new and the claim
      takes effect. The trait's documentation says a redelivery's payload is persisted too; the statement
      inserts nothing on a conflict, so a redelivery leaves all tables as they were. */
  lemma ReceiptIff(db: Db, d: Delivery, f: Faults)
    requires d.verdict.Verified?
    ensures var receipts, e := Handle(db, d, f).0.receipts, d.verdict.event;
            && (receipts == db.receipts + [Accepted(e.eventId, d.payload)] <==>
                  e.eventId !in Claimed(db.receipts) && f.claim != Lost)
            && (receipts != db.receipts ==> receipts == db.receipts + [Accepted(e.eventId, d.payload)])
    ensures d.verdict.event.eventId in Claimed(db.receipts) ==>
              Handle(db, d, f).0 == db && Handle(db, d, f).1 in {Redelivered, Error}
  {
    assert |db.receipts + [Accepted(d.verdict.event.eventId, d.payload)]| > |db.receipts|;
  }

  // -------- replay --------

  /** A delivery together with how its storage calls end. */
  type Attempt = (Delivery, Faults)

  /** Deliveries handled one after another. */
  function Replay(db: Db, attempts: seq<Attempt>): Db
    decreases |attempts|
  {
    if attempts == [] then db
    else Replay(Handle(db, attempts[0].0, attempts[0].1).0, attempts[1..])
  }

  /** Whether the delivery's claim statement reaches the table. */
  predicate ReachesClaim(a: Attempt) {
    a.0.verdict.Verified? && a.1.claim != Lost
  }

  function EventId(a: Attempt): string
    requires a.0.verdict.Verified?
  {
    a.0.verdict.event.eventId
  }

  /** Keep, for every event id outside `seen`, only the first delivery that claims it. */
  function FirstClaims(attempts: seq<Attempt>, seen: set<string>): (kept: seq<Attempt>)
  {
    if attempts == [] then []
    else
      var a := attempts[0];
      if ReachesClaim(a) && EventId(a) !in seen
      then [a] + FirstClaims(attempts[1..], seen + {EventId(a)})
      else FirstClaims(attempts[1..], seen)
  }

  lemma ClaimedAfter(receipts: seq<Receipt>, r: Receipt)
    ensures Claimed(receipts + [r]) == Claimed(receipts) + if r.Accepted? then {r.eventId} else {}
  {
    assert forall x :: x in receipts + [r] <==> x in receipts || x == r;
    assert forall id <- Claimed(receipts) :: exists x :: x in receipts && x.Accepted? && x.eventId == id;
    forall id <- Claimed(receipts) ensures id in Claimed(receipts + [r]) {
      var x :| x in receipts && x.Accepted? && x.eventId == id;
      assert x in receipts + [r];
    }
    if r.Accepted? {
      assert r in receipts + [r];
    }
  }

  lemma HandleClaims(db: Db, a: Attempt)
    ensures Claimed(Handle(db, a.0, a.1).0.receipts) ==
            Claimed(db.receipts) + if ReachesClaim(a) then {EventId(a)} else {}
    ensures !ReachesClaim(a) || EventId(a) in Claimed(db.receipts) ==>
              Handle(db, a.0, a.1).0.ledger == db.ledger
  {
    match a.0.verdict
    case BadSignature | Malformed =>
      ClaimedAfter(db.receipts, Rejected(a.0.payload, Reason(a.0.verdict)));
    case Verified(e) =>
      ClaimedAfter(db.receipts, Accepted(e.eventId, a.0.payload));
  }

  /** Replay equivalence: dropping every redelivery, every rejected delivery and every delivery
      whose claim never reached the table leaves the payments and their histories the same. */
  lemma {:induction false} ReplayEquivalence(db: Db, other: Db, attempts: seq<Attempt>)
    requires other.ledger == db.ledger
    requires Claimed(other.receipts) == Claimed(db.receipts)
    ensures Replay(other, FirstClaims(attempts, Claimed(db.receipts))).ledger == Replay(db, attempts).ledger
    decreases |attempts|
  {
    if attempts != [] {
      var a := attempts[0];
      var kept := FirstClaims(attempts, Claimed(db.receipts));
      var db' := Handle(db, a.0, a.1).0;
      HandleClaims(db, a);
      if ReachesClaim(a) && EventId(a) !in Claimed(db.receipts) {
        HandleClaims(other, a);
        assert kept[0] == a && kept[1..] == FirstClaims(attempts[1..], Claimed(db'.receipts));
        ReplayEquivalence(db', Handle(other, a.0, a.1).0, attempts[1..]);
      } else {
        assert Claimed(db'.receipts) == Claimed(db.receipts);
        ReplayEquivalence(db', other, attempts[1..]);
      }
    }
  }

  lemma {:induction false} FirstClaimsSkips(before: seq<Attempt>, a: Attempt, after: seq<Attempt>, seen: set<string>)
    requires !ReachesClaim(a)
    ensures FirstClaims(before + [a] + after, seen) == FirstClaims(before + after, seen)
    decreases |before|
  {
    if before == [] {
      assert [a] + after == before + [a] + after;
      assert ([a] + after)[1..] == after == before + after;
    } else {
      var b := before[0];
      assert (before + [a] + after)[1..] == before[1..] + [a] + after;
      assert (before + after)[1..] == before[1..] + after;
      var seen' := if b.0.verdict.Verified? then seen + {EventId(b)} else seen;
      FirstClaimsSkips(before[1..], a, after, seen);
      FirstClaimsSkips(before[1..], a, after, seen');
    }
  }

  /** A rejected delivery may be inserted anywhere without changing payments or histories. */
  lemma RejectionsChangeNothing(db: Db, before: seq<Attempt>, a: Attempt, after: seq<Attempt>)
    requires !a.0.verdict.Verified?
    ensures Replay(db, before + [a] + after).ledger == Replay(db, before + after).ledger
  {
    ReplayEquivalence(db, db, before + [a] + after);
    ReplayEquivalence(db, db, before + after);
    FirstClaimsSkips(before, a, after, Claimed(db.receipts));
  }

  /** Claiming deliveries with distinct event ids, none of them in `seen`. */
  predicate DistinctClaims(kept: seq<Attempt>, seen: set<string>) {
    && (forall k :: 0 <= k < |kept| ==> ReachesClaim(kept[k]) && EventId(kept[k]) !in seen)
    && (forall k, m :: 0 <= k < m < |kept| ==> EventId(kept[k]) != EventId(kept[m]))
  }

  lemma {:induction false} FirstClaimsDistinct(attempts: seq<Attempt>, seen: set<string>)
    ensures DistinctClaims(FirstClaims(attempts, seen), seen)
    ensures forall b <- FirstClaims(attempts, seen) :: b in attempts
    decreases |attempts|
  {
    if attempts != [] {
      var a, kept := attempts[0], FirstClaims(attempts, seen);
      var isNew := ReachesClaim(a) && EventId(a) !in seen;
      var seen' := if isNew then seen + {EventId(a)} else seen;
      var rest := FirstClaims(attempts[1..], seen');
      FirstClaimsDistinct(attempts[1..], seen');
      if isNew {
        assert kept == [a] + rest;
        assert DistinctClaims(rest, seen');
        assert DistinctClaims(kept, seen);
      }
    }
  }

  /** Every event id that some delivery newly claims is claimed by a kept delivery. */
  lemma {:induction false} FirstClaimsCover(attempts: seq<Attempt>, seen: set<string>, a: Attempt)
    requires a in attempts && ReachesClaim(a) && EventId(a) !in seen
    ensures exists b :: b in FirstClaims(attempts, seen) && b.0.verdict.Verified? && EventId(b) == EventId(a)
    decreases |attempts|
  {
    var head, kept := attempts[0], FirstClaims(attempts, seen);
    if ReachesClaim(head) && EventId(head) !in seen {
      if EventId(head) == EventId(a) {
        assert kept[0] == head;
      } else {
        FirstClaimsCover(attempts[1..], seen + {EventId(head)}, a);
        var b :| b in kept[1..] && b.0.verdict.Verified? && EventId(b) == EventId(a);
        assert b in kept;
      }
    } else {
      FirstClaimsCover(attempts[1..], seen, a);
    }
  }
}
