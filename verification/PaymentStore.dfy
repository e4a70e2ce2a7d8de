/** The Postgres adapters behind payments (crates/infrastructure/src/payments_repo.rs and
    payments_webhook_store.rs): each function is one statement or transaction, applied to the
    value of the tables, and the class runs them in place. */
module PaymentStores {
  import opened Common
  import opened PaymentStatuses

  datatype Payment = Payment(
    reference: Option<string>,
    amount: nat,
    status: Status,
    createdAt: nat,
    updatedAt: nat)

  datatype Receipt = Accepted(eventId: string, payload: string) | Rejected(payload: string, reason: string)

  /** The payments tables. `index` is the unique index on provider references. */
  datatype Ledger = Ledger(
    payments: map<string, Payment>,
    index: map<string, string>,
    history: seq<Change>)

  datatype Db = Db(ledger: Ledger, receipts: seq<Receipt>)

  const EMPTY_DB := Db(Ledger(map[], map[], []), [])

  /** The rows of one payment's history, in insertion order. */
  function Trail(history: seq<Change>, id: string): seq<Change> {
    if history == [] then []
    else
      var front, last := Trail(history[..|history|-1], id), history[|history|-1];
      if last.payment == id then front + [last] else front
  }

  /** The event ids that some delivery has claimed. */
  function Claimed(receipts: seq<Receipt>): set<string> {
    set r | r in receipts && r.Accepted? :: r.eventId
  }

  // -------- the statements --------

  /** First statement of `insert`. */
  function InsertRow(l: Ledger, id: string, amount: nat, at: nat): Ledger
    requires id !in l.payments
  {
    l.(payments := l.payments[id := Payment(None, amount, Created, at, at)])
  }

  /** Second statement of `insert`: the history row of the creation. */
  function InsertCreation(l: Ledger, id: string, at: nat): Ledger {
    l.(history := l.history + [Change(id, None, Created, ByInsert, at)])
  }

  /** `insert` left alone: two statements that no transaction joins. Answers the id only when both
      were acknowledged; `id` is the fresh uuid the first one generates. */
  function Insert(l: Ledger, id: string, amount: nat, at: nat, row: Fault, creation: Fault): (Ledger, Option<string>)
    requires id !in l.payments
  {
    if row == Lost then (l, None)
    else
      var inserted := InsertRow(l, id, amount, at);
      if row == LostAck || creation == Lost then (inserted, None)
      else (InsertCreation(inserted, id, at), if creation == Fine then Some(id) else None)
  }

  /** Whether `set_provider_reference` violates the unique index. */
  predicate ReferenceTaken(l: Ledger, id: string, reference: string) {
    reference in l.index && l.index[reference] != id
  }

  function SetReference(l: Ledger, id: string, reference: string): Ledger {
    if id !in l.payments then l
    else
      var row := l.payments[id];
      var index := if row.reference.Some? then l.index - {row.reference.value} else l.index;
      l.(payments := l.payments[id := row.(reference := Some(reference))],
         index := index[reference := id])
  }

  function Find(l: Ledger, id: string): Option<Payment> {
    if id in l.payments then Some(l.payments[id]) else None
  }

  /** The payment with this provider reference, and its status at the time of the read. */
  function FindByReference(l: Ledger, reference: string): Option<(string, Status)> {
    if reference in l.index && l.index[reference] in l.payments
    then Some((l.index[reference], l.payments[l.index[reference]].status))
    else None
  }

  /** Whether the guarded update of `transition` matches a row. */
  predicate Matches(l: Ledger, id: string, expected: Status) {
    id in l.payments && l.payments[id].status == expected
  }

  /** The transaction of `transition`: guarded update and history row together, or neither.
      Nothing here asks whether the move is legal. */
  function Transition(l: Ledger, id: string, expected: Status, next: Status, cause: Cause, at: nat): Ledger {
    if Matches(l, id, expected)
    then l.(payments := l.payments[id := l.payments[id].(status := next, updatedAt := at)],
            history := l.history + [Change(id, Some(expected), next, cause, at)])
    else l
  }

  /** The insert-if-absent of `record_and_claim`. */
  function Claim(receipts: seq<Receipt>, eventId: string, payload: string): seq<Receipt> {
    if eventId in Claimed(receipts) then receipts else receipts + [Accepted(eventId, payload)]
  }

  // -------- what every statement keeps --------

  /** A payment row agrees with its trail: either the creation row is not there yet (the insert is
      between its two statements, or died there), or the trail is legal and ends at the status. */
  predicate Agrees(row: Payment, trail: seq<Change>) {
    if trail == [] then row.status == Created && row.reference == None
    else LegalTrail(trail) && trail[|trail|-1].to == row.status
  }

  ghost predicate RowsAgree(l: Ledger) {
    forall id :: if id in l.payments then Agrees(l.payments[id], Trail(l.history, id)) else Trail(l.history, id) == []
  }

  ghost predicate IndexAgrees(l: Ledger) {
    && (forall id <- l.payments :: l.payments[id].reference.Some? ==>
          l.payments[id].reference.value in l.index && l.index[l.payments[id].reference.value] == id)
    && (forall r <- l.index :: l.index[r] in l.payments && l.payments[l.index[r]].reference == Some(r))
  }

  ghost predicate LedgerInv(l: Ledger) {
    RowsAgree(l) && IndexAgrees(l)
  }

  /** The payment exists and its creation is in the history. */
  predicate Recorded(l: Ledger, id: string) {
    id in l.payments && Trail(l.history, id) != []
  }

  /** The payment's row exists but its creation is not in the history. */
  predicate Unrecorded(l: Ledger, id: string) {
    id in l.payments && Trail(l.history, id) == []
  }

  lemma TrailAppend(history: seq<Change>, c: Change, id: string)
    ensures Trail(history + [c], id) ==
            if c.payment == id then Trail(history, id) + [c] else Trail(history, id)
  {
    assert (history + [c])[..|history|] == history;
  }

  /** A longer history only extends every trail. */
  lemma {:induction false} TrailGrows(history: seq<Change>, longer: seq<Change>, id: string)
    requires history <= longer
    ensures Trail(history, id) <= Trail(longer, id)
    decreases |longer|
  {
    if |history| < |longer| {
      var front := longer[..|longer|-1];
      TrailGrows(history, front, id);
      assert longer == front + [longer[|front|]];
      TrailAppend(front, longer[|front|], id);
    } else {
      assert history == longer;
    }
  }

  lemma InsertRowKeeps(l: Ledger, id: string, amount: nat, at: nat)
    requires LedgerInv(l) && id !in l.payments
    ensures LedgerInv(InsertRow(l, id, amount, at))
  {
  }

  lemma InsertCreationKeeps(l: Ledger, id: string, at: nat)
    requires LedgerInv(l) && Unrecorded(l, id)
    ensures LedgerInv(InsertCreation(l, id, at))
    ensures Recorded(InsertCreation(l, id, at), id)
    ensures forall other | other != id :: Trail(InsertCreation(l, id, at).history, other) == Trail(l.history, other)
  {
    var l' := InsertCreation(l, id, at);
    var c := Change(id, None, Created, ByInsert, at);
    TrailAppend(l.history, c, id);
    assert Trail(l'.history, id) == [c];
    assert Agrees(l.payments[id], Trail(l.history, id));
    forall other | other != id ensures Trail(l'.history, other) == Trail(l.history, other) {
      TrailAppend(l.history, c, other);
    }
    assert Agrees(l'.payments[id], [c]);
    assert RowsAgree(l');
  }

  /** What `insert` answers, what a reader finds after it, and what each failure leaves behind. */
  lemma InsertMeaning(l: Ledger, id: string, amount: nat, at: nat, row: Fault, creation: Fault)
    requires id !in l.payments
    ensures var (l', answer) := Insert(l, id, amount, at, row, creation);
            && (answer == Some(id) <==> row == creation == Fine)
            && (answer.Some? ==> answer == Some(id))
            && l'.index == l.index
            && (forall other | other != id :: Find(l', other) == Find(l, other))
            && Find(l', id) == (if row == Lost then None else Some(Payment(None, amount, Created, at, at)))
            && l'.history == l.history +
                 if row == Fine && creation != Lost then [Change(id, None, Created, ByInsert, at)] else []
  {
  }

  /** The unique index refuses a reference exactly when another payment carries it. */
  lemma ReferenceTakenIff(l: Ledger, id: string, reference: string)
    requires LedgerInv(l)
    ensures ReferenceTaken(l, id, reference) <==>
            exists other :: other in l.payments && other != id && l.payments[other].reference == Some(reference)
  {
  }

  /** The whole effect of the compare-and-set: one row's status and time and one history row, or nothing. */
  lemma TransitionMeaning(l: Ledger, id: string, expected: Status, next: Status, cause: Cause, at: nat)
    ensures var l' := Transition(l, id, expected, next, cause, at);
            if id in l.payments && l.payments[id].status == expected
            then
              && l'.payments.Keys == l.payments.Keys && l'.index == l.index
              && (forall other <- l.payments :: other != id ==> l'.payments[other] == l.payments[other])
              && l'.payments[id] == l.payments[id].(status := next, updatedAt := at)
              && l'.history == l.history + [Change(id, Some(expected), next, cause, at)]
            else l' == l
  {
  }

  lemma SetReferenceKeeps(l: Ledger, id: string, reference: string)
    requires LedgerInv(l) && !ReferenceTaken(l, id, reference)
    requires Recorded(l, id)
    ensures LedgerInv(SetReference(l, id, reference))
    ensures SetReference(l, id, reference).history == l.history
    ensures FindByReference(SetReference(l, id, reference), reference) == Some((id, l.payments[id].status))
    ensures SetReference(l, id, reference).payments == l.payments[id := l.payments[id].(reference := Some(reference))]
  {
    var l' := SetReference(l, id, reference);
    assert Agrees(l.payments[id], Trail(l.history, id));
    assert Agrees(l'.payments[id], Trail(l.history, id));
    forall other ensures if other in l'.payments then Agrees(l'.payments[other], Trail(l'.history, other))
        else Trail(l'.history, other) == [] {
      assert other != id ==> other in l.payments <==> other in l'.payments;
    }
  }

  /** A lookup by reference finds a payment exactly when it carries that reference: no two do. */
  lemma ReferencesIdentify(l: Ledger, reference: string, id: string)
    requires LedgerInv(l)
    ensures (FindByReference(l, reference).Some? && FindByReference(l, reference).value.0 == id) <==>
            id in l.payments && l.payments[id].reference == Some(reference)
    ensures FindByReference(l, reference).Some? ==>
              var (found, seen) := FindByReference(l, reference).value;
              found in l.payments && seen == l.payments[found].status && Recorded(l, found)
  {
    if FindByReference(l, reference).Some? {
      var found := FindByReference(l, reference).value.0;
      assert Agrees(l.payments[found], Trail(l.history, found));
    }
  }

  /** The compare-and-set keeps the ledger even for a stale `expected`, provided the caller checked
      the move against the status it expects and the creation row exists. */
  lemma TransitionKeeps(l: Ledger, id: string, expected: Status, next: Status, cause: Cause, at: nat)
    requires LedgerInv(l) && expected.CanTransitionTo(next)
    requires Matches(l, id, expected) ==> Recorded(l, id)
    ensures LedgerInv(Transition(l, id, expected, next, cause, at))
    ensures forall other :: Recorded(l, other) <==> Recorded(Transition(l, id, expected, next, cause, at), other)
    ensures forall other :: Unrecorded(l, other) <==> Unrecorded(Transition(l, id, expected, next, cause, at), other)
  {
    if Matches(l, id, expected) {
      TransitionKeepsRows(l, id, expected, next, cause, at);
      TransitionTrails(l, id, expected, next, cause, at);
      assert IndexAgrees(Transition(l, id, expected, next, cause, at));
    }
  }

  lemma TransitionKeepsRows(l: Ledger, id: string, expected: Status, next: Status, cause: Cause, at: nat)
    requires RowsAgree(l) && expected.CanTransitionTo(next)
    requires Matches(l, id, expected) && Recorded(l, id)
    ensures RowsAgree(Transition(l, id, expected, next, cause, at))
  {
    var l', c := Transition(l, id, expected, next, cause, at), Change(id, Some(expected), next, cause, at);
    var trail := Trail(l.history, id);
    TransitionTrails(l, id, expected, next, cause, at);
    assert Agrees(l.payments[id], trail);
    LegalExtension(trail, c);
    assert (trail + [c])[|trail|] == c;
    assert Agrees(l'.payments[id], trail + [c]);
  }

  lemma TransitionTrails(l: Ledger, id: string, expected: Status, next: Status, cause: Cause, at: nat)
    requires Matches(l, id, expected)
    ensures var l' := Transition(l, id, expected, next, cause, at);
            && Trail(l'.history, id) == Trail(l.history, id) + [Change(id, Some(expected), next, cause, at)]
            && forall other | other != id :: Trail(l'.history, other) == Trail(l.history, other)
  {
    var c := Change(id, Some(expected), next, cause, at);
    TrailAppend(l.history, c, id);
    forall other | other != id ensures Trail(l.history + [c], other) == Trail(l.history, other) {
      TrailAppend(l.history, c, other);
    }
  }

  // -------- the adapters, in place --------

  datatype Write = Applied | Conflict | WriteFailed
  datatype ClaimAnswer = First | Duplicate | ClaimFailed

  class Postgres {
    var payments: map<string, Payment>
    var index: map<string, string>
    var history: seq<Change>
    var receipts: seq<Receipt>

    constructor ()
      ensures Snapshot() == EMPTY_DB
    {
      payments, index, history, receipts := map[], map[], [], [];
    }

    function Snapshot(): Db
      reads this
    {
      Db(Ledger(payments, index, history), receipts)
    }

    method InsertPayment(id: string, amount: nat, at: nat, row: Fault, creation: Fault) returns (answer: Option<string>)
      requires id !in payments
      modifies this`payments, this`history
      ensures (Snapshot().ledger, answer) == Insert(old(Snapshot().ledger), id, amount, at, row, creation)
      ensures receipts == old(receipts)
    {
      if row == Lost {
        return None;
      }
      payments := payments[id := Payment(None, amount, Created, at, at)];
      if row == LostAck || creation == Lost {
        return None;
      }
      history := history + [Change(id, None, Created, ByInsert, at)];
      return if creation == Fine then Some(id) else None;
    }

    method SetProviderReference(id: string, reference: string, fault: Fault) returns (ok: bool)
      modifies this`payments, this`index
      ensures ok <==> fault == Fine && !(id in old(payments) && old(ReferenceTaken(Snapshot().ledger, id, reference)))
      ensures Snapshot().ledger ==
              if fault == Lost || (id in old(payments) && old(ReferenceTaken(Snapshot().ledger, id, reference)))
              then old(Snapshot().ledger) else SetReference(old(Snapshot().ledger), id, reference)
      ensures receipts == old(receipts)
    {
      if id !in payments || fault == Lost {
        return fault == Fine;
      }
      if reference in index && index[reference] != id {
        return false;
      }
      var row := payments[id];
      if row.reference.Some? {
        index := index - {row.reference.value};
      }
      index := index[reference := id];
      payments := payments[id := row.(reference := Some(reference))];
      return fault == Fine;
    }

    method FindPayment(id: string) returns (row: Option<Payment>)
      ensures row == Find(Snapshot().ledger, id)
    {
      row := if id in payments then Some(payments[id]) else None;
    }

    method FindByProviderReference(reference: string) returns (row: Option<(string, Status)>)
      ensures row == FindByReference(Snapshot().ledger, reference)
    {
      row := None;
      if reference in index && index[reference] in payments {
        row := Some((index[reference], payments[index[reference]].status));
      }
    }

    /** `transition`: begin, guarded update, history insert, commit. A fault before the commit
        drops the transaction; a lost acknowledgement comes after it. */
    method TransitionPayment(id: string, expected: Status, next: Status, cause: Cause, at: nat, fault: Fault)
      returns (answer: Write)
      modifies this`payments, this`history
      ensures Snapshot() == if fault == Lost then old(Snapshot())
                            else old(Snapshot()).(ledger := Transition(old(Snapshot()).ledger, id, expected, next,
                                cause, at))
      ensures answer == if fault != Fine then WriteFailed
                        else if old(Matches(Snapshot().ledger, id, expected)) then Applied else Conflict
    {
      if fault == Lost {
        return WriteFailed;
      }
      var rowsAffected := 0;
      if id in payments && payments[id].status == expected {
        payments := payments[id := payments[id].(status := next, updatedAt := at)];
        rowsAffected := 1;
      }
      if rowsAffected == 0 {
        return if fault == Fine then Conflict else WriteFailed;
      }
      history := history + [Change(id, Some(expected), next, cause, at)];
      return if fault == Fine then Applied else WriteFailed;
    }

    method RecordAndClaim(eventId: string, payload: string, fault: Fault) returns (answer: ClaimAnswer)
      modifies this`receipts
      ensures Snapshot() == if fault == Lost then old(Snapshot())
                            else old(Snapshot()).(receipts := Claim(old(receipts), eventId, payload))
      ensures answer == if fault != Fine then ClaimFailed
                        else if eventId in Claimed(old(receipts)) then Duplicate else First
    {
      if fault == Lost {
        return ClaimFailed;
      }
      var known := eventId in Claimed(receipts);
      if !known {
        receipts := receipts + [Accepted(eventId, payload)];
      }
      return if fault != Fine then ClaimFailed else if known then Duplicate else First;
    }

    method RecordRejected(payload: string, reason: string, fault: Fault)
      modifies this`receipts
      ensures Snapshot() == if fault == Lost then old(Snapshot())
                            else old(Snapshot()).(receipts := old(receipts) + [Rejected(payload, reason)])
    {
      if fault != Lost {
        receipts := receipts + [Rejected(payload, reason)];
      }
    }
  }
}
