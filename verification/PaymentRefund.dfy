/** The refund use case (crates/application/src/payments.rs): read, check, let the provider move the
    money, check its answer, compare-and-set. */
module PaymentRefunds {
  import opened Common
  import opened PaymentStatuses
  import opened PaymentStores

  datatype RefundOutcome =
    | Moved(status: Status)
    | NotFound
    | NotRefundable(status: Status)
    | NoProviderReference
    | ProviderFailed
    | ConcurrentChange
    | Backend

  predicate Refundable(s: Status) {
    s in {Captured, PartiallyRefunded}
  }

  /** What one `refund` does when nothing runs beside it; `answer` is the provider's reported
      status, None when the provider fails. */
  function Refund(l: Ledger, id: string, call: nat, find: Fault, answer: Option<Status>, apply: Fault, at: nat)
    : (Ledger, RefundOutcome)
  {
    if find != Fine then (l, Backend)
    else if id !in l.payments then (l, NotFound)
    else
      var row := l.payments[id];
      if !Refundable(row.status) then (l, NotRefundable(row.status))
      else if row.reference == None then (l, NoProviderReference)
      else if answer == None then (l, ProviderFailed)
      else if !row.status.CanTransitionTo(answer.value) then (l, NotRefundable(row.status))
      else if apply == Lost then (l, Backend)
      else (Transition(l, id, row.status, answer.value, ByRefund(call), at),
            if apply == LostAck then Backend else Moved(answer.value))
  }

  class PaymentsService {
    const store: Postgres

    constructor (store: Postgres)
      ensures this.store == store
    {
      this.store := store;
    }

    method IssueRefund(id: string, call: nat, find: Fault, answer: Option<Status>, apply: Fault, at: nat)
      returns (outcome: RefundOutcome)
      modifies store
      ensures (store.Snapshot().ledger, outcome) ==
              Refund(old(store.Snapshot().ledger), id, call, find, answer, apply, at)
      ensures store.receipts == old(store.receipts)
    {
      if find != Fine {
        return Backend;
      }
      var found := store.FindPayment(id);
      if found == None {
        return NotFound;
      }
      var payment := found.value;
      if !Refundable(payment.status) {
        return NotRefundable(payment.status);
      }
      if payment.reference == None {
        return NoProviderReference;
      }
      if answer == None {
        return ProviderFailed;
      }
      if !payment.status.CanTransitionTo(answer.value) {
        return NotRefundable(payment.status);
      }
      var write := store.TransitionPayment(id, payment.status, answer.value, ByRefund(call), at, apply);
      match write {
        case Applied => return Moved(answer.value);
        case Conflict => return ConcurrentChange;
        case WriteFailed => return Backend;
      }
    }
  }

  /** The exact condition of every answer. A refund succeeds when no call fails, the payment is captured or
      partly refunded and has a reference, and the provider answers with a refund status; each refusal
      names what was missing. */
  lemma RefundOutcomeIff(l: Ledger, id: string, call: nat, find: Fault, answer: Option<Status>, apply: Fault, at: nat)
    ensures var outcome := Refund(l, id, call, find, answer, apply, at).1;
            var known := find == Fine && id in l.payments;
            var refundable := known && l.payments[id].status in {Captured, PartiallyRefunded};
            var asked := refundable && l.payments[id].reference.Some?;
            var legal := asked && answer.Some? && answer.value in {PartiallyRefunded, Refunded};
            && (outcome.Moved? <==> legal && apply == Fine)
            && (outcome.Moved? ==> answer == Some(outcome.status))
            && (outcome == NotFound <==> find == Fine && id !in l.payments)
            && (outcome.NotRefundable? <==> known && (!refundable || (asked && answer.Some? && !legal)))
            && (outcome.NotRefundable? ==> outcome.status == l.payments[id].status)
            && (outcome == NoProviderReference <==> refundable && !asked)
            && (outcome == ProviderFailed <==> asked && answer == None)
            && (outcome == Backend <==> find != Fine || (legal && apply != Fine))
  {
  }

  /** What a refund leaves: a move to the provider's answer, recorded once, when its write took effect, and
      nothing else ever. */
  lemma RefundMeaning(l: Ledger, id: string, call: nat, find: Fault, answer: Option<Status>, apply: Fault, at: nat)
    ensures var (l', outcome) := Refund(l, id, call, find, answer, apply, at);
            && outcome != ConcurrentChange
            && (if outcome.Moved? || (outcome == Backend && find == Fine && apply == LostAck)
                then
                  && id in l.payments && answer.Some?
                  && l'.payments == l.payments[id := l.payments[id].(status := answer.value, updatedAt := at)]
                  && l'.index == l.index
                  && l'.history == l.history +
                       [Change(id, Some(l.payments[id].status), answer.value, ByRefund(call), at)]
                  && Trail(l'.history, id) == Trail(l.history, id) +
                       [Change(id, Some(l.payments[id].status), answer.value, ByRefund(call), at)]
                else l' == l)
  {
    if id in l.payments {
      var row := l.payments[id];
      if Refundable(row.status) && answer.Some? && row.status.CanTransitionTo(answer.value) {
        TransitionTrails(l, id, row.status, answer.value, ByRefund(call), at);
      }
    }
  }
}
