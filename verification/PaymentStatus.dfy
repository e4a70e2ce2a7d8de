/** The payment state machine and the audit trail it governs (crates/payments/src/payment.rs). */
module PaymentStatuses {
  import opened Common

  datatype Status =
    | Created
    | RequiresAction
    | Authorized
    | Captured
    | PartiallyRefunded
    | Refunded
    | Failed
    | Canceled
  {
    predicate CanTransitionTo(next: Status) {
      match this
      case Created => next in {RequiresAction, Authorized, Failed, Canceled}
      case RequiresAction => next in {Authorized, Failed, Canceled}
      case Authorized => next in {Captured, Failed, Canceled}
      case Captured => next in {PartiallyRefunded, Refunded}
      case PartiallyRefunded => next in {PartiallyRefunded, Refunded}
      case Refunded | Failed | Canceled => false
    }

    predicate Terminal() {
      this in {Refunded, Failed, Canceled}
    }

    /** How far along a payment is; the measure that never falls. */
    function Rank(): nat {
      match this
      case Created => 0
      case RequiresAction => 1
      case Authorized => 2
      case Captured => 3
      case PartiallyRefunded => 4
      case Refunded | Failed | Canceled => 5
    }
  }

  /** Who made a status change: the insert, a provider event, or one call of `refund`.
      The stored `reason` column tells the three kinds apart; the event id and the call's
      number are the model's own bookkeeping. */
  datatype Cause = ByInsert | ByEvent(eventId: string) | ByRefund(call: nat)

  datatype Change = Change(payment: string, from: Option<Status>, to: Status, cause: Cause, at: nat)

  /** The audit trail a reader of the history expects: it starts with the creation, every row
      continues the one before, and every move is legal. */
  predicate LegalTrail(trail: seq<Change>) {
    && |trail| > 0
    && trail[0].from == None
    && trail[0].to == Created
    && forall i :: 0 < i < |trail| ==> Follows(trail, i)
  }

  /** Row `i` legally continues the row before it. */
  predicate Follows(trail: seq<Change>, i: nat)
    requires 0 < i < |trail|
  {
    trail[i].from == Some(trail[i-1].to) && trail[i-1].to.CanTransitionTo(trail[i].to)
  }

  predicate SelfLoop(c: Change) {
    c.from == Some(PartiallyRefunded) && c.to == PartiallyRefunded
  }

  function SelfLoops(trail: seq<Change>): nat {
    if trail == [] then 0
    else SelfLoops(trail[..|trail|-1]) + if SelfLoop(trail[|trail|-1]) then 1 else 0
  }

  // A legal move is exactly one that climbs in rank or repeats a partial refund, except that
  // nothing but Authorized reaches Captured, only Captured is refunded, and no captured payment
  // fails or is canceled.
  lemma RankClimbs(s: Status, next: Status)
    ensures s.CanTransitionTo(next) <==>
            && (s.Rank() < next.Rank() || s == next == PartiallyRefunded)
            && (next == Captured ==> s == Authorized)
            && (next in {PartiallyRefunded, Refunded} ==> s in {Captured, PartiallyRefunded})
            && (next in {Failed, Canceled} ==> s in {Created, RequiresAction, Authorized})
    ensures s.Terminal() <==> forall n: Status :: !s.CanTransitionTo(n)
  {
    if !s.Terminal() {
      var n := if s == Authorized then Captured else if s in {Created, RequiresAction} then Authorized else Refunded;
      assert s.CanTransitionTo(n);
    }
  }

  /** Along a legal trail the rank never falls, and it stays level only from one partial refund
      to the next. */
  lemma {:induction false} TrailRankClimbs(trail: seq<Change>, i: nat, j: nat)
    requires LegalTrail(trail)
    requires i < j < |trail|
    ensures trail[i].to.Rank() <= trail[j].to.Rank()
    ensures trail[i].to.Rank() == trail[j].to.Rank() ==>
              trail[i].to == trail[j].to == PartiallyRefunded
    decreases j
  {
    assert Follows(trail, j);
    if i < j - 1 {
      TrailRankClimbs(trail, i, j - 1);
    }
  }

  /** Every status but PartiallyRefunded is entered at most once per payment, and of two moves
      made from the same status the earlier one is a repeated partial refund: workers racing on
      one stale status cannot both win otherwise. */
  lemma StatusEnteredOnce(trail: seq<Change>, i: nat, j: nat)
    requires LegalTrail(trail)
    requires i < j < |trail|
    ensures trail[i].to == trail[j].to ==> trail[i].to == PartiallyRefunded
    ensures trail[i].from == trail[j].from ==> SelfLoop(trail[i])
  {
    TrailRankClimbs(trail, i, j);
    assert Follows(trail, j);
    if trail[i].from == trail[j].from && i > 0 {
      assert Follows(trail, i);
      assert trail[i-1].to == trail[j-1].to;
      TrailRankClimbs(trail, i - 1, i);
      if i < j - 1 {
        TrailRankClimbs(trail, i, j - 1);
      }
    }
  }

  /** A trail has at most six rows beyond its repeated partial refunds. */
  lemma {:induction false} TrailLength(trail: seq<Change>)
    requires LegalTrail(trail)
    ensures |trail| <= trail[|trail|-1].to.Rank() + 1 + SelfLoops(trail) <= 6 + SelfLoops(trail)
  {
    if |trail| > 1 {
      var front := trail[..|trail|-1];
      assert Follows(trail, |trail| - 1);
      forall i | 0 < i < |front| ensures Follows(front, i) {
        assert Follows(trail, i);
      }
      TrailLength(front);
    }
  }

  /** How many rows repeat a partial refund. */
  lemma {:induction false} SelfLoopsCount(trail: seq<Change>)
    ensures SelfLoops(trail) ==
            |set i | 0 <= i < |trail| && trail[i].from == Some(PartiallyRefunded) && trail[i].to == PartiallyRefunded|
  {
    if trail != [] {
      var front, k := trail[..|trail|-1], |trail| - 1;
      SelfLoopsCount(front);
      var before := set i | 0 <= i < |front| && front[i].from == Some(PartiallyRefunded) &&
          front[i].to == PartiallyRefunded;
      var all := set i | 0 <= i < |trail| && trail[i].from == Some(PartiallyRefunded) &&
          trail[i].to == PartiallyRefunded;
      assert all == before + if SelfLoop(trail[k]) then {k} else {};
    }
  }

  lemma LegalExtension(trail: seq<Change>, c: Change)
    requires LegalTrail(trail)
    ensures LegalTrail(trail + [c]) <==>
              c.from == Some(trail[|trail|-1].to) && trail[|trail|-1].to.CanTransitionTo(c.to)
  {
    var longer := trail + [c];
    forall i | 0 < i < |trail| ensures Follows(longer, i) {
      assert Follows(trail, i);
    }
    assert Follows(longer, |trail|) <==>
        c.from == Some(trail[|trail|-1].to) && trail[|trail|-1].to.CanTransitionTo(c.to);
  }

  /** Nothing follows a terminal status: a legal trail that extends a finished one is that one. */
  lemma TerminalEndsTrail(trail: seq<Change>, longer: seq<Change>)
    requires LegalTrail(trail) && LegalTrail(longer)
    requires trail <= longer
    requires trail[|trail|-1].to.Terminal()
    ensures longer == trail
  {
    if |trail| < |longer| {
      TrailRankClimbs(longer, |trail| - 1, |trail|);
    }
  }

  /** From any point of a trail on, the rank never falls, and a terminal status is the end. */
  lemma TrailProgress(trail: seq<Change>, longer: seq<Change>)
    requires LegalTrail(trail) && LegalTrail(longer)
    requires trail <= longer
    ensures var s, s' := trail[|trail|-1].to, longer[|longer|-1].to;
            && s.Rank() <= s'.Rank()
            && (s.Rank() == s'.Rank() ==> s == s')
            && (s.Terminal() ==> longer == trail)
  {
    if |trail| < |longer| {
      TrailRankClimbs(longer, |trail| - 1, |longer| - 1);
      if trail[|trail|-1].to.Terminal() {
        TerminalEndsTrail(trail, longer);
      }
    }
  }
}
