/** Every interleaving of inserts, webhook deliveries and refunds over the shared tables. One step is
    one storage call (or the provider call) of one worker; between its calls a worker holds only
    what it last read. */
module PaymentProtocol {
  import opened Common
  import opened PaymentStatuses
  import opened PaymentStores
  import opened PaymentWebhooks
  import opened PaymentRefunds

  /** Where a webhook worker stands in `handle`. */
  datatype HookPc = ToClaim | ToFind | ToApply(id: string, seen: Status)

  /** Where a refund worker stands in `refund`. */
  datatype RefundPc = ToRead | ToAsk(seen: Status) | ToWrite(seen: Status, next: Status)

  datatype Worker =
    | Creating(id: string, at: nat)
    | Hook(event: WebhookEvent, payload: string, hookPc: HookPc)
    | Refunder(id: string, refundPc: RefundPc)
    | Done

  /** `known` holds the ids whose `insert` returned Ok; only those can be handed to
      `set_provider_reference`. */
  datatype State = State(db: Db, workers: map<nat, Worker>, known: set<string>)

  const INIT := State(EMPTY_DB, map[], {})

  datatype Step =
    | BeginInsert(w: nat, id: string, amount: nat, at: nat, fault: Fault)
    | FinishInsert(w: nat, fault: Fault)
    | Attach(id: string, reference: string, fault: Fault)
    | StartHook(w: nat, event: WebhookEvent, payload: string)
    | StartRefund(w: nat, id: string)
    | RunHook(w: nat, fault: Fault, at: nat)
    | RunRefund(w: nat, fault: Fault, answer: Option<Status>, at: nat)

  function HookStep(db: Db, hook: Worker, fault: Fault, at: nat): (Db, Worker)
    requires hook.Hook?
  {
    var e := hook.event;
    match hook.hookPc
    case ToClaim =>
      if fault == Lost then (db, Done)
      else
        var claimed := db.(receipts := Claim(db.receipts, e.eventId, hook.payload));
        if fault == LostAck || e.eventId in Claimed(db.receipts) || e.reference == None || e.newStatus == None
        then (claimed, Done)
        else (claimed, hook.(hookPc := ToFind))
    case ToFind =>
      if fault != Fine || e.reference == None || e.newStatus == None then (db, Done)
      else
        var found := FindByReference(db.ledger, e.reference.value);
        if found == None || !found.value.1.CanTransitionTo(e.newStatus.value) then (db, Done)
        else (db, hook.(hookPc := ToApply(found.value.0, found.value.1)))
    case ToApply(id, seen) =>
      if fault == Lost || e.newStatus == None then (db, Done)
      else (db.(ledger := Transition(db.ledger, id, seen, e.newStatus.value, ByEvent(e.eventId), at)), Done)
  }

  function RefundStep(l: Ledger, worker: Worker, call: nat, fault: Fault, answer: Option<Status>, at: nat)
    : (Ledger, Worker)
    requires worker.Refunder?
  {
    match worker.refundPc
    case ToRead =>
      var row := Find(l, worker.id);
      if fault == Fine && row.Some? && Refundable(row.value.status) && row.value.reference.Some?
      then (l, worker.(refundPc := ToAsk(row.value.status)))
      else (l, Done)
    case ToAsk(seen) =>
      if answer.Some? && seen.CanTransitionTo(answer.value)
      then (l, worker.(refundPc := ToWrite(seen, answer.value)))
      else (l, Done)
    case ToWrite(seen, next) =>
      if fault == Lost then (l, Done)
      else (Transition(l, worker.id, seen, next, ByRefund(call), at), Done)
  }

  /** One step; a step that is not enabled changes nothing. */
  function Next(s: State, step: Step): State {
    match step
    case BeginInsert(w, id, amount, at, fault) =>
      if w in s.workers || id in s.db.ledger.payments then s
      else if fault == Lost then s.(workers := s.workers[w := Done])
      else s.(db := s.db.(ledger := InsertRow(s.db.ledger, id, amount, at)),
              workers := s.workers[w := if fault == Fine then Creating(id, at) else Done])
    case FinishInsert(w, fault) =>
      if w !in s.workers || !s.workers[w].Creating? then s
      else if fault == Lost then s.(workers := s.workers[w := Done])
      else
        var id := s.workers[w].id;
        s.(db := s.db.(ledger := InsertCreation(s.db.ledger, id, s.workers[w].at)),
           workers := s.workers[w := Done],
           known := if fault == Fine then s.known + {id} else s.known)
    case Attach(id, reference, fault) =>
      if id !in s.known || ReferenceTaken(s.db.ledger, id, reference) || fault == Lost then s
      else s.(db := s.db.(ledger := SetReference(s.db.ledger, id, reference)))
    case StartHook(w, event, payload) =>
      if w in s.workers then s else s.(workers := s.workers[w := Hook(event, payload, ToClaim)])
    case StartRefund(w, id) =>
      if w in s.workers then s else s.(workers := s.workers[w := Refunder(id, ToRead)])
    case RunHook(w, fault, at) =>
      if w !in s.workers || !s.workers[w].Hook? then s
      else
        var (db, worker) := HookStep(s.db, s.workers[w], fault, at);
        s.(db := db, workers := s.workers[w := worker])
    case RunRefund(w, fault, answer, at) =>
      if w !in s.workers || !s.workers[w].Refunder? then s
      else
        var (l, worker) := RefundStep(s.db.ledger, s.workers[w], w, fault, answer, at);
        s.(db := s.db.(ledger := l), workers := s.workers[w := worker])
  }

  function Run(s: State, steps: seq<Step>): State
    decreases |steps|
  {
    if steps == [] then s else Run(Next(s, steps[0]), steps[1..])
  }

  // -------- the inductive invariant --------

  /** What a worker remembers is still usable, however stale it is. */
  predicate Usable(l: Ledger, known: set<string>, worker: Worker) {
    match worker
    case Creating(id, _) => Unrecorded(l, id) && id !in known
    case Hook(e, _, ToApply(id, seen)) =>
      e.newStatus.Some? && seen.CanTransitionTo(e.newStatus.value) && Recorded(l, id)
    case Refunder(_, ToAsk(seen)) => Refundable(seen)
    case Refunder(_, ToWrite(seen, next)) => Refundable(seen) && seen.CanTransitionTo(next)
    case _ => true
  }

  ghost predicate AllUsable(l: Ledger, known: set<string>, workers: map<nat, Worker>) {
    && (forall w <- workers :: Usable(l, known, workers[w]))
    && (forall v, w | v in workers && w in workers && v != w && workers[v].Creating? && workers[w].Creating? ::
          workers[v].id != workers[w].id)
    && (forall id <- known :: Recorded(l, id))
  }

  ghost predicate LedgerSafe(s: State) {
    LedgerInv(s.db.ledger) && AllUsable(s.db.ledger, s.known, s.workers)
  }

  /** A webhook worker that holds the claim on its event. */
  predicate HoldsClaim(worker: Worker) {
    worker.Hook? && worker.hookPc != ToClaim
  }

  /** The change of this cause is in the history for good: nobody can cause it again. */
  predicate Spent(claimed: set<string>, workers: map<nat, Worker>, cause: Cause) {
    match cause
    case ByInsert => true
    case ByEvent(e) => e in claimed && forall w <- workers :: HoldsClaim(workers[w]) ==> workers[w].event.eventId != e
    case ByRefund(call) => call in workers && workers[call] == Done
  }

  /** Claims are recorded, and held by one worker at a time. */
  ghost predicate ClaimsSafe(claimed: set<string>, workers: map<nat, Worker>) {
    && (forall w <- workers :: HoldsClaim(workers[w]) ==> workers[w].event.eventId in claimed)
    && (forall v, w | v in workers && w in workers && v != w && HoldsClaim(workers[v]) && HoldsClaim(workers[w]) ::
          workers[v].event.eventId != workers[w].event.eventId)
  }

  /** No two changes come from the same event or the same refund call. */
  predicate DistinctCauses(history: seq<Change>) {
    forall i, j :: 0 <= i < j < |history| && history[i].cause == history[j].cause ==> history[i].cause == ByInsert
  }

  ghost predicate CausesSafe(s: State) {
    && ClaimsSafe(Claimed(s.db.receipts), s.workers)
    && (forall c <- s.db.ledger.history :: Spent(Claimed(s.db.receipts), s.workers, c.cause))
    && DistinctCauses(s.db.ledger.history)
  }

  ghost predicate Inv(s: State) {
    LedgerSafe(s) && CausesSafe(s)
  }

  // -------- every step keeps it --------

  /** What a worker's call must do for the others and itself to stay usable. */
  ghost predicate CallKeeps(l: Ledger, l': Ledger, known: set<string>, worker: Worker) {
    && LedgerInv(l')
    && (forall id :: Recorded(l, id) ==> Recorded(l', id))
    && (forall id :: Unrecorded(l, id) ==> Unrecorded(l', id))
    && Usable(l', known, worker) && !worker.Creating?
  }

  /** Workers other than the one that moves stay usable as long as no payment loses its record and
      no unfinished insert gains one. */
  lemma OthersStayUsable(l: Ledger, l': Ledger, known: set<string>, workers: map<nat, Worker>, w: nat, worker: Worker)
    requires AllUsable(l, known, workers)
    requires CallKeeps(l, l', known, worker)
    ensures AllUsable(l', known, workers[w := worker])
  {
    var workers' := workers[w := worker];
    forall v <- workers' ensures Usable(l', known, workers'[v]) {
      assert v != w ==> Usable(l, known, workers[v]);
    }
  }

  lemma HookClaimKeeps(db: Db, known: set<string>, hook: Worker, fault: Fault, at: nat)
    requires LedgerInv(db.ledger) && hook.Hook? && hook.hookPc.ToClaim?
    ensures var (db', worker) := HookStep(db, hook, fault, at);
            CallKeeps(db.ledger, db'.ledger, known, worker)
  {
  }

  lemma HookFindKeeps(db: Db, known: set<string>, hook: Worker, fault: Fault, at: nat)
    requires LedgerInv(db.ledger) && hook.Hook? && hook.hookPc.ToFind?
    ensures var (db', worker) := HookStep(db, hook, fault, at);
            CallKeeps(db.ledger, db'.ledger, known, worker)
  {
    var worker := HookStep(db, hook, fault, at).1;
    if worker != Done {
      ReferencesIdentify(db.ledger, hook.event.reference.value, worker.hookPc.id);
    }
  }

  lemma HookApplyKeeps(db: Db, known: set<string>, hook: Worker, fault: Fault, at: nat)
    requires LedgerInv(db.ledger) && hook.Hook? && hook.hookPc.ToApply? && Usable(db.ledger, known, hook)
    ensures var (db', worker) := HookStep(db, hook, fault, at);
            CallKeeps(db.ledger, db'.ledger, known, worker)
  {
    var e := hook.event;
    TransitionKeeps(db.ledger, hook.hookPc.id, hook.hookPc.seen, e.newStatus.value, ByEvent(e.eventId), at);
  }

  lemma HookKeepsLedger(s: State, w: nat, fault: Fault, at: nat)
    requires LedgerSafe(s) && w in s.workers && s.workers[w].Hook?
    ensures LedgerSafe(Next(s, RunHook(w, fault, at)))
  {
    var hook := s.workers[w];
    assert Usable(s.db.ledger, s.known, hook);
    match hook.hookPc {
      case ToClaim => HookClaimKeeps(s.db, s.known, hook, fault, at);
      case ToFind => HookFindKeeps(s.db, s.known, hook, fault, at);
      case ToApply(_, _) => HookApplyKeeps(s.db, s.known, hook, fault, at);
    }
    var (db, worker) := HookStep(s.db, hook, fault, at);
    OthersStayUsable(s.db.ledger, db.ledger, s.known, s.workers, w, worker);
  }

  lemma RefundCallKeeps(l: Ledger, known: set<string>, worker: Worker, w: nat, fault: Fault, answer: Option<Status>,
      at: nat)
    requires LedgerInv(l) && worker.Refunder? && Usable(l, known, worker)
    ensures var (l', worker') := RefundStep(l, worker, w, fault, answer, at);
            CallKeeps(l, l', known, worker')
  {
    if worker.refundPc.ToWrite? {
      if worker.id in l.payments {
        assert Agrees(l.payments[worker.id], Trail(l.history, worker.id));
      }
      TransitionKeeps(l, worker.id, worker.refundPc.seen, worker.refundPc.next, ByRefund(w), at);
    }
  }

  lemma RefundKeepsLedger(s: State, w: nat, fault: Fault, answer: Option<Status>, at: nat)
    requires LedgerSafe(s) && w in s.workers && s.workers[w].Refunder?
    ensures LedgerSafe(Next(s, RunRefund(w, fault, answer, at)))
  {
    assert Usable(s.db.ledger, s.known, s.workers[w]);
    RefundCallKeeps(s.db.ledger, s.known, s.workers[w], w, fault, answer, at);
    var (l', worker') := RefundStep(s.db.ledger, s.workers[w], w, fault, answer, at);
    OthersStayUsable(s.db.ledger, l', s.known, s.workers, w, worker');
  }

  lemma BeginInsertKeepsLedger(s: State, w: nat, id: string, amount: nat, at: nat, fault: Fault)
    requires LedgerSafe(s)
    ensures LedgerSafe(Next(s, BeginInsert(w, id, amount, at, fault)))
  {
    var s' := Next(s, BeginInsert(w, id, amount, at, fault));
    if w !in s.workers && id !in s.db.ledger.payments && fault != Lost {
      InsertRowKeeps(s.db.ledger, id, amount, at);
      assert Trail(s.db.ledger.history, id) == [];
      OthersStayUsable(s.db.ledger, s'.db.ledger, s.known, s.workers, w, Done);
      forall v <- s.workers ensures s.workers[v].Creating? ==> s.workers[v].id != id {
        assert Usable(s.db.ledger, s.known, s.workers[v]);
      }
      forall v <- s'.workers ensures Usable(s'.db.ledger, s.known, s'.workers[v]) {
        assert v != w ==> s'.workers[v] == s.workers[w := Done][v];
      }
    }
  }

  lemma FinishInsertKeepsLedger(s: State, w: nat, fault: Fault)
    requires LedgerSafe(s)
    ensures LedgerSafe(Next(s, FinishInsert(w, fault)))
  {
    if w in s.workers && s.workers[w].Creating? && fault != Lost {
      var id, at := s.workers[w].id, s.workers[w].at;
      assert Usable(s.db.ledger, s.known, s.workers[w]);
      InsertCreationKeeps(s.db.ledger, id, at);
      var l' := InsertCreation(s.db.ledger, id, at);
      CreationKeepsUsable(s.db.ledger, l', s.known, s.workers, w, fault);
    }
  }

  /** The creation row records the worker's payment; every other worker stays usable. */
  lemma CreationKeepsUsable(l: Ledger, l': Ledger, known: set<string>, workers: map<nat, Worker>, w: nat, fault: Fault)
    requires AllUsable(l, known, workers) && w in workers && workers[w].Creating? && Recorded(l', workers[w].id)
    requires forall other :: Recorded(l, other) ==> Recorded(l', other)
    requires forall other | other != workers[w].id :: Unrecorded(l, other) ==> Unrecorded(l', other)
    ensures AllUsable(l', if fault == Fine then known + {workers[w].id} else known, workers[w := Done])
  {
    var id, workers' := workers[w].id, workers[w := Done];
    var known' := if fault == Fine then known + {id} else known;
    forall v <- workers' ensures Usable(l', known', workers'[v]) {
      if v != w {
        assert Usable(l, known, workers[v]) && (workers[v].Creating? ==> workers[v].id != id);
      }
    }
  }

  lemma AttachKeepsLedger(s: State, id: string, reference: string, fault: Fault)
    requires LedgerSafe(s)
    ensures LedgerSafe(Next(s, Attach(id, reference, fault)))
  {
    var s' := Next(s, Attach(id, reference, fault));
    if id in s.known && !ReferenceTaken(s.db.ledger, id, reference) && fault != Lost {
      SetReferenceKeeps(s.db.ledger, id, reference);
      forall v <- s.workers ensures Usable(s'.db.ledger, s.known, s.workers[v]) {
        assert Usable(s.db.ledger, s.known, s.workers[v]);
      }
    }
  }

  lemma StepKeepsLedger(s: State, step: Step)
    requires LedgerSafe(s)
    ensures LedgerSafe(Next(s, step))
  {
    match step
    case BeginInsert(w, id, amount, at, fault) => BeginInsertKeepsLedger(s, w, id, amount, at, fault);
    case FinishInsert(w, fault) => FinishInsertKeepsLedger(s, w, fault);
    case Attach(id, reference, fault) => AttachKeepsLedger(s, id, reference, fault);
    case StartHook(w, event, payload) =>
      OthersStayUsable(s.db.ledger, s.db.ledger, s.known, s.workers, w, Hook(event, payload, ToClaim));
    case StartRefund(w, id) =>
      OthersStayUsable(s.db.ledger, s.db.ledger, s.known, s.workers, w, Refunder(id, ToRead));
    case RunHook(w, fault, at) =>
      if w in s.workers && s.workers[w].Hook? {
        HookKeepsLedger(s, w, fault, at);
      }
    case RunRefund(w, fault, answer, at) =>
      if w in s.workers && s.workers[w].Refunder? {
        RefundKeepsLedger(s, w, fault, answer, at);
      }
  }

  /** A claim stays spent whatever one worker does next, unless that worker takes up the claim. */
  lemma SpentStays(claimed: set<string>, claimed': set<string>, workers: map<nat, Worker>, w: nat, worker: Worker,
      cause: Cause)
    requires Spent(claimed, workers, cause)
    requires claimed <= claimed'
    requires w in workers ==> workers[w] != Done
    requires HoldsClaim(worker) ==>
             (w in workers && HoldsClaim(workers[w]) && worker.event == workers[w].event) ||
                 worker.event.eventId !in claimed
    ensures Spent(claimed', workers[w := worker], cause)
  {
  }

  lemma ClaimsStay(claimed: set<string>, claimed': set<string>, workers: map<nat, Worker>, w: nat, worker: Worker)
    requires ClaimsSafe(claimed, workers)
    requires claimed <= claimed'
    requires HoldsClaim(worker) ==> (w in workers && HoldsClaim(workers[w]) && worker.event == workers[w].event)
                                    || (worker.event.eventId !in claimed && worker.event.eventId in claimed')
    ensures ClaimsSafe(claimed', workers[w := worker])
  {
  }

  /** One worker moves on, and at most one row of an unspent cause is appended. */
  lemma CausesStay(s: State, s': State, w: nat, worker: Worker)
    requires CausesSafe(s)
    requires Claimed(s.db.receipts) <= Claimed(s'.db.receipts)
    requires s'.workers == s.workers[w := worker]
    requires w in s.workers ==> s.workers[w] != Done
    requires HoldsClaim(worker) ==> (w in s.workers && HoldsClaim(s.workers[w]) && worker.event == s.workers[w].event)
                                    || (worker.event.eventId !in Claimed(s.db.receipts) &&
                                         worker.event.eventId in Claimed(s'.db.receipts))
    requires s.db.ledger.history <= s'.db.ledger.history && |s'.db.ledger.history| <= |s.db.ledger.history| + 1
    requires |s.db.ledger.history| < |s'.db.ledger.history| ==>
               var cause := s'.db.ledger.history[|s.db.ledger.history|].cause;
               cause == ByInsert || (!Spent(Claimed(s.db.receipts), s.workers, cause) &&
                   Spent(Claimed(s'.db.receipts), s'.workers, cause))
    ensures CausesSafe(s')
  {
    var history, history' := s.db.ledger.history, s'.db.ledger.history;
    ClaimsStay(Claimed(s.db.receipts), Claimed(s'.db.receipts), s.workers, w, worker);
    forall c <- history' ensures Spent(Claimed(s'.db.receipts), s'.workers, c.cause) {
      if c in history {
        SpentStays(Claimed(s.db.receipts), Claimed(s'.db.receipts), s.workers, w, worker, c.cause);
      } else {
        assert c == history'[|history|];
      }
    }
    forall i, j | 0 <= i < j < |history'| && history'[i].cause == history'[j].cause
        ensures history'[i].cause == ByInsert {
      assert history'[i] == history[i] && history[i] in history;
      if j < |history| {
        assert history'[j] == history[j];
      }
    }
  }

  lemma HookKeepsCauses(s: State, w: nat, fault: Fault, at: nat)
    requires CausesSafe(s) && w in s.workers && s.workers[w].Hook?
    ensures CausesSafe(Next(s, RunHook(w, fault, at)))
  {
    var hook := s.workers[w];
    var s' := Next(s, RunHook(w, fault, at));
    ClaimedAfter(s.db.receipts, Accepted(hook.event.eventId, hook.payload));
    CausesStay(s, s', w, s'.workers[w]);
  }

  lemma StepKeepsCauses(s: State, step: Step)
    requires CausesSafe(s)
    ensures CausesSafe(Next(s, step))
  {
    var s' := Next(s, step);
    match step
    case BeginInsert(w, id, amount, at, fault) =>
      if w !in s.workers && id !in s.db.ledger.payments {
        CausesStay(s, s', w, s'.workers[w]);
      }
    case FinishInsert(w, fault) =>
      if w in s.workers && s.workers[w].Creating? {
        CausesStay(s, s', w, Done);
      }
    case Attach(id, reference, fault) =>
    case StartHook(w, event, payload) =>
      if w !in s.workers {
        CausesStay(s, s', w, s'.workers[w]);
      }
    case StartRefund(w, id) =>
      if w !in s.workers {
        CausesStay(s, s', w, s'.workers[w]);
      }
    case RunHook(w, fault, at) =>
      if w in s.workers && s.workers[w].Hook? {
        HookKeepsCauses(s, w, fault, at);
      }
    case RunRefund(w, fault, answer, at) =>
      if w in s.workers && s.workers[w].Refunder? {
        CausesStay(s, s', w, s'.workers[w]);
      }
  }

  lemma {:induction false} RunKeepsInv(s: State, steps: seq<Step>)
    requires Inv(s)
    ensures Inv(Run(s, steps))
    decreases |steps|
  {
    if steps != [] {
      StepKeepsLedger(s, steps[0]);
      StepKeepsCauses(s, steps[0]);
      RunKeepsInv(Next(s, steps[0]), steps[1..]);
    }
  }

  lemma {:induction false} RunGrows(s: State, steps: seq<Step>)
    ensures s.db.ledger.history <= Run(s, steps).db.ledger.history
    ensures s.known <= Run(s, steps).known
    ensures s.db.ledger.payments.Keys <= Run(s, steps).db.ledger.payments.Keys
    decreases |steps|
  {
    if steps != [] {
      RunGrows(Next(s, steps[0]), steps[1..]);
    }
  }

  // -------- what holds of every interleaving --------

  /** The audit trail: in every interleaving, with failures anywhere, each payment whose `insert`
      returned Ok has a history that starts with its creation, chains, uses only legal moves and ends
      at the stored status; a payment whose creation is not in the history is still Created and has no
      provider reference. */
  lemma AuditTrail(steps: seq<Step>, id: string)
    ensures var l := Run(INIT, steps).db.ledger;
            id in Run(INIT, steps).known ==>
              && id in l.payments
              && LegalTrail(Trail(l.history, id))
              && Trail(l.history, id)[|Trail(l.history, id)|-1].to == l.payments[id].status
              && |Trail(l.history, id)| <= 6 + SelfLoops(Trail(l.history, id))
    ensures var l := Run(INIT, steps).db.ledger;
            id in l.payments && Trail(l.history, id) == [] ==>
              l.payments[id].status == Created && l.payments[id].reference == None
  {
    RunKeepsInv(INIT, steps);
    var l := Run(INIT, steps).db.ledger;
    if id in l.payments {
      assert Agrees(l.payments[id], Trail(l.history, id));
      if Trail(l.history, id) != [] {
        TrailLength(Trail(l.history, id));
      }
    }
  }

  predicate SameTerms(l: Ledger, l': Ledger, id: string) {
    id in l.payments ==>
      && id in l'.payments
      && l'.payments[id].amount == l.payments[id].amount
      && l'.payments[id].createdAt == l.payments[id].createdAt
  }

  /** From its insert on, nothing ever changes a payment's amount or creation time. */
  lemma {:induction false} TermsStay(s: State, steps: seq<Step>, id: string)
    ensures SameTerms(s.db.ledger, Run(s, steps).db.ledger, id)
    decreases |steps|
  {
    if steps != [] {
      StepKeepsTerms(s, steps[0], id);
      TermsStay(Next(s, steps[0]), steps[1..], id);
    }
  }

  lemma StepKeepsTerms(s: State, step: Step, id: string)
    ensures SameTerms(s.db.ledger, Next(s, step).db.ledger, id)
  {
  }

  /** At most once: however often an event is delivered and however the calls fail, no two history
      rows come from the same event, nor from the same call of `refund`. */
  lemma EventsApplyOnce(steps: seq<Step>)
    ensures DistinctCauses(Run(INIT, steps).db.ledger.history)
  {
    RunKeepsInv(INIT, steps);
  }

  /** Two workers holding the same stale status cannot both win, unless the first winner repeated a
      partial refund. */
  lemma StaleReadsLose(steps: seq<Step>, id: string, i: nat, j: nat)
    requires id in Run(INIT, steps).known
    requires i < j < |Trail(Run(INIT, steps).db.ledger.history, id)|
    ensures var trail := Trail(Run(INIT, steps).db.ledger.history, id);
            && (trail[i].from == trail[j].from ==> SelfLoop(trail[i]))
            && (trail[i].to == trail[j].to ==> trail[i].to == PartiallyRefunded)
  {
    AuditTrail(steps, id);
    StatusEnteredOnce(Trail(Run(INIT, steps).db.ledger.history, id), i, j);
  }

  lemma LedgerProgress(l: Ledger, l': Ledger, id: string)
    requires LedgerInv(l) && LedgerInv(l') && Recorded(l, id)
    requires l.history <= l'.history && id in l'.payments
    ensures Trail(l.history, id) <= Trail(l'.history, id)
    ensures var s, s' := l.payments[id].status, l'.payments[id].status;
            && s.Rank() <= s'.Rank()
            && (s.Rank() == s'.Rank() ==> s == s')
            && (s.Terminal() ==> Trail(l.history, id) == Trail(l'.history, id))
  {
    var trail, trail' := Trail(l.history, id), Trail(l'.history, id);
    TrailGrows(l.history, l'.history, id);
    assert Agrees(l.payments[id], trail) && Agrees(l'.payments[id], trail');
    TrailProgress(trail, trail');
  }

  /** However a run goes on, a known payment's rank never falls, its trail only grows, and a
      terminal status is final: neither the status nor the trail changes again. */
  lemma StatusNeverFalls(s: State, more: seq<Step>, id: string)
    requires Inv(s) && id in s.known
    ensures var l, l' := s.db.ledger, Run(s, more).db.ledger;
            && id in l.payments && id in l'.payments
            && Trail(l.history, id) <= Trail(l'.history, id)
            && l.payments[id].status.Rank() <= l'.payments[id].status.Rank()
            && (l.payments[id].status.Rank() == l'.payments[id].status.Rank() ==>
                  l.payments[id].status == l'.payments[id].status)
            && (l.payments[id].status.Terminal() ==> Trail(l.history, id) == Trail(l'.history, id))
  {
    var s' := Run(s, more);
    RunKeepsInv(s, more);
    RunGrows(s, more);
    LedgerProgress(s.db.ledger, s'.db.ledger, id);
  }

  // -------- the sequential services are runs of the protocol --------

  /** A webhook worker left alone does what `handle` does. */
  lemma HookAloneIsHandle(s: State, w: nat, d: Delivery, f: Faults)
    requires d.verdict.Verified? && w !in s.workers
    ensures Run(s, [StartHook(w, d.verdict.event, d.payload), RunHook(w, f.claim, d.at), RunHook(w, f.find, d.at),
            RunHook(w, f.apply, d.at)]).db
            == Handle(s.db, d, f).0
  {
    var s1 := Next(s, StartHook(w, d.verdict.event, d.payload));
    var s2 := Next(s1, RunHook(w, f.claim, d.at));
    var s3 := Next(s2, RunHook(w, f.find, d.at));
    var s4 := Next(s3, RunHook(w, f.apply, d.at));
    RunFour(s, StartHook(w, d.verdict.event, d.payload), RunHook(w, f.claim, d.at), RunHook(w, f.find, d.at),
        RunHook(w, f.apply, d.at));
  }

  /** A refund worker left alone does what `refund` does. */
  lemma RefundAloneIsRefund(s: State, w: nat, id: string, find: Fault, answer: Option<Status>, apply: Fault, at: nat)
    requires w !in s.workers
    ensures Run(s, [StartRefund(w, id), RunRefund(w, find, answer, at), RunRefund(w, Fine, answer, at),
            RunRefund(w, apply, answer, at)]).db.ledger
            == Refund(s.db.ledger, id, w, find, answer, apply, at).0
  {
    var s1 := Next(s, StartRefund(w, id));
    var s2 := Next(s1, RunRefund(w, find, answer, at));
    var s3 := Next(s2, RunRefund(w, Fine, answer, at));
    RunFour(s, StartRefund(w, id), RunRefund(w, find, answer, at), RunRefund(w, Fine, answer, at),
        RunRefund(w, apply, answer, at));
    OneRefundCall(s1, w, find, answer, at);
    OneRefundCall(s2, w, Fine, answer, at);
    OneRefundCall(s3, w, apply, answer, at);
    RefundCallsAreRefund(s.db.ledger, id, w, find, answer, apply, at);
  }

  /** A refund worker's next call, if it has one. */
  function RefundCall(l: Ledger, worker: Worker, call: nat, fault: Fault, answer: Option<Status>, at: nat)
    : (Ledger, Worker)
  {
    if worker.Refunder? then RefundStep(l, worker, call, fault, answer, at) else (l, worker)
  }

  lemma OneRefundCall(s: State, w: nat, fault: Fault, answer: Option<Status>, at: nat)
    requires w in s.workers
    ensures var s' := Next(s, RunRefund(w, fault, answer, at));
            w in s'.workers && (s'.db.ledger, s'.workers[w]) ==
                RefundCall(s.db.ledger, s.workers[w], w, fault, answer, at)
  {
  }

  lemma RefundCallsAreRefund(l: Ledger, id: string, w: nat, find: Fault, answer: Option<Status>, apply: Fault, at: nat)
    ensures var (l1, worker1) := RefundCall(l, Refunder(id, ToRead), w, find, answer, at);
            var (l2, worker2) := RefundCall(l1, worker1, w, Fine, answer, at);
            RefundCall(l2, worker2, w, apply, answer, at).0 == Refund(l, id, w, find, answer, apply, at).0
  {
  }

  /** An insert left alone does what `insert` does, and only an acknowledged one makes the payment
      known to callers. */
  lemma InsertAloneIsInsert(s: State, w: nat, id: string, amount: nat, at: nat, row: Fault, creation: Fault)
    requires w !in s.workers && id !in s.db.ledger.payments
    ensures var s' := Next(Next(s, BeginInsert(w, id, amount, at, row)), FinishInsert(w, creation));
            var (l, answer) := Insert(s.db.ledger, id, amount, at, row, creation);
            s'.db.ledger == l && s'.known == s.known + if answer == Some(id) then {id} else {}
  {
  }

  /** Setting a reference is one step, for payments callers know. */
  lemma AttachIsSetReference(s: State, id: string, reference: string, fault: Fault)
    ensures var s' := Next(s, Attach(id, reference, fault));
            && s'.workers == s.workers && s'.known == s.known && s'.db.receipts == s.db.receipts
            && s'.db.ledger == if id in s.known && fault != Lost && !ReferenceTaken(s.db.ledger, id, reference)
                               then SetReference(s.db.ledger, id, reference) else s.db.ledger
  {
  }

  lemma RunFour(s: State, a: Step, b: Step, c: Step, d: Step)
    ensures Run(s, [a, b, c, d]) == Next(Next(Next(Next(s, a), b), c), d)
  {
    assert [a, b, c, d][1..] == [b, c, d] && [b, c, d][1..] == [c, d] && [c, d][1..] == [d] && [d][1..] == [];
    assert Run(s, [a, b, c, d]) == Run(Next(s, a), [b, c, d]);
    assert Run(Next(s, a), [b, c, d]) == Run(Next(Next(s, a), b), [c, d]);
    assert Run(Next(Next(s, a), b), [c, d]) == Run(Next(Next(Next(s, a), b), c), [d]);
    assert Run(Next(Next(Next(s, a), b), c), [d]) == Run(Next(Next(Next(Next(s, a), b), c), d), []);
  }
}
