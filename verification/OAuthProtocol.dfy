/** Every interleaving of started and completed OAuth flows; one step is one store call, one reading of
    the clock with the exchange it allows, or one redirect sent out. */
module OAuthProtocol {
  import opened Common
  import opened OAuthLogins

  /** Where a callback stands in `complete`. */
  datatype Callback =
    | ToConsume(state: string, code: string)
    | ToExchange(pending: Pending, code: string)
    | ToFindLink(identity: Identity)
    | ToFindAccount(identity: Identity)
    | ToLink(identity: Identity, admin: string)
    | ToLoad(identity: Identity, admin: string)
    | Refused(error: OAuthError)
    | Welcomed(identity: Identity, id: string, role: string)

  /** An exchange: by which callback, to which provider, for which state, at what time, and how many
      flows had been started by then. */
  datatype Exchange = Exchange(
    callback: nat,
    provider: string,
    state: string,
    request: ExchangeRequest,
    now: nat,
    started: nat)

  /** What the browser brought back. */
  datatype Arrival = Arrival(state: string, code: string)

  /** `arrivals` logs what each callback came with, `begun` the flows whose row was stored, `sent` the
      exchanges. */
  datatype State = State(
    tables: Tables,
    callbacks: map<nat, Callback>,
    arrivals: map<nat, Arrival>,
    begun: seq<Pending>,
    sent: seq<Exchange>)

  datatype Step =
    | Start(provider: Option<string>, state: string, nonce: string, verifier: string, now: nat, fault: Fault)
    | Arrive(w: nat, state: string, code: string)
    | Continue(w: nat, fault: Fault, now: nat, answer: Option<Identity>)

  function Init(accounts: map<string, Account>): State {
    State(Tables(map[], map[], accounts), map[], map[], [], [])
  }

  predicate Drawn(s: State, state: string) {
    exists i :: 0 <= i < |s.begun| && s.begun[i].state == state
  }

  /** The callback's next call, without the exchange log. */
  function Advance(svc: Service, t: Tables, c: Callback, fault: Fault, now: nat, answer: Option<Identity>)
    : (Tables, Callback)
  {
    match c
    case ToConsume(state, code) =>
      if fault == Lost then (t, Refused(Internal))
      else
        (t.(pending := t.pending - {state}),
         if fault != Fine then Refused(Internal)
         else if state !in t.pending then Refused(InvalidState)
         else ToExchange(t.pending[state], code))
    case ToExchange(p, code) =>
      (t, if Stale(p, now) then Refused(InvalidState)
          else if p.provider !in svc.providers then Refused(Config)
          else if answer == None then Refused(ExchangeRejected)
          else ToFindLink(answer.value))
    case ToFindLink(i) =>
      (t, if fault != Fine then Refused(Internal)
          else if (i.provider, i.subject) in t.links then ToLoad(i, t.links[(i.provider, i.subject)])
          else if i.address == None then Refused(BadEmail)
          else ToFindAccount(i))
    case ToFindAccount(i) =>
      (t, if fault != Fine then Refused(Internal)
          else if i.address == None || i.address.value !in t.accounts then Refused(NoLinkedAccount)
          else ToLink(i, t.accounts[i.address.value].id))
    case ToLink(i, admin) =>
      (if fault == Lost then t else t.(links := Link(t.links, i, admin)),
       if fault != Fine then Refused(Internal) else ToLoad(i, admin))
    case ToLoad(i, admin) =>
      (t, if i.address == None then Refused(BadEmail)
          else if fault != Fine then Refused(Internal)
          else if i.address.value !in t.accounts then Refused(NoLinkedAccount)
          else Welcomed(i, admin, t.accounts[i.address.value].role))
    case Refused(_) | Welcomed(_, _, _) => (t, c)
  }

  predicate Sends(svc: Service, c: Callback, now: nat) {
    c.ToExchange? && !Stale(c.pending, now) && c.pending.provider in svc.providers
  }

  function ExchangeOf(w: nat, p: Pending, code: string, now: nat, started: nat): Exchange {
    Exchange(w, p.provider, p.state, RequestFor(p, code), now, started)
  }

  /** A provider answers an exchange with an identity of its own. */
  predicate Answerable(c: Callback, answer: Option<Identity>) {
    c.ToExchange? && answer.Some? ==> answer.value.provider == c.pending.provider
  }

  /** One step; one that is not enabled changes nothing. The generator never repeats a state. */
  function Next(svc: Service, s: State, step: Step): State {
    match step
    case Start(provider, state, nonce, verifier, now, fault) =>
      if provider == None || provider.value !in svc.providers || Drawn(s, state) || fault == Lost then s
      else
        var p := Opened(svc, provider.value, state, nonce, verifier, now);
        s.(tables := s.tables.(pending := s.tables.pending[state := Row(svc.adapter, p)]), begun := s.begun + [p])
    case Arrive(w, state, code) =>
      if w in s.callbacks then s else s.(callbacks := s.callbacks[w := ToConsume(state, code)],
                                        arrivals := s.arrivals[w := Arrival(state, code)])
    case Continue(w, fault, now, answer) =>
      if w !in s.callbacks || !Answerable(s.callbacks[w], answer) then s
      else
        var c := s.callbacks[w];
        var (t, c') := Advance(svc, s.tables, c, fault, now, answer);
        s.(tables := t, callbacks := s.callbacks[w := c'],
           sent := if Sends(svc, c, now) then s.sent + [ExchangeOf(w, c.pending, c.code, now, |s.begun|)] else s.sent)
  }

  function Run(svc: Service, s: State, steps: seq<Step>): State
    decreases |steps|
  {
    if steps == [] then s else Run(svc, Next(svc, s, steps[0]), steps[1..])
  }

  // -------- the invariant --------

  /** The row is that of some started flow. */
  predicate Backed(adapter: Adapter, begun: seq<Pending>, p: Pending) {
    exists i :: 0 <= i < |begun| && Row(adapter, begun[i]) == p
  }

  /** The flow an exchange belongs to: same provider, state, nonce, verifier and redirect, started before
      it by the instant the store keeps, and no more than the TTL ago. */
  predicate Matches(adapter: Adapter, e: Exchange, p: Pending) {
    && e.provider == p.provider
    && e.state == p.state
    && e.request.verifier == p.verifier
    && e.request.redirectUri == p.redirectUri
    && e.request.nonce == p.nonce
    && Kept(adapter, p.createdAt) <= e.now <= Kept(adapter, p.createdAt) + 600 * SECOND
  }

  /** It belongs to a flow that was started before it was sent. */
  predicate Justified(adapter: Adapter, begun: seq<Pending>, e: Exchange) {
    && e.started <= |begun|
    && exists i :: 0 <= i < e.started && Matches(adapter, e, begun[i])
  }

  /** States that can never be redeemed again: one held by a callback, or sent already. */
  predicate Gone(s: State, state: string) {
    && state !in s.tables.pending
    && forall i :: 0 <= i < |s.sent| ==> s.sent[i].state != state
  }

  ghost predicate Holding(svc: Service, s: State) {
    && (forall w <- s.callbacks :: s.callbacks[w].ToExchange? ==>
          Backed(svc.adapter, s.begun, s.callbacks[w].pending) && Gone(s, s.callbacks[w].pending.state))
    && (forall v, w | v in s.callbacks && w in s.callbacks && v != w && s.callbacks[v].ToExchange? &&
         s.callbacks[w].ToExchange? ::
          s.callbacks[v].pending.state != s.callbacks[w].pending.state)
  }

  ghost predicate Stored(svc: Service, s: State) {
    && (forall i, j :: 0 <= i < j < |s.begun| ==> s.begun[i].state != s.begun[j].state)
    && (forall state <- s.tables.pending :: s.tables.pending[state].state == state &&
         Backed(svc.adapter, s.begun, s.tables.pending[state]))
  }

  ghost predicate Sent(svc: Service, s: State) {
    && (forall i :: 0 <= i < |s.sent| ==>
         Justified(svc.adapter, s.begun, s.sent[i]) && s.sent[i].state !in s.tables.pending)
    && (forall i, j :: 0 <= i < j < |s.sent| ==>
         s.sent[i].state != s.sent[j].state && s.sent[i].callback != s.sent[j].callback)
  }

  predicate BeforeExchange(c: Callback) {
    c.ToConsume? || c.ToExchange?
  }

  predicate Redeemed(c: Callback) {
    !BeforeExchange(c) && !c.Refused?
  }

  /** A callback past its exchange, unless it failed, has exactly one logged; one before it has none. */
  ghost predicate Logged(s: State) {
    && (forall i :: 0 <= i < |s.sent| ==>
         s.sent[i].callback in s.callbacks && !BeforeExchange(s.callbacks[s.sent[i].callback]))
    && (forall w <- s.callbacks :: Redeemed(s.callbacks[w]) ==>
          exists i :: 0 <= i < |s.sent| && s.sent[i].callback == w)
  }

  ghost predicate Inv(svc: Service, s: State) {
    Stored(svc, s) && Holding(svc, s) && Sent(svc, s) && Logged(s)
  }

  lemma BackedGrows(adapter: Adapter, begun: seq<Pending>, p: Pending, q: Pending)
    requires Backed(adapter, begun, q)
    ensures Backed(adapter, begun + [p], q)
  {
    var i :| 0 <= i < |begun| && Row(adapter, begun[i]) == q;
    assert (begun + [p])[i] == begun[i];
  }

  lemma JustifiedGrows(adapter: Adapter, begun: seq<Pending>, p: Pending, e: Exchange)
    requires Justified(adapter, begun, e)
    ensures Justified(adapter, begun + [p], e)
  {
    var i :| 0 <= i < e.started && Matches(adapter, e, begun[i]);
    assert (begun + [p])[i] == begun[i];
  }

  lemma StartKeeps(svc: Service, s: State, step: Step)
    requires Inv(svc, s) && step.Start?
    ensures Inv(svc, Next(svc, s, step))
  {
    var s' := Next(svc, s, step);
    if |s.begun| < |s'.begun| {
      var p := s'.begun[|s.begun|];
      assert !Drawn(s, p.state);
      forall q | Backed(svc.adapter, s.begun, q) ensures Backed(svc.adapter, s'.begun, q) && q.state != p.state {
        BackedGrows(svc.adapter, s.begun, p, q);
      }
      assert Backed(svc.adapter, s'.begun, Row(svc.adapter, p)) by {
        assert Row(svc.adapter, s'.begun[|s.begun|]) == Row(svc.adapter, p);
      }
      forall i | 0 <= i < |s.sent| ensures Justified(svc.adapter, s'.begun, s.sent[i]) && s.sent[i].state != p.state {
        JustifiedGrows(svc.adapter, s.begun, p, s.sent[i]);
        var j :| 0 <= j < s.sent[i].started && Matches(svc.adapter, s.sent[i], s.begun[j]);
        assert s.begun[j].state == s.sent[i].state;
      }
      assert Stored(svc, s') && Holding(svc, s') && Sent(svc, s');
    }
  }

  /** What a call that sends nothing can do: take the row it consumes, and nothing else. */
  lemma QuietCall(svc: Service, s: State, w: nat, fault: Fault, now: nat, answer: Option<Identity>)
    requires w in s.callbacks && !Sends(svc, s.callbacks[w], now) && Answerable(s.callbacks[w], answer)
    ensures var c, s' := s.callbacks[w], Next(svc, s, Continue(w, fault, now, answer));
            && s'.begun == s.begun && s'.sent == s.sent
            && s'.callbacks.Keys == s.callbacks.Keys
            && (forall v <- s.callbacks :: v != w ==> s'.callbacks[v] == s.callbacks[v])
            && s'.tables.pending == (if c.ToConsume? && fault != Lost then s.tables.pending - {c.state}
                 else s.tables.pending)
            && (s'.callbacks[w].ToExchange? ==>
                  c.ToConsume? && fault != Lost && c.state in s.tables.pending &&
                      s'.callbacks[w].pending == s.tables.pending[c.state] && s'.callbacks[w].code == c.code)
            && s'.arrivals == s.arrivals && !s'.callbacks[w].ToConsume?
            && (Redeemed(s'.callbacks[w]) ==> Redeemed(c))
            && (BeforeExchange(s'.callbacks[w]) ==> BeforeExchange(c))
  {
  }

  lemma QuietKeepsHolding(svc: Service, s: State, w: nat, fault: Fault, now: nat, answer: Option<Identity>)
    requires Inv(svc, s) && w in s.callbacks && !Sends(svc, s.callbacks[w], now) && Answerable(s.callbacks[w], answer)
    ensures Holding(svc, Next(svc, s, Continue(w, fault, now, answer)))
  {
    var s' := Next(svc, s, Continue(w, fault, now, answer));
    QuietCall(svc, s, w, fault, now, answer);
    forall v <- s'.callbacks | s'.callbacks[v].ToExchange?
      ensures Backed(svc.adapter, s'.begun, s'.callbacks[v].pending) && Gone(s', s'.callbacks[v].pending.state)
    {
      if v == w {
        assert s.tables.pending[s.callbacks[w].state].state == s.callbacks[w].state;
        forall i | 0 <= i < |s.sent| ensures s.sent[i].state != s.callbacks[w].state {
          assert s.sent[i].state !in s.tables.pending;
        }
      } else {
        assert Gone(s, s.callbacks[v].pending.state);
      }
    }
    forall v <- s'.callbacks | v != w && s'.callbacks[v].ToExchange? && s'.callbacks[w].ToExchange?
      ensures s'.callbacks[v].pending.state != s'.callbacks[w].pending.state
    {
      assert Gone(s, s.callbacks[v].pending.state);
    }
  }

  lemma ContinueKeeps(svc: Service, s: State, w: nat, fault: Fault, now: nat, answer: Option<Identity>)
    requires Inv(svc, s) && w in s.callbacks && Answerable(s.callbacks[w], answer)
    ensures Inv(svc, Next(svc, s, Continue(w, fault, now, answer)))
  {
    if Sends(svc, s.callbacks[w], now) {
      ExchangeKeeps(svc, s, w, fault, now, answer);
    } else {
      var s' := Next(svc, s, Continue(w, fault, now, answer));
      QuietCall(svc, s, w, fault, now, answer);
      QuietKeepsHolding(svc, s, w, fault, now, answer);
      assert Stored(svc, s') && Sent(svc, s');
      assert Logged(s');
    }
  }

  /** What a call that sends an exchange does: log it, and move its callback on. */
  lemma SendingCall(svc: Service, s: State, w: nat, fault: Fault, now: nat, answer: Option<Identity>)
    requires w in s.callbacks && Sends(svc, s.callbacks[w], now) && Answerable(s.callbacks[w], answer)
    ensures var c, s' := s.callbacks[w], Next(svc, s, Continue(w, fault, now, answer));
            && s'.begun == s.begun && s'.tables == s.tables && s'.arrivals == s.arrivals
            && s'.callbacks.Keys == s.callbacks.Keys
            && (forall v <- s.callbacks :: v != w ==> s'.callbacks[v] == s.callbacks[v])
            && !BeforeExchange(s'.callbacks[w])
            && s'.sent == s.sent + [ExchangeOf(w, c.pending, c.code, now, |s.begun|)]
  {
  }

  lemma SendingKeepsSent(svc: Service, s: State, w: nat, now: nat, s': State, e: Exchange)
    requires Inv(svc, s) && w in s.callbacks && Sends(svc, s.callbacks[w], now)
    requires e == ExchangeOf(w, s.callbacks[w].pending, s.callbacks[w].code, now, |s.begun|)
    requires s'.begun == s.begun && s'.tables == s.tables && s'.sent == s.sent + [e]
    ensures Sent(svc, s')
  {
    var p := s.callbacks[w].pending;
    assert Gone(s, p.state);
    assert Justified(svc.adapter, s.begun, e) by {
      var i :| 0 <= i < |s.begun| && Row(svc.adapter, s.begun[i]) == p;
      assert Matches(svc.adapter, e, s.begun[i]);
    }
    forall i | 0 <= i < |s.sent| ensures s.sent[i].state != e.state && s.sent[i].callback != w {}
    forall i | 0 <= i < |s'.sent|
        ensures Justified(svc.adapter, s'.begun, s'.sent[i]) && s'.sent[i].state !in s'.tables.pending {
      assert s'.sent[i] == if i < |s.sent| then s.sent[i] else e;
    }
    forall i, j | 0 <= i < j < |s'.sent|
        ensures s'.sent[i].state != s'.sent[j].state && s'.sent[i].callback != s'.sent[j].callback {
      assert s'.sent[i] == s.sent[i];
    }
  }

  lemma SendingKeepsHolding(svc: Service, s: State, w: nat, now: nat, s': State, e: Exchange)
    requires Inv(svc, s) && w in s.callbacks && s.callbacks[w].ToExchange? && e.state == s.callbacks[w].pending.state
    requires s'.begun == s.begun && s'.tables == s.tables && s'.sent == s.sent + [e]
    requires s'.callbacks.Keys == s.callbacks.Keys && !BeforeExchange(s'.callbacks[w])
    requires forall v <- s.callbacks :: v != w ==> s'.callbacks[v] == s.callbacks[v]
    ensures Holding(svc, s')
  {
    forall v <- s'.callbacks | s'.callbacks[v].ToExchange? ensures Gone(s', s'.callbacks[v].pending.state) {
      assert Gone(s, s.callbacks[v].pending.state);
    }
  }

  lemma SendingKeepsLogged(s: State, w: nat, s': State, e: Exchange)
    requires Logged(s) && w in s.callbacks && e.callback == w && s'.sent == s.sent + [e]
    requires s'.callbacks.Keys == s.callbacks.Keys && !BeforeExchange(s'.callbacks[w])
    requires forall v <- s.callbacks :: v != w ==> s'.callbacks[v] == s.callbacks[v]
    ensures Logged(s')
  {
    assert s'.sent[|s.sent|].callback == w;
    forall v <- s'.callbacks | v != w && Redeemed(s'.callbacks[v])
      ensures exists j :: 0 <= j < |s'.sent| && s'.sent[j].callback == v
    {
      var j :| 0 <= j < |s.sent| && s.sent[j].callback == v;
      assert s'.sent[j] == s.sent[j];
    }
  }

  lemma ExchangeKeeps(svc: Service, s: State, w: nat, fault: Fault, now: nat, answer: Option<Identity>)
    requires Inv(svc, s) && w in s.callbacks && Sends(svc, s.callbacks[w], now) && Answerable(s.callbacks[w], answer)
    ensures Inv(svc, Next(svc, s, Continue(w, fault, now, answer)))
  {
    var c, s' := s.callbacks[w], Next(svc, s, Continue(w, fault, now, answer));
    var e := ExchangeOf(w, c.pending, c.code, now, |s.begun|);
    SendingCall(svc, s, w, fault, now, answer);
    SendingKeepsSent(svc, s, w, now, s', e);
    SendingKeepsHolding(svc, s, w, now, s', e);
    SendingKeepsLogged(s, w, s', e);
  }

  lemma {:induction false} RunKeeps(svc: Service, s: State, steps: seq<Step>)
    requires Inv(svc, s)
    ensures Inv(svc, Run(svc, s, steps))
    decreases |steps|
  {
    if steps != [] {
      var s' := Next(svc, s, steps[0]);
      match steps[0] {
        case Start(_, _, _, _, _, _) => StartKeeps(svc, s, steps[0]);
        case Arrive(w, state, code) =>
          assert Holding(svc, s') && Logged(s') by {
            assert forall t :: Gone(s, t) ==> Gone(s', t);
          }
        case Continue(w, fault, now, answer) =>
          if w in s.callbacks && Answerable(s.callbacks[w], answer) {
            ContinueKeeps(svc, s, w, fault, now, answer);
          }
      }
      RunKeeps(svc, s', steps[1..]);
    }
  }

  /** A callback keeps the state and the code it came with, and sends them. */
  ghost predicate Arrived(s: State) {
    && s.arrivals.Keys == s.callbacks.Keys
    && (forall w <- s.callbacks :: s.callbacks[w].ToConsume? ==>
          s.arrivals[w] == Arrival(s.callbacks[w].state, s.callbacks[w].code))
    && (forall w <- s.callbacks :: s.callbacks[w].ToExchange? ==>
          s.arrivals[w] == Arrival(s.callbacks[w].pending.state, s.callbacks[w].code))
    && (forall i :: 0 <= i < |s.sent| ==> Carries(s, s.sent[i]))
  }

  predicate Carries(s: State, e: Exchange) {
    && e.callback in s.arrivals
    && e.state == s.arrivals[e.callback].state
    && e.request.code == s.arrivals[e.callback].code
  }

  lemma CallKeepsArrived(svc: Service, s: State, w: nat, fault: Fault, now: nat, answer: Option<Identity>)
    requires Stored(svc, s) && Arrived(s) && w in s.callbacks && Answerable(s.callbacks[w], answer)
    ensures Arrived(Next(svc, s, Continue(w, fault, now, answer)))
  {
    var c, s' := s.callbacks[w], Next(svc, s, Continue(w, fault, now, answer));
    if Sends(svc, c, now) {
      SendingCall(svc, s, w, fault, now, answer);
      assert Carries(s', ExchangeOf(w, c.pending, c.code, now, |s.begun|));
    } else {
      QuietCall(svc, s, w, fault, now, answer);
      assert c.ToConsume? && c.state in s.tables.pending ==> s.tables.pending[c.state].state == c.state;
    }
    forall i | 0 <= i < |s'.sent| ensures Carries(s', s'.sent[i]) {
      assert i < |s.sent| ==> s'.sent[i] == s.sent[i] && Carries(s, s.sent[i]);
    }
  }

  lemma StepKeepsArrived(svc: Service, s: State, step: Step)
    requires Inv(svc, s) && Arrived(s)
    ensures Arrived(Next(svc, s, step))
  {
    match step
    case Start(_, _, _, _, _, _) =>
      forall e | Carries(s, e) ensures Carries(Next(svc, s, step), e) {}
    case Arrive(_, _, _) =>
      forall e | Carries(s, e) ensures Carries(Next(svc, s, step), e) {}
    case Continue(w, fault, now, answer) =>
      if w in s.callbacks && Answerable(s.callbacks[w], answer) {
        CallKeepsArrived(svc, s, w, fault, now, answer);
      }
  }

  lemma {:induction false} RunKeepsArrived(svc: Service, s: State, steps: seq<Step>)
    requires Inv(svc, s) && Arrived(s)
    ensures Arrived(Run(svc, s, steps))
    decreases |steps|
  {
    if steps != [] {
      StepKeepsArrived(svc, s, steps[0]);
      RunKeeps(svc, s, [steps[0]]);
      assert [steps[0]][1..] == [];
      assert Run(svc, s, [steps[0]]) == Run(svc, Next(svc, s, steps[0]), []);
      RunKeepsArrived(svc, Next(svc, s, steps[0]), steps[1..]);
    }
  }

  // -------- what holds of every interleaving --------

  /** Injective correspondence: every exchange sent goes to the provider and carries exactly the
      nonce, verifier and redirect of one started flow, started before it and no more than the TTL
      ago, with the state and the code its callback came with; no flow is redeemed by two exchanges, no
      callback sends two, and flows are told apart by their state. */
  lemma ExchangesMatchFlows(svc: Service, accounts: map<string, Account>, steps: seq<Step>)
    ensures var s := Run(svc, Init(accounts), steps);
            && (forall i :: 0 <= i < |s.sent| ==> Justified(svc.adapter, s.begun, s.sent[i]) && Carries(s, s.sent[i]))
            && (forall i, j :: 0 <= i < j < |s.sent| ==>
                 s.sent[i].state != s.sent[j].state && s.sent[i].callback != s.sent[j].callback)
            && (forall i, j :: 0 <= i < j < |s.begun| ==> s.begun[i].state != s.begun[j].state)
  {
    RunKeepsArrived(svc, Init(accounts), steps);
    RunKeeps(svc, Init(accounts), steps);
  }

  /** Every callback that signs somebody in redeemed a flow of its own. */
  lemma SignInsRedeemFlows(svc: Service, accounts: map<string, Account>, steps: seq<Step>, w: nat)
    requires w in Run(svc, Init(accounts), steps).callbacks
    requires Run(svc, Init(accounts), steps).callbacks[w].Welcomed?
    ensures var s := Run(svc, Init(accounts), steps);
            exists i :: 0 <= i < |s.sent| && s.sent[i].callback == w && Justified(svc.adapter, s.begun, s.sent[i])
                        && forall v <- s.callbacks, j | 0 <= j < |s.sent| && s.sent[j].callback == v && v != w ::
                             s.sent[j].state != s.sent[i].state
  {
    RunKeeps(svc, Init(accounts), steps);
    SignInHasFlow(svc, Run(svc, Init(accounts), steps), w);
  }

  lemma SignInHasFlow(svc: Service, s: State, w: nat)
    requires Inv(svc, s) && w in s.callbacks && s.callbacks[w].Welcomed?
    ensures exists i :: 0 <= i < |s.sent| && s.sent[i].callback == w && Justified(svc.adapter, s.begun, s.sent[i])
                        && forall v <- s.callbacks, j | 0 <= j < |s.sent| && s.sent[j].callback == v && v != w ::
                             s.sent[j].state != s.sent[i].state
  {
    assert Redeemed(s.callbacks[w]);
    var i :| 0 <= i < |s.sent| && s.sent[i].callback == w;
    assert Justified(svc.adapter, s.begun, s.sent[i]);
  }

  /** A link, once made, never moves to another admin, and no run adds or changes an account. */
  lemma {:induction false} LinksNeverMove(svc: Service, s: State, steps: seq<Step>)
    ensures var t, t' := s.tables, Run(svc, s, steps).tables;
            && t'.accounts == t.accounts
            && forall key <- t.links :: key in t'.links && t'.links[key] == t.links[key]
    decreases |steps|
  {
    if steps != [] {
      LinksNeverMove(svc, Next(svc, s, steps[0]), steps[1..]);
    }
  }

  // -------- `complete` is a run of one callback --------

  /** The callback's calls in order, each continuing where the last one stopped. */
  function Alone(svc: Service, t: Tables, state: string, code: string, now: nat, answer: Option<Identity>,
      f: Faults): (Tables, Callback) {
    var (t1, c1) := Advance(svc, t, ToConsume(state, code), f.consume, now, answer);
    var (t2, c2) := Advance(svc, t1, c1, Fine, now, answer);
    ResolveAlone(svc, t2, c2, f)
  }

  /** The calls after the exchange. */
  function ResolveAlone(svc: Service, t: Tables, c: Callback, f: Faults): (Tables, Callback) {
    var (t1, c1) := Advance(svc, t, c, f.findAdmin, 0, None);
    if c1.ToLoad? then Advance(svc, t1, c1, f.load, 0, None)
    else
      var (t2, c2) := Advance(svc, t1, c1, f.findAccount, 0, None);
      var (t3, c3) := Advance(svc, t2, c2, f.link, 0, None);
      Advance(svc, t3, c3, f.load, 0, None)
  }

  predicate Ends(c: Callback, completion: Completion) {
    || (c.Welcomed? && completion == SignedIn(c.id, c.role))
    || (c.Refused? && completion == Failed(c.error))
  }

  lemma ResolveAloneIsResolve(svc: Service, t: Tables, i: Identity, f: Faults)
    ensures var (t', completion) := Resolve(t, i, f);
            var (alone, c) := ResolveAlone(svc, t, ToFindLink(i), f);
            alone == t' && Ends(c, completion)
  {
  }

  lemma RefusedStays(svc: Service, t: Tables, error: OAuthError, f: Faults)
    ensures ResolveAlone(svc, t, Refused(error), f) == (t, Refused(error))
  {
  }

  lemma CallbackAloneIsComplete(svc: Service, t: Tables, state: string, code: string, now: nat,
      answer: Option<Identity>, f: Faults)
    ensures var (t', _, completion) := Complete(svc, t, state, code, now, answer, f);
            var (alone, c) := Alone(svc, t, state, code, now, answer, f);
            alone == t' && Ends(c, completion)
    ensures var sent := Complete(svc, t, state, code, now, answer, f).1;
            sent == if f.consume == Fine && state in t.pending && Sends(svc, ToExchange(t.pending[state], code), now)
                    then Some(ExchangeRequest(code, t.pending[state].verifier, t.pending[state].redirectUri,
                                              t.pending[state].nonce)) else None
  {
    var (t1, c1) := Advance(svc, t, ToConsume(state, code), f.consume, now, answer);
    var (t2, c2) := Advance(svc, t1, c1, Fine, now, answer);
    if c2.ToFindLink? {
      ResolveAloneIsResolve(svc, t2, c2.identity, f);
    } else {
      RefusedStays(svc, t2, c2.error, f);
    }
  }

  /** A start is a `begin` with a fresh state: it leaves the same tables, and a redirect carries the
      state, nonce and address of the flow it logs. */
  lemma BeginIsStart(svc: Service, s: State, provider: Option<string>, state: string, nonce: string, verifier: string,
      challenge: string, now: nat, fault: Fault)
    requires Inv(svc, s) && !Drawn(s, state)
    ensures var s' := Next(svc, s, Start(provider, state, nonce, verifier, now, fault));
            var (t, outcome) := Begin(svc, s.tables, provider, state, nonce, verifier, challenge, now, fault);
            && s'.tables == t
            && (outcome.Redirect? ==>
                  && |s'.begun| == |s.begun| + 1
                  && var p := s'.begun[|s.begun|];
                     && p.provider == provider.value && p.state == outcome.state == state
                     && p.nonce == outcome.nonce == nonce && p.verifier == verifier && p.createdAt == now
                     && p.redirectUri == outcome.redirectUri && outcome.challenge == challenge)
  {
    forall q <- s.tables.pending ensures Drawn(s, q) {
      var i :| 0 <= i < |s.begun| && Row(svc.adapter, s.begun[i]) == s.tables.pending[q];
      assert s.begun[i].state == q;
    }
  }
}
