/** Sequential runs of the session service: when a token authenticates, what the whole-second store
    changes, and what rotation hands on. */
module SessionTraces {
  import opened Common
  import opened Sessions

  /** One use case, and how its store calls end. */
  datatype Event =
    | Login(token: Token, admin: string, role: string, csrf: string, now: nat, f: Faults)
    | Use(token: Token, now: nat, f: Faults)
    | Rotation(token: Token, next: Token, csrf: string, now: nat, restart: nat, f: Faults)
    | Logout(token: Token, now: nat, f: Faults)

  type Trace = seq<Event>

  function EndsAt(e: Event): nat {
    if e.Rotation? then e.restart else e.now
  }

  /** The token an event would issue. */
  function Offers(e: Event): Option<Token> {
    match e
    case Login(token, _, _, _, _, _) => Some(token)
    case Rotation(_, next, _, _, _, _) => Some(next)
    case _ => None
  }

  /** The instant up to which a trace has run. */
  function Clock(trace: Trace): nat {
    if trace == [] then 0 else EndsAt(trace[|trace|-1])
  }

  /** The clock never goes back, and every generated token is new. */
  predicate WellRun(trace: Trace) {
    trace == [] ||
    (var front, e := trace[..|trace|-1], trace[|trace|-1];
     && WellRun(front)
     && Clock(front) <= e.now <= EndsAt(e)
     && (Offers(e).Some? ==> NewTo(front, Offers(e).value) && (e.Rotation? ==> e.token != e.next)))
  }

  predicate NewTo(trace: Trace, token: Token) {
    forall e <- trace :: Offers(e) != Some(token) && e.token != token
  }

  function After(p: Policy, adapter: Adapter, trace: Trace): Rows {
    if trace == [] then map[]
    else
      var rows := After(p, adapter, trace[..|trace|-1]);
      match trace[|trace|-1]
      case Login(token, admin, role, csrf, now, f) => Start(p, adapter, rows, token, admin, role, csrf, now, f).0
      case Use(token, now, f) => Authenticate(p, adapter, rows, token, now, f).0
      case Rotation(token, next, csrf, now, restart, f) => Rotate(p, adapter, rows, token, next, csrf, now, restart,
          f).0
      case Logout(token, _, f) => Logoff(rows, token, f)
  }

  /** Whether `authenticate(k)` at `now`, after the trace, succeeds. */
  predicate Accepts(p: Policy, adapter: Adapter, trace: Trace, k: Token, now: nat) {
    Authenticate(p, adapter, After(p, adapter, trace), k, now, NO_FAULTS).1.Ok?
  }

  // -------- the characterisation --------

  /** The life of a token, read off the trace alone: when it was issued and every later use that
      reached the store, the one that found it expired included; None before it is issued and after
      it is revoked or rotated away. */
  function Life(p: Policy, adapter: Adapter, trace: Trace, k: Token): Option<seq<nat>> {
    if trace == [] then None
    else
      var front := trace[..|trace|-1];
      var life := Life(p, adapter, front, k);
      match trace[|trace|-1]
      case Login(token, _, _, _, now, f) => if token == k && f.insert != Lost then Some([now]) else life
      case Use(token, now, f) => if token == k then Checked(p, adapter, life, now, f) else life
      case Rotation(token, next, _, now, restart, f) =>
        RotatedLife(p, adapter, token, next, now, restart, f, Life(p, adapter, front, token), k, life)
      case Logout(token, _, f) => if token == k && f.delete != Lost then None else life
  }

  /** Whether a token with this life would pass a check at `now`. */
  predicate Passes(p: Policy, adapter: Adapter, life: Option<seq<nat>>, now: nat) {
    life.Some? && Survives(p, adapter, life.value + [now])
  }

  /** What one check makes of a life: a read that fails or a touch that is lost leaves no mark. */
  function Checked(p: Policy, adapter: Adapter, life: Option<seq<nat>>, now: nat, f: Faults): Option<seq<nat>> {
    if life == None || f.find != Fine || (Passes(p, adapter, life, now) && f.touch == Lost) then life
    else Some(life.value + [now])
  }

  /** What a rotation of `token`, whose life so far is `rotated`, makes of the life of `k`. */
  function RotatedLife(p: Policy, adapter: Adapter, token: Token, next: Token, now: nat, restart: nat, f: Faults,
                       rotated: Option<seq<nat>>, k: Token, life: Option<seq<nat>>): Option<seq<nat>> {
    var granted := f.find == f.touch == Fine && Passes(p, adapter, rotated, now);
    if k == next then (if granted && f.delete == Fine && f.insert != Lost then Some([restart]) else life)
    else if k != token then life
    else if granted && f.delete != Lost then None
    else Checked(p, adapter, life, now, f)
  }

  /** The last instant of `times` passes the expiry check the instants before it set up. */
  predicate InTime(p: Policy, adapter: Adapter, times: seq<nat>)
    requires |times| >= 2
  {
    var now := times[|times|-1];
    now < Kept(adapter, times[0] + p.absoluteTimeout) && now - Kept(adapter, times[|times|-2]) < p.idleTimeout
  }

  /** Every attempt was in time. */
  predicate Survives(p: Policy, adapter: Adapter, times: seq<nat>)
    requires times != []
  {
    |times| < 2 || (Survives(p, adapter, times[..|times|-1]) && InTime(p, adapter, times))
  }

  predicate Sorted(times: seq<nat>) {
    |times| < 2 || (Sorted(times[..|times|-1]) && times[|times|-2] <= times[|times|-1])
  }

  lemma {:induction false} SortedHolds(times: seq<nat>, i: nat)
    requires Sorted(times) && i < |times|
    ensures times[i] <= times[|times|-1]
  {
    if i < |times| - 1 {
      SortedHolds(times[..|times|-1], i);
    }
  }

  /** The gap before use `j` is below the idle timeout. */
  predicate ShortGap(p: Policy, adapter: Adapter, times: seq<nat>, j: nat)
    requires 0 < j < |times|
  {
    times[j] - Kept(adapter, times[j-1]) < p.idleTimeout
  }

  /** Surviving means: every gap is below the idle timeout, and the last instant is before the
      absolute deadline. */
  lemma {:induction false} SurvivesIff(p: Policy, adapter: Adapter, times: seq<nat>)
    requires |times| >= 2 && Sorted(times)
    ensures Survives(p, adapter, times) <==>
            && times[|times|-1] < Kept(adapter, times[0] + p.absoluteTimeout)
            && forall j :: 0 < j < |times| ==> ShortGap(p, adapter, times, j)
  {
    var front := times[..|times|-1];
    forall j | 0 < j < |front| ensures ShortGap(p, adapter, front, j) <==> ShortGap(p, adapter, times, j) {}
    assert InTime(p, adapter, times) <==>
           times[|times|-1] < Kept(adapter, times[0] + p.absoluteTimeout) && ShortGap(p, adapter, times, |times| - 1);
    if |front| >= 2 {
      SurvivesIff(p, adapter, front);
    }
  }

  /** The row a token's life leads to: while it survives, a row with its first and last instants; once
      it does not, either no row or an expired one; none without a life. */
  predicate RowFits(p: Policy, adapter: Adapter, rows: Rows, k: Token, life: Option<seq<nat>>, clock: nat) {
    if life == None then k !in rows
    else
      var times := life.value;
      && times != [] && Sorted(times) && times[|times|-1] <= clock
      && (if Survives(p, adapter, times)
          then k in rows && rows[k].absoluteExpiresAt == Kept(adapter, times[0] + p.absoluteTimeout)
               && rows[k].lastSeenAt == Kept(adapter, times[|times|-1])
          else k in rows ==> IsExpired(p, rows[k], clock) && rows[k].lastSeenAt <= clock)
  }

  lemma FitsLater(p: Policy, adapter: Adapter, rows: Rows, k: Token, life: Option<seq<nat>>, clock: nat, later: nat)
    requires RowFits(p, adapter, rows, k, life, clock) && clock <= later
    ensures RowFits(p, adapter, rows, k, life, later)
  {
  }

  /** A check answers whether the life extended by it survives. */
  lemma CheckFits(p: Policy, adapter: Adapter, rows: Rows, k: Token, life: Option<seq<nat>>, now: nat, f: Faults)
    requires RowFits(p, adapter, rows, k, life, now)
    ensures Authenticate(p, adapter, rows, k, now, f).1.Ok? <==>
            f.find == f.touch == Fine && Passes(p, adapter, life, now)
    ensures RowFits(p, adapter, Authenticate(p, adapter, rows, k, now, f).0, k, Checked(p, adapter, life, now, f), now)
  {
    if life.Some? {
      var times := life.value;
      assert (times + [now])[..|times|] == times;
    }
  }

  /** A check of one token leaves the others' rows alone. */
  lemma OthersUnaffected(p: Policy, adapter: Adapter, rows: Rows, token: Token, k: Token, now: nat, f: Faults)
    requires token != k
    ensures var rows' := Authenticate(p, adapter, rows, token, now, f).0;
            (k in rows' <==> k in rows) && (k in rows ==> rows'[k] == rows[k])
  {
  }

  /** A token no event has mentioned has neither life nor row. */
  lemma {:induction false} NewHasNoRow(p: Policy, adapter: Adapter, trace: Trace, k: Token)
    requires NewTo(trace, k)
    ensures Life(p, adapter, trace, k) == None && k !in After(p, adapter, trace)
  {
    if trace != [] {
      var front := trace[..|trace|-1];
      assert trace[|trace|-1] in trace;
      assert forall e <- front :: e in trace;
      NewHasNoRow(p, adapter, front, k);
    }
  }

  lemma {:induction false} RowsFitLives(p: Policy, adapter: Adapter, trace: Trace, k: Token)
    requires WellRun(trace)
    ensures RowFits(p, adapter, After(p, adapter, trace), k, Life(p, adapter, trace, k), Clock(trace))
  {
    if trace != [] {
      var front, e := trace[..|trace|-1], trace[|trace|-1];
      var life, rows := Life(p, adapter, front, k), After(p, adapter, front);
      RowsFitLives(p, adapter, front, k);
      FitsLater(p, adapter, rows, k, life, Clock(front), e.now);
      match e
      case Login(token, _, _, _, _, _) =>
        NewHasNoRow(p, adapter, front, token);
        LoginFits(p, adapter, rows, k, life, e);
      case Use(_, _, _) => UseFits(p, adapter, rows, k, life, e);
      case Rotation(token, next, _, now, _, _) =>
        NewHasNoRow(p, adapter, front, next);
        RowsFitLives(p, adapter, front, token);
        FitsLater(p, adapter, rows, token, Life(p, adapter, front, token), Clock(front), now);
        RotationFits(p, adapter, rows, k, life, Life(p, adapter, front, token), e);
      case Logout(_, _, _) =>
    }
  }

  lemma UseFits(p: Policy, adapter: Adapter, rows: Rows, k: Token, life: Option<seq<nat>>, e: Event)
    requires e.Use? && RowFits(p, adapter, rows, k, life, e.now)
    ensures RowFits(p, adapter, Authenticate(p, adapter, rows, e.token, e.now, e.f).0, k,
                    if e.token == k then Checked(p, adapter, life, e.now, e.f) else life, e.now)
  {
    if e.token == k {
      CheckFits(p, adapter, rows, k, life, e.now, e.f);
    } else {
      OthersUnaffected(p, adapter, rows, e.token, k, e.now, e.f);
    }
  }

  lemma LoginFits(p: Policy, adapter: Adapter, rows: Rows, k: Token, life: Option<seq<nat>>, e: Event)
    requires e.Login? && e.token !in rows && RowFits(p, adapter, rows, k, life, e.now)
    ensures RowFits(p, adapter, Start(p, adapter, rows, e.token, e.admin, e.role, e.csrf, e.now, e.f).0, k,
                    if e.token == k && e.f.insert != Lost then Some([e.now]) else life, e.now)
  {
  }

  /** What a rotation does to the rows, given what its check did. */
  lemma RotateRows(p: Policy, adapter: Adapter, rows: Rows, e: Event)
    requires e.Rotation? && e.token != e.next && e.next !in rows
    ensures var (rows1, answer) := Authenticate(p, adapter, rows, e.token, e.now, e.f);
            var rows' := Rotate(p, adapter, rows, e.token, e.next, e.csrf, e.now, e.restart, e.f).0;
            && (forall k :: k != e.token && k != e.next ==>
                 (k in rows' <==> k in rows1) && (k in rows1 ==> rows'[k] == rows1[k]))
            && (if answer.Ok? && e.f.delete != Lost then e.token !in rows'
                else
                  && (e.token in rows' <==> e.token in rows1)
                  && (e.token in rows1 ==> rows'[e.token] == rows1[e.token]))
            && (if answer.Ok? && e.f.delete == Fine && e.f.insert != Lost
                then e.next in rows' && rows'[e.next].absoluteExpiresAt == Kept(adapter, e.restart + p.absoluteTimeout)
                     && rows'[e.next].lastSeenAt == Kept(adapter, e.restart)
                else e.next !in rows')
  {
  }

  /** Fitting depends on the token's own row alone. */
  lemma SameRowFits(p: Policy, adapter: Adapter, rows: Rows, rows': Rows, k: Token, life: Option<seq<nat>>, clock: nat)
    requires RowFits(p, adapter, rows, k, life, clock)
    requires (k in rows' <==> k in rows) && (k in rows ==> rows'[k] == rows[k])
    ensures RowFits(p, adapter, rows', k, life, clock)
  {
  }

  lemma RotationFits(p: Policy, adapter: Adapter, rows: Rows, k: Token, life: Option<seq<nat>>,
      rotated: Option<seq<nat>>, e: Event)
    requires e.Rotation? && e.token != e.next && e.next !in rows && e.now <= e.restart
    requires RowFits(p, adapter, rows, k, life, e.now) && (k == e.next ==> life == None)
    requires RowFits(p, adapter, rows, e.token, rotated, e.now) && (k == e.token ==> life == rotated)
    ensures RowFits(p, adapter, Rotate(p, adapter, rows, e.token, e.next, e.csrf, e.now, e.restart, e.f).0, k,
                    RotatedLife(p, adapter, e.token, e.next, e.now, e.restart, e.f, rotated, k, life), e.restart)
  {
    var rows1 := Authenticate(p, adapter, rows, e.token, e.now, e.f).0;
    var rows' := Rotate(p, adapter, rows, e.token, e.next, e.csrf, e.now, e.restart, e.f).0;
    CheckFits(p, adapter, rows, e.token, rotated, e.now, e.f);
    RotateRows(p, adapter, rows, e);
    if e.token == k {
      var checked := Checked(p, adapter, life, e.now, e.f);
      FitsLater(p, adapter, rows1, k, checked, e.now, e.restart);
      if k in rows' {
        SameRowFits(p, adapter, rows1, rows', k, checked, e.restart);
      }
    } else if e.next != k {
      OthersUnaffected(p, adapter, rows, e.token, k, e.now, e.f);
      FitsLater(p, adapter, rows, k, life, e.now, e.restart);
      SameRowFits(p, adapter, rows, rows', k, life, e.restart);
    }
  }

  /** When a token authenticates: exactly when it was issued, was never revoked or rotated away, is
      before its absolute deadline, and no gap between uses, the present one included, reaches the
      idle timeout; for the Postgres store with deadline and last use cut to whole seconds. */
  lemma AcceptsIff(p: Policy, adapter: Adapter, trace: Trace, k: Token, now: nat)
    requires WellRun(trace) && Clock(trace) <= now
    ensures Accepts(p, adapter, trace, k, now) <==>
            && Life(p, adapter, trace, k).Some?
            && var times := Life(p, adapter, trace, k).value + [now];
               && now < Kept(adapter, times[0] + p.absoluteTimeout)
               && forall j :: 0 < j < |times| ==> ShortGap(p, adapter, times, j)
  {
    AcceptsSurvives(p, adapter, trace, k, now);
    RowsFitLives(p, adapter, trace, k);
    if Life(p, adapter, trace, k).Some? {
      var times := Life(p, adapter, trace, k).value;
      assert (times + [now])[..|times|] == times;
      SurvivesIff(p, adapter, times + [now]);
    }
  }

  /** The same in terms of `Survives`. */
  lemma AcceptsSurvives(p: Policy, adapter: Adapter, trace: Trace, k: Token, now: nat)
    requires WellRun(trace) && Clock(trace) <= now
    ensures Accepts(p, adapter, trace, k, now) <==> Passes(p, adapter, Life(p, adapter, trace, k), now)
  {
    RowsFitLives(p, adapter, trace, k);
    FitsLater(p, adapter, After(p, adapter, trace), k, Life(p, adapter, trace, k), Clock(trace), now);
    CheckFits(p, adapter, After(p, adapter, trace), k, Life(p, adapter, trace, k), now, NO_FAULTS);
  }

  // -------- cleanup does not matter --------

  function Forget(e: Event): Event {
    e.(f := e.f.(cleanup := Fine))
  }

  /** Two traces that differ only in how the deletions of expired rows ended. */
  predicate SameButCleanup(trace: Trace, other: Trace) {
    |trace| == |other| && forall i :: 0 <= i < |trace| ==> Forget(trace[i]) == Forget(other[i])
  }

  lemma {:induction false} LivesIgnoreCleanup(p: Policy, adapter: Adapter, trace: Trace, other: Trace, k: Token)
    requires SameButCleanup(trace, other)
    ensures Life(p, adapter, trace, k) == Life(p, adapter, other, k)
    decreases |trace|
  {
    if trace != [] {
      var front, front' := trace[..|trace|-1], other[..|other|-1];
      var e := trace[|trace|-1];
      assert Forget(e) == Forget(other[|other|-1]);
      LivesIgnoreCleanup(p, adapter, front, front', k);
      if e.Rotation? {
        LivesIgnoreCleanup(p, adapter, front, front', e.token);
      }
    }
  }

  lemma CleanupNeverMatters(p: Policy, adapter: Adapter, trace: Trace, other: Trace, k: Token, now: nat)
    requires WellRun(trace) && WellRun(other) && SameButCleanup(trace, other)
    requires Clock(trace) <= now
    ensures Accepts(p, adapter, trace, k, now) <==> Accepts(p, adapter, other, k, now)
  {
    assert trace != [] ==> Forget(trace[|trace|-1]) == Forget(other[|other|-1]);
    LivesIgnoreCleanup(p, adapter, trace, other, k);
    AcceptsSurvives(p, adapter, trace, k, now);
    AcceptsSurvives(p, adapter, other, k, now);
  }

  // -------- whole seconds --------

  lemma {:induction false} StricterSurvives(p: Policy, times: seq<nat>)
    requires times != [] && Survives(p, Postgres, times)
    ensures Survives(p, Exact, times)
  {
    if |times| >= 2 {
      StricterSurvives(p, times[..|times|-1]);
    }
  }

  lemma {:induction false} LivesHaveStarts(p: Policy, adapter: Adapter, trace: Trace, k: Token)
    ensures Life(p, adapter, trace, k).Some? ==> Life(p, adapter, trace, k).value != []
  {
    if trace != [] {
      LivesHaveStarts(p, adapter, trace[..|trace|-1], k);
    }
  }

  predicate Alive(p: Policy, adapter: Adapter, life: Option<seq<nat>>) {
    life.Some? && life.value != [] && Survives(p, adapter, life.value)
  }

  lemma PassesAlive(p: Policy, life: Option<seq<nat>>, now: nat)
    requires life.Some? ==> life.value != []
    ensures Passes(p, Postgres, life, now) ==> Alive(p, Postgres, life) && Passes(p, Exact, life, now)
  {
    if Passes(p, Postgres, life, now) {
      assert (life.value + [now])[..|life.value|] == life.value;
      StricterSurvives(p, life.value + [now]);
    }
  }

  lemma CheckedAlive(p: Policy, life: Option<seq<nat>>, now: nat, f: Faults)
    requires life.Some? ==> life.value != []
    ensures var life' := Checked(p, Postgres, life, now, f);
            Alive(p, Postgres, life') ==> Alive(p, Postgres, life) && life' == Checked(p, Exact, life, now, f)
  {
    PassesAlive(p, life, now);
    if life.Some? {
      assert (life.value + [now])[..|life.value|] == life.value;
    }
  }

  /** A token alive in the whole-second store has the same life in the exact one. */
  lemma {:induction false} LifeUnderTruncation(p: Policy, trace: Trace, k: Token)
    requires WellRun(trace)
    ensures var life := Life(p, Postgres, trace, k);
            Alive(p, Postgres, life) ==> Life(p, Exact, trace, k) == life
  {
    if trace != [] {
      var front, e := trace[..|trace|-1], trace[|trace|-1];
      var life := Life(p, Postgres, front, k);
      LifeUnderTruncation(p, front, k);
      LivesHaveStarts(p, Postgres, front, k);
      CheckedAlive(p, life, e.now, e.f);
      if e.Rotation? {
        var rotated := Life(p, Postgres, front, e.token);
        LifeUnderTruncation(p, front, e.token);
        LivesHaveStarts(p, Postgres, front, e.token);
        PassesAlive(p, rotated, e.now);
        NewHasNoRow(p, Postgres, front, e.next);
        RotatedAlive(p, e, rotated, Life(p, Exact, front, e.token), k, life, Life(p, Exact, front, k));
      }
    }
  }

  lemma RotatedAlive(p: Policy, e: Event, rotated: Option<seq<nat>>, rotated': Option<seq<nat>>, k: Token,
      life: Option<seq<nat>>, life': Option<seq<nat>>)
    requires e.Rotation? && (k == e.token ==> life == rotated && life' == rotated') && (k == e.next ==> life == None)
    requires Passes(p, Postgres, rotated, e.now) ==> rotated' == rotated && Passes(p, Exact, rotated, e.now)
    requires Alive(p, Postgres, life) ==> life' == life
    requires var c := Checked(p, Postgres, life, e.now, e.f);
             Alive(p, Postgres, c) ==> Alive(p, Postgres, life) && c == Checked(p, Exact, life, e.now, e.f)
    requires life.Some? ==> life.value != []
    ensures var after := RotatedLife(p, Postgres, e.token, e.next, e.now, e.restart, e.f, rotated, k, life);
            Alive(p, Postgres, after) ==>
                RotatedLife(p, Exact, e.token, e.next, e.now, e.restart, e.f, rotated', k, life') == after
  {
    if life.Some? {
      assert (life.value + [e.now])[..|life.value|] == life.value;
    }
  }

  /** Every authentication the whole-second store accepts, over a whole run, the exact one accepts. */
  lemma TruncationIsStricter(p: Policy, trace: Trace, k: Token, now: nat)
    requires WellRun(trace) && Clock(trace) <= now
    requires Accepts(p, Postgres, trace, k, now)
    ensures Accepts(p, Exact, trace, k, now)
  {
    AcceptsSurvives(p, Postgres, trace, k, now);
    AcceptsSurvives(p, Exact, trace, k, now);
    LivesHaveStarts(p, Postgres, trace, k);
    PassesAlive(p, Life(p, Postgres, trace, k), now);
    LifeUnderTruncation(p, trace, k);
  }

  /** A check of the exact store that leaves at least a second on both timeouts. */
  predicate HasSlack(p: Policy, trace: Trace, k: Token, now: nat) {
    var rows := After(p, Exact, trace);
    k in rows && now + SECOND <= rows[k].absoluteExpiresAt && now + SECOND <= rows[k].lastSeenAt + p.idleTimeout
  }

  /** Every check the exact store accepts along the trace leaves a second of slack. */
  predicate Slack(p: Policy, trace: Trace) {
    trace == [] ||
    (var front, e := trace[..|trace|-1], trace[|trace|-1];
     && Slack(p, front)
     && ((e.Use? || e.Rotation?) && Accepts(p, Exact, front, e.token, e.now) ==> HasSlack(p, front, e.token, e.now)))
  }

  /** Under slack both stores give a token the same life, and one survives when the other does. */
  lemma {:induction false} SlackKeepsLives(p: Policy, trace: Trace, k: Token)
    requires WellRun(trace) && Slack(p, trace)
    ensures Life(p, Postgres, trace, k) == Life(p, Exact, trace, k)
    ensures var life := Life(p, Exact, trace, k);
            life.Some? ==> life.value != [] && (Survives(p, Exact, life.value) ==> Survives(p, Postgres, life.value))
    decreases |trace|, 0
  {
    if trace != [] {
      var front, e := trace[..|trace|-1], trace[|trace|-1];
      SlackKeepsLives(p, front, k);
      if e.Use? || e.Rotation? {
        SlackAccepts(p, front, e.token, e.now);
        AcceptsSurvives(p, Exact, front, e.token, e.now);
        AcceptsSurvives(p, Postgres, front, e.token, e.now);
      }
    }
  }

  /** The converse: after a run whose accepted checks all leave a second of slack, a further check
      with a second of slack is accepted by the whole-second store too. */
  lemma {:induction false} SlackAccepts(p: Policy, trace: Trace, k: Token, now: nat)
    requires WellRun(trace) && Slack(p, trace) && Clock(trace) <= now
    requires Accepts(p, Exact, trace, k, now) ==> HasSlack(p, trace, k, now)
    ensures Accepts(p, Postgres, trace, k, now) <==> Accepts(p, Exact, trace, k, now)
    decreases |trace|, 1
  {
    if Accepts(p, Postgres, trace, k, now) {
      TruncationIsStricter(p, trace, k, now);
    } else if Accepts(p, Exact, trace, k, now) {
      var life := Life(p, Exact, trace, k);
      SlackKeepsLives(p, trace, k);
      RowsFitLives(p, Exact, trace, k);
      AcceptsSurvives(p, Exact, trace, k, now);
      AcceptsSurvives(p, Postgres, trace, k, now);
    }
  }

  // -------- rotation --------

  /** One event leaves a row's CSRF token alone, or issues the row with its own. */
  lemma EventKeepsCsrf(p: Policy, adapter: Adapter, trace: Trace, k: Token)
    requires trace != [] && k in After(p, adapter, trace)
    ensures var rows, rows', e := After(p, adapter, trace[..|trace|-1]), After(p, adapter, trace), trace[|trace|-1];
            (k in rows && rows[k].csrf == rows'[k].csrf) || (Offers(e) == Some(k) && e.csrf == rows'[k].csrf)
  {
    var rows, e := After(p, adapter, trace[..|trace|-1]), trace[|trace|-1];
    if e.Rotation? {
      CheckKeepsCsrf(p, adapter, rows, e.token, e.now, e.f, k);
    }
  }

  lemma CheckKeepsCsrf(p: Policy, adapter: Adapter, rows: Rows, token: Token, now: nat, f: Faults, k: Token)
    ensures var rows' := Authenticate(p, adapter, rows, token, now, f).0;
            k in rows' ==> k in rows && rows'[k].csrf == rows[k].csrf
  {
  }

  /** A live token carries the CSRF token of the event that issued it, through any number of uses. */
  lemma {:induction false} CsrfStays(p: Policy, adapter: Adapter, trace: Trace, k: Token)
    requires k in After(p, adapter, trace)
    ensures exists i :: 0 <= i < |trace| && IssuesWith(trace[i], k, After(p, adapter, trace)[k].csrf)
  {
    var front := trace[..|trace|-1];
    EventKeepsCsrf(p, adapter, trace, k);
    if !IssuesWith(trace[|trace|-1], k, After(p, adapter, trace)[k].csrf) {
      CsrfStays(p, adapter, front, k);
      var i :| 0 <= i < |front| && IssuesWith(front[i], k, After(p, adapter, front)[k].csrf);
      assert trace[i] == front[i];
    }
  }

  predicate IssuesWith(e: Event, k: Token, csrf: string) {
    Offers(e) == Some(k) && e.csrf == csrf
  }

  /** The login a token descends from, as its position in the trace. */
  function Root(trace: Trace, k: Token): Option<nat> {
    if trace == [] then None
    else
      var front, e := trace[..|trace|-1], trace[|trace|-1];
      if e.Login? && e.token == k then Some(|front|)
      else if e.Rotation? && e.next == k then Root(front, e.token)
      else Root(front, k)
  }

  /** Through any number of rotations a login has at most one live token, and it carries that
      login's admin and role. */
  lemma {:induction false} OneLiveDescendant(p: Policy, adapter: Adapter, trace: Trace, k: Token, other: Token)
    requires WellRun(trace)
    requires k in After(p, adapter, trace)
    ensures var root := Root(trace, k);
            && root.Some? && root.value < |trace| && trace[root.value].Login?
            && After(p, adapter, trace)[k].admin == trace[root.value].admin
            && After(p, adapter, trace)[k].role == trace[root.value].role
            && (other in After(p, adapter, trace) && Root(trace, other) == root ==> other == k)
  {
    var front, e := trace[..|trace|-1], trace[|trace|-1];
    var rows, rows' := After(p, adapter, front), After(p, adapter, trace);
    EventRow(p, adapter, trace, k);
    if other in rows' {
      EventRow(p, adapter, trace, other);
    }
    if k in rows {
      OneLiveDescendant(p, adapter, front, k, other);
      if e.Rotation? && e.token in rows {
        OneLiveDescendant(p, adapter, front, k, e.token);
      }
    } else if e.Rotation? {
      OneLiveDescendant(p, adapter, front, e.token, other);
    }
    if other in rows {
      OneLiveDescendant(p, adapter, front, other, k);
    }
  }

  predicate SameIdentity(s: Session, t: Session) {
    s.admin == t.admin && s.role == t.role
  }

  /** Where a row comes from: it was there before, or a login issued it, or a rotation did and took the
      rotated token's identity and row. */
  lemma EventRow(p: Policy, adapter: Adapter, trace: Trace, k: Token)
    requires WellRun(trace) && k in After(p, adapter, trace)
    ensures trace != []
    ensures var e := trace[|trace|-1];
            var rows, rows' := After(p, adapter, trace[..|trace|-1]), After(p, adapter, trace);
            if k in rows then Offers(e) != Some(k) && SameIdentity(rows'[k], rows[k])
            else Offers(e) == Some(k) &&
                 if e.Login? then rows'[k].admin == e.admin && rows'[k].role == e.role
                 else e.token in rows && e.token !in rows' && SameIdentity(rows'[k], rows[e.token])
  {
    var front, e := trace[..|trace|-1], trace[|trace|-1];
    if Offers(e).Some? {
      NewHasNoRow(p, adapter, front, Offers(e).value);
    }
    if e.Rotation? {
      RotateIdentities(p, adapter, After(p, adapter, front), e, k);
    }
  }

  lemma RotateIdentities(p: Policy, adapter: Adapter, rows: Rows, e: Event, k: Token)
    requires e.Rotation? && e.token != e.next && e.next !in rows
    ensures var rows' := Rotate(p, adapter, rows, e.token, e.next, e.csrf, e.now, e.restart, e.f).0;
            k in rows' ==>
              if k == e.next then e.token in rows && e.token !in rows' && SameIdentity(rows'[k], rows[e.token])
              else k in rows && SameIdentity(rows'[k], rows[k])
  {
  }
}
