/** The login use case (crates/application/src/auth.rs) over the lockout stores, exact or through the
    Postgres adapters (crates/infrastructure/src/admin_repo.rs). Logins run one at a time. */
module Logins {
  import opened Common
  import opened Lockouts

  const I32_LIMIT: nat := 0x8000_0000

  /** What reading back a stored state gives. Postgres keeps the count as an i32, read as zero when
      negative, and the deadline in whole seconds. */
  function Stored(adapter: Adapter, s: LockoutState): LockoutState {
    match adapter
    case Exact => s
    case Postgres =>
      LockoutState(
        if s.failedAttempts < I32_LIMIT then s.failedAttempts else 0,
        if s.lockedUntil.Some? then Some(WholeSeconds(s.lockedUntil.value)) else None)
  }

  /** A login attempt: the parsed email (None if malformed), the address, whether the password
      verifies against the account's hash, and the clock's reading. */
  datatype Attempt = Attempt(email: Option<string>, ip: string, correct: bool, now: nat)

  /** How each port call of one login ends. */
  datatype Faults = Faults(ipRead: Fault, find: Fault, verify: Fault, accountWrite: Fault, ipWrite: Fault)

  datatype Outcome =
    | Authenticated(email: string)
    | InvalidCredentials
    | TooManyAttempts(retryAfter: Option<nat>)
    | Internal

  datatype State = State(accounts: map<string, LockoutState>, ips: map<string, LockoutState>)

  function IpState(s: State, ip: string): LockoutState {
    if ip in s.ips then s.ips[ip] else CLEAR
  }

  function PutAccount(adapter: Adapter, s: State, email: string, l: LockoutState, fault: Fault): State {
    if fault == Lost || email !in s.accounts then s else s.(accounts := s.accounts[email := Stored(adapter, l)])
  }

  function PutIp(adapter: Adapter, s: State, ip: string, l: LockoutState, fault: Fault): State {
    if fault == Lost then s else s.(ips := s.ips[ip := Stored(adapter, l)])
  }

  function Secs(d: Option<nat>): Option<nat> {
    if d.Some? then Some(d.value / SECOND) else None
  }

  /** What one login does to the counters and answers. */
  function Login(p: Policy, adapter: Adapter, s: State, a: Attempt, f: Faults): (State, Outcome) {
    var ip := IpState(s, a.ip);
    if f.ipRead != Fine then (s, Internal)
    else if IsLocked(ip, a.now) then (s, TooManyAttempts(Secs(RetryAfter(ip, a.now))))
    else if (a.email.Some? && f.find != Fine) || f.verify != Fine then (s, Internal)
    else
      var withIpFailure := (st: State) => PutIp(adapter, st, a.ip, RegisterFailure(p, ip, a.now), f.ipWrite);
      if a.email == None || a.email.value !in s.accounts then
        (withIpFailure(s), if f.ipWrite == Fine then InvalidCredentials else Internal)
      else
        var email := a.email.value;
        var account := s.accounts[email];
        if IsLocked(account, a.now) then
          (withIpFailure(s),
           if f.ipWrite == Fine then TooManyAttempts(Secs(RetryAfter(account, a.now))) else Internal)
        else
          var next := if a.correct then CLEAR else RegisterFailure(p, account, a.now);
          var s1 := PutAccount(adapter, s, email, next, f.accountWrite);
          if f.accountWrite != Fine then (s1, Internal)
          else if a.correct then
            (PutIp(adapter, s1, a.ip, CLEAR, f.ipWrite), if f.ipWrite == Fine then Authenticated(email) else Internal)
          else (withIpFailure(s1), if f.ipWrite == Fine then InvalidCredentials else Internal)
  }

  class LoginService {
    const policy: Policy
    const adapter: Adapter
    var accounts: map<string, LockoutState>
    var ips: map<string, LockoutState>
    /** Argon2 evaluations so far. */
    var verifications: nat

    constructor (policy: Policy, adapter: Adapter, accounts: map<string, LockoutState>)
      ensures this.policy == policy && this.adapter == adapter
      ensures Snapshot() == State(accounts, map[]) && verifications == 0
    {
      this.policy, this.adapter, this.accounts := policy, adapter, accounts;
      ips, verifications := map[], 0;
    }

    function Snapshot(): State
      reads this
    {
      State(accounts, ips)
    }

    method UpdateLockout(email: string, l: LockoutState, fault: Fault) returns (ok: bool)
      modifies this`accounts
      ensures Snapshot() == PutAccount(adapter, old(Snapshot()), email, l, fault)
      ensures ok <==> fault == Fine
    {
      if fault != Lost && email in accounts {
        accounts := accounts[email := Stored(adapter, l)];
      }
      ok := fault == Fine;
    }

    method PutIpLockout(ip: string, l: LockoutState, fault: Fault) returns (ok: bool)
      modifies this`ips
      ensures Snapshot() == PutIp(adapter, old(Snapshot()), ip, l, fault)
      ensures ok <==> fault == Fine
    {
      if fault != Lost {
        ips := ips[ip := Stored(adapter, l)];
      }
      ok := fault == Fine;
    }

    /** Constant work: once the address is let in, exactly one verification runs, whether or not the
        account exists. */
    method LogIn(a: Attempt, f: Faults) returns (outcome: Outcome)
      modifies this
      ensures (Snapshot(), outcome) == Login(policy, adapter, old(Snapshot()), a, f)
      ensures verifications == old(verifications) +
              if f.ipRead != Fine || IsLocked(old(IpState(Snapshot(), a.ip)), a.now) ||
                  (a.email.Some? && f.find != Fine)
              then 0 else 1
    {
      var ipState := IpState(Snapshot(), a.ip);
      if f.ipRead != Fine {
        return Internal;
      }
      if IsLocked(ipState, a.now) {
        return TooManyAttempts(Secs(RetryAfter(ipState, a.now)));
      }
      var account := None;
      if a.email.Some? {
        if f.find != Fine {
          return Internal;
        }
        account := if a.email.value in accounts then Some(accounts[a.email.value]) else None;
      }
      verifications := verifications + 1;
      if f.verify != Fine {
        return Internal;
      }
      var ipFailure, ok := RegisterFailure(policy, ipState, a.now), true;
      if account == None {
        ok := PutIpLockout(a.ip, ipFailure, f.ipWrite);
        return if ok then InvalidCredentials else Internal;
      }
      if IsLocked(account.value, a.now) {
        ok := PutIpLockout(a.ip, ipFailure, f.ipWrite);
        return if ok then TooManyAttempts(Secs(RetryAfter(account.value, a.now))) else Internal;
      }
      if a.correct {
        ok := UpdateLockout(a.email.value, CLEAR, f.accountWrite);
        if ok {
          ok := PutIpLockout(a.ip, CLEAR, f.ipWrite);
        }
        return if ok then Authenticated(a.email.value) else Internal;
      }
      ok := UpdateLockout(a.email.value, RegisterFailure(policy, account.value, a.now), f.accountWrite);
      if ok {
        ok := PutIpLockout(a.ip, ipFailure, f.ipWrite);
      }
      return if ok then InvalidCredentials else Internal;
    }
  }

  /** A wrong password and an unknown account get the same answer and leave the same address
      counters exactly when the account is not locked. */
  lemma UnknownAccountLooksTheSame(p: Policy, adapter: Adapter, s: State, email: string, unknown: Option<string>,
      ip: string, now: nat)
    requires email in s.accounts && (unknown == None || unknown.value !in s.accounts)
    requires !IsLocked(IpState(s, ip), now)
    ensures var ok := Faults(Fine, Fine, Fine, Fine, Fine);
            var (s1, o1) := Login(p, adapter, s, Attempt(Some(email), ip, false, now), ok);
            var (s2, o2) := Login(p, adapter, s, Attempt(unknown, ip, false, now), ok);
            (o1 == o2 <==> !IsLocked(s.accounts[email], now)) && s1.ips == s2.ips
  {
  }

  /** What reading a stored counter back gives, part by part. */
  lemma StoredMeaning(adapter: Adapter, l: LockoutState)
    ensures var r := Stored(adapter, l);
            && (adapter == Exact ==> r == l)
            && (adapter == Postgres ==> r.failedAttempts == if l.failedAttempts < 0x8000_0000 then l.failedAttempts
                 else 0)
            && (r.lockedUntil.Some? <==> l.lockedUntil.Some?)
            && (r.lockedUntil.Some? ==> r.lockedUntil.value == Kept(adapter, l.lockedUntil.value))
  {
  }

  /** Who gets in: exactly a known account's correct password, with neither the address nor the
      account locked and no call failing; and a caller is told to wait exactly when one of the two
      locks stopped it, for what is left of that lock. */
  lemma LoginOutcome(p: Policy, adapter: Adapter, s: State, a: Attempt, f: Faults)
    ensures var (s', outcome) := Login(p, adapter, s, a, f);
            var ipLocked := IsLocked(IpState(s, a.ip), a.now);
            var known := a.email.Some? && a.email.value in s.accounts;
            var accountLocked := known && IsLocked(s.accounts[a.email.value], a.now);
            && (outcome.Authenticated? <==>
                  known && a.correct && !ipLocked && !accountLocked && f == Faults(Fine, Fine, Fine, Fine, Fine))
            && (outcome.Authenticated? ==>
                  outcome.email == a.email.value && s'.accounts[a.email.value] == CLEAR && IpState(s', a.ip) == CLEAR)
            && (outcome.TooManyAttempts? <==>
                  f.ipRead == Fine && (ipLocked || (accountLocked && f.find == f.verify == f.ipWrite == Fine)))
            && (outcome == InvalidCredentials <==>
                  && f.ipRead == Fine && !ipLocked && (a.email.Some? ==> f.find == Fine) && f.verify == Fine
                  && (known ==> !accountLocked && !a.correct && f.accountWrite == Fine) && f.ipWrite == Fine)
            && (outcome == Internal <==>
                  || f.ipRead != Fine
                  || (!ipLocked &&
                        (|| (a.email.Some? && f.find != Fine)
                         || f.verify != Fine
                         || (known && !accountLocked && f.accountWrite != Fine)
                         || f.ipWrite != Fine)))
            && (outcome.TooManyAttempts? ==>
                  var until := (if ipLocked then IpState(s, a.ip) else s.accounts[a.email.value]).lockedUntil.value;
                  outcome.retryAfter == Some((until - a.now) / SECOND))
  {
  }

  // -------- the two axes --------

  /** A counter: an account's or an address's. */
  datatype Key = OfAccount(email: string) | OfIp(ip: string)

  function LockoutOf(s: State, k: Key): LockoutState {
    match k
    case OfAccount(email) => if email in s.accounts then s.accounts[email] else CLEAR
    case OfIp(ip) => IpState(s, ip)
  }

  datatype Effect = Untouched | Failed | Cleared

  /** What a login records on a counter, read off the attempt: a failure on an account is a wrong
      password that gets past both locks; a failure on an address is any attempt it lets in that
      does not succeed. */
  function EffectOn(s: State, a: Attempt, f: Faults, k: Key): Effect {
    var reached := f.ipRead == Fine && !IsLocked(IpState(s, a.ip), a.now) && (a.email.Some? ==> f.find == Fine) &&
        f.verify == Fine;
    var known := a.email.Some? && a.email.value in s.accounts;
    var open := known && !IsLocked(s.accounts[a.email.value], a.now);
    if !reached then Untouched
    else match k
      case OfAccount(email) =>
        if !open || a.email.value != email || f.accountWrite == Lost then Untouched
        else if a.correct then Cleared else Failed
      case OfIp(ip) =>
        if a.ip != ip || f.ipWrite == Lost || (open && f.accountWrite != Fine) then Untouched
        else if open && a.correct then Cleared else Failed
  }

  /** A counter before and after a login with this effect on it. */
  predicate Moved(p: Policy, adapter: Adapter, before: LockoutState, after: LockoutState, effect: Effect, now: nat) {
    match effect
    case Untouched => after == before
    case Failed => after == Stored(adapter, RegisterFailure(p, before, now))
    case Cleared => after == CLEAR
  }

  /** Each login moves each counter by its effect, and a locked counter is never moved. */
  lemma LoginMovesCounters(p: Policy, adapter: Adapter, s: State, a: Attempt, f: Faults, k: Key)
    ensures Moved(p, adapter, LockoutOf(s, k), LockoutOf(Login(p, adapter, s, a, f).0, k), EffectOn(s, a, f, k), a.now)
    ensures IsLocked(LockoutOf(s, k), a.now) ==> EffectOn(s, a, f, k) == Untouched
    ensures Login(p, adapter, s, a, f).0.accounts.Keys == s.accounts.Keys
  {
    match k
    case OfAccount(email) => LoginMovesAccount(p, adapter, s, a, f, email);
    case OfIp(ip) => LoginMovesIp(p, adapter, s, a, f, ip);
  }

  lemma LoginMovesAccount(p: Policy, adapter: Adapter, s: State, a: Attempt, f: Faults, email: string)
    ensures var k := OfAccount(email);
            Moved(p, adapter, LockoutOf(s, k), LockoutOf(Login(p, adapter, s, a, f).0, k), EffectOn(s, a, f, k), a.now)
    ensures Login(p, adapter, s, a, f).0.accounts.Keys == s.accounts.Keys
  {
  }

  lemma LoginMovesIp(p: Policy, adapter: Adapter, s: State, a: Attempt, f: Faults, ip: string)
    ensures var k := OfIp(ip);
            Moved(p, adapter, LockoutOf(s, k), LockoutOf(Login(p, adapter, s, a, f).0, k), EffectOn(s, a, f, k), a.now)
    ensures Login(p, adapter, s, a, f).0.accounts.Keys == s.accounts.Keys
  {
  }

  // -------- runs --------

  type Run = seq<(Attempt, Faults)>

  /** The state after a run that starts with cleared counters. */
  function After(p: Policy, adapter: Adapter, emails: set<string>, run: Run): State {
    if run == [] then State(map e | e in emails :: CLEAR, map[])
    else
      var (a, f) := run[|run|-1];
      Login(p, adapter, After(p, adapter, emails, run[..|run|-1]), a, f).0
  }

  /** The instants of the failures recorded on a counter since it was last cleared. */
  function Streak(p: Policy, adapter: Adapter, emails: set<string>, run: Run, k: Key): seq<nat> {
    if run == [] then []
    else
      var front, (a, f) := run[..|run|-1], run[|run|-1];
      var streak := Streak(p, adapter, emails, front, k);
      match EffectOn(After(p, adapter, emails, front), a, f, k)
      case Untouched => streak
      case Failed => streak + [a.now]
      case Cleared => []
  }

  /** The counter value that the n-th failure of a streak registers. */
  function Registered(adapter: Adapter, n: nat): nat {
    if n == 0 then 0 else SaturatingSuccessor(Stored(adapter,
        LockoutState(Registered(adapter, n - 1), None)).failedAttempts)
  }

  lemma NextRemainder(n: nat)
    ensures (n + 1) % I32_LIMIT == if n % I32_LIMIT == I32_LIMIT - 1 then 0 else n % I32_LIMIT + 1
  {
  }

  lemma {:induction false} ExactCount(n: nat)
    ensures Registered(Exact, n) == Min(n, U32_MAX)
  {
    if n > 0 {
      ExactCount(n - 1);
    }
  }

  lemma {:induction false} StoredCount(n: nat)
    ensures Registered(Postgres, n) == if n == 0 then 0 else (n - 1) % I32_LIMIT + 1
  {
    if n > 1 {
      StoredCount(n - 1);
      NextRemainder(n - 2);
    }
  }

  /** The exact counter is the streak length, saturating at u32::MAX; the stored one starts over
      after every 2^31 failures. */
  lemma RegisteredClosedForm(adapter: Adapter, n: nat)
    ensures Registered(adapter, n) ==
            match adapter
            case Exact => Min(n, U32_MAX)
            case Postgres => if n == 0 then 0 else (n - 1) % I32_LIMIT + 1
  {
    match adapter
    case Exact => ExactCount(n);
    case Postgres => StoredCount(n);
  }

  /** The lock the n-th failure of a streak sets, if it sets one. */
  function LockAfter(p: Policy, adapter: Adapter, n: nat, at: nat): Option<nat> {
    var failed := Registered(adapter, n);
    if n > 0 && failed >= Threshold(p)
    then Stored(adapter, LockoutState(failed, Some(at + LockDuration(p, failed)))).lockedUntil
    else None
  }

  /** The counter a streak of failures leaves behind. */
  function CounterOf(p: Policy, adapter: Adapter, streak: seq<nat>): LockoutState {
    if streak == [] then CLEAR
    else Stored(adapter, RegisterFailure(p, CounterOf(p, adapter, streak[..|streak|-1]), streak[|streak|-1]))
  }

  lemma {:induction false} CounterClosedForm(p: Policy, adapter: Adapter, streak: seq<nat>)
    ensures var l, n := CounterOf(p, adapter, streak), |streak|;
            && l.failedAttempts == Stored(adapter, LockoutState(Registered(adapter, n), None)).failedAttempts
            && l.lockedUntil == if n == 0 then None else LockAfter(p, adapter, n, streak[n-1])
  {
    if streak != [] {
      CounterClosedForm(p, adapter, streak[..|streak|-1]);
    }
  }

  /** The j-th failure after the first came no earlier than the lock the one before it set. */
  predicate Waited(p: Policy, adapter: Adapter, streak: seq<nat>, j: nat)
    requires 0 < j < |streak|
  {
    var lock := LockAfter(p, adapter, j, streak[j-1]);
    lock.Some? ==> streak[j] >= lock.value
  }

  predicate Spaced(p: Policy, adapter: Adapter, streak: seq<nat>) {
    forall j :: 0 < j < |streak| ==> Waited(p, adapter, streak, j)
  }

  lemma SpacedAppend(p: Policy, adapter: Adapter, streak: seq<nat>, now: nat)
    requires Spaced(p, adapter, streak)
    requires !IsLocked(CounterOf(p, adapter, streak), now)
    ensures Spaced(p, adapter, streak + [now])
  {
    var longer := streak + [now];
    CounterClosedForm(p, adapter, streak);
    forall j | 0 < j < |longer| ensures Waited(p, adapter, longer, j) {
      if j < |streak| {
        assert Waited(p, adapter, streak, j);
      }
    }
  }

  /** A counter is exactly what its streak left behind, and the failures of the streak are spaced by
      their locks: in every sequential run, whatever the clock does and whatever calls fail. */
  lemma {:induction false} CounterIsStreak(p: Policy, adapter: Adapter, emails: set<string>, run: Run, k: Key)
    ensures LockoutOf(After(p, adapter, emails, run), k) == CounterOf(p, adapter, Streak(p, adapter, emails, run, k))
    ensures Spaced(p, adapter, Streak(p, adapter, emails, run, k))
  {
    if run != [] {
      var front := run[..|run|-1];
      var (a, f) := run[|run|-1];
      var s, streak := After(p, adapter, emails, front), Streak(p, adapter, emails, front, k);
      CounterIsStreak(p, adapter, emails, front, k);
      LoginMovesCounters(p, adapter, s, a, f, k);
      if EffectOn(s, a, f, k) == Failed {
        assert (streak + [a.now])[..|streak|] == streak;
        SpacedAppend(p, adapter, streak, a.now);
      }
    }
  }

  /** The count the n-th failure of a streak registers: for the exact store up to u32::MAX, through Postgres
      starting over after 2^31. */
  function CountAt(adapter: Adapter, n: nat): nat {
    if n == 0 || adapter == Exact then Min(n, 0xFFFF_FFFF) else (n - 1) % 0x8000_0000 + 1
  }

  lemma LockAfterIff(p: Policy, adapter: Adapter, n: nat, at: nat)
    ensures var lock, count := LockAfter(p, adapter, n, at), CountAt(adapter, n);
            && (lock.Some? <==> n >= 1 && count >= p.maxAttempts)
            && (lock.Some? ==> lock.value == Kept(adapter, at + LockDuration(p, count)))
  {
    RegisteredClosedForm(adapter, n);
    assert CountAt(adapter, n) == Registered(adapter, n);
  }

  /** The deadline a counter should have after a streak: one from its last failure once the count has
      reached `maxAttempts`, and at least one. */
  predicate DeadlineFits(p: Policy, adapter: Adapter, lock: Option<nat>, streak: seq<nat>) {
    && (lock.Some? <==> streak != [] && CountAt(adapter, |streak|) >= p.maxAttempts)
    && (lock.Some? ==> lock.value == Kept(adapter, streak[|streak|-1] + LockDuration(p, CountAt(adapter, |streak|))))
  }

  lemma CounterDeadline(p: Policy, adapter: Adapter, streak: seq<nat>)
    ensures DeadlineFits(p, adapter, CounterOf(p, adapter, streak).lockedUntil, streak)
  {
    var lock := CounterOf(p, adapter, streak).lockedUntil;
    CounterClosedForm(p, adapter, streak);
    if streak != [] {
      var n, at := |streak|, streak[|streak|-1];
      assert lock == LockAfter(p, adapter, n, at);
      LockAfterIff(p, adapter, n, at);
    }
  }

  /** Over every sequential run, a counter has a deadline exactly when its streak's count has reached
      `maxAttempts`, and at least one; the deadline runs from the last failure. */
  lemma StreakLocksIff(p: Policy, adapter: Adapter, emails: set<string>, run: Run, k: Key)
    ensures DeadlineFits(p, adapter, LockoutOf(After(p, adapter, emails, run), k).lockedUntil,
                         Streak(p, adapter, emails, run, k))
  {
    CounterIsStreak(p, adapter, emails, run, k);
    CounterDeadline(p, adapter, Streak(p, adapter, emails, run, k));
  }

  // -------- how long a streak must take --------

  /** Time a store may lose on one lock: under a second when deadlines are kept in whole seconds. */
  function Slack(adapter: Adapter): nat {
    if adapter == Exact then 0 else SECOND - 1
  }

  /** What a lock of the n-th failure is sure to take: nothing at the least. */
  function SureDelay(p: Policy, adapter: Adapter, n: nat): nat {
    var delay := LockDuration(p, Registered(adapter, n));
    if Locks(p, adapter, n) && delay > Slack(adapter) then delay - Slack(adapter) else 0
  }

  /** What the locks of the failures `first` up to `last - 1` of a streak are sure to take, added up. */
  function Delay(p: Policy, adapter: Adapter, first: nat, last: nat): nat
    decreases last
  {
    if last <= first then 0 else Delay(p, adapter, first, last - 1) + SureDelay(p, adapter, last - 1)
  }

  /** Whether the n-th failure of a streak sets a lock. */
  predicate Locks(p: Policy, adapter: Adapter, n: nat) {
    n > 0 && Registered(adapter, n) >= Threshold(p)
  }

  lemma LockKeepsDuration(p: Policy, adapter: Adapter, n: nat, at: nat)
    requires Locks(p, adapter, n)
    ensures LockAfter(p, adapter, n, at).Some?
    ensures LockAfter(p, adapter, n, at).value >= at + LockDuration(p, Registered(adapter, n)) - Slack(adapter)
  {
  }

  lemma {:induction false} SpacedDelay(p: Policy, adapter: Adapter, streak: seq<nat>, first: nat, last: nat)
    requires Spaced(p, adapter, streak) && Ascending(streak)
    requires 0 < first <= last <= |streak|
    ensures streak[last-1] >= streak[first-1] + Delay(p, adapter, first, last)
    decreases last
  {
    if first < last {
      SpacedDelay(p, adapter, streak, first, last - 1);
      assert streak[last-2] <= streak[last-1];
      if Locks(p, adapter, last - 1) {
        assert Waited(p, adapter, streak, last - 1);
        LockKeepsDuration(p, adapter, last - 1, streak[last-2]);
      }
    }
  }

  /** Without an ascending clock, each lock counts for its duration less the slack, even below zero. */
  lemma {:induction false} SpacedLocks(p: Policy, adapter: Adapter, streak: seq<nat>, first: nat, last: nat)
    requires Spaced(p, adapter, streak)
    requires 0 < first <= last <= |streak|
    requires forall j :: first <= j < last ==> Locks(p, adapter, j)
    ensures streak[last-1] >= streak[first-1] + EveryLock(p, adapter, first, last)
    decreases last
  {
    if first < last {
      SpacedLocks(p, adapter, streak, first, last - 1);
      assert Waited(p, adapter, streak, last - 1);
      LockKeepsDuration(p, adapter, last - 1, streak[last-2]);
    }
  }

  /** No login comes before the previous one. */
  predicate InOrder(run: Run) {
    |run| < 2 || (InOrder(run[..|run|-1]) && run[|run|-2].0.now <= run[|run|-1].0.now)
  }

  predicate Ascending(times: seq<nat>) {
    forall j :: 0 < j < |times| ==> times[j-1] <= times[j]
  }

  lemma {:induction false} StreakAscends(p: Policy, adapter: Adapter, emails: set<string>, run: Run, k: Key)
    requires InOrder(run)
    ensures var streak := Streak(p, adapter, emails, run, k);
            Ascending(streak) && (streak != [] ==> run != [] && streak[|streak|-1] <= run[|run|-1].0.now)
  {
    if run != [] {
      var front, now := run[..|run|-1], run[|run|-1].0.now;
      StreakAscends(p, adapter, emails, front, k);
      AscendingAppend(Streak(p, adapter, emails, front, k), now);
    }
  }

  lemma AscendingAppend(times: seq<nat>, now: nat)
    requires Ascending(times)
    ensures times == [] || times[|times|-1] <= now ==> Ascending(times + [now])
  {
  }

  /** Whether each failure of a streak from the threshold on, before the n-th, sets a lock: always with
      an exact counter; with a stored one exactly while it has not started over, unless the
      threshold is one. */
  predicate LocksThroughout(p: Policy, adapter: Adapter, n: nat) {
    adapter == Exact || n <= I32_LIMIT + 1 || n <= Threshold(p) || Threshold(p) == 1
  }

  lemma RegisteredTwiceAround(adapter: Adapter, n: nat)
    requires n <= 2 * I32_LIMIT
    ensures Registered(adapter, n) == if adapter == Exact then Min(n, U32_MAX) else if n <= I32_LIMIT then n
            else n - I32_LIMIT
  {
    RegisteredClosedForm(adapter, n);
    if n > I32_LIMIT {
      assert (n - 1) % I32_LIMIT == n - 1 - I32_LIMIT;
    }
  }

  lemma RegisteredIsPositive(adapter: Adapter, n: nat)
    ensures n > 0 ==> Registered(adapter, n) > 0
    ensures adapter == Exact ==> Registered(adapter, n) == Min(n, U32_MAX)
  {
    RegisteredClosedForm(adapter, n);
  }

  lemma EveryFailureLocksIff(p: Policy, adapter: Adapter, n: nat)
    ensures (forall j :: Threshold(p) <= j < n ==> Locks(p, adapter, j)) <==> LocksThroughout(p, adapter, n)
  {
    forall j | Threshold(p) <= j < n && LocksThroughout(p, adapter, n) ensures Locks(p, adapter, j) {
      RegisteredIsPositive(adapter, j);
      if j <= I32_LIMIT {
        RegisteredTwiceAround(adapter, j);
      }
    }
    if !LocksThroughout(p, adapter, n) {
      var j := if Threshold(p) <= I32_LIMIT then I32_LIMIT + 1 else Threshold(p);
      RegisteredTwiceAround(adapter, j);
      assert Threshold(p) <= j < n && !Locks(p, adapter, j);
    }
  }

  /** Progressive lockout, when the clock never goes back: any later failure of a streak, on an
      account or an address, comes no earlier than any former one plus every lock set in between,
      each lock shorter by under a second when the deadlines pass through Postgres. */
  lemma StreakTakesTime(p: Policy, adapter: Adapter, emails: set<string>, run: Run, k: Key, first: nat, n: nat)
    requires InOrder(run) && 0 < first <= n <= |Streak(p, adapter, emails, run, k)|
    ensures var streak := Streak(p, adapter, emails, run, k);
            streak[n-1] >= streak[first-1] + Delay(p, adapter, first, n)
  {
    CounterIsStreak(p, adapter, emails, run, k);
    StreakAscends(p, adapter, emails, run, k);
    SpacedDelay(p, adapter, Streak(p, adapter, emails, run, k), first, n);
  }

  /** The same whatever the clock does, from the threshold on, as long as every failure sets a lock. */
  lemma LockedStreakTakesTime(p: Policy, adapter: Adapter, emails: set<string>, run: Run, k: Key, n: nat)
    requires Threshold(p) <= n <= |Streak(p, adapter, emails, run, k)|
    requires LocksThroughout(p, adapter, n)
    ensures var streak := Streak(p, adapter, emails, run, k);
            streak[n-1] >= streak[Threshold(p)-1] + EveryLock(p, adapter, Threshold(p), n)
  {
    CounterIsStreak(p, adapter, emails, run, k);
    EveryFailureLocksIff(p, adapter, n);
    SpacedLocks(p, adapter, Streak(p, adapter, emails, run, k), Threshold(p), n);
  }

  /** A lock for every failure, added up, less the slack. */
  function EveryLock(p: Policy, adapter: Adapter, first: nat, last: nat): int
    decreases last
  {
    if last <= first then 0
    else EveryLock(p, adapter, first, last - 1) + LockDuration(p, Registered(adapter, last - 1)) - Slack(adapter)
  }

  /** Where every failure locks, the ascending clock's bound is the better one; exact deadlines make
      them one. */
  lemma {:induction false} DelayCoversLocks(p: Policy, adapter: Adapter, first: nat, last: nat)
    requires forall j :: first <= j < last ==> Locks(p, adapter, j)
    ensures Delay(p, adapter, first, last) >= EveryLock(p, adapter, first, last)
    ensures adapter == Exact ==> Delay(p, adapter, first, last) == EveryLock(p, adapter, first, last)
    decreases last
  {
    if first < last {
      DelayCoversLocks(p, adapter, first, last - 1);
    }
  }

  /** The lock set by each failure of a streak counts that failure's place in it: for the exact store
      up to saturation, for Postgres exactly as long as fewer than 2^31 failures came before. */
  lemma LocksCountTheStreak(adapter: Adapter, n: nat)
    requires n <= U32_MAX
    ensures Registered(adapter, n) == n <==> adapter == Exact || n <= I32_LIMIT
  {
    RegisteredTwiceAround(adapter, n);
  }
}
