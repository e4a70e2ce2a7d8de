/** The in-memory fixed-window rate limiter (crates/api/src/rate_limit.rs) and the two keys a login
    consumes (crates/api/src/auth.rs). Instants and durations are nanoseconds. */
module RateLimits {
  import opened Common

  const U32: nat := 0x1_0000_0000

  datatype Config = Config(maxRequests: nat, window: nat)

  datatype Window = Window(count: nat, startedAt: int)

  datatype Verdict = Admitted | Exceeded(retryAfter: nat)

  /** `duration_since(..).unwrap_or_default()`. */
  function Elapsed(now: int, since: int): nat {
    if now < since then 0 else now - since
  }

  /** One check of one key: its entry before (None if absent), its entry after, and the answer. The
      counter is a u32 and wraps in a release build. */
  function CheckWindow(c: Config, entry: Option<Window>, now: int): (Window, Verdict) {
    var w := if entry == None then Window(0, now) else entry.value;
    var current := if Elapsed(now, w.startedAt) >= c.window then Window(0, now) else w;
    var counted := Window((current.count + 1) % U32, current.startedAt);
    if counted.count > c.maxRequests
    then
      var elapsed := Elapsed(now, counted.startedAt);
      (counted, Exceeded(if elapsed > c.window then 0 else c.window - elapsed))
    else (counted, Admitted)
  }

  function Entry(windows: map<string, Window>, key: string): Option<Window> {
    if key in windows then Some(windows[key]) else None
  }

  function CheckIn(c: Config, windows: map<string, Window>, key: string, now: int): (map<string, Window>, Verdict) {
    var (w, v) := CheckWindow(c, Entry(windows, key), now);
    (windows[key := w], v)
  }

  /** The two checks of a login: by address first, and by account only if that one passed. */
  function LoginGate(c: Config, windows: map<string, Window>, ip: string, account: string, now: int)
    : (map<string, Window>, Verdict)
  {
    var (windows1, byIp) := CheckIn(c, windows, IpKey(ip), now);
    if byIp.Exceeded? then (windows1, byIp) else CheckIn(c, windows1, AccountKey(account), now)
  }

  function IpKey(ip: string): string { "ip:" + ip }

  function AccountKey(account: string): string { "acct:" + account }

  class RateLimiter {
    var windows: map<string, Window>
    const config: Config

    constructor (config: Config)
      ensures this.config == config && windows == map[]
    {
      this.config := config;
      windows := map[];
    }

    method Check(key: string, now: int) returns (v: Verdict)
      modifies this`windows
      ensures (windows, v) == CheckIn(config, old(windows), key, now)
    {
      ghost var before := windows;
      if key !in windows {
        windows := windows[key := Window(0, now)];
      }
      if Elapsed(now, windows[key].startedAt) >= config.window {
        windows := windows[key := Window(0, now)];
      }
      windows := windows[key := windows[key].(count := (windows[key].count + 1) % U32)];
      if windows[key].count > config.maxRequests {
        var elapsed := Elapsed(now, windows[key].startedAt);
        v := Exceeded(if elapsed > config.window then 0 else config.window - elapsed);
      } else {
        v := Admitted;
      }
      assert windows == before[key := windows[key]];
    }

    /** The loop over the two keys in the login handler. */
    method CheckLogin(ip: string, account: string, now: int) returns (v: Verdict)
      modifies this`windows
      ensures (windows, v) == LoginGate(config, old(windows), ip, account, now)
    {
      var keys := [IpKey(ip), AccountKey(account)];
      v := Admitted;
      var i := 0;
      while i < |keys|
        invariant 0 <= i <= |keys| && v == Admitted
        invariant i == 0 ==> windows == old(windows)
        invariant i == 1 ==> (windows, v) == CheckIn(config, old(windows), keys[0], now)
        invariant i == 2 ==> (windows, v) == LoginGate(config, old(windows), ip, account, now)
      {
        v := Check(keys[i], now);
        if v.Exceeded? {
          return v;
        }
        i := i + 1;
      }
    }
  }

  /** One check, whatever the clock does: the entry starts over when there is none, or a window's length
      has passed, or windows have no length; a clock behind the entry counts as no time passed. */
  lemma CheckMeaning(c: Config, entry: Option<Window>, now: int)
    ensures var (w, v) := CheckWindow(c, entry, now);
            var restarts := entry == None || c.window == 0 || now >= entry.value.startedAt + c.window;
            && w == (if restarts then Window(1, now) else Window((entry.value.count + 1) % U32, entry.value.startedAt))
            && (v == Admitted <==> w.count <= c.maxRequests)
            && (v.Exceeded? ==> v.retryAfter == if now < w.startedAt then c.window else w.startedAt + c.window - now)
  {
  }

  // -------- one key --------

  /** No check comes before the previous one. */
  predicate Sorted(times: seq<int>) {
    |times| < 2 || (Sorted(times[..|times|-1]) && times[|times|-2] <= times[|times|-1])
  }

  lemma {:induction false} LastIsLatest(times: seq<int>)
    requires Sorted(times) && times != []
    ensures forall i :: 0 <= i < |times| ==> times[i] <= times[|times|-1]
  {
    if |times| >= 2 {
      var front := times[..|times|-1];
      LastIsLatest(front);
      assert forall i :: 0 <= i < |front| ==> times[i] == front[i];
    }
  }

  /** The entry of a key whose checks so far came at `times`. */
  function EntryAfter(c: Config, times: seq<int>): Option<Window> {
    if times == [] then None
    else Some(CheckWindow(c, EntryAfter(c, times[..|times|-1]), times[|times|-1]).0)
  }

  /** The answer to a check at `now` after the checks at `times`. */
  function Answer(c: Config, times: seq<int>, now: int): Verdict {
    CheckWindow(c, EntryAfter(c, times), now).1
  }

  /** How many checks came in the window's worth of time that starts at `a`. */
  function Load(c: Config, times: seq<int>, a: int): nat {
    if times == [] then 0
    else
      var front, now := times[..|times|-1], times[|times|-1];
      if a <= now < a + c.window then Load(c, front, a) + 1 else Load(c, front, a)
  }

  /** How many of the checks in [a, b) were admitted. */
  function AdmittedIn(c: Config, times: seq<int>, a: int, b: int): nat {
    if times == [] then 0
    else
      var front, now := times[..|times|-1], times[|times|-1];
      if a <= now < b && Answer(c, front, now) == Admitted
      then AdmittedIn(c, front, a, b) + 1 else AdmittedIn(c, front, a, b)
  }

  lemma {:induction false} NothingSince(c: Config, times: seq<int>, a: int, b: int)
    requires forall i :: 0 <= i < |times| ==> times[i] < a
    ensures Load(c, times, a) == 0 && AdmittedIn(c, times, a, b) == 0
  {
    if times != [] {
      NothingSince(c, times[..|times|-1], a, b);
    }
  }

  /** The running window's counter is the number of checks since it started, modulo 2^32. */
  ghost predicate Counts(c: Config, times: seq<int>, w: Window) {
    && times != []
    && w.startedAt <= times[|times|-1] < w.startedAt + c.window
    && w.count == Load(c, times, w.startedAt) % U32
  }

  lemma {:induction false} WindowCounts(c: Config, times: seq<int>)
    requires Sorted(times) && times != [] && c.window > 0
    ensures Counts(c, times, EntryAfter(c, times).value)
  {
    var front, now := times[..|times|-1], times[|times|-1];
    if front == [] {
      assert Load(c, front, now) == 0;
    } else {
      WindowCounts(c, front);
      var w := EntryAfter(c, front).value;
      if now - w.startedAt >= c.window {
        LastIsLatest(front);
        NothingSince(c, front, now, now);
      } else {
        SuccessorMod(Load(c, front, w.startedAt));
      }
    }
  }

  lemma SuccessorMod(n: nat)
    ensures (n % U32 + 1) % U32 == (n + 1) % U32
  {
  }

  /** A check is admitted exactly when it is, counted modulo 2^32, among the first `maxRequests` of
      its window: the check that completes 2^32 in one window is let in again. */
  lemma AdmittedIff(c: Config, times: seq<int>, now: int)
    requires Sorted(times + [now]) && c.window > 0
    ensures Answer(c, times, now) == Admitted <==>
            Load(c, times + [now], EntryAfter(c, times + [now]).value.startedAt) % U32 <= c.maxRequests
  {
    WindowCounts(c, times + [now]);
    assert (times + [now])[..|times|] == times;
  }

  /** No window's worth of time holds more than `n` checks. */
  ghost predicate AtMost(c: Config, times: seq<int>, n: nat) {
    forall a: int :: Load(c, times, a) <= n
  }

  /** No window's worth of time holds 2^32 checks: then the counter never wraps. */
  ghost predicate NeverWraps(c: Config, times: seq<int>) {
    AtMost(c, times, U32 - 1)
  }

  lemma FewerAtMost(c: Config, times: seq<int>, n: nat)
    requires times != [] && AtMost(c, times, n)
    ensures AtMost(c, times[..|times|-1], n)
  {
    var front := times[..|times|-1];
    forall a: int ensures Load(c, front, a) <= n {
      assert Load(c, times, a) <= n;
    }
  }

  lemma FewerNeverWraps(c: Config, times: seq<int>)
    requires times != [] && NeverWraps(c, times)
    ensures NeverWraps(c, times[..|times|-1])
  {
    FewerAtMost(c, times, U32 - 1);
  }

  /** Then the counter is the number of checks in the running window. */
  lemma CounterIsLoad(c: Config, times: seq<int>)
    requires Sorted(times) && times != [] && c.window > 0 && NeverWraps(c, times)
    ensures Counts(c, times, EntryAfter(c, times).value)
    ensures EntryAfter(c, times).value.count == Load(c, times, EntryAfter(c, times).value.startedAt) < U32
  {
    WindowCounts(c, times);
    assert Load(c, times, EntryAfter(c, times).value.startedAt) < U32;
  }

  /** What the last check did, the counter never wrapping: it counted in the running window or
      started a new one, and was admitted exactly when that window's count is within the limit. */
  lemma LastStep(c: Config, times: seq<int>)
    requires Sorted(times) && times != [] && c.window > 0 && NeverWraps(c, times)
    ensures var front, now, w' := times[..|times|-1], times[|times|-1], EntryAfter(c, times).value;
            && (if front != [] && now < EntryAfter(c, front).value.startedAt + c.window
                then w' == Window(EntryAfter(c, front).value.count + 1, EntryAfter(c, front).value.startedAt)
                else w' == Window(1, now))
            && w'.startedAt <= now < w'.startedAt + c.window
            && (Answer(c, front, now) == if w'.count <= c.maxRequests then Admitted
                else Exceeded(w'.startedAt + c.window - now))
  {
    var front, now := times[..|times|-1], times[|times|-1];
    CounterIsLoad(c, times);
    if front != [] {
      FewerNeverWraps(c, times);
      CounterIsLoad(c, front);
      var w := EntryAfter(c, front).value;
      assert w.startedAt <= times[|times|-2] <= now;
      if now < w.startedAt + c.window {
        assert Load(c, times, w.startedAt) == Load(c, front, w.startedAt) + 1;
        assert Load(c, times, w.startedAt) < U32;
      }
    }
  }

  // -------- the sliding bound --------

  /** How many windows it takes to cover `length`: its quotient by `window`, rounded up. */
  function Windows(c: Config, length: int): nat
    requires c.window > 0
    decreases if length > 0 then length else 0
  {
    if length <= 0 then 0 else Windows(c, length - c.window) + 1
  }

  lemma {:induction false} WindowsRoundsUp(c: Config, length: int)
    requires c.window > 0
    ensures length <= Windows(c, length) * c.window
    ensures length > 0 ==> (Windows(c, length) - 1) * c.window < length
    decreases if length > 0 then length else 0
  {
    if length > 0 {
      WindowsRoundsUp(c, length - c.window);
      var n := Windows(c, length - c.window);
      assert (n + 1) * c.window == n * c.window + c.window;
    }
  }

  lemma {:induction false} WindowsMonotone(c: Config, length: int, longer: int)
    requires c.window > 0 && length <= longer
    ensures Windows(c, length) <= Windows(c, longer)
    decreases if length > 0 then length else 0
  {
    if length > 0 {
      WindowsMonotone(c, length - c.window, longer - c.window);
    }
  }

  /** What `k` full windows admit. */
  function Full(c: Config, k: nat): nat {
    if k == 0 then 0 else Full(c, k - 1) + c.maxRequests
  }

  lemma {:induction false} FullIsProduct(c: Config, k: nat)
    ensures Full(c, k) == k * c.maxRequests
  {
    if k > 0 {
      FullIsProduct(c, k - 1);
      assert k * c.maxRequests == (k - 1) * c.maxRequests + c.maxRequests;
    }
  }

  lemma {:induction false} FullMonotone(c: Config, k: nat, k': nat)
    requires k <= k'
    ensures Full(c, k) <= Full(c, k')
    decreases k'
  {
    if k < k' {
      FullMonotone(c, k, k' - 1);
    }
  }

  /** `k` full windows and what the running one has counted so far. */
  function Quota(c: Config, k: nat, count: nat): nat {
    Full(c, k) + if count < c.maxRequests then count else c.maxRequests
  }

  /** What was admitted since `a`: a full quota for the window running at `a` and for every window
      that fits between `a` and the start of the running one, which gives only what it counted. */
  lemma {:induction false} AdmittedSince(c: Config, times: seq<int>, a: int, b: int)
    requires Sorted(times) && times != [] && c.window > 0 && NeverWraps(c, times)
    requires times[|times|-1] < b
    ensures var w := EntryAfter(c, times).value;
            AdmittedIn(c, times, a, b) <= Quota(c, Windows(c, w.startedAt - a + 1), w.count)
  {
    var front, now := times[..|times|-1], times[|times|-1];
    LastStep(c, times);
    if front == [] {
      assert AdmittedIn(c, front, a, b) == 0;
    } else {
      FewerNeverWraps(c, times);
      AdmittedSince(c, front, a, b);
      var w := EntryAfter(c, front).value;
      if w.startedAt + c.window <= now {
        if a <= now {
          NextQuota(c, w.startedAt, now, a);
        } else {
          LastIsLatest(front);
          NothingSince(c, front, a, b);
        }
      }
    }
  }

  /** A later window leaves room for the full quota of the one before. */
  lemma NextQuota(c: Config, start: int, next: int, a: int)
    requires c.window > 0 && start + c.window <= next && a <= next
    ensures Full(c, Windows(c, start - a + 1)) + c.maxRequests <= Full(c, Windows(c, next - a + 1))
  {
    WindowsMonotone(c, start - a + 1, next - a + 1 - c.window);
    FullMonotone(c, Windows(c, start - a + 1) + 1, Windows(c, next - a + 1));
  }

  lemma {:induction false} SlidingBoundAt(c: Config, times: seq<int>, a: int, b: int)
    requires Sorted(times) && c.window > 0 && NeverWraps(c, times)
    ensures AdmittedIn(c, times, a, b) <= Full(c, Windows(c, b - a) + 1)
    decreases |times|
  {
    if times == [] {
    } else if times[|times|-1] >= b {
      FewerNeverWraps(c, times);
      SlidingBoundAt(c, times[..|times|-1], a, b);
    } else {
      AdmittedSince(c, times, a, b);
      WindowCounts(c, times);
      var w := EntryAfter(c, times).value;
      WindowsMonotone(c, w.startedAt - a + 1, b - a);
      FullMonotone(c, Windows(c, w.startedAt - a + 1) + 1, Windows(c, b - a) + 1);
    }
  }

  /** What an interval of this length may admit. */
  function SlidingLimit(c: Config, length: int): nat
    requires c.window > 0
  {
    (Windows(c, length) + 1) * c.maxRequests
  }

  /** The sliding bound: in any half-open interval, of any length, at most `maxRequests` for every
      window the interval spans and one window more. */
  lemma SlidingBound(c: Config, times: seq<int>, a: int, b: int)
    requires Sorted(times) && c.window > 0 && NeverWraps(c, times)
    ensures AdmittedIn(c, times, a, b) <= SlidingLimit(c, b - a)
  {
    SlidingBoundAt(c, times, a, b);
    FullIsProduct(c, Windows(c, b - a) + 1);
  }

  // -------- the exact condition of the documented bound --------

  /** How many of the first `n` checks of one window are admitted: the first `maxRequests`, and from
      the 2^32nd on `maxRequests` more. */
  function WindowQuota(c: Config, n: nat): nat
    requires c.maxRequests < U32
  {
    if n < c.maxRequests then n else if n < U32 then c.maxRequests else c.maxRequests + (n - U32) + 1
  }

  lemma QuotaStep(c: Config, n: nat)
    requires c.maxRequests < U32 && n < U32 + c.maxRequests
    ensures WindowQuota(c, n + 1) == WindowQuota(c, n) + if (n + 1) % U32 <= c.maxRequests then 1 else 0
  {
    assert (n + 1) % U32 == if n + 1 < U32 then n + 1 else n + 1 - U32;
  }

  /** What the last check did, wrapping or not: it joined the running window or started a new one, and
      was admitted by that window's count modulo 2^32. */
  lemma AnyStep(c: Config, times: seq<int>)
    requires Sorted(times) && times != [] && c.window > 0
    ensures var front, now, start := times[..|times|-1], times[|times|-1], EntryAfter(c, times).value.startedAt;
            && (if front != [] && now < EntryAfter(c, front).value.startedAt + c.window
                then start == EntryAfter(c, front).value.startedAt && Load(c, times, start) == Load(c, front, start) + 1
                else start == now && Load(c, times, start) == 1)
            && start <= now < start + c.window
            && (Answer(c, front, now) == Admitted <==> Load(c, times, start) % U32 <= c.maxRequests)
  {
    var front, now := times[..|times|-1], times[|times|-1];
    assert front + [now] == times;
    AdmittedIff(c, front, now);
    WindowCounts(c, times);
    if front == [] {
      assert Load(c, front, now) == 0;
    } else {
      WindowCounts(c, front);
      if EntryAfter(c, front).value.startedAt + c.window <= now {
        LastIsLatest(front);
        NothingSince(c, front, now, now);
      }
    }
  }

  /** How the checks since `a` fall into windows: the last `m` of the first `q` checks of the window
      that was running at `a`, and all `r` checks of the window that started since, if one has. */
  ghost predicate FallsInto(c: Config, times: seq<int>, a: int, q: nat, m: nat, r: nat)
    requires times != [] && c.maxRequests < U32
  {
    var start := EntryAfter(c, times).value.startedAt;
    && m <= q && m + r == Load(c, times, a)
    && AdmittedIn(c, times, a, a + c.window) == WindowQuota(c, q) - WindowQuota(c, q - m) + WindowQuota(c, r)
    && (if start < a then q == Load(c, times, start) && r == 0 else r == Load(c, times, start))
  }

  lemma {:induction false} TwoWindowsAtMost(c: Config, times: seq<int>, a: int, n: nat) returns (q: nat, m: nat, r: nat)
    requires Sorted(times) && times != [] && c.window > 0 && c.maxRequests < U32
    requires AtMost(c, times, n) && n < U32 + c.maxRequests
    requires times[|times|-1] < a + c.window
    ensures q <= n && FallsInto(c, times, a, q, m, r)
  {
    var front, start := times[..|times|-1], EntryAfter(c, times).value.startedAt;
    var k := Load(c, times, start);
    assert k <= n;
    if times[|times|-1] < a {
      NoneFalls(c, times, a);
      q, m, r := k, 0, 0;
    } else if front == [] {
      FirstFalls(c, times, a);
      q, m, r := 0, 0, 1;
    } else {
      FewerAtMost(c, times, n);
      q, m, r := TwoWindowsAtMost(c, front, a, n);
      OneMoreFalls(c, times, a, q, m, r);
      if start < a {
        q, m := q + 1, m + 1;
      } else {
        r := r + 1;
      }
    }
  }

  lemma NoneFalls(c: Config, times: seq<int>, a: int)
    requires Sorted(times) && times != [] && c.window > 0 && c.maxRequests < U32
    requires times[|times|-1] < a
    ensures FallsInto(c, times, a, Load(c, times, EntryAfter(c, times).value.startedAt), 0, 0)
  {
    AnyStep(c, times);
    LastIsLatest(times);
    NothingSince(c, times, a, a + c.window);
  }

  lemma FirstFalls(c: Config, times: seq<int>, a: int)
    requires |times| == 1 && a <= times[0] < a + c.window && c.maxRequests < U32
    ensures FallsInto(c, times, a, 0, 0, 1)
  {
    AnyStep(c, times);
    QuotaStep(c, 0);
    assert Load(c, times[..0], a) == 0 && AdmittedIn(c, times[..0], a, a + c.window) == 0;
  }

  lemma OneMoreFalls(c: Config, times: seq<int>, a: int, q: nat, m: nat, r: nat)
    requires Sorted(times) && |times| > 1 && c.window > 0 && c.maxRequests < U32
    requires a <= times[|times|-1] < a + c.window
    requires FallsInto(c, times[..|times|-1], a, q, m, r)
    requires Load(c, times, EntryAfter(c, times).value.startedAt) < U32 + c.maxRequests
    ensures EntryAfter(c, times).value.startedAt < a ==> FallsInto(c, times, a, q + 1, m + 1, r)
    ensures EntryAfter(c, times).value.startedAt >= a ==> FallsInto(c, times, a, q, m, r + 1)
  {
    var front, start := times[..|times|-1], EntryAfter(c, times).value.startedAt;
    AnyStep(c, times);
    QuotaStep(c, Load(c, times, start) - 1);
    assert Load(c, times, a) == Load(c, front, a) + 1;
  }

  lemma TwoQuotas(c: Config, n: nat, q: nat, m: nat, r: nat)
    requires c.maxRequests < U32 && n < U32 + c.maxRequests
    requires m <= q <= n && m + r <= n
    ensures WindowQuota(c, q) - WindowQuota(c, q - m) + WindowQuota(c, r) <= 2 * c.maxRequests
  {
  }

  function AdmittedFrom(c: Config, times: seq<int>, a: int): nat {
    AdmittedIn(c, times, a, a + c.window)
  }

  /** The documented worst case, at most twice `maxRequests` in any interval one window long, as long
      as fewer than 2^32 + `maxRequests` checks come in any window's worth of time. */
  lemma {:induction false} DocumentedBound(c: Config, times: seq<int>, n: nat, a: int)
    requires Sorted(times) && c.window > 0 && c.maxRequests < U32
    requires AtMost(c, times, n) && n < U32 + c.maxRequests
    ensures AdmittedFrom(c, times, a) <= 2 * c.maxRequests
    decreases |times|
  {
    if times == [] {
    } else if times[|times|-1] >= a + c.window {
      FewerAtMost(c, times, n);
      DocumentedBound(c, times[..|times|-1], n, a);
    } else {
      var q, m, r := TwoWindowsAtMost(c, times, a, n);
      assert m + r == Load(c, times, a) <= n;
      TwoQuotas(c, n, q, m, r);
    }
  }

  /** When the `k`-th burst comes. */
  function BurstAt(c: Config, k: nat): nat {
    if k == 0 then 0 else BurstAt(c, k - 1) + c.window
  }

  /** `k` bursts of 2^32 checks, one a window, and the first `n` checks of one more. */
  function Bursts(c: Config, k: nat, n: nat): seq<int>
    decreases k, n
  {
    if n > 0 then Bursts(c, k, n - 1) + [BurstAt(c, k)] else if k == 0 then [] else Bursts(c, k - 1, U32)
  }

  function BurstWindow(c: Config, k: nat, n: nat): Option<Window> {
    if n > 0 then Some(Window(n % U32, BurstAt(c, k))) else if k == 0 then None else Some(Window(0, BurstAt(c, k - 1)))
  }

  lemma CheckJoins(c: Config, w: Window, now: int)
    requires w.startedAt <= now < w.startedAt + c.window
    ensures CheckWindow(c, Some(w), now).0 == Window((w.count + 1) % U32, w.startedAt)
    ensures CheckWindow(c, Some(w), now).1 == Admitted <==> (w.count + 1) % U32 <= c.maxRequests
  {
  }

  lemma CheckStarts(c: Config, entry: Option<Window>, now: int)
    requires c.window > 0 && (entry == None || entry.value.startedAt + c.window <= now)
    ensures CheckWindow(c, entry, now).0 == Window(1, now)
    ensures CheckWindow(c, entry, now).1 == Admitted <==> 1 <= c.maxRequests
  {
  }

  lemma CheckOnceMore(c: Config, k: nat, n: nat)
    requires c.window > 0
    ensures Some(CheckWindow(c, BurstWindow(c, k, n), BurstAt(c, k)).0) == BurstWindow(c, k, n + 1)
    ensures CheckWindow(c, BurstWindow(c, k, n), BurstAt(c, k)).1 == Admitted <==> (n + 1) % U32 <= c.maxRequests
  {
    if n == 0 {
      CheckStarts(c, BurstWindow(c, k, n), BurstAt(c, k));
    } else {
      SuccessorMod(n);
      CheckJoins(c, Window(n % U32, BurstAt(c, k)), BurstAt(c, k));
    }
  }

  lemma OneMoreCheck(c: Config, times: seq<int>, now: int, a: int, b: int)
    ensures EntryAfter(c, times + [now]) == Some(CheckWindow(c, EntryAfter(c, times), now).0)
    ensures AdmittedIn(c, times + [now], a, b) ==
            AdmittedIn(c, times, a, b) + if a <= now < b && Answer(c, times, now) == Admitted then 1 else 0
  {
    assert (times + [now])[..|times|] == times;
  }

  lemma LoadAppend(c: Config, times: seq<int>, now: int, a: int)
    ensures Load(c, times + [now], a) == Load(c, times, a) + if a <= now < a + c.window then 1 else 0
  {
    assert (times + [now])[..|times|] == times;
  }

  lemma {:induction false} BurstsCount(c: Config, k: nat, n: nat)
    requires c.window > 0
    ensures EntryAfter(c, Bursts(c, k, n)) == BurstWindow(c, k, n)
    decreases k, n
  {
    if n > 0 {
      BurstsCount(c, k, n - 1);
      OneMoreCheck(c, Bursts(c, k, n - 1), BurstAt(c, k), 0, 0);
      CheckOnceMore(c, k, n - 1);
    } else if k > 0 {
      BurstsCount(c, k - 1, U32);
    }
  }

  lemma {:induction false} BurstsSorted(c: Config, k: nat, n: nat)
    ensures SortedUpTo(Bursts(c, k, n), BurstAt(c, k))
    decreases k, n
  {
    if n > 0 {
      BurstsSorted(c, k, n - 1);
      SortedAppend(Bursts(c, k, n - 1), BurstAt(c, k));
    } else if k > 0 {
      BurstsSorted(c, k - 1, U32);
    }
  }

  lemma {:induction false} LatestBurst(c: Config, k: nat, n: nat, a: int)
    requires c.window > 0 && BurstAt(c, k) - c.window < a
    ensures Load(c, Bursts(c, k, n), a) == if a <= BurstAt(c, k) then n else 0
    decreases k, n
  {
    if n > 0 {
      LatestBurst(c, k, n - 1, a);
      LoadAppend(c, Bursts(c, k, n - 1), BurstAt(c, k), a);
    } else if k > 0 {
      LatestBurst(c, k - 1, U32, a);
    }
  }

  /** A window's worth of time meets one burst only. */
  lemma {:induction false} BurstsLoad(c: Config, k: nat, n: nat, a: int)
    requires c.window > 0
    ensures Load(c, Bursts(c, k, n), a) <= if k == 0 || n > U32 then n else U32
    decreases k, n
  {
    if BurstAt(c, k) - c.window < a {
      LatestBurst(c, k, n, a);
    } else if n > 0 {
      BurstsLoad(c, k, n - 1, a);
      LoadAppend(c, Bursts(c, k, n - 1), BurstAt(c, k), a);
    } else if k > 0 {
      BurstsLoad(c, k - 1, U32, a);
    }
  }

  lemma BurstsAtMost(c: Config, k: nat, n: nat)
    requires c.window > 0 && n >= U32
    ensures AtMost(c, Bursts(c, k, n), n)
  {
    forall a: int ensures Load(c, Bursts(c, k, n), a) <= n {
      BurstsLoad(c, k, n, a);
    }
  }

  /** What `k` bursts of 2^32 checks get admitted: one more than the limit each. */
  function PerBurst(c: Config, k: nat): nat {
    if k == 0 then 0 else PerBurst(c, k - 1) + c.maxRequests + 1
  }

  lemma BurstStep(c: Config, k: nat, n: nat, b: int)
    requires c.window > 0 && BurstAt(c, k) < b
    ensures AdmittedIn(c, Bursts(c, k, n + 1), 0, b) ==
            AdmittedIn(c, Bursts(c, k, n), 0, b) + if (n + 1) % U32 <= c.maxRequests then 1 else 0
  {
    BurstsCount(c, k, n);
    OneMoreCheck(c, Bursts(c, k, n), BurstAt(c, k), 0, b);
    CheckOnceMore(c, k, n);
  }

  lemma {:induction false} BurstsAdmit(c: Config, k: nat, n: nat, b: int)
    requires c.window > 0 && c.maxRequests < U32 && n <= U32 + c.maxRequests && BurstAt(c, k) < b
    ensures AdmittedIn(c, Bursts(c, k, n), 0, b) == PerBurst(c, k) + WindowQuota(c, n)
    decreases k, n
  {
    if n > 0 {
      BurstsAdmit(c, k, n - 1, b);
      BurstStep(c, k, n - 1, b);
      QuotaStep(c, n - 1);
    } else if k > 0 {
      BurstsAdmit(c, k - 1, U32, b);
    } else {
      assert Bursts(c, k, n) == [];
    }
  }

  /** 2^32 + `maxRequests` checks at one instant get one more than the documented bound admitted. */
  lemma WrappingExceedsBound(c: Config)
    requires c.window > 0 && c.maxRequests < U32
    ensures var times := Bursts(c, 0, U32 + c.maxRequests);
            Sorted(times) && AtMost(c, times, U32 + c.maxRequests) && AdmittedFrom(c, times, 0) == 2 * c.maxRequests + 1
  {
    var n := U32 + c.maxRequests;
    BurstsSorted(c, 0, n);
    BurstsAdmit(c, 0, n, c.window);
    BurstsAtMost(c, 0, n);
  }

  /** The documented bound holds of every log with at most `n` checks in any window's worth of time
      if and only if `n` is below 2^32 + `maxRequests`. */
  lemma DocumentedBoundIff(c: Config, n: nat)
    requires c.window > 0 && c.maxRequests < U32
    ensures (forall times, a :: Sorted(times) && AtMost(c, times, n) ==> AdmittedFrom(c, times, a) <= 2 * c.maxRequests)
            <==> n < U32 + c.maxRequests
  {
    if n < U32 + c.maxRequests {
      forall times, a | Sorted(times) && AtMost(c, times, n) ensures AdmittedFrom(c, times, a) <= 2 * c.maxRequests {
        DocumentedBound(c, times, n, a);
      }
    } else {
      WrappingExceedsBound(c);
      var times := Bursts(c, 0, U32 + c.maxRequests);
      assert Sorted(times) && AtMost(c, times, n) && AdmittedFrom(c, times, 0) > 2 * c.maxRequests;
    }
  }

  lemma {:induction false} WindowsOfBursts(c: Config, k: nat)
    requires c.window > 0
    ensures Windows(c, BurstAt(c, k)) == k
  {
    if k > 0 {
      WindowsOfBursts(c, k - 1);
    }
  }

  lemma {:induction false} PerBurstIsProduct(c: Config, k: nat)
    ensures PerBurst(c, k) == k * (c.maxRequests + 1)
  {
    if k > 0 {
      PerBurstIsProduct(c, k - 1);
      assert k * (c.maxRequests + 1) == (k - 1) * (c.maxRequests + 1) + (c.maxRequests + 1);
    }
  }

  /** 2^32 checks in each of `maxRequests` + 1 windows break the sliding bound. */
  lemma WrappingExceedsSlidingBound(c: Config)
    requires c.window > 0 && c.maxRequests < U32
    ensures var times, b := Bursts(c, c.maxRequests, U32), BurstAt(c, c.maxRequests + 1);
            Sorted(times) && AtMost(c, times, U32) && AdmittedIn(c, times, 0, b) > SlidingLimit(c, b)
  {
    var k := c.maxRequests;
    BurstsSorted(c, k, U32);
    BurstsAtMost(c, k, U32);
    BurstsAdmit(c, k, U32, BurstAt(c, k + 1));
    assert AdmittedIn(c, Bursts(c, k, U32), 0, BurstAt(c, k + 1)) == PerBurst(c, k + 1);
    OneBurstTooMany(c);
  }

  lemma OneBurstTooMany(c: Config)
    requires c.window > 0
    ensures PerBurst(c, c.maxRequests + 1) == SlidingLimit(c, BurstAt(c, c.maxRequests + 1)) + 1
  {
    var k := c.maxRequests;
    WindowsOfBursts(c, k + 1);
    PerBurstIsProduct(c, k + 1);
    assert (k + 1) * (k + 1) == (k + 2) * k + 1;
  }

  /** The sliding bound, over intervals of every length, holds of every log with at most `n` checks in
      any window's worth of time if and only if `n` is below 2^32. */
  lemma SlidingBoundIff(c: Config, n: nat)
    requires c.window > 0 && c.maxRequests < U32
    ensures (forall times, a, b :: Sorted(times) && AtMost(c, times, n) ==>
               AdmittedIn(c, times, a, b) <= SlidingLimit(c, b - a))
            <==> n < U32
  {
    if n < U32 {
      forall times, a, b | Sorted(times) && AtMost(c, times, n)
        ensures AdmittedIn(c, times, a, b) <= SlidingLimit(c, b - a)
      {
        SlidingBound(c, times, a, b);
      }
    } else {
      WrappingExceedsSlidingBound(c);
      var times, b := Bursts(c, c.maxRequests, U32), BurstAt(c, c.maxRequests + 1);
      assert Sorted(times) && AtMost(c, times, n);
      assert AdmittedIn(c, times, 0, b) > SlidingLimit(c, b - 0);
    }
  }

  /** The configuration accepts a zero window; then every check starts a new one and is admitted,
      unless `maxRequests` is zero too. */
  lemma ZeroWindowAdmitsAll(c: Config, times: seq<int>, now: int)
    requires c.window == 0
    ensures Answer(c, times, now) == Admitted <==> c.maxRequests >= 1
  {
  }

  /** While the window that rejected a check runs, later checks leave its start alone and are
      rejected too. */
  lemma {:induction false} StaysExceeded(c: Config, times: seq<int>, later: seq<int>)
    requires Sorted(times + later) && NeverWraps(c, times + later)
    requires times != [] && c.window > 0
    requires EntryAfter(c, times).value.count > c.maxRequests
    requires forall i :: 0 <= i < |later| ==> later[i] < EntryAfter(c, times).value.startedAt + c.window
    ensures EntryAfter(c, times + later).value.startedAt == EntryAfter(c, times).value.startedAt
    ensures EntryAfter(c, times + later).value.count > c.maxRequests
    decreases |later|
  {
    if later == [] {
      assert times + later == times;
    } else {
      var front, last := later[..|later|-1], later[|later|-1];
      var all := times + later;
      assert all[..|all|-1] == times + front && all[|all|-1] == last;
      FewerNeverWraps(c, all);
      StaysExceeded(c, times, front);
      LastStep(c, all);
    }
  }

  lemma {:induction false} SortedPrefix(times: seq<int>, later: seq<int>)
    requires Sorted(times + later)
    ensures Sorted(times)
    decreases |later|
  {
    var all := times + later;
    if later == [] {
      assert all == times;
    } else if |all| >= 2 {
      assert all[..|all|-1] == times + later[..|later|-1];
      SortedPrefix(times, later[..|later|-1]);
    }
  }

  lemma {:induction false} PrefixNeverWraps(c: Config, times: seq<int>, later: seq<int>)
    requires NeverWraps(c, times + later)
    ensures NeverWraps(c, times)
    decreases |later|
  {
    var all := times + later;
    if later == [] {
      assert all == times;
    } else {
      assert all[..|all|-1] == times + later[..|later|-1];
      FewerNeverWraps(c, all);
      PrefixNeverWraps(c, times, later[..|later|-1]);
    }
  }

  lemma NextAfterExceeded(c: Config, times: seq<int>, later: seq<int>, next: int)
    requires Sorted(times + later + [next]) && NeverWraps(c, times + later + [next])
    requires times != [] && c.window > 0 && c.maxRequests >= 1
    requires EntryAfter(c, times).value.count > c.maxRequests
    requires forall i :: 0 <= i < |later| ==> later[i] < EntryAfter(c, times).value.startedAt + c.window
    ensures Answer(c, times + later, next) == Admitted <==> next >= EntryAfter(c, times).value.startedAt + c.window
  {
    var all := times + later;
    var whole := all + [next];
    assert whole[..|whole|-1] == all && whole[|whole|-1] == next;
    FewerNeverWraps(c, whole);
    StaysExceeded(c, times, later);
    LastStep(c, whole);
  }

  /** The answer the last of the checks got. */
  function LastAnswer(c: Config, times: seq<int>): Verdict
    requires times != []
  {
    Answer(c, times[..|times|-1], times[|times|-1])
  }

  /** A returned `retryAfter` is exact: until it has passed every further check of the key is
      rejected, and the first check at or after it is admitted. */
  lemma RetryAfterExact(c: Config, past: seq<int>, later: seq<int>, next: int)
    requires Sorted(past + later + [next]) && NeverWraps(c, past + later + [next])
    requires past != [] && c.window > 0 && c.maxRequests >= 1
    requires LastAnswer(c, past).Exceeded?
    requires forall i :: 0 <= i < |later| ==> later[i] < past[|past|-1] + LastAnswer(c, past).retryAfter
    ensures var retryAt := past[|past|-1] + LastAnswer(c, past).retryAfter;
            past[|past|-1] < retryAt && (Answer(c, past + later, next) == Admitted <==> next >= retryAt)
  {
    assert past + (later + [next]) == past + later + [next];
    SortedPrefix(past, later + [next]);
    PrefixNeverWraps(c, past, later + [next]);
    LastStep(c, past);
    NextAfterExceeded(c, past, later, next);
  }

  /** If the log is within `n` checks a window's length and its last answer so far named a time to
      wait, then the next check is admitted exactly once that time has passed. */
  ghost predicate WaitIsExact(c: Config, n: nat, past: seq<int>, later: seq<int>, next: int) {
    && past != [] && Sorted(past + later + [next]) && AtMost(c, past + later + [next], n)
    && LastAnswer(c, past).Exceeded?
    && (forall i :: 0 <= i < |later| ==> later[i] < past[|past|-1] + LastAnswer(c, past).retryAfter)
    ==> (Answer(c, past + later, next) == Admitted <==> next >= past[|past|-1] + LastAnswer(c, past).retryAfter)
  }

  /** `retryAfter` is exact for every log with at most `n` checks in any window's worth of time if and
      only if `n` is below 2^32, or the limit is so high that no check is ever rejected. */
  lemma RetryAfterExactIff(c: Config, n: nat)
    requires c.window > 0 && 1 <= c.maxRequests < U32
    ensures (forall past, later, next :: WaitIsExact(c, n, past, later, next)) <==> n < U32 || c.maxRequests == U32 - 1
  {
    if n < U32 || c.maxRequests == U32 - 1 {
      forall past, later, next ensures WaitIsExact(c, n, past, later, next) {
        if past != [] && Sorted(past + later + [next]) && LastAnswer(c, past).Exceeded? {
          assert past + (later + [next]) == past + later + [next];
          SortedPrefix(past, later + [next]);
          AnyStep(c, past);
          if !WaitIsExact(c, n, past, later, next) {
            RetryAfterExact(c, past, later, next);
          }
        }
      }
    } else {
      WrappingEndsTheWait(c, n);
    }
  }

  lemma BurstAnswer(c: Config, k: nat, n: nat)
    requires c.window > 0
    ensures Answer(c, Bursts(c, k, n), BurstAt(c, k)) == Admitted <==> (n + 1) % U32 <= c.maxRequests
    ensures Bursts(c, k, n + 1) == Bursts(c, k, n) + [BurstAt(c, k)]
  {
    BurstsCount(c, k, n);
    CheckOnceMore(c, k, n);
  }

  lemma BurstStarts(c: Config, n: nat)
    requires c.window > 0 && n > 0
    ensures EntryAfter(c, Bursts(c, 0, n)).Some? && EntryAfter(c, Bursts(c, 0, n)).value.startedAt == 0
  {
    BurstsCount(c, 0, n);
  }

  /** The last check of a burst shorter than 2^32 but beyond the limit is told to wait. */
  lemma BurstIsTold(c: Config, n: nat)
    requires c.window > 0 && c.maxRequests <= n < U32 - 1
    ensures Bursts(c, 0, n + 1) == Bursts(c, 0, n) + [0] && LastAnswer(c, Bursts(c, 0, n) + [0]) == Exceeded(c.window)
  {
    var front := Bursts(c, 0, n);
    BurstAnswer(c, 0, n);
    BurstStarts(c, n + 1);
    Below(n + 1);
    WaitsAWindow(c, front);
  }

  lemma Below(n: nat)
    requires n < U32
    ensures n % U32 == n
  {
  }

  /** The 2^32nd check of a burst is admitted while the one before it was told to wait. */
  lemma WrappingEndsTheWait(c: Config, n: nat)
    requires c.window > 0 && c.maxRequests < U32 - 1 && n >= U32
    ensures !WaitIsExact(c, n, Bursts(c, 0, U32 - 1), [], 0)
  {
    var past, none: seq<int> := Bursts(c, 0, U32 - 1), [];
    BurstsSorted(c, 0, U32);
    BurstsAtMost(c, 0, U32);
    BurstIsTold(c, U32 - 2);
    BurstAnswer(c, 0, U32 - 1);
    assert past + none == past;
    assert past + none + [0] == Bursts(c, 0, U32);
  }

  /** A check rejected at the instant its window started waits for a whole window. */
  lemma WaitsAWindow(c: Config, front: seq<int>)
    requires Answer(c, front, 0).Exceeded? && EntryAfter(c, front + [0]).value.startedAt == 0
    ensures LastAnswer(c, front + [0]) == Exceeded(c.window)
  {
    assert (front + [0])[..|front|] == front;
  }

  // -------- many keys --------

  type Log = seq<(string, int)>

  function WindowsAfter(c: Config, log: Log): map<string, Window> {
    if log == [] then map[]
    else CheckIn(c, WindowsAfter(c, log[..|log|-1]), log[|log|-1].0, log[|log|-1].1).0
  }

  /** The instants at which `key` was checked. */
  function Times(log: Log, key: string): seq<int> {
    if log == [] then []
    else
      var front, last := Times(log[..|log|-1], key), log[|log|-1];
      if last.0 == key then front + [last.1] else front
  }

  /** Per-key refinement: the shared map treats each key as a limiter of its own would. */
  lemma {:induction false} KeysAreIndependent(c: Config, log: Log, key: string, now: int)
    ensures Entry(WindowsAfter(c, log), key) == EntryAfter(c, Times(log, key))
    ensures CheckIn(c, WindowsAfter(c, log), key, now).1 == Answer(c, Times(log, key), now)
  {
    if log != [] {
      var front, last := log[..|log|-1], log[|log|-1];
      KeysAreIndependent(c, front, key, now);
      if last.0 == key {
        var times := Times(front, key);
        assert (times + [last.1])[..|times|] == times;
      }
    }
  }

  // -------- logins --------

  datatype Login = Login(ip: string, account: string, now: int)

  /** No login comes before the previous one. */
  predicate InOrder(logins: seq<Login>) {
    |logins| < 2 || (InOrder(logins[..|logins|-1]) && logins[|logins|-2].now <= logins[|logins|-1].now)
  }

  /** The checks the gate makes for a sequence of logins. */
  function GateLog(c: Config, logins: seq<Login>): Log {
    if logins == [] then []
    else
      var log, last := GateLog(c, logins[..|logins|-1]), logins[|logins|-1];
      var byIp := log + [(IpKey(last.ip), last.now)];
      if CheckIn(c, WindowsAfter(c, log), IpKey(last.ip), last.now).1.Exceeded? then byIp
      else byIp + [(AccountKey(last.account), last.now)]
  }

  /** The map that a sequence of logins leaves, one gate after another. */
  function GateAfter(c: Config, logins: seq<Login>): map<string, Window> {
    if logins == [] then map[]
    else
      var last := logins[|logins|-1];
      LoginGate(c, GateAfter(c, logins[..|logins|-1]), last.ip, last.account, last.now).0
  }

  /** Whether the gate lets a login through to the credential check. */
  predicate Passes(c: Config, earlier: seq<Login>, login: Login) {
    LoginGate(c, GateAfter(c, earlier), login.ip, login.account, login.now).1 == Admitted
  }

  /** Logins that reached the credential check of `account` in [a, b). */
  function CredentialChecks(c: Config, logins: seq<Login>, account: string, a: int, b: int): nat {
    if logins == [] then 0
    else
      var front, last := logins[..|logins|-1], logins[|logins|-1];
      CredentialChecks(c, front, account, a, b) +
      if last.account == account && a <= last.now < b && Passes(c, front, last) then 1 else 0
  }

  lemma SortedAppend(times: seq<int>, now: int)
    requires SortedUpTo(times, now)
    ensures SortedUpTo(times + [now], now)
  {
    assert (times + [now])[..|times|] == times;
  }

  lemma TimesAppend(log: Log, entry: (string, int), key: string)
    ensures Times(log + [entry], key) == if entry.0 == key then Times(log, key) + [entry.1] else Times(log, key)
  {
    assert (log + [entry])[..|log|] == log;
  }

  lemma WindowsAppend(c: Config, log: Log, entry: (string, int))
    ensures WindowsAfter(c, log + [entry]) == CheckIn(c, WindowsAfter(c, log), entry.0, entry.1).0
  {
    assert (log + [entry])[..|log|] == log;
  }

  lemma OneMoreLogin(c: Config, logins: seq<Login>, login: Login)
    ensures var log := GateLog(c, logins);
            var byIp := log + [(IpKey(login.ip), login.now)];
            GateLog(c, logins + [login]) ==
              if CheckIn(c, WindowsAfter(c, log), IpKey(login.ip), login.now).1.Exceeded? then byIp
              else byIp + [(AccountKey(login.account), login.now)]
  {
    assert (logins + [login])[..|logins|] == logins;
  }

  /** The gate's map is the one its checks leave, address and account alike. */
  lemma {:induction false} GateLeavesItsLog(c: Config, logins: seq<Login>)
    ensures GateAfter(c, logins) == WindowsAfter(c, GateLog(c, logins))
  {
    if logins != [] {
      var front, last := logins[..|logins|-1], logins[|logins|-1];
      GateLeavesItsLog(c, front);
      OneGate(c, front, last);
      assert front + [last] == logins;
    }
  }

  lemma OneGate(c: Config, earlier: seq<Login>, login: Login)
    ensures LoginGate(c, WindowsAfter(c, GateLog(c, earlier)), login.ip, login.account, login.now).0 ==
            WindowsAfter(c, GateLog(c, earlier + [login]))
  {
    var log := GateLog(c, earlier);
    var ipEntry, accountEntry := (IpKey(login.ip), login.now), (AccountKey(login.account), login.now);
    OneMoreLogin(c, earlier, login);
    WindowsAppend(c, log, ipEntry);
    WindowsAppend(c, log + [ipEntry], accountEntry);
  }

  /** The gate's answer: the address's own when that rejects, else the account's own, waits included. */
  lemma GateAnswer(c: Config, earlier: seq<Login>, login: Login)
    ensures var byIp := Answer(c, Times(GateLog(c, earlier), "ip:" + login.ip), login.now);
            var byAccount := Answer(c, Times(GateLog(c, earlier), "acct:" + login.account), login.now);
            LoginGate(c, GateAfter(c, earlier), login.ip, login.account, login.now).1 ==
              if byIp.Exceeded? then byIp else byAccount
  {
    var log := GateLog(c, earlier);
    var ipEntry := (IpKey(login.ip), login.now);
    GateLeavesItsLog(c, earlier);
    KeysAreIndependent(c, log, IpKey(login.ip), login.now);
    WindowsAppend(c, log, ipEntry);
    KeysAreIndependent(c, log + [ipEntry], AccountKey(login.account), login.now);
    TimesAppend(log, ipEntry, AccountKey(login.account));
    KeysIdentify(login.ip, login.account, login.account);
  }

  predicate IpPasses(c: Config, earlier: seq<Login>, login: Login) {
    CheckIn(c, WindowsAfter(c, GateLog(c, earlier)), IpKey(login.ip), login.now).1 == Admitted
  }

  /** What a login adds to the checks of an account's key. */
  lemma GateAdds(c: Config, earlier: seq<Login>, login: Login, account: string)
    ensures Times(GateLog(c, earlier + [login]), AccountKey(account)) ==
            Times(GateLog(c, earlier), AccountKey(account)) + if login.account == account &&
                IpPasses(c, earlier, login) then [login.now] else []
  {
    var log, key := GateLog(c, earlier), AccountKey(account);
    var ipEntry := (IpKey(login.ip), login.now);
    OneMoreLogin(c, earlier, login);
    TimesAppend(log, ipEntry, key);
    TimesAppend(log + [ipEntry], (AccountKey(login.account), login.now), key);
    assert Times(log, key) + [] == Times(log, key);
    KeysIdentify(login.ip, login.account, account);
  }

  lemma KeysIdentify(ip: string, account: string, other: string)
    ensures IpKey(ip) != AccountKey(account) && IpKey(ip) != AccountKey(other)
    ensures AccountKey(account) == AccountKey(other) <==> account == other
  {
    assert IpKey(ip)[0] != AccountKey(account)[0] && IpKey(ip)[0] != AccountKey(other)[0];
    assert AccountKey(account)[5..] == account && AccountKey(other)[5..] == other;
  }

  /** A login gets through when both its keys admit it, the account's by its own checks alone. */
  lemma PassesIff(c: Config, earlier: seq<Login>, login: Login)
    ensures Passes(c, earlier, login) <==>
            IpPasses(c, earlier, login) &&
                Answer(c, Times(GateLog(c, earlier), AccountKey(login.account)), login.now) == Admitted
  {
    GateAnswer(c, earlier, login);
    KeysAreIndependent(c, GateLog(c, earlier), IpKey(login.ip), login.now);
  }

  lemma OneMoreCredentialCheck(c: Config, logins: seq<Login>, login: Login, account: string, a: int, b: int)
    ensures CredentialChecks(c, logins + [login], account, a, b) ==
            CredentialChecks(c, logins, account, a, b) +
            if login.account == account && a <= login.now < b && Passes(c, logins, login) then 1 else 0
  {
    assert (logins + [login])[..|logins|] == logins;
  }

  lemma LoginAdmits(c: Config, logins: seq<Login>, login: Login, account: string, a: int, b: int)
    ensures AdmittedIn(c, Times(GateLog(c, logins + [login]), AccountKey(account)), a, b) ==
            AdmittedIn(c, Times(GateLog(c, logins), AccountKey(account)), a, b) +
            if login.account == account && a <= login.now < b && Passes(c, logins, login) then 1 else 0
  {
    GateAdds(c, logins, login, account);
    PassesIff(c, logins, login);
    var times := Times(GateLog(c, logins), AccountKey(account));
    OneMoreCheck(c, times, login.now, a, b);
    assert times + [] == times;
  }

  /** The credential checks of an account are exactly the admitted checks of its key, whatever
      addresses the logins come from. */
  lemma {:induction false} CredentialChecksAreAdmissions(c: Config, logins: seq<Login>, account: string, a: int, b: int)
    ensures CredentialChecks(c, logins, account, a, b) ==
            AdmittedIn(c, Times(GateLog(c, logins), AccountKey(account)), a, b)
  {
    if logins != [] {
      var front, last := logins[..|logins|-1], logins[|logins|-1];
      assert logins == front + [last];
      CredentialChecksAreAdmissions(c, front, account, a, b);
      OneMoreCredentialCheck(c, front, last, account, a, b);
      LoginAdmits(c, front, last, account, a, b);
    }
  }

  predicate SortedUpTo(times: seq<int>, last: int) {
    Sorted(times) && (times == [] || times[|times|-1] <= last)
  }

  lemma LogStaysSorted(log: Log, entry: (string, int), key: string)
    requires SortedUpTo(Times(log, key), entry.1)
    ensures SortedUpTo(Times(log + [entry], key), entry.1)
  {
    TimesAppend(log, entry, key);
    SortedAppend(Times(log, key), entry.1);
  }

  lemma {:induction false} GateTimesSorted(c: Config, logins: seq<Login>, key: string)
    requires InOrder(logins)
    ensures SortedUpTo(Times(GateLog(c, logins), key), if logins == [] then 0 else logins[|logins|-1].now)
    ensures logins == [] ==> Times(GateLog(c, logins), key) == []
  {
    if logins != [] {
      var front, last := logins[..|logins|-1], logins[|logins|-1];
      var log := GateLog(c, front);
      GateTimesSorted(c, front, key);
      assert SortedUpTo(Times(log, key), last.now);
      LogStaysSorted(log, (IpKey(last.ip), last.now), key);
      LogStaysSorted(log + [(IpKey(last.ip), last.now)], (AccountKey(last.account), last.now), key);
    }
  }

  /** However many addresses hammer one account, its credential checks obey the sliding bound. */
  lemma AccountBound(c: Config, logins: seq<Login>, account: string, a: int, b: int)
    requires InOrder(logins)
    requires c.window > 0
    requires NeverWraps(c, Times(GateLog(c, logins), AccountKey(account)))
    ensures CredentialChecks(c, logins, account, a, b) <= SlidingLimit(c, b - a)
  {
    CredentialChecksAreAdmissions(c, logins, account, a, b);
    GateTimesSorted(c, logins, AccountKey(account));
    SlidingBound(c, Times(GateLog(c, logins), AccountKey(account)), a, b);
  }

  // -------- and its exact condition --------

  /** Logins from as many addresses as there are logins, at the instants of `Bursts`. */
  function Crowd(c: Config, account: string, k: nat, n: nat): seq<Login>
    decreases k, n
  {
    if n > 0 then
      var before := Crowd(c, account, k, n - 1);
      before + [Login(Address(|before|), account, BurstAt(c, k))]
    else if k == 0 then [] else Crowd(c, account, k - 1, U32)
  }

  function Address(i: nat): string {
    if i == 0 then "" else Address(i - 1) + "x"
  }

  lemma {:induction false} AddressLength(i: nat)
    ensures |Address(i)| == i
  {
    if i > 0 {
      AddressLength(i - 1);
    }
  }

  /** What a login from a new address, let in, adds to the checks of each key. */
  lemma NewAddressLogsIn(c: Config, logins: seq<Login>, login: Login, key: string)
    requires c.window > 0 && c.maxRequests >= 1 && Times(GateLog(c, logins), IpKey(login.ip)) == []
    ensures Times(GateLog(c, logins + [login]), key) ==
            Times(GateLog(c, logins), key) + if key == IpKey(login.ip) || key == AccountKey(login.account)
                then [login.now] else []
  {
    var log := GateLog(c, logins);
    var ipEntry, accountEntry := (IpKey(login.ip), login.now), (AccountKey(login.account), login.now);
    OneMoreLogin(c, logins, login);
    KeysAreIndependent(c, log, IpKey(login.ip), login.now);
    CheckStarts(c, None, login.now);
    TimesAppend(log, ipEntry, key);
    TimesAppend(log + [ipEntry], accountEntry, key);
    KeysIdentify(login.ip, login.account, login.account);
  }

  /** No later address has been checked. */
  lemma {:induction false} CrowdLeavesAddresses(c: Config, account: string, k: nat, n: nat, i: nat)
    requires c.window > 0 && c.maxRequests >= 1 && i >= |Crowd(c, account, k, n)|
    ensures Times(GateLog(c, Crowd(c, account, k, n)), IpKey(Address(i))) == []
    decreases k, n
  {
    if n > 0 {
      var before := Crowd(c, account, k, n - 1);
      CrowdLeavesAddresses(c, account, k, n - 1, |before|);
      CrowdLeavesAddresses(c, account, k, n - 1, i);
      NewAddressLogsIn(c, before, Login(Address(|before|), account, BurstAt(c, k)), IpKey(Address(i)));
      KeysDiffer(|before|, i, account);
    } else if k > 0 {
      CrowdLeavesAddresses(c, account, k - 1, U32, i);
    }
  }

  lemma KeysDiffer(i: nat, j: nat, account: string)
    ensures i != j ==> IpKey(Address(i)) != IpKey(Address(j))
    ensures IpKey(Address(j)) != AccountKey(account)
  {
    AddressLength(i);
    AddressLength(j);
    assert IpKey(Address(i))[3..] == Address(i) && IpKey(Address(j))[3..] == Address(j);
    KeysIdentify(Address(j), account, account);
  }

  /** Nobody in the crowd is stopped by address, and the account sees every login. */
  lemma {:induction false} CrowdTimes(c: Config, account: string, k: nat, n: nat)
    requires c.window > 0 && c.maxRequests >= 1
    ensures Times(GateLog(c, Crowd(c, account, k, n)), AccountKey(account)) == Bursts(c, k, n)
    decreases k, n
  {
    if n > 0 {
      var before := Crowd(c, account, k, n - 1);
      CrowdTimes(c, account, k, n - 1);
      CrowdLeavesAddresses(c, account, k, n - 1, |before|);
      NewAddressLogsIn(c, before, Login(Address(|before|), account, BurstAt(c, k)), AccountKey(account));
    } else if k > 0 {
      CrowdTimes(c, account, k - 1, U32);
    }
  }

  lemma InOrderAppend(logins: seq<Login>, login: Login)
    requires InOrder(logins) && (logins == [] || logins[|logins|-1].now <= login.now)
    ensures InOrder(logins + [login])
  {
    assert (logins + [login])[..|logins|] == logins;
  }

  lemma {:induction false} CrowdInOrder(c: Config, account: string, k: nat, n: nat)
    ensures var crowd := Crowd(c, account, k, n);
            InOrder(crowd) && (crowd == [] || crowd[|crowd|-1].now <= BurstAt(c, k))
    decreases k, n
  {
    if n > 0 {
      var before := Crowd(c, account, k, n - 1);
      CrowdInOrder(c, account, k, n - 1);
      InOrderAppend(before, Login(Address(|before|), account, BurstAt(c, k)));
    } else if k > 0 {
      CrowdInOrder(c, account, k - 1, U32);
    }
  }

  /** The bound per account holds of every run of logins that check the account at most `n` times in any
      window's length if and only if `n` is below 2^32. */
  lemma AccountBoundIff(c: Config, account: string, n: nat)
    requires c.window > 0 && c.maxRequests < U32
    ensures (forall logins, a, b :: InOrder(logins) && AtMost(c, Times(GateLog(c, logins), AccountKey(account)), n) ==>
               CredentialChecks(c, logins, account, a, b) <= SlidingLimit(c, b - a))
            <==> n < U32
  {
    if n < U32 {
      forall logins, a, b | InOrder(logins) && AtMost(c, Times(GateLog(c, logins), AccountKey(account)), n)
        ensures CredentialChecks(c, logins, account, a, b) <= SlidingLimit(c, b - a)
      {
        AccountBound(c, logins, account, a, b);
      }
    } else {
      var logins, b := LoginsExceedBound(c, account);
      assert AtMost(c, Times(GateLog(c, logins), AccountKey(account)), n);
      assert CredentialChecks(c, logins, account, 0, b) > SlidingLimit(c, b - 0);
    }
  }

  /** A crowd of addresses exceeds a positive limit, a flood from one address the zero limit. */
  lemma LoginsExceedBound(c: Config, account: string) returns (logins: seq<Login>, b: nat)
    requires c.window > 0 && c.maxRequests < U32
    ensures InOrder(logins) && AtMost(c, Times(GateLog(c, logins), AccountKey(account)), U32)
    ensures CredentialChecks(c, logins, account, 0, b) > SlidingLimit(c, b)
  {
    b := BurstAt(c, c.maxRequests + 1);
    if c.maxRequests > 0 {
      logins := Crowd(c, account, c.maxRequests, U32);
      CrowdExceedsBound(c, account);
    } else {
      var n := RoundsOfSquare();
      logins := Flood(account, n);
      FloodExceedsBound(c, account, n);
    }
  }

  /** `n` logins to one account from one address at one instant. */
  function Flood(account: string, n: nat): seq<Login> {
    if n == 0 then [] else Flood(account, n - 1) + [Login("", account, 0)]
  }

  lemma {:induction false} FloodInOrder(account: string, n: nat)
    ensures InOrder(Flood(account, n)) &&
            (n > 0 ==> Flood(account, n) != [] && Flood(account, n)[|Flood(account, n)|-1].now == 0)
  {
    if n > 0 {
      FloodInOrder(account, n - 1);
      InOrderAppend(Flood(account, n - 1), Login("", account, 0));
    }
  }

  /** What a login adds to the checks of its address. */
  lemma AddressAdds(c: Config, earlier: seq<Login>, login: Login)
    ensures Times(GateLog(c, earlier + [login]), IpKey(login.ip)) == Times(GateLog(c, earlier), IpKey(login.ip)) +
            [login.now]
    ensures IpPasses(c, earlier, login) <==>
            Answer(c, Times(GateLog(c, earlier), IpKey(login.ip)), login.now) == Admitted
  {
    var log, key := GateLog(c, earlier), IpKey(login.ip);
    OneMoreLogin(c, earlier, login);
    KeysAreIndependent(c, log, key, login.now);
    TimesAppend(log, (key, login.now), key);
    TimesAppend(log + [(key, login.now)], (AccountKey(login.account), login.now), key);
    KeysIdentify(login.ip, login.account, login.account);
  }

  /** The address has been checked for every login of the flood. */
  predicate SeenByAddress(c: Config, account: string, n: nat) {
    Times(GateLog(c, Flood(account, n)), IpKey("")) == Bursts(c, 0, n)
  }

  lemma NextByAddress(c: Config, account: string, n: nat)
    requires SeenByAddress(c, account, n)
    ensures SeenByAddress(c, account, n + 1)
  {
    AddressAdds(c, Flood(account, n), Login("", account, 0));
  }

  lemma {:induction false} FloodAddress(c: Config, account: string, n: nat)
    ensures SeenByAddress(c, account, n)
  {
    if n > 0 {
      FloodAddress(c, account, n - 1);
      NextByAddress(c, account, n - 1);
    }
  }

  lemma FloodPasses(c: Config, account: string, n: nat)
    requires c.window > 0
    ensures IpPasses(c, Flood(account, n), Login("", account, 0)) <==> (n + 1) % U32 <= c.maxRequests
  {
    FloodAddress(c, account, n);
    AddressAdds(c, Flood(account, n), Login("", account, 0));
    BurstAnswer(c, 0, n);
  }

  /** How many of the first `n` checks complete a round of 2^32. */
  function Rounds(n: nat): nat {
    if n == 0 then 0 else Rounds(n - 1) + if n % U32 == 0 then 1 else 0
  }

  lemma {:induction false} RoundsIsQuotient(n: nat)
    ensures Rounds(n) == n / U32
  {
    if n > 0 {
      RoundsIsQuotient(n - 1);
      NextQuotient(n - 1);
    }
  }

  lemma NextQuotient(n: nat)
    ensures (n + 1) / U32 == n / U32 + if (n + 1) % U32 == 0 then 1 else 0
  {
  }

  lemma RoundsOfSquare() returns (n: nat)
    ensures Rounds(n) == U32
  {
    n := U32 * U32;
    RoundsIsQuotient(n);
  }

  /** What one more login of the flood adds to the account's checks, `passes` telling whether its address
      is admitted. */
  lemma FloodStep(c: Config, account: string, n: nat, k: nat, passes: bool)
    requires Times(GateLog(c, Flood(account, n)), AccountKey(account)) == Bursts(c, 0, k)
    requires passes <==> IpPasses(c, Flood(account, n), Login("", account, 0))
    ensures Times(GateLog(c, Flood(account, n + 1)), AccountKey(account)) == Bursts(c, 0, if passes then k + 1 else k)
  {
    var times := Bursts(c, 0, k);
    GateAdds(c, Flood(account, n), Login("", account, 0), account);
    assert times + [] == times;
  }

  /** The account has seen `k` checks, one for each round of the flood. */
  predicate SeenInRounds(c: Config, account: string, n: nat, k: nat) {
    k == Rounds(n) && Times(GateLog(c, Flood(account, n)), AccountKey(account)) == Bursts(c, 0, k)
  }

  /** Under the zero limit an address passes at every 2^32nd check. */
  lemma NextInRounds(c: Config, account: string, n: nat, k: nat) returns (k': nat)
    requires c.window > 0 && c.maxRequests == 0 && SeenInRounds(c, account, n, k)
    ensures SeenInRounds(c, account, n + 1, k')
  {
    var passes := IpPasses(c, Flood(account, n), Login("", account, 0));
    FloodPasses(c, account, n);
    FloodStep(c, account, n, k, passes);
    k' := if passes then k + 1 else k;
  }

  lemma {:induction false} FloodAccount(c: Config, account: string, n: nat) returns (k: nat)
    requires c.window > 0 && c.maxRequests == 0
    ensures SeenInRounds(c, account, n, k)
  {
    k := 0;
    if n > 0 {
      k := FloodAccount(c, account, n - 1);
      k := NextInRounds(c, account, n - 1, k);
    }
  }

  lemma FloodExceedsBound(c: Config, account: string, n: nat)
    requires c.window > 0 && c.maxRequests == 0 && Rounds(n) == U32
    ensures var logins, b := Flood(account, n), BurstAt(c, c.maxRequests + 1);
            && InOrder(logins) && AtMost(c, Times(GateLog(c, logins), AccountKey(account)), U32)
            && CredentialChecks(c, logins, account, 0, b) > SlidingLimit(c, b)
  {
    var logins, b := Flood(account, n), BurstAt(c, c.maxRequests + 1);
    FloodInOrder(account, n);
    var k := FloodAccount(c, account, n);
    CredentialChecksAreAdmissions(c, logins, account, 0, b);
    WrappingExceedsSlidingBound(c);
  }

  lemma CrowdExceedsBound(c: Config, account: string)
    requires c.window > 0 && 1 <= c.maxRequests < U32
    ensures var logins, b := Crowd(c, account, c.maxRequests, U32), BurstAt(c, c.maxRequests + 1);
            && InOrder(logins) && AtMost(c, Times(GateLog(c, logins), AccountKey(account)), U32)
            && CredentialChecks(c, logins, account, 0, b) > SlidingLimit(c, b)
  {
    var logins, b := Crowd(c, account, c.maxRequests, U32), BurstAt(c, c.maxRequests + 1);
    CrowdInOrder(c, account, c.maxRequests, U32);
    CrowdTimes(c, account, c.maxRequests, U32);
    CredentialChecksAreAdmissions(c, logins, account, 0, b);
    WrappingExceedsSlidingBound(c);
  }
}
