/** Interleavings of session use cases (crates/application/src/session.rs) over one store, exact or
    through Postgres: every step is one store call of one request. */
module SessionRaces {
  import opened Common
  import opened Sessions

  /** Where a request stands between its store calls. */
  datatype Request =
    | ToTouch(token: Token, rotating: bool, found: Session, now: nat)
    | ToClean(token: Token)
    | ToDelete(token: Token, found: Session)
    | ToIssue(token: Token, found: Session)
    | Done(answer: Answer)

  /** `origin` maps every token a generator ever returned to the token of the login it descends from. */
  datatype State = State(rows: Rows, origin: map<Token, Token>, requests: map<nat, Request>)

  const INIT := State(map[], map[], map[])

  datatype Step =
    | Issue(token: Token, admin: string, role: string, csrf: string, now: nat, fault: Fault)
    | Find(r: nat, token: Token, rotating: bool, now: nat, fault: Fault)
    | Continue(r: nat, token: Token, csrf: string, now: nat, fault: Fault)
    | Revoke(token: Token, fault: Fault)

  datatype Config = Config(policy: Policy, adapter: Adapter)

  /** The insert of `start`. */
  function InsertNew(c: Config, rows: Rows, token: Token, admin: string, role: string, csrf: string, now: nat,
      fault: Fault): Rows {
    if fault == Lost then rows
    else Insert(c.adapter, rows, token, Session(admin, role, csrf, now, now + c.policy.absoluteTimeout, now))
  }

  /** A request's next call; `token`, `csrf` and `now` matter only to the last call of a rotation. */
  function Advance(c: Config, rows: Rows, q: Request, token: Token, csrf: string, now: nat, fault: Fault)
    : (Rows, Request)
  {
    match q
    case ToTouch(k, rotating, found, at) =>
      (if fault == Lost then rows else Touch(c.adapter, rows, k, at),
       if fault != Fine then Done(Internal)
       else if rotating then ToDelete(k, found) else Done(Ok(found.admin, found.role, found.csrf)))
    case ToClean(k) => (if fault == Lost then rows else Delete(rows, k), Done(Expired))
    case ToDelete(k, found) =>
      (if fault == Lost then rows else Delete(rows, k), if fault == Fine then ToIssue(k, found) else Done(Internal))
    case ToIssue(_, found) =>
      (InsertNew(c, rows, token, found.admin, found.role, csrf, now, fault),
       Done(if fault == Fine then Ok(found.admin, found.role, csrf) else Internal))
    case Done(_) => (rows, q)
  }

  /** What a request is after its first call. */
  function Opened(c: Config, rows: Rows, token: Token, rotating: bool, now: nat, fault: Fault): Request {
    if fault != Fine then Done(Internal)
    else if token !in rows then Done(NotFound)
    else if IsExpired(c.policy, rows[token], now) then ToClean(token)
    else ToTouch(token, rotating, rows[token], now)
  }

  /** One step; one that is not enabled changes nothing. The generator never repeats a token. */
  function Next(c: Config, s: State, step: Step): State {
    match step
    case Issue(token, admin, role, csrf, now, fault) =>
      if token in s.origin then s
      else s.(rows := InsertNew(c, s.rows, token, admin, role, csrf, now, fault), origin := s.origin[token := token])
    case Find(r, token, rotating, now, fault) =>
      if r in s.requests then s
      else s.(requests := s.requests[r := Opened(c, s.rows, token, rotating, now, fault)])
    case Continue(r, token, csrf, now, fault) =>
      if r !in s.requests || (s.requests[r].ToIssue? && token in s.origin) then s
      else
        var q := s.requests[r];
        var (rows, q') := Advance(c, s.rows, q, token, csrf, now, fault);
        State(rows,
              if q.ToIssue? && q.token in s.origin then s.origin[token := s.origin[q.token]] else s.origin,
              s.requests[r := q'])
    case Revoke(token, fault) => s.(rows := if fault == Lost then s.rows else Delete(s.rows, token))
  }

  function Run(c: Config, s: State, steps: seq<Step>): State
    decreases |steps|
  {
    if steps == [] then s else Run(c, Next(c, s, steps[0]), steps[1..])
  }

  // -------- the sequential use cases are runs of one request --------

  /** A request left alone does what `authenticate` and `rotate` do, call by call. */
  function Alone(c: Config, rows: Rows, k: Token, rotating: bool, token: Token, csrf: string, now: nat, restart: nat,
      f: Faults): (Rows, Request) {
    var q := Opened(c, rows, k, rotating, now, f.find);
    var (rows1, q1) := Advance(c, rows, q, token, csrf, restart, if q.ToClean? then f.cleanup else f.touch);
    var (rows2, q2) := Advance(c, rows1, q1, token, csrf, restart, f.delete);
    Advance(c, rows2, q2, token, csrf, restart, f.insert)
  }

  lemma RequestAloneIsAuthenticate(c: Config, rows: Rows, k: Token, token: Token, csrf: string, now: nat,
      restart: nat, f: Faults)
    ensures var (rows', answer) := Authenticate(c.policy, c.adapter, rows, k, now, f);
            Alone(c, rows, k, false, token, csrf, now, restart, f) == (rows', Done(answer))
  {
  }

  lemma RequestAloneIsRotate(c: Config, rows: Rows, k: Token, token: Token, csrf: string, now: nat, restart: nat,
      f: Faults)
    requires token !in rows
    ensures var (rows', issued) := Rotate(c.policy, c.adapter, rows, k, token, csrf, now, restart, f);
            var (alone, q) := Alone(c, rows, k, true, token, csrf, now, restart, f);
            && alone == rows' && q.Done?
            && (issued.Issued? ==> q.answer == Ok(rows'[token].admin, rows'[token].role, issued.csrf))
            && (issued.Refused? ==> q.answer == issued.why && !q.answer.Ok?)
  {
    if token != k {
      RotateMeaning(c.policy, c.adapter, rows, k, token, csrf, now, restart, f);
    }
  }

  lemma IssueIsStart(c: Config, s: State, token: Token, admin: string, role: string, csrf: string, now: nat, f: Faults)
    requires token !in s.origin && token !in s.rows
    ensures Next(c, s, Issue(token, admin, role, csrf, now, f.insert)).rows
            == Start(c.policy, c.adapter, s.rows, token, admin, role, csrf, now, f).0
  {
  }

  lemma RevokeStepIsRevoke(c: Config, s: State, token: Token, f: Faults)
    ensures Next(c, s, Revoke(token, f.delete)) == s.(rows := Logoff(s.rows, token, f))
    ensures token in Next(c, s, Revoke(token, f.delete)).rows <==> token in s.rows && f.delete == Lost
  {
  }

  // -------- no resurrection --------

  /** Once an issued token has no row, whether revoked, rotated away or cleaned up, no continuation of
      any request, a late touch included, gives it one again. */
  lemma {:induction false} DeletedStaysDeleted(c: Config, s: State, steps: seq<Step>, k: Token)
    requires k in s.origin && k !in s.rows
    ensures k in Run(c, s, steps).origin && k !in Run(c, s, steps).rows
    decreases |steps|
  {
    if steps != [] {
      DeletedStaysDeleted(c, Next(c, s, steps[0]), steps[1..], k);
    }
  }

  // -------- identities --------

  predicate GivenByLogin(steps: seq<Step>, login: Token, admin: string, role: string) {
    exists i :: 0 <= i < |steps| && steps[i].Issue? && steps[i].token == login && steps[i].admin == admin &&
        steps[i].role == role
  }

  /** The row's token was issued, and its admin and role are those of a login event of its origin. */
  predicate Traced(s: State, steps: seq<Step>, k: Token, row: Session) {
    k in s.origin && GivenByLogin(steps, s.origin[k], row.admin, row.role)
  }

  predicate RequestTraced(s: State, steps: seq<Step>, q: Request) {
    q.ToTouch? || q.ToDelete? || q.ToIssue? ==> Traced(s, steps, q.token, q.found)
  }

  ghost predicate FromLogins(s: State, steps: seq<Step>) {
    && (forall k <- s.rows :: Traced(s, steps, k, s.rows[k]))
    && (forall r <- s.requests :: RequestTraced(s, steps, s.requests[r]))
  }

  lemma GivenStaysGiven(done: seq<Step>, step: Step)
    ensures forall login, admin, role | GivenByLogin(done, login, admin, role) ::
            GivenByLogin(done + [step], login, admin, role)
    ensures step.Issue? ==> GivenByLogin(done + [step], step.token, step.admin, step.role)
  {
    var done' := done + [step];
    forall login, admin, role | GivenByLogin(done, login, admin, role) ensures GivenByLogin(done', login, admin, role) {
      var i :| 0 <= i < |done| && done[i].Issue? && done[i].token == login && done[i].admin == admin &&
          done[i].role == role;
      assert done'[i] == done[i];
    }
    assert done'[|done|] == step;
  }

  /** What the next call of a request leaves of the rows. */
  lemma AdvanceTraced(c: Config, s: State, done: seq<Step>, step: Step)
    requires FromLogins(s, done) && step.Continue? && step.r in s.requests
    ensures FromLogins(Next(c, s, step), done)
  {
    var s', q := Next(c, s, step), s.requests[step.r];
    assert RequestTraced(s, done, q);
    forall k <- s'.rows ensures Traced(s', done, k, s'.rows[k]) {
      assert k in s.rows ==> Traced(s, done, k, s.rows[k]);
    }
    forall r <- s'.requests ensures RequestTraced(s', done, s'.requests[r]) {
      assert RequestTraced(s, done, s.requests[r]);
    }
  }

  lemma StepKeepsFromLogins(c: Config, s: State, done: seq<Step>, step: Step)
    requires FromLogins(s, done)
    ensures FromLogins(Next(c, s, step), done + [step])
  {
    var s' := Next(c, s, step);
    GivenStaysGiven(done, step);
    if step.Continue? && step.r in s.requests {
      AdvanceTraced(c, s, done, step);
    } else {
      forall k <- s'.rows ensures Traced(s', done + [step], k, s'.rows[k]) {
        assert k in s.rows ==> Traced(s, done, k, s.rows[k]);
      }
      forall r <- s'.requests ensures RequestTraced(s', done + [step], s'.requests[r]) {
        assert r in s.requests ==> RequestTraced(s, done, s.requests[r]);
      }
    }
  }

  /** In every run each row carries the admin and role of the login it descends from. */
  lemma {:induction false} IdentitiesComeFromLogins(c: Config, s: State, done: seq<Step>, steps: seq<Step>)
    requires FromLogins(s, done)
    ensures FromLogins(Run(c, s, steps), done + steps)
    decreases |steps|
  {
    if steps == [] {
      assert done + steps == done;
    } else {
      StepKeepsFromLogins(c, s, done, steps[0]);
      IdentitiesComeFromLogins(c, Next(c, s, steps[0]), done + [steps[0]], steps[1..]);
      assert done + [steps[0]] + steps[1..] == done + steps;
    }
  }

  // -------- one live token per login --------

  /** A rotation that has read the token's row and not yet deleted it. */
  predicate Holds(q: Request, k: Token) {
    (q.ToTouch? && q.rotating && q.token == k) || (q.ToDelete? && q.token == k)
  }

  ghost predicate Held(s: State, k: Token) {
    exists r :: r in s.requests && Holds(s.requests[r], k)
  }

  /** A rotation reads the row of a live token that another rotation holds. */
  ghost predicate Overlaps(c: Config, s: State, step: Step) {
    && step.Find? && step.rotating && step.fault == Fine && step.r !in s.requests
    && step.token in s.rows && !IsExpired(c.policy, s.rows[step.token], step.now)
    && Held(s, step.token)
  }

  /** Rotations of one token never overlap. */
  ghost predicate Serialized(c: Config, s: State, steps: seq<Step>)
    decreases |steps|
  {
    steps == [] || (!Overlaps(c, s, steps[0]) && Serialized(c, Next(c, s, steps[0]), steps[1..]))
  }

  /** Two different rows descend from one login. */
  predicate Siblings(s: State, a: Token, b: Token) {
    a in s.rows && b in s.rows && a != b && a in s.origin && b in s.origin && s.origin[a] == s.origin[b]
  }

  ghost predicate Forked(s: State) {
    exists a, b :: Siblings(s, a, b)
  }

  /** Two tokens of one login, both of which authenticate at `now`. */
  ghost predicate ForkedLive(c: Config, s: State, now: nat) {
    exists a, b :: Siblings(s, a, b) && !IsExpired(c.policy, s.rows[a], now) && !IsExpired(c.policy, s.rows[b], now)
  }

  /** A rotation that may still issue a token in place of `k`. */
  predicate Pursues(q: Request, k: Token) {
    Holds(q, k) || (q.ToIssue? && q.token == k)
  }

  /** A token that is live, or that some rotation will replace. */
  ghost predicate Active(s: State, k: Token) {
    k in s.rows || exists r :: r in s.requests && Pursues(s.requests[r], k)
  }

  ghost predicate OneActive(s: State) {
    && (forall k :: Active(s, k) ==> k in s.origin && s.origin[k] in s.origin)
    && (forall a, b :: Active(s, a) && Active(s, b) && a != b ==> s.origin[a] != s.origin[b])
    && (forall q, r, k |
          q in s.requests && r in s.requests && Pursues(s.requests[q], k) && Pursues(s.requests[r], k) :: q == r)
    && (forall r <- s.requests :: s.requests[r].ToIssue? ==> s.requests[r].token !in s.rows)
  }

  lemma OneActiveNeverForks(s: State)
    requires OneActive(s)
    ensures !Forked(s)
  {
    forall a, b | a in s.rows && b in s.rows && a != b ensures !Siblings(s, a, b) {
      assert Active(s, a) && Active(s, b);
    }
  }

  lemma IssueKeepsOneActive(c: Config, s: State, step: Step)
    requires OneActive(s) && step.Issue?
    ensures OneActive(Next(c, s, step))
  {
    var s' := Next(c, s, step);
    forall k | Active(s', k) ensures k == step.token || Active(s, k) {}
    forall k | Active(s, k) ensures k in s.origin && s.origin[k] in s.origin {}
  }

  lemma FindKeepsOneActive(c: Config, s: State, step: Step)
    requires OneActive(s) && step.Find? && !Overlaps(c, s, step)
    ensures OneActive(Next(c, s, step))
  {
    var s' := Next(c, s, step);
    if s' != s {
      var mine := s'.requests[step.r];
      forall k | Active(s', k) ensures Active(s, k) {
        if k !in s.rows {
          var r :| r in s'.requests && Pursues(s'.requests[r], k);
          assert r in s.requests && Pursues(s.requests[r], k);
        }
      }
      forall q | q in s.requests && Pursues(mine, step.token) ensures !Pursues(s.requests[q], step.token) {
        assert !Held(s, step.token);
      }
    }
  }

  lemma RevokeKeepsOneActive(c: Config, s: State, step: Step)
    requires OneActive(s) && step.Revoke?
    ensures OneActive(Next(c, s, step))
  {
    var s' := Next(c, s, step);
    forall k | Active(s', k) ensures Active(s, k) {}
  }

  /** A call that issues nothing keeps every other request, adds no row, and leaves its request in
      pursuit of no token it did not pursue before. */
  lemma QuietKeepsOneActive(c: Config, s: State, step: Step)
    requires OneActive(s) && step.Continue? && step.r in s.requests && !s.requests[step.r].ToIssue?
    ensures OneActive(Next(c, s, step))
  {
    var s' := Next(c, s, step);
    QuietCall(c, s, step);
    forall r, k | r in s'.requests && Pursues(s'.requests[r], k) ensures Pursues(s.requests[r], k) {}
    forall k | Active(s', k) ensures Active(s, k) {
      if k !in s.rows {
        var r :| r in s'.requests && Pursues(s'.requests[r], k);
        assert Pursues(s.requests[r], k);
      }
    }
  }

  lemma QuietCall(c: Config, s: State, step: Step)
    requires step.Continue? && step.r in s.requests && !s.requests[step.r].ToIssue?
    ensures var s', q, q' := Next(c, s, step), s.requests[step.r], Next(c, s, step).requests[step.r];
            && s'.rows.Keys <= s.rows.Keys && s'.origin == s.origin
            && s'.requests == s.requests[step.r := q']
            && (forall k :: Pursues(q', k) ==> Pursues(q, k))
            && (q'.ToIssue? ==> q'.token !in s'.rows)
  {
  }

  lemma IssuingCall(c: Config, s: State, step: Step)
    requires step.Continue? && step.r in s.requests && s.requests[step.r].ToIssue?
    requires step.token !in s.origin && s.requests[step.r].token in s.origin
    ensures var s' := Next(c, s, step);
            && s.rows.Keys <= s'.rows.Keys <= s.rows.Keys + {step.token}
            && s'.origin == s.origin[step.token := s.origin[s.requests[step.r].token]]
            && s'.requests.Keys == s.requests.Keys && s'.requests[step.r].Done?
            && forall r <- s.requests :: r != step.r ==> s'.requests[r] == s.requests[r]
  {
  }

  /** The last call of a rotation hands the pursued token's origin to the new one. */
  lemma IssuingKeepsOneActive(c: Config, s: State, step: Step)
    requires OneActive(s) && step.Continue? && step.r in s.requests && s.requests[step.r].ToIssue?
    ensures OneActive(Next(c, s, step))
  {
    var s', old_, token := Next(c, s, step), s.requests[step.r].token, step.token;
    assert Pursues(s.requests[step.r], old_) && Active(s, old_);
    if token !in s.origin {
      IssuingCall(c, s, step);
      IssuingActive(c, s, step);
      assert !Active(s, token);
      forall r, k | r in s'.requests && Pursues(s'.requests[r], k)
          ensures r in s.requests && Pursues(s.requests[r], k) {}
    }
  }

  lemma IssuingActive(c: Config, s: State, step: Step)
    requires OneActive(s) && step.Continue? && step.r in s.requests && s.requests[step.r].ToIssue? &&
             step.token !in s.origin
    ensures forall k | Active(Next(c, s, step), k) :: k == step.token || (Active(s, k) && k != s.requests[step.r].token)
  {
    var s', old_ := Next(c, s, step), s.requests[step.r].token;
    assert Pursues(s.requests[step.r], old_) && Active(s, old_);
    IssuingCall(c, s, step);
    forall k | Active(s', k) ensures k == step.token || (Active(s, k) && k != old_) {
      if k !in s'.rows {
        var r :| r in s'.requests && Pursues(s'.requests[r], k);
        assert r != step.r && Pursues(s.requests[r], k);
      }
    }
  }

  lemma StepKeepsOneActive(c: Config, s: State, step: Step)
    requires OneActive(s) && !Overlaps(c, s, step)
    ensures OneActive(Next(c, s, step))
  {
    match step
    case Issue(_, _, _, _, _, _) => IssueKeepsOneActive(c, s, step);
    case Find(_, _, _, _, _) => FindKeepsOneActive(c, s, step);
    case Revoke(_, _) => RevokeKeepsOneActive(c, s, step);
    case Continue(r, _, _, _, _) =>
      if r in s.requests {
        if s.requests[r].ToIssue? {
          IssuingKeepsOneActive(c, s, step);
        } else {
          QuietKeepsOneActive(c, s, step);
        }
      }
  }

  lemma {:induction false} SerializedKeepsOneActive(c: Config, s: State, steps: seq<Step>)
    requires OneActive(s) && Serialized(c, s, steps)
    ensures OneActive(Run(c, s, steps))
    decreases |steps|
  {
    if steps != [] {
      StepKeepsOneActive(c, s, steps[0]);
      SerializedKeepsOneActive(c, Next(c, s, steps[0]), steps[1..]);
    }
  }

  /** In every run in which rotations of one token never overlap, whatever else interleaves and
      whatever calls fail, a login has at most one live token. */
  lemma OneLiveTokenPerLogin(c: Config, steps: seq<Step>)
    requires Serialized(c, INIT, steps)
    ensures !Forked(Run(c, INIT, steps))
  {
    SerializedKeepsOneActive(c, INIT, steps);
    OneActiveNeverForks(Run(c, INIT, steps));
  }

  // -------- and only then --------

  predicate OnlyContinues(steps: seq<Step>) {
    forall step <- steps :: step.Continue?
  }

  lemma {:induction false} ContinuesAreSerialized(c: Config, s: State, steps: seq<Step>)
    requires OnlyContinues(steps)
    ensures Serialized(c, s, steps)
    decreases |steps|
  {
    if steps != [] {
      assert steps[0] in steps && forall step <- steps[1..] :: step in steps;
      ContinuesAreSerialized(c, Next(c, s, steps[0]), steps[1..]);
    }
  }

  lemma LengthBound(used: set<Token>) returns (n: nat)
    ensures forall t <- used :: |t| < n
  {
    if used == {} {
      n := 0;
    } else {
      var t :| t in used;
      n := LengthBound(used - {t});
      n := if |t| < n then n else |t| + 1;
      assert forall u <- used :: u == t || u in used - {t};
    }
  }

  lemma FreshToken(used: set<Token>) returns (t: Token)
    ensures t !in used
  {
    var n := LengthBound(used);
    t := seq(n, i requires 0 <= i < n => 'a');
  }

  function Call(r: nat, token: Token, now: nat): Step {
    Continue(r, token, "", now, Fine)
  }

  lemma RunCons(c: Config, s: State, step: Step, rest: seq<Step>)
    ensures Run(c, s, [step] + rest) == Run(c, Next(c, s, step), rest)
  {
    assert ([step] + rest)[1..] == rest;
  }

  /** A token issued at `now` authenticates at `now`. */
  predicate FreshIsLive(c: Config, now: nat) {
    now < Kept(c.adapter, now + c.policy.absoluteTimeout) && now - Kept(c.adapter, now) < c.policy.idleTimeout
  }

  /** Both timeouts are positive, and at least a second where instants are kept in whole seconds. */
  predicate LongEnough(c: Config) {
    match c.adapter
    case Exact => c.policy.idleTimeout > 0 && c.policy.absoluteTimeout > 0
    case Postgres => c.policy.idleTimeout >= SECOND && c.policy.absoluteTimeout >= SECOND
  }

  /** Those are exactly the policies under which every fresh token authenticates. */
  lemma FreshIsLiveIff(c: Config)
    ensures (forall now: nat :: FreshIsLive(c, now)) <==> LongEnough(c)
  {
    if !LongEnough(c) {
      var now := if c.adapter == Postgres && c.policy.idleTimeout < SECOND then SECOND - 1 else 0;
      assert !FreshIsLive(c, now);
    }
  }

  /** Two rotations past their touch of one token each delete it and issue a token of the same login,
      and both authenticate. */
  lemma BothIssue(c: Config, s: State, q: nat, r: nat, k: Token, now: nat) returns (more: seq<Step>)
    requires q in s.requests && r in s.requests && q != r && k in s.origin
    requires s.requests[q].ToDelete? && s.requests[q].token == k
    requires s.requests[r].ToDelete? && s.requests[r].token == k
    ensures OnlyContinues(more) && Forked(Run(c, s, more))
    ensures FreshIsLive(c, now) ==> ForkedLive(c, Run(c, s, more), now)
  {
    var a := FreshToken(s.origin.Keys);
    var b := FreshToken(s.origin.Keys + {a});
    var s1 := Next(c, s, Call(q, a, now));
    var s2 := Next(c, s1, Call(r, b, now));
    assert s2.requests[q].ToIssue? && s2.requests[r].ToIssue? && s2.origin == s.origin;
    IssueTwo(c, s2, q, r, a, b, now);
    var s3 := Next(c, s2, Call(q, a, now));
    RunCons(c, s, Call(q, a, now), [Call(r, b, now)] + ([Call(q, a, now)] + ([Call(r, b, now)] + [])));
    RunCons(c, s1, Call(r, b, now), [Call(q, a, now)] + ([Call(r, b, now)] + []));
    RunCons(c, s2, Call(q, a, now), [Call(r, b, now)] + []);
    RunCons(c, s3, Call(r, b, now), []);
    more := [Call(q, a, now)] + ([Call(r, b, now)] + ([Call(q, a, now)] + ([Call(r, b, now)] + [])));
  }

  lemma IssueTwo(c: Config, s: State, q: nat, r: nat, a: Token, b: Token, now: nat)
    requires q in s.requests && r in s.requests && q != r
    requires s.requests[q].ToIssue? && s.requests[r].ToIssue? && s.requests[q].token == s.requests[r].token
    requires s.requests[q].token in s.origin && a !in s.origin && b !in s.origin && a != b
    ensures var s' := Next(c, Next(c, s, Call(q, a, now)), Call(r, b, now));
            Forked(s') && (FreshIsLive(c, now) ==> ForkedLive(c, s', now))
  {
    var s' := Next(c, Next(c, s, Call(q, a, now)), Call(r, b, now));
    assert Siblings(s', a, b);
  }

  /** An overlap can fork: let both rotations go on at the overlap's instant, and nothing else. Both
      new tokens authenticate then, if a fresh one does. */
  lemma ConcurrentRotationsFork(c: Config, s: State, step: Step) returns (more: seq<Step>)
    requires OneActive(s) && Overlaps(c, s, step)
    ensures OnlyContinues(more) && Forked(Run(c, Next(c, s, step), more))
    ensures FreshIsLive(c, step.now) ==> ForkedLive(c, Run(c, Next(c, s, step), more), step.now)
  {
    var k, r, now, s1 := step.token, step.r, step.now, Next(c, s, step);
    var q :| q in s.requests && Holds(s.requests[q], k);
    assert Active(s, k);
    var s2 := Next(c, s1, Call(r, "", now));
    assert s2.requests[r].ToDelete? && s2.requests[r].token == k && s2.requests[q] == s.requests[q];
    if s.requests[q].ToTouch? {
      var s3 := Next(c, s2, Call(q, "", now));
      assert s3.requests[q].ToDelete? && s3.requests[q].token == k && s3.requests[r] == s2.requests[r];
      more := BothIssue(c, s3, q, r, k, now);
      RunCons(c, s2, Call(q, "", now), more);
      more := [Call(q, "", now)] + more;
    } else {
      more := BothIssue(c, s2, q, r, k, now);
    }
    RunCons(c, s1, Call(r, "", now), more);
    more := [Call(r, "", now)] + more;
  }

  /** At every point of the run, the requests under way can only finish with at most one row a login. */
  ghost predicate NeverForks(c: Config, s: State, steps: seq<Step>)
    decreases |steps|
  {
    && (forall more | OnlyContinues(more) :: !Forked(Run(c, s, more)))
    && (steps == [] || NeverForks(c, Next(c, s, steps[0]), steps[1..]))
  }

  /** At every point of the run, the requests under way can only finish with at most one token a login
      that authenticates, at any instant. */
  ghost predicate NeverForksLive(c: Config, s: State, steps: seq<Step>)
    decreases |steps|
  {
    && (forall more, now | OnlyContinues(more) :: !ForkedLive(c, Run(c, s, more), now))
    && (steps == [] || NeverForksLive(c, Next(c, s, steps[0]), steps[1..]))
  }

  lemma {:induction false} SerializedNeverForks(c: Config, s: State, steps: seq<Step>)
    requires OneActive(s) && Serialized(c, s, steps)
    ensures NeverForks(c, s, steps) && NeverForksLive(c, s, steps)
    decreases |steps|
  {
    forall more | OnlyContinues(more) ensures !Forked(Run(c, s, more)) {
      ContinuesAreSerialized(c, s, more);
      SerializedKeepsOneActive(c, s, more);
      OneActiveNeverForks(Run(c, s, more));
    }
    forall more, now | OnlyContinues(more) ensures !ForkedLive(c, Run(c, s, more), now) {
      assert !Forked(Run(c, s, more));
    }
    if steps != [] {
      StepKeepsOneActive(c, s, steps[0]);
      SerializedNeverForks(c, Next(c, s, steps[0]), steps[1..]);
    }
  }

  lemma {:induction false} OverlapsFork(c: Config, s: State, steps: seq<Step>)
    requires OneActive(s) && !Serialized(c, s, steps)
    ensures !NeverForks(c, s, steps)
    ensures LongEnough(c) ==> !NeverForksLive(c, s, steps)
    decreases |steps|
  {
    var s' := Next(c, s, steps[0]);
    if Overlaps(c, s, steps[0]) {
      var more := ConcurrentRotationsFork(c, s, steps[0]);
      FreshIsLiveIff(c);
      assert !NeverForks(c, s', steps[1..]);
      assert LongEnough(c) ==> FreshIsLive(c, steps[0].now) && !NeverForksLive(c, s', steps[1..]);
    } else {
      StepKeepsOneActive(c, s, steps[0]);
      OverlapsFork(c, s', steps[1..]);
    }
  }

  /** A login has at most one row, however the requests of a run interleave and finish, if and only if no
      rotation reads a live token that another rotation has read and not yet deleted. */
  lemma OneRowIff(c: Config, steps: seq<Step>)
    ensures NeverForks(c, INIT, steps) <==> Serialized(c, INIT, steps)
  {
    if Serialized(c, INIT, steps) {
      SerializedNeverForks(c, INIT, steps);
    } else {
      OverlapsFork(c, INIT, steps);
    }
  }

  /** And, where fresh tokens authenticate, at most one token that authenticates, at whatever instant,
      under the very same condition. */
  lemma OneLiveTokenIff(c: Config, steps: seq<Step>)
    requires LongEnough(c)
    ensures NeverForksLive(c, INIT, steps) <==> Serialized(c, INIT, steps)
  {
    if Serialized(c, INIT, steps) {
      SerializedNeverForks(c, INIT, steps);
    } else {
      OverlapsFork(c, INIT, steps);
    }
  }
}
