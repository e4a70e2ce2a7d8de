/** The session lifecycle (crates/application/src/session.rs, crates/domain/src/session.rs) over a
    session store, exact or through Postgres (crates/infrastructure/src/session_repo.rs). */
module Sessions {
  import opened Common

  type Token = string

  datatype Policy = Policy(idleTimeout: nat, absoluteTimeout: nat)

  datatype Session = Session(
    admin: string,
    role: string,
    csrf: string,
    createdAt: nat,
    absoluteExpiresAt: nat,
    lastSeenAt: nat)

  type Rows = map<Token, Session>

  predicate IsExpired(p: Policy, s: Session, now: nat) {
    now >= s.absoluteExpiresAt || now < s.lastSeenAt || now - s.lastSeenAt >= p.idleTimeout
  }

  // -------- the store's statements --------

  function Insert(adapter: Adapter, rows: Rows, token: Token, s: Session): Rows {
    rows[token := Session(s.admin, s.role, s.csrf, Kept(adapter, s.createdAt), Kept(adapter, s.absoluteExpiresAt),
        Kept(adapter, s.lastSeenAt))]
  }

  function Touch(adapter: Adapter, rows: Rows, token: Token, now: nat): Rows {
    if token in rows then rows[token := rows[token].(lastSeenAt := Kept(adapter, now))] else rows
  }

  function Delete(rows: Rows, token: Token): Rows {
    rows - {token}
  }

  // -------- the use cases --------

  datatype Answer = Ok(admin: string, role: string, csrf: string) | NotFound | Expired | Internal

  datatype Issued = Issued(token: Token, csrf: string, absoluteExpiresAt: nat) | Refused(why: Answer)

  /** How the port calls of one use case end: reading the row, deleting an expired one, touching it,
      deleting a rotated one, inserting a new one. */
  datatype Faults = Faults(find: Fault, cleanup: Fault, touch: Fault, delete: Fault, insert: Fault)

  const NO_FAULTS := Faults(Fine, Fine, Fine, Fine, Fine)

  function Start(p: Policy, adapter: Adapter, rows: Rows, token: Token, admin: string, role: string, csrf: string,
      now: nat, f: Faults)
    : (Rows, Issued)
  {
    // the token is the primary key
    if f.insert == Lost || token in rows then (rows, Refused(Internal))
    else
      var expires := now + p.absoluteTimeout;
      (Insert(adapter, rows, token, Session(admin, role, csrf, now, expires, now)),
       if f.insert == Fine then Issued(token, csrf, expires) else Refused(Internal))
  }

  function Authenticate(p: Policy, adapter: Adapter, rows: Rows, token: Token, now: nat, f: Faults): (Rows, Answer) {
    if f.find != Fine then (rows, Internal)
    else if token !in rows then (rows, NotFound)
    else
      var s := rows[token];
      if IsExpired(p, s, now) then (if f.cleanup == Lost then rows else Delete(rows, token), Expired)
      else if f.touch == Lost then (rows, Internal)
      else (Touch(adapter, rows, token, now), if f.touch == Fine then Ok(s.admin, s.role, s.csrf) else Internal)
  }

  /** `now` is the clock's reading for the old token, `restart` the later one for the new. */
  function Rotate(p: Policy, adapter: Adapter, rows: Rows, old_: Token, token: Token, csrf: string, now: nat,
      restart: nat, f: Faults)
    : (Rows, Issued)
  {
    var (rows1, answer) := Authenticate(p, adapter, rows, old_, now, f);
    if !answer.Ok? then (rows1, Refused(answer))
    else if f.delete == Lost then (rows1, Refused(Internal))
    else
      var rows2 := Delete(rows1, old_);
      if f.delete != Fine then (rows2, Refused(Internal))
      else Start(p, adapter, rows2, token, answer.admin, answer.role, csrf, restart, f)
  }

  /** `revoke` */
  function Logoff(rows: Rows, token: Token, f: Faults): Rows {
    if f.delete == Lost then rows else Delete(rows, token)
  }

  class SessionService {
    const policy: Policy
    const adapter: Adapter
    var rows: Rows

    constructor (policy: Policy, adapter: Adapter)
      ensures this.policy == policy && this.adapter == adapter && rows == map[]
    {
      this.policy, this.adapter, rows := policy, adapter, map[];
    }

    method StartSession(token: Token, admin: string, role: string, csrf: string, now: nat, f: Faults)
        returns (issued: Issued)
      modifies this`rows
      ensures (rows, issued) == Start(policy, adapter, old(rows), token, admin, role, csrf, now, f)
    {
      var absoluteExpiresAt := now + policy.absoluteTimeout;
      if f.insert == Lost || token in rows {
        return Refused(Internal);
      }
      rows := Insert(adapter, rows, token, Session(admin, role, csrf, now, absoluteExpiresAt, now));
      return if f.insert == Fine then Issued(token, csrf, absoluteExpiresAt) else Refused(Internal);
    }

    method AuthenticateToken(token: Token, now: nat, f: Faults) returns (answer: Answer)
      modifies this`rows
      ensures (rows, answer) == Authenticate(policy, adapter, old(rows), token, now, f)
    {
      if f.find != Fine {
        return Internal;
      }
      if token !in rows {
        return NotFound;
      }
      var session := rows[token];
      if IsExpired(policy, session, now) {
        // best-effort: the verdict stands either way
        if f.cleanup != Lost {
          rows := Delete(rows, token);
        }
        return Expired;
      }
      if f.touch != Lost {
        rows := Touch(adapter, rows, token, now);
      }
      return if f.touch == Fine then Ok(session.admin, session.role, session.csrf) else Internal;
    }

    method RotateToken(old_: Token, token: Token, csrf: string, now: nat, restart: nat, f: Faults)
        returns (issued: Issued)
      modifies this`rows
      ensures (rows, issued) == Rotate(policy, adapter, old(rows), old_, token, csrf, now, restart, f)
    {
      var answer := AuthenticateToken(old_, now, f);
      if !answer.Ok? {
        return Refused(answer);
      }
      if f.delete != Lost {
        rows := Delete(rows, old_);
      }
      if f.delete != Fine {
        return Refused(Internal);
      }
      issued := StartSession(token, answer.admin, answer.role, csrf, restart, f);
    }

    method Revoke(token: Token, f: Faults) returns (ok: bool)
      modifies this`rows
      ensures rows == Logoff(old(rows), token, f)
      ensures ok <==> f.delete == Fine
    {
      if f.delete != Lost {
        rows := Delete(rows, token);
      }
      ok := f.delete == Fine;
    }
  }

  /** In time: seen no later than now, idle for less than the timeout, before the absolute deadline. */
  lemma ExpiredIff(p: Policy, s: Session, now: nat)
    ensures IsExpired(p, s, now) <==>
            !(s.lastSeenAt <= now && now - s.lastSeenAt < p.idleTimeout && now < s.absoluteExpiresAt)
  {
  }

  /** What `start` answers and stores, field by field. */
  lemma StartMeaning(p: Policy, adapter: Adapter, rows: Rows, token: Token, admin: string, role: string, csrf: string,
      now: nat, f: Faults)
    ensures var (rows', issued) := Start(p, adapter, rows, token, admin, role, csrf, now, f);
            && (issued.Issued? <==> f.insert == Fine && token !in rows)
            && (issued.Refused? ==> issued.why == Internal)
            && (issued.Issued? ==>
                  issued.token == token && issued.csrf == csrf && issued.absoluteExpiresAt == now + p.absoluteTimeout)
            && (if f.insert == Lost || token in rows then rows' == rows
                else
                  && rows'.Keys == rows.Keys + {token}
                  && (forall k <- rows :: rows'[k] == rows[k])
                  && var row := rows'[token];
                     && row.admin == admin && row.role == role && row.csrf == csrf
                     && row.createdAt == row.lastSeenAt == Kept(adapter, now)
                     && row.absoluteExpiresAt == Kept(adapter, now + p.absoluteTimeout))
  {
  }

  /** The issued pair is usable: its session token has the row, and authenticates at once, with its CSRF
      token, if fresh tokens do. */
  lemma IssuedIsUsable(p: Policy, adapter: Adapter, rows: Rows, token: Token, admin: string, role: string, csrf: string,
      now: nat, f: Faults)
    ensures var (rows', issued) := Start(p, adapter, rows, token, admin, role, csrf, now, f);
            issued.Issued? ==>
              && issued.token in rows' && rows'[issued.token].csrf == issued.csrf
              && rows'[issued.token].absoluteExpiresAt == Kept(adapter, issued.absoluteExpiresAt)
              && (now < Kept(adapter, now + p.absoluteTimeout) && now - Kept(adapter, now) < p.idleTimeout ==>
                    Authenticate(p, adapter, rows', issued.token, now, NO_FAULTS).1 == Ok(admin, role, issued.csrf))
  {
  }

  /** What `authenticate` answers and leaves, for every failure. */
  lemma AuthenticateMeaning(p: Policy, adapter: Adapter, rows: Rows, token: Token, now: nat, f: Faults)
    ensures var (rows', answer) := Authenticate(p, adapter, rows, token, now, f);
            var known := f.find == Fine && token in rows;
            var inTime := known && rows[token].lastSeenAt <= now && now - rows[token].lastSeenAt < p.idleTimeout
                          && now < rows[token].absoluteExpiresAt;
            && (answer.Ok? <==> inTime && f.touch == Fine)
            && (answer.Ok? ==> answer == Ok(rows[token].admin, rows[token].role, rows[token].csrf))
            && (answer == Expired <==> known && !inTime)
            && (answer == NotFound <==> f.find == Fine && token !in rows)
            && (answer == Internal <==> f.find != Fine || (inTime && f.touch != Fine))
            && rows' == (if inTime && f.touch != Lost then rows[token := rows[token].(lastSeenAt := Kept(adapter, now))]
                         else if known && !inTime && f.cleanup != Lost then rows - {token}
                         else rows)
  {
  }

  /** What `rotate` answers and leaves: the old token's identity under the new pair, the old row gone, or
      the reason why not. */
  lemma RotateMeaning(p: Policy, adapter: Adapter, rows: Rows, old_: Token, token: Token, csrf: string, now: nat,
      restart: nat, f: Faults)
    requires token != old_
    ensures var (rows', issued) := Rotate(p, adapter, rows, old_, token, csrf, now, restart, f);
            var (checked, answer) := Authenticate(p, adapter, rows, old_, now, f);
            && (issued.Issued? <==> answer.Ok? && f.delete == f.insert == Fine && token !in rows)
            && (issued.Refused? ==> issued.why == if answer.Ok? then Internal else answer)
            && (issued.Issued? ==>
                  && issued.token == token && issued.csrf == csrf
                  && issued.absoluteExpiresAt == restart + p.absoluteTimeout
                  && token in rows' && rows'[token].admin == answer.admin && rows'[token].role == answer.role
                  && rows'[token].csrf == csrf &&
                       rows'[token].createdAt == rows'[token].lastSeenAt == Kept(adapter, restart)
                  && rows'[token].absoluteExpiresAt == Kept(adapter, issued.absoluteExpiresAt)
                  && (restart < Kept(adapter, restart + p.absoluteTimeout) &&
                       restart - Kept(adapter, restart) < p.idleTimeout ==>
                        Authenticate(p, adapter, rows', issued.token, restart, NO_FAULTS).1
                        == Ok(answer.admin, answer.role, issued.csrf)))
            && (if !answer.Ok? || f.delete == Lost then rows' == checked
                else if f.delete != Fine || f.insert == Lost || token in rows then rows' == checked - {old_}
                else rows' - {token} == checked - {old_} && token in rows')
  {
  }

  /** The CSRF comparison accumulates differences over every byte, and accepts exactly the token. */
  method VerifyCsrf(expected: seq<bv8>, given: seq<bv8>) returns (ok: bool)
    ensures ok <==> given == expected
  {
    var diff: bv8 := 0;
    if |expected| != |given| {
      for i := 0 to |given| {
        diff := diff | given[i];
      }
      return false;
    }
    for i := 0 to |given|
      invariant diff == 0 <==> given[..i] == expected[..i]
    {
      XorZero(expected[i], given[i]);
      OrZero(diff, expected[i] ^ given[i]);
      diff := diff | (expected[i] ^ given[i]);
      assert given[..i+1] == given[..i] + [given[i]] && expected[..i+1] == expected[..i] + [expected[i]];
    }
    assert given[..|given|] == given && expected[..|given|] == expected;
    return diff == 0;
  }

  /** A mutating request passes exactly with a header that equals the session's token. */
  method VerifyCsrfHeader(expected: seq<bv8>, header: Option<seq<bv8>>) returns (ok: bool)
    ensures ok <==> header == Some(expected)
  {
    ok := false;
    if header.Some? {
      ok := VerifyCsrf(expected, header.value);
    }
  }

  lemma XorZero(a: bv8, b: bv8)
    ensures a ^ b == 0 <==> a == b
  {
  }

  lemma OrZero(a: bv8, b: bv8)
    ensures a | b == 0 <==> a == 0 && b == 0
  {
  }
}
