/** OAuth sign-in (crates/application/src/oauth.rs) over the one-shot store of pending authorizations
    and the identity links (crates/infrastructure/src/oauth_repos.rs). */
module OAuthLogins {
  import opened Common

  const PENDING_TTL: nat := 600 * SECOND

  datatype Pending = Pending(state: string, provider: string, nonce: string, verifier: string, redirectUri: string,
      createdAt: nat)

  datatype ExchangeRequest = ExchangeRequest(code: string, verifier: string, redirectUri: string, nonce: string)

  /** What a provider resolves a code to; `address` is the parsed email, None if it does not parse. */
  datatype Identity = Identity(provider: string, subject: string, email: string, address: Option<string>)

  datatype Account = Account(id: string, role: string)

  datatype OAuthError = Config | InvalidState | ExchangeRejected | NoLinkedAccount | BadEmail | Internal

  datatype Completion = SignedIn(id: string, role: string) | Failed(error: OAuthError)

  datatype Beginning = Redirect(state: string, nonce: string, challenge: string, redirectUri: string)
      | NotBegun(error: OAuthError)

  datatype Service = Service(providers: set<string>, redirectBase: string, adapter: Adapter)

  type Identities = map<(string, string), string>

  datatype Tables = Tables(pending: map<string, Pending>, links: Identities, accounts: map<string, Account>)

  function TrimSlashes(s: string): string {
    if s != [] && s[|s|-1] == '/' then TrimSlashes(s[..|s|-1]) else s
  }

  function RedirectUri(svc: Service, provider: string): string {
    TrimSlashes(svc.redirectBase) + "/auth/oauth/" + provider + "/callback"
  }

  /** The row an authorization is stored as. */
  function Row(adapter: Adapter, p: Pending): Pending {
    p.(createdAt := Kept(adapter, p.createdAt))
  }

  function Opened(svc: Service, provider: string, state: string, nonce: string, verifier: string, now: nat): Pending {
    Pending(state, provider, nonce, verifier, RedirectUri(svc, provider), now)
  }

  /** `begin`; `provider` is the normalized id, None when the raw one is empty. `state` is the
      table's primary key. */
  function Begin(svc: Service, t: Tables, provider: Option<string>, state: string, nonce: string, verifier: string,
      challenge: string, now: nat, insert: Fault)
    : (Tables, Beginning)
  {
    if provider == None || provider.value !in svc.providers then (t, NotBegun(Config))
    else if insert == Lost || state in t.pending then (t, NotBegun(Internal))
    else
      var p := Opened(svc, provider.value, state, nonce, verifier, now);
      (t.(pending := t.pending[state := Row(svc.adapter, p)]),
       if insert == Fine then Redirect(state, nonce, challenge, p.redirectUri) else NotBegun(Internal))
  }

  /** Older than the TTL, or from the future. */
  predicate Stale(p: Pending, now: nat) {
    now < p.createdAt || now - p.createdAt > PENDING_TTL
  }

  function RequestFor(p: Pending, code: string): ExchangeRequest {
    ExchangeRequest(code, p.verifier, p.redirectUri, p.nonce)
  }

  /** The insert-or-refresh of `link`: an existing link keeps its admin. */
  function Link(links: Identities, i: Identity, admin: string): Identities {
    if (i.provider, i.subject) in links then links else links[(i.provider, i.subject) := admin]
  }

  /** How the store calls of one `complete` end. */
  datatype Faults = Faults(consume: Fault, findAdmin: Fault, findAccount: Fault, link: Fault, load: Fault)

  /** Which admin an identity resolves to: an existing link wins, else the account of its address is
      linked now, else nobody. */
  function Resolve(t: Tables, i: Identity, f: Faults): (Tables, Completion) {
    if f.findAdmin != Fine then (t, Failed(Internal))
    else if (i.provider, i.subject) in t.links then Load(t, i, t.links[(i.provider, i.subject)], f)
    else if i.address == None then (t, Failed(BadEmail))
    else if f.findAccount != Fine then (t, Failed(Internal))
    else if i.address.value !in t.accounts then (t, Failed(NoLinkedAccount))
    else
      var admin := t.accounts[i.address.value].id;
      var linked := if f.link == Lost then t else t.(links := Link(t.links, i, admin));
      if f.link != Fine then (linked, Failed(Internal)) else Load(linked, i, admin, f)
  }

  /** The account behind the identity's address gives the role. */
  function Load(t: Tables, i: Identity, admin: string, f: Faults): (Tables, Completion) {
    if i.address == None then (t, Failed(BadEmail))
    else if f.load != Fine then (t, Failed(Internal))
    else if i.address.value !in t.accounts then (t, Failed(NoLinkedAccount))
    else (t, SignedIn(admin, t.accounts[i.address.value].role))
  }

  /** `complete`, with the exchange it sends, if any; `answer` is what the provider makes of it. */
  function Complete(svc: Service, t: Tables, state: string, code: string, now: nat, answer: Option<Identity>, f: Faults)
    : (Tables, Option<ExchangeRequest>, Completion)
  {
    if f.consume == Lost then (t, None, Failed(Internal))
    else
      var consumed := t.(pending := t.pending - {state});
      if f.consume != Fine then (consumed, None, Failed(Internal))
      else if state !in t.pending then (consumed, None, Failed(InvalidState))
      else
        var p := t.pending[state];
        if Stale(p, now) then (consumed, None, Failed(InvalidState))
        else if p.provider !in svc.providers then (consumed, None, Failed(Config))
        else if answer == None then (consumed, Some(RequestFor(p, code)), Failed(ExchangeRejected))
        else
          var (t', completion) := Resolve(consumed, answer.value, f);
          (t', Some(RequestFor(p, code)), completion)
  }

  class OAuthLoginService {
    const service: Service
    var pending: map<string, Pending>
    var links: Identities
    const accounts: map<string, Account>

    constructor (service: Service, accounts: map<string, Account>)
      ensures this.service == service && Snapshot() == Tables(map[], map[], accounts)
    {
      this.service, this.accounts := service, accounts;
      pending, links := map[], map[];
    }

    function Snapshot(): Tables
      reads this
    {
      Tables(pending, links, accounts)
    }

    method BeginFlow(provider: Option<string>, state: string, nonce: string, verifier: string, challenge: string,
        now: nat, insert: Fault)
      returns (outcome: Beginning)
      modifies this`pending
      ensures (Snapshot(), outcome) ==
              Begin(service, old(Snapshot()), provider, state, nonce, verifier, challenge, now, insert)
    {
      if provider == None || provider.value !in service.providers {
        return NotBegun(Config);
      }
      var redirectUri := RedirectUri(service, provider.value);
      if insert == Lost || state in pending {
        return NotBegun(Internal);
      }
      pending := pending[state := Pending(state, provider.value, nonce, verifier, redirectUri,
          Kept(service.adapter, now))];
      return if insert == Fine then Redirect(state, nonce, challenge, redirectUri) else NotBegun(Internal);
    }

    /** Fetch and delete in one statement. */
    method Consume(state: string, fault: Fault) returns (row: Option<Pending>)
      modifies this`pending
      ensures Snapshot() == if fault == Lost then old(Snapshot())
              else old(Snapshot()).(pending := old(pending) - {state})
      ensures row == if fault == Fine && state in old(pending) then Some(old(pending)[state]) else None
    {
      row := if fault == Fine && state in pending then Some(pending[state]) else None;
      if fault != Lost {
        pending := pending - {state};
      }
    }

    method ResolveAdmin(i: Identity, f: Faults) returns (admin: Option<string>, error: OAuthError)
      modifies this`links
      ensures var (t, completion) := Resolve(old(Snapshot()), i, f);
              && Snapshot() == t
              && completion == if admin.Some? then Load(t, i, admin.value, f).1 else Failed(error)
    {
      admin, error := None, Internal;
      if f.findAdmin != Fine {
        return;
      }
      var key := (i.provider, i.subject);
      if key in links {
        admin := Some(links[key]);
        return;
      }
      if i.address == None {
        error := BadEmail;
        return;
      }
      if f.findAccount != Fine {
        return;
      }
      if i.address.value !in accounts {
        error := NoLinkedAccount;
        return;
      }
      if f.link != Lost {
        links := links[key := accounts[i.address.value].id];
      }
      if f.link == Fine {
        admin := Some(accounts[i.address.value].id);
      }
    }

    method CompleteFlow(state: string, code: string, now: nat, answer: Option<Identity>, f: Faults)
      returns (sent: Option<ExchangeRequest>, completion: Completion)
      modifies this
      ensures (Snapshot(), sent, completion) == Complete(service, old(Snapshot()), state, code, now, answer, f)
    {
      sent := None;
      var row := Consume(state, f.consume);
      if f.consume != Fine {
        completion := Failed(Internal);
        return;
      }
      if row == None || Stale(row.value, now) {
        completion := Failed(InvalidState);
        return;
      }
      if row.value.provider !in service.providers {
        completion := Failed(Config);
        return;
      }
      sent := Some(RequestFor(row.value, code));
      if answer == None {
        completion := Failed(ExchangeRejected);
        return;
      }
      var admin, error := ResolveAdmin(answer.value, f);
      if admin == None {
        completion := Failed(error);
        return;
      }
      completion := Load(Snapshot(), answer.value, admin.value, f).1;
    }
  }

  /** The origin without its trailing slashes. */
  lemma {:induction false} TrimSlashesMeaning(s: string)
    ensures TrimSlashes(s) <= s
    ensures TrimSlashes(s) != [] ==> TrimSlashes(s)[|TrimSlashes(s)|-1] != '/'
    ensures forall i :: |TrimSlashes(s)| <= i < |s| ==> s[i] == '/'
  {
    if s != [] && s[|s|-1] == '/' {
      TrimSlashesMeaning(s[..|s|-1]);
    }
  }

  /** What `begin` answers and stores, field by field. */
  lemma BeginMeaning(svc: Service, t: Tables, provider: Option<string>, state: string, nonce: string, verifier: string,
      challenge: string, now: nat, insert: Fault)
    ensures var (t', outcome) := Begin(svc, t, provider, state, nonce, verifier, challenge, now, insert);
            var configured := provider.Some? && provider.value in svc.providers;
            && (outcome.Redirect? <==> configured && insert == Fine && state !in t.pending)
            && (outcome == NotBegun(Config) <==> !configured)
            && (outcome.NotBegun? && configured ==> outcome.error == Internal)
            && (outcome.Redirect? ==>
                  && outcome.state == state && outcome.nonce == nonce && outcome.challenge == challenge
                  && outcome.redirectUri == TrimSlashes(svc.redirectBase) + "/auth/oauth/" + provider.value +
                       "/callback")
            && t'.links == t.links && t'.accounts == t.accounts
            && (if !configured || insert == Lost || state in t.pending then t'.pending == t.pending
                else
                  && t'.pending.Keys == t.pending.Keys + {state}
                  && (forall other <- t.pending :: t'.pending[other] == t.pending[other])
                  && var row := t'.pending[state];
                     && row.state == state && row.provider == provider.value && row.nonce == nonce
                     && row.verifier == verifier && row.createdAt == Kept(svc.adapter, now)
                     && row.redirectUri == TrimSlashes(svc.redirectBase) + "/auth/oauth/" + provider.value +
                          "/callback")
  {
  }

  /** When `complete` sends an exchange, what it carries, and why it refuses before and at the exchange.
      The row is consumed whatever follows. */
  lemma CompleteMeaning(svc: Service, t: Tables, state: string, code: string, now: nat, answer: Option<Identity>,
      f: Faults)
    ensures var (t', sent, completion) := Complete(svc, t, state, code, now, answer, f);
            var live := state in t.pending &&
                t.pending[state].createdAt <= now <= t.pending[state].createdAt + 600 * SECOND;
            var configured := state in t.pending && t.pending[state].provider in svc.providers;
            && t'.pending == (if f.consume == Lost then t.pending else t.pending - {state})
            && (sent.Some? <==> f.consume == Fine && live && configured)
            && (sent.Some? ==>
                  && sent.value.code == code && sent.value.verifier == t.pending[state].verifier
                  && sent.value.redirectUri == t.pending[state].redirectUri &&
                       sent.value.nonce == t.pending[state].nonce)
            && (completion == Failed(InvalidState) <==> f.consume == Fine && !live)
            && (completion == Failed(Config) <==> f.consume == Fine && live && !configured)
            && (completion == Failed(ExchangeRejected) <==> sent.Some? && answer == None)
            && (if sent.Some? && answer.Some?
                then (t', completion) == Resolve(t.(pending := t'.pending), answer.value, f)
                else completion.Failed? && t'.links == t.links && t'.accounts == t.accounts)
            && (f.consume != Fine ==> completion == Failed(Internal))
  {
    if f.consume == Fine && state in t.pending && answer.Some? {
      ResolveMeaning(t.(pending := t.pending - {state}), answer.value, f);
    }
  }

  /** Whom an identity signs in as, why it is refused, and which link is made. */
  lemma ResolveMeaning(t: Tables, i: Identity, f: Faults)
    ensures var (t', completion) := Resolve(t, i, f);
            var key := (i.provider, i.subject);
            var linked := key in t.links;
            var found := i.address.Some? && i.address.value in t.accounts;
            var looked := linked || (f.findAccount == Fine && f.link == Fine);
            && (completion.SignedIn? <==> f.findAdmin == Fine && found && looked && f.load == Fine)
            && (completion.SignedIn? ==>
                  && completion.role == t.accounts[i.address.value].role
                  && completion.id == if linked then t.links[key] else t.accounts[i.address.value].id)
            && (completion == Failed(BadEmail) <==> f.findAdmin == Fine && i.address == None)
            && (completion == Failed(NoLinkedAccount) <==>
                  f.findAdmin == Fine && i.address.Some? && !found &&
                      (if linked then f.load else f.findAccount) == Fine)
            && (completion.Failed? ==> completion.error in {BadEmail, NoLinkedAccount, Internal})
            && t'.pending == t.pending && t'.accounts == t.accounts
            && t'.links == if f.findAdmin == Fine && !linked && found && f.findAccount == Fine && f.link != Lost
                           then t.links[key := t.accounts[i.address.value].id] else t.links
  {
  }

  /** A sign-in that nothing interleaves leaves the identity linked to the admin it returns, adds no
      account and moves no other link; an identity with neither link nor account is refused. */
  lemma SignInLinks(svc: Service, t: Tables, state: string, code: string, now: nat, i: Identity, f: Faults)
    ensures var (t', _, completion) := Complete(svc, t, state, code, now, Some(i), f);
            && t'.accounts == t.accounts
            && (forall key <- t.links :: key in t'.links && t'.links[key] == t.links[key])
            && (forall key <- t'.links :: key in t.links || key == (i.provider, i.subject))
            && (completion.SignedIn? ==>
                 t'.links.Keys >= {(i.provider, i.subject)} && t'.links[(i.provider, i.subject)] == completion.id)
            && ((i.provider, i.subject) !in t.links && (i.address == None || i.address.value !in t.accounts) ==>
                 completion.Failed?)
  {
  }
}
