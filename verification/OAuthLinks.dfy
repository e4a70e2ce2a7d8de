/** Which admin a sign-in returns (crates/application/src/oauth.rs), in every interleaving: the one its
    identity is linked to, exactly when the provider's answers cannot disagree on it. */
module OAuthLinks {
  import opened Common
  import opened OAuthLogins
  import opened OAuthProtocol

  type Accounts = map<string, Account>

  /** Every answer the steps take from a provider is among these. */
  predicate AnswersIn(answers: iset<Identity>, steps: seq<Step>) {
    forall step <- steps :: step.Continue? && step.answer.Some? ==> step.answer.value in answers
  }

  function KeyOf(i: Identity): (string, string) {
    (i.provider, i.subject)
  }

  predicate HasAccount(accounts: Accounts, i: Identity) {
    i.address.Some? && i.address.value in accounts
  }

  function IdOf(accounts: Accounts, i: Identity): string
    requires HasAccount(accounts, i)
  {
    accounts[i.address.value].id
  }

  /** An answer a configured provider may give. */
  ghost predicate CanAnswer(svc: Service, answers: iset<Identity>, i: Identity) {
    i in answers && i.provider in svc.providers
  }

  /** Any two answers of one configured provider for one subject whose addresses both have accounts name
      one admin. */
  ghost predicate OneAdmin(svc: Service, accounts: Accounts, answers: iset<Identity>) {
    forall i, j |
      && CanAnswer(svc, answers, i) && CanAnswer(svc, answers, j) && KeyOf(i) == KeyOf(j)
      && HasAccount(accounts, i) && HasAccount(accounts, j) ::
      IdOf(accounts, i) == IdOf(accounts, j)
  }

  predicate Linked(t: Tables, i: Identity, admin: string) {
    KeyOf(i) in t.links && t.links[KeyOf(i)] == admin
  }

  /** Every callback that signed somebody in returned the admin its identity is linked to. */
  predicate ReturnsLinks(s: State) {
    forall w <- s.callbacks :: s.callbacks[w].Welcomed? ==> Linked(s.tables, s.callbacks[w].identity, s.callbacks[w].id)
  }

  // -------- when the answers agree --------

  /** A link agrees with every answer for its key that has an account. */
  ghost predicate LinksAgree(svc: Service, t: Tables, answers: iset<Identity>) {
    forall i | CanAnswer(svc, answers, i) && HasAccount(t.accounts, i) && KeyOf(i) in t.links ::
      t.links[KeyOf(i)] == IdOf(t.accounts, i)
  }

  ghost predicate CallbackAgrees(svc: Service, t: Tables, answers: iset<Identity>, c: Callback) {
    match c
    case ToFindLink(i) => CanAnswer(svc, answers, i)
    case ToFindAccount(i) => CanAnswer(svc, answers, i)
    case ToLink(i, admin) => CanAnswer(svc, answers, i) && HasAccount(t.accounts, i) && admin == IdOf(t.accounts, i)
    case ToLoad(i, admin) => Linked(t, i, admin)
    case Welcomed(i, admin, _) => Linked(t, i, admin)
    case _ => true
  }

  ghost predicate Agrees(svc: Service, s: State, answers: iset<Identity>) {
    && LinksAgree(svc, s.tables, answers)
    && (forall w <- s.callbacks :: CallbackAgrees(svc, s.tables, answers, s.callbacks[w]))
  }

  /** What a callback that agrees does to the links keeps every callback in agreement. */
  lemma CallAgrees(svc: Service, t: Tables, answers: iset<Identity>, c: Callback, fault: Fault, now: nat,
      answer: Option<Identity>)
    requires OneAdmin(svc, t.accounts, answers) && LinksAgree(svc, t, answers) && CallbackAgrees(svc, t, answers, c)
    requires Answerable(c, answer) && (answer.Some? ==> answer.value in answers)
    ensures var (t', c') := Advance(svc, t, c, fault, now, answer);
            && LinksAgree(svc, t', answers) && CallbackAgrees(svc, t', answers, c')
            && forall other :: CallbackAgrees(svc, t, answers, other) ==> CallbackAgrees(svc, t', answers, other)
  {
  }

  lemma StepAgrees(svc: Service, s: State, answers: iset<Identity>, step: Step)
    requires OneAdmin(svc, s.tables.accounts, answers) && Agrees(svc, s, answers) && AnswersIn(answers, [step])
    ensures Agrees(svc, Next(svc, s, step), answers) && Next(svc, s, step).tables.accounts == s.tables.accounts
  {
    assert step in [step];
    if step.Continue? && step.w in s.callbacks && Answerable(s.callbacks[step.w], step.answer) {
      CallAgrees(svc, s.tables, answers, s.callbacks[step.w], step.fault, step.now, step.answer);
    }
  }

  lemma {:induction false} RunAgrees(svc: Service, s: State, answers: iset<Identity>, steps: seq<Step>)
    requires OneAdmin(svc, s.tables.accounts, answers) && Agrees(svc, s, answers) && AnswersIn(answers, steps)
    ensures Agrees(svc, Run(svc, s, steps), answers)
    decreases |steps|
  {
    if steps != [] {
      assert forall step <- steps[1..] :: step in steps;
      StepAgrees(svc, s, answers, steps[0]);
      RunAgrees(svc, Next(svc, s, steps[0]), answers, steps[1..]);
    }
  }

  // -------- when they do not --------

  lemma {:induction false} RunConcat(svc: Service, s: State, a: seq<Step>, b: seq<Step>)
    ensures Run(svc, s, a + b) == Run(svc, Run(svc, s, a), b)
    decreases |a|
  {
    if a == [] {
      assert a + b == b;
    } else {
      assert (a + b)[1..] == a[1..] + b;
      RunConcat(svc, Next(svc, s, a[0]), a[1..], b);
    }
  }

  lemma AnswersConcat(answers: iset<Identity>, a: seq<Step>, b: seq<Step>)
    requires AnswersIn(answers, a) && AnswersIn(answers, b)
    ensures AnswersIn(answers, a + b)
  {
  }

  function Call(w: nat, answer: Option<Identity>): Step {
    Continue(w, Fine, 0, answer)
  }

  /** One more call of a callback at the end of a run. */
  lemma OneMoreCall(svc: Service, s: State, steps: seq<Step>, w: nat, i: Identity, answers: iset<Identity>)
    requires w in Run(svc, s, steps).callbacks && Answerable(Run(svc, s, steps).callbacks[w], Some(i))
    requires AnswersIn(answers, steps) && i in answers
    ensures AnswersIn(answers, steps + [Call(w, Some(i))])
    ensures var before, after := Run(svc, s, steps), Run(svc, s, steps + [Call(w, Some(i))]);
            && after.callbacks.Keys == before.callbacks.Keys
            && (after.tables, after.callbacks[w]) == Advance(svc, before.tables, before.callbacks[w], Fine, 0, Some(i))
            && (forall v <- before.callbacks :: v != w ==> after.callbacks[v] == before.callbacks[v])
            && after.begun == before.begun
  {
    var step := Call(w, Some(i));
    RunConcat(svc, s, steps, [step]);
    var before := Run(svc, s, steps);
    assert [step][1..] == [];
    assert Run(svc, before, [step]) == Run(svc, Next(svc, before, step), []);
    AnswersConcat(answers, steps, [step]);
  }

  /** A new flow and its callback, up to the consumption of its row. */
  lemma StartFlow(svc: Service, s: State, w: nat, state: string, provider: string) returns (steps: seq<Step>)
    requires provider in svc.providers && w !in s.callbacks && !Drawn(s, state)
    ensures AnswersIn(iset{}, steps)
    ensures var s' := Run(svc, s, steps);
            && s'.tables.links == s.tables.links && s'.tables.accounts == s.tables.accounts
            && s'.tables.pending == s.tables.pending[state := Opened(svc, provider, state, "", "", 0)]
            && s'.callbacks == s.callbacks[w := ToConsume(state, "")]
            && s'.begun == s.begun + [Opened(svc, provider, state, "", "", 0)]
  {
    var start, arrive := Start(Some(provider), state, "", "", 0, Fine), Arrive(w, state, "");
    steps := [start, arrive];
    assert steps[1..] == [arrive] && [arrive][1..] == [];
    assert Run(svc, s, steps) == Run(svc, Next(svc, s, start), [arrive]);
    assert Run(svc, Next(svc, s, start), [arrive]) == Run(svc, Next(svc, Next(svc, s, start), arrive), []);
  }

  /** A flow whose exchange the provider answers, up to the search for a link. */
  lemma UpToIdentity(svc: Service, s: State, w: nat, state: string, i: Identity, answers: iset<Identity>)
    returns (steps: seq<Step>)
    requires CanAnswer(svc, answers, i) && w !in s.callbacks && !Drawn(s, state)
    ensures AnswersIn(answers, steps)
    ensures var s' := Run(svc, s, steps);
            && s'.tables.links == s.tables.links && s'.tables.accounts == s.tables.accounts
            && s'.callbacks == s.callbacks[w := ToFindLink(i)]
            && s'.begun == s.begun + [Opened(svc, i.provider, state, "", "", 0)]
  {
    steps := StartFlow(svc, s, w, state, i.provider);
    OneMoreCall(svc, s, steps, w, i, answers);
    steps := steps + [Call(w, Some(i))];
    assert Run(svc, s, steps).callbacks[w] == ToExchange(Opened(svc, i.provider, state, "", "", 0), "");
    OneMoreCall(svc, s, steps, w, i, answers);
    steps := steps + [Call(w, Some(i))];
    assert Run(svc, s, steps).callbacks == s.callbacks[w := ToFindLink(i)];
  }

  /** A flow whose identity has an account but no link yet, up to its link call. */
  lemma UpToLink(svc: Service, s: State, w: nat, state: string, i: Identity, answers: iset<Identity>)
    returns (steps: seq<Step>)
    requires CanAnswer(svc, answers, i) && w !in s.callbacks && !Drawn(s, state)
    requires KeyOf(i) !in s.tables.links && HasAccount(s.tables.accounts, i)
    ensures AnswersIn(answers, steps)
    ensures var s' := Run(svc, s, steps);
            && s'.tables.links == s.tables.links && s'.tables.accounts == s.tables.accounts
            && s'.callbacks == s.callbacks[w := ToLink(i, IdOf(s.tables.accounts, i))]
            && s'.begun == s.begun + [Opened(svc, i.provider, state, "", "", 0)]
  {
    steps := UpToIdentity(svc, s, w, state, i, answers);
    OneMoreCall(svc, s, steps, w, i, answers);
    steps := steps + [Call(w, Some(i))];
    assert Run(svc, s, steps).callbacks[w] == ToFindAccount(i);
    OneMoreCall(svc, s, steps, w, i, answers);
    steps := steps + [Call(w, Some(i))];
    assert Run(svc, s, steps).callbacks == s.callbacks[w := ToLink(i, IdOf(s.tables.accounts, i))];
  }

  /** Two first sign-ins of one identity race: the slower one returns the admin of its own address
      although the link went to the other. */
  lemma RacingSignInsDisagree(svc: Service, accounts: Accounts, answers: iset<Identity>, i: Identity, j: Identity)
    returns (steps: seq<Step>)
    requires CanAnswer(svc, answers, i) && CanAnswer(svc, answers, j)
    requires KeyOf(i) == KeyOf(j) && HasAccount(accounts, i) && HasAccount(accounts, j)
    requires IdOf(accounts, i) != IdOf(accounts, j)
    ensures AnswersIn(answers, steps)
    ensures var s := Run(svc, Init(accounts), steps);
            && 0 in s.callbacks && s.callbacks[0] == Welcomed(i, IdOf(accounts, i), accounts[i.address.value].role)
            && Linked(s.tables, i, IdOf(accounts, j))
  {
    var s0 := Init(accounts);
    var mine := UpToLink(svc, s0, 0, "0", i, answers);
    var s1 := Run(svc, s0, mine);
    assert !Drawn(s1, "1");
    var theirs := UpToLink(svc, s1, 1, "1", j, answers);
    RunConcat(svc, s0, mine, theirs);
    AnswersConcat(answers, mine, theirs);
    steps := mine + theirs;
    OneMoreCall(svc, s0, steps, 1, j, answers);
    steps := steps + [Call(1, Some(j))];
    assert Linked(Run(svc, s0, steps).tables, j, IdOf(accounts, j));
    OneMoreCall(svc, s0, steps, 0, i, answers);
    steps := steps + [Call(0, Some(i))];
    assert Run(svc, s0, steps).callbacks[0] == ToLoad(i, IdOf(accounts, i));
    OneMoreCall(svc, s0, steps, 0, i, answers);
    steps := steps + [Call(0, Some(i))];
  }

  /** In every interleaving each sign-in returns the admin its identity is linked to, if and only if no
      configured provider can answer one subject with the addresses of two admins' accounts. */
  lemma SignInsReturnLinksIff(svc: Service, accounts: Accounts, answers: iset<Identity>)
    ensures (forall steps | AnswersIn(answers, steps) :: ReturnsLinks(Run(svc, Init(accounts), steps)))
            <==> OneAdmin(svc, accounts, answers)
  {
    if OneAdmin(svc, accounts, answers) {
      forall steps | AnswersIn(answers, steps) ensures ReturnsLinks(Run(svc, Init(accounts), steps)) {
        RunAgrees(svc, Init(accounts), answers, steps);
      }
    } else {
      var i, j :| CanAnswer(svc, answers, i) && CanAnswer(svc, answers, j) && KeyOf(i) == KeyOf(j)
                  && HasAccount(accounts, i) && HasAccount(accounts, j) && IdOf(accounts, i) != IdOf(accounts, j);
      var steps := RacingSignInsDisagree(svc, accounts, answers, i, j);
      assert !ReturnsLinks(Run(svc, Init(accounts), steps));
    }
  }
}
