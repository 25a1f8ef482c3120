/** The gateway assembled: whole runs through its registry, validator, scrubber, use case and recorders. */
module Gateway {
  import opened Basics
  import opened SyntaxTrees
  import opened SensitiveLiterals
  import opened QueryScrubber
  import opened NonInterference
  import opened PostgresRules
  import opened QueryValidator
  import opened RuleRegistry
  import opened ExecuteQuery

  /** Rules are registered or looked up, or a request is served. */
  datatype GatewayEvent<C> = Administer(op: Operation<C>) | Serve(r: Request)

  ghost function Stepped<C>(parts: Assembly<C>, s: GatewayState<C>, e: GatewayEvent<C>): GatewayState<C> {
    match e
    case Administer(op) => s.(registry := Applied(s.registry, op))
    case Serve(r) => ServedBy(parts, s, r)
  }

  ghost function RunGateway<C>(parts: Assembly<C>, events: seq<GatewayEvent<C>>): GatewayState<C> {
    if events == [] then GatewayState(RegistryState(map[], map[], 0), Ledger([], [], []))
    else Stepped(parts, RunGateway(parts, events[..|events| - 1]), events[|events| - 1])
  }

  lemma ServedExtends<C>(parts: Assembly<C>, s: GatewayState<C>, r: Request, returned: seq<ExecuteQueryResult>)
    ensures var l := s.ledger;
            var afresh := ServedBy(parts, s.(ledger := l.(returned := [])), r);
            |afresh.ledger.returned| == 1
            && ServedBy(parts, s, r)
               == afresh.(ledger := afresh.ledger.(returned := l.returned + afresh.ledger.returned))
  {
  }

  /** The objects, driven through any events, go exactly through the states of the run. */
  method Drive<C(==)>(useCase: ExecuteQueryUseCase<C>, events: seq<GatewayEvent<C>>)
    returns (returned: seq<ExecuteQueryResult>)
    requires useCase.State([]) == RunGateway(useCase.Parts(), [])
    modifies useCase.validator.registry, useCase.executor, useCase.recorder
    ensures useCase.State(returned) == RunGateway(useCase.Parts(), events)
  {
    returned := [];
    for i := 0 to |events|
      invariant useCase.State(returned) == RunGateway(useCase.Parts(), events[..i])
    {
      ghost var before := useCase.State(returned);
      assert events[..i + 1][..i] == events[..i];
      match events[i] {
        case Administer(Register(cls, dialects)) => useCase.validator.registry.SqlRule(cls, dialects);
        case Administer(Lookup(dialect)) => var _ := useCase.validator.registry.RulesFor(dialect);
        case Serve(r) =>
          var result := useCase.Execute(r);
          ServedExtends(useCase.Parts(), before, r, returned);
          returned := returned + [result];
      }
      assert useCase.State(returned) == Stepped(useCase.Parts(), before, events[i]);
    }
    assert events[..|events|] == events;
  }

  // ---------------------------------------------------------------- the cache is transparent

  /** The registrations among the events. */
  function Registrations<C>(events: seq<GatewayEvent<C>>): seq<Operation<C>> {
    if events == [] then []
    else
      var last := events[|events| - 1];
      Registrations(events[..|events| - 1]) + if last.Administer? && last.op.Register? then [last.op] else []
  }

  /** All operations on the registry, with the lookups of validation among them. */
  function RegistryOps<C>(parts: Assembly<C>, events: seq<GatewayEvent<C>>): seq<Operation<C>> {
    if events == [] then [] else RegistryOps(parts, events[..|events| - 1]) + OpsOf(parts, events[|events| - 1])
  }

  function OpsOf<C>(parts: Assembly<C>, e: GatewayEvent<C>): seq<Operation<C>> {
    match e
    case Administer(op) => [op]
    case Serve(r) => if ReachesRules(parts.parse, r.payload) then [Lookup(parts.dialect)] else []
  }

  lemma AfterSnoc<C>(ops: seq<Operation<C>>, op: Operation<C>)
    ensures After(ops + [op]) == Applied(After(ops), op)
  {
    var all := ops + [op];
    assert all[..|all| - 1] == ops;
  }

  lemma {:induction false} RegistryFollowsEvents<C>(parts: Assembly<C>, events: seq<GatewayEvent<C>>)
    ensures RunGateway(parts, events).registry == After(RegistryOps(parts, events))
  {
    if events != [] {
      var front, e := events[..|events| - 1], events[|events| - 1];
      var ops := RegistryOps(parts, front);
      RegistryFollowsEvents(parts, front);
      match e
      case Administer(op) => AfterSnoc(ops, op);
      case Serve(r) =>
        if ReachesRules(parts.parse, r.payload) {
          AfterSnoc(ops, Lookup(parts.dialect));
        } else {
          assert ops + [] == ops;
        }
    }
  }

  lemma RegisteredSnoc<C>(ops: seq<Operation<C>>, op: Operation<C>, key: string)
    ensures RegisteredUnder(ops + [op], key) == RegisteredUnder(ops, key) + ListedBy(op, key)
  {
    var all := ops + [op];
    assert all[..|all| - 1] == ops;
  }

  lemma {:induction false} LookupsRegisterNothing<C>(parts: Assembly<C>, events: seq<GatewayEvent<C>>, key: string)
    ensures RegisteredUnder(RegistryOps(parts, events), key) == RegisteredUnder(Registrations(events), key)
  {
    if events != [] {
      var front, e := events[..|events| - 1], events[|events| - 1];
      LookupsRegisterNothing(parts, front, key);
      OneMoreEvent(parts, RegistryOps(parts, front), Registrations(front), e, key);
    }
  }

  lemma OneMoreEvent<C>(
    parts: Assembly<C>, ops: seq<Operation<C>>, registered: seq<Operation<C>>, e: GatewayEvent<C>, key: string)
    requires RegisteredUnder(ops, key) == RegisteredUnder(registered, key)
    ensures RegisteredUnder(ops + OpsOf(parts, e), key)
         == RegisteredUnder(registered + if e.Administer? && e.op.Register? then [e.op] else [], key)
  {
    assert registered + [] == registered && ops + [] == ops;
    match e
    case Administer(op) =>
      RegisteredSnoc(ops, op, key);
      RegisteredSnoc(registered, op, key);
      assert RegisteredUnder(ops, key) + [] == RegisteredUnder(ops, key);
    case Serve(r) =>
      RegisteredSnoc(ops, Lookup(parts.dialect), key);
      assert RegisteredUnder(ops, key) + [] == RegisteredUnder(ops, key);
  }

  /** The rules in force after some events: shared ones, then the dialect's own, as registered so far. */
  function RulesInForce<C>(dialect: string, events: seq<GatewayEvent<C>>): seq<C> {
    RegisteredUnder(Registrations(events), SHARED_DIALECT_KEY) + RegisteredUnder(Registrations(events), dialect)
  }

  /** Whatever the cache holds, a request is judged by exactly the rules registered before it. */
  lemma CacheIsTransparent<C(!new)>(parts: Assembly<C>, events: seq<GatewayEvent<C>>)
    ensures RulesOf(RunGateway(parts, events).registry, parts.dialect) == RulesInForce(parts.dialect, events)
  {
    RegistryFollowsEvents(parts, events);
    LookupFollowsHistory(RegistryOps(parts, events), parts.dialect);
    LookupsRegisterNothing(parts, events, SHARED_DIALECT_KEY);
    LookupsRegisterNothing(parts, events, parts.dialect);
  }

  // ---------------------------------------------------------------- a run of the gateway is a run of the use case

  function RequestsOf<C>(events: seq<GatewayEvent<C>>): seq<Request> {
    if events == [] then []
    else
      var last := events[|events| - 1];
      RequestsOf(events[..|events| - 1]) + if last.Serve? then [last.r] else []
  }

  /** The rules in force when the n-th request is served. */
  function RulesForRequest<C>(dialect: string, events: seq<GatewayEvent<C>>, n: nat): seq<C> {
    if events == [] then []
    else
      var front := events[..|events| - 1];
      if n < |RequestsOf(front)| then RulesForRequest(dialect, front, n) else RulesInForce(dialect, front)
  }

  /** The ports of the assembled gateway over a run. */
  ghost function EnvironmentOf<C>(parts: Assembly<C>, events: seq<GatewayEvent<C>>): Environment {
    Environment(
      q => ScrubbedText(q, parts.scrubberParse, parts.render, parts.pattern),
      (n: nat, q) => Validation(parts.check, RulesForRequest(parts.dialect, events, n), parts.parse, q),
      parts.respond, parts.maxSampleRows)
  }

  /** The two environments agree on the first n requests. */
  ghost predicate AgreeUpTo(env: Environment, alt: Environment, n: nat) {
    && alt == env.(scrub := alt.scrub, validate := alt.validate)
    && (forall q :: env.scrub(q) == alt.scrub(q))
    && forall i: nat, q :: i < n ==> env.validate(i, q) == alt.validate(i, q)
  }

  lemma {:induction false} RunsAgree(env: Environment, alt: Environment, requests: seq<Request>)
    requires AgreeUpTo(env, alt, |requests|)
    ensures Run(env, requests) == Run(alt, requests)
  {
    if requests != [] {
      var n := |requests| - 1;
      RunsAgree(env, alt, requests[..n]);
      RunLengths(env, requests[..n]);
    }
  }

  /** One more event changes nothing for the requests already served, and says how the next one is judged. */
  lemma EnvironmentGrows<C>(parts: Assembly<C>, front: seq<GatewayEvent<C>>, e: GatewayEvent<C>)
    ensures AgreeUpTo(EnvironmentOf(parts, front), EnvironmentOf(parts, front + [e]), |RequestsOf(front)|)
    ensures forall q :: EnvironmentOf(parts, front + [e]).validate(|RequestsOf(front)|, q)
                     == Validation(parts.check, RulesInForce(parts.dialect, front), parts.parse, q)
  {
    var all := front + [e];
    assert all[..|all| - 1] == front;
  }

  lemma NextServed<C(!new)>(
    parts: Assembly<C>, env: Environment, front: seq<GatewayEvent<C>>, requests: seq<Request>, r: Request)
    requires RunGateway(parts, front).ledger == Run(env, requests)
    requires env.scrub(r.payload) == ScrubbedText(r.payload, parts.scrubberParse, parts.render, parts.pattern)
    requires env.validate(|requests|, r.payload)
             == Validation(parts.check, RulesInForce(parts.dialect, front), parts.parse, r.payload)
    requires env.respond == parts.respond && env.maxSampleRows == parts.maxSampleRows
    ensures ServedBy(parts, RunGateway(parts, front), r).ledger == Run(env, requests + [r])
  {
    CacheIsTransparent(parts, front);
    RunLengths(env, requests);
    var all := requests + [r];
    assert all[..|all| - 1] == requests;
  }

  lemma EventSnoc<C>(parts: Assembly<C>, front: seq<GatewayEvent<C>>, e: GatewayEvent<C>)
    ensures RunGateway(parts, front + [e]) == Stepped(parts, RunGateway(parts, front), e)
    ensures RequestsOf(front + [e]) == RequestsOf(front) + if e.Serve? then [e.r] else []
  {
    var all := front + [e];
    assert all[..|all| - 1] == front;
  }

  ghost predicate IsUseCase<C(!new)>(parts: Assembly<C>, events: seq<GatewayEvent<C>>) {
    RunGateway(parts, events).ledger == Run(EnvironmentOf(parts, events), RequestsOf(events))
  }

  lemma OneMoreIsUseCase<C(!new)>(parts: Assembly<C>, front: seq<GatewayEvent<C>>, e: GatewayEvent<C>)
    requires IsUseCase(parts, front)
    ensures IsUseCase(parts, front + [e])
  {
    var requests, env := RequestsOf(front), EnvironmentOf(parts, front + [e]);
    EventSnoc(parts, front, e);
    EnvironmentGrows(parts, front, e);
    RunsAgree(EnvironmentOf(parts, front), env, requests);
    if e.Serve? {
      NextServed(parts, env, front, requests, e.r);
    } else {
      assert requests + [] == requests;
    }
  }

  lemma {:induction false} PrefixIsUseCase<C(!new)>(parts: Assembly<C>, events: seq<GatewayEvent<C>>, n: nat)
    requires n <= |events|
    ensures IsUseCase(parts, events[..n])
  {
    if n > 0 {
      PrefixIsUseCase(parts, events, n - 1);
      OneMoreIsUseCase(parts, events[..n - 1], events[n - 1]);
      assert events[..n - 1] + [events[n - 1]] == events[..n];
    }
  }

  /** The assembled gateway behaves as the use case does with a validator that changes with the registrations. */
  lemma GatewayIsUseCase<C(!new)>(parts: Assembly<C>, events: seq<GatewayEvent<C>>)
    ensures RunGateway(parts, events).ledger == Run(EnvironmentOf(parts, events), RequestsOf(events))
  {
    PrefixIsUseCase(parts, events, |events|);
    assert events[..|events|] == events;
  }

  /** Every request of a run is answered and recorded with what is due by the rules in force at its time. */
  lemma GatewayIsSafe<C(!new)>(parts: Assembly<C>, events: seq<GatewayEvent<C>>)
    ensures Safe(EnvironmentOf(parts, events), RequestsOf(events), RunGateway(parts, events).ledger)
  {
    GatewayIsUseCase(parts, events);
    RunIsSafe(EnvironmentOf(parts, events), RequestsOf(events));
  }

  // ---------------------------------------------------------------- with the six rules

  lemma {:induction false} ListedOnce<C>(dialects: seq<string>, n: nat, key: string, c: C)
    requires n <= |dialects| && key in dialects[..n]
    ensures c in Listings(dialects, n, key, c)
  {
    if dialects[n - 1] != key {
      assert dialects[..n] == dialects[..n - 1] + [dialects[n - 1]];
      ListedOnce(dialects, n - 1, key, c);
    }
  }

  lemma {:induction false} RegisteredIsInForce<C>(
    events: seq<GatewayEvent<C>>, i: nat, c: C, dialects: seq<string>, key: string)
    requires i < |events| && events[i] == Administer(Register(c, dialects)) && key in dialects
    ensures c in RegisteredUnder(Registrations(events), key)
  {
    var front, e := events[..|events| - 1], events[|events| - 1];
    if i == |events| - 1 {
      assert dialects[..|dialects|] == dialects;
      ListedOnce(dialects, |dialects|, key, c);
      RegisteredSnoc(Registrations(front), e.op, key);
    } else {
      RegisteredIsInForce(front, i, c, dialects, key);
      if e.Administer? && e.op.Register? {
        RegisteredSnoc(Registrations(front), e.op, key);
      } else {
        assert Registrations(front) + [] == Registrations(front);
      }
    }
  }

  /**
   The gateway for PostgreSQL: among its rule classes, of which there may be any others, `six` names
   those of the six rule files.
   */
  ghost predicate ForPostgres<C>(parts: Assembly<C>, six: RuleClass -> C) {
    parts.dialect == "postgres" && forall rule, t :: parts.check(six(rule), t) == Check(rule, t)
  }

  /** The six rule files have been imported, in any order and among anything else. */
  ghost predicate SixRegistered<C>(events: seq<GatewayEvent<C>>, six: RuleClass -> C) {
    forall rule :: Imported(events, six(rule))
  }

  ghost predicate Imported<C>(events: seq<GatewayEvent<C>>, c: C) {
    exists i :: 0 <= i < |events| && events[i] == Administer(Register(c, ["postgres"]))
  }

  lemma RegisteredRulesSuffice<C>(events: seq<GatewayEvent<C>>, six: RuleClass -> C)
    requires SixRegistered(events, six)
    ensures forall rule :: six(rule) in RulesInForce("postgres", events)
  {
    forall rule ensures six(rule) in RulesInForce("postgres", events) {
      assert Imported(events, six(rule));
      var i :| 0 <= i < |events| && events[i] == Administer(Register(six(rule), ["postgres"]));
      RegisteredIsInForce(events, i, six(rule), ["postgres"], "postgres");
    }
  }

  /** No request is served before the six rules are registered. */
  ghost predicate RegisteredFirst<C>(events: seq<GatewayEvent<C>>, six: RuleClass -> C) {
    events != [] ==>
      && RegisteredFirst(events[..|events| - 1], six)
      && (events[|events| - 1].Serve? ==> SixRegistered(events[..|events| - 1], six))
  }

  ghost predicate IsSafeStatement(parse: Parser, payload: QueryPayload) {
    exists t: Statement :: ParsesTo(parse, payload, t) && SafeStatement(t)
  }

  /** The payload is one safe statement, to which no other rule in force objects either. */
  ghost predicate Passes<C(!new)>(parts: Assembly<C>, rules: seq<C>, payload: QueryPayload) {
    exists t: Statement ::
      ParsesTo(parts.parse, payload, t) && SafeStatement(t) && forall c :: c in rules ==> parts.check(c, t).Allow?
  }

  /** With the six rules among those in force, exactly such payloads are allowed. */
  lemma AllowedPasses<C(!new)>(parts: Assembly<C>, six: RuleClass -> C, rules: seq<C>, payload: QueryPayload)
    requires ForPostgres(parts, six) && forall rule :: six(rule) in rules
    ensures Validation(parts.check, rules, parts.parse, payload).Allow? <==> Passes(parts, rules, payload)
  {
    forall t: Statement | ParsesTo(parts.parse, payload, t)
      ensures payload.Text? && !IsBlank(payload.sql) && parts.parse(payload.sql).Parsed?
      ensures NonNull(parts.parse(payload.sql).statements) == [t]
    {
      ParsesToMeaning(parts.parse, payload, t);
    }
    if payload.Text? && !IsBlank(payload.sql) && parts.parse(payload.sql).Parsed? {
      var present := NonNull(parts.parse(payload.sql).statements);
      if |present| == 1 {
        var t := present[0];
        assert present == [t];
        ParsesToMeaning(parts.parse, payload, t);
        FirstObjectionMeaning(parts.check, rules, t);
        AllRulesMeanSafe(t);
        if forall c :: c in rules ==> parts.check(c, t).Allow? {
          forall rule ensures Check(rule, t).Allow? {
            assert parts.check(six(rule), t) == Check(rule, t) && six(rule) in rules;
          }
        }
      }
    }
  }

  /**
   Whatever other rules are registered or looked up besides, whatever is sent, and however the data
   store answers: it is handed single, safe statements only.
   */
  lemma {:induction false} OnlySafeStatementsExecuted<C(!new)>(
    parts: Assembly<C>, six: RuleClass -> C, events: seq<GatewayEvent<C>>, k: nat)
    requires ForPostgres(parts, six) && RegisteredFirst(events, six)
    requires k < |RunGateway(parts, events).ledger.executed|
    ensures IsSafeStatement(parts.parse, RunGateway(parts, events).ledger.executed[k])
  {
    var front, e := events[..|events| - 1], events[|events| - 1];
    var s := RunGateway(parts, front);
    if k < |s.ledger.executed| {
      OnlySafeStatementsExecuted(parts, six, front, k);
    } else {
      CacheIsTransparent(parts, front);
      RegisteredRulesSuffice(front, six);
      AllowedPasses(parts, six, RulesInForce("postgres", front), e.r.payload);
    }
  }

  /** With the six rules registered, a request is executed exactly if it is a payload that passes. */
  lemma ExecutedIffPasses<C(!new)>(
    parts: Assembly<C>, six: RuleClass -> C, events: seq<GatewayEvent<C>>, r: Request)
    requires ForPostgres(parts, six) && SixRegistered(events, six)
    ensures RunGateway(parts, events + [Serve(r)]).ledger.executed
         == RunGateway(parts, events).ledger.executed
            + if Passes(parts, RulesInForce("postgres", events), r.payload) then [r.payload] else []
  {
    EventSnoc(parts, events, Serve(r));
    CacheIsTransparent(parts, events);
    RegisteredRulesSuffice(events, six);
    AllowedPasses(parts, six, RulesInForce("postgres", events), r.payload);
    var executed := RunGateway(parts, events).ledger.executed;
    assert executed + [] == executed;
  }

  /** Without further rules that is every single, safe statement. */
  lemma SafeStatementsPass(parts: Assembly<RuleClass>, rules: seq<RuleClass>, payload: QueryPayload)
    requires ForPostgres(parts, rule => rule)
    ensures Passes(parts, rules, payload) <==> IsSafeStatement(parts.parse, payload)
  {
    if t: Statement :| ParsesTo(parts.parse, payload, t) && SafeStatement(t) {
      AllRulesMeanSafe(t);
      forall rule | rule in rules ensures parts.check(rule, t).Allow? {
        assert ((r: RuleClass) => r)(rule) == rule;
        assert parts.check(rule, t) == Check(rule, t);
      }
    }
  }

  lemma NonNullSkipsNothingElse(statements: seq<Option<Statement>>, t: Statement)
    requires NonNull(statements) == [t]
    ensures statements != [] && (statements[0].Some? ==> statements[0].value == t)
  {
    if statements[0].Some? {
      assert NonNull(statements)[0] == statements[0].value;
    }
  }

  /**
   The log entry of an allowed request shows the very statement that was executed, with every
   literal of it replaced; unless the parser put an empty statement first, and exactly then it
   shows the marker for unparseable text.
   */
  lemma AllowedIsLoggedRedacted(
    rules: seq<RuleClass>, parse: Parser, render: Renderer, pattern: NamePattern, payload: QueryPayload, t: Statement)
    requires (forall r :: r in POSTGRES_RULES ==> r in rules) && Validation(Check, rules, parse, payload).Allow?
    requires ParsesTo(parse, payload, t)
    ensures payload.Text? && parse(payload.sql).Parsed? && parse(payload.sql).statements != []
    ensures ScrubbedText(payload, parse, render, pattern)
         == if parse(payload.sql).statements[0].Some? then render(ScrubbedTree(t, pattern)) else "<unparseable>"
    ensures forall x: NodeId :: x in Literals(t) ==> !Under(Scrubbed(t, pattern), 0, x)
  {
    ParsesToMeaning(parse, payload, t);
    NonNullSkipsNothingElse(parse(payload.sql).statements, t);
    AllowedExactly(rules, parse, payload);
    SafeSelectHoldsNoMutation(t, 0);
    OriginalLiteralsGoneIffRootIsNoLiteral(t, pattern);
  }

  /**
   Two texts that parse, first of all, to statements of the same shape, use no literal as a column
   name and do not consist of a literal alone, are logged alike.
   */
  lemma LogIgnoresLiteralContents(
    parse: Parser, render: Renderer, pattern: NamePattern, p: QueryPayload, q: QueryPayload, t: Statement, u: Statement)
    requires p.Text? && q.Text? && ParseOne(parse(p.sql)) == Some(t) && ParseOne(parse(q.sql)) == Some(u)
    requires SameShape(t, u) && !t[0].kind.Literal?
    requires forall c: NodeId, v: NodeId :: Stores(t, c, v) && c < |t| ==> !NameFromLiteral(t, c)
    ensures ScrubbedText(p, parse, render, pattern) == ScrubbedText(q, parse, render, pattern)
  {
    ProperNamesScrubAlike(t, u, pattern);
  }
}
