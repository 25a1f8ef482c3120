/** One request: redact, validate, execute if allowed, and record what happened. */
module ExecuteQuery {
  import opened Basics
  import opened Numbers
  import opened ObservabilityEntries
  import opened ObservabilitySinks
  import opened PostgresRules
  import opened QueryScrubber
  import opened QueryValidator
  import opened RuleRegistry
  import opened SensitiveLiterals

  datatype QueryOutcome = QueryOutcome(
    succeeded: bool,
    columns: seq<string>,
    rows: seq<seq<Value>>,
    rowsWereTruncated: bool,
    rowsAffected: Option<int>,
    errorMessage: Option<string>,
    errorCode: Option<string>)

  datatype ExecuteQueryResult = ExecuteQueryResult(
    decision: Decision,
    requestId: string,
    redactedQuery: string,
    durationMs: Option<FiniteFloat>,
    validationResult: Option<ValidationResult>,
    queryOutcome: Option<QueryOutcome>)

  /** One call, with the readings its clocks give: the duration of the execution and the entry's time stamp. */
  datatype Request = Request(payload: QueryPayload, requestId: string, ms: FiniteFloat, stamp: string)

  /**
   The three ports, as a caller sees them over a run. The validator may judge each request differently,
   by how many it has seen before, and the data store may answer differently each time, by how many
   queries it has run before.
   */
  datatype Environment = Environment(
    scrub: QueryPayload -> string,
    validate: (nat, QueryPayload) -> ValidationResult,
    respond: (nat, QueryPayload) -> QueryOutcome,
    maxSampleRows: nat)

  function FirstRows(rows: seq<seq<Value>>, n: nat): seq<seq<Value>> {
    if n <= |rows| then rows[..n] else rows
  }

  function RejectedEntry(id: string, redacted: string, v: ValidationResult, stamp: string): ObservabilityEntry
    requires v.Reject?
  {
    ObservabilityEntry(id, REJECTED, redacted, Some(v.code), v.detail,
                       None, None, None, None, None, None, None, None, stamp)
  }

  function AllowedEntry(id: string, redacted: string, o: QueryOutcome, ms: FiniteFloat, sample: nat, stamp: string)
    : ObservabilityEntry
  {
    ObservabilityEntry(id, ALLOWED, redacted, None, None, None, None, Some(ms), o.rowsAffected, Some(|o.rows|),
                       Some(o.columns), Some(FirstRows(o.rows, sample)), Some(o.rowsWereTruncated), stamp)
  }

  function DbErrorEntry(id: string, redacted: string, o: QueryOutcome, ms: FiniteFloat, stamp: string)
    : ObservabilityEntry
  {
    ObservabilityEntry(id, DB_ERROR, redacted, None, None, o.errorMessage, o.errorCode, Some(ms),
                       None, None, None, None, None, stamp)
  }

  /** The data store behind the executor port, with the queries it was given. */
  class QueryExecutor {
    const respond: (nat, QueryPayload) -> QueryOutcome
    var executed: seq<QueryPayload>

    constructor (respond: (nat, QueryPayload) -> QueryOutcome)
      ensures this.respond == respond && executed == []
    {
      this.respond, executed := respond, [];
    }

    method Execute(payload: QueryPayload) returns (outcome: QueryOutcome)
      modifies this
      ensures executed == old(executed) + [payload] && outcome == respond(|old(executed)|, payload)
    {
      outcome := respond(|executed|, payload);
      executed := executed + [payload];
    }
  }

  /** What the gateway has done so far: queries handed to the data store, entries recorded, results returned. */
  datatype Ledger = Ledger(
    executed: seq<QueryPayload>, recorded: seq<ObservabilityEntry>, returned: seq<ExecuteQueryResult>)

  /** The entry and the result of one request, given the outcome of its execution should there be one. */
  function EntryFor(r: Request, redacted: string, verdict: ValidationResult, outcome: QueryOutcome, sample: nat)
    : ObservabilityEntry
  {
    if verdict.Reject? then RejectedEntry(r.requestId, redacted, verdict, r.stamp)
    else if outcome.succeeded then AllowedEntry(r.requestId, redacted, outcome, r.ms, sample, r.stamp)
    else DbErrorEntry(r.requestId, redacted, outcome, r.ms, r.stamp)
  }

  function ResultFor(r: Request, redacted: string, verdict: ValidationResult, outcome: QueryOutcome)
    : ExecuteQueryResult
  {
    if verdict.Reject? then ExecuteQueryResult(REJECTED, r.requestId, redacted, None, Some(verdict), None)
    else ExecuteQueryResult(if outcome.succeeded then ALLOWED else DB_ERROR,
                            r.requestId, redacted, Some(r.ms), None, Some(outcome))
  }

  function Judged(l: Ledger, r: Request, redacted: string, verdict: ValidationResult,
                  respond: (nat, QueryPayload) -> QueryOutcome, sample: nat): Ledger
  {
    var outcome := respond(|l.executed|, r.payload);
    Ledger(if verdict.Allow? then l.executed + [r.payload] else l.executed,
           l.recorded + [EntryFor(r, redacted, verdict, outcome, sample)],
           l.returned + [ResultFor(r, redacted, verdict, outcome)])
  }

  function Served(env: Environment, l: Ledger, r: Request): Ledger {
    Judged(l, r, env.scrub(r.payload), env.validate(|l.returned|, r.payload), env.respond, env.maxSampleRows)
  }

  // ---------------------------------------------------------------- the use case with its scrubber and validator

  /** What the parts of a gateway are made of. */
  datatype Assembly<!C> = Assembly(
    check: (C, Statement) -> ValidationResult,
    dialect: string,
    parse: Parser,
    scrubberParse: Parser,
    render: Renderer,
    pattern: NamePattern,
    respond: (nat, QueryPayload) -> QueryOutcome,
    maxSampleRows: nat)

  datatype GatewayState<C> = GatewayState(registry: RegistryState<C>, ledger: Ledger)

  /** One request: judged by the rules that are registered now, and redacted for the log. */
  ghost function ServedBy<C>(parts: Assembly<C>, s: GatewayState<C>, r: Request): GatewayState<C> {
    GatewayState(
      Consulted(s.registry, parts.dialect, parts.parse, r.payload),
      Judged(s.ledger, r, ScrubbedText(r.payload, parts.scrubberParse, parts.render, parts.pattern),
             Validation(parts.check, RulesOf(s.registry, parts.dialect), parts.parse, r.payload),
             parts.respond, parts.maxSampleRows))
  }

  class ExecuteQueryUseCase<C(==)> {
    const scrubber: SqlQueryScrubberAdapter
    const validator: SqlQueryValidator<C>
    const executor: QueryExecutor
    const recorder: MultiSinkObservabilityRecorderAdapter
    const maxSampleRows: nat

    ghost function Parts(): Assembly<C> {
      Assembly(validator.check, validator.dialect, validator.parse,
               scrubber.parse, scrubber.render, scrubber.pattern, executor.respond, maxSampleRows)
    }

    /** The state of all parts, given what was returned so far. */
    ghost function State(returned: seq<ExecuteQueryResult>): GatewayState<C>
      reads validator.registry, executor, recorder
    {
      GatewayState(validator.registry.State(), Ledger(executor.executed, recorder.received, returned))
    }

    constructor (scrubber: SqlQueryScrubberAdapter, validator: SqlQueryValidator<C>, executor: QueryExecutor,
                 recorder: MultiSinkObservabilityRecorderAdapter, maxSampleRows: nat)
      ensures this.scrubber == scrubber && this.validator == validator && this.executor == executor
      ensures this.recorder == recorder && this.maxSampleRows == maxSampleRows
    {
      this.scrubber, this.validator, this.executor := scrubber, validator, executor;
      this.recorder, this.maxSampleRows := recorder, maxSampleRows;
    }

    method Execute(r: Request) returns (result: ExecuteQueryResult)
      modifies validator.registry, executor, recorder
      ensures State([result]) == ServedBy(Parts(), old(State([])), r)
      ensures recorder.sinks == AllRecorded(old(recorder.sinks), recorder.received[|old(recorder.received)|])
    {
      var redactedQuery := scrubber.Scrub(r.payload);
      var validationResult := validator.Validate(r.payload);
      if validationResult.Reject? {
        result := RecordAndReturnRejected(r, redactedQuery, validationResult);
        return;
      }
      var outcome := executor.Execute(r.payload);
      if outcome.succeeded {
        result := RecordAndReturnAllowed(r, redactedQuery, outcome);
        return;
      }
      result := RecordAndReturnDbError(r, redactedQuery, outcome);
    }

    method RecordAndReturnRejected(r: Request, redactedQuery: string, validationResult: ValidationResult)
      returns (result: ExecuteQueryResult)
      requires validationResult.Reject?
      modifies recorder
      ensures forall o :: result == ResultFor(r, redactedQuery, validationResult, o)
                && RecordedOne(old(recorder.received), EntryFor(r, redactedQuery, validationResult, o, maxSampleRows))
      ensures recorder.sinks == AllRecorded(old(recorder.sinks), recorder.received[|old(recorder.received)|])
    {
      recorder.Record(RejectedEntry(r.requestId, redactedQuery, validationResult, r.stamp));
      result := ExecuteQueryResult(REJECTED, r.requestId, redactedQuery, None, Some(validationResult), None);
    }

    method RecordAndReturnAllowed(r: Request, redactedQuery: string, queryOutcome: QueryOutcome)
      returns (result: ExecuteQueryResult)
      requires queryOutcome.succeeded
      modifies recorder
      ensures result == ResultFor(r, redactedQuery, Allow, queryOutcome)
      ensures RecordedOne(old(recorder.received), EntryFor(r, redactedQuery, Allow, queryOutcome, maxSampleRows))
      ensures recorder.sinks == AllRecorded(old(recorder.sinks), recorder.received[|old(recorder.received)|])
    {
      recorder.Record(AllowedEntry(r.requestId, redactedQuery, queryOutcome, r.ms, maxSampleRows, r.stamp));
      result := ExecuteQueryResult(ALLOWED, r.requestId, redactedQuery, Some(r.ms), None, Some(queryOutcome));
    }

    method RecordAndReturnDbError(r: Request, redactedQuery: string, queryOutcome: QueryOutcome)
      returns (result: ExecuteQueryResult)
      requires !queryOutcome.succeeded
      modifies recorder
      ensures result == ResultFor(r, redactedQuery, Allow, queryOutcome)
      ensures RecordedOne(old(recorder.received), EntryFor(r, redactedQuery, Allow, queryOutcome, maxSampleRows))
      ensures recorder.sinks == AllRecorded(old(recorder.sinks), recorder.received[|old(recorder.received)|])
    {
      recorder.Record(DbErrorEntry(r.requestId, redactedQuery, queryOutcome, r.ms, r.stamp));
      result := ExecuteQueryResult(DB_ERROR, r.requestId, redactedQuery, Some(r.ms), None, Some(queryOutcome));
    }

    ghost predicate RecordedOne(before: seq<ObservabilityEntry>, entry: ObservabilityEntry)
      reads recorder
    {
      recorder.received == before + [entry]
    }
  }

  // ---------------------------------------------------------------- whole runs

  function Run(env: Environment, requests: seq<Request>): Ledger {
    if requests == [] then Ledger([], [], [])
    else Served(env, Run(env, requests[..|requests| - 1]), requests[|requests| - 1])
  }

  /** The payloads of the requests that the validator allows, in order. */
  function AllowedPayloads(env: Environment, requests: seq<Request>): seq<QueryPayload> {
    if requests == [] then []
    else
      var n, last := |requests| - 1, requests[|requests| - 1];
      AllowedPayloads(env, requests[..n]) + if env.validate(n, last.payload).Allow? then [last.payload] else []
  }

  /** The decision that request i deserves: by the verdict, and by the answer to the execution it causes. */
  function DueDecision(env: Environment, requests: seq<Request>, i: nat): Decision
    requires i < |requests|
  {
    if env.validate(i, requests[i].payload).Reject? then REJECTED
    else if env.respond(|AllowedPayloads(env, requests[..i])|, requests[i].payload).succeeded then ALLOWED
    else DB_ERROR
  }

  /** The answer of the data store to request i, if it gets as far as being executed. */
  function DueOutcome(env: Environment, requests: seq<Request>, i: nat): Option<QueryOutcome>
    requires i < |requests|
  {
    if env.validate(i, requests[i].payload).Reject? then None
    else Some(env.respond(|AllowedPayloads(env, requests[..i])|, requests[i].payload))
  }

  /** The entry holds no trace of an execution. */
  predicate NotExecuted(e: ObservabilityEntry) {
    && e.durationMs.None? && e.dbErrorMessage.None? && e.dbErrorCode.None? && NoRows(e)
  }

  predicate NoRows(e: ObservabilityEntry) {
    && e.rowsAffected.None? && e.rowsReturned.None? && e.columns.None? && e.rows.None? && e.rowsWereTruncated.None?
  }

  /** The rows shown are the first ones, as many as allowed. */
  predicate Samples(shown: Option<seq<seq<Value>>>, all: seq<seq<Value>>, atMost: nat) {
    && shown.Some? && shown.value <= all && |shown.value| <= atMost
    && (|shown.value| < atMost ==> shown.value == all)
  }

  /**
   The entry tells what the caller was told: a rejection with its code and detail and nothing of an
   execution; otherwise the duration and either the error or the counts, columns and first rows.
   */
  predicate Tells(e: ObservabilityEntry, r: ExecuteQueryResult, maxSampleRows: nat) {
    && e.requestId == r.requestId && e.redactedQuery == r.redactedQuery && e.decision == r.decision
    && match r.validationResult
       case Some(verdict) =>
         e.decision == REJECTED && r.queryOutcome.None? && r.durationMs.None? && NotExecuted(e)
         && e.rejectionCode.Some? && verdict == Reject(e.rejectionCode.value, e.rejectionDetail)
       case None =>
         r.queryOutcome.Some? && r.durationMs.Some? && e.durationMs == r.durationMs
         && e.rejectionCode.None? && e.rejectionDetail.None?
         && var o := r.queryOutcome.value;
            if o.succeeded then
              && e.decision == ALLOWED && e.dbErrorMessage.None? && e.dbErrorCode.None?
              && e.rowsAffected == o.rowsAffected && e.rowsReturned == Some(|o.rows|)
              && e.columns == Some(o.columns) && e.rowsWereTruncated == Some(o.rowsWereTruncated)
              && Samples(e.rows, o.rows, maxSampleRows)
            else
              e.decision == DB_ERROR && e.dbErrorMessage == o.errorMessage && e.dbErrorCode == o.errorCode && NoRows(e)
  }

  /** Request i has its result, with verdict, outcome, decision and duration that are due, and its entry tells it. */
  predicate Answered(env: Environment, requests: seq<Request>, l: Ledger, i: nat)
    requires i < |requests| && i < |l.recorded| && i < |l.returned|
  {
    var result, payload := l.returned[i], requests[i].payload;
    && result.requestId == requests[i].requestId && result.redactedQuery == env.scrub(payload)
    && result.decision == DueDecision(env, requests, i)
    && result.durationMs == (if result.decision == REJECTED then None else Some(requests[i].ms))
    && l.recorded[i].timestamp == requests[i].stamp
    && result.queryOutcome == DueOutcome(env, requests, i)
    && (result.validationResult.Some? ==> result.validationResult == Some(env.validate(i, payload)))
    && Tells(l.recorded[i], result, env.maxSampleRows)
  }

  ghost predicate Safe(env: Environment, requests: seq<Request>, l: Ledger) {
    && l.executed == AllowedPayloads(env, requests)
    && |l.recorded| == |l.returned| == |requests|
    && forall i :: 0 <= i < |requests| ==> Answered(env, requests, l, i)
  }

  lemma RunSnoc(env: Environment, front: seq<Request>, r: Request)
    ensures Run(env, front + [r]) == Served(env, Run(env, front), r)
  {
    var all := front + [r];
    assert all[..|all| - 1] == front;
  }

  lemma SafeStep(env: Environment, front: seq<Request>, r: Request)
    requires Safe(env, front, Run(env, front))
    ensures Safe(env, front + [r], Run(env, front + [r]))
  {
    RunSnoc(env, front, r);
    var requests, n, l := front + [r], |front|, Run(env, front);
    assert requests[..n] == front;
    var next := Served(env, l, r);
    forall i | 0 <= i < |requests| ensures Answered(env, requests, next, i) {
      if i < n {
        assert Answered(env, front, l, i);
        assert front[..i] == requests[..i];
      }
    }
  }

  /**
   Over any sequence of requests: one recorded entry and one result per request, in order, with the
   same id, redacted text and decision, which is the one that is due; and the data store was handed
   exactly the allowed requests, in order.
   */
  lemma {:induction false} RunIsSafe(env: Environment, requests: seq<Request>)
    ensures Safe(env, requests, Run(env, requests))
  {
    if requests != [] {
      var n := |requests| - 1;
      var front := requests[..n];
      RunIsSafe(env, front);
      SafeStep(env, front, requests[n]);
      assert front + [requests[n]] == requests;
    }
  }

  // ---------------------------------------------------------------- logs do not depend on result data

  /** Outcomes that agree on everything but cell values and column names. */
  predicate SameButData(o: QueryOutcome, p: QueryOutcome) {
    && o.succeeded == p.succeeded && |o.rows| == |p.rows|
    && o.rowsWereTruncated == p.rowsWereTruncated && o.rowsAffected == p.rowsAffected
    && o.errorMessage == p.errorMessage && o.errorCode == p.errorCode
  }

  ghost predicate SameButResponses(env: Environment, alt: Environment) {
    && alt == env.(respond := alt.respond)
    && forall n: nat, q :: SameButData(env.respond(n, q), alt.respond(n, q))
  }

  function RunThrough(env: Environment, requests: seq<Request>, s: Sink): Sink {
    RunSink(s, Run(env, requests).recorded)
  }

  lemma {:induction false} RunsAgreeButForData(env: Environment, alt: Environment, requests: seq<Request>)
    requires SameButResponses(env, alt)
    ensures Run(env, requests).executed == Run(alt, requests).executed
    ensures |Run(env, requests).returned| == |Run(alt, requests).returned|
    ensures |Run(env, requests).recorded| == |Run(alt, requests).recorded|
    ensures forall i :: 0 <= i < |Run(env, requests).recorded| ==>
              SameButResultData(Run(env, requests).recorded[i], Run(alt, requests).recorded[i])
  {
    if requests != [] {
      var n := |requests| - 1;
      RunsAgreeButForData(env, alt, requests[..n]);
      var l, m, r := Run(env, requests[..n]), Run(alt, requests[..n]), requests[n];
      assert SameButData(env.respond(|l.executed|, r.payload), alt.respond(|m.executed|, r.payload));
      EntriesAgreeButForData(r, env.scrub(r.payload), env.validate(n, r.payload), env.respond(|l.executed|, r.payload),
                             alt.respond(|m.executed|, r.payload), env.maxSampleRows);
      RunLengths(env, requests[..n]);
    }
  }

  lemma {:induction false} RunLengths(env: Environment, requests: seq<Request>)
    ensures |Run(env, requests).recorded| == |Run(env, requests).returned| == |requests|
  {
    if requests != [] {
      RunLengths(env, requests[..|requests| - 1]);
    }
  }

  lemma EntriesAgreeButForData(
    r: Request, redacted: string, verdict: ValidationResult, o: QueryOutcome, q: QueryOutcome, sample: nat)
    requires SameButData(o, q)
    ensures SameButResultData(EntryFor(r, redacted, verdict, o, sample), EntryFor(r, redacted, verdict, q, sample))
  {
  }

  lemma {:induction false} BlindSinksAgree(s: Sink, es: seq<ObservabilityEntry>, fs: seq<ObservabilityEntry>)
    requires !s.kind.InMemory? && |es| == |fs|
    requires forall i :: 0 <= i < |es| ==> SameButResultData(es[i], fs[i])
    ensures RunSink(s, es) == RunSink(s, fs)
  {
    if es != [] {
      var n := |es| - 1;
      BlindSinksAgree(s, es[..n], fs[..n]);
      RunKeepsKind(s, es[..n]);
      RestrictedSinksAreBlind(RunSink(s, es[..n]), es[n], fs[n]);
    }
  }

  /**
   Two runs whose query outcomes differ only in cell values and column names leave identical stdout
   and JSONL logs, whichever attempts to write fail.
   */
  lemma LogsIgnoreResultData(env: Environment, alt: Environment, requests: seq<Request>, s: Sink)
    requires SameButResponses(env, alt) && !s.kind.InMemory?
    ensures RunThrough(env, requests, s) == RunThrough(alt, requests, s)
  {
    RunsAgreeButForData(env, alt, requests);
    BlindSinksAgree(s, Run(env, requests).recorded, Run(alt, requests).recorded);
  }
}
