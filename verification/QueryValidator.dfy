/** Validation: parse once, then ask every registered rule in turn. */
module QueryValidator {
  import opened Basics
  import opened Messages
  import opened SyntaxTrees
  import opened QueryScrubber
  import opened PostgresRules
  import opened RuleRegistry

  /** `not text or not text.strip()` */
  predicate IsBlank(text: string) {
    forall i :: 0 <= i < |text| ==> IsSpace(text[i])
  }

  /** A blank text is one of which stripping leaves nothing. */
  lemma BlankIffStripsToNothing(text: string)
    ensures IsBlank(text) <==> StripRight(StripLeft(text)) == ""
  {
    var tail := StripLeft(text);
    StripLeftMeaning(text);
    StripRightMeaning(tail);
    assert text == text[..|text| - |tail|] + tail;
    if StripRight(tail) == "" {
      assert tail[0..] == tail;
      BlankConcat(text[..|text| - |tail|], tail);
    }
    assert tail != "" ==> tail[0] == text[|text| - |tail|];
  }

  lemma BlankConcat(a: string, b: string)
    requires AllSpace(a) && AllSpace(b)
    ensures IsBlank(a + b)
  {
  }

  function NonNull(statements: seq<Option<Statement>>): seq<Statement> {
    if statements == [] then []
    else (if statements[0].Some? then [statements[0].value] else []) + NonNull(statements[1..])
  }

  /** The verdict of the first rule that objects; Allow if none does. */
  function FirstObjection<C>(check: (C, Statement) -> ValidationResult, rules: seq<C>, t: Statement): ValidationResult {
    if rules == [] then Allow
    else if check(rules[0], t) != Allow then check(rules[0], t)
    else FirstObjection(check, rules[1..], t)
  }

  function Validation<C>(
    check: (C, Statement) -> ValidationResult, rules: seq<C>, parse: Parser, payload: QueryPayload): ValidationResult
  {
    match payload
    case NonText(typeName) => Reject("payload_type_mismatch", Some("SQL adapter expects a string, got " + typeName))
    case Text(text) =>
      if IsBlank(text) then Reject("empty_query", None)
      else match parse(text)
        case SqlglotError(message) => Reject("parse_error", Some(CompactFirstLine(message, 120)))
        case Parsed(statements) =>
          var present := NonNull(statements);
          if present == [] then Reject("empty_query", None)
          else if |present| > 1 then Reject("multi_statement", None)
          else FirstObjection(check, rules, present[0])
  }

  /** Validation gets as far as asking the rules. */
  predicate ReachesRules(parse: Parser, payload: QueryPayload) {
    && payload.Text? && !IsBlank(payload.sql) && parse(payload.sql).Parsed?
    && |NonNull(parse(payload.sql).statements)| == 1
  }

  /** The registry after a validation, which may have filled its cache. */
  function Consulted<C>(s: RegistryState<C>, dialect: string, parse: Parser, payload: QueryPayload): RegistryState<C> {
    if ReachesRules(parse, payload) then LookedUp(s, dialect) else s
  }

  /** The classes of the rules that the registry names for a dialect, cached or not. */
  function RulesOf<C>(s: RegistryState<C>, dialect: string): seq<C> {
    ClassesOf(LookedUp(s, dialect).instanceCache[dialect])
  }

  class SqlQueryValidator<C(==)> {
    const dialect: string
    const registry: RuleRegistry<C>
    const parse: Parser
    const check: (C, Statement) -> ValidationResult

    constructor (dialect: string, registry: RuleRegistry<C>, parse: Parser, check: (C, Statement) -> ValidationResult)
      ensures this.dialect == dialect && this.registry == registry && this.parse == parse && this.check == check
    {
      this.dialect, this.registry, this.parse, this.check := dialect, registry, parse, check;
    }

    method Validate(payload: QueryPayload) returns (result: ValidationResult)
      modifies registry
      ensures registry.State() == Consulted(old(registry.State()), dialect, parse, payload)
      ensures result == Validation(check, RulesOf(old(registry.State()), dialect), parse, payload)
    {
      ghost var classes := RulesOf(registry.State(), dialect);
      if payload.NonText? {
        return Reject("payload_type_mismatch", Some("SQL adapter expects a string, got " + payload.typeName));
      }
      if IsBlank(payload.sql) {
        return Reject("empty_query", None);
      }
      var parsed := parse(payload.sql);
      if parsed.SqlglotError? {
        return Reject("parse_error", Some(CompactFirstLine(parsed.message, 120)));
      }
      var present := NonNull(parsed.statements);
      if |present| == 0 {
        return Reject("empty_query", None);
      }
      if |present| > 1 {
        return Reject("multi_statement", None);
      }
      var rules := registry.RulesFor(dialect);
      for i := 0 to |rules|
        invariant FirstObjection(check, classes, present[0]) == FirstObjection(check, classes[i..], present[0])
      {
        var verdict := check(rules[i].cls, present[0]);
        assert classes[i..][0] == rules[i].cls && classes[i..][1..] == classes[i + 1..];
        if verdict != Allow {
          return verdict;
        }
      }
      return Allow;
    }
  }

  // ---------------------------------------------------------------- rules as a set and as a sequence

  lemma {:induction false} FirstObjectionMeaning<C>(
    check: (C, Statement) -> ValidationResult, rules: seq<C>, t: Statement)
    ensures FirstObjection(check, rules, t).Allow? <==> forall r :: r in rules ==> check(r, t).Allow?
    ensures FirstObjection(check, rules, t).Reject? ==>
              exists i :: 0 <= i < |rules| && check(rules[i], t) == FirstObjection(check, rules, t)
                && forall j :: 0 <= j < i ==> check(rules[j], t).Allow?
  {
    if rules != [] {
      var rest := rules[1..];
      FirstObjectionMeaning(check, rest, t);
      assert rules == [rules[0]] + rest;
      if check(rules[0], t).Allow? && FirstObjection(check, rest, t).Reject? {
        var i :| 0 <= i < |rest| && check(rest[i], t) == FirstObjection(check, rest, t)
          && forall j :: 0 <= j < i ==> check(rest[j], t).Allow?;
        assert rules[i + 1] == rest[i];
        forall j | 0 <= j < i + 1 ensures check(rules[j], t).Allow? {
          assert j > 0 ==> rules[j] == rest[j - 1];
        }
      }
    }
  }

  /** Acceptance depends on which rules are registered, not on their order or multiplicity. */
  lemma AcceptanceIgnoresOrder<C>(
    check: (C, Statement) -> ValidationResult, rules: seq<C>, other: seq<C>, parse: Parser, payload: QueryPayload)
    requires forall r :: r in rules <==> r in other
    ensures Validation(check, rules, parse, payload).Allow? <==> Validation(check, other, parse, payload).Allow?
  {
    AcceptanceShrinks(check, rules, other, parse, payload);
    AcceptanceShrinks(check, other, rules, parse, payload);
  }

  /** Adding rules can only take acceptance away. */
  lemma AcceptanceShrinks<C>(
    check: (C, Statement) -> ValidationResult, rules: seq<C>, more: seq<C>, parse: Parser, payload: QueryPayload)
    requires forall r :: r in rules ==> r in more
    ensures Validation(check, more, parse, payload).Allow? ==> Validation(check, rules, parse, payload).Allow?
  {
    if Validation(check, more, parse, payload).Allow? {
      var t := NonNull(parse(payload.sql).statements)[0];
      FirstObjectionMeaning(check, more, t);
      FirstObjectionMeaning(check, rules, t);
    }
  }

  // ---------------------------------------------------------------- how many statements there are

  /** At position i stands the only statement; everything else the parser returned is null. */
  ghost predicate OnlyAt(statements: seq<Option<Statement>>, i: nat) {
    i < |statements| && statements[i].Some? && forall j :: 0 <= j < |statements| && j != i ==> statements[j].None?
  }

  ghost predicate OnlyThere(statements: seq<Option<Statement>>, t: Statement) {
    exists i: nat :: OnlyAt(statements, i) && statements[i].value == t
  }

  ghost predicate NoneThere(statements: seq<Option<Statement>>) {
    forall i :: 0 <= i < |statements| ==> statements[i].None?
  }

  ghost predicate SeveralThere(statements: seq<Option<Statement>>) {
    exists i, j :: 0 <= i < j < |statements| && statements[i].Some? && statements[j].Some?
  }

  /** None, one or several statements are left, as there were none, one or several; and the one is left as it was. */
  lemma {:induction false} NonNullCounts(statements: seq<Option<Statement>>)
    ensures NonNull(statements) == [] <==> NoneThere(statements)
    ensures |NonNull(statements)| > 1 <==> SeveralThere(statements)
    ensures forall t :: NonNull(statements) == [t] <==> OnlyThere(statements, t)
  {
    if statements != [] {
      var rest := statements[1..];
      assert statements == [statements[0]] + rest;
      NonNullCounts(rest);
      if statements[0].None? {
        NullHead(statements);
        assert [] + NonNull(rest) == NonNull(rest);
      } else {
        StatementHead(statements);
        assert NonNull(statements) == [statements[0].value] + NonNull(rest);
        AloneIff(statements[0].value, NonNull(rest));
      }
    }
  }

  lemma AloneIff(head: Statement, rest: seq<Statement>)
    ensures forall t :: [head] + rest == [t] <==> rest == [] && head == t
  {
    var all := [head] + rest;
    assert all[0] == head && |all| == 1 + |rest|;
    assert rest == [] ==> all == [head];
  }

  lemma NullHead(statements: seq<Option<Statement>>)
    requires statements != [] && statements[0].None?
    ensures NoneThere(statements) <==> NoneThere(statements[1..])
    ensures SeveralThere(statements) <==> SeveralThere(statements[1..])
    ensures forall t :: OnlyThere(statements, t) <==> OnlyThere(statements[1..], t)
  {
    var rest := statements[1..];
    assert forall i :: 0 <= i < |rest| ==> rest[i] == statements[i + 1];
    forall t ensures OnlyThere(statements, t) <==> OnlyThere(rest, t) {
      if i: nat :| OnlyAt(statements, i) && statements[i].value == t {
        assert OnlyAt(rest, i - 1);
      }
      if i: nat :| OnlyAt(rest, i) && rest[i].value == t {
        assert OnlyAt(statements, i + 1);
      }
    }
    if SeveralThere(statements) {
      var i, j :| 0 <= i < j < |statements| && statements[i].Some? && statements[j].Some?;
      assert rest[i - 1].Some? && rest[j - 1].Some?;
    }
    if SeveralThere(rest) {
      var i, j :| 0 <= i < j < |rest| && rest[i].Some? && rest[j].Some?;
      assert statements[i + 1].Some? && statements[j + 1].Some?;
    }
  }

  lemma StatementHead(statements: seq<Option<Statement>>)
    requires statements != [] && statements[0].Some?
    ensures SeveralThere(statements) <==> !NoneThere(statements[1..])
    ensures forall t :: OnlyThere(statements, t) <==> statements[0].value == t && NoneThere(statements[1..])
  {
    var rest := statements[1..];
    assert forall i :: 0 <= i < |rest| ==> rest[i] == statements[i + 1];
    if NoneThere(rest) {
      assert OnlyAt(statements, 0);
    }
    forall i: nat | 0 < i ensures !OnlyAt(statements, i) {
      assert statements[0].Some?;
    }
    if SeveralThere(statements) {
      var i, j :| 0 <= i < j < |statements| && statements[i].Some? && statements[j].Some?;
      assert rest[j - 1].Some?;
    }
    if i :| 0 <= i < |rest| && rest[i].Some? {
      assert statements[0].Some? && statements[i + 1].Some?;
    }
  }

  /** The payload is a text that is not blank and that the parser reads as `statements`. */
  ghost predicate Reads(parse: Parser, payload: QueryPayload, statements: seq<Option<Statement>>) {
    payload.Text? && !IsBlank(payload.sql) && parse(payload.sql) == Parsed(statements)
  }

  /** The payload is read as t, and as nothing else besides. */
  ghost predicate ParsesTo(parse: Parser, payload: QueryPayload, t: Statement) {
    exists found :: Reads(parse, payload, found) && OnlyThere(found, t)
  }

  lemma ParsesToMeaning(parse: Parser, payload: QueryPayload, t: Statement)
    ensures ParsesTo(parse, payload, t) <==>
            && payload.Text? && !IsBlank(payload.sql)
            && parse(payload.sql).Parsed? && NonNull(parse(payload.sql).statements) == [t]
  {
    if payload.Text? && !IsBlank(payload.sql) && parse(payload.sql).Parsed? {
      var statements := parse(payload.sql).statements;
      NonNullCounts(statements);
      assert Reads(parse, payload, statements);
    }
  }

  lemma EveryRuleIsListed(r: RuleClass)
    ensures r in POSTGRES_RULES
  {
    match r {
      case AllowedRootStatementRule => case BoundedWriteRule => case NoDangerousFunctionsRule =>
      case NoDataModifyingCteRule => case NoForbiddenConstructsRule => case NoSelectIntoRule =>
    }
  }

  /** With the six rules in any order, validation allows exactly the texts that are one safe statement. */
  lemma AllowedExactly(rules: seq<RuleClass>, parse: Parser, payload: QueryPayload)
    requires forall r :: r in POSTGRES_RULES ==> r in rules
    ensures Validation(Check, rules, parse, payload).Allow? <==>
            exists t: Statement :: ParsesTo(parse, payload, t) && SafeStatement(t)
  {
    forall t: Statement | ParsesTo(parse, payload, t)
      ensures payload.Text? && !IsBlank(payload.sql) && parse(payload.sql).Parsed?
      ensures NonNull(parse(payload.sql).statements) == [t]
    {
      ParsesToMeaning(parse, payload, t);
    }
    if payload.Text? && !IsBlank(payload.sql) && parse(payload.sql).Parsed? {
      var present := NonNull(parse(payload.sql).statements);
      if |present| == 1 {
        assert present == [present[0]];
        ParsesToMeaning(parse, payload, present[0]);
        FirstObjectionMeaning(Check, rules, present[0]);
        AllRulesMeanSafe(present[0]);
        forall r: RuleClass ensures r in rules {
          EveryRuleIsListed(r);
        }
      }
    }
  }

  /** The codes of the rules are none of those that the earlier stages report. */
  lemma RuleCodes(r: RuleClass, t: Statement)
    requires Check(r, t).Reject?
    ensures Check(r, t).code !in {"payload_type_mismatch", "empty_query", "parse_error", "multi_statement"}
  {
  }

  /**
   The code of a rejection tells how far validation got, and why it stopped there: a payload of another
   type, a text that is blank or read as no statement at all, one that does not parse, and one that is
   read as several statements, each have their own code, and details as short as one line of 120.
   */
  lemma CodeTellsStage(rules: seq<RuleClass>, parse: Parser, payload: QueryPayload)
    ensures var v := Validation(Check, rules, parse, payload);
            && (v.Reject? && v.code == "payload_type_mismatch" <==> payload.NonText?)
            && (v.Reject? && v.code == "empty_query" <==>
                  && payload.Text?
                  && (IsBlank(payload.sql) || exists found :: Reads(parse, payload, found) && NoneThere(found)))
            && (v.Reject? && v.code == "parse_error" <==>
                  payload.Text? && !IsBlank(payload.sql) && parse(payload.sql).SqlglotError?)
            && (v.Reject? && v.code == "multi_statement" <==>
                  exists found :: Reads(parse, payload, found) && SeveralThere(found))
    ensures DetailTellsStage(Validation(Check, rules, parse, payload), parse, payload)
  {
    if payload.Text? && !IsBlank(payload.sql) && parse(payload.sql).Parsed? {
      var statements := parse(payload.sql).statements;
      assert Reads(parse, payload, statements);
      NonNullCounts(statements);
      var present := NonNull(statements);
      if |present| == 1 {
        VerdictIsARules(rules, present[0]);
      }
    }
    if payload.Text? && !IsBlank(payload.sql) && parse(payload.sql).SqlglotError? {
      CompactLength(parse(payload.sql).message, 120);
    }
  }

  lemma VerdictIsARules(rules: seq<RuleClass>, t: Statement)
    ensures FirstObjection(Check, rules, t).Reject? ==>
              FirstObjection(Check, rules, t).code
                !in {"payload_type_mismatch", "empty_query", "parse_error", "multi_statement"}
  {
    FirstObjectionMeaning(Check, rules, t);
    if FirstObjection(Check, rules, t).Reject? {
      var i :| 0 <= i < |rules| && Check(rules[i], t) == FirstObjection(Check, rules, t);
      RuleCodes(rules[i], t);
    }
  }

  /** Only a type mismatch and a parse error have a detail; that of a parse error is short. */
  ghost predicate DetailTellsStage(v: ValidationResult, parse: Parser, payload: QueryPayload) {
    v.Reject? ==>
      && (v.code == "payload_type_mismatch" ==>
            payload.NonText? && v.detail == Some("SQL adapter expects a string, got " + payload.typeName))
      && (v.code == "empty_query" || v.code == "multi_statement" ==> v.detail == None)
      && (v.code == "parse_error" ==>
            payload.Text? && parse(payload.sql).SqlglotError?
            && v.detail == Some(CompactFirstLine(parse(payload.sql).message, 120)) && |v.detail.value| <= 120)
  }

  // ---------------------------------------------------------------- what does depend on the order

  /** The same rules in another order. */
  ghost predicate Reordered<C>(rules: seq<C>, other: seq<C>) {
    multiset(rules) == multiset(other)
  }

  /** Whatever the order of the rules, the verdict on t is the same. */
  ghost predicate VerdictIgnoresOrder<C(!new)>(check: (C, Statement) -> ValidationResult, rules: seq<C>, t: Statement) {
    forall other: seq<C> ::
      Reordered(rules, other) ==> FirstObjection(check, other, t) == FirstObjection(check, rules, t)
  }

  /** All rules that object to t object in the same words. */
  ghost predicate ObjectionsAgree<C(!new)>(check: (C, Statement) -> ValidationResult, rules: seq<C>, t: Statement) {
    forall r, s :: r in rules && s in rules && check(r, t).Reject? && check(s, t).Reject? ==> check(r, t) == check(s, t)
  }

  /** The rules with r moved to the front. */
  lemma MovedToFront<C>(check: (C, Statement) -> ValidationResult, rules: seq<C>, r: C, t: Statement)
    returns (other: seq<C>)
    requires r in rules && check(r, t).Reject?
    ensures Reordered(rules, other) && FirstObjection(check, other, t) == check(r, t)
  {
    var i :| 0 <= i < |rules| && rules[i] == r;
    var before, after := rules[..i], rules[i + 1..];
    assert rules == before + [r] + after;
    other := [r] + before + after;
    assert other[0] == r;
  }

  /** The reported code and detail depend on the order exactly when two rules object differently. */
  lemma VerdictIgnoresOrderIff<C(!new)>(check: (C, Statement) -> ValidationResult, rules: seq<C>, t: Statement)
    ensures VerdictIgnoresOrder(check, rules, t) <==> ObjectionsAgree(check, rules, t)
  {
    if VerdictIgnoresOrder(check, rules, t) {
      forall r, s | r in rules && s in rules && check(r, t).Reject? && check(s, t).Reject?
        ensures check(r, t) == check(s, t)
      {
        var first := MovedToFront(check, rules, r, t);
        var second := MovedToFront(check, rules, s, t);
      }
    }
    if ObjectionsAgree(check, rules, t) {
      forall other: seq<C> | Reordered(rules, other)
        ensures FirstObjection(check, other, t) == FirstObjection(check, rules, t)
      {
        assert forall r :: r in rules <==> r in multiset(rules);
        assert forall r :: r in other <==> r in multiset(other);
        FirstObjectionMeaning(check, rules, t);
        FirstObjectionMeaning(check, other, t);
      }
    }
  }

  /**
   Registration follows an unsorted walk over the rule files. A statement whose root is a DROP or
   another forbidden construct is refused by the root rule and by the construct rule; if nothing
   else is wrong with it, their order decides which code is reported.
   */
  lemma ForbiddenRootCodeDependsOnOrder(rules: seq<RuleClass>, t: Statement, name: string)
    requires AllowedRootStatementRule in rules && NoForbiddenConstructsRule in rules
    requires NamesForbidden(t[0].kind, name) && !HoldsDangerousCall(t) && !HoldsMutation(t)
    ensures FirstObjection(Check, rules, t) ==
            if IndexIn(rules, AllowedRootStatementRule) < IndexIn(rules, NoForbiddenConstructsRule)
            then Reject("root_not_allowed", Some(name))
            else Reject("forbidden_construct", Some(name))
  {
    ForbiddenRootVerdicts(t, name);
    FirstObjectionMeaning(Check, rules, t);
  }

  lemma ForbiddenRootVerdicts(t: Statement, name: string)
    requires NamesForbidden(t[0].kind, name) && !HoldsDangerousCall(t) && !HoldsMutation(t)
    ensures forall r :: Check(r, t) ==
              match r
              case AllowedRootStatementRule => Reject("root_not_allowed", Some(name))
              case NoForbiddenConstructsRule => Reject("forbidden_construct", Some(name))
              case _ => Allow
  {
    DangerousRuleExactly(t);
    CteRuleExactly(t);
    assert WalkOrder(t, 0)[0] == 0;
    assert FirstWhere(WalkOrder(t, 0), ForbiddenIn(t)) == Some(0);
  }
}
