/** The six checks on a parsed statement, and what their conjunction guarantees. */
module PostgresRules {
  import opened Basics
  import opened SyntaxTrees
  import opened QueryScrubber

  datatype ValidationResult = Allow | Reject(code: string, detail: Option<string>)

  datatype RuleClass =
    | AllowedRootStatementRule
    | BoundedWriteRule
    | NoDangerousFunctionsRule
    | NoDataModifyingCteRule
    | NoForbiddenConstructsRule
    | NoSelectIntoRule

  const POSTGRES_RULES: set<RuleClass> :=
    {AllowedRootStatementRule, BoundedWriteRule, NoDangerousFunctionsRule,
     NoDataModifyingCteRule, NoForbiddenConstructsRule, NoSelectIntoRule}

  const DANGEROUS_FUNCTION_NAMES: set<string> := {
    "pg_read_file", "pg_read_binary_file", "pg_write_file", "pg_ls_dir", "pg_stat_file",
    "pg_read_server_files", "pg_execute_server_program",
    "dblink", "dblink_exec", "dblink_connect", "dblink_send_query",
    "lo_import", "lo_export", "copy_from_program"}

  /** `type(node).__name__` */
  function ClassName(k: Kind): string {
    match k
    case Select => "Select" case Insert => "Insert" case Update => "Update" case Delete => "Delete"
    case Eq => "EQ" case Column => "Column" case Tuple => "Tuple" case Schema => "Schema" case Values => "Values"
    case Literal => "Literal" case Placeholder => "Placeholder" case Identifier => "Identifier"
    case Var => "Var" case Star => "Star" case Null => "Null"
    case Drop => "Drop" case Alter => "Alter" case Create => "Create" case TruncateTable => "TruncateTable"
    case Transaction => "Transaction" case Commit => "Commit" case Rollback => "Rollback"
    case Func(name) => name
    case Other(name) => name
  }

  predicate IsMutation(k: Kind) {
    k.Insert? || k.Update? || k.Delete?
  }

  predicate IsForbidden(k: Kind) {
    k.Drop? || k.Alter? || k.Create? || k.TruncateTable? || k.Transaction? || k.Commit? || k.Rollback?
  }

  /** `str.lower` on the characters that can produce an ASCII letter: A to Z and the Kelvin sign. */
  function LowerChar(c: char): char {
    if 'A' <= c <= 'Z' then c + ('a' - 'A') else if c == '\U{212a}' then 'k' else c
  }

  function Lower(s: string): string {
    seq(|s|, i requires 0 <= i < |s| => LowerChar(s[i]))
  }

  predicate IsDangerous(t: Arena, n: NodeId) {
    n < |t| && t[n].kind.Func? && Lower(Name(t, n)) in DANGEROUS_FUNCTION_NAMES
  }

  /** The first element of a walk that satisfies a test, as the search loops find it. */
  function FirstWhere(ids: seq<NodeId>, test: NodeId -> bool): Option<NodeId> {
    if ids == [] then None
    else if test(ids[0]) then Some(ids[0])
    else FirstWhere(ids[1..], test)
  }

  lemma {:induction false} FirstWhereMeaning(ids: seq<NodeId>, test: NodeId -> bool)
    ensures FirstWhere(ids, test).None? <==> forall i :: 0 <= i < |ids| ==> !test(ids[i])
    ensures FirstWhere(ids, test).Some? ==>
              exists i :: 0 <= i < |ids| && ids[i] == FirstWhere(ids, test).value && test(ids[i])
                && forall j :: 0 <= j < i ==> !test(ids[j])
  {
    if ids != [] {
      FirstWhereMeaning(ids[1..], test);
      if !test(ids[0]) && FirstWhere(ids[1..], test).Some? {
        var i :| 0 <= i < |ids[1..]| && ids[1..][i] == FirstWhere(ids[1..], test).value && test(ids[1..][i])
          && forall j :: 0 <= j < i ==> !test(ids[1..][j]);
        assert ids[i + 1] == ids[1..][i];
        forall j | 0 <= j < i + 1 ensures !test(ids[j]) {
          assert j > 0 ==> ids[j] == ids[1..][j - 1];
        }
      }
      assert forall i :: 0 < i < |ids| ==> ids[i] == ids[1..][i - 1];
    }
  }

  function ForbiddenIn(t: Statement): NodeId -> bool {
    (n: NodeId) => n < |t| && IsForbidden(t[n].kind)
  }

  function DangerousIn(t: Statement): NodeId -> bool {
    (n: NodeId) => IsDangerous(t, n)
  }

  /** Mutations other than the statement itself, which is told apart by identity. */
  function InnerMutationIn(t: Statement): NodeId -> bool {
    (n: NodeId) => n != 0 && n < |t| && IsMutation(t[n].kind)
  }

  function Check(rule: RuleClass, t: Statement): ValidationResult {
    match rule
    case AllowedRootStatementRule =>
      if t[0].kind.Select? || IsMutation(t[0].kind) then Allow
      else Reject("root_not_allowed", Some(ClassName(t[0].kind)))
    case BoundedWriteRule =>
      if !(t[0].kind.Update? || t[0].kind.Delete?) then Allow
      else if Arg(t, 0, "where").None? then Reject("unbounded_write", None)
      else Allow
    case NoDangerousFunctionsRule =>
      var found := FirstWhere(WalkOrder(t, 0), DangerousIn(t));
      if found.Some? then Reject("dangerous_function", Some(Lower(Name(t, found.value)))) else Allow
    case NoDataModifyingCteRule =>
      if FirstWhere(WalkOrder(t, 0), InnerMutationIn(t)).Some? then Reject("data_modifying_cte", None) else Allow
    case NoForbiddenConstructsRule =>
      var found := FirstWhere(WalkOrder(t, 0), ForbiddenIn(t));
      if found.Some? && found.value < |t|
      then Reject("forbidden_construct", Some(ClassName(t[found.value].kind))) else Allow
    case NoSelectIntoRule =>
      if !t[0].kind.Select? then Allow
      else if Arg(t, 0, "into").Some? then Reject("select_into", None)
      else Allow
  }

  // ---------------------------------------------------------------- searching the whole statement

  ghost predicate NowhereBelow(t: Statement, test: NodeId -> bool) {
    forall n: NodeId :: n < |t| && Under(t, 0, n) ==> !test(n)
  }

  lemma SearchFindsNothing(t: Statement, test: NodeId -> bool)
    ensures FirstWhere(WalkOrder(t, 0), test).None? <==> NowhereBelow(t, test)
  {
    var order := WalkOrder(t, 0);
    FirstWhereMeaning(order, test);
    forall n: NodeId ensures n in order <==> n < |t| && Under(t, 0, n) {
      WalkMember(t, 0, n);
    }
    if forall i :: 0 <= i < |order| ==> !test(order[i]) {
      forall n: NodeId | n < |t| && Under(t, 0, n) ensures !test(n) {
        var i :| 0 <= i < |order| && order[i] == n;
      }
    } else {
      var i :| 0 <= i < |order| && test(order[i]);
      assert order[i] in order;
    }
  }

  // ---------------------------------------------------------------- each check, without walks

  ghost predicate InStatement(t: Statement, n: NodeId) {
    n < |t| && Under(t, 0, n)
  }

  /** Two spellings of a word in small letters: letter by letter the same, or the capital, or the Kelvin sign for k. */
  predicate SpeltAlike(word: string, small: string) {
    && |word| == |small|
    && forall i :: 0 <= i < |word| ==>
         || (word[i] == small[i] && !('A' <= word[i] <= 'Z') && word[i] != '\U{212a}')
         || ('a' <= small[i] <= 'z' && word[i] as int == small[i] as int - 32)
         || (small[i] == 'k' && word[i] == '\U{212a}')
  }

  lemma LowerMeaning(word: string, small: string)
    ensures Lower(word) == small <==> SpeltAlike(word, small)
  {
    var lower := Lower(word);
    if lower == small {
      forall i | 0 <= i < |word| ensures lower[i] == LowerChar(word[i]) == small[i] {
      }
    }
  }

  /** Functions that read or write files of the database server, move large objects, or run programs. */
  predicate TouchesServer(name: string) {
    || name == "pg_read_file" || name == "pg_read_binary_file" || name == "pg_write_file" || name == "pg_ls_dir"
    || name == "pg_stat_file" || name == "pg_read_server_files" || name == "pg_execute_server_program"
    || name == "copy_from_program" || name == "lo_import" || name == "lo_export"
  }

  /** Functions that reach other databases. */
  predicate LeavesDatabase(name: string) {
    name == "dblink" || name == "dblink_exec" || name == "dblink_connect" || name == "dblink_send_query"
  }

  predicate IsSideEffect(name: string) {
    TouchesServer(name) || LeavesDatabase(name)
  }

  lemma ListedAreSideEffects(name: string)
    ensures name in DANGEROUS_FUNCTION_NAMES <==> IsSideEffect(name)
  {
  }

  /** A call of the function whose name in small letters is `name`. */
  ghost predicate Calls(t: Statement, n: NodeId, name: string) {
    n < |t| && t[n].kind.Func? && exists word :: IsCalled(t, n, word) && SpeltAlike(word, name)
  }

  lemma DangerousMeaning(t: Statement, n: NodeId)
    ensures IsDangerous(t, n) <==> exists name :: IsSideEffect(name) && Calls(t, n, name)
    ensures IsDangerous(t, n) ==> IsSideEffect(Lower(Name(t, n))) && Calls(t, n, Lower(Name(t, n)))
  {
    if n < |t| && t[n].kind.Func? {
      var own := Name(t, n);
      NameMeaning(t, n, own);
      LowerMeaning(own, Lower(own));
      ListedAreSideEffects(Lower(own));
      if name :| IsSideEffect(name) && Calls(t, n, name) {
        var word :| IsCalled(t, n, word) && SpeltAlike(word, name);
        NameMeaning(t, n, word);
        LowerMeaning(word, name);
      }
      assert own == "" ==> |Lower(own)| == 0;
    }
  }

  /** Only a SELECT, an INSERT, an UPDATE or a DELETE gets past the root check. */
  lemma RootRuleExactly(t: Statement)
    ensures Check(AllowedRootStatementRule, t)
         == if t[0].kind.Select? || t[0].kind.Insert? || t[0].kind.Update? || t[0].kind.Delete? then Allow
            else Reject("root_not_allowed", Some(ClassName(t[0].kind)))
  {
  }

  ghost predicate HasArgument(t: Statement, n: NodeId, key: string) {
    n < |t| && exists c: NodeId :: c in t[n].children && c < |t| && t[c].argKey == key
  }

  lemma ArgumentFound(t: Statement, n: NodeId, key: string)
    ensures Arg(t, n, key).Some? <==> HasArgument(t, n, key)
  {
    ArgMeaning(t, n, key);
  }

  lemma WriteRuleExactly(t: Statement)
    ensures Check(BoundedWriteRule, t)
         == if (t[0].kind.Update? || t[0].kind.Delete?) && !HasArgument(t, 0, "where")
            then Reject("unbounded_write", None) else Allow
  {
    ArgumentFound(t, 0, "where");
  }

  lemma IntoRuleExactly(t: Statement)
    ensures Check(NoSelectIntoRule, t)
         == if t[0].kind.Select? && HasArgument(t, 0, "into") then Reject("select_into", None) else Allow
  {
    ArgumentFound(t, 0, "into");
  }

  /** An INSERT, UPDATE or DELETE anywhere but at the root. */
  ghost predicate HoldsMutation(t: Statement) {
    exists n: NodeId :: InStatement(t, n) && n != 0 && (t[n].kind.Insert? || t[n].kind.Update? || t[n].kind.Delete?)
  }

  lemma CteRuleExactly(t: Statement)
    ensures Check(NoDataModifyingCteRule, t)
         == if HoldsMutation(t) then Reject("data_modifying_cte", None) else Allow
  {
    SearchFindsNothing(t, InnerMutationIn(t));
    if n: NodeId :| InStatement(t, n) && InnerMutationIn(t)(n) {
      assert HoldsMutation(t);
    }
    if HoldsMutation(t) {
      var n: NodeId :|
        InStatement(t, n) && n != 0 && (t[n].kind.Insert? || t[n].kind.Update? || t[n].kind.Delete?);
      assert InnerMutationIn(t)(n);
    }
  }

  ghost predicate HoldsForbidden(t: Statement) {
    exists n: NodeId :: InStatement(t, n)
      && (|| t[n].kind.Drop? || t[n].kind.Alter? || t[n].kind.Create? || t[n].kind.TruncateTable?
          || t[n].kind.Transaction? || t[n].kind.Commit? || t[n].kind.Rollback?)
  }

  lemma ForbiddenRuleExactly(t: Statement)
    ensures if HoldsForbidden(t)
            then exists name :: Check(NoForbiddenConstructsRule, t) == Reject("forbidden_construct", Some(name))
            else Check(NoForbiddenConstructsRule, t) == Allow
  {
    ForbiddenFoundInside(t);
    SearchFindsNothing(t, ForbiddenIn(t));
    if n: NodeId :| InStatement(t, n) && ForbiddenIn(t)(n) {
      assert HoldsForbidden(t);
    }
    if HoldsForbidden(t) {
      var n: NodeId :| InStatement(t, n)
        && (|| t[n].kind.Drop? || t[n].kind.Alter? || t[n].kind.Create? || t[n].kind.TruncateTable?
            || t[n].kind.Transaction? || t[n].kind.Commit? || t[n].kind.Rollback?);
      assert ForbiddenIn(t)(n);
    }
  }

  ghost predicate HoldsDangerousCall(t: Statement) {
    exists n: NodeId, name :: InStatement(t, n) && IsSideEffect(name) && Calls(t, n, name)
  }

  lemma DangerousRuleExactly(t: Statement)
    ensures if HoldsDangerousCall(t)
            then exists n: NodeId, name :: InStatement(t, n) && IsSideEffect(name) && Calls(t, n, name)
                   && Check(NoDangerousFunctionsRule, t) == Reject("dangerous_function", Some(name))
            else Check(NoDangerousFunctionsRule, t) == Allow
  {
    SearchFindsNothing(t, DangerousIn(t));
    FirstWhereMeaning(WalkOrder(t, 0), DangerousIn(t));
    var found := FirstWhere(WalkOrder(t, 0), DangerousIn(t));
    if found.Some? {
      var n := found.value;
      assert n in WalkOrder(t, 0);
      WalkMember(t, 0, n);
      DangerousMeaning(t, n);
      assert InStatement(t, n) && IsSideEffect(Lower(Name(t, n)));
    }
    if n: NodeId, name :| InStatement(t, n) && IsSideEffect(name) && Calls(t, n, name) {
      DangerousMeaning(t, n);
      assert DangerousIn(t)(n);
    }
  }

  lemma ForbiddenFoundInside(t: Statement)
    ensures var found := FirstWhere(WalkOrder(t, 0), ForbiddenIn(t)); found.Some? ==> found.value < |t|
  {
    FirstWhereMeaning(WalkOrder(t, 0), ForbiddenIn(t));
  }

  // ---------------------------------------------------------------- the conjunction

  /** What an accepted statement looks like, without reference to walks or rules. */
  ghost predicate SafeStatement(t: Statement) {
    && (t[0].kind.Select? || t[0].kind.Insert? || t[0].kind.Update? || t[0].kind.Delete?)
    && (t[0].kind.Select? ==> !HasArgument(t, 0, "into"))
    && !HoldsDangerousCall(t) && !HoldsForbidden(t) && !HoldsMutation(t)
    && forall n: NodeId :: InStatement(t, n) && (t[n].kind.Update? || t[n].kind.Delete?) ==> HasArgument(t, n, "where")
  }

  lemma ChecksExactly(t: Statement)
    ensures Check(AllowedRootStatementRule, t).Allow? <==>
            t[0].kind.Select? || t[0].kind.Insert? || t[0].kind.Update? || t[0].kind.Delete?
    ensures Check(BoundedWriteRule, t).Allow? <==>
            (t[0].kind.Update? || t[0].kind.Delete? ==> HasArgument(t, 0, "where"))
    ensures Check(NoSelectIntoRule, t).Allow? <==> (t[0].kind.Select? ==> !HasArgument(t, 0, "into"))
    ensures Check(NoDangerousFunctionsRule, t).Allow? <==> !HoldsDangerousCall(t)
    ensures Check(NoForbiddenConstructsRule, t).Allow? <==> !HoldsForbidden(t)
    ensures Check(NoDataModifyingCteRule, t).Allow? <==> !HoldsMutation(t)
  {
    RootRuleExactly(t);
    WriteRuleExactly(t);
    IntoRuleExactly(t);
    DangerousRuleExactly(t);
    ForbiddenRuleExactly(t);
    CteRuleExactly(t);
  }

  lemma EveryRule(t: Statement)
    ensures (forall rule :: Check(rule, t).Allow?) <==>
            && Check(AllowedRootStatementRule, t).Allow? && Check(BoundedWriteRule, t).Allow?
            && Check(NoDangerousFunctionsRule, t).Allow? && Check(NoDataModifyingCteRule, t).Allow?
            && Check(NoForbiddenConstructsRule, t).Allow? && Check(NoSelectIntoRule, t).Allow?
  {
    if && Check(AllowedRootStatementRule, t).Allow? && Check(BoundedWriteRule, t).Allow?
       && Check(NoDangerousFunctionsRule, t).Allow? && Check(NoDataModifyingCteRule, t).Allow?
       && Check(NoForbiddenConstructsRule, t).Allow? && Check(NoSelectIntoRule, t).Allow?
    {
      forall rule ensures Check(rule, t).Allow? {
        match rule {
          case AllowedRootStatementRule => case BoundedWriteRule => case NoDangerousFunctionsRule =>
          case NoDataModifyingCteRule => case NoForbiddenConstructsRule => case NoSelectIntoRule =>
        }
      }
    }
  }

  /**
   The six checks together hold exactly for safe statements: although the WHERE check looks only
   at the root, every UPDATE and DELETE anywhere in the tree is then bounded.
   */
  lemma AllRulesMeanSafe(t: Statement)
    ensures (forall rule :: Check(rule, t).Allow?) <==> SafeStatement(t)
  {
    EveryRule(t);
    ChecksExactly(t);
    assert InStatement(t, 0);
  }

  /** A SELECT that passes contains no INSERT, UPDATE or DELETE at all, and no statement's root is a literal. */
  lemma SafeSelectHoldsNoMutation(t: Statement, n: NodeId)
    requires SafeStatement(t) && n < |t| && Under(t, 0, n)
    ensures t[0].kind.Select? ==> !t[n].kind.Insert? && !t[n].kind.Update? && !t[n].kind.Delete?
    ensures !t[0].kind.Literal?
  {
    assert InStatement(t, n);
  }

  /** The detail of a rejection names the first forbidden construct in breadth-first order. */
  lemma ForbiddenDetailIsFirst(t: Statement) returns (i: nat)
    requires HoldsForbidden(t)
    ensures i < |WalkOrder(t, 0)| && WalkOrder(t, 0)[i] < |t|
    ensures exists name ::
              && Check(NoForbiddenConstructsRule, t) == Reject("forbidden_construct", Some(name))
              && NamesForbidden(t[WalkOrder(t, 0)[i]].kind, name)
    ensures forall j, name ::
              0 <= j < i && WalkOrder(t, 0)[j] < |t| ==> !NamesForbidden(t[WalkOrder(t, 0)[j]].kind, name)
  {
    var order := WalkOrder(t, 0);
    ForbiddenRuleExactly(t);
    FirstWhereMeaning(order, ForbiddenIn(t));
    i :| 0 <= i < |order| && order[i] == FirstWhere(order, ForbiddenIn(t)).value && ForbiddenIn(t)(order[i])
      && forall j :: 0 <= j < i ==> !ForbiddenIn(t)(order[j]);
    assert NamesForbidden(t[order[i]].kind, ClassName(t[order[i]].kind));
    forall j, name | 0 <= j < i && order[j] < |t| ensures !NamesForbidden(t[order[j]].kind, name) {
      assert !ForbiddenIn(t)(order[j]);
    }
  }

  predicate NamesForbidden(k: Kind, name: string) {
    || (k.Drop? && name == "Drop") || (k.Alter? && name == "Alter") || (k.Create? && name == "Create")
    || (k.TruncateTable? && name == "TruncateTable") || (k.Transaction? && name == "Transaction")
    || (k.Commit? && name == "Commit") || (k.Rollback? && name == "Rollback")
  }
}
