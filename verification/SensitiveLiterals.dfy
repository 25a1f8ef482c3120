/** Which literals of a statement the scrubber treats as secrets. */
module SensitiveLiterals {
  import opened Basics
  import opened SyntaxTrees

  /** The search of the sensitive-name pattern, as a yes/no question about a name. */
  type NamePattern = string -> bool

  predicate IsSensitiveColumnName(pattern: NamePattern, name: string) {
    name != "" && pattern(name)
  }

  // ---------------------------------------------------------------- what it means to be marked

  ghost predicate LiteralIn(t: Arena, v: NodeId, x: NodeId) {
    x < |t| && t[x].kind.Literal? && Under(t, v, x)
  }

  /** An equality that is an item of the SET list of an UPDATE, rather than a comparison. */
  predicate IsSetAssignment(t: Arena, eq: NodeId)
  {
    && eq < |t| && t[eq].kind.Eq?
    && t[eq].parent.Some? && t[eq].parent.value < |t|
    && t[t[eq].parent.value].kind.Update?
    && t[eq].argKey == "expressions"
  }

  /** c and v stand at the same position of two lists. */
  ghost predicate Paired(cols: seq<NodeId>, vals: seq<NodeId>, c: NodeId, v: NodeId) {
    exists k :: 0 <= k < |cols| && k < |vals| && cols[k] == c && vals[k] == v
  }

  /** The SET assignment eq gives the value v to the column c, directly or by tuple position. */
  ghost predicate Assigns(t: Arena, eq: NodeId, c: NodeId, v: NodeId)
  {
    && IsSetAssignment(t, eq)
    && Arg(t, eq, "this").Some? && Arg(t, eq, "expression").Some?
    && var target, value := Arg(t, eq, "this").value, Arg(t, eq, "expression").value;
       || (t[target].kind.Column? && c == target && v == value)
       || (t[target].kind.Tuple? && t[value].kind.Tuple?
           && Paired(Args(t, target, "expressions"), Args(t, value, "expressions"), c, v))
  }

  /** The INSERT ins, which lists its columns, feeds the column c from the value or projection v. */
  ghost predicate Inserts(t: Arena, ins: NodeId, c: NodeId, v: NodeId)
  {
    && ins < |t| && t[ins].kind.Insert?
    && Arg(t, ins, "this").Some? && Arg(t, ins, "expression").Some?
    && var schema, source := Arg(t, ins, "this").value, Arg(t, ins, "expression").value;
       && t[schema].kind.Schema?
       && var cols, items := Args(t, schema, "expressions"), Args(t, source, "expressions");
          || (t[source].kind.Values? && exists row :: row in items && FromRow(t, cols, row, c, v))
          || (t[source].kind.Select? && Paired(cols, items, c, v))
  }

  ghost predicate FromRow(t: Arena, cols: seq<NodeId>, row: NodeId, c: NodeId, v: NodeId) {
    row < |t| && t[row].kind.Tuple? && Paired(cols, Args(t, row, "expressions"), c, v)
  }

  /** Some UPDATE or INSERT anywhere in the statement stores v in the target column c. */
  ghost predicate Stores(t: Arena, c: NodeId, v: NodeId) {
    exists n: NodeId :: n < |t| && Under(t, 0, n) && (Assigns(t, n, c, v) || Inserts(t, n, c, v))
  }

  /** x is a literal under a value that is stored in a column with a sensitive name. */
  ghost predicate Marked(t: Arena, pattern: NamePattern, x: NodeId) {
    exists c: NodeId, v: NodeId ::
      Stores(t, c, v) && IsSensitiveColumnName(pattern, Name(t, c)) && LiteralIn(t, v, x)
  }

  ghost function MarkedSet(t: Arena, pattern: NamePattern): set<NodeId> {
    set x: NodeId | x < |t| && Marked(t, pattern, x)
  }

  /** x is a literal under a value that is stored in a column which is called something sensitive. */
  ghost predicate IsSecret(t: Arena, pattern: NamePattern, x: NodeId) {
    exists c: NodeId, v: NodeId, w: string ::
      Stores(t, c, v) && IsCalled(t, c, w) && pattern(w) && LiteralIn(t, v, x)
  }

  lemma MarkedIffSecret(t: Arena, p: NamePattern, x: NodeId)
    ensures x in MarkedSet(t, p) <==> IsSecret(t, p, x)
  {
    if c: NodeId, v: NodeId :| Stores(t, c, v) && IsSensitiveColumnName(p, Name(t, c)) && LiteralIn(t, v, x) {
      NameMeaning(t, c, Name(t, c));
    }
    if c: NodeId, v: NodeId, w: string :| Stores(t, c, v) && IsCalled(t, c, w) && p(w) && LiteralIn(t, v, x) {
      NameMeaning(t, c, w);
      assert Marked(t, p, x);
    }
  }

  /** The column c is spelt by the identifier d: its own "this", or c itself. */
  ghost predicate SpeltBy(t: Arena, c: NodeId, d: NodeId) {
    && c < |t| && d < |t| && t[d].kind.Identifier?
    && if c == d then t[c].text != "" || Arg(t, c, "this").None?
       else t[c].text == "" && Holds(t, c, "this", d)
  }

  lemma SpellingIsName(t: Arena, c: NodeId, d: NodeId)
    requires SpeltBy(t, c, d)
    ensures forall w: string :: IsCalled(t, c, w) <==> w != "" && w == t[d].text
  {
    ArgMeaning(t, c, "this");
    forall w: string ensures IsCalled(t, c, w) <==> w != "" && w == t[d].text {
      NameMeaning(t, c, w);
    }
  }

  /** No other column is given a value that contains x. */
  ghost predicate StoredOnlyIn(t: Arena, c: NodeId, x: NodeId) {
    forall b: NodeId, v: NodeId :: Stores(t, b, v) && LiteralIn(t, v, x) ==> b == c
  }

  /** A literal x stored in c, spelt d, is marked if d is sensitive; and only if so, should no other column have it. */
  ghost predicate DecidedBy(t: Arena, p: NamePattern, c: NodeId, d: NodeId, x: NodeId)
    requires d < |t|
  {
    && (t[d].text != "" && p(t[d].text) ==> x in MarkedSet(t, p))
    && (StoredOnlyIn(t, c, x) && x in MarkedSet(t, p) ==> t[d].text != "" && p(t[d].text))
  }

  lemma SpellingDecides(t: Arena, p: NamePattern, c: NodeId, d: NodeId, v: NodeId, x: NodeId)
    requires SpeltBy(t, c, d) && Stores(t, c, v) && LiteralIn(t, v, x)
    ensures DecidedBy(t, p, c, d, x)
  {
    MarkedIffSecret(t, p, x);
    SpellingIsName(t, c, d);
    assert t[d].text != "" ==> IsCalled(t, c, t[d].text);
  }

  /** SET c = v in an UPDATE anywhere in the statement. */
  lemma AssignedUnderName(t: Arena, p: NamePattern, u: NodeId, eq: NodeId, c: NodeId, d: NodeId, v: NodeId, x: NodeId)
    requires u < |t| && t[u].kind.Update? && eq < |t| && t[eq].kind.Eq? && Under(t, 0, eq)
    requires t[eq].parent == Some(u) && t[eq].argKey == "expressions"
    requires Holds(t, eq, "this", c) && Holds(t, eq, "expression", v) && t[c].kind.Column?
    requires SpeltBy(t, c, d) && LiteralIn(t, v, x)
    ensures DecidedBy(t, p, c, d, x)
  {
    ArgMeaning(t, eq, "this");
    ArgMeaning(t, eq, "expression");
    assert Assigns(t, eq, c, v);
    SpellingDecides(t, p, c, d, v, x);
  }

  /** c and v are held by the same position of the lists of m and n. */
  ghost predicate AtSamePlace(t: Arena, m: NodeId, n: NodeId, c: NodeId, v: NodeId) {
    exists k :: 0 <= k < |Args(t, m, "expressions")| && k < |Args(t, n, "expressions")|
      && Args(t, m, "expressions")[k] == c && Args(t, n, "expressions")[k] == v
  }

  /** SET (…, c, …) = (…, v, …) with c and v at the same position. */
  lemma TupleAssignedUnderName(
    t: Arena, p: NamePattern, u: NodeId, eq: NodeId, left: NodeId, right: NodeId, c: NodeId, d: NodeId, v: NodeId,
    x: NodeId)
    requires u < |t| && t[u].kind.Update? && eq < |t| && t[eq].kind.Eq? && Under(t, 0, eq)
    requires t[eq].parent == Some(u) && t[eq].argKey == "expressions"
    requires Holds(t, eq, "this", left) && Holds(t, eq, "expression", right)
    requires t[left].kind.Tuple? && t[right].kind.Tuple? && AtSamePlace(t, left, right, c, v)
    requires SpeltBy(t, c, d) && LiteralIn(t, v, x)
    ensures DecidedBy(t, p, c, d, x)
  {
    ArgMeaning(t, eq, "this");
    ArgMeaning(t, eq, "expression");
    assert Assigns(t, eq, c, v);
    SpellingDecides(t, p, c, d, v, x);
  }

  /** INSERT INTO … (…, c, …) with v at the same position of a VALUES row, or of the projections of a SELECT. */
  lemma InsertedUnderName(
    t: Arena, p: NamePattern, ins: NodeId, schema: NodeId, source: NodeId, row: NodeId, c: NodeId, d: NodeId, v: NodeId,
    x: NodeId)
    requires ins < |t| && t[ins].kind.Insert? && Under(t, 0, ins)
    requires Holds(t, ins, "this", schema) && Holds(t, ins, "expression", source) && t[schema].kind.Schema?
    requires || (t[source].kind.Values? && row in Args(t, source, "expressions") && row < |t| && t[row].kind.Tuple?)
             || (t[source].kind.Select? && row == source)
    requires AtSamePlace(t, schema, row, c, v) && SpeltBy(t, c, d) && LiteralIn(t, v, x)
    ensures DecidedBy(t, p, c, d, x)
  {
    ArgMeaning(t, ins, "this");
    ArgMeaning(t, ins, "expression");
    assert Paired(Args(t, schema, "expressions"), Args(t, row, "expressions"), c, v);
    assert t[source].kind.Values? ==> FromRow(t, Args(t, schema, "expressions"), row, c, v);
    assert Inserts(t, ins, c, v);
    SpellingDecides(t, p, c, d, v, x);
  }

  // ---------------------------------------------------------------- the same, node by node

  ghost function LiteralsIn(t: Arena, v: NodeId): set<NodeId> {
    set x: NodeId | x < |t| && LiteralIn(t, v, x)
  }

  /** What position k of a value list contributes: the literals there, if the k-th column is sensitive. */
  ghost function AtPosition(t: Arena, p: NamePattern, cols: seq<NodeId>, vals: seq<NodeId>): nat -> set<NodeId> {
    (k: nat) =>
      if k < |cols| && k < |vals| && IsSensitiveColumnName(p, Name(t, cols[k])) then LiteralsIn(t, vals[k]) else {}
  }

  ghost function PairMarks(t: Arena, p: NamePattern, cols: seq<NodeId>, vals: seq<NodeId>): set<NodeId> {
    UnionOver(Range(0, |vals|), AtPosition(t, p, cols, vals))
  }

  ghost function FromValueTuple(t: Arena, p: NamePattern, cols: seq<NodeId>): NodeId -> set<NodeId> {
    (row: NodeId) =>
      if row < |t| && t[row].kind.Tuple? then PairMarks(t, p, cols, Args(t, row, "expressions")) else {}
  }

  ghost function AssignmentMarks(t: Arena, p: NamePattern, eq: NodeId): set<NodeId> {
    if !IsSetAssignment(t, eq) || Arg(t, eq, "this").None? || Arg(t, eq, "expression").None? then {}
    else
      var target, value := Arg(t, eq, "this").value, Arg(t, eq, "expression").value;
      if t[target].kind.Column? then
        if IsSensitiveColumnName(p, Name(t, target)) then LiteralsIn(t, value) else {}
      else if t[target].kind.Tuple? && t[value].kind.Tuple? then
        PairMarks(t, p, Args(t, target, "expressions"), Args(t, value, "expressions"))
      else {}
  }

  ghost function InsertMarks(t: Arena, p: NamePattern, ins: NodeId): set<NodeId> {
    if ins >= |t| || !t[ins].kind.Insert? || Arg(t, ins, "this").None? || Arg(t, ins, "expression").None? then {}
    else
      var schema, source := Arg(t, ins, "this").value, Arg(t, ins, "expression").value;
      var cols, items := Args(t, schema, "expressions"), Args(t, source, "expressions");
      if !t[schema].kind.Schema? then {}
      else if t[source].kind.Values? then UnionOver(items, FromValueTuple(t, p, cols))
      else if t[source].kind.Select? then PairMarks(t, p, cols, items)
      else {}
  }

  ghost function AssignmentMarker(t: Arena, p: NamePattern): NodeId -> set<NodeId> {
    (n: NodeId) => AssignmentMarks(t, p, n)
  }

  ghost function InsertMarker(t: Arena, p: NamePattern): NodeId -> set<NodeId> {
    (n: NodeId) => InsertMarks(t, p, n)
  }

  ghost function CollectedMarks(t: Arena, p: NamePattern): set<NodeId> {
    UnionOver(Found(t, 0, Eq), AssignmentMarker(t, p)) +
    UnionOver(Found(t, 0, Insert), InsertMarker(t, p))
  }

  // ---------------------------------------------------------------- both descriptions agree

  lemma PairMarksMember(t: Arena, p: NamePattern, cols: seq<NodeId>, vals: seq<NodeId>, x: NodeId)
    ensures x in PairMarks(t, p, cols, vals) <==>
            exists k :: 0 <= k < |cols| && k < |vals|
              && IsSensitiveColumnName(p, Name(t, cols[k])) && LiteralIn(t, vals[k], x)
  {
    var f := AtPosition(t, p, cols, vals);
    UnionOverMember(Range(0, |vals|), f, x);
    if k :| 0 <= k < |cols| && k < |vals| && IsSensitiveColumnName(p, Name(t, cols[k])) && LiteralIn(t, vals[k], x) {
      assert Range(0, |vals|)[k] == k && x in f(k);
    }
  }

  /** x is marked because the relation r stores a value above x in a sensitive column. */
  ghost predicate MarkedThrough(t: Arena, p: NamePattern, r: (NodeId, NodeId) -> bool, x: NodeId) {
    exists c: NodeId, v: NodeId :: r(c, v) && IsSensitiveColumnName(p, Name(t, c)) && LiteralIn(t, v, x)
  }

  ghost function PairedIn(cols: seq<NodeId>, vals: seq<NodeId>): (NodeId, NodeId) -> bool {
    (c: NodeId, v: NodeId) => Paired(cols, vals, c, v)
  }

  ghost function PairedInRows(t: Arena, cols: seq<NodeId>, rows: seq<NodeId>): (NodeId, NodeId) -> bool {
    (c: NodeId, v: NodeId) => exists row :: row in rows && FromRow(t, cols, row, c, v)
  }

  ghost function StoredBy(t: Arena, n: NodeId): (NodeId, NodeId) -> bool {
    (c: NodeId, v: NodeId) => Assigns(t, n, c, v) || Inserts(t, n, c, v)
  }

  lemma SameRelation(t: Arena, p: NamePattern, r: (NodeId, NodeId) -> bool, q: (NodeId, NodeId) -> bool, x: NodeId)
    requires forall c: NodeId, v: NodeId :: r(c, v) <==> q(c, v)
    ensures MarkedThrough(t, p, r, x) <==> MarkedThrough(t, p, q, x)
  {
    if c: NodeId, v: NodeId :| q(c, v) && IsSensitiveColumnName(p, Name(t, c)) && LiteralIn(t, v, x) {
      assert r(c, v);
    }
  }

  lemma PairMarksMeaning(t: Arena, p: NamePattern, cols: seq<NodeId>, vals: seq<NodeId>, x: NodeId)
    ensures x in PairMarks(t, p, cols, vals) <==> MarkedThrough(t, p, PairedIn(cols, vals), x)
  {
    PairMarksMember(t, p, cols, vals, x);
    var r := PairedIn(cols, vals);
    if k :| 0 <= k < |cols| && k < |vals| && IsSensitiveColumnName(p, Name(t, cols[k])) && LiteralIn(t, vals[k], x) {
      assert r(cols[k], vals[k]);
    }
  }

  lemma AssignmentMarksMeaning(t: Arena, p: NamePattern, n: NodeId, x: NodeId)
    requires n < |t| && t[n].kind.Eq?
    ensures x in AssignmentMarks(t, p, n) <==> MarkedThrough(t, p, StoredBy(t, n), x)
  {
    var r := StoredBy(t, n);
    if IsSetAssignment(t, n) && Arg(t, n, "this").Some? && Arg(t, n, "expression").Some? {
      var target, value := Arg(t, n, "this").value, Arg(t, n, "expression").value;
      if t[target].kind.Column? {
        assert r(target, value);
      } else if t[target].kind.Tuple? && t[value].kind.Tuple? {
        var cols, vals := Args(t, target, "expressions"), Args(t, value, "expressions");
        PairMarksMeaning(t, p, cols, vals, x);
        SameRelation(t, p, r, PairedIn(cols, vals), x);
      }
    }
  }

  lemma TupleMeaning(t: Arena, p: NamePattern, cols: seq<NodeId>, row: NodeId, x: NodeId)
    ensures x in FromValueTuple(t, p, cols)(row) <==>
            exists c: NodeId, v: NodeId ::
              FromRow(t, cols, row, c, v) && IsSensitiveColumnName(p, Name(t, c)) && LiteralIn(t, v, x)
  {
    var vals := Args(t, row, "expressions");
    PairMarksMeaning(t, p, cols, vals, x);
    if row < |t| && t[row].kind.Tuple? {
      assert forall c: NodeId, v: NodeId :: FromRow(t, cols, row, c, v) <==> PairedIn(cols, vals)(c, v);
    }
  }

  lemma RowsMeaning(t: Arena, p: NamePattern, cols: seq<NodeId>, rows: seq<NodeId>, x: NodeId)
    ensures x in UnionOver(rows, FromValueTuple(t, p, cols)) <==>
            MarkedThrough(t, p, PairedInRows(t, cols, rows), x)
  {
    var f, r := FromValueTuple(t, p, cols), PairedInRows(t, cols, rows);
    UnionOverMember(rows, f, x);
    if i :| 0 <= i < |rows| && x in f(rows[i]) {
      TupleMeaning(t, p, cols, rows[i], x);
      var c: NodeId, v: NodeId :|
        FromRow(t, cols, rows[i], c, v) && IsSensitiveColumnName(p, Name(t, c)) && LiteralIn(t, v, x);
      assert rows[i] in rows && r(c, v);
    }
    if c: NodeId, v: NodeId :| r(c, v) && IsSensitiveColumnName(p, Name(t, c)) && LiteralIn(t, v, x) {
      var row :| row in rows && FromRow(t, cols, row, c, v);
      TupleMeaning(t, p, cols, row, x);
      var i :| 0 <= i < |rows| && rows[i] == row;
      assert x in f(rows[i]);
    }
  }

  lemma InsertMarksMeaning(t: Arena, p: NamePattern, n: NodeId, x: NodeId)
    requires n < |t| && t[n].kind.Insert?
    ensures x in InsertMarks(t, p, n) <==> MarkedThrough(t, p, StoredBy(t, n), x)
  {
    if Arg(t, n, "this").Some? && Arg(t, n, "expression").Some? {
      var schema, source := Arg(t, n, "this").value, Arg(t, n, "expression").value;
      var cols, items := Args(t, schema, "expressions"), Args(t, source, "expressions");
      if t[schema].kind.Schema? && t[source].kind.Select? {
        PairMarksMeaning(t, p, cols, items, x);
        SameRelation(t, p, StoredBy(t, n), PairedIn(cols, items), x);
      } else if t[schema].kind.Schema? && t[source].kind.Values? {
        RowsMeaning(t, p, cols, items, x);
        SameRelation(t, p, StoredBy(t, n), PairedInRows(t, cols, items), x);
      }
    }
  }

  /** The union over the walk is the declared set: visiting order does not matter. */
  lemma CollectedMarksAreMarked(t: Arena, p: NamePattern, x: NodeId)
    requires Valid(t)
    ensures x in CollectedMarks(t, p) <==> Marked(t, p, x)
  {
    var eqs, inserts := Found(t, 0, Eq), Found(t, 0, Insert);
    forall n: NodeId ensures n in eqs <==> n < |t| && t[n].kind == Eq && Under(t, 0, n) {
      FoundMember(t, 0, Eq, n);
    }
    forall n: NodeId ensures n in inserts <==> n < |t| && t[n].kind == Insert && Under(t, 0, n) {
      FoundMember(t, 0, Insert, n);
    }
    CollectedOver(t, p, eqs, inserts, x);
  }

  lemma CollectedOver(t: Arena, p: NamePattern, eqs: seq<NodeId>, inserts: seq<NodeId>, x: NodeId)
    requires forall n: NodeId :: n in eqs <==> n < |t| && t[n].kind == Eq && Under(t, 0, n)
    requires forall n: NodeId :: n in inserts <==> n < |t| && t[n].kind == Insert && Under(t, 0, n)
    ensures x in UnionOver(eqs, AssignmentMarker(t, p)) + UnionOver(inserts, InsertMarker(t, p)) <==> Marked(t, p, x)
  {
    var f, g := AssignmentMarker(t, p), InsertMarker(t, p);
    UnionOverMember(eqs, f, x);
    UnionOverMember(inserts, g, x);
    if i :| 0 <= i < |eqs| && x in f(eqs[i]) {
      assert eqs[i] in eqs;
      AssignmentMarksMeaning(t, p, eqs[i], x);
      StoredMarks(t, p, eqs[i], x);
    }
    if i :| 0 <= i < |inserts| && x in g(inserts[i]) {
      assert inserts[i] in inserts;
      InsertMarksMeaning(t, p, inserts[i], x);
      StoredMarks(t, p, inserts[i], x);
    }
    if c: NodeId, v: NodeId :| Stores(t, c, v) && IsSensitiveColumnName(p, Name(t, c)) && LiteralIn(t, v, x) {
      var n: NodeId :| n < |t| && Under(t, 0, n) && (Assigns(t, n, c, v) || Inserts(t, n, c, v));
      assert StoredBy(t, n)(c, v);
      assert MarkedThrough(t, p, StoredBy(t, n), x);
      if n in eqs {
        AssignmentMarksMeaning(t, p, n, x);
        var i :| 0 <= i < |eqs| && eqs[i] == n;
        assert x in f(eqs[i]);
      } else {
        InsertMarksMeaning(t, p, n, x);
        var i :| 0 <= i < |inserts| && inserts[i] == n;
        assert x in g(inserts[i]);
      }
    }
  }

  lemma StoredMarks(t: Arena, p: NamePattern, n: NodeId, x: NodeId)
    requires n < |t| && Under(t, 0, n) && MarkedThrough(t, p, StoredBy(t, n), x)
    ensures Marked(t, p, x)
  {
    var c: NodeId, v: NodeId :| StoredBy(t, n)(c, v) && IsSensitiveColumnName(p, Name(t, c)) && LiteralIn(t, v, x);
    assert Stores(t, c, v);
  }

  // ---------------------------------------------------------------- the marking loops

  lemma {:induction false} LiteralIsLeaf(t: Arena, a: NodeId, x: NodeId)
    requires Valid(t) && a < |t| && t[a].kind.Literal? && x < |t| && Under(t, a, x)
    ensures x == a
    decreases x
  {
    if x != a {
      assert ValidNode(t, x) && ValidNode(t, a);
      LiteralIsLeaf(t, a, t[x].parent.value);
    }
  }

  /** The set of literal identities that the marking methods share. */
  class MarkSet {
    var ids: set<NodeId>

    constructor ()
      ensures ids == {}
    {
      ids := {};
    }
  }

  class LiteralMarker {
    const pattern: NamePattern

    constructor (pattern: NamePattern)
      ensures this.pattern == pattern
    {
      this.pattern := pattern;
    }

    method CollectSensitiveLiteralIds(tree: SyntaxTree) returns (marks: MarkSet)
      requires Valid(tree.nodes)
      ensures fresh(marks) && marks.ids == MarkedSet(tree.nodes, pattern)
    {
      marks := new MarkSet();
      MarkUpdateSetAssignments(tree, marks);
      MarkInsertValues(tree, marks);
      assert marks.ids == CollectedMarks(tree.nodes, pattern);
      forall x: NodeId ensures x in marks.ids <==> x in MarkedSet(tree.nodes, pattern) {
        CollectedMarksAreMarked(tree.nodes, pattern, x);
      }
    }

    method MarkUpdateSetAssignments(tree: SyntaxTree, marks: MarkSet)
      requires Valid(tree.nodes)
      modifies marks
      ensures marks.ids == old(marks.ids) +
                UnionOver(Found(tree.nodes, 0, Eq), AssignmentMarker(tree.nodes, pattern))
    {
      ghost var t := tree.nodes;
      ghost var f := AssignmentMarker(t, pattern);
      var equalities := tree.FindAll(0, Eq);
      for i := 0 to |equalities|
        invariant marks.ids == old(marks.ids) + UnionOver(equalities[..i], f)
      {
        FoundAt(t, 0, Eq, i);
        UnionOverStep(equalities, f, i);
        MarkAssignment(tree, equalities[i], marks);
      }
      assert equalities[..|equalities|] == equalities;
    }

    method MarkAssignment(tree: SyntaxTree, equality: NodeId, marks: MarkSet)
      requires Valid(tree.nodes) && equality < |tree.nodes| && tree.nodes[equality].kind.Eq?
      modifies marks
      ensures marks.ids == old(marks.ids) + AssignmentMarks(tree.nodes, pattern, equality)
    {
      var t := tree.nodes;
      assert ValidNode(t, equality);
      if t[equality].parent.None? || !t[t[equality].parent.value].kind.Update? {
        return;
      }
      if t[equality].argKey != "expressions" {
        return;
      }
      var left, right := Arg(t, equality, "this"), Arg(t, equality, "expression");
      if left.None? || right.None? {
        return;
      }
      var target, value := left.value, right.value;
      if t[target].kind.Column? && IsSensitiveColumnName(pattern, Name(t, target)) {
        MarkAllLiteralsIn(tree, value, marks);
        return;
      }
      if t[target].kind.Tuple? {
        var columnList := Args(t, target, "expressions");
        var valueList := if t[value].kind.Tuple? then Args(t, value, "expressions") else [];
        ArgsWithin(t, value, "expressions");
        MarkPairs(tree, columnList, valueList, marks);
      }
    }

    /** Columns of a tuple target against the values at the same positions; a shorter value list is allowed. */
    method MarkPairs(tree: SyntaxTree, columnList: seq<NodeId>, valueList: seq<NodeId>, marks: MarkSet)
      requires Valid(tree.nodes) && Within(tree.nodes, valueList, 0)
      modifies marks
      ensures marks.ids == old(marks.ids) + PairMarks(tree.nodes, pattern, columnList, valueList)
    {
      var t := tree.nodes;
      ghost var f := AtPosition(t, pattern, columnList, valueList);
      ghost var positions := Range(0, |columnList|);
      for columnIndex := 0 to |columnList|
        invariant marks.ids == old(marks.ids) + UnionOver(positions[..columnIndex], f)
      {
        UnionOverStep(positions, f, columnIndex);
        if !IsSensitiveColumnName(pattern, Name(t, columnList[columnIndex])) {
          continue;
        }
        if columnIndex < |valueList| {
          MarkAllLiteralsIn(tree, valueList[columnIndex], marks);
        }
      }
      assert positions[..|columnList|] == positions;
      PairMarksByColumns(t, columnList, valueList);
    }

    lemma PairMarksByColumns(t: Arena, cols: seq<NodeId>, vals: seq<NodeId>)
      ensures UnionOver(Range(0, |cols|), AtPosition(t, pattern, cols, vals)) == PairMarks(t, pattern, cols, vals)
    {
      var f := AtPosition(t, pattern, cols, vals);
      var m, n := Range(0, |cols|), Range(0, |vals|);
      forall x: NodeId ensures x in UnionOver(m, f) <==> x in UnionOver(n, f) {
        UnionOverMember(m, f, x);
        UnionOverMember(n, f, x);
        if i :| 0 <= i < |m| && x in f(m[i]) {
          assert n[i] == m[i];
        }
        if i :| 0 <= i < |n| && x in f(n[i]) {
          assert m[i] == n[i];
        }
      }
    }

    method MarkInsertValues(tree: SyntaxTree, marks: MarkSet)
      requires Valid(tree.nodes)
      modifies marks
      ensures marks.ids == old(marks.ids) +
                UnionOver(Found(tree.nodes, 0, Insert), InsertMarker(tree.nodes, pattern))
    {
      ghost var t := tree.nodes;
      ghost var f := InsertMarker(t, pattern);
      var inserts := tree.FindAll(0, Insert);
      for i := 0 to |inserts|
        invariant marks.ids == old(marks.ids) + UnionOver(inserts[..i], f)
      {
        FoundAt(t, 0, Insert, i);
        UnionOverStep(inserts, f, i);
        MarkInsert(tree, inserts[i], marks);
      }
      assert inserts[..|inserts|] == inserts;
    }

    method MarkInsert(tree: SyntaxTree, insertNode: NodeId, marks: MarkSet)
      requires Valid(tree.nodes) && insertNode < |tree.nodes| && tree.nodes[insertNode].kind.Insert?
      modifies marks
      ensures marks.ids == old(marks.ids) + InsertMarks(tree.nodes, pattern, insertNode)
    {
      var t := tree.nodes;
      var targetSchema, valueSource := Arg(t, insertNode, "this"), Arg(t, insertNode, "expression");
      if targetSchema.None? || !t[targetSchema.value].kind.Schema? {
        return;
      }
      var columns := Args(t, targetSchema.value, "expressions");
      var sensitiveIndexes := set i: nat | i < |columns| && IsSensitiveColumnName(pattern, Name(t, columns[i]));
      if sensitiveIndexes == {} {
        assert forall i: nat ::
                 i < |columns| && IsSensitiveColumnName(pattern, Name(t, columns[i])) ==> i in sensitiveIndexes;
        NothingSensitive(t, insertNode, columns);
        return;
      }
      if valueSource.None? {
        return;
      }
      var source := valueSource.value;
      if t[source].kind.Values? {
        MarkValuesClause(tree, source, columns, sensitiveIndexes, marks);
      } else if t[source].kind.Select? {
        MarkByPosition(tree, source, columns, sensitiveIndexes, marks);
      }
    }

    /** With no sensitive column there is nothing to mark, so the early exit is harmless. */
    lemma NothingSensitive(t: Arena, insertNode: NodeId, columns: seq<NodeId>)
      requires insertNode < |t| && Arg(t, insertNode, "this").Some?
      requires columns == Args(t, Arg(t, insertNode, "this").value, "expressions")
      requires forall i :: 0 <= i < |columns| ==> !IsSensitiveColumnName(pattern, Name(t, columns[i]))
      ensures InsertMarks(t, pattern, insertNode) == {}
    {
      if x: NodeId :| x in InsertMarks(t, pattern, insertNode) {
        var source := Arg(t, insertNode, "expression").value;
        var items := Args(t, source, "expressions");
        if t[source].kind.Select? {
          PairMarksMember(t, pattern, columns, items, x);
        } else {
          var f := FromValueTuple(t, pattern, columns);
          UnionOverMember(items, f, x);
          var i :| 0 <= i < |items| && x in f(items[i]);
          PairMarksMember(t, pattern, columns, Args(t, items[i], "expressions"), x);
        }
      }
    }

    method MarkValuesClause(tree: SyntaxTree, valuesClause: NodeId, ghost columns: seq<NodeId>,
                            sensitiveIndexes: set<nat>, marks: MarkSet)
      requires Valid(tree.nodes)
      requires forall i: nat :: i in sensitiveIndexes <==>
                 i < |columns| && IsSensitiveColumnName(pattern, Name(tree.nodes, columns[i]))
      modifies marks
      ensures marks.ids == old(marks.ids) +
                UnionOver(Args(tree.nodes, valuesClause, "expressions"), FromValueTuple(tree.nodes, pattern, columns))
    {
      var t := tree.nodes;
      ghost var f := FromValueTuple(t, pattern, columns);
      var rows := Args(t, valuesClause, "expressions");
      ArgsWithin(t, valuesClause, "expressions");
      for r := 0 to |rows|
        invariant marks.ids == old(marks.ids) + UnionOver(rows[..r], f)
      {
        UnionOverStep(rows, f, r);
        if !t[rows[r]].kind.Tuple? {
          continue;
        }
        MarkByPosition(tree, rows[r], columns, sensitiveIndexes, marks);
      }
      assert rows[..|rows|] == rows;
    }

    /** Marks the items of a value tuple or of a projection list that stand at a sensitive position. */
    method MarkByPosition(tree: SyntaxTree, holder: NodeId, ghost columns: seq<NodeId>,
                          sensitiveIndexes: set<nat>, marks: MarkSet)
      requires Valid(tree.nodes)
      requires forall i: nat :: i in sensitiveIndexes <==>
                 i < |columns| && IsSensitiveColumnName(pattern, Name(tree.nodes, columns[i]))
      modifies marks
      ensures marks.ids == old(marks.ids) +
                PairMarks(tree.nodes, pattern, columns, Args(tree.nodes, holder, "expressions"))
    {
      var t := tree.nodes;
      var items := Args(t, holder, "expressions");
      ArgsWithin(t, holder, "expressions");
      ghost var f := AtPosition(t, pattern, columns, items);
      ghost var positions := Range(0, |items|);
      for columnIndex := 0 to |items|
        invariant marks.ids == old(marks.ids) + UnionOver(positions[..columnIndex], f)
      {
        UnionOverStep(positions, f, columnIndex);
        if columnIndex in sensitiveIndexes {
          MarkAllLiteralsIn(tree, items[columnIndex], marks);
        }
      }
      assert positions[..|items|] == positions;
    }

    method MarkAllLiteralsIn(tree: SyntaxTree, node: NodeId, marks: MarkSet)
      requires Valid(tree.nodes) && node < |tree.nodes|
      modifies marks
      ensures marks.ids == old(marks.ids) + LiteralsIn(tree.nodes, node)
    {
      ghost var t := tree.nodes;
      if tree.nodes[node].kind.Literal? {
        marks.ids := marks.ids + {node};
        forall x: NodeId | x in LiteralsIn(t, node) ensures x == node {
          LiteralIsLeaf(t, node, x);
        }
        return;
      }
      var literals := tree.FindAll(node, Literal);
      AddAll(literals, marks);
      FoundAreLiteralsIn(t, node);
    }

    method AddAll(literals: seq<NodeId>, marks: MarkSet)
      modifies marks
      ensures marks.ids == old(marks.ids) + Elements(literals)
    {
      for i := 0 to |literals|
        invariant marks.ids == old(marks.ids) + Elements(literals[..i])
      {
        assert literals[..i + 1] == literals[..i] + [literals[i]];
        marks.ids := marks.ids + {literals[i]};
      }
      assert literals[..|literals|] == literals;
    }
  }

  function Elements(ids: seq<NodeId>): set<NodeId> {
    set x: NodeId | x in ids
  }

  lemma FoundAreLiteralsIn(t: Arena, node: NodeId)
    requires Valid(t) && node < |t|
    ensures Elements(Found(t, node, Literal)) == LiteralsIn(t, node)
  {
    forall x: NodeId ensures x in Found(t, node, Literal) <==> x in LiteralsIn(t, node) {
      FoundMember(t, node, Literal, x);
    }
  }
}
