/** What the emitted statement depends on: everything but node identities and the contents of the literals. */
module NonInterference {
  import opened Basics
  import opened SyntaxTrees
  import opened SensitiveLiterals
  import opened LiteralReplacement
  import opened QueryScrubber

  /** The tree with the contents of its literals blanked. */
  function Erased(tree: Tree): Tree {
    Tree(tree.kind, if tree.kind.Literal? then "" else tree.text, !tree.kind.Literal? && tree.isString, tree.argKey,
         seq(|tree.subtrees|, i requires 0 <= i < |tree.subtrees| => Erased(tree.subtrees[i])))
  }

  /** The same statement up to the contents of its literals. Which objects its nodes are plays no part. */
  ghost predicate SameShape(t: Statement, u: Statement) {
    Erased(View(t, 0)) == Erased(View(u, 0))
  }

  ghost predicate Attached(t: Arena, x: NodeId) {
    x < |t| && Under(t, 0, x)
  }

  ghost predicate AllAttached(t: Arena, ids: seq<NodeId>) {
    forall i :: 0 <= i < |ids| ==> Attached(t, ids[i])
  }

  lemma AttachedParent(t: Statement, x: NodeId)
    requires Attached(t, x) && x != 0
    ensures t[x].parent.Some? && t[x].parent.value < x && Attached(t, t[x].parent.value)
    ensures x in t[t[x].parent.value].children && !t[t[x].parent.value].kind.Literal?
  {
    assert ValidNode(t, x);
    assert ValidNode(t, t[x].parent.value);
  }

  lemma AttachedChildren(t: Statement, x: NodeId)
    requires Attached(t, x)
    ensures AllAttached(t, t[x].children)
    ensures forall i :: 0 <= i < |t[x].children| ==> t[x].children[i] > x && t[t[x].children[i]].parent == Some(x)
  {
    assert ValidNode(t, x);
    forall i | 0 <= i < |t[x].children|
      ensures Attached(t, t[x].children[i]) && t[x].children[i] > x && t[t[x].children[i]].parent == Some(x)
    {
      assert t[x].children[i] in t[x].children;
    }
  }

  // ---------------------------------------------------------------- nodes at the same place of two trees

  lemma ErasedChild(t: Statement, x: NodeId, k: nat)
    requires x < |t| && k < |t[x].children|
    ensures t[x].children[k] < |t|
    ensures |Erased(View(t, x)).subtrees| == |t[x].children|
    ensures Erased(View(t, x)).subtrees[k] == Erased(View(t, t[x].children[k]))
  {
    assert ValidNode(t, x);
    assert t[x].children[k] in t[x].children;
    assert View(t, x).subtrees[k] == View(t, t[x].children[k]);
  }

  lemma SameChildCount(t: Statement, u: Statement, x: NodeId, y: NodeId)
    requires x < |t| && y < |u| && Erased(View(t, x)) == Erased(View(u, y))
    ensures |t[x].children| == |u[y].children|
  {
    assert |View(t, x).subtrees| == |t[x].children| && |View(u, y).subtrees| == |u[y].children|;
    assert |Erased(View(t, x)).subtrees| == |Erased(View(u, y)).subtrees|;
  }

  /** The k-th children of nodes at the same place are at the same place. */
  lemma TwinChild(t: Statement, u: Statement, x: NodeId, y: NodeId, k: nat)
    requires x < |t| && Attached(u, y) && Erased(View(t, x)) == Erased(View(u, y)) && k < |t[x].children|
    ensures k < |u[y].children| && t[x].children[k] < |t| && Attached(u, u[y].children[k])
    ensures Erased(View(t, t[x].children[k])) == Erased(View(u, u[y].children[k]))
  {
    SameChildCount(t, u, x, y);
    ErasedChild(t, x, k);
    ErasedChild(u, y, k);
    AttachedChildren(u, y);
  }

  /** The node of u at the place that x has in t. */
  ghost function Twin(t: Statement, u: Statement, x: NodeId): (y: NodeId)
    requires SameShape(t, u) && Attached(t, x)
    ensures Attached(u, y) && Erased(View(t, x)) == Erased(View(u, y))
    decreases x
  {
    if x == 0 then 0
    else
      AttachedParent(t, x);
      var q := t[x].parent.value;
      var k := IndexIn(t[q].children, x);
      TwinChild(t, u, q, Twin(t, u, q), k);
      u[Twin(t, u, q)].children[k]
  }

  ghost function TwinOf(t: Statement, u: Statement): NodeId -> NodeId
    requires SameShape(t, u)
  {
    (x: NodeId) => if Attached(t, x) then Twin(t, u, x) else 0
  }

  /** f takes the node x to a node that looks the same, literal contents aside, with its children and its parent. */
  ghost predicate TwinAt(t: Arena, u: Arena, f: NodeId -> NodeId, x: NodeId)
    requires x < |t|
  {
    && Attached(u, f(x))
    && u[f(x)].kind == t[x].kind && u[f(x)].argKey == t[x].argKey
    && (!t[x].kind.Literal? ==> u[f(x)].text == t[x].text && u[f(x)].isString == t[x].isString)
    && u[f(x)].children == Mapped(f, t[x].children)
    && (x != 0 && t[x].parent.Some? ==> u[f(x)].parent == Some(f(t[x].parent.value)))
  }

  ghost predicate Twins(t: Arena, u: Arena, f: NodeId -> NodeId) {
    f(0) == 0 && forall x: NodeId {:trigger TwinAt(t, u, f, x)} :: Attached(t, x) ==> TwinAt(t, u, f, x)
  }

  /** g takes every twin back. */
  ghost predicate Undoes(t: Arena, f: NodeId -> NodeId, g: NodeId -> NodeId) {
    forall x: NodeId {:trigger g(f(x))} :: Attached(t, x) ==> g(f(x)) == x
  }

  lemma TwinChildren(t: Statement, u: Statement, x: NodeId)
    requires SameShape(t, u) && Attached(t, x)
    ensures u[Twin(t, u, x)].children == Mapped(TwinOf(t, u), t[x].children)
  {
    var y, cs := Twin(t, u, x), t[x].children;
    SameChildCount(t, u, x, y);
    AttachedChildren(t, x);
    assert ValidNode(t, x);
    forall k | 0 <= k < |cs| ensures u[y].children[k] == TwinOf(t, u)(cs[k]) {
      IndexInDistinct(cs, k);
    }
  }

  lemma TwinLooksAlike(t: Statement, u: Statement, x: NodeId)
    requires SameShape(t, u) && Attached(t, x)
    ensures TwinAt(t, u, TwinOf(t, u), x)
  {
    var y := Twin(t, u, x);
    TwinChildren(t, u, x);
    assert Erased(View(t, x)).kind == t[x].kind && Erased(View(u, y)).kind == u[y].kind;
    if x != 0 {
      AttachedParent(t, x);
      var q := t[x].parent.value;
      AttachedChildren(u, Twin(t, u, q));
      SameChildCount(t, u, q, Twin(t, u, q));
    }
  }

  lemma {:induction false} TwinBack(t: Statement, u: Statement, x: NodeId)
    requires SameShape(t, u) && Attached(t, x)
    ensures Twin(u, t, Twin(t, u, x)) == x
    decreases x
  {
    if x != 0 {
      AttachedParent(t, x);
      var q := t[x].parent.value;
      var k := IndexIn(t[q].children, x);
      var r, y := Twin(t, u, q), Twin(t, u, x);
      TwinBack(t, u, q);
      SameChildCount(t, u, q, r);
      AttachedChildren(u, r);
      assert u[r].children[k] == y && u[y].parent == Some(r) && y != 0;
      assert ValidNode(u, r);
      IndexInDistinct(u[r].children, k);
    }
  }

  /** Statements of the same shape are the same up to the naming of their nodes. */
  lemma TwinsExist(t: Statement, u: Statement)
    requires SameShape(t, u)
    ensures Twins(t, u, TwinOf(t, u)) && Undoes(t, TwinOf(t, u), TwinOf(u, t))
  {
    assert Under(t, 0, 0);
    forall x: NodeId | Attached(t, x)
      ensures TwinAt(t, u, TwinOf(t, u), x) && TwinOf(u, t)(TwinOf(t, u)(x)) == x
    {
      TwinLooksAlike(t, u, x);
      TwinBack(t, u, x);
    }
  }

  /** The converse: what has a naming has the shape. */
  lemma {:induction false} TwinsSameView(t: Statement, u: Statement, f: NodeId -> NodeId, x: NodeId)
    requires Twins(t, u, f) && Attached(t, x)
    ensures f(x) < |u| && Erased(View(t, x)) == Erased(View(u, f(x)))
    decreases |t| - x
  {
    assert TwinAt(t, u, f, x);
    var cs, y := t[x].children, f(x);
    AttachedChildren(t, x);
    AttachedChildren(u, y);
    forall k | 0 <= k < |cs| ensures Erased(View(t, cs[k])) == Erased(View(u, u[y].children[k])) {
      TwinsSameView(t, u, f, cs[k]);
    }
    var a, b := Erased(View(t, x)), Erased(View(u, y));
    forall k | 0 <= k < |cs| ensures a.subtrees[k] == b.subtrees[k] {
      ErasedChild(t, x, k);
      ErasedChild(u, y, k);
    }
    assert |View(t, x).subtrees| == |View(u, y).subtrees|;
    assert a.subtrees == b.subtrees;
  }

  // ---------------------------------------------------------------- the walks correspond

  lemma KidsAttached(t: Statement, front: seq<NodeId>)
    requires AllAttached(t, front)
    ensures AllAttached(t, Kids(t, front))
  {
    var kids := Kids(t, front);
    forall i | 0 <= i < |kids| ensures Attached(t, kids[i]) {
      KidsMember(t, front, kids[i]);
      var q := t[kids[i]].parent.value;
      var j :| 0 <= j < |front| && front[j] == q;
      assert ValidNode(t, kids[i]);
    }
  }

  lemma TwinChildrenOf(t: Statement, u: Statement, f: NodeId -> NodeId, x: NodeId)
    requires Twins(t, u, f) && Attached(t, x)
    ensures ChildrenOf(u, f(x)) == Mapped(f, ChildrenOf(t, x))
  {
    assert TwinAt(t, u, f, x);
  }

  lemma {:induction false} TwinKids(t: Statement, u: Statement, f: NodeId -> NodeId, front: seq<NodeId>, n: nat)
    requires Twins(t, u, f) && AllAttached(t, front) && n <= |front|
    ensures KidsOfFirst(u, Mapped(f, front), n) == Mapped(f, KidsOfFirst(t, front, n))
  {
    if n > 0 {
      TwinKids(t, u, f, front, n - 1);
      TwinChildrenOf(t, u, f, front[n - 1]);
      assert Mapped(f, front)[n - 1] == f(front[n - 1]);
      MappedConcat(f, KidsOfFirst(t, front, n - 1), ChildrenOf(t, front[n - 1]));
    }
  }

  lemma {:induction false} TwinLevels(t: Statement, u: Statement, f: NodeId -> NodeId, front: seq<NodeId>, depth: nat)
    requires Twins(t, u, f) && AllAttached(t, front)
    ensures Levels(u, Mapped(f, front), depth) == Mapped(f, Levels(t, front, depth))
    decreases depth
  {
    if front != [] && depth > 0 {
      TwinKids(t, u, f, front, |front|);
      KidsAttached(t, front);
      TwinLevels(t, u, f, Kids(t, front), depth - 1);
      MappedConcat(f, front, Levels(t, Kids(t, front), depth - 1));
    }
  }

  lemma TwinWalk(t: Statement, u: Statement, f: NodeId -> NodeId)
    requires Twins(t, u, f)
    ensures WalkOrder(u, 0) == Mapped(f, WalkOrder(t, 0)) && AllAttached(t, WalkOrder(t, 0))
  {
    var depth := |t| + |u|;
    assert Mapped(f, [0]) == [0] && Under(t, 0, 0);
    LevelsBoundIrrelevant(t, [0], 0, |t|, depth);
    LevelsBoundIrrelevant(u, [0], 0, |u|, depth);
    TwinLevels(t, u, f, [0], depth);
    forall i | 0 <= i < |WalkOrder(t, 0)| ensures Attached(t, WalkOrder(t, 0)[i]) {
      WalkMember(t, 0, WalkOrder(t, 0)[i]);
    }
  }

  lemma {:induction false} TwinOfKind(
    t: Statement, u: Statement, f: NodeId -> NodeId, ids: seq<NodeId>, n: nat, kind: Kind)
    requires Twins(t, u, f) && AllAttached(t, ids) && n <= |ids|
    ensures OfKindInFirst(u, Mapped(f, ids), n, kind) == Mapped(f, OfKindInFirst(t, ids, n, kind))
  {
    if n > 0 {
      TwinOfKind(t, u, f, ids, n - 1, kind);
      assert TwinAt(t, u, f, ids[n - 1]);
    }
  }

  /** The k-th literals of the two statements are at the same place, so they get the same number. */
  lemma TwinLiterals(t: Statement, u: Statement, f: NodeId -> NodeId)
    requires Twins(t, u, f)
    ensures Literals(u) == Mapped(f, Literals(t))
  {
    TwinWalk(t, u, f);
    TwinOfKind(t, u, f, WalkOrder(t, 0), |WalkOrder(t, 0)|, Literal);
  }

  // ---------------------------------------------------------------- stored values correspond

  lemma {:induction false} TwinWithKey(t: Statement, u: Statement, f: NodeId -> NodeId, ids: seq<NodeId>, key: string)
    requires Twins(t, u, f) && AllAttached(t, ids)
    ensures WithKey(u, Mapped(f, ids), key) == Mapped(f, WithKey(t, ids, key))
  {
    if ids != [] {
      assert TwinAt(t, u, f, ids[0]);
      TwinWithKey(t, u, f, ids[1..], key);
      assert Mapped(f, ids)[1..] == Mapped(f, ids[1..]);
    }
  }

  lemma TwinArgs(t: Statement, u: Statement, f: NodeId -> NodeId, n: NodeId, key: string)
    requires Twins(t, u, f) && Attached(t, n)
    ensures Args(u, f(n), key) == Mapped(f, Args(t, n, key)) && AllAttached(t, Args(t, n, key))
    ensures Arg(u, f(n), key) == if Arg(t, n, key).None? then None else Some(f(Arg(t, n, key).value))
    ensures Arg(t, n, key).Some? ==> Attached(t, Arg(t, n, key).value)
  {
    assert TwinAt(t, u, f, n);
    AttachedChildren(t, n);
    TwinWithKey(t, u, f, t[n].children, key);
    forall i | 0 <= i < |Args(t, n, key)| ensures Attached(t, Args(t, n, key)[i]) {
      WithKeyMember(t, t[n].children, key, Args(t, n, key)[i]);
    }
  }

  lemma {:induction false} TwinUnder(t: Statement, u: Statement, f: NodeId -> NodeId, v: NodeId, x: NodeId)
    requires Twins(t, u, f) && Attached(t, x) && Under(t, v, x)
    ensures Under(u, f(v), f(x))
    decreases x
  {
    if x != v {
      AttachedParent(t, x);
      TwinUnder(t, u, f, v, t[x].parent.value);
      assert TwinAt(t, u, f, x);
      assert ValidNode(u, f(x));
    }
  }

  lemma {:induction false} UnderTransitive(t: Arena, a: NodeId, b: NodeId, x: NodeId)
    requires Under(t, a, b) && Under(t, b, x)
    ensures Under(t, a, x)
    decreases x
  {
    if x != b {
      UnderTransitive(t, a, b, t[x].parent.value);
    }
  }

  lemma TwinLiteralIn(t: Statement, u: Statement, f: NodeId -> NodeId, v: NodeId, x: NodeId)
    requires Twins(t, u, f) && Attached(t, v) && LiteralIn(t, v, x)
    ensures Attached(t, x) && LiteralIn(u, f(v), f(x))
  {
    UnderTransitive(t, 0, v, x);
    TwinUnder(t, u, f, v, x);
    assert TwinAt(t, u, f, x);
  }

  lemma TwinPaired(f: NodeId -> NodeId, cols: seq<NodeId>, vals: seq<NodeId>, c: NodeId, v: NodeId)
    requires Paired(cols, vals, c, v)
    ensures Paired(Mapped(f, cols), Mapped(f, vals), f(c), f(v))
  {
    var k :| 0 <= k < |cols| && k < |vals| && cols[k] == c && vals[k] == v;
    assert Mapped(f, cols)[k] == f(c) && Mapped(f, vals)[k] == f(v);
  }

  lemma TwinAssigns(t: Statement, u: Statement, f: NodeId -> NodeId, n: NodeId, c: NodeId, v: NodeId)
    requires Twins(t, u, f) && Attached(t, n) && Assigns(t, n, c, v)
    ensures Attached(t, c) && Attached(t, v) && Assigns(u, f(n), f(c), f(v))
  {
    assert n != 0;
    AttachedParent(t, n);
    assert TwinAt(t, u, f, n) && TwinAt(t, u, f, t[n].parent.value);
    TwinArgs(t, u, f, n, "this");
    TwinArgs(t, u, f, n, "expression");
    var target, value := Arg(t, n, "this").value, Arg(t, n, "expression").value;
    assert TwinAt(t, u, f, target) && TwinAt(t, u, f, value);
    if !(t[target].kind.Column? && c == target && v == value) {
      TwinArgs(t, u, f, target, "expressions");
      TwinArgs(t, u, f, value, "expressions");
      TwinPaired(f, Args(t, target, "expressions"), Args(t, value, "expressions"), c, v);
    }
  }

  lemma TwinRow(t: Statement, u: Statement, f: NodeId -> NodeId, cols: seq<NodeId>, row: NodeId, c: NodeId, v: NodeId)
    requires Twins(t, u, f) && AllAttached(t, cols) && Attached(t, row) && FromRow(t, cols, row, c, v)
    ensures Attached(t, c) && Attached(t, v) && FromRow(u, Mapped(f, cols), f(row), f(c), f(v))
  {
    assert TwinAt(t, u, f, row);
    TwinArgs(t, u, f, row, "expressions");
    TwinPaired(f, cols, Args(t, row, "expressions"), c, v);
  }

  lemma TwinInserts(t: Statement, u: Statement, f: NodeId -> NodeId, n: NodeId, c: NodeId, v: NodeId)
    requires Twins(t, u, f) && Attached(t, n) && Inserts(t, n, c, v)
    ensures Attached(t, c) && Attached(t, v) && Inserts(u, f(n), f(c), f(v))
  {
    assert TwinAt(t, u, f, n);
    TwinArgs(t, u, f, n, "this");
    TwinArgs(t, u, f, n, "expression");
    var schema, source := Arg(t, n, "this").value, Arg(t, n, "expression").value;
    assert TwinAt(t, u, f, schema) && TwinAt(t, u, f, source);
    TwinArgs(t, u, f, schema, "expressions");
    TwinArgs(t, u, f, source, "expressions");
    var cols, items := Args(t, schema, "expressions"), Args(t, source, "expressions");
    if t[source].kind.Values? {
      var row :| row in items && FromRow(t, cols, row, c, v);
      var i :| 0 <= i < |items| && items[i] == row;
      TwinRow(t, u, f, cols, row, c, v);
      assert Mapped(f, items)[i] == f(row);
    } else {
      TwinPaired(f, cols, items, c, v);
    }
  }

  /** Whatever the one statement stores in a column, the other stores the twin in the column's twin. */
  lemma TwinStores(t: Statement, u: Statement, f: NodeId -> NodeId, c: NodeId, v: NodeId)
    requires Twins(t, u, f) && Stores(t, c, v)
    ensures Attached(t, c) && Attached(t, v) && Stores(u, f(c), f(v))
  {
    var n: NodeId :| n < |t| && Under(t, 0, n) && (Assigns(t, n, c, v) || Inserts(t, n, c, v));
    assert TwinAt(t, u, f, n);
    if Assigns(t, n, c, v) {
      TwinAssigns(t, u, f, n, c, v);
    } else {
      TwinInserts(t, u, f, n, c, v);
    }
  }

  /** Names can differ only where they are read off a literal. */
  lemma TwinName(t: Statement, u: Statement, f: NodeId -> NodeId, n: NodeId)
    requires Twins(t, u, f) && Attached(t, n)
    ensures f(n) < |u| && (NameFromLiteral(t, n) <==> NameFromLiteral(u, f(n)))
    ensures !NameFromLiteral(t, n) ==> Name(t, n) == Name(u, f(n))
  {
    assert TwinAt(t, u, f, n);
    TwinArgs(t, u, f, n, "this");
    if Arg(t, n, "this").Some? {
      assert TwinAt(t, u, f, Arg(t, n, "this").value);
    }
  }

  // ---------------------------------------------------------------- marks correspond

  /** x is marked by a sensitive column whose name is not read off a literal. */
  ghost predicate MarkedByProperName(t: Arena, p: NamePattern, x: NodeId) {
    exists c: NodeId, v: NodeId ::
      Stores(t, c, v) && c < |t| && !NameFromLiteral(t, c)
      && IsSensitiveColumnName(p, Name(t, c)) && LiteralIn(t, v, x)
  }

  /** Every literal stored under a literal used as a column name is a secret anyway. */
  ghost predicate LiteralNamesHarmless(t: Arena, p: NamePattern) {
    forall c: NodeId, v: NodeId, x: NodeId ::
      Stores(t, c, v) && c < |t| && NameFromLiteral(t, c) && LiteralIn(t, v, x) ==> MarkedByProperName(t, p, x)
  }

  lemma TwinProperMark(t: Statement, u: Statement, f: NodeId -> NodeId, p: NamePattern, x: NodeId)
    requires Twins(t, u, f) && MarkedByProperName(t, p, x)
    ensures MarkedByProperName(u, p, f(x)) && Marked(u, p, f(x))
  {
    var c: NodeId, v: NodeId :| Stores(t, c, v) && c < |t| && !NameFromLiteral(t, c)
      && IsSensitiveColumnName(p, Name(t, c)) && LiteralIn(t, v, x);
    TwinStores(t, u, f, c, v);
    TwinName(t, u, f, c);
    TwinLiteralIn(t, u, f, v, x);
  }

  /** g leads from u back to t, undoing f. */
  ghost predicate Renaming(t: Statement, u: Statement, f: NodeId -> NodeId, g: NodeId -> NodeId) {
    Twins(t, u, f) && Twins(u, t, g) && Undoes(t, f, g)
  }

  lemma HarmlessFixesMarks(
    t: Statement, u: Statement, f: NodeId -> NodeId, g: NodeId -> NodeId, p: NamePattern, x: NodeId)
    requires Renaming(t, u, f, g) && LiteralNamesHarmless(t, p) && Attached(t, x)
    ensures Marked(u, p, f(x)) <==> MarkedByProperName(t, p, x)
  {
    if MarkedByProperName(t, p, x) {
      TwinProperMark(t, u, f, p, x);
    }
    if c: NodeId, v: NodeId :| Stores(u, c, v) && IsSensitiveColumnName(p, Name(u, c)) && LiteralIn(u, v, f(x)) {
      TwinStores(u, t, g, c, v);
      TwinName(u, t, g, c);
      TwinLiteralIn(u, t, g, v, f(x));
      assert g(f(x)) == x;
      assert Stores(t, g(c), g(v)) && LiteralIn(t, g(v), x);
    }
  }

  // ---------------------------------------------------------------- from marks to trees and back

  /** The literals of t are marked as their twins are. */
  ghost predicate SameMarks(t: Statement, u: Statement, f: NodeId -> NodeId, p: NamePattern) {
    forall x: NodeId :: Attached(t, x) && t[x].kind.Literal? ==> (Marked(t, p, x) <==> Marked(u, p, f(x)))
  }

  /** The literal x and its twin are replaced at the same number. */
  lemma TwinNumber(t: Statement, u: Statement, f: NodeId -> NodeId, x: NodeId) returns (k: nat)
    requires Twins(t, u, f) && Attached(t, x) && t[x].kind.Literal?
    ensures LiteralList(t, Literals(t)) && LiteralList(u, Literals(u))
    ensures k < |Literals(t)| == |Literals(u)| && Literals(t)[k] == x && Literals(u)[k] == f(x)
    ensures IndexIn(Literals(t), x) == k && IndexIn(Literals(u), f(x)) == k
  {
    LiteralsListed(t);
    LiteralsListed(u);
    FoundMember(t, 0, Literal, x);
    TwinLiterals(t, u, f);
    k := IndexIn(Literals(t), x);
    IndexInDistinct(Literals(u), k);
  }

  /** The substitutes of a literal and of its twin are the same leaf if both are marked or neither is. */
  lemma SubstitutesAlike(
    t: Statement, u: Statement, f: NodeId -> NodeId, m: set<NodeId>, n: set<NodeId>, x: NodeId, k: nat)
    requires Twins(t, u, f) && Attached(t, x) && LiteralList(t, Literals(t)) && LiteralList(u, Literals(u))
    requires k < |Literals(t)| && k < |Literals(u)| && Literals(t)[k] == x && Literals(u)[k] == f(x)
    ensures Valid(Substituted(t, Literals(t), m)) && Valid(Substituted(u, Literals(u), n))
    ensures var a, b := View(Substituted(t, Literals(t), m), |t| + k), View(Substituted(u, Literals(u), n), |u| + k);
            a == b <==> (x in m <==> f(x) in n)
  {
    SubstitutedValid(t, Literals(t), m);
    SubstitutedValid(u, Literals(u), n);
    assert TwinAt(t, u, f, x);
    assert Substituted(t, Literals(t), m)[|t| + k] == Substitute(t, Literals(t), m, k);
    assert Substituted(u, Literals(u), n)[|u| + k] == Substitute(u, Literals(u), n, k);
  }

  /** Where x stands in the scrubbed statement, and what stands at its k-th child's place. */
  lemma ScrubbedNode(t: Statement, p: NamePattern, x: NodeId)
    requires Attached(t, x) && !t[x].kind.Literal?
    ensures x < |Scrubbed(t, p)|
    ensures Scrubbed(t, p)[x] == t[x].(children := Redirect(|t|, Literals(t), t[x].children))
    ensures |View(Scrubbed(t, p), x).subtrees| == |t[x].children|
    ensures forall i :: 0 <= i < |t[x].children| ==>
              Scrubbed(t, p)[x].children[i] < |Scrubbed(t, p)|
              && View(Scrubbed(t, p), x).subtrees[i] == View(Scrubbed(t, p), Scrubbed(t, p)[x].children[i])
  {
    LiteralsListed(t);
    LiteralsAttached(t);
    var out := Scrubbed(t, p);
    assert out[x] == Rewired(t, Literals(t), x);
    assert ValidNode(out, x);
    forall i | 0 <= i < |t[x].children|
      ensures out[x].children[i] < |out| && View(out, x).subtrees[i] == View(out, out[x].children[i])
    {
      assert out[x].children[i] in out[x].children;
    }
  }

  /** What stands in the scrubbed statement at the place of x: its substitute, or x itself. */
  ghost function PlaceOf(t: Statement, x: NodeId): NodeId {
    Redirection(|t|, Literals(t))(x)
  }

  lemma LiteralPlace(t: Statement, u: Statement, f: NodeId -> NodeId, p: NamePattern, x: NodeId)
    requires Twins(t, u, f) && Attached(t, x) && t[x].kind.Literal?
    ensures PlaceOf(t, x) < |Scrubbed(t, p)| && PlaceOf(u, f(x)) < |Scrubbed(u, p)|
    ensures View(Scrubbed(t, p), PlaceOf(t, x)) == View(Scrubbed(u, p), PlaceOf(u, f(x)))
            <==> (Marked(t, p, x) <==> Marked(u, p, f(x)))
  {
    var k := TwinNumber(t, u, f, x);
    assert TwinAt(t, u, f, x);
    SubstitutesAlike(t, u, f, MarkedSet(t, p), MarkedSet(u, p), x, k);
  }

  lemma OtherPlace(t: Statement, x: NodeId)
    requires Attached(t, x) && !t[x].kind.Literal?
    ensures PlaceOf(t, x) == x
  {
    LiteralsAttached(t);
  }

  lemma {:induction false} SameMarksSameView(
    t: Statement, u: Statement, f: NodeId -> NodeId, p: NamePattern, x: NodeId)
    requires Twins(t, u, f) && SameMarks(t, u, f, p) && Attached(t, x)
    ensures PlaceOf(t, x) < |Scrubbed(t, p)| && PlaceOf(u, f(x)) < |Scrubbed(u, p)|
    ensures View(Scrubbed(t, p), PlaceOf(t, x)) == View(Scrubbed(u, p), PlaceOf(u, f(x)))
    decreases |t| - x
  {
    assert TwinAt(t, u, f, x);
    if t[x].kind.Literal? {
      LiteralPlace(t, u, f, p, x);
    } else {
      var cs, y := t[x].children, f(x);
      OtherPlace(t, x);
      OtherPlace(u, y);
      AttachedChildren(t, x);
      forall i | 0 <= i < |cs|
        ensures PlaceOf(t, cs[i]) < |Scrubbed(t, p)| && PlaceOf(u, f(cs[i])) < |Scrubbed(u, p)|
        ensures View(Scrubbed(t, p), PlaceOf(t, cs[i])) == View(Scrubbed(u, p), PlaceOf(u, f(cs[i])))
      {
        SameMarksSameView(t, u, f, p, cs[i]);
      }
      NodesAlike(t, u, f, p, x);
    }
  }

  lemma NodesAlike(t: Statement, u: Statement, f: NodeId -> NodeId, p: NamePattern, x: NodeId)
    requires Twins(t, u, f) && Attached(t, x) && !t[x].kind.Literal?
    requires forall i :: 0 <= i < |t[x].children| ==>
               && PlaceOf(t, t[x].children[i]) < |Scrubbed(t, p)|
               && PlaceOf(u, f(t[x].children[i])) < |Scrubbed(u, p)|
               && View(Scrubbed(t, p), PlaceOf(t, t[x].children[i]))
                  == View(Scrubbed(u, p), PlaceOf(u, f(t[x].children[i])))
    ensures x < |Scrubbed(t, p)| && f(x) < |Scrubbed(u, p)|
    ensures View(Scrubbed(t, p), x) == View(Scrubbed(u, p), f(x))
  {
    assert TwinAt(t, u, f, x);
    ScrubbedNode(t, p, x);
    ScrubbedNode(u, p, f(x));
    var a, b := View(Scrubbed(t, p), x), View(Scrubbed(u, p), f(x));
    forall i | 0 <= i < |t[x].children| ensures a.subtrees[i] == b.subtrees[i] {
      assert Scrubbed(t, p)[x].children[i] == PlaceOf(t, t[x].children[i]);
      assert Scrubbed(u, p)[f(x)].children[i] == PlaceOf(u, f(t[x].children[i]));
    }
    assert a.subtrees == b.subtrees;
  }

  lemma SameMarksSameTree(t: Statement, u: Statement, f: NodeId -> NodeId, p: NamePattern)
    requires Twins(t, u, f) && !t[0].kind.Literal? && SameMarks(t, u, f, p)
    ensures ScrubbedTree(t, p) == ScrubbedTree(u, p)
  {
    assert Under(t, 0, 0) && Under(u, 0, 0);
    assert TwinAt(t, u, f, 0);
    SameMarksSameView(t, u, f, p, 0);
    OtherPlace(t, 0);
    OtherPlace(u, 0);
  }

  /** Equal scrubbed trees are equal at the place of every node. */
  lemma {:induction false} SameTreeSameView(
    t: Statement, u: Statement, f: NodeId -> NodeId, p: NamePattern, x: NodeId)
    requires Twins(t, u, f) && !t[0].kind.Literal? && ScrubbedTree(t, p) == ScrubbedTree(u, p) && Attached(t, x)
    ensures PlaceOf(t, x) < |Scrubbed(t, p)| && PlaceOf(u, f(x)) < |Scrubbed(u, p)|
    ensures View(Scrubbed(t, p), PlaceOf(t, x)) == View(Scrubbed(u, p), PlaceOf(u, f(x)))
    decreases x
  {
    assert TwinAt(t, u, f, x) && Under(t, 0, 0) && Under(u, 0, 0) && TwinAt(t, u, f, 0);
    OtherPlace(t, 0);
    OtherPlace(u, 0);
    if x != 0 {
      AttachedParent(t, x);
      var q := t[x].parent.value;
      SameTreeSameView(t, u, f, p, q);
      ChildAlike(t, u, f, p, q, x);
    }
  }

  lemma ChildAlike(t: Statement, u: Statement, f: NodeId -> NodeId, p: NamePattern, q: NodeId, x: NodeId)
    requires Twins(t, u, f) && Attached(t, q) && !t[q].kind.Literal? && x in t[q].children
    requires PlaceOf(t, q) < |Scrubbed(t, p)| && PlaceOf(u, f(q)) < |Scrubbed(u, p)|
    requires View(Scrubbed(t, p), PlaceOf(t, q)) == View(Scrubbed(u, p), PlaceOf(u, f(q)))
    ensures PlaceOf(t, x) < |Scrubbed(t, p)| && PlaceOf(u, f(x)) < |Scrubbed(u, p)|
    ensures View(Scrubbed(t, p), PlaceOf(t, x)) == View(Scrubbed(u, p), PlaceOf(u, f(x)))
  {
    assert TwinAt(t, u, f, q);
    OtherPlace(t, q);
    OtherPlace(u, f(q));
    ScrubbedNode(t, p, q);
    ScrubbedNode(u, p, f(q));
    var i :| 0 <= i < |t[q].children| && t[q].children[i] == x;
    assert Scrubbed(t, p)[q].children[i] == PlaceOf(t, x);
    assert Scrubbed(u, p)[f(q)].children[i] == PlaceOf(u, f(x));
  }

  lemma SameTreeSameMarks(t: Statement, u: Statement, f: NodeId -> NodeId, p: NamePattern, x: NodeId)
    requires Twins(t, u, f) && !t[0].kind.Literal? && ScrubbedTree(t, p) == ScrubbedTree(u, p)
    requires Attached(t, x) && t[x].kind.Literal?
    ensures Marked(t, p, x) <==> Marked(u, p, f(x))
  {
    SameTreeSameView(t, u, f, p, x);
    LiteralPlace(t, u, f, p, x);
  }

  // ---------------------------------------------------------------- filling in contents

  /** t with every literal's contents replaced by s. */
  function Filled(t: Statement, s: string): (u: Statement)
    ensures |u| == |t|
    ensures forall i: NodeId :: i < |t| ==> u[i] == if t[i].kind.Literal? then t[i].(text := s) else t[i]
  {
    var u := seq(|t|, i requires 0 <= i < |t| => if t[i].kind.Literal? then t[i].(text := s) else t[i]);
    assert Valid(u) by {
      forall i: NodeId | i < |u| ensures ValidNode(u, i) {
        assert ValidNode(t, i);
      }
    }
    u
  }

  ghost function Itself(): NodeId -> NodeId {
    (x: NodeId) => x
  }

  lemma {:induction false} FilledUnder(t: Statement, s: string, roots: seq<NodeId>, x: NodeId)
    ensures UnderAny(t, roots, x) <==> UnderAny(Filled(t, s), roots, x)
    decreases x
  {
    if x < |t| && t[x].parent.Some? && t[x].parent.value < x {
      FilledUnder(t, s, roots, t[x].parent.value);
    }
  }

  lemma FilledTwins(t: Statement, s: string)
    ensures Renaming(t, Filled(t, s), Itself(), Itself()) && SameShape(t, Filled(t, s))
  {
    var u, f := Filled(t, s), Itself();
    forall x: NodeId ensures Attached(t, x) <==> Attached(u, x) {
      FilledUnder(t, s, [0], x);
    }
    forall x: NodeId | Attached(t, x) ensures TwinAt(t, u, f, x) && TwinAt(u, t, f, x) {
      assert Mapped(f, t[x].children) == t[x].children;
    }
    assert Under(t, 0, 0);
    TwinsSameView(t, u, f, 0);
  }

  lemma FilledNames(t: Statement, s: string, c: NodeId)
    requires Attached(t, c) && NameFromLiteral(t, c)
    ensures Name(Filled(t, s), c) == s
  {
    var u := Filled(t, s);
    FilledTwins(t, s);
    TwinArgs(t, u, Itself(), c, "this");
    if t[c].kind.Literal? {
      assert ValidNode(t, c) && ValidNode(u, c);
      assert u[c].text == s;
    }
  }

  /** Filled with a sensitive word, a literal name marks what is stored under it. */
  lemma WordMarks(t: Statement, p: NamePattern, word: string, c: NodeId, v: NodeId, x: NodeId)
    requires IsSensitiveColumnName(p, word)
    requires Stores(t, c, v) && c < |t| && NameFromLiteral(t, c) && LiteralIn(t, v, x)
    ensures Attached(t, x) && Marked(Filled(t, word), p, x)
  {
    var u, f := Filled(t, word), Itself();
    FilledTwins(t, word);
    TwinStores(t, u, f, c, v);
    FilledNames(t, word, c);
    TwinLiteralIn(t, u, f, v, x);
    assert Stores(u, c, v) && LiteralIn(u, v, x);
  }

  /** Where names are read off blank literals they are blank. */
  lemma BlankName(t: Statement, c: NodeId)
    requires c < |t| && NameFromLiteral(Filled(t, ""), c)
    ensures Name(Filled(t, ""), c) == ""
  {
    var u := Filled(t, "");
    if t[c].kind.Literal? {
      assert ValidNode(u, c);
    }
  }

  /** With blank literals only proper names mark anything. */
  lemma BlankUnmarks(t: Statement, p: NamePattern, x: NodeId)
    requires Marked(Filled(t, ""), p, x)
    ensures MarkedByProperName(t, p, x)
  {
    var u := Filled(t, "");
    assert MarkedByProperName(u, p, x) by {
      var c: NodeId, v: NodeId :| Stores(u, c, v) && IsSensitiveColumnName(p, Name(u, c)) && LiteralIn(u, v, x);
      if NameFromLiteral(u, c) {
        BlankName(t, c);
      }
    }
    FilledTwins(t, "");
    TwinProperMark(u, t, Itself(), p, x);
  }

  // ---------------------------------------------------------------- main results

  /** The emitted tree is the same for every choice of literal contents, and of node identities. */
  ghost predicate IgnoresLiteralContents(t: Statement, p: NamePattern) {
    forall u: Statement :: SameShape(t, u) ==> ScrubbedTree(u, p) == ScrubbedTree(t, p)
  }

  lemma RenamingExists(t: Statement, u: Statement)
    requires SameShape(t, u)
    ensures Renaming(t, u, TwinOf(t, u), TwinOf(u, t))
  {
    TwinsExist(t, u);
    TwinsExist(u, t);
  }

  lemma HarmlessScrubAlike(t: Statement, u: Statement, p: NamePattern)
    requires SameShape(t, u) && !t[0].kind.Literal? && LiteralNamesHarmless(t, p)
    ensures ScrubbedTree(t, p) == ScrubbedTree(u, p)
  {
    var f, g := TwinOf(t, u), TwinOf(u, t);
    RenamingExists(t, u);
    ItselfTwins(t);
    forall x: NodeId | Attached(t, x) && t[x].kind.Literal? ensures Marked(t, p, x) <==> Marked(u, p, f(x)) {
      HarmlessFixesMarks(t, t, Itself(), Itself(), p, x);
      HarmlessFixesMarks(t, u, f, g, p, x);
    }
    SameMarksSameTree(t, u, f, p);
  }

  /** Every statement is its own twin. */
  lemma ItselfTwins(t: Statement)
    ensures Renaming(t, t, Itself(), Itself())
  {
    forall x: NodeId | Attached(t, x) ensures TwinAt(t, t, Itself(), x) {
      assert Mapped(Itself(), t[x].children) == t[x].children;
    }
  }

  /**
   Non-interference, exactly: if some name is sensitive at all, the emitted tree is independent of
   node identities and of the contents of the literals if and only if no literal that serves as the
   name of a target column governs a literal that is not already a secret by a proper column name.
   */
  lemma NonInterferenceExactly(t: Statement, p: NamePattern, word: string)
    requires !t[0].kind.Literal? && IsSensitiveColumnName(p, word)
    ensures IgnoresLiteralContents(t, p) <==> LiteralNamesHarmless(t, p)
  {
    if LiteralNamesHarmless(t, p) {
      forall u: Statement | SameShape(t, u) ensures ScrubbedTree(u, p) == ScrubbedTree(t, p) {
        HarmlessScrubAlike(t, u, p);
      }
    } else {
      var c: NodeId, v: NodeId, x: NodeId :| Stores(t, c, v) && c < |t| && NameFromLiteral(t, c)
        && LiteralIn(t, v, x) && !MarkedByProperName(t, p, x);
      var hi, lo := Filled(t, word), Filled(t, "");
      WordMarks(t, p, word, c, v, x);
      FilledTwins(t, word);
      FilledTwins(t, "");
      if ScrubbedTree(hi, p) == ScrubbedTree(t, p) == ScrubbedTree(lo, p) {
        SameTreeSameMarks(t, hi, Itself(), p, x);
        SameTreeSameMarks(t, lo, Itself(), p, x);
        BlankUnmarks(t, p, x);
      }
    }
  }

  /** With proper column names everywhere, two statements that differ in literal contents scrub alike. */
  lemma ProperNamesScrubAlike(t: Statement, u: Statement, p: NamePattern)
    requires SameShape(t, u) && !t[0].kind.Literal?
    requires forall c: NodeId, v: NodeId :: Stores(t, c, v) && c < |t| ==> !NameFromLiteral(t, c)
    ensures ScrubbedTree(t, p) == ScrubbedTree(u, p)
  {
    HarmlessScrubAlike(t, u, p);
  }

  // ---------------------------------------------------------------- identities alone

  lemma {:induction false} TwinViews(t: Statement, u: Statement, x: NodeId)
    requires View(t, 0) == View(u, 0) && SameShape(t, u) && Attached(t, x)
    ensures View(t, x) == View(u, Twin(t, u, x))
    decreases x
  {
    if x != 0 {
      AttachedParent(t, x);
      var q := t[x].parent.value;
      TwinViews(t, u, q);
      var k, r := IndexIn(t[q].children, x), Twin(t, u, q);
      SameChildCount(t, u, q, r);
      AttachedChildren(u, r);
      assert View(t, q).subtrees[k] == View(t, x);
      assert View(u, r).subtrees[k] == View(u, u[r].children[k]);
    }
  }

  lemma TwinTexts(t: Statement, u: Statement, x: NodeId)
    requires View(t, 0) == View(u, 0) && SameShape(t, u) && Attached(t, x)
    ensures TwinOf(t, u)(x) < |u| && u[TwinOf(t, u)(x)].text == t[x].text
    ensures u[TwinOf(t, u)(x)].isString == t[x].isString
  {
    TwinViews(t, u, x);
    assert View(t, x).text == t[x].text && View(u, Twin(t, u, x)).text == u[Twin(t, u, x)].text;
    assert View(t, x).isString == t[x].isString && View(u, Twin(t, u, x)).isString == u[Twin(t, u, x)].isString;
  }

  lemma TwinNames(t: Statement, u: Statement, c: NodeId)
    requires View(t, 0) == View(u, 0) && SameShape(t, u) && Attached(t, c)
    ensures Name(u, TwinOf(t, u)(c)) == Name(t, c)
  {
    var f := TwinOf(t, u);
    TwinsExist(t, u);
    TwinTexts(t, u, c);
    TwinArgs(t, u, f, c, "this");
    assert TwinAt(t, u, f, c);
    if Arg(t, c, "this").Some? {
      var a := Arg(t, c, "this").value;
      TwinTexts(t, u, a);
      assert TwinAt(t, u, f, a);
    }
  }

  lemma TwinMarks(t: Statement, u: Statement, p: NamePattern, x: NodeId)
    requires View(t, 0) == View(u, 0) && SameShape(t, u) && Marked(t, p, x)
    ensures Attached(t, x) && Marked(u, p, TwinOf(t, u)(x))
  {
    var f := TwinOf(t, u);
    TwinsExist(t, u);
    var c: NodeId, v: NodeId :| Stores(t, c, v) && IsSensitiveColumnName(p, Name(t, c)) && LiteralIn(t, v, x);
    TwinStores(t, u, f, c, v);
    TwinLiteralIn(t, u, f, v, x);
    TwinNames(t, u, c);
  }

  /** The marks are taken by object identity, yet equal trees scrub to equal trees, whatever their objects are. */
  lemma IdentitiesDoNotMatter(t: Statement, u: Statement, p: NamePattern)
    requires View(t, 0) == View(u, 0) && !t[0].kind.Literal?
    ensures ScrubbedTree(t, p) == ScrubbedTree(u, p)
  {
    var f, g := TwinOf(t, u), TwinOf(u, t);
    RenamingExists(t, u);
    forall x: NodeId | Attached(t, x) && t[x].kind.Literal? ensures Marked(t, p, x) <==> Marked(u, p, f(x)) {
      if Marked(t, p, x) {
        TwinMarks(t, u, p, x);
      }
      if Marked(u, p, f(x)) {
        TwinMarks(u, t, p, f(x));
        assert g(f(x)) == x;
      }
    }
    SameMarksSameTree(t, u, f, p);
  }
}
