/**
 Statement trees as the SQL parser hands them over, and the walk over them.

 A tree is an arena of nodes. The index of a node stands for the identity of the Python
 object; node 0 is the root. Indices are numbered so that a child has a larger index than
 its parent, which any finite tree allows and which replacing a node by a fresh one keeps.
 */
module SyntaxTrees {
  import opened Basics

  type NodeId = nat

  datatype Kind =
    | Select | Insert | Update | Delete
    | Eq | Column | Tuple | Schema | Values
    | Literal | Placeholder | Identifier | Var | Star | Null
    | Drop | Alter | Create | TruncateTable | Transaction | Commit | Rollback
    | Func(functionClass: string)
    | Other(otherClass: string)

  /**
   `text` is the node's own string (a literal's contents, an identifier's name, an anonymous
   function's name; "" if it has none), `argKey` the argument of the parent that holds the node,
   and `children` lists the child nodes of all arguments in the order the walk enumerates them.
   */
  datatype Node = Node(
    kind: Kind,
    text: string,
    isString: bool,
    argKey: string,
    parent: Option<NodeId>,
    children: seq<NodeId>)

  type Arena = seq<Node>

  // ---------------------------------------------------------------- well-formed arenas

  ghost predicate ValidNode(t: Arena, i: NodeId)
    requires i < |t|
  {
    && (forall c: NodeId :: c in t[i].children ==> i < c < |t| && t[c].parent == Some(i))
    && Distinct(t[i].children)
    && (t[i].parent.Some? ==> t[i].parent.value < i && i in t[t[i].parent.value].children)
    && (t[i].parent.None? ==> t[i].argKey == "")
    && (t[i].kind.Literal? ==> t[i].children == [])
  }

  ghost predicate Valid(t: Arena) {
    && |t| > 0
    && t[0].parent.None?
    && forall i: NodeId {:trigger ValidNode(t, i)} :: i < |t| ==> ValidNode(t, i)
  }

  // ---------------------------------------------------------------- access to a node's arguments

  function WithKey(t: Arena, ids: seq<NodeId>, key: string): seq<NodeId> {
    if ids == [] then []
    else (if ids[0] < |t| && t[ids[0]].argKey == key then [ids[0]] else []) + WithKey(t, ids[1..], key)
  }

  lemma {:induction false} WithKeyMember(t: Arena, ids: seq<NodeId>, key: string, c: NodeId)
    ensures c in WithKey(t, ids, key) <==> c in ids && c < |t| && t[c].argKey == key
  {
    if ids != [] {
      WithKeyMember(t, ids[1..], key, c);
    }
  }

  /** The list held by argument `key`; empty when the argument is absent. */
  function Args(t: Arena, n: NodeId, key: string): seq<NodeId> {
    if n < |t| then WithKey(t, t[n].children, key) else []
  }

  lemma ArgsWithin(t: Arena, n: NodeId, key: string)
    ensures Within(t, Args(t, n, key), 0)
  {
    var ids := Args(t, n, key);
    forall i | 0 <= i < |ids| ensures ids[i] < |t| {
      WithKeyMember(t, t[n].children, key, ids[i]);
    }
  }

  /** The node held by argument `key`, if any. */
  function Arg(t: Arena, n: NodeId, key: string): (r: Option<NodeId>)
    ensures r.Some? ==> r.value < |t|
  {
    var held := Args(t, n, key);
    ArgsWithin(t, n, key);
    if held == [] then None else Some(held[0])
  }

  lemma {:induction false} WithKeyConcat(t: Arena, a: seq<NodeId>, b: seq<NodeId>, key: string)
    ensures WithKey(t, a + b, key) == WithKey(t, a, key) + WithKey(t, b, key)
  {
    if a == [] {
      assert a + b == b;
    } else {
      assert (a + b)[0] == a[0] && (a + b)[1..] == a[1..] + b;
      WithKeyConcat(t, a[1..], b, key);
    }
  }

  /** The list held by an argument keeps the order of the children: before each item stand those held earlier. */
  lemma ArgsPosition(t: Arena, n: NodeId, key: string, i: nat)
    requires n < |t| && i < |t[n].children| && t[n].children[i] < |t| && t[t[n].children[i]].argKey == key
    ensures var earlier := |WithKey(t, t[n].children[..i], key)|;
            earlier < |Args(t, n, key)| && Args(t, n, key)[earlier] == t[n].children[i]
  {
    var ids := t[n].children;
    assert ids == ids[..i] + ([ids[i]] + ids[i + 1..]);
    WithKeyConcat(t, ids[..i], [ids[i]] + ids[i + 1..], key);
    WithKeyConcat(t, [ids[i]], ids[i + 1..], key);
  }

  /** Argument `key` of n holds c: the first child with this key. */
  ghost predicate Holds(t: Arena, n: NodeId, key: string, c: NodeId) {
    n < |t| && c < |t| && t[c].argKey == key && exists i: nat :: FirstHeld(t, t[n].children, key, c, i)
  }

  ghost predicate FirstHeld(t: Arena, ids: seq<NodeId>, key: string, c: NodeId, i: nat) {
    i < |ids| && ids[i] == c && NoneHeld(t, ids[..i], key)
  }

  ghost predicate NoneHeld(t: Arena, ids: seq<NodeId>, key: string) {
    forall c: NodeId :: c in ids && c < |t| ==> t[c].argKey != key
  }

  lemma {:induction false} WithKeyHead(t: Arena, ids: seq<NodeId>, key: string)
    ensures WithKey(t, ids, key) == [] <==> NoneHeld(t, ids, key)
    ensures WithKey(t, ids, key) != [] ==> exists i: nat :: FirstHeld(t, ids, key, WithKey(t, ids, key)[0], i)
  {
    if ids != [] {
      var rest := ids[1..];
      WithKeyHead(t, rest, key);
      if ids[0] < |t| && t[ids[0]].argKey == key {
        assert ids[..0] == [] && FirstHeld(t, ids, key, ids[0], 0);
        assert WithKey(t, ids, key)[0] == ids[0];
      } else if WithKey(t, rest, key) != [] {
        var c := WithKey(t, rest, key)[0];
        var i: nat :| FirstHeld(t, rest, key, c, i);
        assert ids[..i + 1] == [ids[0]] + rest[..i];
        assert WithKey(t, ids, key) == WithKey(t, rest, key);
        assert FirstHeld(t, ids, key, c, i + 1);
      }
      assert ids == [ids[0]] + rest;
    }
  }

  lemma NoneBefore(t: Arena, ids: seq<NodeId>, key: string, i: nat)
    requires i <= |ids| && NoneHeld(t, ids[..i], key)
    ensures forall k :: 0 <= k < i && ids[k] < |t| ==> t[ids[k]].argKey != key
  {
    forall k | 0 <= k < i && ids[k] < |t| ensures t[ids[k]].argKey != key {
      assert ids[..i][k] in ids[..i];
    }
  }

  lemma HeldOnce(t: Arena, n: NodeId, key: string, c: NodeId, d: NodeId)
    requires Holds(t, n, key, c) && Holds(t, n, key, d)
    ensures c == d
  {
    var ids := t[n].children;
    var i: nat :| FirstHeld(t, ids, key, c, i);
    var j: nat :| FirstHeld(t, ids, key, d, j);
    NoneBefore(t, ids, key, i);
    NoneBefore(t, ids, key, j);
  }

  /** Looking an argument up finds the node it holds, and nothing exactly if no child has the key. */
  lemma ArgMeaning(t: Arena, n: NodeId, key: string)
    ensures Arg(t, n, key).None? <==> n >= |t| || NoneHeld(t, t[n].children, key)
    ensures forall c: NodeId :: Arg(t, n, key) == Some(c) <==> Holds(t, n, key, c)
  {
    if n < |t| {
      WithKeyHead(t, t[n].children, key);
      if Arg(t, n, key).Some? {
        var held := Arg(t, n, key).value;
        WithKeyMember(t, t[n].children, key, held);
        assert Holds(t, n, key, held);
        forall c: NodeId | Holds(t, n, key, c) ensures c == held {
          HeldOnce(t, n, key, c, held);
        }
      } else {
        forall c: NodeId ensures !Holds(t, n, key, c) {
        }
      }
    }
  }

  /** The `name` of a node: its own string, or the string of the simple node under "this". */
  function Name(t: Arena, n: NodeId): string {
    if n >= |t| then ""
    else if t[n].text != "" then t[n].text
    else match Arg(t, n, "this")
      case None => ""
      case Some(c) =>
        if t[c].kind in {Identifier, Literal, Var, Star, Null} then t[c].text else ""
  }

  /**
   n is called w, by a string of its own, or for want of one by the string of the identifier, or of
   the literal, variable, star or null, that is its "this".
   */
  ghost predicate IsCalled(t: Arena, n: NodeId, w: string) {
    && w != "" && n < |t|
    && (|| t[n].text == w
        || (t[n].text == "" && exists d: NodeId :: Holds(t, n, "this", d) && IsSimple(t[d].kind) && t[d].text == w))
  }

  predicate IsSimple(k: Kind) {
    k.Identifier? || k.Literal? || k.Var? || k.Star? || k.Null?
  }

  /** The name of a node, unless it is empty, is what the node is called. */
  lemma NameMeaning(t: Arena, n: NodeId, w: string)
    ensures Name(t, n) == w && w != "" <==> IsCalled(t, n, w)
  {
    ArgMeaning(t, n, "this");
    if n < |t| && Arg(t, n, "this").Some? {
      assert Holds(t, n, "this", Arg(t, n, "this").value);
    }
  }

  /** Whether the name of n is read off a literal. */
  predicate NameFromLiteral(t: Arena, n: NodeId)
    requires n < |t|
  {
    || t[n].kind.Literal?
    || (t[n].text == "" && Arg(t, n, "this").Some? && t[Arg(t, n, "this").value].kind.Literal?)
  }

  ghost predicate Within(t: Arena, ids: seq<NodeId>, lo: int) {
    forall i :: 0 <= i < |ids| ==> lo <= ids[i] < |t|
  }

  // ---------------------------------------------------------------- descendants

  /** x is one of `roots` or lies below one of them. */
  predicate UnderAny(t: Arena, roots: seq<NodeId>, x: NodeId)
    decreases x
  {
    || x in roots
    || (x < |t| && t[x].parent.Some? && t[x].parent.value < x && UnderAny(t, roots, t[x].parent.value))
  }

  predicate Under(t: Arena, a: NodeId, x: NodeId) {
    UnderAny(t, [a], x)
  }

  function Depth(t: Arena, x: NodeId): nat
    decreases x
  {
    if x < |t| && t[x].parent.Some? && t[x].parent.value < x then 1 + Depth(t, t[x].parent.value) else 0
  }

  // ---------------------------------------------------------------- level order

  function ChildrenOf(t: Arena, x: NodeId): seq<NodeId> {
    if x < |t| then t[x].children else []
  }

  /** The children of the first n nodes of `front`, concatenated in order. */
  function KidsOfFirst(t: Arena, front: seq<NodeId>, n: nat): seq<NodeId>
    requires n <= |front|
  {
    if n == 0 then [] else KidsOfFirst(t, front, n - 1) + ChildrenOf(t, front[n - 1])
  }

  function Kids(t: Arena, front: seq<NodeId>): seq<NodeId> {
    KidsOfFirst(t, front, |front|)
  }

  lemma {:induction false} KidsOfFirstMember(t: Arena, front: seq<NodeId>, n: nat, k: NodeId)
    requires Valid(t) && Within(t, front, 0) && n <= |front|
    ensures k in KidsOfFirst(t, front, n) <==>
            k < |t| && t[k].parent.Some? && exists j :: 0 <= j < n && front[j] == t[k].parent.value
  {
    if n > 0 {
      KidsOfFirstMember(t, front, n - 1, k);
      assert ValidNode(t, front[n - 1]);
      assert k < |t| ==> ValidNode(t, k);
    }
  }

  lemma KidsMember(t: Arena, front: seq<NodeId>, k: NodeId)
    requires Valid(t) && Within(t, front, 0)
    ensures k in Kids(t, front) <==> k < |t| && t[k].parent.Some? && t[k].parent.value in front
  {
    KidsOfFirstMember(t, front, |front|, k);
  }

  lemma KidsWithin(t: Arena, front: seq<NodeId>, lo: int)
    requires Valid(t) && Within(t, front, lo)
    ensures Within(t, Kids(t, front), lo + 1)
  {
    var kids := Kids(t, front);
    forall i | 0 <= i < |kids| ensures lo + 1 <= kids[i] < |t| {
      KidsMember(t, front, kids[i]);
      assert ValidNode(t, kids[i]);
    }
  }

  /** Breadth-first order, level by level: a front of nodes, then the level of all their children. */
  function Levels(t: Arena, front: seq<NodeId>, depth: nat): seq<NodeId>
    decreases depth
  {
    if front == [] || depth == 0 then [] else front + Levels(t, Kids(t, front), depth - 1)
  }

  /** A tree of |t| nodes has at most |t| levels, so this bound on the depth cuts nothing off. */
  function WalkOrder(t: Arena, a: NodeId): seq<NodeId> {
    Levels(t, [a], |t|)
  }

  lemma {:induction false} KidsOfFirstConcat(t: Arena, a: seq<NodeId>, b: seq<NodeId>, n: nat)
    requires n <= |b|
    ensures KidsOfFirst(t, a + b, |a| + n) == Kids(t, a) + KidsOfFirst(t, b, n)
  {
    if n == 0 {
      KidsOfPrefix(t, a, b, |a|);
      assert Kids(t, a) + [] == Kids(t, a);
    } else {
      var last := ChildrenOf(t, b[n - 1]);
      KidsOfFirstConcat(t, a, b, n - 1);
      assert (a + b)[|a| + n - 1] == b[n - 1];
      assert KidsOfFirst(t, a + b, |a| + n) == KidsOfFirst(t, a + b, |a| + n - 1) + last;
      Regrouped(Kids(t, a), KidsOfFirst(t, b, n - 1), last);
    }
  }

  lemma KidsConcat(t: Arena, a: seq<NodeId>, b: seq<NodeId>)
    ensures Kids(t, a + b) == Kids(t, a) + Kids(t, b)
  {
    KidsOfFirstConcat(t, a, b, |b|);
  }

  lemma Regrouped(a: seq<NodeId>, b: seq<NodeId>, c: seq<NodeId>)
    ensures (a + b) + c == a + (b + c)
  {
  }

  lemma {:induction false} KidsOfPrefix(t: Arena, a: seq<NodeId>, b: seq<NodeId>, n: nat)
    requires n <= |a|
    ensures KidsOfFirst(t, a + b, n) == KidsOfFirst(t, a, n)
  {
    if n > 0 {
      KidsOfPrefix(t, a, b, n - 1);
    }
  }

  lemma {:induction false} LevelsFollowThemselves(t: Arena, front: seq<NodeId>, depth: nat)
    requires Valid(t) && Within(t, front, |t| - depth)
    ensures Levels(t, front, depth) == front + Kids(t, Levels(t, front, depth))
    decreases depth
  {
    if front == [] {
      assert Kids(t, []) == [];
    } else {
      var kids := Kids(t, front);
      var next := Levels(t, kids, depth - 1);
      KidsWithin(t, front, |t| - depth);
      LevelsFollowThemselves(t, kids, depth - 1);
      KidsConcat(t, front, next);
    }
  }

  /** The walk is its start, then the children of every node that it visits, in the order of its visits. */
  lemma WalkFollowsItself(t: Arena, a: NodeId)
    requires Valid(t) && a < |t|
    ensures WalkOrder(t, a) == [a] + Kids(t, WalkOrder(t, a))
  {
    LevelsFollowThemselves(t, [a], |t|);
  }

  /** The bound only serves termination: from ids at or above lo at most |t| - lo levels follow. */
  lemma {:induction false} LevelsBoundIrrelevant(t: Arena, front: seq<NodeId>, lo: nat, m: nat, n: nat)
    requires Valid(t) && Within(t, front, lo) && m >= |t| - lo && n >= |t| - lo
    ensures Levels(t, front, m) == Levels(t, front, n)
    decreases m
  {
    if front != [] {
      var kids := Kids(t, front);
      KidsWithin(t, front, lo);
      LevelsBoundIrrelevant(t, kids, lo + 1, m - 1, n - 1);
    }
  }

  lemma {:induction false} UnderAnyUnfold(t: Arena, front: seq<NodeId>, x: NodeId)
    requires Valid(t) && Within(t, front, 0) && x < |t|
    ensures UnderAny(t, front, x) <==> x in front || UnderAny(t, Kids(t, front), x)
    decreases x
  {
    KidsMember(t, front, x);
    assert ValidNode(t, x);
    if t[x].parent.Some? {
      UnderAnyUnfold(t, front, t[x].parent.value);
    }
  }

  lemma {:induction false} UnderAnyNone(t: Arena, x: NodeId)
    ensures !UnderAny(t, [], x)
    decreases x
  {
    if x < |t| && t[x].parent.Some? && t[x].parent.value < x {
      UnderAnyNone(t, t[x].parent.value);
    }
  }

  /** The level order visits exactly the nodes at or below the front. */
  lemma {:induction false} LevelsMember(t: Arena, front: seq<NodeId>, depth: nat, x: NodeId)
    requires Valid(t) && Within(t, front, |t| - depth)
    ensures x in Levels(t, front, depth) <==> x < |t| && UnderAny(t, front, x)
    decreases depth
  {
    if front == [] {
      UnderAnyNone(t, x);
    } else {
      KidsWithin(t, front, |t| - depth);
      LevelsMember(t, Kids(t, front), depth - 1, x);
      if x < |t| {
        UnderAnyUnfold(t, front, x);
      }
    }
  }

  ghost predicate AtDepth(t: Arena, ids: seq<NodeId>, d: nat) {
    forall i :: 0 <= i < |ids| ==> Depth(t, ids[i]) == d
  }

  lemma KidsDepth(t: Arena, front: seq<NodeId>, d: nat)
    requires Valid(t) && Within(t, front, 0) && AtDepth(t, front, d)
    ensures AtDepth(t, Kids(t, front), d + 1)
  {
    var kids := Kids(t, front);
    forall i | 0 <= i < |kids| ensures Depth(t, kids[i]) == d + 1 {
      KidsMember(t, front, kids[i]);
      assert ValidNode(t, kids[i]);
    }
  }

  lemma DistinctConcat(a: seq<NodeId>, b: seq<NodeId>)
    requires Distinct(a) && Distinct(b) && forall x: NodeId :: x in a ==> x !in b
    ensures Distinct(a + b)
  {
    forall i, j | 0 <= i < j < |a + b| ensures (a + b)[i] != (a + b)[j] {
      if i < |a| <= j {
        assert a[i] in a && b[j - |a|] in b;
      }
    }
  }

  lemma {:induction false} KidsDistinct(t: Arena, front: seq<NodeId>, n: nat)
    requires Valid(t) && Within(t, front, 0) && Distinct(front) && n <= |front|
    ensures Distinct(KidsOfFirst(t, front, n))
  {
    if n > 0 {
      KidsDistinct(t, front, n - 1);
      assert ValidNode(t, front[n - 1]);
      var a, b := KidsOfFirst(t, front, n - 1), t[front[n - 1]].children;
      forall x: NodeId | x in a ensures x !in b {
        KidsOfFirstMember(t, front, n - 1, x);
      }
      DistinctConcat(a, b);
    }
  }

  lemma {:induction false} UnderDepth(t: Arena, front: seq<NodeId>, d: nat, x: NodeId)
    requires AtDepth(t, front, d) && UnderAny(t, front, x)
    ensures Depth(t, x) >= d
    decreases x
  {
    if x !in front {
      UnderDepth(t, front, d, t[x].parent.value);
    }
  }

  lemma LevelsApart(t: Arena, front: seq<NodeId>, depth: nat, d: nat, x: NodeId)
    requires Valid(t) && Within(t, Kids(t, front), |t| - depth) && AtDepth(t, Kids(t, front), d + 1)
    requires x in Levels(t, Kids(t, front), depth)
    ensures Depth(t, x) > d
  {
    LevelsMember(t, Kids(t, front), depth, x);
    UnderDepth(t, Kids(t, front), d + 1, x);
  }

  lemma {:induction false} LevelsDistinct(t: Arena, front: seq<NodeId>, depth: nat, d: nat)
    requires Valid(t) && Within(t, front, |t| - depth) && AtDepth(t, front, d) && Distinct(front)
    ensures Distinct(Levels(t, front, depth))
    decreases depth
  {
    if front != [] {
      var kids := Kids(t, front);
      KidsWithin(t, front, |t| - depth);
      KidsDepth(t, front, d);
      KidsDistinct(t, front, |front|);
      var next := Levels(t, kids, depth - 1);
      LevelsDistinct(t, kids, depth - 1, d + 1);
      forall x: NodeId | x in next ensures Depth(t, x) > d {
        LevelsApart(t, front, depth - 1, d, x);
      }
      assert forall x: NodeId :: x in front ==> x !in next;
      DistinctConcat(front, next);
    }
  }

  ghost predicate DepthsGrow(t: Arena, ids: seq<NodeId>) {
    forall i, j :: 0 <= i < j < |ids| ==> Depth(t, ids[i]) <= Depth(t, ids[j])
  }

  lemma {:induction false} LevelsDepths(t: Arena, front: seq<NodeId>, depth: nat, d: nat)
    requires Valid(t) && Within(t, front, |t| - depth) && AtDepth(t, front, d)
    ensures DepthsGrow(t, Levels(t, front, depth))
    decreases depth
  {
    if front != [] {
      var kids := Kids(t, front);
      var next := Levels(t, kids, depth - 1);
      KidsWithin(t, front, |t| - depth);
      KidsDepth(t, front, d);
      LevelsDepths(t, kids, depth - 1, d + 1);
      forall j | 0 <= j < |next| ensures Depth(t, next[j]) > d {
        LevelsApart(t, front, depth - 1, d, next[j]);
      }
    }
  }

  /** Nodes nearer to the start are visited before nodes further down. */
  lemma WalkGoesDown(t: Arena, a: NodeId)
    requires Valid(t) && a < |t|
    ensures DepthsGrow(t, WalkOrder(t, a))
  {
    LevelsDepths(t, [a], |t|, Depth(t, a));
  }

  lemma WalkDistinct(t: Arena, a: NodeId)
    requires Valid(t) && a < |t|
    ensures Distinct(WalkOrder(t, a))
  {
    LevelsDistinct(t, [a], |t|, Depth(t, a));
  }

  lemma WalkMember(t: Arena, a: NodeId, x: NodeId)
    requires Valid(t) && a < |t|
    ensures x in WalkOrder(t, a) <==> x < |t| && Under(t, a, x)
  {
    LevelsMember(t, [a], |t|, x);
  }

  /** The walk from a node visits that node and its descendants, each exactly once. */
  lemma WalkVisitsSubtreeOnce(t: Arena, a: NodeId)
    requires Valid(t) && a < |t|
    ensures Distinct(WalkOrder(t, a))
    ensures forall x: NodeId :: x in WalkOrder(t, a) <==> x < |t| && Under(t, a, x)
  {
    WalkDistinct(t, a);
    forall x: NodeId ensures x in WalkOrder(t, a) <==> x < |t| && Under(t, a, x) {
      WalkMember(t, a, x);
    }
  }

  // ---------------------------------------------------------------- the queue loop follows the level order

  /**
   A point of the queue loop: `before` holds the finished levels, `level` is the current one with
   its first `finished` nodes done, and the queue is its rest followed by the children of that part.
   */
  datatype Progress = Progress(before: seq<NodeId>, level: seq<NodeId>, finished: nat, deeper: seq<NodeId>)

  ghost predicate InLevel(t: Arena, walk: seq<NodeId>, p: Progress, order: seq<NodeId>, queue: seq<NodeId>) {
    && p.finished <= |p.level|
    && Within(t, p.level, 0)
    && queue == p.level[p.finished..] + KidsOfFirst(t, p.level, p.finished)
    && order == p.before + p.level[..p.finished]
    && walk == p.before + p.level + p.deeper
  }

  /** `depth` levels are left below the current one, enough for whatever its nodes hold. */
  ghost predicate InProgress(
    t: Arena, walk: seq<NodeId>, p: Progress, depth: nat, order: seq<NodeId>, queue: seq<NodeId>)
  {
    InLevel(t, walk, p, order, queue) && Below(t, p.level, p.deeper, depth)
  }

  ghost predicate Below(t: Arena, level: seq<NodeId>, deeper: seq<NodeId>, depth: nat) {
    && Within(t, Kids(t, level), |t| - depth)
    && deeper == Levels(t, Kids(t, level), depth)
  }

  lemma NextLevel(t: Arena, walk: seq<NodeId>, p: Progress, depth: nat, order: seq<NodeId>, queue: seq<NodeId>)
    returns (q: Progress)
    requires Valid(t) && InProgress(t, walk, p, depth, order, queue)
    requires queue != [] && p.finished == |p.level|
    ensures depth > 0 && InProgress(t, walk, q, depth - 1, order, queue) && q.finished < |q.level|
  {
    var next := Kids(t, p.level);
    assert queue == next;
    KidsWithin(t, next, |t| - depth);
    q := Progress(p.before + p.level, next, 0, Levels(t, Kids(t, next), depth - 1));
    EnterLevel(t, walk, p, q, order, queue);
  }

  lemma EnterLevel(t: Arena, walk: seq<NodeId>, p: Progress, q: Progress, order: seq<NodeId>, queue: seq<NodeId>)
    requires InLevel(t, walk, p, order, queue) && p.finished == |p.level|
    requires q.before == p.before + p.level && q.level == Kids(t, p.level) && q.finished == 0
    requires p.deeper == q.level + q.deeper && Within(t, q.level, 0)
    ensures InLevel(t, walk, q, order, queue)
  {
    assert p.level[..p.finished] == p.level;
    assert q.level[..0] == [];
  }

  lemma PopFront(t: Arena, walk: seq<NodeId>, p: Progress, order: seq<NodeId>, queue: seq<NodeId>)
    requires InLevel(t, walk, p, order, queue) && p.finished < |p.level|
    ensures queue != [] && queue[0] < |t| && |order| < |walk|
    ensures InLevel(t, walk, p.(finished := p.finished + 1), order + [queue[0]], queue[1..] + t[queue[0]].children)
  {
    var node, rest, added := p.level[p.finished], p.level[p.finished + 1..], KidsOfFirst(t, p.level, p.finished);
    assert p.level[p.finished..] == [node] + rest;
    assert queue == [node] + (rest + added);
    assert queue[1..] + t[node].children == rest + (added + t[node].children);
    assert p.level[..p.finished + 1] == p.level[..p.finished] + [node];
  }

  /** With a queue left there is a node to pop, on this level or the next. */
  lemma Settle(t: Arena, walk: seq<NodeId>, p: Progress, depth: nat, order: seq<NodeId>, queue: seq<NodeId>)
    returns (q: Progress, left: nat)
    requires Valid(t) && InProgress(t, walk, p, depth, order, queue) && queue != []
    ensures InProgress(t, walk, q, left, order, queue) && q.finished < |q.level|
  {
    assert p.finished <= |p.level|;
    if p.finished == |p.level| {
      q := NextLevel(t, walk, p, depth, order, queue);
      left := depth - 1;
    } else {
      q, left := p, depth;
    }
  }

  lemma Advance(t: Arena, walk: seq<NodeId>, p: Progress, depth: nat, order: seq<NodeId>, queue: seq<NodeId>)
    requires InProgress(t, walk, p, depth, order, queue) && p.finished < |p.level|
    ensures queue != [] && queue[0] < |t| && |order| < |walk|
    ensures InProgress(t, walk, p.(finished := p.finished + 1), depth,
                       order + [queue[0]], queue[1..] + t[queue[0]].children)
  {
    PopFront(t, walk, p, order, queue);
  }

  /** When the queue runs dry the walk is complete. */
  lemma WalkComplete(t: Arena, walk: seq<NodeId>, p: Progress, depth: nat, order: seq<NodeId>)
    requires InProgress(t, walk, p, depth, order, [])
    ensures order == walk
  {
    assert |p.level[p.finished..]| + |KidsOfFirst(t, p.level, p.finished)| == 0;
    assert p.level[..p.finished] == p.level;
    assert p.deeper == [];
  }

  // ---------------------------------------------------------------- searching a walk

  /** Those of the first n ids that are of the given kind. */
  function OfKindInFirst(t: Arena, ids: seq<NodeId>, n: nat, kind: Kind): seq<NodeId>
    requires n <= |ids|
  {
    if n == 0 then []
    else OfKindInFirst(t, ids, n - 1, kind)
         + if ids[n - 1] < |t| && t[ids[n - 1]].kind == kind then [ids[n - 1]] else []
  }

  function OfKind(t: Arena, ids: seq<NodeId>, kind: Kind): seq<NodeId> {
    OfKindInFirst(t, ids, |ids|, kind)
  }

  lemma {:induction false} OfKindInFirstMember(t: Arena, ids: seq<NodeId>, n: nat, kind: Kind, x: NodeId)
    requires n <= |ids|
    ensures x in OfKindInFirst(t, ids, n, kind) <==>
            x < |t| && t[x].kind == kind && exists j :: 0 <= j < n && ids[j] == x
  {
    if n > 0 {
      OfKindInFirstMember(t, ids, n - 1, kind, x);
    }
  }

  lemma OfKindMember(t: Arena, ids: seq<NodeId>, kind: Kind, x: NodeId)
    ensures x in OfKind(t, ids, kind) <==> x in ids && x < |t| && t[x].kind == kind
  {
    OfKindInFirstMember(t, ids, |ids|, kind, x);
  }

  lemma {:induction false} OfKindDistinct(t: Arena, ids: seq<NodeId>, n: nat, kind: Kind)
    requires Distinct(ids) && n <= |ids|
    ensures Distinct(OfKindInFirst(t, ids, n, kind))
  {
    if n > 0 {
      OfKindDistinct(t, ids, n - 1, kind);
      OfKindInFirstMember(t, ids, n - 1, kind, ids[n - 1]);
      DistinctConcat(OfKindInFirst(t, ids, n - 1, kind), [ids[n - 1]]);
    }
  }

  /** Selecting from a longer stretch extends the selection from a shorter one. */
  lemma {:induction false} OfKindGrows(t: Arena, ids: seq<NodeId>, m: nat, n: nat, kind: Kind)
    requires m <= n <= |ids|
    ensures OfKindInFirst(t, ids, m, kind) <= OfKindInFirst(t, ids, n, kind)
  {
    if m < n {
      OfKindGrows(t, ids, m, n - 1, kind);
    }
  }

  lemma OfKindPosition(t: Arena, ids: seq<NodeId>, j: nat, kind: Kind)
    requires j < |ids| && ids[j] < |t| && t[ids[j]].kind == kind
    ensures |OfKindInFirst(t, ids, j, kind)| < |OfKind(t, ids, kind)|
    ensures OfKind(t, ids, kind)[|OfKindInFirst(t, ids, j, kind)|] == ids[j]
  {
    OfKindGrows(t, ids, j + 1, |ids|, kind);
  }

  /** All nodes of a kind at or below a, in walk order. */
  function Found(t: Arena, a: NodeId, kind: Kind): seq<NodeId> {
    OfKind(t, WalkOrder(t, a), kind)
  }

  lemma FoundMember(t: Arena, a: NodeId, kind: Kind, x: NodeId)
    requires Valid(t) && a < |t|
    ensures x in Found(t, a, kind) <==> x < |t| && t[x].kind == kind && Under(t, a, x)
  {
    WalkMember(t, a, x);
    OfKindMember(t, WalkOrder(t, a), kind, x);
  }

  lemma FoundDistinct(t: Arena, a: NodeId, kind: Kind)
    requires Valid(t) && a < |t|
    ensures Distinct(Found(t, a, kind))
  {
    WalkDistinct(t, a);
    OfKindDistinct(t, WalkOrder(t, a), |WalkOrder(t, a)|, kind);
  }

  lemma FoundAt(t: Arena, a: NodeId, kind: Kind, i: nat)
    requires i < |Found(t, a, kind)|
    ensures Found(t, a, kind)[i] < |t| && t[Found(t, a, kind)[i]].kind == kind
  {
    OfKindMember(t, WalkOrder(t, a), kind, Found(t, a, kind)[i]);
  }

  /** The literals of the statement in walk order. */
  function Literals(t: Arena): seq<NodeId> {
    Found(t, 0, Literal)
  }

  // ---------------------------------------------------------------- the tree as a value

  /** What remains of a tree when node identities are forgotten. */
  datatype Tree = Tree(kind: Kind, text: string, isString: bool, argKey: string, subtrees: seq<Tree>)

  function View(t: Arena, n: NodeId): Tree
    requires Valid(t) && n < |t|
    decreases |t| - n
  {
    assert ValidNode(t, n);
    var children := t[n].children;
    Tree(t[n].kind, t[n].text, t[n].isString, t[n].argKey,
         seq(|children|, i requires 0 <= i < |children| =>
           assert children[i] in children; View(t, children[i])))
  }

  // ---------------------------------------------------------------- the mutable tree

  /** What replacing `old` by `new` in its parent's slot makes of the arena. */
  function Replaced(t: Arena, target: NodeId, replacement: NodeId): Arena
    requires target < |t| && replacement < |t|
    requires t[target].parent.Some? ==>
               t[target].parent.value < |t| && target in t[t[target].parent.value].children
  {
    if t[target].parent.None? then t
    else
      var p := t[target].parent.value;
      var slot := IndexIn(t[p].children, target);
      var t1 := t[p := t[p].(children := t[p].children[slot := replacement])];
      var t2 := t1[replacement := t1[replacement].(parent := Some(p), argKey := t1[target].argKey)];
      t2[target := t2[target].(parent := None, argKey := "")]
  }

  class SyntaxTree {
    var nodes: Arena

    constructor (nodes: Arena)
      ensures this.nodes == nodes
    {
      this.nodes := nodes;
    }

    /** The queue loop behind every search: pop a node, yield it, append its children. */
    method Walk(start: NodeId) returns (order: seq<NodeId>)
      requires Valid(nodes) && start < |nodes|
      ensures order == WalkOrder(nodes, start)
    {
      var queue := [start];
      order := [];
      ghost var walk, depth: nat := WalkOrder(nodes, start), |nodes| - 1;
      ghost var p := Progress([], [start], 0, Levels(nodes, Kids(nodes, [start]), depth));
      KidsWithin(nodes, [start], 0);
      while queue != []
        invariant InProgress(nodes, walk, p, depth, order, queue)
        decreases |walk| - |order|
      {
        p, depth := Settle(nodes, walk, p, depth, order, queue);
        Advance(nodes, walk, p, depth, order, queue);
        p := p.(finished := p.finished + 1);
        var node := queue[0];
        queue := queue[1..] + nodes[node].children;
        order := order + [node];
      }
      WalkComplete(nodes, walk, p, depth, order);
    }

    /** All nodes of one kind at or below `start`, in walk order. */
    method FindAll(start: NodeId, kind: Kind) returns (found: seq<NodeId>)
      requires Valid(nodes) && start < |nodes|
      ensures found == Found(nodes, start, kind)
    {
      var order := Walk(start);
      found := [];
      for i := 0 to |order|
        invariant found == OfKindInFirst(nodes, order, i, kind)
      {
        WalkMember(nodes, start, order[i]);
        if nodes[order[i]].kind == kind {
          found := found + [order[i]];
        }
      }
    }

    /** Allocates a node that no parent holds yet. */
    method NewNode(kind: Kind, text: string, isString: bool) returns (id: NodeId)
      modifies this
      ensures id == |old(nodes)|
      ensures nodes == old(nodes) + [Node(kind, text, isString, "", None, [])]
    {
      id := |nodes|;
      nodes := nodes + [Node(kind, text, isString, "", None, [])];
    }

    /** Puts `replacement` into the slot that `target` occupies; without a parent nothing happens. */
    method Replace(target: NodeId, replacement: NodeId)
      requires target < |nodes| && replacement < |nodes|
      requires nodes[target].parent.Some? ==>
                 nodes[target].parent.value < |nodes| && target in nodes[nodes[target].parent.value].children
      modifies this
      ensures nodes == Replaced(old(nodes), target, replacement)
    {
      if nodes[target].parent.None? {
        return;
      }
      var p := nodes[target].parent.value;
      var slot := 0;
      while nodes[p].children[slot] != target
        invariant slot < |nodes[p].children|
        invariant target !in nodes[p].children[..slot]
        decreases |nodes[p].children| - slot
      {
        assert nodes[p].children == nodes[p].children[..slot + 1] + nodes[p].children[slot + 1..];
        slot := slot + 1;
      }
      assert slot == IndexIn(nodes[p].children, target);
      nodes := nodes[p := nodes[p].(children := nodes[p].children[slot := replacement])];
      nodes := nodes[replacement := nodes[replacement].(parent := Some(p), argKey := nodes[target].argKey)];
      nodes := nodes[target := nodes[target].(parent := None, argKey := "")];
    }
  }
}
