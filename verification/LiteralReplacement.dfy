/** Numbering all literals of a statement and replacing each one in place. */
module LiteralReplacement {
  import opened Basics
  import opened SyntaxTrees
  import opened SensitiveLiterals

  function RedactionMarker(index: nat): string {
    "[REDACTED:$" + Decimal(index) + "]"
  }

  ghost predicate LiteralList(t: Arena, literals: seq<NodeId>) {
    && Distinct(literals)
    && forall k :: 0 <= k < |literals| ==> literals[k] < |t| && t[literals[k]].kind.Literal?
  }

  // ---------------------------------------------------------------- the resulting arena

  /** The node that takes the place of the k-th literal (counting from 0, numbered from 1). */
  function Substitute(t: Arena, literals: seq<NodeId>, marks: set<NodeId>, k: nat): Node
    requires k < |literals| && literals[k] < |t|
  {
    var slot := t[literals[k]];
    if literals[k] in marks
    then Node(Literal, RedactionMarker(k + 1), true, slot.argKey, slot.parent, [])
    else Node(Placeholder, Decimal(k + 1), false, slot.argKey, slot.parent, [])
  }

  function Mapped(f: NodeId -> NodeId, ids: seq<NodeId>): (r: seq<NodeId>)
    ensures |r| == |ids|
  {
    seq(|ids|, j requires 0 <= j < |ids| => f(ids[j]))
  }

  /** Each literal gives way to its substitute; substitutes are allocated from n on. */
  function Redirection(n: nat, literals: seq<NodeId>): NodeId -> NodeId {
    (x: NodeId) => if x in literals then n + IndexIn(literals, x) else x
  }

  function Redirect(n: nat, literals: seq<NodeId>, ids: seq<NodeId>): seq<NodeId> {
    Mapped(Redirection(n, literals), ids)
  }

  function Rewired(t: Arena, literals: seq<NodeId>, i: NodeId): Node
    requires i < |t|
  {
    if i in literals then t[i].(parent := None, argKey := "")
    else t[i].(children := Redirect(|t|, literals, t[i].children))
  }

  /** The arena after the given literals have been replaced, in this order. */
  function Substituted(t: Arena, literals: seq<NodeId>, marks: set<NodeId>): (r: Arena)
    requires forall k :: 0 <= k < |literals| ==> literals[k] < |t|
    ensures |r| == |t| + |literals|
  {
    seq(|t| + |literals|, i requires 0 <= i < |t| + |literals| =>
      if i < |t| then Rewired(t, literals, i) else Substitute(t, literals, marks, i - |t|))
  }

  lemma IndexInDistinct<T(!new)>(s: seq<T>, i: nat)
    requires Distinct(s) && i < |s|
    ensures IndexIn(s, s[i]) == i
  {
  }

  /** Literals 0..k are replaced and the substitute of the next one is allocated, but not yet placed. */
  ghost predicate AboutToReplace(t: Arena, literals: seq<NodeId>, marks: set<NodeId>, k: nat, before: Arena) {
    && Valid(t) && LiteralList(t, literals) && k < |literals|
    && LiteralList(t, literals[..k])
    && before == Substituted(t, literals[..k], marks)
                 + [Substitute(t, literals, marks, k).(parent := None, argKey := "")]
  }

  lemma SubstitutesAgree(t: Arena, literals: seq<NodeId>, marks: set<NodeId>, k: nat, before: Arena)
    requires AboutToReplace(t, literals, marks, k, before)
    ensures LiteralList(t, literals[..k + 1])
    ensures var after := Substituted(t, literals[..k + 1], marks);
            && |before| == |after| == |t| + k + 1
            && after[|t| + k] == Substitute(t, literals, marks, k)
            && forall i :: |t| <= i < |t| + k ==> before[i] == after[i]
  {
    var done, more := literals[..k], literals[..k + 1];
    var after := Substituted(t, more, marks);
    forall i | |t| <= i < |t| + k ensures before[i] == after[i] {
      assert done[i - |t|] == more[i - |t|];
      assert before[i] == Substitute(t, done, marks, i - |t|);
      assert after[i] == Substitute(t, more, marks, i - |t|);
    }
    assert after[|t| + k] == Substitute(t, more, marks, k);
  }

  /** Old nodes other than the literal itself and its holder are not touched by the k-th step. */
  lemma OthersAgree(t: Arena, literals: seq<NodeId>, marks: set<NodeId>, k: nat, before: Arena, i: NodeId)
    requires AboutToReplace(t, literals, marks, k, before)
    requires i < |t| && i != literals[k] && literals[k] !in t[i].children
    ensures LiteralList(t, literals[..k + 1])
    ensures before[i] == Substituted(t, literals[..k + 1], marks)[i]
  {
    var done, more := literals[..k], literals[..k + 1];
    assert more == done + [literals[k]];
    SubstitutesAgree(t, literals, marks, k, before);
    RedirectMore(|t|, done, literals[k], t[i].children);
    assert before[i] == Rewired(t, done, i);
    assert Substituted(t, more, marks)[i] == Rewired(t, more, i);
  }

  lemma HolderAgrees(t: Arena, literals: seq<NodeId>, marks: set<NodeId>, k: nat, before: Arena)
    requires AboutToReplace(t, literals, marks, k, before) && t[literals[k]].parent.Some?
    ensures LiteralList(t, literals[..k + 1])
    ensures t[literals[k]].parent.value < literals[k]
    ensures var target, p := literals[k], t[literals[k]].parent.value;
            && target in before[p].children
            && Substituted(t, literals[..k + 1], marks)[p]
               == before[p].(children := before[p].children[IndexIn(before[p].children, target) := |t| + k])
  {
    var done, more := literals[..k], literals[..k + 1];
    var target, p := literals[k], t[literals[k]].parent.value;
    assert more == done + [target];
    SubstitutesAgree(t, literals, marks, k, before);
    HolderIsNoLiteral(t, literals, target);
    assert p !in more;
    assert ValidNode(t, p) && ValidNode(t, target);
    assert forall i :: 0 <= i < |t[p].children| ==> t[p].children[i] in t[p].children;
    RedirectSlot(|t|, done, target, t[p].children, IndexIn(t[p].children, target));
    assert before[p] == Rewired(t, done, p);
    assert Substituted(t, more, marks)[p] == Rewired(t, more, p);
  }

  /** Replacing one more literal in place is what `Substituted` says about a list one longer. */
  lemma ReplaceStep(t: Arena, literals: seq<NodeId>, marks: set<NodeId>, k: nat, before: Arena)
    requires AboutToReplace(t, literals, marks, k, before)
    ensures LiteralList(t, literals[..k + 1])
    ensures var target := literals[k];
            && target < |before| && |before| == |t| + k + 1
            && (before[target].parent.Some? ==>
                  before[target].parent.value < |before| && target in before[before[target].parent.value].children)
            && Replaced(before, target, |t| + k) == Substituted(t, literals[..k + 1], marks)
  {
    var target, done, more := literals[k], literals[..k], literals[..k + 1];
    var after := Substituted(t, more, marks);
    assert more == done + [target];
    assert target !in done;
    assert ValidNode(t, target);
    SubstitutesAgree(t, literals, marks, k, before);
    assert Redirect(|t|, done, t[target].children) == t[target].children;
    assert before[target] == Rewired(t, done, target) == t[target];
    assert after[target] == t[target].(parent := None, argKey := "");
    if t[target].parent.Some? {
      HolderAgrees(t, literals, marks, k, before);
    }
    forall i: NodeId | i < |t| && i != target && Some(i) != t[target].parent ensures before[i] == after[i] {
      assert target !in t[i].children by { assert ValidNode(t, i); }
      OthersAgree(t, literals, marks, k, before, i);
    }
    assert Replaced(before, target, |t| + k) == after;
  }

  lemma RedirectMore(n: nat, done: seq<NodeId>, target: NodeId, ids: seq<NodeId>)
    requires target !in ids && Distinct(done + [target])
    ensures Redirect(n, done + [target], ids) == Redirect(n, done, ids)
  {
    forall j | 0 <= j < |ids| && ids[j] in done
      ensures IndexIn(done + [target], ids[j]) == IndexIn(done, ids[j])
    {
      var at := IndexIn(done, ids[j]);
      assert (done + [target])[at] == ids[j];
      IndexInDistinct(done + [target], at);
    }
    assert forall j :: 0 <= j < |ids| ==> ids[j] != target;
  }

  lemma RedirectSlot(n: nat, done: seq<NodeId>, target: NodeId, ids: seq<NodeId>, slot: nat)
    requires Distinct(ids) && slot < |ids| && ids[slot] == target
    requires Distinct(done + [target]) && forall i :: 0 <= i < |ids| ==> ids[i] < n
    ensures var was := Redirect(n, done, ids);
            && target in was && IndexIn(was, target) == slot
            && Redirect(n, done + [target], ids) == was[slot := n + |done|]
  {
    var was, all := Redirect(n, done, ids), done + [target];
    assert all[|done|] == target;
    IndexInDistinct(all, |done|);
    assert target !in done by {
      forall j | 0 <= j < |done| ensures done[j] != target {
        assert all[j] == done[j];
      }
    }
    assert was[slot] == target;
    forall j | 0 <= j < |ids| && j != slot
      ensures was[j] != target && Redirect(n, all, ids)[j] == was[j]
    {
      assert ids[j] != target;
      if ids[j] in done {
        var at := IndexIn(done, ids[j]);
        assert all[at] == ids[j];
        IndexInDistinct(all, at);
      }
    }
  }

  /** `_replace_all_literals`: list first, then replace one literal after the other. */
  method ReplaceAllLiterals(tree: SyntaxTree, sensitiveLiteralIds: set<NodeId>)
    requires Valid(tree.nodes)
    modifies tree
    ensures LiteralList(old(tree.nodes), Literals(old(tree.nodes)))
    ensures tree.nodes == Substituted(old(tree.nodes), Literals(old(tree.nodes)), sensitiveLiteralIds)
  {
    ghost var t := tree.nodes;
    var literals := tree.FindAll(0, Literal);
    LiteralsListed(t);
    NothingSubstituted(t, literals[..0], sensitiveLiteralIds);
    for k := 0 to |literals|
      invariant LiteralList(t, literals) && LiteralList(t, literals[..k])
      invariant tree.nodes == Substituted(t, literals[..k], sensitiveLiteralIds)
    {
      ReplaceOne(tree, t, literals, k, sensitiveLiteralIds);
    }
    assert literals[..|literals|] == literals;
  }

  /** The loop body: the k-th literal is numbered k + 1 and gives way to a fresh node. */
  method ReplaceOne(tree: SyntaxTree, ghost t: Arena, literals: seq<NodeId>, k: nat, sensitiveLiteralIds: set<NodeId>)
    requires Valid(t) && LiteralList(t, literals) && k < |literals|
    requires LiteralList(t, literals[..k]) && tree.nodes == Substituted(t, literals[..k], sensitiveLiteralIds)
    modifies tree
    ensures LiteralList(t, literals[..k + 1])
    ensures tree.nodes == Substituted(t, literals[..k + 1], sensitiveLiteralIds)
  {
    var replacement: NodeId;
    if literals[k] in sensitiveLiteralIds {
      replacement := tree.NewNode(Literal, RedactionMarker(k + 1), true);
    } else {
      replacement := tree.NewNode(Placeholder, Decimal(k + 1), false);
    }
    ReplaceStep(t, literals, sensitiveLiteralIds, k, tree.nodes);
    tree.Replace(literals[k], replacement);
  }

  lemma NothingSubstituted(t: Arena, none: seq<NodeId>, marks: set<NodeId>)
    requires none == []
    ensures Substituted(t, none, marks) == t
  {
    NothingRedirected(t, none);
  }

  lemma NothingRedirected(t: Arena, none: seq<NodeId>)
    requires none == []
    ensures forall i :: 0 <= i < |t| ==> Rewired(t, none, i) == t[i]
  {
    forall i | 0 <= i < |t| ensures Rewired(t, none, i) == t[i] {
      assert Redirect(|t|, none, t[i].children) == t[i].children;
    }
  }

  lemma LiteralsListed(t: Arena)
    requires Valid(t)
    ensures LiteralList(t, Literals(t))
  {
    FoundDistinct(t, 0, Literal);
    forall k | 0 <= k < |Literals(t)| ensures Literals(t)[k] < |t| && t[Literals(t)[k]].kind.Literal? {
      FoundAt(t, 0, Literal, k);
    }
  }

  // ---------------------------------------------------------------- the result is a tree of the same shape

  lemma SubstitutedValid(t: Arena, literals: seq<NodeId>, marks: set<NodeId>)
    requires Valid(t) && LiteralList(t, literals)
    ensures Valid(Substituted(t, literals, marks))
  {
    var out := Substituted(t, literals, marks);
    assert ValidNode(t, 0);
    forall i: NodeId | i < |out| ensures ValidNode(out, i) {
      if i < |t| {
        assert ValidNode(t, i);
        if i !in literals {
          ChildrenStayValid(t, literals, marks, i);
          if t[i].parent.Some? {
            SlotKept(t, literals, marks, i);
          }
        }
      } else {
        SubstituteHeld(t, literals, marks, i - |t|);
      }
    }
  }

  lemma HolderIsNoLiteral(t: Arena, literals: seq<NodeId>, i: NodeId)
    requires Valid(t) && LiteralList(t, literals) && i < |t| && t[i].parent.Some?
    ensures t[i].parent.value < i && t[i].parent.value !in literals
  {
    assert ValidNode(t, i);
    var p := t[i].parent.value;
    assert ValidNode(t, p);
    assert t[p].children != [] && !t[p].kind.Literal?;
  }

  lemma ChildrenStayValid(t: Arena, literals: seq<NodeId>, marks: set<NodeId>, i: NodeId)
    requires Valid(t) && LiteralList(t, literals) && i < |t| && i !in literals
    ensures var out := Substituted(t, literals, marks);
            && Distinct(out[i].children)
            && forall c: NodeId :: c in out[i].children ==> i < c < |out| && out[c].parent == Some(i)
  {
    var out := Substituted(t, literals, marks);
    assert ValidNode(t, i);
    var was, now := t[i].children, out[i].children;
    forall a, b | 0 <= a < b < |now| ensures now[a] != now[b] {
      assert was[a] in was && was[b] in was;
    }
    forall a | 0 <= a < |now| ensures i < now[a] < |out| && out[now[a]].parent == Some(i) {
      var c := was[a];
      assert c in was && i < c < |t| && t[c].parent == Some(i);
      if c in literals {
        var k := IndexIn(literals, c);
        assert now[a] == |t| + k && out[now[a]] == Substitute(t, literals, marks, k);
      } else {
        assert out[c] == Rewired(t, literals, c);
      }
    }
    forall c: NodeId | c in now ensures i < c < |out| && out[c].parent == Some(i) {
      var a :| 0 <= a < |now| && now[a] == c;
    }
  }

  lemma SlotKept(t: Arena, literals: seq<NodeId>, marks: set<NodeId>, i: NodeId)
    requires Valid(t) && LiteralList(t, literals) && i < |t| && i !in literals && t[i].parent.Some?
    ensures t[i].parent.value < i && i in Substituted(t, literals, marks)[t[i].parent.value].children
  {
    HolderIsNoLiteral(t, literals, i);
    assert ValidNode(t, i);
    var p := t[i].parent.value;
    var j :| 0 <= j < |t[p].children| && t[p].children[j] == i;
    assert Redirect(|t|, literals, t[p].children)[j] == i;
  }

  lemma SubstituteHeld(t: Arena, literals: seq<NodeId>, marks: set<NodeId>, k: nat)
    requires Valid(t) && LiteralList(t, literals) && k < |literals|
    ensures ValidNode(Substituted(t, literals, marks), |t| + k)
  {
    var out := Substituted(t, literals, marks);
    var literal := literals[k];
    assert ValidNode(t, literal);
    assert out[|t| + k] == Substitute(t, literals, marks, k);
    if t[literal].parent.Some? {
      HolderIsNoLiteral(t, literals, literal);
      var p := t[literal].parent.value;
      var j :| 0 <= j < |t[p].children| && t[p].children[j] == literal;
      IndexInDistinct(literals, k);
      assert Redirect(|t|, literals, t[p].children)[j] == |t| + k;
      assert out[p].children[j] == |t| + k;
    }
  }

  /** Renaming the nodes of t by f turns its child lists into those of `out`. */
  ghost predicate Renames(t: Arena, f: NodeId -> NodeId, out: Arena) {
    forall i: NodeId {:trigger ChildrenOf(t, i)} :: ChildrenOf(out, f(i)) == Mapped(f, ChildrenOf(t, i))
  }

  lemma MappedConcat(f: NodeId -> NodeId, a: seq<NodeId>, b: seq<NodeId>)
    ensures Mapped(f, a + b) == Mapped(f, a) + Mapped(f, b)
  {
  }

  lemma {:induction false} KidsMapped(t: Arena, f: NodeId -> NodeId, out: Arena, front: seq<NodeId>, n: nat)
    requires Renames(t, f, out) && n <= |front|
    ensures KidsOfFirst(out, Mapped(f, front), n) == Mapped(f, KidsOfFirst(t, front, n))
  {
    if n > 0 {
      KidsMapped(t, f, out, front, n - 1);
      var added := ChildrenOf(t, front[n - 1]);
      assert ChildrenOf(out, Mapped(f, front)[n - 1]) == Mapped(f, added);
      MappedConcat(f, KidsOfFirst(t, front, n - 1), added);
    }
  }

  ghost predicate KidsCommute(t: Arena, f: NodeId -> NodeId, out: Arena) {
    forall front: seq<NodeId> {:trigger Kids(t, front)} :: Kids(out, Mapped(f, front)) == Mapped(f, Kids(t, front))
  }

  lemma {:induction false} LevelsMapped(t: Arena, f: NodeId -> NodeId, out: Arena, front: seq<NodeId>, depth: nat)
    requires KidsCommute(t, f, out)
    ensures Levels(out, Mapped(f, front), depth) == Mapped(f, Levels(t, front, depth))
    decreases depth
  {
    if front != [] && depth > 0 {
      LevelsMapped(t, f, out, Kids(t, front), depth - 1);
      MappedConcat(f, front, Levels(t, Kids(t, front), depth - 1));
    }
  }

  lemma SubstitutedRenames(t: Arena, literals: seq<NodeId>, marks: set<NodeId>)
    requires Valid(t) && LiteralList(t, literals)
    ensures Renames(t, Redirection(|t|, literals), Substituted(t, literals, marks))
  {
    var out, f := Substituted(t, literals, marks), Redirection(|t|, literals);
    forall i: NodeId ensures ChildrenOf(out, f(i)) == Mapped(f, ChildrenOf(t, i)) {
      if i in literals {
        assert ValidNode(t, i);
        assert out[f(i)] == Substitute(t, literals, marks, IndexIn(literals, i));
      } else if i < |t| {
        assert out[i] == Rewired(t, literals, i);
      } else if i < |out| {
        assert out[i] == Substitute(t, literals, marks, i - |t|);
      }
    }
  }

  /** With a root that is no literal, the walk over the result meets the same positions in the same order. */
  lemma WalkKeepsShape(t: Arena, literals: seq<NodeId>, marks: set<NodeId>)
    requires Valid(t) && LiteralList(t, literals) && !t[0].kind.Literal?
    ensures Valid(Substituted(t, literals, marks))
    ensures WalkOrder(Substituted(t, literals, marks), 0) == Redirect(|t|, literals, WalkOrder(t, 0))
  {
    SubstitutedValid(t, literals, marks);
    assert 0 !in literals;
    var f, out := Redirection(|t|, literals), Substituted(t, literals, marks);
    assert Mapped(f, [0]) == [0];
    SubstitutedRenames(t, literals, marks);
    LevelsBoundIrrelevant(t, [0], 0, |t|, |out|);
    forall front: seq<NodeId> ensures Kids(out, Mapped(f, front)) == Mapped(f, Kids(t, front)) {
      KidsMapped(t, f, out, front, |front|);
    }
    LevelsMapped(t, f, out, [0], |out|);
  }

  // ---------------------------------------------------------------- what stays attached

  lemma {:induction false} UnderKept(t: Arena, literals: seq<NodeId>, marks: set<NodeId>, x: NodeId)
    requires Valid(t) && LiteralList(t, literals) && x < |t| && x !in literals && Under(t, 0, x)
    ensures Under(Substituted(t, literals, marks), 0, x)
    decreases x
  {
    if x != 0 {
      HolderIsNoLiteral(t, literals, x);
      UnderKept(t, literals, marks, t[x].parent.value);
      assert Substituted(t, literals, marks)[x] == Rewired(t, literals, x);
    }
  }

  lemma SubstituteUnder(t: Arena, literals: seq<NodeId>, marks: set<NodeId>, k: nat)
    requires Valid(t) && LiteralList(t, literals) && !t[0].kind.Literal?
    requires k < |literals| && Under(t, 0, literals[k])
    ensures Under(Substituted(t, literals, marks), 0, |t| + k)
  {
    var x := literals[k];
    assert x != 0;
    HolderIsNoLiteral(t, literals, x);
    UnderKept(t, literals, marks, t[x].parent.value);
    assert Substituted(t, literals, marks)[|t| + k] == Substitute(t, literals, marks, k);
  }

  lemma {:induction false} UnderAfterwards(t: Arena, literals: seq<NodeId>, marks: set<NodeId>, x: NodeId)
    requires Valid(t) && LiteralList(t, literals) && !t[0].kind.Literal?
    requires x < |t| && Under(Substituted(t, literals, marks), 0, x)
    ensures x !in literals && Under(t, 0, x)
    decreases x
  {
    if x != 0 {
      assert Substituted(t, literals, marks)[x] == Rewired(t, literals, x);
      UnderAfterwards(t, literals, marks, t[x].parent.value);
    }
  }

  /** The literals attached to the result are the substitutes of marked ones, and carry their markers. */
  lemma OnlyMarkersAttached(t: Arena, literals: seq<NodeId>, marks: set<NodeId>, x: NodeId)
    requires Valid(t) && LiteralList(t, literals) && !t[0].kind.Literal?
    requires forall y: NodeId :: y in literals <==> LiteralIn(t, 0, y)
    ensures LiteralIn(Substituted(t, literals, marks), 0, x) <==>
              |t| <= x < |t| + |literals| && literals[x - |t|] in marks
    ensures LiteralIn(Substituted(t, literals, marks), 0, x) ==>
              Substituted(t, literals, marks)[x].text == RedactionMarker(x - |t| + 1)
  {
    var out := Substituted(t, literals, marks);
    if x < |t| {
      assert out[x] == Rewired(t, literals, x);
      if Under(out, 0, x) {
        UnderAfterwards(t, literals, marks, x);
        assert !LiteralIn(t, 0, x);
      }
    } else if x < |out| {
      assert literals[x - |t|] in literals;
      SubstituteUnder(t, literals, marks, x - |t|);
      assert out[x] == Substitute(t, literals, marks, x - |t|);
    }
  }

  lemma LiteralsAttached(t: Arena)
    requires Valid(t)
    ensures forall y: NodeId :: y in Literals(t) <==> LiteralIn(t, 0, y)
  {
    forall y: NodeId ensures y in Literals(t) <==> LiteralIn(t, 0, y) {
      FoundMember(t, 0, Literal, y);
    }
  }

  /** What the walk over the result meets where the walk over t met `was`. */
  lemma PositionReplaced(t: Arena, literals: seq<NodeId>, marks: set<NodeId>, was: NodeId)
    requires Valid(t) && LiteralList(t, literals) && was < |t| && (t[was].kind.Literal? ==> was in literals)
    ensures var out, now := Substituted(t, literals, marks), Redirection(|t|, literals)(was);
            && now < |out|
            && out[now].argKey == t[was].argKey && out[now].parent == t[was].parent
            && out[now].children == Redirect(|t|, literals, t[was].children)
            && (!t[was].kind.Literal? ==> now == was && out[now] == t[was].(children := out[now].children))
            && (t[was].kind.Literal? ==>
                  var k := IndexIn(literals, was) + 1;
                  if was in marks
                  then out[now].kind.Literal? && out[now].text == RedactionMarker(k) && out[now].isString
                  else out[now].kind.Placeholder? && out[now].text == Decimal(k))
  {
    assert ValidNode(t, was);
    var out := Substituted(t, literals, marks);
    if was in literals {
      var k := IndexIn(literals, was);
      assert out[|t| + k] == Substitute(t, literals, marks, k);
    } else {
      assert out[was] == Rewired(t, literals, was);
    }
  }
}
