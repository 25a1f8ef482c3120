/** The scrubber as a whole: what the redacted statement is, and what it can depend on. */
module QueryScrubber {
  import opened Basics
  import opened SyntaxTrees
  import opened SensitiveLiterals
  import opened LiteralReplacement

  /** A statement as the parser returns it. */
  type Statement = t: Arena | Valid(t) witness [Node(Null, "NULL", false, "", None, [])]

  datatype ParseResult =
    | SqlglotError(message: string)
    | Parsed(statements: seq<Option<Statement>>)

  datatype QueryPayload = Text(sql: string) | NonText(typeName: string)

  type Parser = string -> ParseResult
  type Renderer = Tree -> string

  const UNPARSEABLE_MARKER := "<unparseable>"

  /** `parse_one`: the first statement, failing when there is none or when it is null. */
  function ParseOne(parsed: ParseResult): Option<Statement> {
    match parsed
    case SqlglotError(_) => None
    case Parsed(statements) => if statements == [] then None else statements[0]
  }

  ghost function Scrubbed(t: Statement, p: NamePattern): (out: Statement) {
    LiteralsListed(t);
    SubstitutedValid(t, Literals(t), MarkedSet(t, p));
    Substituted(t, Literals(t), MarkedSet(t, p))
  }

  /** The tree whose text the scrubber emits. */
  ghost function ScrubbedTree(t: Statement, p: NamePattern): Tree {
    View(Scrubbed(t, p), 0)
  }

  ghost function ScrubbedText(payload: QueryPayload, parse: Parser, render: Renderer, p: NamePattern): string {
    if payload.NonText? || ParseOne(parse(payload.sql)).None? then UNPARSEABLE_MARKER
    else render(ScrubbedTree(ParseOne(parse(payload.sql)).value, p))
  }

  class SqlQueryScrubberAdapter {
    const pattern: NamePattern
    const parse: Parser
    const render: Renderer

    constructor (pattern: NamePattern, parse: Parser, render: Renderer)
      ensures this.pattern == pattern && this.parse == parse && this.render == render
    {
      this.pattern := pattern;
      this.parse := parse;
      this.render := render;
    }

    method Scrub(payload: QueryPayload) returns (redacted: string)
      ensures redacted == ScrubbedText(payload, parse, render, pattern)
    {
      if payload.NonText? {
        return UNPARSEABLE_MARKER;
      }
      var parsed := ParseOne(parse(payload.sql));
      if parsed.None? {
        return UNPARSEABLE_MARKER;
      }
      var tree := new SyntaxTree(parsed.value);
      var marker := new LiteralMarker(pattern);
      var marks := marker.CollectSensitiveLiteralIds(tree);
      ReplaceAllLiterals(tree, marks.ids);
      assert tree.nodes == Scrubbed(parsed.value, pattern);
      redacted := render(View(tree.nodes, 0));
    }
  }

  // ---------------------------------------------------------------- replacement is exact

  /** A literal's number is one more than the count of literals met before it on the walk. */
  lemma NumberedByWalk(t: Statement, j: nat)
    requires j < |WalkOrder(t, 0)| && WalkOrder(t, 0)[j] < |t| && t[WalkOrder(t, 0)[j]].kind.Literal?
    ensures var earlier := |OfKindInFirst(t, WalkOrder(t, 0), j, Literal)|;
            && earlier < |Literals(t)| && Literals(t)[earlier] == WalkOrder(t, 0)[j]
            && IndexIn(Literals(t), WalkOrder(t, 0)[j]) == earlier
  {
    OfKindPosition(t, WalkOrder(t, 0), j, Literal);
    LiteralsListed(t);
    IndexInDistinct(Literals(t), |OfKindInFirst(t, WalkOrder(t, 0), j, Literal)|);
  }

  lemma ScrubbedWalk(t: Statement, p: NamePattern)
    requires !t[0].kind.Literal?
    ensures |Scrubbed(t, p)| == |t| + |Literals(t)|
    ensures WalkOrder(Scrubbed(t, p), 0) == Mapped(Redirection(|t|, Literals(t)), WalkOrder(t, 0))
  {
    LiteralsListed(t);
    WalkKeepsShape(t, Literals(t), MarkedSet(t, p));
  }

  lemma PositionsReplaced(t: Statement, p: NamePattern, j: nat)
    requires !t[0].kind.Literal? && j < |WalkOrder(t, 0)|
    ensures var out, was := Scrubbed(t, p), WalkOrder(t, 0)[j];
            && |WalkOrder(out, 0)| == |WalkOrder(t, 0)|
            && was < |t| && WalkOrder(out, 0)[j] < |out|
            && var now := WalkOrder(out, 0)[j];
               && out[now].argKey == t[was].argKey && out[now].parent == t[was].parent
               && out[now].children == Redirect(|t|, Literals(t), t[was].children)
               && (!t[was].kind.Literal? ==>
                     now == was && out[now] == t[was].(children := out[now].children))
               && (t[was].kind.Literal? ==>
                     var k := 1 + |OfKindInFirst(t, WalkOrder(t, 0), j, Literal)|;
                     if was in MarkedSet(t, p)
                     then out[now].kind.Literal? && out[now].isString && out[now].text == RedactionMarker(k)
                     else out[now].kind.Placeholder? && out[now].text == Decimal(k))
  {
    var was := WalkOrder(t, 0)[j];
    ScrubbedWalk(t, p);
    assert WalkOrder(Scrubbed(t, p), 0)[j] == Redirection(|t|, Literals(t))(was);
    assert was < |t| && (t[was].kind.Literal? ==> was in Literals(t)) by {
      WalkMember(t, 0, was);
      FoundMember(t, 0, Literal, was);
    }
    LiteralsListed(t);
    PositionReplaced(t, Literals(t), MarkedSet(t, p), was);
    if t[was].kind.Literal? {
      NumberedByWalk(t, j);
    }
  }

  /**
   In-place replacement is exact. At every position of the breadth-first walk, a non-literal is
   the same node with the same contents, slot and holder, while the k-th literal has given way
   to the marker `[REDACTED:$k]` if it is a secret and to placeholder k otherwise, in the same slot.
   */
  lemma ReplacementIsExact(t: Statement, p: NamePattern, j: nat)
    requires !t[0].kind.Literal? && j < |WalkOrder(t, 0)|
    ensures var out, was := Scrubbed(t, p), WalkOrder(t, 0)[j];
            && |WalkOrder(out, 0)| == |WalkOrder(t, 0)|
            && was < |t| && WalkOrder(out, 0)[j] < |out|
            && var now := WalkOrder(out, 0)[j];
               && out[now].argKey == t[was].argKey && out[now].parent == t[was].parent
               && out[now].children == Redirect(|t|, Literals(t), t[was].children)
               && (!t[was].kind.Literal? ==>
                     now == was && out[now] == t[was].(children := out[now].children))
               && (t[was].kind.Literal? ==>
                     var k := 1 + |OfKindInFirst(t, WalkOrder(t, 0), j, Literal)|;
                     if IsSecret(t, p, was)
                     then out[now].kind.Literal? && out[now].isString
                          && out[now].text == "[REDACTED:$" + Decimal(k) + "]"
                     else out[now].kind.Placeholder? && out[now].text == Decimal(k))
  {
    PositionsReplaced(t, p, j);
    MarkedIffSecret(t, p, WalkOrder(t, 0)[j]);
  }

  /** No two replacements carry the same number: they differ in kind or in text. */
  lemma NumbersAreUsedOnce(t: Statement, literals: seq<NodeId>, marks: set<NodeId>, i: nat, k: nat)
    requires LiteralList(t, literals) && i < k < |literals|
    ensures var a, b := Substitute(t, literals, marks, i), Substitute(t, literals, marks, k);
            a.kind != b.kind || a.text != b.text
  {
    if literals[i] in marks && literals[k] in marks && RedactionMarker(i + 1) == RedactionMarker(k + 1) {
      MarkersInjective(i + 1, k + 1);
    }
    if Decimal(i + 1) == Decimal(k + 1) {
      DecimalInjective(i + 1, k + 1);
    }
  }

  lemma MarkersInjective(m: nat, n: nat)
    requires RedactionMarker(m) == RedactionMarker(n)
    ensures Decimal(m) == Decimal(n)
  {
    var prefix := "[REDACTED:$";
    var a, b := RedactionMarker(m), RedactionMarker(n);
    assert a[|prefix|..|a| - 1] == Decimal(m);
    assert b[|prefix|..|b| - 1] == Decimal(n);
  }

  /** What can be reached after scrubbing: substitutes, and nodes that were no literals. */
  lemma ReachedAfterwards(t: Statement, p: NamePattern, x: NodeId)
    requires !t[0].kind.Literal? && x < |t| && Under(Scrubbed(t, p), 0, x)
    ensures x !in Literals(t) && !t[x].kind.Literal?
  {
    LiteralsListed(t);
    UnderAfterwards(t, Literals(t), MarkedSet(t, p), x);
    FoundMember(t, 0, Literal, x);
  }

  /** The literals still in the statement are exactly the markers of the marked ones. */
  lemma OnlyMarkersRemain(t: Statement, p: NamePattern, x: NodeId)
    requires !t[0].kind.Literal?
    ensures LiteralIn(Scrubbed(t, p), 0, x) <==>
              |t| <= x < |t| + |Literals(t)| && Literals(t)[x - |t|] in MarkedSet(t, p)
    ensures LiteralIn(Scrubbed(t, p), 0, x) ==> Scrubbed(t, p)[x].text == RedactionMarker(x - |t| + 1)
  {
    LiteralsListed(t);
    LiteralsAttached(t);
    OnlyMarkersAttached(t, Literals(t), MarkedSet(t, p), x);
  }

  /** All original literals leave the statement exactly when its root is not itself a literal. */
  lemma OriginalLiteralsGoneIffRootIsNoLiteral(t: Statement, p: NamePattern)
    ensures (forall x: NodeId :: x in Literals(t) ==> !Under(Scrubbed(t, p), 0, x))
            <==> !t[0].kind.Literal?
  {
    if t[0].kind.Literal? {
      FoundMember(t, 0, Literal, 0);
      assert Under(Scrubbed(t, p), 0, 0);
    } else {
      forall x: NodeId | x in Literals(t) ensures !Under(Scrubbed(t, p), 0, x) {
        FoundMember(t, 0, Literal, x);
        if Under(Scrubbed(t, p), 0, x) {
          ReachedAfterwards(t, p, x);
        }
      }
    }
  }
}
