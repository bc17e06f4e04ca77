/** The text of a permission (internal/spicedbx/schema.go), as tokens, and a parser for it.
    The parser takes either precedence of + and &: printing never depends on it. */
module SchemaText {
  import opened Types
  import opened Permissions

  datatype Token = Name(text: string) | Arrow | Plus | And | Open | Close

  // ---------- printing ----------

  /** A clause without a relation prints as nothing. */
  function RenderClause(c: Condition): seq<Token> {
    match c.relationshipAction
    case None => []
    case Some(ra) => [Name(ra.relation)] + if ra.actionName != "" then [Arrow, Name(ra.actionName)] else []
  }

  function RenderConditions(cs: seq<Condition>): seq<Token> {
    if cs == [] then []
    else if |cs| == 1 then RenderClause(cs[0])
    else RenderClause(cs[0]) + [Plus] + RenderConditions(cs[1..])
  }

  /** A set is parenthesised if it has more than one condition. */
  function RenderSet(s: ConditionSet): seq<Token> {
    if |s.conditions| > 1 then [Open] + RenderConditions(s.conditions) + [Close] else RenderConditions(s.conditions)
  }

  function RenderSets(ss: seq<ConditionSet>): seq<Token> {
    if ss == [] then []
    else if |ss| == 1 then RenderSet(ss[0])
    else RenderSet(ss[0]) + [And] + RenderSets(ss[1..])
  }

  function RenderAction(a: Action): seq<Token> {
    if |a.conditions| > 0 then RenderConditions(a.conditions) else RenderSets(a.conditionSets)
  }

  // ---------- parsing ----------

  datatype Operator = Union | Intersection

  datatype Tree = Leaf(relation: string, action: string) | Node(op: Operator, children: seq<Tree>)

  function TokenOf(op: Operator): Token {
    match op case Union => Plus case Intersection => And
  }

  function Tighter(loose: Operator): Operator {
    match loose case Union => Intersection case Intersection => Union
  }

  /** Operands without an operator are the operand. */
  function Join(op: Operator, operands: seq<Tree>): Tree {
    if |operands| == 1 then operands[0] else Node(op, operands)
  }

  datatype Parsed<T> = Failed | Parsed(value: T, rest: seq<Token>)

  /** A clause, or an expression in parentheses. */
  function ParseFactor(loose: Operator, ts: seq<Token>): (r: Parsed<Tree>)
    ensures r.Parsed? ==> |r.rest| < |ts|
    decreases |ts|, 0
  {
    if ts == [] then Failed
    else match ts[0]
      case Name(relation) =>
        if |ts| > 1 && ts[1] == Arrow then
          if |ts| > 2 && ts[2].Name? then Parsed(Leaf(relation, ts[2].text), ts[3..]) else Failed
        else Parsed(Leaf(relation, ""), ts[1..])
      case Open =>
        (match ParseLoose(loose, ts[1..])
         case Parsed(operands, rest) =>
           if rest != [] && rest[0] == Close then Parsed(Join(loose, operands), rest[1..]) else Failed
         case Failed => Failed)
      case _ => Failed
  }

  /** Factors joined by the operator that binds tighter. */
  function ParseTight(loose: Operator, ts: seq<Token>): (r: Parsed<seq<Tree>>)
    ensures r.Parsed? ==> |r.rest| < |ts| && r.value != []
    decreases |ts|, 1
  {
    match ParseFactor(loose, ts)
    case Failed => Failed
    case Parsed(operand, rest) =>
      if rest != [] && rest[0] == TokenOf(Tighter(loose)) then
        match ParseTight(loose, rest[1..])
        case Failed => Failed
        case Parsed(operands, rest) => Parsed([operand] + operands, rest)
      else Parsed([operand], rest)
  }

  function ParseLoose(loose: Operator, ts: seq<Token>): (r: Parsed<seq<Tree>>)
    ensures r.Parsed? ==> |r.rest| < |ts| && r.value != []
    decreases |ts|, 2
  {
    match ParseTight(loose, ts)
    case Failed => Failed
    case Parsed(tight, rest) =>
      var operand := Join(Tighter(loose), tight);
      if rest != [] && rest[0] == TokenOf(loose) then
        match ParseLoose(loose, rest[1..])
        case Failed => Failed
        case Parsed(operands, rest) => Parsed([operand] + operands, rest)
      else Parsed([operand], rest)
  }

  function Parse(loose: Operator, ts: seq<Token>): Option<Tree> {
    match ParseLoose(loose, ts)
    case Parsed(operands, rest) => if rest == [] then Some(Join(loose, operands)) else None
    case Failed => None
  }

  // ---------- printed permissions parse back ----------

  predicate ClauseOk(c: Condition) {
    c.relationshipAction.Some?
  }

  predicate ClausesOk(cs: seq<Condition>) {
    cs != [] && forall c :: c in cs ==> ClauseOk(c)
  }

  /** Every clause names a relation, and nothing is empty. */
  predicate WellFormed(a: Action) {
    if a.conditions != [] then ClausesOk(a.conditions)
    else a.conditionSets != [] && forall s :: s in a.conditionSets ==> ClausesOk(s.conditions)
  }

  function LeafOf(c: Condition): Tree {
    match c.relationshipAction
    case None => Leaf("", "")
    case Some(ra) => Leaf(ra.relation, ra.actionName)
  }

  function Leaves(cs: seq<Condition>): seq<Tree> {
    seq(|cs|, i requires 0 <= i < |cs| => LeafOf(cs[i]))
  }

  function TreeOfSet(s: ConditionSet): Tree {
    Join(Union, Leaves(s.conditions))
  }

  function TreesOf(ss: seq<ConditionSet>): seq<Tree> {
    seq(|ss|, i requires 0 <= i < |ss| => TreeOfSet(ss[i]))
  }

  /** A union of clauses, or an intersection of unions of clauses. */
  function TreeOf(a: Action): Tree {
    if a.conditions != [] then Join(Union, Leaves(a.conditions)) else Join(Intersection, TreesOf(a.conditionSets))
  }

  /** No token that a clause could swallow or begin with. */
  predicate Stops(rest: seq<Token>) {
    rest == [] || !(rest[0] == Arrow || rest[0] == Open || rest[0].Name?)
  }

  lemma ClauseParses(loose: Operator, c: Condition, rest: seq<Token>)
    requires Stops(rest)
    ensures ParseFactor(loose, RenderClause(c) + rest) == if ClauseOk(c) then Parsed(LeafOf(c), rest) else Failed
  {
    var ts := RenderClause(c) + rest;
    if ClauseOk(c) {
      var ra := c.relationshipAction.value;
      if ra.actionName != "" {
        assert ts[..3] == [Name(ra.relation), Arrow, Name(ra.actionName)] && ts[3..] == rest;
      } else {
        assert ts[0] == Name(ra.relation) && ts[1..] == rest;
      }
    } else {
      assert ts == rest;
    }
  }

  lemma Regroup(a: seq<Token>, b: seq<Token>, c: seq<Token>, d: seq<Token>)
    ensures a + b + c + d == a + (b + (c + d))
  {
  }

  lemma MoreLeaves(cs: seq<Condition>)
    requires |cs| > 1
    ensures Leaves(cs) == [LeafOf(cs[0])] + Leaves(cs[1..])
    ensures ClausesOk(cs) <==> ClauseOk(cs[0]) && ClausesOk(cs[1..])
  {
    assert cs == [cs[0]] + cs[1..];
  }

  /** One condition more in front. */
  lemma MoreConditions(cs: seq<Condition>, rest: seq<Token>)
    requires |cs| > 1
    ensures RenderConditions(cs) + rest == RenderClause(cs[0]) + ([Plus] + (RenderConditions(cs[1..]) + rest))
    ensures Leaves(cs) == [LeafOf(cs[0])] + Leaves(cs[1..])
    ensures ClausesOk(cs) <==> ClauseOk(cs[0]) && ClausesOk(cs[1..])
  {
    Regroup(RenderClause(cs[0]), [Plus], RenderConditions(cs[1..]), rest);
    MoreLeaves(cs);
  }

  lemma OneCondition(cs: seq<Condition>)
    requires |cs| == 1
    ensures Leaves(cs) == [LeafOf(cs[0])] && (ClausesOk(cs) <==> ClauseOk(cs[0]))
  {
    assert cs == [cs[0]];
  }

  /** Conditions where + binds tighter. */
  lemma {:induction false} ConditionsParseTight(cs: seq<Condition>, rest: seq<Token>)
    requires cs != [] && Stops(rest) && (rest == [] || rest[0] != Plus)
    ensures ParseTight(Intersection, RenderConditions(cs) + rest) ==
      if ClausesOk(cs) then Parsed(Leaves(cs), rest) else Failed
    decreases |cs|
  {
    if |cs| == 1 {
      OneCondition(cs);
      ClauseParses(Intersection, cs[0], rest);
    } else {
      var more := RenderConditions(cs[1..]) + rest;
      MoreConditions(cs, rest);
      ClauseParses(Intersection, cs[0], [Plus] + more);
      ConditionsParseTight(cs[1..], rest);
      assert ([Plus] + more)[1..] == more;
    }
  }

  /** Conditions where + binds looser. */
  lemma {:induction false} ConditionsParseLoose(cs: seq<Condition>, rest: seq<Token>)
    requires cs != [] && Stops(rest) && (rest == [] || rest[0] == Close)
    ensures ParseLoose(Union, RenderConditions(cs) + rest) == if ClausesOk(cs) then Parsed(Leaves(cs), rest) else Failed
    decreases |cs|
  {
    if |cs| == 1 {
      OneCondition(cs);
      ClauseParses(Union, cs[0], rest);
    } else {
      var more := RenderConditions(cs[1..]) + rest;
      MoreConditions(cs, rest);
      ClauseParses(Union, cs[0], [Plus] + more);
      ConditionsParseLoose(cs[1..], rest);
      assert ([Plus] + more)[1..] == more;
    }
  }

  /** Conditions followed by nothing or a closing parenthesis, with either precedence. */
  lemma ConditionsParse(loose: Operator, cs: seq<Condition>, rest: seq<Token>)
    requires cs != [] && (rest == [] || rest[0] == Close)
    ensures var r := ParseLoose(loose, RenderConditions(cs) + rest);
      if ClausesOk(cs) then r.Parsed? && r.rest == rest && Join(loose, r.value) == Join(Union, Leaves(cs))
        else r == Failed
  {
    match loose
    case Union => ConditionsParseLoose(cs, rest);
    case Intersection => ConditionsParseTight(cs, rest);
  }

  lemma SetParses(loose: Operator, s: ConditionSet, rest: seq<Token>)
    requires rest == [] || rest[0] == And
    ensures ParseFactor(loose, RenderSet(s) + rest) ==
      if ClausesOk(s.conditions) then Parsed(TreeOfSet(s), rest) else Failed
  {
    var cs := s.conditions;
    if |cs| == 0 {
      assert RenderSet(s) + rest == rest;
    } else if |cs| == 1 {
      OneCondition(cs);
      ClauseParses(loose, cs[0], rest);
    } else {
      var ts := RenderSet(s) + rest;
      ConditionsParse(loose, cs, [Close] + rest);
      assert ts[0] == Open && ts[1..] == RenderConditions(cs) + ([Close] + rest);
      assert ([Close] + rest)[1..] == rest;
    }
  }

  predicate SetsOk(ss: seq<ConditionSet>) {
    ss != [] && forall s :: s in ss ==> ClausesOk(s.conditions)
  }

  lemma MoreTrees(ss: seq<ConditionSet>)
    requires |ss| > 1
    ensures TreesOf(ss) == [TreeOfSet(ss[0])] + TreesOf(ss[1..])
    ensures SetsOk(ss) <==> ClausesOk(ss[0].conditions) && SetsOk(ss[1..])
  {
    assert ss == [ss[0]] + ss[1..];
  }

  lemma MoreSets(ss: seq<ConditionSet>)
    requires |ss| > 1
    ensures RenderSets(ss) == RenderSet(ss[0]) + ([And] + RenderSets(ss[1..]))
    ensures TreesOf(ss) == [TreeOfSet(ss[0])] + TreesOf(ss[1..])
    ensures SetsOk(ss) <==> ClausesOk(ss[0].conditions) && SetsOk(ss[1..])
  {
    Regroup(RenderSet(ss[0]), [And], RenderSets(ss[1..]), []);
    assert RenderSets(ss) + [] == RenderSets(ss) && RenderSets(ss[1..]) + [] == RenderSets(ss[1..]);
    MoreTrees(ss);
  }

  lemma OneSet(ss: seq<ConditionSet>)
    requires |ss| == 1
    ensures RenderSets(ss) == RenderSet(ss[0]) + [] && TreesOf(ss) == [TreeOfSet(ss[0])]
    ensures SetsOk(ss) <==> ClausesOk(ss[0].conditions)
  {
    assert ss == [ss[0]];
  }

  lemma {:induction false} SetsParseTight(ss: seq<ConditionSet>)
    requires ss != []
    ensures ParseTight(Union, RenderSets(ss)) == if SetsOk(ss) then Parsed(TreesOf(ss), []) else Failed
    decreases |ss|
  {
    if |ss| == 1 {
      OneSet(ss);
      SetParses(Union, ss[0], []);
    } else {
      MoreSets(ss);
      SetParses(Union, ss[0], [And] + RenderSets(ss[1..]));
      SetsParseTight(ss[1..]);
      assert ([And] + RenderSets(ss[1..]))[1..] == RenderSets(ss[1..]);
    }
  }

  lemma {:induction false} SetsParseLoose(ss: seq<ConditionSet>)
    requires ss != []
    ensures ParseLoose(Intersection, RenderSets(ss)) == if SetsOk(ss) then Parsed(TreesOf(ss), []) else Failed
    decreases |ss|
  {
    if |ss| == 1 {
      OneSet(ss);
      SetParses(Intersection, ss[0], []);
    } else {
      MoreSets(ss);
      SetParses(Intersection, ss[0], [And] + RenderSets(ss[1..]));
      SetsParseLoose(ss[1..]);
      assert ([And] + RenderSets(ss[1..]))[1..] == RenderSets(ss[1..]);
    }
  }

  /** A printed permission parses, with either precedence, to its own tree, exactly when every
      clause names a relation and nothing is empty. */
  lemma PermissionParsesBack(loose: Operator, a: Action)
    ensures Parse(loose, RenderAction(a)) == if WellFormed(a) then Some(TreeOf(a)) else None
  {
    if a.conditions != [] {
      ConditionsParse(loose, a.conditions, []);
      assert RenderConditions(a.conditions) + [] == RenderConditions(a.conditions);
    } else if a.conditionSets != [] {
      match loose
      case Union => SetsParseTight(a.conditionSets);
      case Intersection => SetsParseLoose(a.conditionSets);
    }
  }

  // ---------- the tree means what the action means ----------

  ghost predicate TreeHolds(schema: Schema, g: Graph, n: nat, o: Object, t: Tree, s: Subject)
    decreases t
  {
    match t
    case Leaf(relation, action) => ConditionHolds(schema, g, n, o, Along(relation, action), s)
    case Node(Union, children) => exists i :: 0 <= i < |children| && TreeHolds(schema, g, n, o, children[i], s)
    case Node(Intersection, children) => forall i :: 0 <= i < |children| ==> TreeHolds(schema, g, n, o, children[i], s)
  }

  lemma UnionMeans(schema: Schema, g: Graph, n: nat, o: Object, cs: seq<Condition>, s: Subject)
    requires ClausesOk(cs)
    ensures TreeHolds(schema, g, n, o, Join(Union, Leaves(cs)), s) <==> AnyHolds(schema, g, n, o, cs, s)
  {
    forall i | 0 <= i < |cs|
      ensures TreeHolds(schema, g, n, o, Leaves(cs)[i], s) <==> ConditionHolds(schema, g, n, o, cs[i], s)
    {
      assert ClauseOk(cs[i]);
    }
  }

  /** What is read back from the text grants what the action grants. */
  lemma ParsedPermissionMeans(loose: Operator, schema: Schema, g: Graph, n: nat, o: Object, a: Action, s: Subject)
    requires WellFormed(a)
    ensures Parse(loose, RenderAction(a)).Some?
    ensures TreeHolds(schema, g, n, o, Parse(loose, RenderAction(a)).value, s) <==> ActionHolds(schema, g, n, o, a, s)
  {
    PermissionParsesBack(loose, a);
    if a.conditions != [] {
      UnionMeans(schema, g, n, o, a.conditions, s);
    } else {
      forall i | 0 <= i < |a.conditionSets|
        ensures TreeHolds(schema, g, n, o, TreesOf(a.conditionSets)[i], s) <==>
          AnyHolds(schema, g, n, o, a.conditionSets[i].conditions, s)
      {
        UnionMeans(schema, g, n, o, a.conditionSets[i].conditions, s);
      }
    }
  }
}
