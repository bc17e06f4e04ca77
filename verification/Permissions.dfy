/** What an emitted schema means: the least fixed point of permission derivation
    over a relationship graph, which may be cyclic.  Holds is indexed by the depth
    of the derivation; Granted is the fixed point. */
module Permissions {
  import opened Types

  datatype Object = Object(typ: string, id: string)

  /** An object, or the userset `obj#relation` when relation is not "".
      The id "*" stands for every object of the type. */
  datatype Subject = Subject(obj: Object, relation: string)

  datatype Tuple = Tuple(res: Object, relation: string, subj: Subject)

  type Graph = set<Tuple>

  /** A subject a request can name: one object, not a wildcard and not a userset. */
  predicate Concrete(s: Subject) {
    s.relation == "" && s.obj.id != "*"
  }

  /** The target type t of a relation admits the stored subject held. */
  predicate Admits(t: TargetType, held: Subject) {
    && t.name == held.obj.typ
    && t.subjectRelation == held.relation
    && (if t.subjectIdentifier == "" then held.obj.id != "*" else held.obj.id == t.subjectIdentifier)
  }

  ghost predicate Declares(schema: Schema, typ: string, relation: string, t: TargetType) {
    typ in schema && exists r :: r in schema[typ].relationships && r.relation == relation && t in r.types
  }

  /** The graph holds the tuple and the schema admits it. */
  ghost predicate Stored(schema: Schema, g: Graph, o: Object, relation: string, held: Subject) {
    && Tuple(o, relation, held) in g
    && exists t :: Declares(schema, o.typ, relation, t) && Admits(t, held)
  }

  ghost predicate HasAction(schema: Schema, typ: string, a: Action) {
    typ in schema && a in schema[typ].actions
  }

  /** s has name (a relation or a permission) on o by a derivation of depth at most n. */
  ghost predicate Holds(schema: Schema, g: Graph, n: nat, o: Object, name: string, s: Subject)
    decreases n, 0
  {
    n > 0 &&
    (|| (exists held :: Stored(schema, g, o, name, held) && Covers(schema, g, n - 1, held, s))
     || (exists a :: HasAction(schema, o.typ, a) && a.name == name && ActionHolds(schema, g, n - 1, o, a, s)))
  }

  /** The stored subject is s, a wildcard of its type, or a userset that contains it. */
  ghost predicate Covers(schema: Schema, g: Graph, n: nat, held: Subject, s: Subject)
    decreases n, 1
  {
    || held == s
    || (held == Subject(Object(s.obj.typ, "*"), "") && s.relation == "")
    || (held.relation != "" && Holds(schema, g, n, held.obj, held.relation, s))
  }

  /** Conditions are alternatives; without them, every condition set must hold. */
  ghost predicate ActionHolds(schema: Schema, g: Graph, n: nat, o: Object, a: Action, s: Subject)
    decreases n, 3
  {
    if a.conditions != [] then
      AnyHolds(schema, g, n, o, a.conditions, s)
    else
      && a.conditionSets != []
      && forall i :: 0 <= i < |a.conditionSets| ==> AnyHolds(schema, g, n, o, a.conditionSets[i].conditions, s)
  }

  ghost predicate AnyHolds(schema: Schema, g: Graph, n: nat, o: Object, cs: seq<Condition>, s: Subject)
    decreases n, 2
  {
    exists c :: c in cs && ConditionHolds(schema, g, n, o, c, s)
  }

  ghost predicate ConditionHolds(schema: Schema, g: Graph, n: nat, o: Object, c: Condition, s: Subject)
    decreases n, 1
  {
    match c.relationshipAction
    case None => false
    case Some(ra) =>
      if ra.actionName == "" then
        Holds(schema, g, n, o, ra.relation, s)
      else
        exists held :: Stored(schema, g, o, ra.relation, held) && Holds(schema, g, n, held.obj, ra.actionName, s)
  }

  ghost predicate Granted(schema: Schema, g: Graph, o: Object, name: string, s: Subject) {
    exists n: nat :: Holds(schema, g, n, o, name, s)
  }

  /** A deeper search finds everything a shallower one does. */
  lemma {:induction false} HoldsMonotone(schema: Schema, g: Graph, n: nat, m: nat, o: Object, name: string, s: Subject)
    requires n <= m && Holds(schema, g, n, o, name, s)
    ensures Holds(schema, g, m, o, name, s)
    decreases n, 0
  {
    if held :| Stored(schema, g, o, name, held) && Covers(schema, g, n - 1, held, s) {
      if held.relation != "" && Holds(schema, g, n - 1, held.obj, held.relation, s) {
        HoldsMonotone(schema, g, n - 1, m - 1, held.obj, held.relation, s);
      }
      assert Covers(schema, g, m - 1, held, s);
    } else {
      var a :| HasAction(schema, o.typ, a) && a.name == name && ActionHolds(schema, g, n - 1, o, a, s);
      if a.conditions != [] {
        AnyMonotone(schema, g, n - 1, m - 1, o, a.conditions, s);
      } else {
        forall i | 0 <= i < |a.conditionSets|
          ensures AnyHolds(schema, g, m - 1, o, a.conditionSets[i].conditions, s)
        {
          AnyMonotone(schema, g, n - 1, m - 1, o, a.conditionSets[i].conditions, s);
        }
      }
      assert ActionHolds(schema, g, m - 1, o, a, s);
    }
  }

  lemma {:induction false} AnyMonotone(schema: Schema, g: Graph, n: nat, m: nat, o: Object, cs: seq<Condition>,
    s: Subject)
    requires n <= m && AnyHolds(schema, g, n, o, cs, s)
    ensures AnyHolds(schema, g, m, o, cs, s)
    decreases n, 1
  {
    var c :| c in cs && ConditionHolds(schema, g, n, o, c, s);
    var ra := c.relationshipAction.value;
    if ra.actionName == "" {
      HoldsMonotone(schema, g, n, m, o, ra.relation, s);
    } else {
      var held :| Stored(schema, g, o, ra.relation, held) && Holds(schema, g, n, held.obj, ra.actionName, s);
      HoldsMonotone(schema, g, n, m, held.obj, ra.actionName, s);
    }
    assert ConditionHolds(schema, g, m, o, c, s);
  }

  // ---------- monotonicity in the graph ----------

  /** More relationships grant more. */
  lemma {:induction false} HoldsInLarger(schema: Schema, g: Graph, h: Graph, n: nat, o: Object, name: string,
    s: Subject)
    requires g <= h && Holds(schema, g, n, o, name, s)
    ensures Holds(schema, h, n, o, name, s)
    decreases n, 0
  {
    if held :| Stored(schema, g, o, name, held) && Covers(schema, g, n - 1, held, s) {
      if held.relation != "" && Holds(schema, g, n - 1, held.obj, held.relation, s) {
        HoldsInLarger(schema, g, h, n - 1, held.obj, held.relation, s);
      }
      assert Stored(schema, h, o, name, held) && Covers(schema, h, n - 1, held, s);
    } else {
      var a :| HasAction(schema, o.typ, a) && a.name == name && ActionHolds(schema, g, n - 1, o, a, s);
      if a.conditions != [] {
        AnyInLarger(schema, g, h, n - 1, o, a.conditions, s);
      } else {
        forall i | 0 <= i < |a.conditionSets|
          ensures AnyHolds(schema, h, n - 1, o, a.conditionSets[i].conditions, s)
        {
          AnyInLarger(schema, g, h, n - 1, o, a.conditionSets[i].conditions, s);
        }
      }
      assert ActionHolds(schema, h, n - 1, o, a, s);
    }
  }

  lemma {:induction false} AnyInLarger(schema: Schema, g: Graph, h: Graph, n: nat, o: Object, cs: seq<Condition>,
    s: Subject)
    requires g <= h && AnyHolds(schema, g, n, o, cs, s)
    ensures AnyHolds(schema, h, n, o, cs, s)
    decreases n, 1
  {
    var c :| c in cs && ConditionHolds(schema, g, n, o, c, s);
    var ra := c.relationshipAction.value;
    if ra.actionName == "" {
      HoldsInLarger(schema, g, h, n, o, ra.relation, s);
    } else {
      var held :| Stored(schema, g, o, ra.relation, held) && Holds(schema, g, n, held.obj, ra.actionName, s);
      HoldsInLarger(schema, g, h, n, held.obj, ra.actionName, s);
      assert Stored(schema, h, o, ra.relation, held);
    }
    assert ConditionHolds(schema, h, n, o, c, s);
  }

  // ---------- what a permission does not depend on ----------

  /** Pairs of a type and a relation or action of it. */
  type Names = iset<(string, string)>

  /** The tuples at either end of which the object stands. */
  function Touching(g: Graph, x: Object): Graph {
    set t | t in g && (t.res == x || t.subj.obj == x)
  }

  /** Only the relation leads to the object. */
  ghost predicate OnlyAlong(g: Graph, relation: string, x: Object) {
    forall t :: t in g && t.subj.obj == x ==> t.relation == relation
  }

  /** The clause leads to names only, and follows no arrow to the object. */
  ghost predicate ClauseMisses(schema: Schema, g: Graph, names: Names, gone: Object, typ: string, c: Condition) {
    match c.relationshipAction
    case None => true
    case Some(ra) =>
      if ra.actionName == "" then (typ, ra.relation) in names
      else forall o: Object, held :: o.typ == typ && Stored(schema, g, o, ra.relation, held) ==>
        held.obj != gone && (held.obj.typ, ra.actionName) in names
  }

  ghost predicate ActionMisses(schema: Schema, g: Graph, names: Names, gone: Object, typ: string, a: Action) {
    && (forall c :: c in a.conditions ==> ClauseMisses(schema, g, names, gone, typ, c))
    && (forall cs, c :: cs in a.conditionSets && c in cs.conditions ==> ClauseMisses(schema, g, names, gone, typ, c))
  }

  /** held is not the object, or is the object itself and covers nothing but itself, which s is not. */
  ghost predicate HeldMisses(names: Names, gone: Object, s: Subject, held: Subject) {
    if held.obj == gone then held.relation == "" && gone.id != "*" && held != s
    else held.relation != "" ==> (held.obj.typ, held.relation) in names
  }

  /** No derivation of one of the names, on another object, passes through the object to reach s. */
  ghost predicate Misses(schema: Schema, g: Graph, names: Names, gone: Object, s: Subject) {
    forall typ, name :: (typ, name) in names ==>
      && (forall o: Object, held :: o.typ == typ && Stored(schema, g, o, name, held) ==>
        HeldMisses(names, gone, s, held))
      && (forall a :: HasAction(schema, typ, a) && a.name == name ==> ActionMisses(schema, g, names, gone, typ, a))
  }

  lemma {:induction false} HoldsWithout(schema: Schema, g: Graph, names: Names, gone: Object, n: nat, o: Object,
    name: string, s: Subject)
    requires Misses(schema, g, names, gone, s)
    requires o != gone && (o.typ, name) in names && Holds(schema, g, n, o, name, s)
    ensures Holds(schema, g - Touching(g, gone), n, o, name, s)
    decreases n, 0
  {
    var h := g - Touching(g, gone);
    if held :| Stored(schema, g, o, name, held) && Covers(schema, g, n - 1, held, s) {
      assert HeldMisses(names, gone, s, held);
      assert Tuple(o, name, held) in h;
      if held.relation != "" && Holds(schema, g, n - 1, held.obj, held.relation, s) {
        HoldsWithout(schema, g, names, gone, n - 1, held.obj, held.relation, s);
      }
      assert Stored(schema, h, o, name, held) && Covers(schema, h, n - 1, held, s);
    } else {
      var a :| HasAction(schema, o.typ, a) && a.name == name && ActionHolds(schema, g, n - 1, o, a, s);
      assert ActionMisses(schema, g, names, gone, o.typ, a);
      if a.conditions != [] {
        AnyWithout(schema, g, names, gone, n - 1, o, a.conditions, s);
      } else {
        forall i | 0 <= i < |a.conditionSets|
          ensures AnyHolds(schema, h, n - 1, o, a.conditionSets[i].conditions, s)
        {
          AnyWithout(schema, g, names, gone, n - 1, o, a.conditionSets[i].conditions, s);
        }
      }
      assert ActionHolds(schema, h, n - 1, o, a, s);
    }
  }

  lemma {:induction false} AnyWithout(schema: Schema, g: Graph, names: Names, gone: Object, n: nat, o: Object,
    cs: seq<Condition>, s: Subject)
    requires Misses(schema, g, names, gone, s) && o != gone
    requires forall c :: c in cs ==> ClauseMisses(schema, g, names, gone, o.typ, c)
    requires AnyHolds(schema, g, n, o, cs, s)
    ensures AnyHolds(schema, g - Touching(g, gone), n, o, cs, s)
    decreases n, 1
  {
    var h := g - Touching(g, gone);
    var c :| c in cs && ConditionHolds(schema, g, n, o, c, s);
    var ra := c.relationshipAction.value;
    if ra.actionName == "" {
      HoldsWithout(schema, g, names, gone, n, o, ra.relation, s);
    } else {
      var held :| Stored(schema, g, o, ra.relation, held) && Holds(schema, g, n, held.obj, ra.actionName, s);
      assert Tuple(o, ra.relation, held) in h;
      HoldsWithout(schema, g, names, gone, n, held.obj, ra.actionName, s);
      assert Stored(schema, h, o, ra.relation, held);
    }
    assert ConditionHolds(schema, h, n, o, c, s);
  }

  /** So removing the object changes no such check. */
  lemma GrantedMisses(schema: Schema, g: Graph, names: Names, gone: Object, o: Object, name: string, s: Subject)
    requires Misses(schema, g, names, gone, s) && o != gone && (o.typ, name) in names
    ensures Granted(schema, g, o, name, s) <==> Granted(schema, g - Touching(g, gone), o, name, s)
  {
    var h := g - Touching(g, gone);
    if Granted(schema, g, o, name, s) {
      var n: nat :| Holds(schema, g, n, o, name, s);
      HoldsWithout(schema, g, names, gone, n, o, name, s);
    }
    if Granted(schema, h, o, name, s) {
      var n: nat :| Holds(schema, h, n, o, name, s);
      HoldsInLarger(schema, h, g, n, o, name, s);
    }
  }

  // ---------- names that avoid a relation ----------

  /** The clause leads to names only, and follows no arrow along the relation. */
  ghost predicate ClauseAvoids(schema: Schema, names: Names, relation: string, typ: string, c: Condition) {
    match c.relationshipAction
    case None => true
    case Some(ra) =>
      if ra.actionName == "" then (typ, ra.relation) in names
      else ra.relation != relation && forall t :: Declares(schema, typ, ra.relation, t) ==>
        (t.name, ra.actionName) in names
  }

  ghost predicate ActionAvoids(schema: Schema, names: Names, relation: string, typ: string, a: Action) {
    && (forall c :: c in a.conditions ==> ClauseAvoids(schema, names, relation, typ, c))
    && (forall cs, c :: cs in a.conditionSets && c in cs.conditions ==> ClauseAvoids(schema, names, relation, typ, c))
  }

  /** names is closed under the schema and never uses the relation. */
  ghost predicate Avoids(schema: Schema, names: Names, relation: string) {
    forall typ, name :: (typ, name) in names ==>
      && name != relation
      && (forall t :: Declares(schema, typ, name, t) && t.subjectRelation != "" ==>
        (t.name, t.subjectRelation) in names)
      && (forall a :: HasAction(schema, typ, a) && a.name == name ==> ActionAvoids(schema, names, relation, typ, a))
  }

  lemma ClauseAvoidsMisses(schema: Schema, g: Graph, names: Names, relation: string, gone: Object, typ: string,
    c: Condition)
    requires ClauseAvoids(schema, names, relation, typ, c) && OnlyAlong(g, relation, gone)
    ensures ClauseMisses(schema, g, names, gone, typ, c)
  {
  }

  lemma AvoidsMisses(schema: Schema, g: Graph, names: Names, relation: string, gone: Object, s: Subject)
    requires Avoids(schema, names, relation) && OnlyAlong(g, relation, gone)
    ensures Misses(schema, g, names, gone, s)
  {
    forall typ, name, a | (typ, name) in names && HasAction(schema, typ, a) && a.name == name
      ensures ActionMisses(schema, g, names, gone, typ, a)
    {
      assert ActionAvoids(schema, names, relation, typ, a);
      forall c | ClauseAvoids(schema, names, relation, typ, c)
        ensures ClauseMisses(schema, g, names, gone, typ, c)
      {
        ClauseAvoidsMisses(schema, g, names, relation, gone, typ, c);
      }
    }
  }

  /** What avoids the only relation that leads to an object does not depend on the object. */
  lemma GrantedWithout(schema: Schema, g: Graph, names: Names, relation: string, gone: Object, o: Object, name: string,
    s: Subject)
    requires Avoids(schema, names, relation) && OnlyAlong(g, relation, gone) && o != gone && (o.typ, name) in names
    ensures Granted(schema, g, o, name, s) <==> Granted(schema, g - Touching(g, gone), o, name, s)
  {
    AvoidsMisses(schema, g, names, relation, gone, s);
    GrantedMisses(schema, g, names, gone, o, name, s);
  }

  // ---------- subjects other than the object ----------

  /** No arrow of the schema leads anywhere along the relation. */
  ghost predicate NoArrowAlong(schema: Schema, relation: string) {
    forall typ, a :: HasAction(schema, typ, a) ==> ActionHasNoArrow(schema, relation, typ, a)
  }

  ghost predicate ActionHasNoArrow(schema: Schema, relation: string, typ: string, a: Action) {
    && (forall c :: c in a.conditions ==> ClauseIsNoArrow(schema, relation, typ, c))
    && (forall cs, c :: cs in a.conditionSets && c in cs.conditions ==> ClauseIsNoArrow(schema, relation, typ, c))
  }

  ghost predicate ClauseIsNoArrow(schema: Schema, relation: string, typ: string, c: Condition) {
    match c.relationshipAction
    case None => true
    case Some(ra) =>
      ra.actionName != "" && ra.relation == relation ==> forall t :: !Declares(schema, typ, relation, t)
  }

  ghost function AllNames(): Names {
    iset typ: string, name: string | true :: (typ, name)
  }

  lemma NoArrowMisses(schema: Schema, g: Graph, relation: string, gone: Object, s: Subject)
    requires NoArrowAlong(schema, relation) && OnlyAlong(g, relation, gone)
    requires gone.id != "*" && s != Subject(gone, "")
    requires forall t :: t in g && t.subj.obj == gone ==> t.subj.relation == ""
    ensures Misses(schema, g, AllNames(), gone, s)
  {
    forall typ, a | HasAction(schema, typ, a)
      ensures ActionMisses(schema, g, AllNames(), gone, typ, a)
    {
      assert ActionHasNoArrow(schema, relation, typ, a);
      forall c | ClauseIsNoArrow(schema, relation, typ, c)
        ensures ClauseMisses(schema, g, AllNames(), gone, typ, c)
      {
      }
    }
  }

  /** An object that only one relation leads to, and no arrow follows, is seen by itself only. */
  lemma GrantedToOthers(schema: Schema, g: Graph, relation: string, gone: Object, o: Object, name: string, s: Subject)
    requires NoArrowAlong(schema, relation) && OnlyAlong(g, relation, gone)
    requires gone.id != "*" && s != Subject(gone, "") && o != gone
    requires forall t :: t in g && t.subj.obj == gone ==> t.subj.relation == ""
    ensures Granted(schema, g, o, name, s) <==> Granted(schema, g - Touching(g, gone), o, name, s)
  {
    NoArrowMisses(schema, g, relation, gone, s);
    GrantedMisses(schema, g, AllNames(), gone, o, name, s);
  }
}
