/** The meaning of a policy document, read straight from the document, and the proof
    that the compiler preserves it.  A union stands for whatever its members stand
    for, however deeply unions are nested; a V2 role-binding condition is read as
    docs/rbac.md explains it; nothing here mentions the compiled tables. */
module PolicyMeaning {
  import opened Types
  import opened Rbac
  import opened Iapl
  import opened PolicyTables
  import opened Permissions

  // ---------- unions as sums ----------

  /** m is one of the targets t stands for, through at most k unions. */
  ghost predicate Stands(un: UnionMap, k: nat, t: TargetType, m: TargetType) {
    if t.name in un then
      k > 0 && exists u :: u in un[t.name].resourceTypes && Stands(un, k - 1, u, m)
    else
      t == m
  }

  ghost predicate StandsFor(un: UnionMap, t: TargetType, m: TargetType) {
    exists k: nat :: Stands(un, k, t, m)
  }

  /** Members of unions are concrete types, as validation demands. */
  ghost predicate Concretes(un: UnionMap) {
    forall n, m :: n in un && m in un[n].resourceTypes ==> m.name !in un
  }

  lemma AcceptedUnionsAreConcrete(p: PolicyDocument, rt: TypeMap)
    requires UnionsAccepted(p, rt)
    ensures Concretes(UnionTable(p.unions))
    ensures forall n :: n in UnionTable(p.unions) ==> n !in rt
  {
    UnionTableNames(p.unions);
  }

  /** One expansion pass reaches everything a target stands for. */
  lemma ExpansionIsComplete(un: UnionMap, t: TargetType, m: TargetType)
    requires Concretes(un)
    ensures StandsFor(un, t, m) <==> m in ExpandTarget(un, t)
  {
    if StandsFor(un, t, m) {
      var k: nat :| Stands(un, k, t, m);
      if t.name in un {
        var u :| u in un[t.name].resourceTypes && Stands(un, k - 1, u, m);
      }
    }
    if m in ExpandTarget(un, t) {
      if t.name in un {
        assert Stands(un, 0, m, m);
        assert Stands(un, 1, t, m);
      } else {
        assert Stands(un, 0, t, m);
      }
    }
  }

  /** ... so a second pass changes nothing. */
  lemma {:induction false} ExpansionIsIdempotent(un: UnionMap, ts: seq<TargetType>)
    requires Concretes(un)
    ensures ExpandTargets(un, ExpandTargets(un, ts)) == ExpandTargets(un, ts)
  {
    var e := ExpandTargets(un, ts);
    forall m | m in e
      ensures m.name !in un
    {
      ExpandTargetsMembers(un, ts, m);
    }
    NothingToExpand(un, e);
  }

  lemma {:induction false} NothingToExpand(un: UnionMap, ts: seq<TargetType>)
    requires forall m :: m in ts ==> m.name !in un
    ensures ExpandTargets(un, ts) == ts
  {
    if ts != [] {
      NothingToExpand(un, ts[..|ts| - 1]);
      assert ts == ts[..|ts| - 1] + [ts[|ts| - 1]];
    }
  }

  // ---------- the document read directly ----------

  /** The binding d of the document is about the type typ. */
  ghost predicate BindsTo(p: PolicyDocument, d: ActionBinding, typ: string) {
    d in p.actionBindings && exists m :: StandsFor(UnionTable(p.unions), Plain(d.typeName), m) && m.name == typ
  }

  ghost predicate DocDeclares(p: PolicyDocument, typ: string, relation: string, t: TargetType) {
    || (exists rel, tt :: HasRelation(p, typ, rel) && rel.relation == relation && tt in rel.types &&
         StandsFor(UnionTable(p.unions), tt, t))
    || (t == TargetType(ROLE_RELATION, "", SUBJECT_RELATION) && exists d, c ::
          BindsTo(p, d, typ) && c in d.conditions && c.roleBinding && relation == d.actionName + PERMISSION_SUFFIX)
  }

  ghost predicate DocStored(p: PolicyDocument, g: Graph, o: Object, relation: string, held: Subject) {
    && Tuple(o, relation, held) in g
    && exists t :: DocDeclares(p, o.typ, relation, t) && Admits(t, held)
  }

  /** Some binding on the type has a V2 condition. */
  ghost predicate DocUsesV2(p: PolicyDocument, typ: string) {
    && V2Of(p, typ).Some?
    && exists d, c :: BindsTo(p, d, typ) && c in d.conditions && !c.roleBinding && c.roleBindingV2
  }

  /** The document gives s the relation or action name on o, by a derivation of depth at most n. */
  ghost predicate DocHolds(p: PolicyDocument, g: Graph, n: nat, o: Object, name: string, s: Subject)
    decreases n, 0
  {
    n > 0 &&
    (|| (exists held :: DocStored(p, g, o, name, held) && DocCovers(p, g, n - 1, held, s))
     || (exists d :: BindsTo(p, d, o.typ) && d.actionName == name && DocBindingHolds(p, g, n - 1, o, d, s))
     || (p.rbac.Some? && OnRoleBinding(p, p.rbac.value, g, n - 1, o, name, s))
     || (p.rbac.Some? && name == AVAILABLE_ROLES && RoleAvailable(p, p.rbac.value, g, n - 1, o, s))
     || (name in ROLE_BINDING_ACTIONS && DocUsesV2(p, o.typ) &&
          GrantedOrInherited(p, g, n - 1, o, name, InheritsOf(p, o.typ), s)))
  }

  ghost predicate DocCovers(p: PolicyDocument, g: Graph, n: nat, held: Subject, s: Subject)
    decreases n, 1
  {
    || held == s
    || (held == Subject(Object(s.obj.typ, "*"), "") && s.relation == "")
    || (held.relation != "" && DocHolds(p, g, n, held.obj, held.relation, s))
  }

  /** name holds on some object o is related to. */
  ghost predicate DocAlong(p: PolicyDocument, g: Graph, n: nat, o: Object, relation: string, name: string, s: Subject)
    decreases n, 1
  {
    exists held :: DocStored(p, g, o, relation, held) && DocHolds(p, g, n, held.obj, name, s)
  }

  /** A role binding passes an action on when its role carries it and s is one of its subjects. */
  ghost predicate OnRoleBinding(p: PolicyDocument, r: RBAC, g: Graph, n: nat, o: Object, name: string, s: Subject)
    decreases n, 2
  {
    && o.typ == r.roleBindingResource.name && name in ActionNames(p)
    && DocAlong(p, g, n, o, ROLE_RELATION, name + PERMISSION_SUFFIX, s)
    && DocHolds(p, g, n, o, SUBJECT_RELATION, s)
  }

  /** Roles are available where they are owned, and on whatever inherits from there. */
  ghost predicate RoleAvailable(p: PolicyDocument, r: RBAC, g: Graph, n: nat, o: Object, s: Subject)
    decreases n, 2
  {
    && o.typ in TypeNames(p)
    && (|| (o.typ in r.roleOwners && DocHolds(p, g, n, o, MEMBER_ROLE_RELATION, s))
        || exists f :: f in InheritsOf(p, o.typ) && DocAlong(p, g, n, o, f, AVAILABLE_ROLES, s))
  }

  ghost predicate GrantedOrInherited(p: PolicyDocument, g: Graph, n: nat, o: Object, name: string, from: seq<string>,
    s: Subject)
    decreases n, 2
  {
    || DocAlong(p, g, n, o, GRANT_RELATION, name, s)
    || exists f :: f in from && DocAlong(p, g, n, o, f, name, s)
  }

  ghost predicate DocBindingHolds(p: PolicyDocument, g: Graph, n: nat, o: Object, d: ActionBinding, s: Subject)
    decreases n, 4
  {
    if d.conditions != [] then
      exists c :: c in d.conditions && DocConditionHolds(p, g, n, o, d.actionName, c, s)
    else
      && d.conditionSets != []
      && forall i :: 0 <= i < |d.conditionSets| ==> DocAny(p, g, n, o, d.conditionSets[i].conditions, s)
  }

  /** One of the relation clauses holds. */
  ghost predicate DocAny(p: PolicyDocument, g: Graph, n: nat, o: Object, cs: seq<Condition>, s: Subject)
    decreases n, 3
  {
    exists c :: c in cs && DocClauseHolds(p, g, n, o, c.relationshipAction, s)
  }

  ghost predicate DocConditionHolds(p: PolicyDocument, g: Graph, n: nat, o: Object, action: string, c: Condition,
    s: Subject)
    decreases n, 3
  {
    if c.roleBinding then
      DocHolds(p, g, n, o, action + PERMISSION_SUFFIX, s)
    else if c.roleBindingV2 && V2Of(p, o.typ).Some? then
      GrantedOrInherited(p, g, n, o, action,
        if V2Of(p, o.typ).value.inheritAllActions then InheritsOf(p, o.typ) else [], s)
    else
      DocClauseHolds(p, g, n, o, c.relationshipAction, s)
  }

  ghost predicate DocClauseHolds(p: PolicyDocument, g: Graph, n: nat, o: Object, ra: Option<RelationshipAction>,
    s: Subject)
    decreases n, 2
  {
    match ra
    case None => false
    case Some(ra) =>
      if ra.actionName == "" then DocHolds(p, g, n, o, ra.relation, s)
      else DocAlong(p, g, n, o, ra.relation, ra.actionName, s)
  }

  // ---------- the compiled policy ----------

  ghost function SchemaOf(p: PolicyDocument, o: Orders): Schema
    requires ValidOrders(p, o)
  {
    EmittedSchema(CompiledTypes(p, o.roleActions), CompiledBindings(p, o))
  }

  ghost predicate DocAccepted(p: PolicyDocument, o: Orders, validPrefix: string -> bool) {
    ValidOrders(p, o) && Accepted(p, CompiledTypes(p, o.roleActions), CompiledBindings(p, o), validPrefix)
  }

  lemma BindingOfDocument(p: PolicyDocument, o: Orders, d: ActionBinding, b: ActionBinding, typ: string)
    requires ValidOrders(p, o) && UnionsAccepted(p, CompiledTypes(p, o.roleActions))
    requires d in p.actionBindings && b == d.(typeName := typ)
    ensures b in ExpandBinding(UnionTable(p.unions), d) <==> BindsTo(p, d, typ)
  {
    var un := UnionTable(p.unions);
    AcceptedUnionsAreConcrete(p, CompiledTypes(p, o.roleActions));
    if BindsTo(p, d, typ) {
      var m :| StandsFor(un, Plain(d.typeName), m) && m.name == typ;
      ExpansionIsComplete(un, Plain(d.typeName), m);
      if d.typeName in un {
        var i :| 0 <= i < |un[d.typeName].resourceTypes| && un[d.typeName].resourceTypes[i] == m;
        assert ExpandBinding(un, d)[i] == b;
      }
    }
    if b in ExpandBinding(un, d) {
      if d.typeName in un {
        var i :| 0 <= i < |un[d.typeName].resourceTypes| && ExpandBinding(un, d)[i] == b;
        ExpansionIsComplete(un, Plain(d.typeName), un[d.typeName].resourceTypes[i]);
      } else {
        ExpansionIsComplete(un, Plain(d.typeName), Plain(d.typeName));
      }
    }
  }

  /** The generated bindings hold no role-binding clauses of their own. */
  lemma GeneratedConditions(p: PolicyDocument, b: ActionBinding, c: Condition)
    requires HasBinding(p, b) && c in b.conditions && (c.roleBinding || c.roleBindingV2)
    ensures exists d :: d in p.actionBindings && b in ExpandBinding(UnionTable(p.unions), d)
  {
    if p.rbac.Some? {
      forall n | n in TypeNames(p) && b in AvailableBindingOf(p, p.rbac.value, n)
        ensures false
      {
        assert c in AvailableConditionsOf(p, p.rbac.value, n);
      }
    }
  }

  /** V1 relations come from the bindings of the document only. */
  lemma V1OfDocument(p: PolicyDocument, o: Orders, typ: string, action: string)
    requires ValidOrders(p, o) && UnionsAccepted(p, CompiledTypes(p, o.roleActions))
    ensures HasV1(CompiledBindings(p, o), typ, action) <==>
      exists d, c :: BindsTo(p, d, typ) && c in d.conditions && c.roleBinding && d.actionName == action
  {
    if HasV1(CompiledBindings(p, o), typ, action) {
      V1FromDocument(p, o, typ, action);
    }
    if d, c :| BindsTo(p, d, typ) && c in d.conditions && c.roleBinding && d.actionName == action {
      var b := d.(typeName := typ);
      BindingOfDocument(p, o, d, b, typ);
      CompiledBindingsMembers(p, o, b);
    }
  }

  lemma V1FromDocument(p: PolicyDocument, o: Orders, typ: string, action: string)
    requires ValidOrders(p, o) && UnionsAccepted(p, CompiledTypes(p, o.roleActions))
    requires HasV1(CompiledBindings(p, o), typ, action)
    ensures exists d, c :: BindsTo(p, d, typ) && c in d.conditions && c.roleBinding && d.actionName == action
  {
    var b, c :|
      b in CompiledBindings(p, o) && b.typeName == typ && b.actionName == action && c in b.conditions && c.roleBinding;
    CompiledBindingsMembers(p, o, b);
    GeneratedConditions(p, b, c);
    var d :| d in p.actionBindings && b in ExpandBinding(UnionTable(p.unions), d);
    assert b == d.(typeName := typ);
    BindingOfDocument(p, o, d, b, typ);
  }

  /** The schema declares a target exactly where the document does. */
  lemma DeclaresAgree(p: PolicyDocument, o: Orders, typ: string, relation: string, t: TargetType)
    requires ValidOrders(p, o) && UnionsAccepted(p, CompiledTypes(p, o.roleActions))
    requires typ in TypeNames(p)
    ensures Declares(SchemaOf(p, o), typ, relation, t) <==> DocDeclares(p, typ, relation, t)
  {
    var un := UnionTable(p.unions);
    var rt, bn := CompiledTypes(p, o.roleActions), CompiledBindings(p, o);
    CompiledTypesNames(p, o.roleActions);
    AcceptedUnionsAreConcrete(p, rt);
    if Declares(SchemaOf(p, o), typ, relation, t) {
      var m :| m in SchemaOf(p, o)[typ].relationships && m.relation == relation && t in m.types;
      EmittedRelationshipsMembers(rt[typ], bn, typ, m);
      if m in rt[typ].relationships {
        CompiledRelations(p, o.roleActions, typ, m);
        var rel :| HasRelation(p, typ, rel) && m == ExpandRelationship(un, rel);
        ExpandTargetsMembers(un, rel.types, t);
        var tt :| tt in rel.types && t in ExpandTarget(un, tt);
        ExpansionIsComplete(un, tt, t);
      } else {
        var a :| HasV1(bn, typ, a) && m == V1Relation(a);
        V1OfDocument(p, o, typ, a);
      }
    }
    if rel, tt :| HasRelation(p, typ, rel) && rel.relation == relation && tt in rel.types && StandsFor(un, tt, t) {
      ExpansionIsComplete(un, tt, t);
      ExpandTargetsMembers(un, rel.types, t);
      var m := ExpandRelationship(un, rel);
      CompiledRelations(p, o.roleActions, typ, m);
      EmittedRelationshipsMembers(rt[typ], bn, typ, m);
      assert Declares(SchemaOf(p, o), typ, relation, t);
    }
    if t == TargetType(ROLE_RELATION, "", SUBJECT_RELATION) {
      if d, c :|
        BindsTo(p, d, typ) && c in d.conditions && c.roleBinding && relation == d.actionName + PERMISSION_SUFFIX {
        V1OfDocument(p, o, typ, d.actionName);
        EmittedRelationshipsMembers(rt[typ], bn, typ, V1Relation(d.actionName));
        assert Declares(SchemaOf(p, o), typ, relation, t);
      }
    }
  }
}
