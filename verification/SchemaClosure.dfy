/** Validation closes the emitted schema: what Validate checks makes every clause that
    comes from a document refer to something defined, and the clauses the compiler
    generates are closed exactly when Ready holds, which Validate does not check. */
module SchemaClosure {
  import opened Types
  import opened Rbac
  import opened Iapl
  import opened PolicyTables
  import opened PolicyMeaning
  import opened Permissions
  import opened RoleBindingMeaning
  import P = Policy

  // ---------- what closed means ----------

  ghost predicate Defined(schema: Schema, typ: string, name: string) {
    && typ in schema
    && (NamesRelation(schema[typ].relationships, name) || exists a :: a in schema[typ].actions && a.name == name)
  }

  ghost predicate ClosedArrow(schema: Schema, typ: string, ra: RelationshipAction)
    requires typ in schema
  {
    && NamesRelation(schema[typ].relationships, ra.relation)
    && (ra.actionName != "" ==> forall t :: Declares(schema, typ, ra.relation, t) ==>
      Defined(schema, t.name, ra.actionName))
  }

  ghost predicate ClosedClause(schema: Schema, typ: string, c: Condition)
    requires typ in schema
  {
    c.relationshipAction.Some? && ClosedArrow(schema, typ, c.relationshipAction.value)
  }

  ghost predicate ClosedAction(schema: Schema, typ: string, a: Action)
    requires typ in schema
  {
    && (forall c :: c in a.conditions ==> ClosedClause(schema, typ, c))
    && (forall cs, c :: cs in a.conditionSets && c in cs.conditions ==> ClosedClause(schema, typ, c))
  }

  ghost predicate ClosedTarget(schema: Schema, t: TargetType) {
    t.name in schema && (t.subjectRelation != "" ==> Defined(schema, t.name, t.subjectRelation))
  }

  ghost predicate Closed(schema: Schema) {
    forall typ :: typ in schema ==>
      && (forall r, t :: r in schema[typ].relationships && t in r.types ==> ClosedTarget(schema, t))
      && (forall a :: a in schema[typ].actions ==> ClosedAction(schema, typ, a))
  }

  ghost predicate DistinctNames(rels: seq<Relationship>) {
    forall i, j :: 0 <= i < j < |rels| ==> rels[i].relation != rels[j].relation
  }

  ghost predicate DistinctRelations(schema: Schema) {
    forall typ :: typ in schema ==> DistinctNames(schema[typ].relationships)
  }

  // ---------- what the document must provide for the generated clauses ----------

  /** typ has a relation or an action called name, declared or generated. */
  ghost predicate Provides(rt: TypeMap, bn: seq<ActionBinding>, typ: string, name: string) {
    && typ in rt
    && (|| NamesRelation(rt[typ].relationships, name)
        || (exists a :: HasV1(bn, typ, a) && name == a + PERMISSION_SUFFIX)
        || Binds(bn, typ, name)
        || (name in ROLE_BINDING_ACTIONS && UsesV2(rt[typ], bn, typ)))
  }

  /** The relation is declared on typ, or is one that a V1 condition adds to it. */
  ghost predicate RelationReady(rt: TypeMap, bn: seq<ActionBinding>, typ: string, relation: string)
    requires typ in rt
  {
    NamesRelation(rt[typ].relationships, relation) || exists a :: HasV1(bn, typ, a) && relation == a + PERMISSION_SUFFIX
  }

  /** The relation exists and all its targets provide the action. */
  ghost predicate ArrowReady(rt: TypeMap, bn: seq<ActionBinding>, typ: string, relation: string, action: string)
    requires typ in rt
  {
    var rel := FirstRelation(rt[typ].relationships, relation);
    if rel.Some? then forall t :: t in rel.value.types ==> Provides(rt, bn, t.name, action)
    else RelationReady(rt, bn, typ, relation) && Provides(rt, bn, ROLE_RELATION, action)
  }

  ghost predicate ClauseReady(rt: TypeMap, bn: seq<ActionBinding>, typ: string, c: Condition)
    requires typ in rt
  {
    match c.relationshipAction
    case None => false
    case Some(ra) =>
      if ra.actionName == "" then RelationReady(rt, bn, typ, ra.relation)
      else ArrowReady(rt, bn, typ, ra.relation, ra.actionName)
  }

  ghost predicate GrantReady(rt: TypeMap, bn: seq<ActionBinding>, typ: string, action: string, from: seq<string>)
    requires typ in rt
  {
    && ArrowReady(rt, bn, typ, GRANT_RELATION, action)
    && forall f :: f in from ==> ArrowReady(rt, bn, typ, f, action)
  }

  ghost predicate ConditionReady(rt: TypeMap, bn: seq<ActionBinding>, b: ActionBinding, c: Condition)
    requires b.typeName in rt
  {
    var t := rt[b.typeName];
    if c.roleBinding then
      Provides(rt, bn, ROLE_RELATION, SUBJECT_RELATION)
    else if c.roleBindingV2 then
      && t.roleBindingV2.Some?
      && GrantReady(rt, bn, b.typeName, b.actionName,
           if t.roleBindingV2.value.inheritAllActions then InheritsFrom(t) else [])
      && forall a :: a in ROLE_BINDING_ACTIONS ==> GrantReady(rt, bn, b.typeName, a, InheritsFrom(t))
    else
      true
  }

  ghost predicate SetsReady(rt: TypeMap, bn: seq<ActionBinding>, b: ActionBinding)
    requires b.typeName in rt
  {
    forall cs, c :: cs in b.conditionSets && c in cs.conditions ==> ClauseReady(rt, bn, b.typeName, c)
  }

  /** What Validate does not check: V1 conditions need the V1 role type and its subjects; a V2
      condition needs rolebindingv2 on the type, grant and the inherited relations, and targets
      that bind the actions; condition sets need what their clauses name. */
  ghost predicate Ready(rt: TypeMap, bn: seq<ActionBinding>)
    requires forall b :: b in bn ==> b.typeName in rt
  {
    && (forall b, c :: b in bn && c in b.conditions ==> ConditionReady(rt, bn, b, c))
    && (forall b :: b in bn ==> SetsReady(rt, bn, b))
  }

  // ---------- tables and schema agree on what is defined ----------

  lemma {:induction false} FirstRelationFinds(rels: seq<Relationship>, name: string)
    ensures FirstRelation(rels, name).Some? <==> NamesRelation(rels, name)
    ensures FirstRelation(rels, name).Some? ==>
      FirstRelation(rels, name).value in rels && FirstRelation(rels, name).value.relation == name
  {
    if rels != [] && rels[0].relation != name {
      FirstRelationFinds(rels[1..], name);
      assert rels == [rels[0]] + rels[1..];
    }
  }

  lemma SameName(rels: seq<Relationship>, r1: Relationship, r2: Relationship)
    requires DistinctNames(rels) && r1 in rels && r2 in rels && r1.relation == r2.relation
    ensures r1 == r2
  {
  }

  lemma DefinedMeansProvided(rt: TypeMap, bn: seq<ActionBinding>, typ: string, name: string)
    ensures Defined(EmittedSchema(rt, bn), typ, name) <==> Provides(rt, bn, typ, name)
  {
    if typ in rt {
      EmittedNames(rt[typ], bn, typ, name);
      var d := EmittedSchema(rt, bn)[typ];
      if name in ROLE_BINDING_ACTIONS && UsesV2(rt[typ], bn, typ) {
        var i :| 0 <= i < |ROLE_BINDING_ACTIONS| && ROLE_BINDING_ACTIONS[i] == name;
        assert RoleBindingActionsFor(InheritsFrom(rt[typ]))[i] in d.actions;
      }
      if a :| a in EmittedActions(rt[typ], bn, typ) && a.name == name {
        assert a in d.actions;
      }
    }
  }

  lemma EmittedNames(t: ResourceType, bn: seq<ActionBinding>, typ: string, name: string)
    ensures NamesRelation(EmittedRelationships(t, bn, typ), name) <==>
      NamesRelation(t.relationships, name) || exists a :: HasV1(bn, typ, a) && name == a + PERMISSION_SUFFIX
    ensures (exists a :: a in EmittedActions(t, bn, typ) && a.name == name) <==> Binds(bn, typ, name)
  {
    forall r
      ensures r in EmittedRelationships(t, bn, typ) <==>
        r in t.relationships || exists a :: HasV1(bn, typ, a) && r == V1Relation(a)
    {
      EmittedRelationshipsMembers(t, bn, typ, r);
    }
    forall a
      ensures a in EmittedActions(t, bn, typ) <==> exists b :: b in bn && b.typeName == typ && a == CompileBinding(t, b)
    {
      EmittedActionsMembers(t, bn, typ, a);
    }
    if a :| HasV1(bn, typ, a) && name == a + PERMISSION_SUFFIX {
      assert V1Relation(a) in EmittedRelationships(t, bn, typ);
    }
    if b :| b in bn && b.typeName == typ && b.actionName == name {
      assert CompileBinding(t, b) in EmittedActions(t, bn, typ);
    }
  }

  lemma DeclaredRelation(rt: TypeMap, bn: seq<ActionBinding>, typ: string, r: Relationship)
    requires typ in rt && r in rt[typ].relationships
    ensures r in EmittedSchema(rt, bn)[typ].relationships
  {
    EmittedRelationshipsMembers(rt[typ], bn, typ, r);
  }

  /** What a relation that exists once accepts. */
  lemma OneRelation(rels: seq<Relationship>, rel: Relationship, t: TargetType)
    requires DistinctNames(rels) && rel in rels
    ensures (exists r :: r in rels && r.relation == rel.relation && t in r.types) <==> t in rel.types
  {
    if r :| r in rels && r.relation == rel.relation && t in r.types {
      SameName(rels, r, rel);
    }
  }

  /** Ready and closed are the same, for a declared relation and for one that V1 conditions add. */
  lemma ReadyMeansClosed(rt: TypeMap, bn: seq<ActionBinding>, typ: string, relation: string, action: string)
    requires typ in rt && action != "" && DistinctRelations(EmittedSchema(rt, bn))
    ensures ClosedArrow(EmittedSchema(rt, bn), typ, RelationshipAction(relation, action)) <==>
      ArrowReady(rt, bn, typ, relation, action)
  {
    var schema := EmittedSchema(rt, bn);
    FirstRelationFinds(rt[typ].relationships, relation);
    EmittedNames(rt[typ], bn, typ, relation);
    forall t
      ensures Defined(schema, t, action) <==> Provides(rt, bn, t, action)
    {
      DefinedMeansProvided(rt, bn, t, action);
    }
    if NamesRelation(rt[typ].relationships, relation) {
      var rel := FirstRelation(rt[typ].relationships, relation).value;
      DeclaredRelation(rt, bn, typ, rel);
      forall t
        ensures Declares(schema, typ, relation, t) <==> t in rel.types
      {
        OneRelation(schema[typ].relationships, rel, t);
      }
    } else if a :| HasV1(bn, typ, a) && relation == a + PERMISSION_SUFFIX {
      AddedRelation(rt, bn, typ, a);
      forall t
        ensures Declares(schema, typ, relation, t) <==> t in V1Relation(a).types
      {
        OneRelation(schema[typ].relationships, V1Relation(a), t);
      }
      assert V1Relation(a).types[0].name == ROLE_RELATION;
    }
  }

  lemma AddedRelation(rt: TypeMap, bn: seq<ActionBinding>, typ: string, a: string)
    requires typ in rt && HasV1(bn, typ, a)
    ensures V1Relation(a) in EmittedSchema(rt, bn)[typ].relationships
  {
    EmittedRelationshipsMembers(rt[typ], bn, typ, V1Relation(a));
  }

  lemma ClauseReadyMeansClosed(rt: TypeMap, bn: seq<ActionBinding>, typ: string, c: Condition)
    requires typ in rt && DistinctRelations(EmittedSchema(rt, bn))
    ensures ClosedClause(EmittedSchema(rt, bn), typ, c) <==> ClauseReady(rt, bn, typ, c)
  {
    if c.relationshipAction.Some? {
      var ra := c.relationshipAction.value;
      if ra.actionName == "" {
        EmittedNames(rt[typ], bn, typ, ra.relation);
      } else {
        ReadyMeansClosed(rt, bn, typ, ra.relation, ra.actionName);
      }
    }
  }

  // ---------- clauses of the document are closed by validation ----------

  lemma AcceptedClauseIsClosed(rt: TypeMap, ac: set<string>, bn: seq<ActionBinding>, b: ActionBinding, c: Condition)
    requires BindingsAccepted(rt, ac, bn) && DistinctRelations(EmittedSchema(rt, bn))
    requires b in bn && c in b.conditions && c.relationshipAction.Some?
    ensures b.typeName in rt
    ensures ClosedClause(EmittedSchema(rt, bn), b.typeName, c)
  {
    var ra := c.relationshipAction.value;
    var typ := b.typeName;
    assert BindingAccepted(rt, ac, bn, b);
    assert ConditionAccepted(rt[typ].relationships, bn, c);
    FirstRelationFinds(rt[typ].relationships, ra.relation);
    DeclaredRelation(rt, bn, typ, FirstRelation(rt[typ].relationships, ra.relation).value);
    if ra.actionName != "" {
      forall t | t in FirstRelation(rt[typ].relationships, ra.relation).value.types
        ensures Provides(rt, bn, t.name, ra.actionName)
      {
        var d :| d in bn && d.typeName == t.name && d.actionName == ra.actionName;
        assert BindingAccepted(rt, ac, bn, d);
      }
      ReadyMeansClosed(rt, bn, typ, ra.relation, ra.actionName);
    }
  }

  // ---------- generated clauses ----------

  ghost predicate AllClosed(schema: Schema, typ: string, cs: seq<Condition>)
    requires typ in schema
  {
    forall c :: c in cs ==> ClosedClause(schema, typ, c)
  }

  lemma RoleBindingConditionsClosed(rt: TypeMap, bn: seq<ActionBinding>, typ: string, action: string, from: seq<string>)
    requires typ in rt && action != "" && DistinctRelations(EmittedSchema(rt, bn))
    ensures AllClosed(EmittedSchema(rt, bn), typ, RoleBindingConditions(action, from)) <==>
      GrantReady(rt, bn, typ, action, from)
  {
    var schema := EmittedSchema(rt, bn);
    var cs := RoleBindingConditions(action, from);
    ReadyMeansClosed(rt, bn, typ, GRANT_RELATION, action);
    forall f | f in from
      ensures ClosedArrow(schema, typ, RelationshipAction(f, action)) <==> ArrowReady(rt, bn, typ, f, action)
    {
      ReadyMeansClosed(rt, bn, typ, f, action);
    }
    if AllClosed(schema, typ, cs) {
      assert cs[0] in cs;
      forall f | f in from
        ensures ArrowReady(rt, bn, typ, f, action)
      {
        var i :| 0 <= i < |from| && from[i] == f;
        assert cs[i + 1] == Along(f, action);
        assert ClosedClause(schema, typ, cs[i + 1]);
      }
    }
    if GrantReady(rt, bn, typ, action, from) {
      forall c | c in cs
        ensures ClosedClause(schema, typ, c)
      {
        var i :| 0 <= i < |cs| && cs[i] == c;
        if i > 0 {
          assert from[i - 1] in from;
        }
      }
    }
  }

  // ---------- the theorem ----------

  /** What a condition adds to the schema: its clauses, the V1 relation, the role-binding actions. */
  ghost predicate ConditionClosed(rt: TypeMap, bn: seq<ActionBinding>, b: ActionBinding, c: Condition)
    requires b.typeName in rt
  {
    var schema, typ, t := EmittedSchema(rt, bn), b.typeName, rt[b.typeName];
    && AllClosed(schema, typ, CompileCondition(t, b.actionName, c))
    && (c.roleBinding ==> ClosedTarget(schema, TargetType(ROLE_RELATION, "", SUBJECT_RELATION)))
    && (TriggersV2(t, c) ==> forall a :: a in ROLE_BINDING_ACTIONS ==>
      AllClosed(schema, typ, RoleBindingConditions(a, InheritsFrom(t))))
  }

  lemma V1ClauseClosed(rt: TypeMap, bn: seq<ActionBinding>, b: ActionBinding, c: Condition)
    requires b in bn && b.typeName in rt && c in b.conditions && c.roleBinding
    ensures AllClosed(EmittedSchema(rt, bn), b.typeName, CompileCondition(rt[b.typeName], b.actionName, c))
  {
    assert HasV1(bn, b.typeName, b.actionName);
    EmittedRelationshipsMembers(rt[b.typeName], bn, b.typeName, V1Relation(b.actionName));
  }

  lemma ConditionReadyMeansClosed(p: PolicyDocument, o: Orders, validPrefix: string -> bool, b: ActionBinding,
    c: Condition)
    requires DocAccepted(p, o, validPrefix) && DistinctRelations(SchemaOf(p, o))
    requires b in CompiledBindings(p, o) && c in b.conditions
    ensures b.typeName in CompiledTypes(p, o.roleActions)
    ensures ConditionClosed(CompiledTypes(p, o.roleActions), CompiledBindings(p, o), b, c) <==>
      ConditionReady(CompiledTypes(p, o.roleActions), CompiledBindings(p, o), b, c)
  {
    var rt, bn := CompiledTypes(p, o.roleActions), CompiledBindings(p, o);
    assert BindingAccepted(rt, ActionNames(p), bn, b);
    assert ConditionAccepted(rt[b.typeName].relationships, bn, c);
    var t := rt[b.typeName];
    if c.roleBinding {
      V1ClauseClosed(rt, bn, b, c);
      DefinedMeansProvided(rt, bn, ROLE_RELATION, SUBJECT_RELATION);
    } else if c.roleBindingV2 {
      if t.roleBindingV2.Some? {
        RoleBindingConditionsClosed(rt, bn, b.typeName, b.actionName,
          if t.roleBindingV2.value.inheritAllActions then InheritsFrom(t) else []);
        forall a | a in ROLE_BINDING_ACTIONS
          ensures AllClosed(EmittedSchema(rt, bn), b.typeName, RoleBindingConditions(a, InheritsFrom(t))) <==>
            GrantReady(rt, bn, b.typeName, a, InheritsFrom(t))
        {
          RoleBindingConditionsClosed(rt, bn, b.typeName, a, InheritsFrom(t));
        }
      } else {
        var cs := CompileCondition(t, b.actionName, c);
        assert cs[0] in cs && cs[0].relationshipAction.None?;
      }
    } else {
      AcceptedClauseIsClosed(rt, ActionNames(p), bn, b, c);
      assert CompileCondition(t, b.actionName, c) == [Condition(false, false, c.relationshipAction)];
    }
  }

  lemma EmittedFromDocument(p: PolicyDocument, o: Orders, typ: string, rel: Relationship)
    requires ValidOrders(p, o) && typ in TypeNames(p) && HasRelation(p, typ, rel)
    ensures typ in SchemaOf(p, o)
    ensures NamesRelation(SchemaOf(p, o)[typ].relationships, rel.relation)
  {
    CompiledTypesNames(p, o.roleActions);
    var m := ExpandRelationship(UnionTable(p.unions), rel);
    CompiledRelations(p, o.roleActions, typ, m);
    DeclaredRelation(CompiledTypes(p, o.roleActions), CompiledBindings(p, o), typ, m);
  }

  /** The condition sets of the role-binding type are closed: it declares role and subject, and the
      role type declares every permission relation. */
  lemma RoleBindingSetsClosed(p: PolicyDocument, r: RBAC, o: Orders, validPrefix: string -> bool, action: string)
    requires DocAccepted(p, o, validPrefix) && p.rbac == Some(r) && action in ActionNames(p)
    requires r.roleResource.name != r.roleBindingResource.name
    ensures r.roleBindingResource.name in SchemaOf(p, o)
    ensures ClosedClause(SchemaOf(p, o), r.roleBindingResource.name, Along(ROLE_RELATION, action + PERMISSION_SUFFIX))
    ensures ClosedClause(SchemaOf(p, o), r.roleBindingResource.name, Along(SUBJECT_RELATION, ""))
  {
    var typ := r.roleBindingResource.name;
    EmittedFromDocument(p, o, typ, RoleBindingType(r).relationships[0]);
    EmittedFromDocument(p, o, typ, RoleBindingType(r).relationships[1]);
    EmittedFromDocument(p, o, r.roleResource.name, RolePermission(r, action));
    forall t | Declares(SchemaOf(p, o), typ, ROLE_RELATION, t)
      ensures Defined(SchemaOf(p, o), t.name, action + PERMISSION_SUFFIX)
    {
      DeclaresAgree(p, o, typ, ROLE_RELATION, t);
      RoleOfBindingTargets(p, r, o, validPrefix, t);
    }
  }

  ghost predicate SetsClosed(schema: Schema, typ: string, sets: seq<ConditionSet>)
    requires typ in schema
  {
    forall cs, c :: cs in sets && c in cs.conditions ==> ClosedClause(schema, typ, c)
  }

  lemma RoleBindingClauses(r: RBAC, schema: Schema, action: string)
    requires r.roleBindingResource.name in schema
    requires ClosedClause(schema, r.roleBindingResource.name, Along(ROLE_RELATION, action + PERMISSION_SUFFIX))
    requires ClosedClause(schema, r.roleBindingResource.name, Along(SUBJECT_RELATION, ""))
    ensures SetsClosed(schema, r.roleBindingResource.name, RoleBindingBinding(r, action).conditionSets)
  {
  }

  /** The document writes no condition sets of its own, and its two RBAC resources differ. */
  predicate OnlyGeneratedSets(p: PolicyDocument) {
    && (p.rbac.Some? ==> p.rbac.value.roleResource.name != p.rbac.value.roleBindingResource.name)
    && forall b :: b in p.actionBindings ==> b.conditionSets == []
  }

  lemma OnlyRoleBindingsHaveSets(p: PolicyDocument, b: ActionBinding)
    requires HasBinding(p, b) && OnlyGeneratedSets(p) && b.conditionSets != []
    ensures p.rbac.Some? && b.actionName in ActionNames(p) && b == RoleBindingBinding(p.rbac.value, b.actionName)
  {
  }

  /** The generated condition sets are always ready. */
  lemma GeneratedSetsAreReady(p: PolicyDocument, o: Orders, validPrefix: string -> bool, b: ActionBinding)
    requires DocAccepted(p, o, validPrefix) && OnlyGeneratedSets(p) && DistinctRelations(SchemaOf(p, o))
    requires b in CompiledBindings(p, o)
    ensures b.typeName in CompiledTypes(p, o.roleActions)
    ensures SetsReady(CompiledTypes(p, o.roleActions), CompiledBindings(p, o), b)
  {
    AcceptedBindingsHaveTypes(p, o, validPrefix, b);
    if b.conditionSets != [] {
      CompiledBindingsMembers(p, o, b);
      OnlyRoleBindingsHaveSets(p, b);
      RoleBindingSetsClosed(p, p.rbac.value, o, validPrefix, b.actionName);
      RoleBindingClauses(p.rbac.value, SchemaOf(p, o), b.actionName);
      SetsReadyMeansClosed(CompiledTypes(p, o.roleActions), CompiledBindings(p, o), b);
    }
  }

  lemma AcceptedBindingsHaveTypes(p: PolicyDocument, o: Orders, validPrefix: string -> bool, b: ActionBinding)
    requires DocAccepted(p, o, validPrefix) && b in CompiledBindings(p, o)
    ensures b.typeName in CompiledTypes(p, o.roleActions)
  {
    assert BindingAccepted(CompiledTypes(p, o.roleActions), ActionNames(p), CompiledBindings(p, o), b);
  }

  lemma SetsReadyMeansClosed(rt: TypeMap, bn: seq<ActionBinding>, b: ActionBinding)
    requires b.typeName in rt && DistinctRelations(EmittedSchema(rt, bn))
    ensures SetsClosed(EmittedSchema(rt, bn), b.typeName, b.conditionSets) <==> SetsReady(rt, bn, b)
  {
    forall c
      ensures ClosedClause(EmittedSchema(rt, bn), b.typeName, c) <==> ClauseReady(rt, bn, b.typeName, c)
    {
      ClauseReadyMeansClosed(rt, bn, b.typeName, c);
    }
  }

  /** The declared targets of accepted types are closed. */
  lemma AcceptedTargetsClosed(p: PolicyDocument, o: Orders, validPrefix: string -> bool, typ: string,
    rel: Relationship, t: TargetType)
    requires DocAccepted(p, o, validPrefix)
    requires typ in CompiledTypes(p, o.roleActions) && rel in CompiledTypes(p, o.roleActions)[typ].relationships
    requires t in rel.types
    ensures ClosedTarget(SchemaOf(p, o), t)
  {
    var rt, bn := CompiledTypes(p, o.roleActions), CompiledBindings(p, o);
    assert TargetAccepted(rt, bn, t);
    DefinedMeansProvided(rt, bn, t.name, t.subjectRelation);
  }

  ghost predicate EveryConditionClosed(rt: TypeMap, bn: seq<ActionBinding>)
    requires forall b :: b in bn ==> b.typeName in rt
  {
    forall b, c :: b in bn && c in b.conditions ==> ConditionClosed(rt, bn, b, c)
  }

  lemma EmittedTargetsClosed(p: PolicyDocument, o: Orders, validPrefix: string -> bool, typ: string, r: Relationship,
    t: TargetType)
    requires DocAccepted(p, o, validPrefix) && typ in CompiledTypes(p, o.roleActions)
    requires forall b :: b in CompiledBindings(p, o) ==> b.typeName in CompiledTypes(p, o.roleActions)
    requires EveryConditionClosed(CompiledTypes(p, o.roleActions), CompiledBindings(p, o))
    requires r in SchemaOf(p, o)[typ].relationships && t in r.types
    ensures ClosedTarget(SchemaOf(p, o), t)
  {
    var rt, bn := CompiledTypes(p, o.roleActions), CompiledBindings(p, o);
    EmittedRelationshipsMembers(rt[typ], bn, typ, r);
    if r in rt[typ].relationships {
      AcceptedTargetsClosed(p, o, validPrefix, typ, r, t);
    } else {
      var a :| HasV1(bn, typ, a) && r == V1Relation(a);
      var b, c :| b in bn && b.typeName == typ && b.actionName == a && c in b.conditions && c.roleBinding;
      assert ConditionClosed(rt, bn, b, c);
    }
  }

  lemma EmittedActionClosed(rt: TypeMap, bn: seq<ActionBinding>, typ: string, a: Action)
    requires (forall b :: b in bn ==> b.typeName in rt) && EveryConditionClosed(rt, bn)
    requires forall b :: b in bn ==> SetsClosed(EmittedSchema(rt, bn), b.typeName, b.conditionSets)
    requires typ in rt && a in EmittedSchema(rt, bn)[typ].actions
    ensures ClosedAction(EmittedSchema(rt, bn), typ, a)
  {
    EmittedActionsMembers(rt[typ], bn, typ, a);
    if a in EmittedActions(rt[typ], bn, typ) {
      var b :| b in bn && b.typeName == typ && a == CompileBinding(rt[typ], b);
      BoundActionClosed(rt, bn, b);
    } else {
      var b, c :| b in bn && b.typeName == typ && c in b.conditions && TriggersV2(rt[typ], c);
      assert ConditionClosed(rt, bn, b, c);
      var i :| 0 <= i < |ROLE_BINDING_ACTIONS| && RoleBindingActionsFor(InheritsFrom(rt[typ]))[i] == a;
      assert AllClosed(EmittedSchema(rt, bn), typ,
        RoleBindingConditions(ROLE_BINDING_ACTIONS[i], InheritsFrom(rt[typ])));
    }
  }

  lemma ClosedByConditions(p: PolicyDocument, o: Orders, validPrefix: string -> bool)
    requires DocAccepted(p, o, validPrefix)
    requires forall b :: b in CompiledBindings(p, o) ==> b.typeName in CompiledTypes(p, o.roleActions)
    requires EveryConditionClosed(CompiledTypes(p, o.roleActions), CompiledBindings(p, o))
    requires forall b :: b in CompiledBindings(p, o) ==> SetsClosed(SchemaOf(p, o), b.typeName, b.conditionSets)
    ensures Closed(SchemaOf(p, o))
  {
    var schema := SchemaOf(p, o);
    forall typ, r, t | typ in schema && r in schema[typ].relationships && t in r.types
      ensures ClosedTarget(schema, t)
    {
      EmittedTargetsClosed(p, o, validPrefix, typ, r, t);
    }
    forall typ, a | typ in schema && a in schema[typ].actions
      ensures ClosedAction(schema, typ, a)
    {
      EmittedActionClosed(CompiledTypes(p, o.roleActions), CompiledBindings(p, o), typ, a);
    }
  }

  lemma BoundActionClosed(rt: TypeMap, bn: seq<ActionBinding>, b: ActionBinding)
    requires b in bn && b.typeName in rt
    requires forall c :: c in b.conditions ==> ConditionClosed(rt, bn, b, c)
    requires SetsClosed(EmittedSchema(rt, bn), b.typeName, b.conditionSets)
    ensures ClosedAction(EmittedSchema(rt, bn), b.typeName, CompileBinding(rt[b.typeName], b))
  {
    var schema, typ, t := EmittedSchema(rt, bn), b.typeName, rt[b.typeName];
    forall m | m in CompileConditions(t, b.actionName, b.conditions)
      ensures ClosedClause(schema, typ, m)
    {
      CompileConditionsMembers(t, b.actionName, b.conditions, m);
      var c :| c in b.conditions && m in CompileCondition(t, b.actionName, c);
      assert ConditionClosed(rt, bn, b, c);
    }
  }

  lemma SetsOfClosed(rt: TypeMap, bn: seq<ActionBinding>, b: ActionBinding)
    requires b in bn && b.typeName in rt && Closed(EmittedSchema(rt, bn))
    ensures SetsClosed(EmittedSchema(rt, bn), b.typeName, b.conditionSets)
  {
    var a := CompileBinding(rt[b.typeName], b);
    EmittedActionsMembers(rt[b.typeName], bn, b.typeName, a);
    assert ClosedAction(EmittedSchema(rt, bn), b.typeName, a);
  }

  lemma ConditionsOfClosed(rt: TypeMap, bn: seq<ActionBinding>, b: ActionBinding, c: Condition)
    requires b in bn && b.typeName in rt && c in b.conditions && Closed(EmittedSchema(rt, bn))
    ensures ConditionClosed(rt, bn, b, c)
  {
    var schema, typ, t := EmittedSchema(rt, bn), b.typeName, rt[b.typeName];
    var a := CompileBinding(t, b);
    EmittedActionsMembers(t, bn, typ, a);
    assert ClosedAction(schema, typ, a);
    forall m | m in CompileCondition(t, b.actionName, c)
      ensures ClosedClause(schema, typ, m)
    {
      CompileConditionsMembers(t, b.actionName, b.conditions, m);
    }
    if c.roleBinding {
      assert HasV1(bn, typ, b.actionName);
      EmittedRelationshipsMembers(t, bn, typ, V1Relation(b.actionName));
      assert V1Relation(b.actionName).types[0] in V1Relation(b.actionName).types;
    }
    if TriggersV2(t, c) {
      assert UsesV2(t, bn, typ);
      forall name | name in ROLE_BINDING_ACTIONS
        ensures AllClosed(schema, typ, RoleBindingConditions(name, InheritsFrom(t)))
      {
        var i :| 0 <= i < |ROLE_BINDING_ACTIONS| && ROLE_BINDING_ACTIONS[i] == name;
        var g := RoleBindingActionsFor(InheritsFrom(t))[i];
        assert g in schema[typ].actions;
        assert ClosedAction(schema, typ, g);
      }
    }
  }

  /** With distinct relation names per type, the schema of an accepted policy is closed exactly
      when the compiled tables provide what the generated clauses and the condition sets name. */
  lemma AcceptedSchemaIsClosedIffReady(p: PolicyDocument, o: Orders, validPrefix: string -> bool)
    requires DocAccepted(p, o, validPrefix) && DistinctRelations(SchemaOf(p, o))
    ensures forall b :: b in CompiledBindings(p, o) ==> b.typeName in CompiledTypes(p, o.roleActions)
    ensures Closed(SchemaOf(p, o)) <==> Ready(CompiledTypes(p, o.roleActions), CompiledBindings(p, o))
  {
    var schema, rt, bn := SchemaOf(p, o), CompiledTypes(p, o.roleActions), CompiledBindings(p, o);
    forall b | b in bn
      ensures b.typeName in rt
      ensures SetsClosed(schema, b.typeName, b.conditionSets) <==> SetsReady(rt, bn, b)
    {
      AcceptedBindingsHaveTypes(p, o, validPrefix, b);
      SetsReadyMeansClosed(rt, bn, b);
    }
    forall b, c | b in bn && c in b.conditions
      ensures ConditionClosed(rt, bn, b, c) <==> ConditionReady(rt, bn, b, c)
    {
      ConditionReadyMeansClosed(p, o, validPrefix, b, c);
    }
    if Closed(schema) {
      PartsOfClosed(rt, bn);
    }
    if Ready(rt, bn) {
      ClosedByConditions(p, o, validPrefix);
    }
  }

  lemma PartsOfClosed(rt: TypeMap, bn: seq<ActionBinding>)
    requires (forall b :: b in bn ==> b.typeName in rt) && Closed(EmittedSchema(rt, bn))
    ensures EveryConditionClosed(rt, bn)
    ensures forall b :: b in bn ==> SetsClosed(EmittedSchema(rt, bn), b.typeName, b.conditionSets)
  {
    forall b, c | b in bn && c in b.conditions
      ensures ConditionClosed(rt, bn, b, c)
    {
      ConditionsOfClosed(rt, bn, b, c);
    }
    forall b | b in bn
      ensures SetsClosed(EmittedSchema(rt, bn), b.typeName, b.conditionSets)
    {
      SetsOfClosed(rt, bn, b);
    }
  }

  // ---------- acceptance makes Schema total ----------

  /** Compile, validate, emit: an accepted policy meets the requirements of Schema. */
  method CompilePolicy(p: PolicyDocument, validPrefix: string -> bool)
    returns (result: Option<seq<Definition>>, ghost o: Orders)
    ensures ValidOrders(p, o)
    ensures result.Some? <==> DocAccepted(p, o, validPrefix)
    ensures result.Some? ==> |result.value| == |TypeNames(p)|
    ensures result.Some? ==> forall d :: d in result.value <==> d.name in SchemaOf(p, o) && d == SchemaOf(p, o)[d.name]
    ensures result.Some? ==> forall d :: d in result.value ==> PrefixIs(p, d.name, d.idPrefix)
  {
    var policy := new P.Policy(p);
    o := policy.orders;
    CompiledTypesNames(p, o.roleActions);
    var err := policy.Validate(validPrefix);
    if err.Some? {
      return None, o;
    }
    forall b | b in policy.bn
      ensures b.typeName in policy.rt
    {
      assert BindingAccepted(policy.rt, policy.ac, policy.bn, b);
    }
    var out := policy.Schema();
    assert |policy.rt| == |policy.rt.Keys|;
    forall d | d in out
      ensures PrefixIs(p, d.name, d.idPrefix)
    {
      PrefixOfDefinition(p, o, d.name);
    }
    result := Some(out);
  }
}
