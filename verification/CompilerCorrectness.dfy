/** The compiled schema means what the document means. */
module CompilerCorrectness {
  import opened Types
  import opened Rbac
  import opened Iapl
  import opened PolicyTables
  import opened Permissions
  import opened PolicyMeaning

  // ---------- the tables agree ----------

  lemma UsesV2OfDocument(p: PolicyDocument, o: Orders, typ: string)
    requires ValidOrders(p, o) && UnionsAccepted(p, CompiledTypes(p, o.roleActions))
    requires typ in TypeNames(p)
    ensures typ in CompiledTypes(p, o.roleActions)
    ensures UsesV2(CompiledTypes(p, o.roleActions)[typ], CompiledBindings(p, o), typ) <==> DocUsesV2(p, typ)
  {
    CompiledTypesNames(p, o.roleActions);
    var t, bn := CompiledTypes(p, o.roleActions)[typ], CompiledBindings(p, o);
    if UsesV2(t, bn, typ) {
      var b, c :| b in bn && b.typeName == typ && c in b.conditions && TriggersV2(t, c);
      CompiledBindingsMembers(p, o, b);
      GeneratedConditions(p, b, c);
      var d :| d in p.actionBindings && b in ExpandBinding(UnionTable(p.unions), d);
      assert b == d.(typeName := typ);
      BindingOfDocument(p, o, d, b, typ);
    }
    if DocUsesV2(p, typ) {
      var d, c :| BindsTo(p, d, typ) && c in d.conditions && !c.roleBinding && c.roleBindingV2;
      var b := d.(typeName := typ);
      BindingOfDocument(p, o, d, b, typ);
      CompiledBindingsMembers(p, o, b);
      assert TriggersV2(t, c);
    }
  }

  lemma BoundTypesAreNamed(p: PolicyDocument, o: Orders, validPrefix: string -> bool, d: ActionBinding, typ: string)
    requires DocAccepted(p, o, validPrefix) && BindsTo(p, d, typ)
    ensures typ in TypeNames(p)
  {
    CompiledTypesNames(p, o.roleActions);
    var b := d.(typeName := typ);
    BindingOfDocument(p, o, d, b, typ);
    CompiledBindingsMembers(p, o, b);
    assert BindingAccepted(CompiledTypes(p, o.roleActions), ActionNames(p), CompiledBindings(p, o), b);
  }

  /** Types the document is silent about hold nothing, on either side. */
  lemma OnlyNamedTypes(p: PolicyDocument, o: Orders, validPrefix: string -> bool, typ: string)
    requires DocAccepted(p, o, validPrefix) && typ !in TypeNames(p)
    ensures typ !in SchemaOf(p, o)
    ensures forall d :: !BindsTo(p, d, typ)
    ensures forall relation, t :: !DocDeclares(p, typ, relation, t)
  {
    CompiledTypesNames(p, o.roleActions);
    forall d
      ensures !BindsTo(p, d, typ)
    {
      if BindsTo(p, d, typ) {
        BoundTypesAreNamed(p, o, validPrefix, d, typ);
      }
    }
    NothingDeclaredElsewhere(p, typ);
  }

  lemma NothingDeclaredElsewhere(p: PolicyDocument, typ: string)
    requires typ !in TypeNames(p) && forall d :: !BindsTo(p, d, typ)
    ensures forall relation, t :: !DocDeclares(p, typ, relation, t)
  {
  }

  lemma StoredAgree(p: PolicyDocument, o: Orders, validPrefix: string -> bool, g: Graph, x: Object, relation: string,
    held: Subject)
    requires DocAccepted(p, o, validPrefix)
    ensures Stored(SchemaOf(p, o), g, x, relation, held) <==> DocStored(p, g, x, relation, held)
  {
    if x.typ in TypeNames(p) {
      forall t
        ensures Declares(SchemaOf(p, o), x.typ, relation, t) <==> DocDeclares(p, x.typ, relation, t)
      {
        DeclaresAgree(p, o, x.typ, relation, t);
      }
    } else {
      OnlyNamedTypes(p, o, validPrefix, x.typ);
    }
  }

  // ---------- one level of derivation agrees ----------

  ghost predicate AgreeAt(p: PolicyDocument, o: Orders, g: Graph, n: nat, s: Subject)
    requires ValidOrders(p, o)
  {
    forall x, name :: DocHolds(p, g, n, x, name, s) <==> Holds(SchemaOf(p, o), g, n, x, name, s)
  }

  lemma AlongAgree(p: PolicyDocument, o: Orders, validPrefix: string -> bool, g: Graph, n: nat, x: Object,
    relation: string, name: string, s: Subject)
    requires DocAccepted(p, o, validPrefix) && AgreeAt(p, o, g, n, s) && name != ""
    ensures ConditionHolds(SchemaOf(p, o), g, n, x, Along(relation, name), s) <==>
      DocAlong(p, g, n, x, relation, name, s)
  {
    forall held
      ensures Stored(SchemaOf(p, o), g, x, relation, held) <==> DocStored(p, g, x, relation, held)
    {
      StoredAgree(p, o, validPrefix, g, x, relation, held);
    }
    if held :| Stored(SchemaOf(p, o), g, x, relation, held) && Holds(SchemaOf(p, o), g, n, held.obj, name, s) {
      assert DocHolds(p, g, n, held.obj, name, s);
    }
    if held :| DocStored(p, g, x, relation, held) && DocHolds(p, g, n, held.obj, name, s) {
      assert Holds(SchemaOf(p, o), g, n, held.obj, name, s);
    }
  }

  lemma ClauseAgrees(p: PolicyDocument, o: Orders, validPrefix: string -> bool, g: Graph, n: nat, x: Object,
    c: Condition, s: Subject)
    requires DocAccepted(p, o, validPrefix) && AgreeAt(p, o, g, n, s)
    ensures ConditionHolds(SchemaOf(p, o), g, n, x, c, s) <==> DocClauseHolds(p, g, n, x, c.relationshipAction, s)
  {
    match c.relationshipAction
    case None =>
    case Some(ra) =>
      if ra.actionName != "" {
        AlongAgree(p, o, validPrefix, g, n, x, ra.relation, ra.actionName, s);
        assert ConditionHolds(SchemaOf(p, o), g, n, x, c, s) <==>
          ConditionHolds(SchemaOf(p, o), g, n, x, Along(ra.relation, ra.actionName), s);
      } else {
        assert DocHolds(p, g, n, x, ra.relation, s) <==> Holds(SchemaOf(p, o), g, n, x, ra.relation, s);
      }
  }

  lemma AnyAgrees(p: PolicyDocument, o: Orders, validPrefix: string -> bool, g: Graph, n: nat, x: Object,
    cs: seq<Condition>, s: Subject)
    requires DocAccepted(p, o, validPrefix) && AgreeAt(p, o, g, n, s)
    ensures AnyHolds(SchemaOf(p, o), g, n, x, cs, s) <==> DocAny(p, g, n, x, cs, s)
  {
    forall c
      ensures ConditionHolds(SchemaOf(p, o), g, n, x, c, s) <==> DocClauseHolds(p, g, n, x, c.relationshipAction, s)
    {
      ClauseAgrees(p, o, validPrefix, g, n, x, c, s);
    }
  }

  lemma AnyOfInherited(p: PolicyDocument, g: Graph, n: nat, x: Object, name: string, from: seq<string>, s: Subject)
    requires name != ""
    ensures DocAny(p, g, n, x, seq(|from|, i requires 0 <= i < |from| => Along(from[i], name)), s) <==>
      exists f :: f in from && DocAlong(p, g, n, x, f, name, s)
  {
    var cs := seq(|from|, i requires 0 <= i < |from| => Along(from[i], name));
    if c :| c in cs && DocClauseHolds(p, g, n, x, c.relationshipAction, s) {
      var i :| 0 <= i < |cs| && cs[i] == c;
      assert from[i] in from;
    }
    if f :| f in from && DocAlong(p, g, n, x, f, name, s) {
      var i :| 0 <= i < |from| && from[i] == f;
      assert cs[i] in cs;
    }
  }

  lemma AnyOfBoth(p: PolicyDocument, g: Graph, n: nat, x: Object, cs: seq<Condition>, ds: seq<Condition>, s: Subject)
    ensures DocAny(p, g, n, x, cs + ds, s) <==> DocAny(p, g, n, x, cs, s) || DocAny(p, g, n, x, ds, s)
  {
  }

  lemma AnyOfOne(p: PolicyDocument, g: Graph, n: nat, x: Object, c: Condition, s: Subject)
    ensures DocAny(p, g, n, x, [c], s) <==> DocClauseHolds(p, g, n, x, c.relationshipAction, s)
  {
    assert c in [c];
  }

  lemma RoleBindingConditionsAgree(p: PolicyDocument, o: Orders, validPrefix: string -> bool, g: Graph, n: nat,
    x: Object, action: string, from: seq<string>, s: Subject)
    requires DocAccepted(p, o, validPrefix) && AgreeAt(p, o, g, n, s) && action != ""
    ensures AnyHolds(SchemaOf(p, o), g, n, x, RoleBindingConditions(action, from), s) <==>
      GrantedOrInherited(p, g, n, x, action, from, s)
  {
    AnyAgrees(p, o, validPrefix, g, n, x, RoleBindingConditions(action, from), s);
    AnyOfBoth(p, g, n, x, [GrantCondition(action)], seq(|from|, i requires 0 <= i < |from| => Along(from[i], action)),
      s);
    AnyOfOne(p, g, n, x, GrantCondition(action), s);
    AnyOfInherited(p, g, n, x, action, from, s);
  }

  lemma ConditionAgrees(p: PolicyDocument, o: Orders, validPrefix: string -> bool, g: Graph, n: nat, x: Object,
    action: string, c: Condition, s: Subject)
    requires DocAccepted(p, o, validPrefix) && AgreeAt(p, o, g, n, s) && action != ""
    requires x.typ in CompiledTypes(p, o.roleActions)
    ensures var t := CompiledTypes(p, o.roleActions)[x.typ];
      AnyHolds(SchemaOf(p, o), g, n, x, CompileCondition(t, action, c), s) <==>
      DocConditionHolds(p, g, n, x, action, c, s)
  {
    CompiledTypesNames(p, o.roleActions);
    var schema := SchemaOf(p, o);
    var t := CompiledTypes(p, o.roleActions)[x.typ];
    var cs := CompileCondition(t, action, c);
    if c.roleBinding {
      assert cs[0] in cs;
      assert DocHolds(p, g, n, x, action + PERMISSION_SUFFIX, s) <==>
        Holds(schema, g, n, x, action + PERMISSION_SUFFIX, s);
    } else if c.roleBindingV2 && t.roleBindingV2.Some? {
      RoleBindingConditionsAgree(p, o, validPrefix, g, n, x, action,
        if t.roleBindingV2.value.inheritAllActions then InheritsFrom(t) else [], s);
    } else {
      assert cs[0] in cs;
      ClauseAgrees(p, o, validPrefix, g, n, x, cs[0], s);
    }
  }

  lemma ConditionsAgree(p: PolicyDocument, o: Orders, validPrefix: string -> bool, g: Graph, n: nat, x: Object,
    action: string, cs: seq<Condition>, s: Subject)
    requires DocAccepted(p, o, validPrefix) && AgreeAt(p, o, g, n, s) && action != ""
    requires x.typ in CompiledTypes(p, o.roleActions)
    ensures var t := CompiledTypes(p, o.roleActions)[x.typ];
      AnyHolds(SchemaOf(p, o), g, n, x, CompileConditions(t, action, cs), s) <==>
      exists c :: c in cs && DocConditionHolds(p, g, n, x, action, c, s)
  {
    var schema := SchemaOf(p, o);
    var t := CompiledTypes(p, o.roleActions)[x.typ];
    if AnyHolds(schema, g, n, x, CompileConditions(t, action, cs), s) {
      var m :| m in CompileConditions(t, action, cs) && ConditionHolds(schema, g, n, x, m, s);
      CompileConditionsMembers(t, action, cs, m);
      var c :| c in cs && m in CompileCondition(t, action, c);
      ConditionAgrees(p, o, validPrefix, g, n, x, action, c, s);
    }
    if c :| c in cs && DocConditionHolds(p, g, n, x, action, c, s) {
      ConditionAgrees(p, o, validPrefix, g, n, x, action, c, s);
      var m :| m in CompileCondition(t, action, c) && ConditionHolds(schema, g, n, x, m, s);
      CompileConditionsMembers(t, action, cs, m);
    }
  }

  lemma BindingAgrees(p: PolicyDocument, o: Orders, validPrefix: string -> bool, g: Graph, n: nat, x: Object,
    b: ActionBinding, s: Subject)
    requires DocAccepted(p, o, validPrefix) && AgreeAt(p, o, g, n, s) && b.actionName != ""
    requires x.typ in CompiledTypes(p, o.roleActions)
    ensures ActionHolds(SchemaOf(p, o), g, n, x, CompileBinding(CompiledTypes(p, o.roleActions)[x.typ], b), s) <==>
      DocBindingHolds(p, g, n, x, b, s)
  {
    var schema := SchemaOf(p, o);
    var t := CompiledTypes(p, o.roleActions)[x.typ];
    CompileConditionsEmpty(t, b.actionName, b.conditions);
    if b.conditions != [] {
      ConditionsAgree(p, o, validPrefix, g, n, x, b.actionName, b.conditions, s);
    } else {
      forall i | 0 <= i < |b.conditionSets|
        ensures AnyHolds(schema, g, n, x, b.conditionSets[i].conditions, s) <==>
          DocAny(p, g, n, x, b.conditionSets[i].conditions, s)
      {
        AnyAgrees(p, o, validPrefix, g, n, x, b.conditionSets[i].conditions, s);
      }
    }
  }

  // ---------- the generated bindings mean what the document's rules say ----------

  lemma RoleBindingBindingMeans(p: PolicyDocument, r: RBAC, g: Graph, n: nat, x: Object, action: string, s: Subject)
    requires p.rbac == Some(r) && action in ActionNames(p) && x.typ == r.roleBindingResource.name
    ensures DocBindingHolds(p, g, n, x, RoleBindingBinding(r, action), s) <==> OnRoleBinding(p, r, g, n, x, action, s)
  {
    var sets := RoleBindingBinding(r, action).conditionSets;
    assert |action + PERMISSION_SUFFIX| > 0;
    AnyOfOne(p, g, n, x, Along(ROLE_RELATION, action + PERMISSION_SUFFIX), s);
    AnyOfOne(p, g, n, x, Along(SUBJECT_RELATION, ""), s);
    assert DocBindingHolds(p, g, n, x, RoleBindingBinding(r, action), s) <==>
      DocAny(p, g, n, x, sets[0].conditions, s) && DocAny(p, g, n, x, sets[1].conditions, s);
  }

  lemma AvailableBindingMeans(p: PolicyDocument, r: RBAC, g: Graph, n: nat, x: Object, b: ActionBinding, s: Subject)
    requires p.rbac == Some(r) && x.typ in TypeNames(p) && b in AvailableBindingOf(p, r, x.typ)
    ensures DocBindingHolds(p, g, n, x, b, s) <==> RoleAvailable(p, r, g, n, x, s)
  {
    var from := InheritsOf(p, x.typ);
    var own := if x.typ in r.roleOwners then [Along(MEMBER_ROLE_RELATION, "")] else [];
    var inherited := seq(|from|, i requires 0 <= i < |from| => Along(from[i], AVAILABLE_ROLES));
    var cs := AvailableConditionsOf(p, r, x.typ);
    forall c | c in cs
      ensures DocConditionHolds(p, g, n, x, AVAILABLE_ROLES, c, s) <==>
        DocClauseHolds(p, g, n, x, c.relationshipAction, s)
    {
    }
    assert DocBindingHolds(p, g, n, x, b, s) <==> DocAny(p, g, n, x, cs, s);
    AnyOfBoth(p, g, n, x, own, inherited, s);
    AnyOfInherited(p, g, n, x, AVAILABLE_ROLES, from, s);
    assert cs == own + inherited;
    assert DocAny(p, g, n, x, own, s) <==> x.typ in r.roleOwners && DocHolds(p, g, n, x, MEMBER_ROLE_RELATION, s) by {
      AnyOfOne(p, g, n, x, Along(MEMBER_ROLE_RELATION, ""), s);
    }
  }

  // ---------- the actions of a type agree ----------

  ghost predicate SchemaAllows(schema: Schema, g: Graph, n: nat, x: Object, name: string, s: Subject) {
    exists a :: HasAction(schema, x.typ, a) && a.name == name && ActionHolds(schema, g, n, x, a, s)
  }

  ghost predicate DocAllows(p: PolicyDocument, g: Graph, n: nat, x: Object, name: string, s: Subject) {
    || (exists d :: BindsTo(p, d, x.typ) && d.actionName == name && DocBindingHolds(p, g, n, x, d, s))
    || (p.rbac.Some? && OnRoleBinding(p, p.rbac.value, g, n, x, name, s))
    || (p.rbac.Some? && name == AVAILABLE_ROLES && RoleAvailable(p, p.rbac.value, g, n, x, s))
    || (name in ROLE_BINDING_ACTIONS && DocUsesV2(p, x.typ) &&
         GrantedOrInherited(p, g, n, x, name, InheritsOf(p, x.typ), s))
  }

  lemma HasActionOfBindings(p: PolicyDocument, o: Orders, typ: string, a: Action)
    requires ValidOrders(p, o) && UnionsAccepted(p, CompiledTypes(p, o.roleActions)) && typ in TypeNames(p)
    ensures typ in CompiledTypes(p, o.roleActions)
    ensures HasAction(SchemaOf(p, o), typ, a) <==>
      || (exists b :: HasBinding(p, b) && b.typeName == typ &&
           a == CompileBinding(CompiledTypes(p, o.roleActions)[typ], b))
      || (DocUsesV2(p, typ) && a in RoleBindingActionsFor(InheritsOf(p, typ)))
  {
    CompiledTypesNames(p, o.roleActions);
    var t, bn := CompiledTypes(p, o.roleActions)[typ], CompiledBindings(p, o);
    UsesV2OfDocument(p, o, typ);
    EmittedActionsMembers(t, bn, typ, a);
    forall b
      ensures b in bn <==> HasBinding(p, b)
    {
      CompiledBindingsMembers(p, o, b);
    }
  }

  // ---------- marks of role bindings ----------

  lemma MarksOfCondition(t: ResourceType, action: string, c: Condition)
    ensures (exists m :: m in CompileCondition(t, action, c) && m.roleBinding) <==> c.roleBinding
    ensures (exists m :: m in CompileCondition(t, action, c) && m.roleBindingV2) <==> TriggersV2(t, c)
  {
    if c.roleBinding {
      assert CompileCondition(t, action, c)[0].roleBinding;
    } else if TriggersV2(t, c) {
      assert CompileCondition(t, action, c)[0].roleBindingV2;
    }
  }

  /** A binding of the document with a role-binding condition, from the compiled one. */
  lemma OriginOfMark(p: PolicyDocument, o: Orders, b: ActionBinding, c: Condition) returns (d: ActionBinding)
    requires ValidOrders(p, o) && UnionsAccepted(p, CompiledTypes(p, o.roleActions))
    requires HasBinding(p, b) && c in b.conditions && (c.roleBinding || c.roleBindingV2)
    ensures BindsTo(p, d, b.typeName) && c in d.conditions && d.actionName == b.actionName
  {
    GeneratedConditions(p, b, c);
    d :| d in p.actionBindings && b in ExpandBinding(UnionTable(p.unions), d);
    assert b == d.(typeName := b.typeName);
    BindingOfDocument(p, o, d, b, b.typeName);
  }

  lemma MarkOfBinding(p: PolicyDocument, o: Orders, t: ResourceType, b: ActionBinding, m: Condition)
    requires ValidOrders(p, o) && UnionsAccepted(p, CompiledTypes(p, o.roleActions))
    requires HasBinding(p, b) && t.roleBindingV2 == V2Of(p, b.typeName)
    requires m in CompileConditions(t, b.actionName, b.conditions)
    ensures m.roleBinding ==>
      exists d, c :: BindsTo(p, d, b.typeName) && d.actionName == b.actionName && c in d.conditions && c.roleBinding
    ensures m.roleBindingV2 ==> DocUsesV2(p, b.typeName)
  {
    CompileConditionsMembers(t, b.actionName, b.conditions, m);
    var c :| c in b.conditions && m in CompileCondition(t, b.actionName, c);
    MarksOfCondition(t, b.actionName, c);
    if m.roleBinding || m.roleBindingV2 {
      var d := OriginOfMark(p, o, b, c);
    }
  }

  lemma ManagementMarks(from: seq<string>, a: Action, m: Condition)
    requires a in RoleBindingActionsFor(from) && m in a.conditions
    ensures !m.roleBinding
  {
  }

  lemma MarkedByDocument(p: PolicyDocument, o: Orders, typ: string, a: Action, m: Condition)
    requires ValidOrders(p, o) && UnionsAccepted(p, CompiledTypes(p, o.roleActions)) && typ in TypeNames(p)
    requires HasAction(SchemaOf(p, o), typ, a) && m in a.conditions
    ensures m.roleBinding ==>
      exists d, c :: BindsTo(p, d, typ) && d.actionName == a.name && c in d.conditions && c.roleBinding
    ensures m.roleBindingV2 ==> DocUsesV2(p, typ)
  {
    HasActionOfBindings(p, o, typ, a);
    CompiledTypesNames(p, o.roleActions);
    var t := CompiledTypes(p, o.roleActions)[typ];
    if b :| HasBinding(p, b) && b.typeName == typ && a == CompileBinding(t, b) {
      MarkOfBinding(p, o, t, b, m);
    } else {
      ManagementMarks(InheritsOf(p, typ), a, m);
    }
  }

  lemma MarkedInSchema(p: PolicyDocument, o: Orders, typ: string, d: ActionBinding, c: Condition)
    requires ValidOrders(p, o) && UnionsAccepted(p, CompiledTypes(p, o.roleActions)) && typ in TypeNames(p)
    requires BindsTo(p, d, typ) && c in d.conditions
    ensures c.roleBinding ==>
      exists a, m :: HasAction(SchemaOf(p, o), typ, a) && a.name == d.actionName && m in a.conditions && m.roleBinding
    ensures !c.roleBinding && c.roleBindingV2 && V2Of(p, typ).Some? ==>
      exists a, m :: HasAction(SchemaOf(p, o), typ, a) && m in a.conditions && m.roleBindingV2
  {
    CompiledTypesNames(p, o.roleActions);
    var t, b := CompiledTypes(p, o.roleActions)[typ], d.(typeName := typ);
    BindingOfDocument(p, o, d, b, typ);
    HasActionOfBindings(p, o, typ, CompileBinding(t, b));
    MarksOfCondition(t, b.actionName, c);
    if c.roleBinding {
      var m :| m in CompileCondition(t, b.actionName, c) && m.roleBinding;
      CompileConditionsMembers(t, b.actionName, b.conditions, m);
    } else if TriggersV2(t, c) {
      var m :| m in CompileCondition(t, b.actionName, c) && m.roleBindingV2;
      CompileConditionsMembers(t, b.actionName, b.conditions, m);
    }
  }

  /** The emitted conditions are marked as role bindings, V1 and V2, on exactly the types where
      the document has such conditions that take effect. */
  lemma MarksAgree(p: PolicyDocument, o: Orders, typ: string)
    requires ValidOrders(p, o) && UnionsAccepted(p, CompiledTypes(p, o.roleActions)) && typ in TypeNames(p)
    ensures (exists a, m :: HasAction(SchemaOf(p, o), typ, a) && m in a.conditions && m.roleBinding) <==>
      exists d, c :: BindsTo(p, d, typ) && c in d.conditions && c.roleBinding
    ensures (exists a, m :: HasAction(SchemaOf(p, o), typ, a) && m in a.conditions && m.roleBindingV2) <==>
      DocUsesV2(p, typ)
  {
    forall a, m | HasAction(SchemaOf(p, o), typ, a) && m in a.conditions
      ensures m.roleBinding ==> exists d, c :: BindsTo(p, d, typ) && c in d.conditions && c.roleBinding
      ensures m.roleBindingV2 ==> DocUsesV2(p, typ)
    {
      MarkedByDocument(p, o, typ, a, m);
    }
    if d, c :| BindsTo(p, d, typ) && c in d.conditions && c.roleBinding {
      MarkedInSchema(p, o, typ, d, c);
    }
    if DocUsesV2(p, typ) {
      var d, c :| BindsTo(p, d, typ) && c in d.conditions && !c.roleBinding && c.roleBindingV2;
      MarkedInSchema(p, o, typ, d, c);
    }
  }

  lemma BindingMeansDocument(p: PolicyDocument, o: Orders, g: Graph, n: nat, x: Object, b: ActionBinding, s: Subject)
    requires ValidOrders(p, o) && UnionsAccepted(p, CompiledTypes(p, o.roleActions))
    requires HasBinding(p, b) && b.typeName == x.typ && DocBindingHolds(p, g, n, x, b, s)
    ensures DocAllows(p, g, n, x, b.actionName, s)
  {
    if d :| d in p.actionBindings && b in ExpandBinding(UnionTable(p.unions), d) {
      assert b == d.(typeName := x.typ);
      BindingOfDocument(p, o, d, b, x.typ);
      SameConditions(p, g, n, x, d, b, s);
    } else if p.rbac.Some? && exists a :: a in ActionNames(p) && b == RoleBindingBinding(p.rbac.value, a) {
      RoleBindingBindingMeans(p, p.rbac.value, g, n, x, b.actionName, s);
    } else {
      var m :| m in TypeNames(p) && b in AvailableBindingOf(p, p.rbac.value, m);
      AvailableBindingMeans(p, p.rbac.value, g, n, x, b, s);
    }
  }

  lemma BoundActionAgrees(p: PolicyDocument, o: Orders, validPrefix: string -> bool, g: Graph, n: nat, x: Object,
    b: ActionBinding, s: Subject)
    requires DocAccepted(p, o, validPrefix) && AgreeAt(p, o, g, n, s)
    requires HasBinding(p, b) && b.typeName == x.typ
    ensures x.typ in CompiledTypes(p, o.roleActions)
    ensures ActionHolds(SchemaOf(p, o), g, n, x, CompileBinding(CompiledTypes(p, o.roleActions)[x.typ], b), s) <==>
      DocBindingHolds(p, g, n, x, b, s)
  {
    CompiledBindingsMembers(p, o, b);
    assert BindingAccepted(CompiledTypes(p, o.roleActions), ActionNames(p), CompiledBindings(p, o), b);
    BindingAgrees(p, o, validPrefix, g, n, x, b, s);
  }

  lemma SameConditions(p: PolicyDocument, g: Graph, n: nat, x: Object, d: ActionBinding, b: ActionBinding, s: Subject)
    requires b == d.(typeName := b.typeName)
    ensures DocBindingHolds(p, g, n, x, d, s) <==> DocBindingHolds(p, g, n, x, b, s)
  {
  }

  lemma GeneratedActionAgrees(p: PolicyDocument, o: Orders, validPrefix: string -> bool, g: Graph, n: nat, x: Object,
    i: nat, s: Subject)
    requires DocAccepted(p, o, validPrefix) && AgreeAt(p, o, g, n, s) && i < |ROLE_BINDING_ACTIONS|
    ensures
      var from := InheritsOf(p, x.typ);
      ActionHolds(SchemaOf(p, o), g, n, x, RoleBindingActionsFor(from)[i], s) <==>
        GrantedOrInherited(p, g, n, x, ROLE_BINDING_ACTIONS[i], from, s)
  {
    assert ROLE_BINDING_ACTIONS[i] != "" by {
      assert |ROLE_BINDING_ACTIONS[i]| > 0;
    }
    RoleBindingConditionsAgree(p, o, validPrefix, g, n, x, ROLE_BINDING_ACTIONS[i], InheritsOf(p, x.typ), s);
  }

  lemma SchemaAllowsOnlyWhatTheDocumentDoes(p: PolicyDocument, o: Orders, validPrefix: string -> bool, g: Graph,
    n: nat, x: Object, name: string, s: Subject)
    requires DocAccepted(p, o, validPrefix) && AgreeAt(p, o, g, n, s)
    requires SchemaAllows(SchemaOf(p, o), g, n, x, name, s)
    ensures DocAllows(p, g, n, x, name, s)
  {
    var schema := SchemaOf(p, o);
    var a :| HasAction(schema, x.typ, a) && a.name == name && ActionHolds(schema, g, n, x, a, s);
    CompiledTypesNames(p, o.roleActions);
    HasActionOfBindings(p, o, x.typ, a);
    if b :| HasBinding(p, b) && b.typeName == x.typ && a == CompileBinding(CompiledTypes(p, o.roleActions)[x.typ], b) {
      BoundActionAgrees(p, o, validPrefix, g, n, x, b, s);
      BindingMeansDocument(p, o, g, n, x, b, s);
    } else {
      var i :| 0 <= i < |ROLE_BINDING_ACTIONS| && a == RoleBindingActionsFor(InheritsOf(p, x.typ))[i];
      GeneratedActionAgrees(p, o, validPrefix, g, n, x, i, s);
    }
  }

  /** A binding of the compiled policy allows what it means. */
  lemma BindingAllows(p: PolicyDocument, o: Orders, validPrefix: string -> bool, g: Graph, n: nat, x: Object,
    b: ActionBinding, s: Subject)
    requires DocAccepted(p, o, validPrefix) && AgreeAt(p, o, g, n, s)
    requires HasBinding(p, b) && b.typeName == x.typ && DocBindingHolds(p, g, n, x, b, s)
    ensures SchemaAllows(SchemaOf(p, o), g, n, x, b.actionName, s)
  {
    BoundActionAgrees(p, o, validPrefix, g, n, x, b, s);
    CompiledTypesNames(p, o.roleActions);
    HasActionOfBindings(p, o, x.typ, CompileBinding(CompiledTypes(p, o.roleActions)[x.typ], b));
  }

  lemma DocumentAllowsOnlyWhatTheSchemaDoes(p: PolicyDocument, o: Orders, validPrefix: string -> bool, g: Graph,
    n: nat, x: Object, name: string, s: Subject)
    requires DocAccepted(p, o, validPrefix) && AgreeAt(p, o, g, n, s)
    requires DocAllows(p, g, n, x, name, s)
    ensures SchemaAllows(SchemaOf(p, o), g, n, x, name, s)
  {
    if d :| BindsTo(p, d, x.typ) && d.actionName == name && DocBindingHolds(p, g, n, x, d, s) {
      var b := d.(typeName := x.typ);
      BindingOfDocument(p, o, d, b, x.typ);
      SameConditions(p, g, n, x, d, b, s);
      BindingAllows(p, o, validPrefix, g, n, x, b, s);
    } else if p.rbac.Some? && OnRoleBinding(p, p.rbac.value, g, n, x, name, s) {
      RoleBindingBindingMeans(p, p.rbac.value, g, n, x, name, s);
      BindingAllows(p, o, validPrefix, g, n, x, RoleBindingBinding(p.rbac.value, name), s);
    } else if p.rbac.Some? && name == AVAILABLE_ROLES && RoleAvailable(p, p.rbac.value, g, n, x, s) {
      var b := ActionBinding(AVAILABLE_ROLES, x.typ, AvailableConditionsOf(p, p.rbac.value, x.typ), []);
      assert b in AvailableBindingOf(p, p.rbac.value, x.typ);
      AvailableBindingMeans(p, p.rbac.value, g, n, x, b, s);
      BindingAllows(p, o, validPrefix, g, n, x, b, s);
    } else {
      var i :| 0 <= i < |ROLE_BINDING_ACTIONS| && ROLE_BINDING_ACTIONS[i] == name;
      if x.typ !in TypeNames(p) {
        OnlyNamedTypes(p, o, validPrefix, x.typ);
      }
      GeneratedActionAgrees(p, o, validPrefix, g, n, x, i, s);
      var a := RoleBindingActionsFor(InheritsOf(p, x.typ))[i];
      HasActionOfBindings(p, o, x.typ, a);
    }
  }

  // ---------- the theorem ----------

  /** For every graph, depth, object and subject: the compiled schema grants exactly
      what the document does. */
  lemma {:induction false} CompilerPreservesMeaning(p: PolicyDocument, o: Orders, validPrefix: string -> bool,
    g: Graph, n: nat, s: Subject)
    requires DocAccepted(p, o, validPrefix)
    ensures forall x, name :: DocHolds(p, g, n, x, name, s) <==> Holds(SchemaOf(p, o), g, n, x, name, s)
  {
    if n > 0 {
      CompilerPreservesMeaning(p, o, validPrefix, g, n - 1, s);
      assert AgreeAt(p, o, g, n - 1, s);
      forall x: Object, name: string
        ensures DocHolds(p, g, n, x, name, s) <==> Holds(SchemaOf(p, o), g, n, x, name, s)
      {
        MeaningStep(p, o, validPrefix, g, n, x, name, s);
      }
    }
  }

  lemma CoversAgree(p: PolicyDocument, o: Orders, g: Graph, n: nat, held: Subject, s: Subject)
    requires ValidOrders(p, o) && AgreeAt(p, o, g, n, s)
    ensures DocCovers(p, g, n, held, s) <==> Covers(SchemaOf(p, o), g, n, held, s)
  {
    assert DocHolds(p, g, n, held.obj, held.relation, s) <==> Holds(SchemaOf(p, o), g, n, held.obj, held.relation, s);
  }

  lemma AllowsAgree(p: PolicyDocument, o: Orders, validPrefix: string -> bool, g: Graph, n: nat, x: Object,
    name: string, s: Subject)
    requires DocAccepted(p, o, validPrefix) && AgreeAt(p, o, g, n, s)
    ensures SchemaAllows(SchemaOf(p, o), g, n, x, name, s) <==> DocAllows(p, g, n, x, name, s)
  {
    if SchemaAllows(SchemaOf(p, o), g, n, x, name, s) {
      SchemaAllowsOnlyWhatTheDocumentDoes(p, o, validPrefix, g, n, x, name, s);
    }
    if DocAllows(p, g, n, x, name, s) {
      DocumentAllowsOnlyWhatTheSchemaDoes(p, o, validPrefix, g, n, x, name, s);
    }
  }

  lemma HeldAgree(p: PolicyDocument, o: Orders, validPrefix: string -> bool, g: Graph, n: nat, x: Object,
    name: string, s: Subject)
    requires DocAccepted(p, o, validPrefix) && AgreeAt(p, o, g, n, s)
    ensures (exists held :: Stored(SchemaOf(p, o), g, x, name, held) && Covers(SchemaOf(p, o), g, n, held, s)) <==>
      exists held :: DocStored(p, g, x, name, held) && DocCovers(p, g, n, held, s)
  {
    forall held
      ensures Stored(SchemaOf(p, o), g, x, name, held) && Covers(SchemaOf(p, o), g, n, held, s) <==>
        DocStored(p, g, x, name, held) && DocCovers(p, g, n, held, s)
    {
      StoredAgree(p, o, validPrefix, g, x, name, held);
      CoversAgree(p, o, g, n, held, s);
    }
  }

  lemma MeaningStep(p: PolicyDocument, o: Orders, validPrefix: string -> bool, g: Graph, n: nat, x: Object,
    name: string, s: Subject)
    requires DocAccepted(p, o, validPrefix) && n > 0 && AgreeAt(p, o, g, n - 1, s)
    ensures DocHolds(p, g, n, x, name, s) <==> Holds(SchemaOf(p, o), g, n, x, name, s)
  {
    HeldAgree(p, o, validPrefix, g, n - 1, x, name, s);
    AllowsAgree(p, o, validPrefix, g, n - 1, x, name, s);
  }
}
