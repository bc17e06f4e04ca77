/** What the compiled tables contain, element by element. */
module PolicyTables {
  import opened Types
  import opened Rbac
  import opened Iapl

  // ---------- membership in the recursive tables ----------

  lemma {:induction false} TypeTableNames(ts: seq<ResourceType>)
    ensures forall n :: n in TypeTable(ts) ==> TypeTable(ts)[n].name == n && TypeTable(ts)[n] in ts
    ensures forall t :: t in ts ==> t.name in TypeTable(ts)
  {
    if ts != [] {
      TypeTableNames(ts[..|ts| - 1]);
      assert ts == ts[..|ts| - 1] + [ts[|ts| - 1]];
    }
  }

  lemma {:induction false} UnionTableNames(us: seq<Union>)
    ensures forall n :: n in UnionTable(us) ==> UnionTable(us)[n].name == n && UnionTable(us)[n] in us
    ensures forall u :: u in us ==> u.name in UnionTable(us)
  {
    if us != [] {
      UnionTableNames(us[..|us| - 1]);
      assert us == us[..|us| - 1] + [us[|us| - 1]];
    }
  }

  /** The declaration at i is the last of its name. */
  predicate IsLast(ts: seq<ResourceType>, i: nat) {
    i < |ts| && forall j :: i < j < |ts| ==> ts[j].name != ts[i].name
  }

  /** Of several types of one name the last declared one counts. */
  lemma {:induction false} LastTypeCounts(ts: seq<ResourceType>, i: nat)
    requires IsLast(ts, i)
    ensures ts[i].name in TypeTable(ts) && TypeTable(ts)[ts[i].name] == ts[i]
  {
    var init := ts[..|ts| - 1];
    if i < |init| {
      assert init[i] == ts[i];
      LastTypeCounts(init, i);
    }
  }

  /** Every type has a last declaration. */
  lemma {:induction false} LastDeclaration(ts: seq<ResourceType>, n: string) returns (i: nat)
    requires n in TypeTable(ts)
    ensures IsLast(ts, i) && ts[i].name == n
  {
    if ts[|ts| - 1].name == n {
      i := |ts| - 1;
    } else {
      i := LastDeclaration(ts[..|ts| - 1], n);
    }
  }

  lemma {:induction false} LastUnionCounts(us: seq<Union>, i: nat)
    requires i < |us| && forall j :: i < j < |us| ==> us[j].name != us[i].name
    ensures us[i].name in UnionTable(us) && UnionTable(us)[us[i].name] == us[i]
  {
    var init := us[..|us| - 1];
    if i < |init| {
      assert init[i] == us[i];
      LastUnionCounts(init, i);
    }
  }

  lemma {:induction false} ExpandTargetsMembers(un: UnionMap, ts: seq<TargetType>, m: TargetType)
    ensures m in ExpandTargets(un, ts) <==> exists t :: t in ts && m in ExpandTarget(un, t)
  {
    if ts != [] {
      ExpandTargetsMembers(un, ts[..|ts| - 1], m);
      assert ts == ts[..|ts| - 1] + [ts[|ts| - 1]];
    }
  }

  lemma {:induction false} ExpandBindingsMembers(un: UnionMap, bs: seq<ActionBinding>, m: ActionBinding)
    ensures m in ExpandBindings(un, bs) <==> exists b :: b in bs && m in ExpandBinding(un, b)
  {
    if bs != [] {
      ExpandBindingsMembers(un, bs[..|bs| - 1], m);
      assert bs == bs[..|bs| - 1] + [bs[|bs| - 1]];
    }
  }

  lemma {:induction false} AvailableRolesBindingsMembers(r: RBAC, types: TypeMap, order: seq<string>, m: ActionBinding)
    requires forall n :: n in order ==> n in types
    ensures m in AvailableRolesBindings(r, types, order) <==>
      exists n :: n in order && m in AvailableRolesBinding(r, n, types[n])
  {
    if order != [] {
      AvailableRolesBindingsMembers(r, types, order[..|order| - 1], m);
      assert order == order[..|order| - 1] + [order[|order| - 1]];
    }
  }

  lemma {:induction false} CompileConditionsMembers(t: ResourceType, action: string, cs: seq<Condition>, m: Condition)
    ensures m in CompileConditions(t, action, cs) <==> exists c :: c in cs && m in CompileCondition(t, action, c)
  {
    if cs != [] {
      CompileConditionsMembers(t, action, cs[..|cs| - 1], m);
      assert cs == cs[..|cs| - 1] + [cs[|cs| - 1]];
    }
  }

  lemma CompileConditionsEmpty(t: ResourceType, action: string, cs: seq<Condition>)
    ensures CompileConditions(t, action, cs) == [] <==> cs == []
  {
    if cs != [] {
      assert |CompileCondition(t, action, cs[|cs| - 1])| > 0;
    }
  }

  lemma {:induction false} V1RelationsMembers(action: string, cs: seq<Condition>, m: Relationship)
    ensures m in V1Relations(action, cs) <==> m == V1Relation(action) && exists c :: c in cs && c.roleBinding
  {
    if cs != [] {
      V1RelationsMembers(action, cs[..|cs| - 1], m);
      assert cs == cs[..|cs| - 1] + [cs[|cs| - 1]];
    }
  }

  // ---------- the emitted schema, in terms of types and bindings ----------

  ghost predicate HasV1(bn: seq<ActionBinding>, typ: string, action: string) {
    exists b, c :: b in bn && b.typeName == typ && b.actionName == action && c in b.conditions && c.roleBinding
  }

  lemma {:induction false} EmittedRelationshipsMembers(t: ResourceType, bn: seq<ActionBinding>, name: string,
    m: Relationship)
    ensures m in EmittedRelationships(t, bn, name) <==>
      m in t.relationships || exists a :: HasV1(bn, name, a) && m == V1Relation(a)
  {
    if bn != [] {
      var init, b := bn[..|bn| - 1], bn[|bn| - 1];
      EmittedRelationshipsMembers(t, init, name, m);
      V1RelationsMembers(b.actionName, b.conditions, m);
      assert bn == init + [b];
      forall a
        ensures HasV1(bn, name, a) <==>
          HasV1(init, name, a) ||
          (b.typeName == name && b.actionName == a && exists c :: c in b.conditions && c.roleBinding)
      {
        if b.typeName == name && b.actionName == a && exists c :: c in b.conditions && c.roleBinding {
          var c :| c in b.conditions && c.roleBinding;
          assert b in bn;
        }
      }
    }
  }

  lemma {:induction false} EmittedActionsMembers(t: ResourceType, bn: seq<ActionBinding>, name: string, m: Action)
    ensures m in EmittedActions(t, bn, name) <==> exists b :: b in bn && b.typeName == name && m == CompileBinding(t, b)
  {
    if bn != [] {
      EmittedActionsMembers(t, bn[..|bn| - 1], name, m);
      assert bn == bn[..|bn| - 1] + [bn[|bn| - 1]];
    }
  }

  // ---------- the compiled types and bindings, in terms of the document ----------

  function V2Of(p: PolicyDocument, typ: string): Option<ResourceRoleBindingV2> {
    if p.rbac.Some? && typ in {p.rbac.value.roleResource.name, p.rbac.value.roleBindingResource.name} then None
    else if typ in TypeTable(p.resourceTypes) then TypeTable(p.resourceTypes)[typ].roleBindingV2
    else None
  }

  function InheritsOf(p: PolicyDocument, typ: string): seq<string> {
    var v2 := V2Of(p, typ);
    if v2.Some? then v2.value.inheritPermissionsFrom else []
  }

  lemma GeneratedTypesNames(p: PolicyDocument, order: seq<string>)
    ensures GeneratedTypes(p, order).Keys == TypeNames(p)
    ensures forall n :: n in GeneratedTypes(p, order) ==>
      && GeneratedTypes(p, order)[n].name == n
      && GeneratedTypes(p, order)[n].roleBindingV2 == V2Of(p, n)
  {
    TypeTableNames(p.resourceTypes);
  }

  lemma CompiledTypesNames(p: PolicyDocument, order: seq<string>)
    ensures CompiledTypes(p, order).Keys == GeneratedTypes(p, order).Keys == TypeNames(p)
    ensures forall n :: n in CompiledTypes(p, order) ==>
      && CompiledTypes(p, order)[n].name == n
      && CompiledTypes(p, order)[n].roleBindingV2 == V2Of(p, n)
    ensures forall n :: n in GeneratedTypes(p, order) ==>
      && GeneratedTypes(p, order)[n].name == n
      && GeneratedTypes(p, order)[n].roleBindingV2 == V2Of(p, n)
  {
    GeneratedTypesNames(p, order);
  }

  /** owner: one target for each type that may own roles. */
  predicate IsOwnerRelation(r: RBAC, rel: Relationship) {
    && rel.relation == ROLE_OWNER_RELATION && |rel.types| == |r.roleOwners|
    && forall i :: 0 <= i < |r.roleOwners| ==> rel.types[i] == TargetType(r.roleOwners[i], "", "")
  }

  /** action_rel: a wildcard of each subject type. */
  predicate IsPermissionRelation(r: RBAC, action: string, rel: Relationship) {
    && rel.relation == action + PERMISSION_SUFFIX && |rel.types| == |r.roleSubjectTypes|
    && forall i :: 0 <= i < |r.roleSubjectTypes| ==> rel.types[i] == TargetType(r.roleSubjectTypes[i], "*", "")
  }

  /** A relation a type has before unions are expanded, as the document gives it. */
  ghost predicate HasRelation(p: PolicyDocument, typ: string, rel: Relationship) {
    var declared := TypeTable(p.resourceTypes);
    match p.rbac
    case None => typ in declared && rel in declared[typ].relationships
    case Some(r) =>
      || (typ in TypeNames(p) && typ in r.roleOwners &&
           rel == Relationship(MEMBER_ROLE_RELATION, [TargetType(r.roleResource.name, "", "")]))
      || (if typ == r.roleBindingResource.name then
            || rel == Relationship(ROLE_RELATION, [TargetType(r.roleResource.name, "", "")])
            || rel == Relationship(SUBJECT_RELATION, r.roleBindingSubjects)
          else if typ == r.roleResource.name then
            IsOwnerRelation(r, rel) || exists a :: a in ActionNames(p) && IsPermissionRelation(r, a, rel)
          else typ in declared && rel in declared[typ].relationships)
  }

  /** The relations that the compiler makes are those. */
  lemma MadeRelations(r: RBAC, action: string, rel: Relationship)
    ensures IsOwnerRelation(r, rel) <==> rel == RoleOwner(r)
    ensures IsPermissionRelation(r, action, rel) <==> rel == RolePermission(r, action)
    ensures rel in RoleBindingType(r).relationships <==>
      || rel == Relationship(ROLE_RELATION, [TargetType(r.roleResource.name, "", "")])
      || rel == Relationship(SUBJECT_RELATION, r.roleBindingSubjects)
  {
    if IsOwnerRelation(r, rel) {
      assert rel.types == RoleOwner(r).types;
    }
    if IsPermissionRelation(r, action, rel) {
      assert rel.types == RolePermission(r, action).types;
    }
    assert RoleBindingType(r).relationships[0] in RoleBindingType(r).relationships;
  }

  lemma CompiledRelations(p: PolicyDocument, order: seq<string>, typ: string, m: Relationship)
    requires p.rbac.Some? ==> Enumerates(order, ActionNames(p))
    requires typ in TypeNames(p)
    ensures typ in CompiledTypes(p, order)
    ensures m in CompiledTypes(p, order)[typ].relationships <==>
      exists rel :: HasRelation(p, typ, rel) && m == ExpandRelationship(UnionTable(p.unions), rel)
  {
    CompiledTypesNames(p, order);
    var un := UnionTable(p.unions);
    var t := AugmentedTypes(p, order)[typ];
    forall rel
      ensures rel in t.relationships <==> HasRelation(p, typ, rel)
    {
      AugmentedRelations(p, order, typ, rel);
    }
    var e := CompiledTypes(p, order)[typ];
    if m in e.relationships {
      var i :| 0 <= i < |e.relationships| && e.relationships[i] == m;
      assert t.relationships[i] in t.relationships;
    }
    if rel :| HasRelation(p, typ, rel) && m == ExpandRelationship(un, rel) {
      var i :| 0 <= i < |t.relationships| && t.relationships[i] == rel;
      assert e.relationships[i] == m;
    }
  }

  lemma AugmentedRelations(p: PolicyDocument, order: seq<string>, typ: string, rel: Relationship)
    requires p.rbac.Some? ==> Enumerates(order, ActionNames(p))
    requires typ in TypeNames(p)
    ensures typ in AugmentedTypes(p, order)
    ensures rel in AugmentedTypes(p, order)[typ].relationships <==> HasRelation(p, typ, rel)
  {
    if p.rbac.Some? {
      var r := p.rbac.value;
      forall a
        ensures IsOwnerRelation(r, rel) <==> rel == RoleOwner(r)
        ensures IsPermissionRelation(r, a, rel) <==> rel == RolePermission(r, a)
      {
        MadeRelations(r, a, rel);
      }
      MadeRelations(r, "", rel);
      if typ == r.roleResource.name {
        RolePermissionsMembers(p, r, order, rel);
      }
    }
  }

  lemma RolePermissionsMembers(p: PolicyDocument, r: RBAC, order: seq<string>, rel: Relationship)
    requires Enumerates(order, ActionNames(p))
    ensures rel in RolePermissions(r, order) <==> exists a :: a in ActionNames(p) && rel == RolePermission(r, a)
  {
    if a :| a in ActionNames(p) && rel == RolePermission(r, a) {
      var i :| 0 <= i < |order| && order[i] == a;
      assert RolePermissions(r, order)[i] == rel;
    }
  }

  /** The ID prefix that the document gives a type: the generated types have that of the RBAC block,
      any other that of its last declaration. */
  ghost predicate PrefixIs(p: PolicyDocument, n: string, prefix: string) {
    match p.rbac
    case None => DeclaredPrefix(p, n, prefix)
    case Some(r) =>
      if n == r.roleBindingResource.name then prefix == r.roleBindingResource.idPrefix
      else if n == r.roleResource.name then prefix == r.roleResource.idPrefix
      else DeclaredPrefix(p, n, prefix)
  }

  ghost predicate DeclaredPrefix(p: PolicyDocument, n: string, prefix: string) {
    exists i: nat :: IsLast(p.resourceTypes, i) &&
      p.resourceTypes[i].name == n && prefix == p.resourceTypes[i].idPrefix
  }

  lemma TypePrefix(p: PolicyDocument, order: seq<string>, n: string)
    requires n in TypeNames(p)
    ensures n in CompiledTypes(p, order) && PrefixIs(p, n, CompiledTypes(p, order)[n].idPrefix)
  {
    if p.rbac.None? || n !in {p.rbac.value.roleResource.name, p.rbac.value.roleBindingResource.name} {
      var i := LastDeclaration(p.resourceTypes, n);
      LastTypeCounts(p.resourceTypes, i);
    }
  }

  /** Every definition has the name and the ID prefix of its type. */
  lemma PrefixOfDefinition(p: PolicyDocument, o: Orders, n: string)
    requires ValidOrders(p, o) && n in TypeNames(p)
    ensures var schema := EmittedSchema(CompiledTypes(p, o.roleActions), CompiledBindings(p, o));
      n in schema && schema[n].name == n && PrefixIs(p, n, schema[n].idPrefix)
  {
    CompiledTypesNames(p, o.roleActions);
    TypePrefix(p, o.roleActions, n);
  }

  /** The three origins of a compiled binding. */
  ghost predicate HasBinding(p: PolicyDocument, b: ActionBinding) {
    || (p.rbac.Some? && exists a :: a in ActionNames(p) && b == RoleBindingBinding(p.rbac.value, a))
    || (p.rbac.Some? && exists n :: n in TypeNames(p) && b in AvailableBindingOf(p, p.rbac.value, n))
    || (exists d :: d in p.actionBindings && b in ExpandBinding(UnionTable(p.unions), d))
  }

  function AvailableConditionsOf(p: PolicyDocument, r: RBAC, n: string): seq<Condition> {
    (if n in r.roleOwners then [Along(MEMBER_ROLE_RELATION, "")] else []) +
    seq(|InheritsOf(p, n)|, i requires 0 <= i < |InheritsOf(p, n)| => Along(InheritsOf(p, n)[i], AVAILABLE_ROLES))
  }

  function AvailableBindingOf(p: PolicyDocument, r: RBAC, n: string): seq<ActionBinding> {
    var conds := AvailableConditionsOf(p, r, n);
    if conds == [] then [] else [ActionBinding(AVAILABLE_ROLES, n, conds, [])]
  }

  lemma RoleBindingBindingsMembers(p: PolicyDocument, r: RBAC, order: seq<string>, b: ActionBinding)
    requires Enumerates(order, ActionNames(p))
    ensures b in RoleBindingBindings(r, order) <==> exists a :: a in ActionNames(p) && b == RoleBindingBinding(r, a)
  {
    if a :| a in ActionNames(p) && b == RoleBindingBinding(r, a) {
      var i :| 0 <= i < |order| && order[i] == a;
      assert RoleBindingBindings(r, order)[i] == b;
    }
  }

  lemma AvailableBindingAgrees(p: PolicyDocument, order: seq<string>, n: string)
    requires p.rbac.Some? && n in TypeNames(p)
    ensures n in GeneratedTypes(p, order)
    ensures AvailableRolesBinding(p.rbac.value, n, GeneratedTypes(p, order)[n]) ==
      AvailableBindingOf(p, p.rbac.value, n)
  {
    CompiledTypesNames(p, order);
    assert AvailableRolesConditions(p.rbac.value, n, GeneratedTypes(p, order)[n]) ==
      AvailableConditionsOf(p, p.rbac.value, n);
  }

  lemma AvailableBindingsMembers(p: PolicyDocument, o: Orders, b: ActionBinding)
    requires p.rbac.Some? && ValidOrders(p, o)
    ensures forall n :: n in o.types ==> n in GeneratedTypes(p, o.roleActions)
    ensures b in AvailableRolesBindings(p.rbac.value, GeneratedTypes(p, o.roleActions), o.types) <==>
      exists n :: n in TypeNames(p) && b in AvailableBindingOf(p, p.rbac.value, n)
  {
    CompiledTypesNames(p, o.roleActions);
    AvailableRolesBindingsMembers(p.rbac.value, GeneratedTypes(p, o.roleActions), o.types, b);
    forall n | n in TypeNames(p)
      ensures AvailableRolesBinding(p.rbac.value, n, GeneratedTypes(p, o.roleActions)[n]) ==
        AvailableBindingOf(p, p.rbac.value, n)
    {
      AvailableBindingAgrees(p, o.roleActions, n);
    }
  }

  lemma CompiledBindingsMembers(p: PolicyDocument, o: Orders, b: ActionBinding)
    requires ValidOrders(p, o)
    ensures b in CompiledBindings(p, o) <==> HasBinding(p, b)
  {
    ExpandBindingsMembers(UnionTable(p.unions), p.actionBindings, b);
    if p.rbac.Some? {
      RoleBindingBindingsMembers(p, p.rbac.value, o.bindingActions, b);
      AvailableBindingsMembers(p, o, b);
    }
  }
}
