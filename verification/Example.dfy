/** A small policy that meets every assumption of the theorems about role bindings and about the
    two stores.  Tenants have a parent; reading is bound on tenants by V1 and V2 role bindings side
    by side, and on reports along a relation; auditing is bound on tenants too, and the name of
    another action is that of its permission relation. */
module Example {
  import opened Types
  import opened Rbac
  import opened Iapl
  import P = Policy
  import opened PolicyTables
  import opened PolicyMeaning
  import opened RoleBindingMeaning
  import opened SchemaClosure
  import opened TwoStores
  import opened Leftovers

  const USER := "user"
  const TENANT := "tenant"
  const REPORT := "report"
  const ROLE := "rolev2"
  const BINDING := "rolebinding"
  const PARENT := "parent"
  const ABOUT := "about"
  const READ := "doc_get"
  const AUDIT := "audit"
  const LOG := "audit_rel"
  const ACTIONS: seq<string> := [READ, AVAILABLE_ROLES, LOG, AUDIT] + ROLE_BINDING_ACTIONS

  function TheRbac(): RBAC {
    RBAC(RBACResource(ROLE, "permrv2"), RBACResource(BINDING, "permrbn"), [USER], [TENANT], [Plain(USER)])
  }

  function UserType(): ResourceType {
    ResourceType(USER, "idntusr", None, [])
  }

  /** V1 roles, which are called role. */
  function OldRoleType(): ResourceType {
    ResourceType(ROLE_RELATION, "permrol", None, [Relationship(SUBJECT_RELATION, [Plain(USER)])])
  }

  function TenantType(): ResourceType {
    ResourceType(TENANT, "tnntten", Some(ResourceRoleBindingV2([PARENT], true)),
      [Relationship(PARENT, [Plain(TENANT)]), Relationship(GRANT_RELATION, [Plain(BINDING)])])
  }

  function ReportType(): ResourceType {
    ResourceType(REPORT, "reprtid", None, [Relationship(ABOUT, [Plain(TENANT)])])
  }

  function OnTenants(): ActionBinding {
    ActionBinding(READ, TENANT, [Condition(true, false, None), Condition(false, true, None)], [])
  }

  function AuditOnTenants(): ActionBinding {
    ActionBinding(AUDIT, TENANT, [Condition(false, true, None)], [])
  }

  function OnReports(): ActionBinding {
    ActionBinding(READ, REPORT, [Along(ABOUT, READ)], [])
  }

  function Document(): PolicyDocument {
    PolicyDocument([UserType(), OldRoleType(), TenantType(), ReportType()], [], [READ, LOG, AUDIT],
      [OnTenants(), AuditOnTenants(), OnReports()], Some(TheRbac()))
  }

  function TheTypes(): set<string> {
    {USER, ROLE_RELATION, TENANT, REPORT, ROLE, BINDING}
  }

  function TheOrders(): Orders {
    Orders(ACTIONS, ACTIONS, [USER, ROLE_RELATION, TENANT, REPORT, ROLE, BINDING])
  }

  ghost predicate AnyPrefix(prefix: string) {
    true
  }

  ghost function TheSystem(): System {
    System(Document(), TheRbac(), TheOrders(), AnyPrefix)
  }

  // ---------- names ----------

  lemma TypesDiffer()
    ensures USER !in {ROLE_RELATION, TENANT, REPORT, ROLE, BINDING} && ROLE_RELATION !in {TENANT, REPORT, ROLE, BINDING}
    ensures TENANT !in {REPORT, ROLE, BINDING} && REPORT !in {ROLE, BINDING} && ROLE != BINDING
  {
    assert TENANT[0] != ROLE[0] && TENANT[0] != REPORT[0] && REPORT[1] != ROLE[1];
    assert USER[0] != ROLE_RELATION[0];
  }

  lemma RelationsDiffer()
    ensures PARENT !in {GRANT_RELATION, MEMBER_ROLE_RELATION, ABOUT, ROLE_OWNER_RELATION}
    ensures GRANT_RELATION !in {ABOUT, MEMBER_ROLE_RELATION, ROLE_RELATION, SUBJECT_RELATION, ROLE_OWNER_RELATION}
    ensures ABOUT !in {MEMBER_ROLE_RELATION, AVAILABLE_ROLES, ROLE_OWNER_RELATION}
    ensures ROLE_RELATION != SUBJECT_RELATION && ROLE_OWNER_RELATION != MEMBER_ROLE_RELATION
    ensures MEMBER_ROLE_RELATION !in {ROLE_RELATION, SUBJECT_RELATION}
  {
    assert GRANT_RELATION[0] != ROLE_OWNER_RELATION[0] && GRANT_RELATION[0] != ABOUT[0] &&
      ABOUT[0] != ROLE_OWNER_RELATION[0];
  }

  /** The relations the policy declares or generates, those of permissions apart. */
  function PlainRelations(): set<string> {
    {PARENT, ABOUT, GRANT_RELATION, MEMBER_ROLE_RELATION, ROLE_RELATION, SUBJECT_RELATION, ROLE_OWNER_RELATION}
  }

  lemma ActionsDiffer()
    ensures forall i, j :: 0 <= i < j < |ACTIONS| ==> ACTIONS[i] != ACTIONS[j]
    ensures forall a :: a in ACTIONS ==> a !in PlainRelations() && a != ""
  {
    var c, u, d := ROLE_BINDING_ACTIONS[0], ROLE_BINDING_ACTIONS[1], ROLE_BINDING_ACTIONS[2];
    var g, l := ROLE_BINDING_ACTIONS[3], ROLE_BINDING_ACTIONS[4];
    assert c[16] != u[16] && c[16] != d[16] && u[16] != d[16] && g[16] != l[16];
    assert READ[0] != SUBJECT_RELATION[0];
  }

  /** What roles are bound to here is no permission relation, though the action LOG is one. */
  lemma NoPermission(a: string, b: string)
    requires a in [READ, AVAILABLE_ROLES, AUDIT]
    ensures a != b + PERMISSION_SUFFIX
  {
    var s := b + PERMISSION_SUFFIX;
    assert s[|s| - 1] == 'l';
    assert a[|a| - 1] in {'t', 'e'};
  }

  // ---------- tables ----------

  lemma TheTypeTable()
    ensures TypeTable(Document().resourceTypes) ==
      map[USER := UserType(), ROLE_RELATION := OldRoleType(), TENANT := TenantType(), REPORT := ReportType()]
  {
    var ts := Document().resourceTypes;
    assert ts[..3] == [UserType(), OldRoleType(), TenantType()] && ts[..3][..2] == [UserType(), OldRoleType()];
    assert ts[..3][..2][..1] == [UserType()] && ts[..3][..2][..1][..0] == [];
    assert TypeTable([UserType()]) == map[USER := UserType()];
    assert TypeTable([UserType(), OldRoleType()]) == map[USER := UserType(), ROLE_RELATION := OldRoleType()];
  }

  lemma Tables()
    ensures UnionTable(Document().unions) == map[]
    ensures TypeTable(Document().resourceTypes) ==
      map[USER := UserType(), ROLE_RELATION := OldRoleType(), TENANT := TenantType(), REPORT := ReportType()]
    ensures TypeNames(Document()) == TheTypes()
    ensures ActionNames(Document()) == set a | a in ACTIONS
  {
    TheTypeTable();
  }

  lemma TypesAreEnumerated()
    ensures Enumerates(TheOrders().types, TheTypes())
  {
    TypesDiffer();
  }

  lemma ActionsAreEnumerated()
    ensures Enumerates(ACTIONS, set a | a in ACTIONS)
  {
    ActionsDiffer();
  }

  lemma OrdersAreValid()
    ensures ValidOrders(Document(), TheOrders())
  {
    Tables();
    TypesAreEnumerated();
    ActionsAreEnumerated();
  }

  lemma Inheritance()
    ensures V2Of(Document(), TENANT) == Some(ResourceRoleBindingV2([PARENT], true))
    ensures InheritsOf(Document(), TENANT) == [PARENT]
    ensures forall typ :: typ != TENANT ==> V2Of(Document(), typ) == None && InheritsOf(Document(), typ) == []
  {
    Tables();
    TypesDiffer();
  }

  /** Every relation before V1 conditions add theirs. */
  ghost predicate IsRelation(typ: string, rel: Relationship) {
    if typ == TENANT then rel in TenantType().relationships || rel == MemberRole(TheRbac())
    else if typ == REPORT then rel in ReportType().relationships
    else if typ == ROLE_RELATION then rel in OldRoleType().relationships
    else if typ == BINDING then rel in RoleBindingType(TheRbac()).relationships
    else if typ == ROLE then rel == RoleOwner(TheRbac()) ||
      exists a :: a in ACTIONS && rel == RolePermission(TheRbac(), a)
    else false
  }

  /** The relations of a role type that owns no roles are those that the compiler makes. */
  lemma RoleRelations(p: PolicyDocument, r: RBAC, rel: Relationship)
    requires p.rbac == Some(r) && r.roleResource.name != r.roleBindingResource.name
    requires r.roleResource.name !in r.roleOwners
    ensures HasRelation(p, r.roleResource.name, rel) <==>
      (rel == RoleOwner(r) || exists a :: a in ActionNames(p) && rel == RolePermission(r, a))
  {
    MadeRelations(r, "", rel);
    forall a
      ensures IsPermissionRelation(r, a, rel) <==> rel == RolePermission(r, a)
    {
      MadeRelations(r, a, rel);
    }
  }

  lemma BindingRelations(p: PolicyDocument, r: RBAC, rel: Relationship)
    requires p.rbac == Some(r) && r.roleBindingResource.name !in r.roleOwners
    ensures HasRelation(p, r.roleBindingResource.name, rel) <==> rel in RoleBindingType(r).relationships
  {
    MadeRelations(r, "", rel);
  }

  lemma AllRelations(typ: string, rel: Relationship)
    ensures HasRelation(Document(), typ, rel) <==> IsRelation(typ, rel)
  {
    Tables();
    TypesDiffer();
    if typ == ROLE {
      RoleRelations(Document(), TheRbac(), rel);
    } else if typ == BINDING {
      BindingRelations(Document(), TheRbac(), rel);
    }
  }

  /** Unions being absent, a binding is about its own type only. */
  lemma WhatIsBound(d: ActionBinding, typ: string)
    ensures BindsTo(Document(), d, typ) <==> d in Document().actionBindings && typ == d.typeName
  {
    Tables();
    if d in Document().actionBindings && typ == d.typeName {
      assert Stands(map[], 0, Plain(typ), Plain(typ));
      assert StandsFor(UnionTable(Document().unions), Plain(d.typeName), Plain(typ));
    }
  }

  /** The relation that the V1 condition adds to tenants. */
  ghost predicate IsAdded(typ: string, relation: string, t: TargetType) {
    typ == TENANT && relation == READ + PERMISSION_SUFFIX && t == TargetType(ROLE_RELATION, "", SUBJECT_RELATION)
  }

  ghost predicate IsDeclared(typ: string, relation: string, t: TargetType) {
    exists rel :: IsRelation(typ, rel) && rel.relation == relation && t in rel.types
  }

  ghost predicate HasV1Condition(typ: string, relation: string) {
    exists d, c :: BindsTo(Document(), d, typ) && c in d.conditions && c.roleBinding &&
      relation == d.actionName + PERMISSION_SUFFIX
  }

  lemma AddedByV1(typ: string, relation: string)
    ensures HasV1Condition(typ, relation) <==> typ == TENANT && relation == READ + PERMISSION_SUFFIX
  {
    forall d
      ensures BindsTo(Document(), d, typ) <==> d in Document().actionBindings && typ == d.typeName
    {
      WhatIsBound(d, typ);
    }
    assert OnTenants().conditions[0].roleBinding;
    assert OnTenants() in Document().actionBindings;
  }

  lemma Declared(typ: string, relation: string, t: TargetType)
    ensures DocDeclares(Document(), typ, relation, t) <==> IsDeclared(typ, relation, t) || IsAdded(typ, relation, t)
  {
    Tables();
    AddedByV1(typ, relation);
    if rel, tt :|
      HasRelation(Document(), typ, rel) && rel.relation == relation && tt in rel.types && StandsFor(map[], tt, t) {
      AllRelations(typ, rel);
    }
    if rel :| IsRelation(typ, rel) && rel.relation == relation && t in rel.types {
      AllRelations(typ, rel);
      assert Stands(map[], 0, t, t);
      assert StandsFor(UnionTable(Document().unions), t, t);
    }
  }

  // ---------- the bindings ----------

  function AvailableOnTenants(): ActionBinding {
    ActionBinding(AVAILABLE_ROLES, TENANT, [Along(MEMBER_ROLE_RELATION, ""), Along(PARENT, AVAILABLE_ROLES)], [])
  }

  function TheBindings(): seq<ActionBinding> {
    RoleBindingBindings(TheRbac(), ACTIONS) + [AvailableOnTenants()] + [OnTenants(), AuditOnTenants(), OnReports()]
  }

  lemma {:induction false} NothingAvailable(r: RBAC, types: TypeMap, order: seq<string>)
    requires forall n :: n in order ==> n in types && n !in r.roleOwners && types[n].roleBindingV2 == None
    ensures AvailableRolesBindings(r, types, order) == []
  {
    if order != [] {
      NothingAvailable(r, types, order[..|order| - 1]);
    }
  }

  /** Types that neither own nor inherit roles add nothing. */
  lemma {:induction false} NothingMore(r: RBAC, types: TypeMap, first: seq<string>, last: seq<string>)
    requires forall n :: n in first + last ==> n in types
    requires forall n :: n in last ==> n !in r.roleOwners && types[n].roleBindingV2 == None
    ensures AvailableRolesBindings(r, types, first + last) == AvailableRolesBindings(r, types, first)
  {
    if last == [] {
      assert first + last == first;
    } else {
      var init, n := last[..|last| - 1], last[|last| - 1];
      assert first + last == first + init + [n];
      NothingMore(r, types, first, init);
      P.AvailableRolesBindingsGrow(r, types, first + init, n);
      assert AvailableRolesBinding(r, n, types[n]) == [];
    }
  }

  /** Only tenants own or inherit roles. */
  ghost predicate OnlyTenantsInherit(types: TypeMap) {
    && TheTypes() <= types.Keys && types[TENANT] == TenantType()
    && forall n :: n in TheTypes() - {TENANT} ==> types[n].roleBindingV2 == None
  }

  lemma AvailableToTenants(types: TypeMap)
    requires OnlyTenantsInherit(types)
    ensures AvailableRolesBinding(TheRbac(), TENANT, types[TENANT]) == [AvailableOnTenants()]
  {
    assert AvailableRolesConditions(TheRbac(), TENANT, types[TENANT]) == AvailableOnTenants().conditions;
  }

  lemma AvailableSoFar(types: TypeMap)
    requires OnlyTenantsInherit(types)
    ensures AvailableRolesBindings(TheRbac(), types, [USER, ROLE_RELATION, TENANT]) == [AvailableOnTenants()]
  {
    TypesDiffer();
    var order := [USER, ROLE_RELATION, TENANT];
    assert order[..2] == [USER, ROLE_RELATION];
    NothingAvailable(TheRbac(), types, [USER, ROLE_RELATION]);
    AvailableToTenants(types);
  }

  lemma AvailableBindings(types: TypeMap)
    requires OnlyTenantsInherit(types)
    ensures AvailableRolesBindings(TheRbac(), types, TheOrders().types) == [AvailableOnTenants()]
  {
    TypesDiffer();
    var first, last := [USER, ROLE_RELATION, TENANT], [REPORT, ROLE, BINDING];
    assert TheOrders().types == first + last;
    AvailableSoFar(types);
    NothingMore(TheRbac(), types, first, last);
  }

  lemma GeneratedAre()
    ensures OnlyTenantsInherit(GeneratedTypes(Document(), ACTIONS))
  {
    Tables();
    TypesDiffer();
  }

  lemma {:induction false} BindingsStay(bs: seq<ActionBinding>)
    ensures ExpandBindings(map[], bs) == bs
  {
    if bs != [] {
      BindingsStay(bs[..|bs| - 1]);
      assert bs == bs[..|bs| - 1] + [bs[|bs| - 1]];
    }
  }

  lemma DeclaredBindings()
    ensures ExpandBindings(UnionTable(Document().unions), Document().actionBindings) ==
      [OnTenants(), AuditOnTenants(), OnReports()]
  {
    Tables();
    BindingsStay(Document().actionBindings);
  }

  lemma AllBindings()
    ensures ValidOrders(Document(), TheOrders())
    ensures CompiledBindings(Document(), TheOrders()) == TheBindings()
  {
    OrdersAreValid();
    GeneratedAre();
    AvailableBindings(GeneratedTypes(Document(), ACTIONS));
    DeclaredBindings();
  }

  // ---------- the document is accepted ----------

  lemma {:induction false} NothingExpands(ts: seq<TargetType>)
    ensures ExpandTargets(map[], ts) == ts
  {
    if ts != [] {
      NothingExpands(ts[..|ts| - 1]);
      assert ts == ts[..|ts| - 1] + [ts[|ts| - 1]];
    }
  }

  lemma CompiledRelationsAre(typ: string, rel: Relationship)
    requires typ in TheTypes()
    ensures typ in CompiledTypes(Document(), ACTIONS)
    ensures rel in CompiledTypes(Document(), ACTIONS)[typ].relationships <==> IsRelation(typ, rel)
  {
    Tables();
    OrdersAreValid();
    CompiledRelations(Document(), ACTIONS, typ, rel);
    forall before
      ensures ExpandRelationship(map[], before) == before
      ensures HasRelation(Document(), typ, before) <==> IsRelation(typ, before)
    {
      NothingExpands(before.types);
      AllRelations(typ, before);
    }
  }

  lemma TargetsAreTypes(typ: string, rel: Relationship, t: TargetType)
    requires IsRelation(typ, rel) && t in rel.types
    ensures t.name in TheTypes() && t.subjectRelation == ""
  {
  }

  lemma TypesAreAccepted(bn: seq<ActionBinding>)
    ensures TypesAccepted(CompiledTypes(Document(), ACTIONS), bn, AnyPrefix)
  {
    Tables();
    var rt := CompiledTypes(Document(), ACTIONS);
    CompiledTypesNames(Document(), ACTIONS);
    forall n, r, t | n in rt && r in rt[n].relationships && t in r.types
      ensures TargetAccepted(rt, bn, t)
    {
      CompiledRelationsAre(n, r);
      TargetsAreTypes(n, r, t);
    }
  }

  lemma FirstIsTheOne(typ: string, rel: Relationship)
    requires typ in TheTypes() && IsRelation(typ, rel)
    requires forall other :: IsRelation(typ, other) && other.relation == rel.relation ==> other == rel
    ensures typ in CompiledTypes(Document(), ACTIONS)
    ensures FirstRelation(CompiledTypes(Document(), ACTIONS)[typ].relationships, rel.relation) == Some(rel)
  {
    CompiledRelationsAre(typ, rel);
    var rels := CompiledTypes(Document(), ACTIONS)[typ].relationships;
    FirstRelationFinds(rels, rel.relation);
    CompiledRelationsAre(typ, FirstRelation(rels, rel.relation).value);
  }

  lemma OneOfEach(typ: string, rel: Relationship, other: Relationship)
    requires typ in {TENANT, REPORT} && IsRelation(typ, rel) && IsRelation(typ, other) && other.relation == rel.relation
    ensures other == rel
  {
    RelationsDiffer();
    TypesDiffer();
  }

  /** Arrows of the policy are found, and their targets bind the action. */
  lemma ArrowIsAccepted(bn: seq<ActionBinding>, typ: string, rel: Relationship, action: string)
    requires typ in {TENANT, REPORT} && IsRelation(typ, rel)
    requires action != "" ==> forall t :: t in rel.types ==> Binds(bn, t.name, action)
    ensures typ in CompiledTypes(Document(), ACTIONS)
    ensures ConditionAccepted(CompiledTypes(Document(), ACTIONS)[typ].relationships, bn, Along(rel.relation, action))
  {
    forall other | IsRelation(typ, other) && other.relation == rel.relation
      ensures other == rel
    {
      OneOfEach(typ, rel, other);
    }
    FirstIsTheOne(typ, rel);
  }

  lemma AvailableIsAccepted(bn: seq<ActionBinding>)
    requires AvailableOnTenants() in bn
    ensures TENANT in CompiledTypes(Document(), ACTIONS)
    ensures forall c :: c in AvailableOnTenants().conditions ==>
      ConditionAccepted(CompiledTypes(Document(), ACTIONS)[TENANT].relationships, bn, c)
  {
    assert Binds(bn, TENANT, AVAILABLE_ROLES);
    ArrowIsAccepted(bn, TENANT, MemberRole(TheRbac()), "");
    ArrowIsAccepted(bn, TENANT, TenantType().relationships[0], AVAILABLE_ROLES);
  }

  lemma ReportsAreAccepted(bn: seq<ActionBinding>)
    requires OnTenants() in bn
    ensures REPORT in CompiledTypes(Document(), ACTIONS)
    ensures ConditionAccepted(CompiledTypes(Document(), ACTIONS)[REPORT].relationships, bn, Along(ABOUT, READ))
  {
    assert Binds(bn, TENANT, READ);
    TypesDiffer();
    ArrowIsAccepted(bn, REPORT, ReportType().relationships[0], READ);
  }

  lemma BindingsAreDistinct()
    ensures DistinctBindings(TheBindings())
  {
    TypesDiffer();
    ActionsDiffer();
    var bn := TheBindings();
    assert READ == ACTIONS[0] && AVAILABLE_ROLES == ACTIONS[1] && AUDIT == ACTIONS[3];
    forall i, j | 0 <= i < j < |bn|
      ensures bn[i].actionName != bn[j].actionName || bn[i].typeName != bn[j].typeName
    {
      if j < |ACTIONS| {
        assert bn[i] == RoleBindingBinding(TheRbac(), ACTIONS[i]) && bn[j] == RoleBindingBinding(TheRbac(), ACTIONS[j]);
      }
    }
  }

  /** A generated binding of a named action has nothing for validation to object to. */
  lemma GeneratedIsAccepted(rt: TypeMap, ac: set<string>, bn: seq<ActionBinding>, r: RBAC, action: string)
    requires action in ac && action != "" && r.roleBindingResource.name in rt && r.roleBindingResource.name != ""
    ensures BindingAccepted(rt, ac, bn, RoleBindingBinding(r, action))
  {
  }

  lemma BindingIsCompiled()
    ensures BINDING in CompiledTypes(Document(), ACTIONS) && BINDING != ""
  {
    CompiledTypesNames(Document(), ACTIONS);
  }

  lemma RoleBindingsAreAccepted(bn: seq<ActionBinding>, i: nat)
    requires i < |ACTIONS|
    ensures BindingAccepted(CompiledTypes(Document(), ACTIONS), ActionNames(Document()), bn,
      RoleBindingBinding(TheRbac(), ACTIONS[i]))
  {
    Tables();
    BindingIsCompiled();
    ActionsDiffer();
    GeneratedIsAccepted(CompiledTypes(Document(), ACTIONS), ActionNames(Document()), bn, TheRbac(), ACTIONS[i]);
  }

  lemma NamesAreKnown(b: ActionBinding)
    requires b in [AvailableOnTenants(), OnTenants(), AuditOnTenants(), OnReports()]
    ensures b.actionName in ActionNames(Document()) && b.actionName != "" && b.typeName != ""
  {
    Tables();
    assert READ == ACTIONS[0] && AVAILABLE_ROLES == ACTIONS[1] && AUDIT == ACTIONS[3];
  }

  lemma OtherBindingsAreAccepted(bn: seq<ActionBinding>, b: ActionBinding)
    requires AvailableOnTenants() in bn && OnTenants() in bn
    requires b in [AvailableOnTenants(), OnTenants(), AuditOnTenants(), OnReports()]
    ensures BindingAccepted(CompiledTypes(Document(), ACTIONS), ActionNames(Document()), bn, b)
  {
    NamesAreKnown(b);
    AvailableIsAccepted(bn);
    ReportsAreAccepted(bn);
  }

  lemma BindingsAreAccepted()
    ensures BindingsAccepted(CompiledTypes(Document(), ACTIONS), ActionNames(Document()), TheBindings())
  {
    var bn := TheBindings();
    BindingsAreDistinct();
    assert bn[|ACTIONS|] == AvailableOnTenants() && bn[|ACTIONS| + 1] == OnTenants();
    forall b | b in bn
      ensures BindingAccepted(CompiledTypes(Document(), ACTIONS), ActionNames(Document()), bn, b)
    {
      if b in RoleBindingBindings(TheRbac(), ACTIONS) {
        var i :| 0 <= i < |ACTIONS| && b == RoleBindingBindings(TheRbac(), ACTIONS)[i];
        RoleBindingsAreAccepted(bn, i);
      } else {
        OtherBindingsAreAccepted(bn, b);
      }
    }
  }

  lemma UnionsAndRolesAreAccepted()
    ensures UnionsAccepted(Document(), CompiledTypes(Document(), ACTIONS))
    ensures RolesAccepted(Document(), CompiledTypes(Document(), ACTIONS))
  {
    Tables();
    CompiledTypesNames(Document(), ACTIONS);
  }

  lemma DocumentIsAccepted()
    ensures DocAccepted(Document(), TheOrders(), AnyPrefix)
  {
    AllBindings();
    TypesAreAccepted(TheBindings());
    BindingsAreAccepted();
    UnionsAndRolesAreAccepted();
  }

  // ---------- it meets the assumptions of the theorems ----------

  lemma InheritedAreTenants(typ: string, f: string, t: TargetType)
    requires f in InheritsOf(Document(), typ) && DocDeclares(Document(), typ, f, t)
    ensures typ == TENANT && f == PARENT && t == Plain(TENANT)
  {
    TypesDiffer();
    Inheritance();
    Declared(typ, f, t);
    forall rel | IsRelation(TENANT, rel) && rel.relation == PARENT
      ensures rel == TenantType().relationships[0]
    {
      OneOfEach(TENANT, TenantType().relationships[0], rel);
    }
    PermissionNames(READ);
    assert (READ + PERMISSION_SUFFIX)[0] != PARENT[0];
  }

  lemma NothingBoundOnRoles()
    ensures forall d :: !BindsTo(Document(), d, ROLE)
  {
    TypesDiffer();
    forall d
      ensures !BindsTo(Document(), d, ROLE)
    {
      WhatIsBound(d, ROLE);
    }
  }

  lemma RoleTypesAreOwn()
    ensures OwnRoleTypes(Document(), TheRbac())
  {
    TypesDiffer();
    Tables();
    NothingBoundOnRoles();
  }

  lemma RoleTypesAreSound()
    ensures SoundRoleTypes(Document(), TheRbac())
  {
    RoleTypesAreOwn();
    TypesDiffer();
    forall typ, f, t | f in InheritsOf(Document(), typ) && DocDeclares(Document(), typ, f, t)
      ensures !OfRbac(TheRbac(), t.name)
    {
      InheritedAreTenants(typ, f, t);
    }
  }

  lemma RelationNames(typ: string, rel: Relationship)
    requires IsRelation(typ, rel)
    ensures rel.relation in PlainRelations() || exists a :: a in ACTIONS && rel.relation == a + PERMISSION_SUFFIX
  {
  }

  lemma NoRelationIsAnAction(typ: string, action: string, t: TargetType)
    requires action in [READ, AVAILABLE_ROLES, AUDIT]
    ensures !DocDeclares(Document(), typ, action, t)
  {
    ActionsDiffer();
    Declared(typ, action, t);
    assert READ == ACTIONS[0] && AVAILABLE_ROLES == ACTIONS[1] && AUDIT == ACTIONS[3];
    NoPermission(action, READ);
    forall rel | IsRelation(typ, rel)
      ensures rel.relation != action
    {
      RelationNames(typ, rel);
      if a :| a in ACTIONS && rel.relation == a + PERMISSION_SUFFIX {
        NoPermission(action, a);
      }
    }
  }

  lemma OnlyRolesAreMembers(typ: string, t: TargetType)
    ensures DocDeclares(Document(), typ, MEMBER_ROLE_RELATION, t) ==> t == Plain(ROLE)
  {
    RelationsDiffer();
    Declared(typ, MEMBER_ROLE_RELATION, t);
    forall a: string
      ensures a + PERMISSION_SUFFIX != MEMBER_ROLE_RELATION
    {
      PermissionNames(a);
    }
  }

  lemma ActionNamesAre(name: string)
    ensures name in ActionNames(Document()) <==> name in ACTIONS
  {
    Tables();
  }

  lemma RolesAreOwned()
    ensures OwnsRoles(Document(), TheRbac())
  {
    RoleTypesAreSound();
    TypesDiffer();
    ActionsDiffer();
    assert AVAILABLE_ROLES == ACTIONS[1] && READ == ACTIONS[0];
    ActionNamesAre(MEMBER_ROLE_RELATION);
    NothingBoundOnRoles();
    forall typ, t
      ensures !DocDeclares(Document(), typ, AVAILABLE_ROLES, t)
      ensures DocDeclares(Document(), typ, MEMBER_ROLE_RELATION, t) ==> t == Plain(ROLE)
    {
      NoRelationIsAnAction(typ, AVAILABLE_ROLES, t);
      OnlyRolesAreMembers(typ, t);
    }
  }

  lemma TypesAreSeparate()
    ensures TheSystem().Separate()
  {
    TypesDiffer();
  }

  lemma TheSystemIsSound()
    ensures TheSystem().Sound()
  {
    DocumentIsAccepted();
    RolesAreOwned();
    TypesAreSeparate();
  }

  lemma GrantsAreOfBindings(t: TargetType)
    requires DocDeclares(Document(), TENANT, GRANT_RELATION, t)
    ensures t == Plain(BINDING)
  {
    Declared(TENANT, GRANT_RELATION, t);
    assert (READ + PERMISSION_SUFFIX)[0] != GRANT_RELATION[0];
    forall rel | IsRelation(TENANT, rel) && rel.relation == GRANT_RELATION
      ensures rel == TenantType().relationships[1]
    {
      OneOfEach(TENANT, TenantType().relationships[1], rel);
    }
  }

  lemma TenantsInheritFromTenants(action: string)
    ensures ClosedRegion(Document(), TheRbac(), action, iset{TENANT})
  {
    TypesDiffer();
    forall typ, f, t | typ in iset{TENANT} && PassesAlong(Document(), action, typ, f) &&
      DocDeclares(Document(), typ, f, t)
      ensures t.name in iset{TENANT}
    {
      InheritedAreTenants(typ, f, t);
    }
  }

  lemma BoundByRoles(d: ActionBinding)
    requires BindsTo(Document(), d, TENANT)
    ensures OnlyRoleBindings(d)
  {
    TypesDiffer();
    WhatIsBound(d, TENANT);
  }

  lemma IsGoverned(action: string)
    requires action in [READ, AUDIT]
    ensures Governed(Document(), TheRbac(), action, iset{TENANT}) && action in ActionNames(Document())
  {
    RoleTypesAreOwn();
    TenantsInheritFromTenants(action);
    ActionsDiffer();
    TypesDiffer();
    assert READ == ACTIONS[0] && AVAILABLE_ROLES == ACTIONS[1] && AUDIT == ACTIONS[3];
    ActionNamesAre(action);
    NothingBoundOnRoles();
    forall typ, t
      ensures !DocDeclares(Document(), typ, action, t)
    {
      NoRelationIsAnAction(typ, action, t);
    }
    forall t | DocDeclares(Document(), TENANT, GRANT_RELATION, t)
      ensures t == Plain(BINDING)
    {
      GrantsAreOfBindings(t);
    }
    forall d | BindsTo(Document(), d, TENANT)
      ensures OnlyRoleBindings(d)
    {
      BoundByRoles(d);
    }
  }

  /** Reading is governed by role bindings among tenants, though reports bind it another way. */
  lemma ReadIsGoverned()
    ensures Governed(Document(), TheRbac(), READ, iset{TENANT}) && READ in ActionNames(Document())
    ensures BindsTo(Document(), OnReports(), REPORT) && !OnlyRoleBindings(OnReports())
  {
    IsGoverned(READ);
    WhatIsBound(OnReports(), REPORT);
  }

  /** So is auditing, though the name of its permission relation is an action as well. */
  lemma AuditIsGoverned()
    ensures Governed(Document(), TheRbac(), AUDIT, iset{TENANT})
    ensures AUDIT in ActionNames(Document()) && AUDIT + PERMISSION_SUFFIX in ActionNames(Document())
  {
    IsGoverned(AUDIT);
    assert LOG == ACTIONS[2] && AUDIT + PERMISSION_SUFFIX == LOG;
    ActionNamesAre(LOG);
  }

  lemma ClausesOfBindings(ra: RelationshipAction)
    requires ClauseOfDocument(Document(), Some(ra))
    ensures ra == RelationshipAction(ABOUT, READ)
  {
  }

  lemma NoUsersetTargets(typ: string, relation: string, t: TargetType)
    requires DocDeclares(Document(), typ, relation, t)
    ensures t.subjectRelation in ["", SUBJECT_RELATION]
  {
    Declared(typ, relation, t);
    if rel :| IsRelation(typ, rel) && rel.relation == relation && t in rel.types {
      TargetsAreTypes(typ, rel, t);
    }
  }

  /** The document leaves role ownership to the compiler. */
  lemma DocumentIsOblivious()
    ensures Oblivious(Document())
  {
    Inheritance();
    RelationsDiffer();
    assert READ[0] != MEMBER_ROLE_RELATION[0] && READ[0] != AVAILABLE_ROLES[0] && PARENT[0] != AVAILABLE_ROLES[0];
    forall ra | ClauseOfDocument(Document(), Some(ra))
      ensures !OfOwnership(ra.relation) && !OfOwnership(ra.actionName)
    {
      ClausesOfBindings(ra);
    }
    forall typ, relation, t | DocDeclares(Document(), typ, relation, t)
      ensures !OfOwnership(t.subjectRelation)
    {
      NoUsersetTargets(typ, relation, t);
    }
  }
}
