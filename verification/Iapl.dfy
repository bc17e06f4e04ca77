/** Policy documents and the functions that specify how they are compiled
    (internal/iapl/policy.go).  The order in which Go ranges over a map is not
    determined, so it is an argument: Orders lists the iterations of one run. */
module Iapl {
  import opened Types
  import opened Rbac

  datatype ResourceType = ResourceType(
    name: string,
    idPrefix: string,
    roleBindingV2: Option<ResourceRoleBindingV2>,
    relationships: seq<Relationship>)

  datatype Union = Union(name: string, resourceTypes: seq<TargetType>)

  datatype ActionBinding = ActionBinding(
    actionName: string,
    typeName: string,
    conditions: seq<Condition>,
    conditionSets: seq<ConditionSet>)

  datatype PolicyDocument = PolicyDocument(
    resourceTypes: seq<ResourceType>,
    unions: seq<Union>,
    actions: seq<string>,
    actionBindings: seq<ActionBinding>,
    rbac: Option<RBAC>)
  {
    function MergeWith(other: PolicyDocument): PolicyDocument {
      PolicyDocument(
        resourceTypes + other.resourceTypes,
        unions + other.unions,
        actions + other.actions,
        actionBindings + other.actionBindings,
        if other.rbac.Some? then other.rbac else rbac)
    }
  }

  type TypeMap = map<string, ResourceType>
  type UnionMap = map<string, Union>

  datatype Orders = Orders(roleActions: seq<string>, bindingActions: seq<string>, types: seq<string>)

  // ---------- the tables NewPolicy starts from; a later name replaces an earlier one ----------

  function TypeTable(ts: seq<ResourceType>): TypeMap {
    if ts == [] then map[] else
      var last := ts[|ts| - 1];
      TypeTable(ts[..|ts| - 1])[last.name := last]
  }

  function UnionTable(us: seq<Union>): UnionMap {
    if us == [] then map[] else
      var last := us[|us| - 1];
      UnionTable(us[..|us| - 1])[last.name := last]
  }

  function ActionNames(p: PolicyDocument): set<string> {
    (set a | a in p.actions) + (if p.rbac.Some? then RoleBindingActionNames() else {})
  }

  // ---------- RBAC V2 types, relations and bindings ----------

  function RolePermission(r: RBAC, action: string): Relationship {
    Relationship(
      action + PERMISSION_SUFFIX,
      seq(|r.roleSubjectTypes|, j requires 0 <= j < |r.roleSubjectTypes| => TargetType(r.roleSubjectTypes[j], "*", "")))
  }

  function RolePermissions(r: RBAC, order: seq<string>): seq<Relationship> {
    seq(|order|, i requires 0 <= i < |order| => RolePermission(r, order[i]))
  }

  function RoleOwner(r: RBAC): Relationship {
    Relationship(ROLE_OWNER_RELATION, seq(|r.roleOwners|, i requires 0 <= i < |r.roleOwners| => Plain(r.roleOwners[i])))
  }

  function RoleType(r: RBAC, order: seq<string>): ResourceType {
    ResourceType(r.roleResource.name, r.roleResource.idPrefix, None, RolePermissions(r, order) + [RoleOwner(r)])
  }

  function RoleBindingType(r: RBAC): ResourceType {
    ResourceType(
      r.roleBindingResource.name, r.roleBindingResource.idPrefix, None,
      [Relationship(ROLE_RELATION, [Plain(r.roleResource.name)]),
        Relationship(SUBJECT_RELATION, r.roleBindingSubjects)])
  }

  /** On a role binding, an action needs the role to carry it and the subject to be bound. */
  function RoleBindingBinding(r: RBAC, action: string): ActionBinding {
    ActionBinding(
      action, r.roleBindingResource.name, [],
      [ConditionSet([Along(ROLE_RELATION, action + PERMISSION_SUFFIX)]), ConditionSet([Along(SUBJECT_RELATION, "")])])
  }

  function RoleBindingBindings(r: RBAC, order: seq<string>): seq<ActionBinding> {
    seq(|order|, i requires 0 <= i < |order| => RoleBindingBinding(r, order[i]))
  }

  function MemberRole(r: RBAC): Relationship {
    Relationship(MEMBER_ROLE_RELATION, [Plain(r.roleResource.name)])
  }

  function InheritsFrom(t: ResourceType): seq<string> {
    if t.roleBindingV2.Some? then t.roleBindingV2.value.inheritPermissionsFrom else []
  }

  function AvailableRolesConditions(r: RBAC, name: string, t: ResourceType): seq<Condition> {
    (if name in r.roleOwners then [Along(MEMBER_ROLE_RELATION, "")] else []) +
    seq(|InheritsFrom(t)|, i requires 0 <= i < |InheritsFrom(t)| => Along(InheritsFrom(t)[i], AVAILABLE_ROLES))
  }

  function AvailableRolesBinding(r: RBAC, name: string, t: ResourceType): seq<ActionBinding> {
    var conds := AvailableRolesConditions(r, name, t);
    if conds == [] then [] else [ActionBinding(AVAILABLE_ROLES, t.name, conds, [])]
  }

  function AvailableRolesBindings(r: RBAC, types: TypeMap, order: seq<string>): seq<ActionBinding>
    requires forall n :: n in order ==> n in types
  {
    if order == [] then [] else
      var last := order[|order| - 1];
      AvailableRolesBindings(r, types, order[..|order| - 1]) + AvailableRolesBinding(r, last, types[last])
  }

  function WithMemberRole(r: RBAC, name: string, t: ResourceType): ResourceType {
    if name in r.roleOwners then t.(relationships := t.relationships + [MemberRole(r)]) else t
  }

  // ---------- union expansion ----------

  function ExpandTarget(un: UnionMap, t: TargetType): seq<TargetType> {
    if t.name in un then un[t.name].resourceTypes else [t]
  }

  function ExpandTargets(un: UnionMap, ts: seq<TargetType>): seq<TargetType> {
    if ts == [] then [] else
      ExpandTargets(un, ts[..|ts| - 1]) + ExpandTarget(un, ts[|ts| - 1])
  }

  function ExpandRelationship(un: UnionMap, r: Relationship): Relationship {
    r.(types := ExpandTargets(un, r.types))
  }

  function ExpandType(un: UnionMap, t: ResourceType): ResourceType {
    t.(relationships := seq(|t.relationships|, i requires 0 <= i < |t.relationships| =>
      ExpandRelationship(un, t.relationships[i])))
  }

  function ExpandBinding(un: UnionMap, b: ActionBinding): seq<ActionBinding> {
    if b.typeName in un then
      var ms := un[b.typeName].resourceTypes;
      seq(|ms|, i requires 0 <= i < |ms| => b.(typeName := ms[i].name))
    else [b]
  }

  function ExpandBindings(un: UnionMap, bs: seq<ActionBinding>): seq<ActionBinding> {
    if bs == [] then [] else
      ExpandBindings(un, bs[..|bs| - 1]) + ExpandBinding(un, bs[|bs| - 1])
  }

  // ---------- the compiled tables ----------

  /** Declared types, replaced by the generated role and role-binding types of the same name. */
  function GeneratedTypes(p: PolicyDocument, order: seq<string>): TypeMap {
    var declared := TypeTable(p.resourceTypes);
    match p.rbac
    case None => declared
    case Some(r) =>
      declared[r.roleResource.name := RoleType(r, order)][r.roleBindingResource.name := RoleBindingType(r)]
  }

  function AugmentedTypes(p: PolicyDocument, order: seq<string>): TypeMap {
    var types := GeneratedTypes(p, order);
    match p.rbac
    case None => types
    case Some(r) => map n | n in types :: WithMemberRole(r, n, types[n])
  }

  function CompiledTypes(p: PolicyDocument, order: seq<string>): TypeMap {
    var types := AugmentedTypes(p, order);
    map n | n in types :: ExpandType(UnionTable(p.unions), types[n])
  }

  function TypeNames(p: PolicyDocument): set<string> {
    TypeTable(p.resourceTypes).Keys +
    (if p.rbac.Some? then {p.rbac.value.roleResource.name, p.rbac.value.roleBindingResource.name} else {})
  }

  ghost predicate ValidOrders(p: PolicyDocument, o: Orders) {
    p.rbac.Some? ==>
      && Enumerates(o.roleActions, ActionNames(p))
      && Enumerates(o.bindingActions, ActionNames(p))
      && Enumerates(o.types, TypeNames(p))
  }

  ghost function CompiledBindings(p: PolicyDocument, o: Orders): seq<ActionBinding>
    requires ValidOrders(p, o)
  {
    (if p.rbac.Some? then CompiledRBACBindings(p, p.rbac.value, o) else []) +
    ExpandBindings(UnionTable(p.unions), p.actionBindings)
  }

  ghost function CompiledRBACBindings(p: PolicyDocument, r: RBAC, o: Orders): seq<ActionBinding>
    requires p.rbac == Some(r) && ValidOrders(p, o)
  {
    RoleBindingBindings(r, o.bindingActions) + AvailableRolesBindings(r, GeneratedTypes(p, o.roleActions), o.types)
  }

  ghost predicate Binds(bn: seq<ActionBinding>, typ: string, action: string) {
    exists b :: b in bn && b.typeName == typ && b.actionName == action
  }

  /** rb indexes the bindings by type and action. */
  ghost predicate BindTable(rb: map<string, set<string>>, bn: seq<ActionBinding>) {
    forall t, a :: Indexed(rb, t, a) <==> Binds(bn, t, a)
  }

  ghost predicate Indexed(rb: map<string, set<string>>, typ: string, action: string) {
    typ in rb && action in rb[typ]
  }

  // ---------- acceptance ----------

  ghost predicate NamesRelation(rels: seq<Relationship>, name: string) {
    exists r :: r in rels && r.relation == name
  }

  /** The first relation of that name, which is the one the validator looks at. */
  function FirstRelation(rels: seq<Relationship>, name: string): Option<Relationship> {
    if rels == [] then None
    else if rels[0].relation == name then Some(rels[0])
    else FirstRelation(rels[1..], name)
  }

  ghost predicate UnionsAccepted(p: PolicyDocument, rt: TypeMap) {
    forall u :: u in p.unions ==> u.name !in rt && forall m :: m in u.resourceTypes ==> m.name in rt
  }

  ghost predicate TargetAccepted(rt: TypeMap, bn: seq<ActionBinding>, t: TargetType) {
    && t.name in rt
    && (t.subjectRelation != "" ==>
          NamesRelation(rt[t.name].relationships, t.subjectRelation) || Binds(bn, t.name, t.subjectRelation))
  }

  ghost predicate TypesAccepted(rt: TypeMap, bn: seq<ActionBinding>, validPrefix: string -> bool) {
    forall n :: n in rt ==>
      && validPrefix(rt[n].idPrefix)
      && forall r, t :: r in rt[n].relationships && t in r.types ==> TargetAccepted(rt, bn, t)
  }

  ghost predicate RelationshipActionAccepted(rels: seq<Relationship>, bn: seq<ActionBinding>, ra: RelationshipAction) {
    var rel := FirstRelation(rels, ra.relation);
    && rel.Some?
    && (ra.actionName != "" ==> forall t :: t in rel.value.types ==> Binds(bn, t.name, ra.actionName))
  }

  predicate OneClause(c: Condition) {
    (if c.roleBinding then 1 else 0) + (if c.roleBindingV2 then 1 else 0) +
      (if c.relationshipAction.Some? then 1 else 0) == 1
  }

  ghost predicate ConditionAccepted(rels: seq<Relationship>, bn: seq<ActionBinding>, c: Condition) {
    && OneClause(c)
    && (c.relationshipAction.Some? ==> RelationshipActionAccepted(rels, bn, c.relationshipAction.value))
  }

  ghost predicate BindingAccepted(rt: TypeMap, ac: set<string>, bn: seq<ActionBinding>, b: ActionBinding) {
    && b.actionName != "" && b.typeName != ""
    && b.actionName in ac && b.typeName in rt
    && forall c :: c in b.conditions ==> ConditionAccepted(rt[b.typeName].relationships, bn, c)
  }

  ghost predicate DistinctBindings(bn: seq<ActionBinding>) {
    forall i, j :: 0 <= i < j < |bn| ==> bn[i].actionName != bn[j].actionName || bn[i].typeName != bn[j].typeName
  }

  ghost predicate BindingsAccepted(rt: TypeMap, ac: set<string>, bn: seq<ActionBinding>) {
    && DistinctBindings(bn)
    && forall b :: b in bn ==> BindingAccepted(rt, ac, bn, b)
  }

  ghost predicate RolesAccepted(p: PolicyDocument, rt: TypeMap) {
    p.rbac.Some? ==> forall o :: o in p.rbac.value.roleOwners ==> o in rt
  }

  ghost predicate Accepted(p: PolicyDocument, rt: TypeMap, bn: seq<ActionBinding>, validPrefix: string -> bool) {
    && UnionsAccepted(p, rt)
    && TypesAccepted(rt, bn, validPrefix)
    && BindingsAccepted(rt, ActionNames(p), bn)
    && RolesAccepted(p, rt)
  }

  // ---------- the emitted schema ----------

  /** A V1 role binding declares `action_rel` with the members of V1 roles as targets. */
  function V1Relation(action: string): Relationship {
    Relationship(action + PERMISSION_SUFFIX, [TargetType(ROLE_RELATION, "", SUBJECT_RELATION)])
  }

  function CompileCondition(t: ResourceType, action: string, c: Condition): seq<Condition> {
    if c.roleBinding then
      [Condition(true, false, Some(RelationshipAction(action + PERMISSION_SUFFIX, "")))]
    else if c.roleBindingV2 && t.roleBindingV2.Some? then
      RoleBindingConditions(action, if t.roleBindingV2.value.inheritAllActions then InheritsFrom(t) else [])
    else
      [Condition(false, false, c.relationshipAction)]
  }

  function CompileConditions(t: ResourceType, action: string, cs: seq<Condition>): seq<Condition> {
    if cs == [] then [] else
      CompileConditions(t, action, cs[..|cs| - 1]) + CompileCondition(t, action, cs[|cs| - 1])
  }

  function CompileBinding(t: ResourceType, b: ActionBinding): Action {
    Action(b.actionName, CompileConditions(t, b.actionName, b.conditions), b.conditionSets)
  }

  function V1Relations(action: string, cs: seq<Condition>): seq<Relationship> {
    if cs == [] then [] else
      V1Relations(action, cs[..|cs| - 1]) + (if cs[|cs| - 1].roleBinding then [V1Relation(action)] else [])
  }

  function TriggersV2(t: ResourceType, c: Condition): bool {
    !c.roleBinding && c.roleBindingV2 && t.roleBindingV2.Some?
  }

  /** Some binding of the type has a V2 condition, so it also gets the role-binding actions. */
  ghost predicate UsesV2(t: ResourceType, bn: seq<ActionBinding>, name: string) {
    exists b, c :: b in bn && b.typeName == name && c in b.conditions && TriggersV2(t, c)
  }

  function EmittedRelationships(t: ResourceType, bn: seq<ActionBinding>, name: string): seq<Relationship> {
    if bn == [] then t.relationships else
      var b := bn[|bn| - 1];
      EmittedRelationships(t, bn[..|bn| - 1], name) +
      (if b.typeName == name then V1Relations(b.actionName, b.conditions) else [])
  }

  function EmittedActions(t: ResourceType, bn: seq<ActionBinding>, name: string): seq<Action> {
    if bn == [] then [] else
      var b := bn[|bn| - 1];
      EmittedActions(t, bn[..|bn| - 1], name) + (if b.typeName == name then [CompileBinding(t, b)] else [])
  }

  /** The definition after the bindings bn, before the role-binding actions are appended. */
  function EmittedSoFar(t: ResourceType, bn: seq<ActionBinding>, name: string): Definition {
    Definition(t.name, t.idPrefix, EmittedRelationships(t, bn, name), EmittedActions(t, bn, name))
  }

  ghost function EmittedDefinition(t: ResourceType, bn: seq<ActionBinding>, name: string): Definition {
    var d := EmittedSoFar(t, bn, name);
    if UsesV2(t, bn, name) then d.(actions := d.actions + RoleBindingActionsFor(InheritsFrom(t))) else d
  }

  ghost function EmittedSchema(rt: TypeMap, bn: seq<ActionBinding>): (schema: Schema)
    ensures schema.Keys == rt.Keys
  {
    map n | n in rt :: EmittedDefinition(rt[n], bn, n)
  }
}
