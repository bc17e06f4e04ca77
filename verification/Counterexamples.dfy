/** Three policies that validation accepts although their schemas do not work: a V2 condition on a
    type without rolebindingv2, an action with the name of a relation, and a union among the
    subject types of roles. */
module Counterexamples {
  import opened Types
  import opened Rbac
  import opened Iapl
  import opened PolicyTables
  import opened PolicyMeaning
  import opened SchemaClosure
  import opened SchemaText
  import opened SchemaNames
  import opened TwoStores
  import opened StoreRuns
  import E = Example

  // ---------- a V2 condition without rolebindingv2 ----------

  const DOC := "doc"
  const READ := "doc_get"

  function DocType(): ResourceType {
    ResourceType(DOC, "docprfx", None, [])
  }

  function ReadDocs(): ActionBinding {
    ActionBinding(READ, DOC, [Condition(false, true, None)], [])
  }

  function Bare(): PolicyDocument {
    PolicyDocument([DocType()], [], [READ], [ReadDocs()], None)
  }

  function NoOrders(): Orders {
    Orders([], [], [])
  }

  /** Without unions and RBAC the only binding is compiled to itself. */
  lemma OnlyBinding(p: PolicyDocument, o: Orders, d: ActionBinding)
    requires p.rbac == None && p.unions == [] && p.actionBindings == [d]
    ensures CompiledBindings(p, o) == [d]
  {
    E.BindingsStay([d]);
  }

  lemma BareTables()
    ensures CompiledTypes(Bare(), []) == map[DOC := DocType()]
    ensures CompiledBindings(Bare(), NoOrders()) == [ReadDocs()] && ActionNames(Bare()) == {READ}
  {
    OnlyType(Bare(), [], DocType());
    OnlyBinding(Bare(), NoOrders(), ReadDocs());
    assert Bare().actions == [READ];
  }

  lemma BareIsAccepted()
    ensures DocAccepted(Bare(), NoOrders(), E.AnyPrefix)
  {
    BareTables();
  }

  /** The only action of the schema, and its only clause, which names no relation. */
  function EmptyAction(): Action {
    Action(READ, [Condition(false, false, None)], [])
  }

  lemma BareActions()
    ensures CompileBinding(DocType(), ReadDocs()) == EmptyAction()
    ensures EmptyAction() in EmittedActions(DocType(), [ReadDocs()], DOC)
  {
    assert ReadDocs().conditions[..0] == [];
    EmittedActionsMembers(DocType(), [ReadDocs()], DOC, EmptyAction());
    assert ReadDocs() in [ReadDocs()];
  }

  lemma BareRelations()
    ensures EmittedRelationships(DocType(), [ReadDocs()], DOC) == []
  {
    assert [ReadDocs()][..0] == [] && ReadDocs().conditions[..0] == [];
    assert V1Relations(READ, ReadDocs().conditions) == [];
  }

  lemma BareEmits()
    ensures DOC in SchemaOf(Bare(), NoOrders()) && EmptyAction() in SchemaOf(Bare(), NoOrders())[DOC].actions
    ensures DistinctRelations(SchemaOf(Bare(), NoOrders()))
  {
    BareTables();
    BareActions();
    BareRelations();
  }

  /** Accepted, but neither ready nor closed, and its permission cannot be parsed. */
  lemma AcceptedButNotClosed()
    ensures DocAccepted(Bare(), NoOrders(), E.AnyPrefix) && DistinctRelations(SchemaOf(Bare(), NoOrders()))
    ensures !Closed(SchemaOf(Bare(), NoOrders()))
    ensures forall b :: b in CompiledBindings(Bare(), NoOrders()) ==> b.typeName in CompiledTypes(Bare(), [])
    ensures !Ready(CompiledTypes(Bare(), []), CompiledBindings(Bare(), NoOrders()))
    ensures EmptyAction() in SchemaOf(Bare(), NoOrders())[DOC].actions
    ensures forall loose :: Parse(loose, RenderAction(EmptyAction())) == None
  {
    BareIsAccepted();
    BareEmits();
    assert EmptyAction().conditions[0] in EmptyAction().conditions;
    assert !ClosedAction(SchemaOf(Bare(), NoOrders()), DOC, EmptyAction());
    AcceptedSchemaIsClosedIffReady(Bare(), NoOrders(), E.AnyPrefix);
    forall loose
      ensures Parse(loose, RenderAction(EmptyAction())) == None
    {
      PermissionParsesBack(loose, EmptyAction());
    }
  }

  // ---------- an action with the name of a relation ----------

  const READER := "reader"

  function ReaderRelation(): Relationship {
    Relationship(READER, [Plain(DOC)])
  }

  function ReadableDoc(): ResourceType {
    ResourceType(DOC, "docprfx", None, [ReaderRelation()])
  }

  function ReadByReaders(): ActionBinding {
    ActionBinding(READER, DOC, [Along(READER, "")], [])
  }

  function Clashing(): PolicyDocument {
    PolicyDocument([ReadableDoc()], [], [READER], [ReadByReaders()], None)
  }

  lemma OnlyType(p: PolicyDocument, order: seq<string>, t: ResourceType)
    requires p.rbac == None && p.unions == [] && p.resourceTypes == [t]
    ensures CompiledTypes(p, order) == map[t.name := t]
  {
    assert [t][..0] == [];
    assert TypeTable([t]) == map[t.name := t];
    forall i | 0 <= i < |t.relationships|
      ensures ExpandRelationship(map[], t.relationships[i]) == t.relationships[i]
    {
      E.NothingExpands(t.relationships[i].types);
    }
    assert ExpandType(map[], t).relationships == t.relationships;
    assert AugmentedTypes(p, order) == map[t.name := t] && UnionTable(p.unions) == map[];
  }

  lemma ClashingTables()
    ensures CompiledTypes(Clashing(), []) == map[DOC := ReadableDoc()]
    ensures CompiledBindings(Clashing(), NoOrders()) == [ReadByReaders()] && ActionNames(Clashing()) == {READER}
  {
    OnlyType(Clashing(), [], ReadableDoc());
    OnlyBinding(Clashing(), NoOrders(), ReadByReaders());
    assert Clashing().actions == [READER];
  }

  lemma OneTypeAccepted(t: ResourceType, rel: Relationship, bn: seq<ActionBinding>)
    requires t.relationships == [rel] && rel.types == [Plain(t.name)]
    ensures TypesAccepted(map[t.name := t], bn, E.AnyPrefix)
  {
    assert TargetAccepted(map[t.name := t], bn, Plain(t.name));
  }

  lemma OneBindingAccepted(t: ResourceType, rel: Relationship, b: ActionBinding)
    requires t.relationships == [rel] && t.name != "" && b.actionName != ""
    requires b.typeName == t.name && b.conditions == [Along(rel.relation, "")]
    ensures BindingsAccepted(map[t.name := t], {b.actionName}, [b])
  {
    assert FirstRelation([rel], rel.relation) == Some(rel);
    assert ConditionAccepted(t.relationships, [b], Along(rel.relation, ""));
    assert BindingAccepted(map[t.name := t], {b.actionName}, [b], b);
  }

  /** One type with one relation, to itself, and one action bound along it. */
  lemma AcceptedAlone(p: PolicyDocument, o: Orders, t: ResourceType, rel: Relationship, b: ActionBinding)
    requires p == PolicyDocument([t], [], [b.actionName], [b], None) && b.actionName != "" && t.name != ""
    requires t.relationships == [rel] && rel.types == [Plain(t.name)]
    requires b.typeName == t.name && b.conditions == [Along(rel.relation, "")]
    ensures DocAccepted(p, o, E.AnyPrefix)
  {
    OnlyType(p, o.roleActions, t);
    OnlyBinding(p, o, b);
    OneTypeAccepted(t, rel, [b]);
    OneBindingAccepted(t, rel, b);
    assert ActionNames(p) == {b.actionName} by {
      assert p.actions == [b.actionName];
    }
    assert ValidOrders(p, o);
    assert UnionsAccepted(p, map[t.name := t]) && RolesAccepted(p, map[t.name := t]);
  }

  lemma ClashingIsAccepted()
    ensures DocAccepted(Clashing(), NoOrders(), E.AnyPrefix)
  {
    AcceptedAlone(Clashing(), NoOrders(), ReadableDoc(), ReaderRelation(), ReadByReaders());
  }

  lemma ClashingIsNotReady()
    ensures !NamesReady(ReadableDoc(), [ReadByReaders()], DOC)
  {
    assert ReadByReaders() in [ReadByReaders()] && ReaderRelation() in ReadableDoc().relationships;
  }

  /** Accepted, but its schema declares the name both as a relation and as a permission. */
  lemma AcceptedButNotWellNamed()
    ensures DocAccepted(Clashing(), NoOrders(), E.AnyPrefix) && !WellNamed(SchemaOf(Clashing(), NoOrders()))
  {
    ClashingIsAccepted();
    ClashingTables();
    ClashingIsNotReady();
    AcceptedIsWellNamedIff(Clashing(), NoOrders(), E.AnyPrefix);
  }

  // ---------- a union among the subject types ----------

  const USER := "user"
  const ANYONE := "anyone"
  const ROLE := "rolev2"
  const BINDING := "rolebinding"
  const ACTIONS: seq<string> := [AVAILABLE_ROLES] + ROLE_BINDING_ACTIONS

  function UserType(): ResourceType {
    ResourceType(USER, "idntusr", None, [])
  }

  function TheRbac(): RBAC {
    RBAC(RBACResource(ROLE, "permrv2"), RBACResource(BINDING, "permrbn"), [ANYONE], [], [Plain(USER)])
  }

  function WithUnion(): PolicyDocument {
    PolicyDocument([UserType()], [Iapl.Union.Union(ANYONE, [Plain(USER)])], [], [], Some(TheRbac()))
  }

  function TheOrders(): Orders {
    Orders(ACTIONS, ACTIONS, [USER, ROLE, BINDING])
  }

  function Unions(): UnionMap {
    map[ANYONE := Iapl.Union.Union(ANYONE, [Plain(USER)])]
  }

  ghost function TheSystem(): System {
    System(WithUnion(), TheRbac(), TheOrders(), E.AnyPrefix)
  }

  lemma NamesDiffer()
    ensures USER !in {ANYONE, ROLE, BINDING} && ANYONE !in {ROLE, BINDING, ROLE_RELATION} && ROLE != BINDING
  {
    assert USER[0] != ANYONE[0] && ANYONE[0] != ROLE[0];
  }

  lemma ActionsAreDistinct()
    ensures forall i, j :: 0 <= i < j < |ACTIONS| ==> ACTIONS[i] != ACTIONS[j]
    ensures forall a :: a in ACTIONS ==> a != ""
  {
    var c, u, d := ROLE_BINDING_ACTIONS[0], ROLE_BINDING_ACTIONS[1], ROLE_BINDING_ACTIONS[2];
    var g, l := ROLE_BINDING_ACTIONS[3], ROLE_BINDING_ACTIONS[4];
    assert c[16] != u[16] && c[16] != d[16] && u[16] != d[16] && g[16] != l[16];
  }

  lemma Tables()
    ensures UnionTable(WithUnion().unions) == Unions()
    ensures TypeTable(WithUnion().resourceTypes) == map[USER := UserType()]
    ensures TypeNames(WithUnion()) == {USER, ROLE, BINDING}
    ensures ActionNames(WithUnion()) == set a | a in ACTIONS
  {
    assert [UserType()][..0] == [];
    assert WithUnion().unions[..0] == [];
  }

  lemma OrdersAreValid()
    ensures ValidOrders(WithUnion(), TheOrders())
  {
    Tables();
    ActionsAreDistinct();
    NamesDiffer();
  }

  lemma OnlyRoleBindings(p: PolicyDocument, r: RBAC, o: Orders)
    requires ValidOrders(p, o) && p.rbac == Some(r) && p.actionBindings == []
    requires r.roleOwners == []
    requires forall n :: n in o.types ==>
      n in GeneratedTypes(p, o.roleActions) && GeneratedTypes(p, o.roleActions)[n].roleBindingV2 == None
    ensures CompiledBindings(p, o) == RoleBindingBindings(r, o.bindingActions)
  {
    E.NothingAvailable(r, GeneratedTypes(p, o.roleActions), o.types);
  }

  lemma GeneratedHaveNoV2()
    ensures GeneratedTypes(WithUnion(), ACTIONS).Keys == {USER, ROLE, BINDING}
    ensures forall n :: n in {USER, ROLE, BINDING} ==> GeneratedTypes(WithUnion(), ACTIONS)[n].roleBindingV2 == None
  {
    Tables();
    NamesDiffer();
  }

  lemma Bindings()
    ensures ValidOrders(WithUnion(), TheOrders())
    ensures CompiledBindings(WithUnion(), TheOrders()) == RoleBindingBindings(TheRbac(), ACTIONS)
  {
    OrdersAreValid();
    GeneratedHaveNoV2();
    OnlyRoleBindings(WithUnion(), TheRbac(), TheOrders());
  }

  ghost predicate IsTarget(t: TargetType) {
    t in [Plain(USER), Plain(ROLE)]
  }

  /** The relations name types, and the union. */
  lemma TargetsBefore(typ: string, rel: Relationship, t: TargetType)
    requires HasRelation(WithUnion(), typ, rel) && t in rel.types
    ensures IsTarget(t) || t.name == ANYONE
  {
    Tables();
    NamesDiffer();
  }

  lemma TargetsAfter(typ: string, m: Relationship, t: TargetType)
    requires typ in {USER, ROLE, BINDING}
    ensures typ in CompiledTypes(WithUnion(), ACTIONS)
    ensures m in CompiledTypes(WithUnion(), ACTIONS)[typ].relationships && t in m.types ==> IsTarget(t)
  {
    Tables();
    OrdersAreValid();
    NamesDiffer();
    CompiledRelations(WithUnion(), ACTIONS, typ, m);
    if rel :| HasRelation(WithUnion(), typ, rel) && m == ExpandRelationship(Unions(), rel) && t in m.types {
      ExpandTargetsMembers(Unions(), rel.types, t);
      var tt :| tt in rel.types && t in ExpandTarget(Unions(), tt);
      TargetsBefore(typ, rel, tt);
    }
  }

  lemma TypesAreAccepted(bn: seq<ActionBinding>)
    ensures TypesAccepted(CompiledTypes(WithUnion(), ACTIONS), bn, E.AnyPrefix)
  {
    Tables();
    var rt := CompiledTypes(WithUnion(), ACTIONS);
    CompiledTypesNames(WithUnion(), ACTIONS);
    forall n, r, t | n in rt && r in rt[n].relationships && t in r.types
      ensures TargetAccepted(rt, bn, t)
    {
      TargetsAfter(n, r, t);
    }
  }

  lemma BindingsAreAccepted()
    ensures BindingsAccepted(CompiledTypes(WithUnion(), ACTIONS), ActionNames(WithUnion()),
      RoleBindingBindings(TheRbac(), ACTIONS))
  {
    var rt, bn := CompiledTypes(WithUnion(), ACTIONS), RoleBindingBindings(TheRbac(), ACTIONS);
    ActionsAreDistinct();
    Tables();
    CompiledTypesNames(WithUnion(), ACTIONS);
    assert BINDING in rt;
    forall b | b in bn
      ensures BindingAccepted(rt, ActionNames(WithUnion()), bn, b)
    {
      var i :| 0 <= i < |ACTIONS| && b == bn[i];
      E.GeneratedIsAccepted(rt, ActionNames(WithUnion()), bn, TheRbac(), ACTIONS[i]);
    }
  }

  lemma UnionNamesNoType()
    ensures UnionsAccepted(WithUnion(), CompiledTypes(WithUnion(), ACTIONS))
    ensures RolesAccepted(WithUnion(), CompiledTypes(WithUnion(), ACTIONS))
  {
    Tables();
    NamesDiffer();
    CompiledTypesNames(WithUnion(), ACTIONS);
  }

  lemma UnionIsAccepted()
    ensures DocAccepted(WithUnion(), TheOrders(), E.AnyPrefix)
  {
    Bindings();
    TypesAreAccepted(RoleBindingBindings(TheRbac(), ACTIONS));
    BindingsAreAccepted();
    UnionNamesNoType();
  }

  lemma AnyoneIsAUnion()
    ensures ANYONE in UnionTable(WithUnion().unions) && ROLE_RELATION !in UnionTable(WithUnion().unions)
    ensures AVAILABLE_ROLES in ActionNames(WithUnion()) && ANYONE in TheRbac().roleSubjectTypes && ROLE != BINDING
  {
    Tables();
    NamesDiffer();
    assert AVAILABLE_ROLES == ACTIONS[0];
  }

  /** Accepted, but the wildcard that a role needs for an action cannot be written. */
  lemma AcceptedButNotWritable()
    ensures DocAccepted(WithUnion(), TheOrders(), E.AnyPrefix) && ANYONE in TheRbac().roleSubjectTypes
    ensures AVAILABLE_ROLES in ActionNames(WithUnion())
    ensures !TheSystem().Writable({PermissionTuple(TheSystem(), "r", AVAILABLE_ROLES, ANYONE)})
  {
    UnionIsAccepted();
    AnyoneIsAUnion();
    WildcardIsAdmittedUnlessUnion(TheSystem(), "r", AVAILABLE_ROLES, ANYONE);
  }
}
