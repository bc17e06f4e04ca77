/** Roles and role bindings live in two stores, database rows and relationships
    (internal/query/roles_v2.go, rolebindings.go).  Step says what one operation may do to
    the pair, whichever of its external calls fail; Consistent is what every run keeps. */
module TwoStores {
  import opened Types
  import opened Rbac
  import opened Iapl
  import opened PolicyTables
  import opened PolicyMeaning
  import opened Permissions
  import opened RoleBindingMeaning
  import opened Relations

  function SubjectsMap(ts: seq<TargetType>): map<string, TargetType> {
    if ts == [] then map[] else
      var last := ts[|ts| - 1];
      SubjectsMap(ts[..|ts| - 1])[last.name := last]
  }

  /** The policy the engine runs with. */
  datatype System = System(p: PolicyDocument, r: RBAC, ghost orders: Orders, ghost validPrefix: string -> bool) {
    ghost predicate Sound() {
      && DocAccepted(p, orders, validPrefix)
      && OwnsRoles(p, r)
      && Separate()
    }

    /** Role types, subject types and the rest do not overlap. */
    ghost predicate Separate() {
      && r.roleResource.name != r.roleBindingResource.name
      && (forall t :: t in r.roleSubjectTypes ==> !OfRbac(r, t))
      && (forall t :: t in r.roleBindingSubjects ==> !OfRbac(r, t.name))
    }

    ghost function Schema(): Schema
      requires ValidOrders(p, orders)
    {
      SchemaOf(p, orders)
    }

    function Role(id: string): Object {
      Object(r.roleResource.name, id)
    }

    function Binding(id: string): Object {
      Object(r.roleBindingResource.name, id)
    }

    /** role#action_rel@type:* for each subject type */
    function PermissionTuples(role: string, actions: set<string>): Graph {
      set a, t | a in actions && t in r.roleSubjectTypes ::
        Tuple(Role(role), ActionToRelation(a), Subject(Object(t, "*"), ""))
    }

    function OwnerTuple(role: string, owner: Object): Tuple {
      Tuple(Role(role), ROLE_OWNER_RELATION, Subject(owner, ""))
    }

    function MemberTuple(role: string, owner: Object): Tuple {
      Tuple(owner, MEMBER_ROLE_RELATION, Subject(Role(role), ""))
    }

    function RoleTuples(role: string, owner: Object, actions: seq<string>): Graph {
      PermissionTuples(role, Elements(actions)) + {OwnerTuple(role, owner), MemberTuple(role, owner)}
    }

    function RoleTuple(binding: string, role: string): Tuple {
      Tuple(Binding(binding), ROLE_RELATION, Subject(Role(role), ""))
    }

    function GrantTuple(binding: string, resource: Object): Tuple {
      Tuple(resource, GRANT_RELATION, Subject(Binding(binding), ""))
    }

    predicate ValidSubject(x: Object) {
      x.typ in SubjectsMap(r.roleBindingSubjects)
    }

    function SubjectTuple(binding: string, x: Object): Tuple
      requires ValidSubject(x)
    {
      Tuple(Binding(binding), SUBJECT_RELATION, Subject(x, SubjectsMap(r.roleBindingSubjects)[x.typ].subjectRelation))
    }

    function SubjectTuples(binding: string, xs: seq<Object>): Graph
      requires forall x :: x in xs ==> ValidSubject(x)
    {
      set x | x in xs :: SubjectTuple(binding, x)
    }

    function BindingTuples(binding: string, resource: Object, role: string, xs: seq<Object>): Graph
      requires forall x :: x in xs ==> ValidSubject(x)
    {
      {RoleTuple(binding, role), GrantTuple(binding, resource)} + SubjectTuples(binding, xs)
    }

    /** The actions of a role as they are read back: from the wildcards of the first subject type. */
    function ReadActions(g: Graph, role: string): set<Option<string>> {
      if r.roleSubjectTypes == [] then {} else
        set t | t in g && t.res == Role(role) &&
          t.subj.obj == Object(r.roleSubjectTypes[0], "*") :: RelationToAction(t.relation)
    }

    /** What UpdateRoleV2 writes: an empty request changes nothing. */
    function UpdatedPermissions(g: Graph, role: string, actions: seq<string>): Graph {
      if actions == [] then g else
        var current := set a | a in ReadActions(g, role) && a.Some? :: a.value;
        g - PermissionTuples(role, current - Elements(actions)) + PermissionTuples(role, Elements(actions) - current)
    }

    predicate Touches(t: Tuple) {
      t.res.typ in {r.roleResource.name, r.roleBindingResource.name} ||
        t.subj.obj.typ in {r.roleResource.name, r.roleBindingResource.name}
    }

    /** The relationship store refuses tuples the schema does not admit. */
    ghost predicate Writable(g: Graph)
      requires ValidOrders(p, orders)
    {
      forall t :: t in g ==>
        exists target :: Declares(Schema(), t.res.typ, t.relation, target) && Admits(target, t.subj)
    }
  }

  // ---------- what is written, relationship by relationship ----------

  /** The target at i is the last one of its type. */
  predicate IsLastTarget(ts: seq<TargetType>, i: nat) {
    i < |ts| && forall j :: i < j < |ts| ==> ts[j].name != ts[i].name
  }

  /** Of several targets of one type the last one counts. */
  lemma {:induction false} LastTargetCounts(ts: seq<TargetType>, i: nat)
    requires IsLastTarget(ts, i)
    ensures ts[i].name in SubjectsMap(ts) && SubjectsMap(ts)[ts[i].name] == ts[i]
  {
    var init := ts[..|ts| - 1];
    if i < |init| {
      assert init[i] == ts[i];
      LastTargetCounts(init, i);
    }
  }

  lemma {:induction false} LastTarget(ts: seq<TargetType>, typ: string) returns (i: nat)
    requires typ in SubjectsMap(ts)
    ensures IsLastTarget(ts, i) && ts[i].name == typ
  {
    if ts[|ts| - 1].name == typ {
      i := |ts| - 1;
    } else {
      i := LastTarget(ts[..|ts| - 1], typ);
    }
  }

  /** The type may be bound exactly when the RBAC block lists it among the subjects. */
  lemma BindableTypes(sys: System, x: Object)
    ensures sys.ValidSubject(x) <==> exists t :: t in sys.r.roleBindingSubjects && t.name == x.typ
  {
    var ts := sys.r.roleBindingSubjects;
    if x.typ in SubjectsMap(ts) {
      var i := LastTarget(ts, x.typ);
      assert ts[i] in ts;
    }
    if t :| t in ts && t.name == x.typ {
      Bindable(ts, t);
    }
  }

  lemma {:induction false} Bindable(ts: seq<TargetType>, t: TargetType)
    requires t in ts
    ensures t.name in SubjectsMap(ts)
  {
    assert ts == ts[..|ts| - 1] + [ts[|ts| - 1]];
    if t in ts[..|ts| - 1] {
      Bindable(ts[..|ts| - 1], t);
    }
  }

  /** rolebinding#subject@x, with the subject relation that the RBAC block gives the type of x. */
  ghost predicate IsSubjectTuple(r: RBAC, binding: string, x: Object, t: Tuple) {
    exists i: nat :: IsLastTarget(r.roleBindingSubjects, i) && r.roleBindingSubjects[i].name == x.typ &&
      t == Tuple(Object(r.roleBindingResource.name, binding), "subject",
        Subject(x, r.roleBindingSubjects[i].subjectRelation))
  }

  lemma SubjectTupleIs(sys: System, binding: string, x: Object, t: Tuple)
    requires sys.ValidSubject(x)
    ensures IsSubjectTuple(sys.r, binding, x, t) <==> t == sys.SubjectTuple(binding, x)
  {
    var ts := sys.r.roleBindingSubjects;
    var i := LastTarget(ts, x.typ);
    LastTargetCounts(ts, i);
    forall j: nat | IsLastTarget(ts, j) && ts[j].name == x.typ
      ensures SubjectsMap(ts)[x.typ] == ts[j]
    {
      LastTargetCounts(ts, j);
    }
  }

  /** role#owner@owner, owner#member_role@role, and role#action_rel@type:* for all actions and
      subject types. */
  ghost predicate IsRoleTuple(r: RBAC, role: string, owner: Object, actions: seq<string>, t: Tuple) {
    || t == Tuple(Object(r.roleResource.name, role), "owner", Subject(owner, ""))
    || t == Tuple(owner, "member_role", Subject(Object(r.roleResource.name, role), ""))
    || exists a, typ :: a in actions && typ in r.roleSubjectTypes &&
         t == Tuple(Object(r.roleResource.name, role), a + "_rel", Subject(Object(typ, "*"), ""))
  }

  lemma RoleTuplesAre(sys: System, role: string, owner: Object, actions: seq<string>, t: Tuple)
    ensures t in sys.RoleTuples(role, owner, actions) <==> IsRoleTuple(sys.r, role, owner, actions, t)
  {
    assert forall a :: a in actions <==> a in Elements(actions);
  }

  /** rolebinding#role@role, resource#grant@rolebinding, and the subjects. */
  ghost predicate IsBindingTuple(r: RBAC, binding: string, resource: Object, role: string, xs: seq<Object>, t: Tuple) {
    || t == Tuple(Object(r.roleBindingResource.name, binding), "role", Subject(Object(r.roleResource.name, role), ""))
    || t == Tuple(resource, "grant", Subject(Object(r.roleBindingResource.name, binding), ""))
    || exists x :: x in xs && IsSubjectTuple(r, binding, x, t)
  }

  lemma SubjectTuplesAre(sys: System, binding: string, xs: seq<Object>, t: Tuple)
    requires forall x :: x in xs ==> sys.ValidSubject(x)
    ensures t in sys.SubjectTuples(binding, xs) <==> exists x :: x in xs && IsSubjectTuple(sys.r, binding, x, t)
  {
    forall x | x in xs
      ensures IsSubjectTuple(sys.r, binding, x, t) <==> t == sys.SubjectTuple(binding, x)
    {
      SubjectTupleIs(sys, binding, x, t);
    }
  }

  lemma BindingTuplesAre(sys: System, binding: string, resource: Object, role: string, xs: seq<Object>, t: Tuple)
    requires forall x :: x in xs ==> sys.ValidSubject(x)
    ensures t in sys.BindingTuples(binding, resource, role, xs) <==>
      IsBindingTuple(sys.r, binding, resource, role, xs, t)
  {
    SubjectTuplesAre(sys, binding, xs, t);
  }

  datatype RoleRow = RoleRow(name: string, manager: string, owner: Object)
  datatype BindingRow = BindingRow(resource: Object, manager: string)

  /** The committed rows, the relationships, and every ID handed out so far. */
  datatype Stores = Stores(
    roles: map<string, RoleRow>,
    bindings: map<string, BindingRow>,
    rels: Graph,
    ghost usedRoles: set<string>,
    ghost usedBindings: set<string>)

  /** Unfinished: relationships were written, but the rows were not committed. */
  datatype Outcome = Refused | Unfinished | Done

  datatype Event =
    | CreateRole(id: string, row: RoleRow, actions: seq<string>, outcome: Outcome)
    | UpdateRole(id: string, name: string, actions: seq<string>, outcome: Outcome)
    | DeleteRole(id: string, fromRole: bool, toRole: bool, outcome: Outcome)
    | CreateBinding(id: string, binding: BindingRow, role: string, subjects: seq<Object>, outcome: Outcome)
    | UpdateBinding(id: string, subjects: seq<Object>, outcome: Outcome)
    | DeleteBinding(id: string, outcome: Outcome)
    | Elsewhere(rels: Graph)

  ghost predicate Available(sys: System, g: Graph, resource: Object, role: string)
    requires sys.Sound()
  {
    Granted(sys.Schema(), g, resource, AVAILABLE_ROLES, Subject(sys.Role(role), ""))
  }

  predicate BoundTo(sys: System, g: Graph, role: string) {
    exists t :: t in g && t.res.typ == sys.r.roleBindingResource.name && t.relation == ROLE_RELATION &&
      t.subj.obj == sys.Role(role)
  }

  function FromRole(sys: System, g: Graph, role: string): Graph {
    set t | t in g && t.res == sys.Role(role)
  }

  function ToRole(sys: System, g: Graph, role: string, owner: Object): Graph {
    set t | t in g && t.res.typ == owner.typ && t.subj.obj == sys.Role(role)
  }

  function SubjectsOf(sys: System, g: Graph, binding: string): Graph {
    set t | t in g && t.res == sys.Binding(binding) && t.relation == SUBJECT_RELATION
  }

  function AboutBinding(sys: System, g: Graph, binding: string): Graph {
    set t | t in g && (t.res == sys.Binding(binding) || t.subj.obj == sys.Binding(binding))
  }

  ghost predicate RoleCreated(sys: System, s: Stores, id: string, row: RoleRow, actions: seq<string>, outcome: Outcome,
    s': Stores) {
    && id !in s.usedRoles && id != "*"
    && s' == s.(
      usedRoles := s.usedRoles + {id},
      roles := if outcome.Done? then s.roles[id := row] else s.roles,
      rels := if outcome.Refused? then s.rels else s.rels + sys.RoleTuples(id, row.owner, actions))
  }

  ghost predicate CreateRoleStep(sys: System, s: Stores, id: string, row: RoleRow, actions: seq<string>,
    outcome: Outcome, s': Stores)
    requires sys.Sound()
  {
    RoleCreated(sys, s, id, row, actions, outcome, s') && (!outcome.Refused? ==>
      sys.Writable(sys.RoleTuples(id, row.owner, actions)))
  }

  ghost predicate UpdateRoleStep(sys: System, s: Stores, id: string, name: string, actions: seq<string>,
    outcome: Outcome, s': Stores) {
    if outcome.Refused? then s' == s else
      && id in s.roles
      && s' == s.(
        rels := sys.UpdatedPermissions(s.rels, id, actions),
        roles := if outcome.Done? && name != "" then s.roles[id := s.roles[id].(name := name)] else s.roles)
  }

  ghost predicate DeleteRoleStep(sys: System, s: Stores, id: string, fromRole: bool, toRole: bool, outcome: Outcome,
    s': Stores) {
    if outcome.Refused? then s' == s else
      && id in s.roles && !BoundTo(sys, s.rels, id)
      && (outcome.Done? ==> fromRole && toRole)
      && s' == s.(
        rels := s.rels - (if fromRole then FromRole(sys, s.rels, id) else {}) -
          (if toRole then ToRole(sys, s.rels, id, s.roles[id].owner) else {}),
        roles := if outcome.Done? then s.roles - {id} else s.roles)
  }

  ghost predicate BindingCreated(sys: System, s: Stores, id: string, row: BindingRow, role: string,
    subjects: seq<Object>, outcome: Outcome, s': Stores) {
    && id !in s.usedBindings && id != "*" && !outcome.Unfinished?
    && s'.usedBindings == s.usedBindings + {id} && s'.usedRoles == s.usedRoles && s'.roles == s.roles
    && (if outcome.Refused? then s'.bindings == s.bindings && s'.rels == s.rels else
          && role in s.roles
          && (forall x :: x in subjects ==> sys.ValidSubject(x))
          && s'.bindings == s.bindings[id := row]
          && s'.rels == s.rels + sys.BindingTuples(id, row.resource, role, subjects))
  }

  ghost predicate CreateBindingStep(sys: System, s: Stores, id: string, row: BindingRow, role: string,
    subjects: seq<Object>, outcome: Outcome, s': Stores)
    requires sys.Sound()
  {
    BindingCreated(sys, s, id, row, role, subjects, outcome, s') && (!outcome.Refused? ==>
      Available(sys, s.rels, row.resource, role))
  }

  ghost predicate UpdateBindingStep(sys: System, s: Stores, id: string, subjects: seq<Object>, outcome: Outcome,
    s': Stores) {
    && !outcome.Unfinished?
    && if outcome.Refused? then s' == s else
         && id in s.bindings
         && (forall x :: x in subjects ==> sys.ValidSubject(x))
         && s' == s.(rels := s.rels - SubjectsOf(sys, s.rels, id) + sys.SubjectTuples(id, subjects))
  }

  ghost predicate DeleteBindingStep(sys: System, s: Stores, id: string, outcome: Outcome, s': Stores) {
    && !outcome.Unfinished?
    && if outcome.Refused? then s' == s else
         && id in s.bindings
         && s' == s.(bindings := s.bindings - {id}, rels := s.rels - AboutBinding(sys, s.rels, id))
  }

  /** Anything else may write relationships that touch neither roles nor role bindings. */
  ghost predicate ElsewhereStep(sys: System, s: Stores, rels: Graph, s': Stores) {
    s' == s.(rels := rels) && forall t :: sys.Touches(t) ==> (t in s.rels <==> t in rels)
  }

  ghost predicate Step(sys: System, s: Stores, e: Event, s': Stores)
    requires sys.Sound()
  {
    match e
    case CreateRole(id, row, actions, outcome) => CreateRoleStep(sys, s, id, row, actions, outcome, s')
    case UpdateRole(id, name, actions, outcome) => UpdateRoleStep(sys, s, id, name, actions, outcome, s')
    case DeleteRole(id, fromRole, toRole, outcome) => DeleteRoleStep(sys, s, id, fromRole, toRole, outcome, s')
    case CreateBinding(id, row, role, subjects, outcome) =>
      CreateBindingStep(sys, s, id, row, role, subjects, outcome, s')
    case UpdateBinding(id, subjects, outcome) => UpdateBindingStep(sys, s, id, subjects, outcome, s')
    case DeleteBinding(id, outcome) => DeleteBindingStep(sys, s, id, outcome, s')
    case Elsewhere(rels) => ElsewhereStep(sys, s, rels, s')
  }

  // ---------- the invariant ----------

  ghost predicate UsedIds(s: Stores) {
    s.roles.Keys <= s.usedRoles && s.bindings.Keys <= s.usedBindings && "*" !in s.usedRoles && "*" !in s.usedBindings
  }

  predicate IsPermission(sys: System, t: Tuple) {
    t.subj.obj.typ in sys.r.roleSubjectTypes && t.subj.obj.id == "*" && t.subj.relation == ""
  }

  /** Tuples that start at a role: its owner, or a permission wildcard. */
  ghost predicate FromRoleOk(sys: System, s: Stores, t: Tuple) {
    && t.res.id in s.usedRoles
    && (|| (t.relation == ROLE_OWNER_RELATION && !OfRbac(sys.r, t.subj.obj.typ) && t.subj.obj.id != "*")
        || (IsPermission(sys, t) && exists a :: t.relation == ActionToRelation(a)))
  }

  /** Tuples that end at a role: membership in its owner, or a binding of a role that exists and is owned. */
  ghost predicate ToRoleOk(sys: System, s: Stores, t: Tuple) {
    var id := t.subj.obj.id;
    && id in s.usedRoles && t.subj.relation == ""
    && (|| (t.relation == MEMBER_ROLE_RELATION && !OfRbac(sys.r, t.res.typ) && (id in s.roles ==>
      t.res == s.roles[id].owner))
        || (&& t.relation == ROLE_RELATION && t.res.typ == sys.r.roleBindingResource.name
            && id in s.roles && sys.MemberTuple(id, s.roles[id].owner) in s.rels))
  }

  /** Tuples that start at a role binding: its role or one of its subjects. */
  ghost predicate FromBindingOk(sys: System, s: Stores, t: Tuple) {
    && t.res.id in s.bindings
    && (|| (t.relation == ROLE_RELATION && t.subj.obj.typ == sys.r.roleResource.name)
        || (t.relation == SUBJECT_RELATION && sys.ValidSubject(t.subj.obj) &&
             t == sys.SubjectTuple(t.res.id, t.subj.obj)))
  }

  /** Tuples that end at a role binding: the grant from the resource of its row. */
  ghost predicate ToBindingOk(sys: System, s: Stores, t: Tuple) {
    t.subj.obj.id in s.bindings && t == sys.GrantTuple(t.subj.obj.id, s.bindings[t.subj.obj.id].resource)
  }

  ghost predicate TupleOk(sys: System, s: Stores, t: Tuple) {
    && (t.res.typ == sys.r.roleResource.name ==> FromRoleOk(sys, s, t))
    && (t.subj.obj.typ == sys.r.roleResource.name ==> ToRoleOk(sys, s, t))
    && (t.res.typ == sys.r.roleBindingResource.name ==> FromBindingOk(sys, s, t))
    && (t.subj.obj.typ == sys.r.roleBindingResource.name ==> ToBindingOk(sys, s, t))
  }

  /** The role of the binding is role, and no other. */
  ghost predicate HasRole(sys: System, s: Stores, id: string, role: string) {
    && role in s.roles && sys.RoleTuple(id, role) in s.rels
    && forall t :: t in s.rels && t.res == sys.Binding(id) && t.relation == ROLE_RELATION ==>
      t == sys.RoleTuple(id, role)
  }

  /** A binding row has exactly one role, which exists, and its grant. */
  ghost predicate BindingOk(sys: System, s: Stores, id: string)
    requires id in s.bindings
  {
    && !OfRbac(sys.r, s.bindings[id].resource.typ)
    && sys.GrantTuple(id, s.bindings[id].resource) in s.rels
    && exists role :: HasRole(sys, s, id, role)
  }

  /** A permission wildcard of a role exists for all subject types or for none. */
  ghost predicate Uniform(sys: System, g: Graph) {
    forall role: string, a: string, t, u :: t in sys.r.roleSubjectTypes && u in sys.r.roleSubjectTypes ==>
      (PermissionTuple(sys, role, a, t) in g ==> PermissionTuple(sys, role, a, u) in g)
  }

  function PermissionTuple(sys: System, role: string, action: string, typ: string): Tuple {
    Tuple(sys.Role(role), ActionToRelation(action), Subject(Object(typ, "*"), ""))
  }

  ghost predicate Consistent(sys: System, s: Stores) {
    && UsedIds(s)
    && (forall id :: id in s.roles ==> !OfRbac(sys.r, s.roles[id].owner.typ))
    && (forall t :: t in s.rels ==> TupleOk(sys, s, t))
    && (forall id :: id in s.bindings ==> BindingOk(sys, s, id))
    && Uniform(sys, s.rels)
  }

  // ---------- what a write may contain ----------

  /** Only types outside RBAC hold member_role. */
  lemma MemberRoleOutside(sys: System, role: string, owner: Object, actions: seq<string>)
    requires sys.Sound() && sys.Writable(sys.RoleTuples(role, owner, actions))
    ensures !OfRbac(sys.r, owner.typ) && owner.id != "*"
  {
    var t := sys.MemberTuple(role, owner);
    assert t in sys.RoleTuples(role, owner, actions);
    var target :| Declares(sys.Schema(), owner.typ, MEMBER_ROLE_RELATION, target) && Admits(target, t.subj);
    CompiledTypesNames(sys.p, sys.orders.roleActions);
    DeclaresAgree(sys.p, sys.orders, owner.typ, MEMBER_ROLE_RELATION, target);
    if OfRbac(sys.r, owner.typ) {
      RbacTypesHaveNoMembers(sys, owner.typ, target);
    }
    var o := sys.OwnerTuple(role, owner);
    assert o in sys.RoleTuples(role, owner, actions);
    var target' :|
      Declares(sys.Schema(), sys.r.roleResource.name, ROLE_OWNER_RELATION, target') && Admits(target', o.subj);
    OwnersAreNotWildcards(sys, target');
  }

  lemma RbacTypesHaveNoMembers(sys: System, typ: string, target: TargetType)
    requires sys.Sound() && OfRbac(sys.r, typ)
    ensures !DocDeclares(sys.p, typ, MEMBER_ROLE_RELATION, target)
  {
    forall d, c | BindsTo(sys.p, d, typ) && c in d.conditions && c.roleBinding
      ensures d.actionName + PERMISSION_SUFFIX != MEMBER_ROLE_RELATION
    {
      PermissionNames(d.actionName);
    }
    forall a: string
      ensures a + PERMISSION_SUFFIX != MEMBER_ROLE_RELATION
    {
      PermissionNames(a);
    }
  }

  lemma OwnersAreNotWildcards(sys: System, target: TargetType)
    requires sys.Sound()
    requires Declares(sys.Schema(), sys.r.roleResource.name, ROLE_OWNER_RELATION, target)
    ensures target.subjectIdentifier == ""
  {
    var p, rt := sys.p, CompiledTypes(sys.p, sys.orders.roleActions);
    OwnerTargets(p, sys.r, sys.orders, sys.validPrefix, target);
    var owner :| owner in sys.r.roleOwners && StandsFor(UnionTable(p.unions), TargetType(owner, "", ""), target);
    AcceptedUnionsAreConcrete(p, rt);
    assert owner in rt;
    StandsForItself(p, TargetType(owner, "", ""), target);
  }

  // ---------- every step keeps the invariant ----------

  lemma PermissionMembers(sys: System, id: string, actions: set<string>, role: string, a: string, typ: string)
    ensures PermissionTuple(sys, role, a, typ) in sys.PermissionTuples(id, actions) <==>
      role == id && a in actions && typ in sys.r.roleSubjectTypes
  {
    PermissionNames(a);
    if PermissionTuple(sys, role, a, typ) in sys.PermissionTuples(id, actions) {
      var b, t :| b in actions && t in sys.r.roleSubjectTypes &&
        PermissionTuple(sys, role, a, typ) == Tuple(sys.Role(id), ActionToRelation(b), Subject(Object(t, "*"), ""));
      PermissionNames(b);
    }
  }

  lemma {:induction false} SubjectsMapNames(ts: seq<TargetType>)
    ensures forall n :: n in SubjectsMap(ts) ==> SubjectsMap(ts)[n].name == n && SubjectsMap(ts)[n] in ts
  {
    if ts != [] {
      SubjectsMapNames(ts[..|ts| - 1]);
      assert ts == ts[..|ts| - 1] + [ts[|ts| - 1]];
    }
  }

  /** Relation names that role permissions never clash with. */
  lemma PermissionRelation(action: string)
    ensures ActionToRelation(action) !in {ROLE_OWNER_RELATION, MEMBER_ROLE_RELATION, ROLE_RELATION, SUBJECT_RELATION}
  {
    PermissionNames(action);
  }

  /** A binding stays complete while its tuples stay and no other role is written to it. */
  lemma BindingStaysOk(sys: System, s: Stores, s': Stores, b: string)
    requires b in s.bindings && BindingOk(sys, s, b)
    requires b in s'.bindings && s'.bindings[b] == s.bindings[b]
    requires sys.GrantTuple(b, s.bindings[b].resource) in s'.rels
    requires forall role :: role in s.roles && sys.RoleTuple(b, role) in s.rels ==>
      role in s'.roles && sys.RoleTuple(b, role) in s'.rels
    requires forall t :: t in s'.rels && t !in s.rels ==> t.res != sys.Binding(b) || t.relation != ROLE_RELATION
    ensures BindingOk(sys, s', b)
  {
    var role :| HasRole(sys, s, b, role);
    assert HasRole(sys, s', b, role);
  }

  lemma OldTuplesStayOk(sys: System, s: Stores, s': Stores, t: Tuple)
    requires sys.Separate() && Consistent(sys, s) && t in s.rels && s.rels <= s'.rels
    requires s.usedRoles <= s'.usedRoles
    requires forall id :: id in s.roles ==> id in s'.roles && s'.roles[id] == s.roles[id]
    requires forall id :: id in s'.roles && id in s.usedRoles ==> id in s.roles
    requires forall id :: id in s.bindings ==> id in s'.bindings && s'.bindings[id] == s.bindings[id]
    ensures TupleOk(sys, s', t)
  {
    assert TupleOk(sys, s, t);
  }

  lemma NewRoleTuplesOk(sys: System, s: Stores, id: string, row: RoleRow, actions: seq<string>, outcome: Outcome,
    s': Stores, t: Tuple)
    requires sys.Separate() && RoleCreated(sys, s, id, row, actions, outcome, s') && !outcome.Refused?
    requires !OfRbac(sys.r, row.owner.typ) && row.owner.id != "*"
    requires id !in s.roles && t in sys.RoleTuples(id, row.owner, actions)
    ensures TupleOk(sys, s', t)
  {
  }

  lemma CreateRoleKeeps(sys: System, s: Stores, id: string, row: RoleRow, actions: seq<string>, outcome: Outcome,
    s': Stores)
    requires sys.Sound() && Consistent(sys, s) && CreateRoleStep(sys, s, id, row, actions, outcome, s')
    ensures Consistent(sys, s')
  {
    if !outcome.Refused? {
      MemberRoleOutside(sys, id, row.owner, actions);
      CreateRoleUniform(sys, s, id, row, actions);
    }
    forall t | t in s'.rels
      ensures TupleOk(sys, s', t)
    {
      if t in s.rels {
        OldTuplesStayOk(sys, s, s', t);
      } else {
        NewRoleTuplesOk(sys, s, id, row, actions, outcome, s', t);
      }
    }
    CreateRoleKeepsBindings(sys, s, id, row, actions, outcome, s');
  }

  lemma RoleTuplesStartElsewhere(sys: System, id: string, owner: Object, actions: seq<string>)
    requires sys.Separate() && !OfRbac(sys.r, owner.typ)
    ensures forall t :: t in sys.RoleTuples(id, owner, actions) ==> t.res.typ != sys.r.roleBindingResource.name
  {
  }

  lemma CreateRoleKeepsBindings(sys: System, s: Stores, id: string, row: RoleRow, actions: seq<string>,
    outcome: Outcome, s': Stores)
    requires sys.Separate() && Consistent(sys, s) && RoleCreated(sys, s, id, row, actions, outcome, s')
    requires !outcome.Refused? ==> !OfRbac(sys.r, row.owner.typ)
    ensures forall b :: b in s'.bindings ==> BindingOk(sys, s', b)
  {
    if !outcome.Refused? {
      RoleTuplesStartElsewhere(sys, id, row.owner, actions);
    }
    assert forall t :: t in s'.rels && t !in s.rels ==> t.res.typ != sys.r.roleBindingResource.name;
    forall b | b in s'.bindings
      ensures BindingOk(sys, s', b)
    {
      BindingStaysOk(sys, s, s', b);
    }
  }

  lemma CreateRoleUniform(sys: System, s: Stores, id: string, row: RoleRow, actions: seq<string>)
    requires sys.Separate() && Consistent(sys, s) && id !in s.usedRoles
    ensures Uniform(sys, s.rels + sys.RoleTuples(id, row.owner, actions))
  {
    forall role: string, a: string, t, u | t in sys.r.roleSubjectTypes && u in sys.r.roleSubjectTypes &&
      PermissionTuple(sys, role, a, t) in s.rels + sys.RoleTuples(id, row.owner, actions)
      ensures PermissionTuple(sys, role, a, u) in s.rels + sys.RoleTuples(id, row.owner, actions)
    {
      PermissionMembers(sys, id, Elements(actions), role, a, t);
      PermissionMembers(sys, id, Elements(actions), role, a, u);
      PermissionRelation(a);
    }
  }

  lemma UpdateRoleKeeps(sys: System, s: Stores, id: string, name: string, actions: seq<string>, outcome: Outcome,
    s': Stores)
    requires sys.Separate() && Consistent(sys, s) && UpdateRoleStep(sys, s, id, name, actions, outcome, s')
    ensures Consistent(sys, s')
  {
    if !outcome.Refused? {
      UpdatedKeepsOthers(sys, s.rels, id, actions);
      forall t | t in s'.rels
        ensures TupleOk(sys, s', t)
      {
        if t in s.rels {
          assert TupleOk(sys, s, t);
          if ToRoleOk(sys, s, t) && t.subj.obj.id in s.roles {
            PermissionIsNotMember(sys, t.subj.obj.id, s.roles[t.subj.obj.id].owner);
          }
        }
      }
      forall b | b in s'.bindings
        ensures BindingOk(sys, s', b)
      {
        BindingStaysOk(sys, s, s', b);
      }
      UpdateRoleUniform(sys, s.rels, id, actions);
    }
  }

  /** An update adds and removes permission wildcards of its role only. */
  lemma UpdatedKeepsOthers(sys: System, g: Graph, id: string, actions: seq<string>)
    requires sys.Separate()
    ensures forall t :: t in g && !(t.res == sys.Role(id) && IsPermission(sys, t)) ==>
      t in sys.UpdatedPermissions(g, id, actions)
    ensures forall t :: t in sys.UpdatedPermissions(g, id, actions) && t !in g ==>
      t.res == sys.Role(id) && IsPermission(sys, t) && exists a :: t.relation == ActionToRelation(a)
  {
  }

  lemma PermissionIsNotMember(sys: System, id: string, owner: Object)
    requires sys.Separate() && !OfRbac(sys.r, owner.typ)
    ensures forall role :: sys.MemberTuple(id, owner).res != sys.Role(role)
  {
  }

  lemma UpdateRoleUniform(sys: System, g: Graph, id: string, actions: seq<string>)
    requires Uniform(sys, g)
    ensures Uniform(sys, sys.UpdatedPermissions(g, id, actions))
  {
    if actions != [] {
      var current := set a | a in sys.ReadActions(g, id) && a.Some? :: a.value;
      forall role: string, a: string, t, u | t in sys.r.roleSubjectTypes && u in sys.r.roleSubjectTypes &&
        PermissionTuple(sys, role, a, t) in sys.UpdatedPermissions(g, id, actions)
        ensures PermissionTuple(sys, role, a, u) in sys.UpdatedPermissions(g, id, actions)
      {
        PermissionMembers(sys, id, current - Elements(actions), role, a, t);
        PermissionMembers(sys, id, current - Elements(actions), role, a, u);
        PermissionMembers(sys, id, Elements(actions) - current, role, a, t);
        PermissionMembers(sys, id, Elements(actions) - current, role, a, u);
      }
    }
  }

  lemma DeleteRoleTupleOk(sys: System, s: Stores, id: string, fromRole: bool, toRole: bool, outcome: Outcome,
    s': Stores, t: Tuple)
    requires sys.Separate() && DeleteRoleStep(sys, s, id, fromRole, toRole, outcome, s')
    requires t in s'.rels && TupleOk(sys, s, t)
    requires forall role :: role in s.roles ==> !OfRbac(sys.r, s.roles[role].owner.typ)
    ensures TupleOk(sys, s', t)
  {
  }

  lemma DeleteRoleBindingOk(sys: System, s: Stores, id: string, fromRole: bool, toRole: bool, outcome: Outcome,
    s': Stores, b: string)
    requires sys.Separate() && DeleteRoleStep(sys, s, id, fromRole, toRole, outcome, s')
    requires b in s.bindings && BindingOk(sys, s, b)
    ensures BindingOk(sys, s', b)
  {
    BindingStaysOk(sys, s, s', b);
  }

  lemma DeleteRoleUniform(sys: System, s: Stores, id: string, fromRole: bool, toRole: bool, outcome: Outcome,
    s': Stores)
    requires sys.Separate() && Uniform(sys, s.rels) && DeleteRoleStep(sys, s, id, fromRole, toRole, outcome, s')
    ensures Uniform(sys, s'.rels)
  {
  }

  lemma DeleteRoleKeeps(sys: System, s: Stores, id: string, fromRole: bool, toRole: bool, outcome: Outcome, s': Stores)
    requires sys.Separate() && Consistent(sys, s) && DeleteRoleStep(sys, s, id, fromRole, toRole, outcome, s')
    ensures Consistent(sys, s')
  {
    forall t | t in s'.rels
      ensures TupleOk(sys, s', t)
    {
      DeleteRoleTupleOk(sys, s, id, fromRole, toRole, outcome, s', t);
    }
    forall b | b in s'.bindings
      ensures BindingOk(sys, s', b)
    {
      DeleteRoleBindingOk(sys, s, id, fromRole, toRole, outcome, s', b);
    }
    DeleteRoleUniform(sys, s, id, fromRole, toRole, outcome, s');
  }

  /** A role a binding may name is held by its owner, and the resource is not itself part of RBAC. */
  lemma AvailableIsOwned(sys: System, s: Stores, resource: Object, role: string)
    requires sys.Sound() && Consistent(sys, s) && role in s.usedRoles && Available(sys, s.rels, resource, role)
    ensures !OfRbac(sys.r, resource.typ)
    ensures role in s.roles ==> sys.MemberTuple(role, s.roles[role].owner) in s.rels
    ensures exists owner :: sys.MemberTuple(role, owner) in s.rels
  {
    var subject := Subject(sys.Role(role), "");
    if OfRbac(sys.r, resource.typ) {
      NotAvailableOnRoleTypes(sys.p, sys.r, sys.orders, sys.validPrefix, s.rels, resource, subject);
    }
    AvailabilityIsReachability(sys.p, sys.r, sys.orders, sys.validPrefix, s.rels, resource, subject);
    var owners := Owners(sys.p, sys.r, sys.orders, s.rels, subject);
    var path :|
      IsPath(sys.Schema(), s.rels, RolesPassedAlong(sys.p), path) && path[0] == resource && path[|path| - 1] in owners;
    var t := sys.MemberTuple(role, path[|path| - 1]);
    assert t in s.rels;
    assert TupleOk(sys, s, t);
  }

  lemma NewBindingTuplesOk(sys: System, s: Stores, id: string, row: BindingRow, role: string, subjects: seq<Object>,
    s': Stores, t: Tuple)
    requires sys.Separate() && UsedIds(s) && BindingCreated(sys, s, id, row, role, subjects, Done, s')
    requires !OfRbac(sys.r, row.resource.typ) && sys.MemberTuple(role, s.roles[role].owner) in s.rels
    requires t in sys.BindingTuples(id, row.resource, role, subjects)
    ensures TupleOk(sys, s', t)
  {
    SubjectsMapNames(sys.r.roleBindingSubjects);
  }

  lemma BindingTuplesHaveOneRole(sys: System, id: string, resource: Object, role: string, subjects: seq<Object>)
    requires !OfRbac(sys.r, resource.typ) && forall x :: x in subjects ==> sys.ValidSubject(x)
    ensures var ts := sys.BindingTuples(id, resource, role, subjects);
      forall t :: t in ts && t.res == sys.Binding(id) && t.relation == ROLE_RELATION ==> t == sys.RoleTuple(id, role)
  {
  }

  lemma NothingFromFreshBinding(sys: System, s: Stores, id: string)
    requires Consistent(sys, s) && id !in s.usedBindings
    ensures forall t :: t in s.rels ==> t.res != sys.Binding(id)
  {
    forall t | t in s.rels
      ensures t.res != sys.Binding(id)
    {
      assert TupleOk(sys, s, t);
    }
  }

  lemma NewBindingOk(sys: System, s: Stores, id: string, row: BindingRow, role: string, subjects: seq<Object>,
    s': Stores)
    requires Consistent(sys, s) && BindingCreated(sys, s, id, row, role, subjects, Done, s')
    requires !OfRbac(sys.r, row.resource.typ)
    ensures id in s'.bindings && BindingOk(sys, s', id)
  {
    NothingFromFreshBinding(sys, s, id);
    BindingTuplesHaveOneRole(sys, id, row.resource, role, subjects);
    assert HasRole(sys, s', id, role);
  }

  lemma CreateBindingTuplesOk(sys: System, s: Stores, id: string, row: BindingRow, role: string, subjects: seq<Object>,
    s': Stores)
    requires sys.Separate() && Consistent(sys, s) && BindingCreated(sys, s, id, row, role, subjects, Done, s')
    requires !OfRbac(sys.r, row.resource.typ) && sys.MemberTuple(role, s.roles[role].owner) in s.rels
    ensures forall t :: t in s'.rels ==> TupleOk(sys, s', t)
  {
    forall t | t in s'.rels
      ensures TupleOk(sys, s', t)
    {
      if t in s.rels {
        OldTuplesStayOk(sys, s, s', t);
      } else {
        NewBindingTuplesOk(sys, s, id, row, role, subjects, s', t);
      }
    }
  }

  lemma CreateBindingKeeps(sys: System, s: Stores, id: string, row: BindingRow, role: string, subjects: seq<Object>,
    outcome: Outcome, s': Stores)
    requires sys.Sound() && Consistent(sys, s) && CreateBindingStep(sys, s, id, row, role, subjects, outcome, s')
    ensures Consistent(sys, s')
  {
    if outcome.Done? {
      AvailableIsOwned(sys, s, row.resource, role);
      CreateBindingTuplesOk(sys, s, id, row, role, subjects, s');
      NewBindingOk(sys, s, id, row, role, subjects, s');
    }
    CreateBindingKeepsOthers(sys, s, id, row, role, subjects, outcome, s');
    CreateBindingUniform(sys, s, id, row, role, subjects, outcome, s');
  }

  lemma CreateBindingKeepsOthers(sys: System, s: Stores, id: string, row: BindingRow, role: string,
    subjects: seq<Object>, outcome: Outcome, s': Stores)
    requires UsedIds(s) && (forall b :: b in s.bindings ==> BindingOk(sys, s, b))
    requires BindingCreated(sys, s, id, row, role, subjects, outcome, s')
    requires outcome.Done? ==> !OfRbac(sys.r, row.resource.typ)
    ensures forall b :: b in s.bindings ==> b in s'.bindings && BindingOk(sys, s', b)
  {
    forall b | b in s.bindings
      ensures b in s'.bindings && BindingOk(sys, s', b)
    {
      BindingStaysOk(sys, s, s', b);
    }
  }

  lemma BindingTuplesAreNotPermissions(sys: System, id: string, resource: Object, role: string, subjects: seq<Object>)
    requires sys.r.roleResource.name != sys.r.roleBindingResource.name
    requires !OfRbac(sys.r, resource.typ) && forall x :: x in subjects ==> sys.ValidSubject(x)
    ensures forall t :: t in sys.BindingTuples(id, resource, role, subjects) ==> t.res.typ != sys.r.roleResource.name
  {
  }

  lemma UniformTransfers(sys: System, g: Graph, h: Graph)
    requires Uniform(sys, g) && forall t: Tuple :: t.res.typ == sys.r.roleResource.name ==> (t in g <==> t in h)
    ensures Uniform(sys, h)
  {
    forall role: string, a: string, t | t in sys.r.roleSubjectTypes
      ensures PermissionTuple(sys, role, a, t) in h <==> PermissionTuple(sys, role, a, t) in g
    {
    }
  }

  lemma CreateBindingUniform(sys: System, s: Stores, id: string, row: BindingRow, role: string, subjects: seq<Object>,
    outcome: Outcome, s': Stores)
    requires sys.Sound() && Consistent(sys, s) && CreateBindingStep(sys, s, id, row, role, subjects, outcome, s')
    requires outcome.Done? ==> !OfRbac(sys.r, row.resource.typ)
    ensures Uniform(sys, s'.rels)
  {
    if outcome.Done? {
      BindingTuplesAreNotPermissions(sys, id, row.resource, role, subjects);
      UniformTransfers(sys, s.rels, s'.rels);
    }
  }

  lemma UpdateBindingKeeps(sys: System, s: Stores, id: string, subjects: seq<Object>, outcome: Outcome, s': Stores)
    requires sys.Separate() && Consistent(sys, s) && UpdateBindingStep(sys, s, id, subjects, outcome, s')
    ensures Consistent(sys, s')
  {
    if outcome.Done? {
      SubjectsMapNames(sys.r.roleBindingSubjects);
      forall t | t in s'.rels
        ensures TupleOk(sys, s', t)
      {
        if t in s.rels {
          assert TupleOk(sys, s, t);
        }
      }
      forall b | b in s'.bindings
        ensures BindingOk(sys, s', b)
      {
        BindingStaysOk(sys, s, s', b);
      }
      forall role: string, a: string, t | t in sys.r.roleSubjectTypes
        ensures PermissionTuple(sys, role, a, t) in s'.rels <==> PermissionTuple(sys, role, a, t) in s.rels
      {
      }
    }
  }

  lemma DeleteBindingKeeps(sys: System, s: Stores, id: string, outcome: Outcome, s': Stores)
    requires sys.Separate() && Consistent(sys, s) && DeleteBindingStep(sys, s, id, outcome, s')
    ensures Consistent(sys, s')
  {
    if outcome.Done? {
      forall t | t in s'.rels
        ensures TupleOk(sys, s', t)
      {
        assert TupleOk(sys, s, t);
      }
      forall b | b in s'.bindings
        ensures BindingOk(sys, s', b)
      {
        BindingStaysOk(sys, s, s', b);
      }
      forall role: string, a: string, t | t in sys.r.roleSubjectTypes
        ensures PermissionTuple(sys, role, a, t) in s'.rels <==> PermissionTuple(sys, role, a, t) in s.rels
      {
      }
    }
  }

  lemma ElsewhereKeeps(sys: System, s: Stores, rels: Graph, s': Stores)
    requires sys.Separate() && Consistent(sys, s) && ElsewhereStep(sys, s, rels, s')
    ensures Consistent(sys, s')
  {
    forall t | t in s'.rels
      ensures TupleOk(sys, s', t)
    {
      if sys.Touches(t) {
        assert TupleOk(sys, s, t);
      }
    }
    forall b | b in s'.bindings
      ensures BindingOk(sys, s', b)
    {
      BindingStaysOk(sys, s, s', b);
    }
    forall role: string, a: string, t | t in sys.r.roleSubjectTypes
      ensures PermissionTuple(sys, role, a, t) in s'.rels <==> PermissionTuple(sys, role, a, t) in s.rels
    {
    }
  }

  lemma StepKeepsConsistent(sys: System, s: Stores, e: Event, s': Stores)
    requires sys.Sound() && Consistent(sys, s) && Step(sys, s, e, s')
    ensures Consistent(sys, s')
  {
    match e
    case CreateRole(id, row, actions, outcome) => CreateRoleKeeps(sys, s, id, row, actions, outcome, s');
    case UpdateRole(id, name, actions, outcome) => UpdateRoleKeeps(sys, s, id, name, actions, outcome, s');
    case DeleteRole(id, fromRole, toRole, outcome) => DeleteRoleKeeps(sys, s, id, fromRole, toRole, outcome, s');
    case CreateBinding(id, row, role, subjects, outcome) => CreateBindingKeeps(sys, s, id, row, role, subjects,
      outcome, s');
    case UpdateBinding(id, subjects, outcome) => UpdateBindingKeeps(sys, s, id, subjects, outcome, s');
    case DeleteBinding(id, outcome) => DeleteBindingKeeps(sys, s, id, outcome, s');
    case Elsewhere(rels) => ElsewhereKeeps(sys, s, rels, s');
  }
}
