/** What the RBAC V2 encoding grants: an action reaches a subject through a chain of
    inheritPermissionsFrom relations that ends at a grant, whose role binding names
    the subject and a role that carries the action (docs/rbac.md).  Role availability
    is reachability in the same way. */
module RoleBindingMeaning {
  import opened Types
  import opened Rbac
  import opened Iapl
  import opened PolicyTables
  import opened Permissions
  import opened PolicyMeaning
  import opened CompilerCorrectness

  // ---------- paths ----------

  /** For each type, the relations along which it inherits. */
  type Parents = map<string, seq<string>>

  /** y is one of x's parents along a relation in pass(type of x). */
  ghost predicate Parent(schema: Schema, g: Graph, pass: Parents, x: Object, y: Object) {
    exists f, held :: x.typ in pass && f in pass[x.typ] && Stored(schema, g, x, f, held) && held.obj == y
  }

  ghost predicate IsPath(schema: Schema, g: Graph, pass: Parents, path: seq<Object>) {
    path != [] && forall i :: 0 <= i < |path| - 1 ==> Parent(schema, g, pass, path[i], path[i + 1])
  }

  /** A path from x to an object that satisfies base. */
  ghost predicate Reaches(schema: Schema, g: Graph, pass: Parents, base: iset<Object>, x: Object) {
    exists path :: IsPath(schema, g, pass, path) && path[0] == x && path[|path| - 1] in base
  }

  lemma ReachesHere(schema: Schema, g: Graph, pass: Parents, base: iset<Object>, x: Object)
    requires x in base
    ensures Reaches(schema, g, pass, base, x)
  {
    assert IsPath(schema, g, pass, [x]);
  }

  lemma ReachesBeyond(schema: Schema, g: Graph, pass: Parents, base: iset<Object>, x: Object, y: Object)
    requires Parent(schema, g, pass, x, y) && Reaches(schema, g, pass, base, y)
    ensures Reaches(schema, g, pass, base, x)
  {
    var path :| IsPath(schema, g, pass, path) && path[0] == y && path[|path| - 1] in base;
    var longer := [x] + path;
    forall i | 0 <= i < |longer| - 1
      ensures Parent(schema, g, pass, longer[i], longer[i + 1])
    {
      if i > 0 {
        assert longer[i] == path[i - 1] && longer[i + 1] == path[i];
      }
    }
    assert longer[|longer| - 1] == path[|path| - 1];
    assert IsPath(schema, g, pass, longer);
  }

  /** In the region every parent in g is one in h, and stays in the region. */
  ghost predicate ParentsKept(schema: Schema, g: Graph, h: Graph, pass: Parents, region: iset<string>) {
    forall x: Object, y: Object :: x.typ in region && Parent(schema, g, pass, x, y) ==>
      y.typ in region && Parent(schema, h, pass, x, y)
  }

  lemma {:induction false} PathIsKept(schema: Schema, g: Graph, h: Graph, pass: Parents, region: iset<string>,
    path: seq<Object>, i: nat)
    requires ParentsKept(schema, g, h, pass, region)
    requires IsPath(schema, g, pass, path) && path[0].typ in region && i < |path|
    ensures path[i].typ in region && IsPath(schema, h, pass, path[..i + 1])
  {
    if i > 0 {
      PathIsKept(schema, g, h, pass, region, path, i - 1);
      assert Parent(schema, g, pass, path[i - 1], path[i]);
      var shorter, longer := path[..i], path[..i + 1];
      forall j | 0 <= j < i
        ensures Parent(schema, h, pass, longer[j], longer[j + 1])
      {
        assert j < i - 1 ==> Parent(schema, h, pass, shorter[j], shorter[j + 1]);
      }
    }
  }

  /** So what is reached in g is reached in h, if the goals in the region remain. */
  lemma ReachesStill(schema: Schema, g: Graph, h: Graph, pass: Parents, region: iset<string>, base: iset<Object>,
    base': iset<Object>, x: Object)
    requires ParentsKept(schema, g, h, pass, region) && x.typ in region && Reaches(schema, g, pass, base, x)
    requires forall y :: y in base && y.typ in region ==> y in base'
    ensures Reaches(schema, h, pass, base', x)
  {
    var path :| IsPath(schema, g, pass, path) && path[0] == x && path[|path| - 1] in base;
    PathIsKept(schema, g, h, pass, region, path, |path| - 1);
    assert path[..|path|] == path;
  }

  ghost predicate FromParent(schema: Schema, g: Graph, pass: Parents, n: nat, x: Object, name: string, s: Subject) {
    exists y :: Parent(schema, g, pass, x, y) && Holds(schema, g, n, y, name, s)
  }

  /** name is derived on objects of the region either directly (at) or from a parent, which stays in the region. */
  ghost predicate Derived(schema: Schema, g: Graph, pass: Parents, region: iset<string>,
    at: iset<(nat, Object)>, name: string, s: Subject)
  {
    && (forall n: nat, x: Object :: x.typ in region ==>
          (Holds(schema, g, n, x, name, s) <==>
             n > 0 && ((n - 1, x) in at || FromParent(schema, g, pass, n - 1, x, name, s))))
    && (forall x: Object, y: Object :: x.typ in region && Parent(schema, g, pass, x, y) ==> y.typ in region)
  }

  lemma {:induction false} DerivedReaches(schema: Schema, g: Graph, pass: Parents, region: iset<string>,
    at: iset<(nat, Object)>, base: iset<Object>, name: string, s: Subject, n: nat, x: Object)
    requires Derived(schema, g, pass, region, at, name, s)
    requires forall m: nat, y: Object :: y.typ in region && (m, y) in at ==> y in base
    requires x.typ in region && Holds(schema, g, n, x, name, s)
    ensures Reaches(schema, g, pass, base, x)
    decreases n
  {
    if (n - 1, x) in at {
      ReachesHere(schema, g, pass, base, x);
    } else {
      var y :| Parent(schema, g, pass, x, y) && Holds(schema, g, n - 1, y, name, s);
      DerivedReaches(schema, g, pass, region, at, base, name, s, n - 1, y);
      ReachesBeyond(schema, g, pass, base, x, y);
    }
  }

  lemma {:induction false} PathDerives(schema: Schema, g: Graph, pass: Parents, region: iset<string>,
    at: iset<(nat, Object)>, name: string, s: Subject, path: seq<Object>, m: nat)
    requires Derived(schema, g, pass, region, at, name, s)
    requires IsPath(schema, g, pass, path) && path[0].typ in region
    requires (m, path[|path| - 1]) in at
    ensures Granted(schema, g, path[0], name, s)
    decreases |path|
  {
    if |path| == 1 {
      assert Holds(schema, g, m + 1, path[0], name, s);
    } else {
      assert Parent(schema, g, pass, path[0], path[1]);
      forall i | 0 <= i < |path[1..]| - 1
        ensures Parent(schema, g, pass, path[1..][i], path[1..][i + 1])
      {
        assert Parent(schema, g, pass, path[i + 1], path[i + 2]);
      }
      PathDerives(schema, g, pass, region, at, name, s, path[1..], m);
      var n: nat :| Holds(schema, g, n, path[1], name, s);
      assert Holds(schema, g, n + 1, path[0], name, s);
    }
  }

  // ---------- what the document binds ----------

  ghost predicate BoundV2(p: PolicyDocument, action: string, typ: string) {
    && V2Of(p, typ).Some?
    && exists d, c :: BindsTo(p, d, typ) && d.actionName == action && c in d.conditions && !c.roleBinding &&
         c.roleBindingV2
  }

  ghost predicate BoundV1(p: PolicyDocument, action: string, typ: string) {
    exists d, c :: BindsTo(p, d, typ) && d.actionName == action && c in d.conditions && c.roleBinding
  }

  /** Grants on the type carry the action: a V2 condition binds it, or it manages role bindings there. */
  ghost predicate Carries(p: PolicyDocument, action: string, typ: string) {
    BoundV2(p, action, typ) || (action in ROLE_BINDING_ACTIONS && DocUsesV2(p, typ))
  }

  /** The relations along which a type inherits the action. */
  ghost function PassedAlong(p: PolicyDocument, action: string): Parents {
    map typ | typ in TypeNames(p) ::
      if (BoundV2(p, action, typ) && V2Of(p, typ).value.inheritAllActions) ||
        (action in ROLE_BINDING_ACTIONS && DocUsesV2(p, typ))
      then InheritsOf(p, typ) else []
  }

  /** The relations along which a type inherits available roles. */
  function RolesPassedAlong(p: PolicyDocument): Parents {
    map typ | typ in TypeNames(p) :: InheritsOf(p, typ)
  }

  ghost predicate OfRbac(r: RBAC, typ: string) {
    typ == r.roleResource.name || typ == r.roleBindingResource.name
  }

  /** The role types are the compiler's own: two different types, permissions held by wildcards
      of concrete types, no V1 conditions on roles. */
  ghost predicate OwnRoleTypes(p: PolicyDocument, r: RBAC) {
    && p.rbac == Some(r)
    && r.roleResource.name != r.roleBindingResource.name
    && (forall t :: t in r.roleSubjectTypes ==> t !in UnionTable(p.unions))
    && (forall d, c :: BindsTo(p, d, r.roleResource.name) && c in d.conditions ==> !c.roleBinding)
  }

  /** Nothing inherits from them either. */
  ghost predicate SoundRoleTypes(p: PolicyDocument, r: RBAC) {
    OwnRoleTypes(p, r) && InheritsOutside(p, r)
  }

  ghost predicate PassesAlong(p: PolicyDocument, action: string, typ: string, f: string) {
    typ in PassedAlong(p, action) && f in PassedAlong(p, action)[typ]
  }

  /** The types are outside RBAC, and so is whatever they inherit the action from. */
  ghost predicate ClosedRegion(p: PolicyDocument, r: RBAC, action: string, region: iset<string>) {
    && (forall typ :: typ in region ==> !OfRbac(r, typ))
    && (forall typ, f, t :: typ in region && PassesAlong(p, action, typ, f) && DocDeclares(p, typ, f, t) ==>
          t.name in region)
  }

  /** No binding gives the role type an action of the name: there only the relation bears it. */
  ghost predicate NotBoundOnRoles(p: PolicyDocument, r: RBAC, name: string) {
    forall d :: BindsTo(p, d, r.roleResource.name) ==> d.actionName != name
  }

  /** The action is governed by role bindings in a region of types: there every binding of it
      lists only role-binding conditions, grants lead to role bindings, and no relation of the
      region or of role bindings bears its name.  Other types may bind the action as they like. */
  ghost predicate Governed(p: PolicyDocument, r: RBAC, action: string, region: iset<string>) {
    && OwnRoleTypes(p, r)
    && action != AVAILABLE_ROLES && NotBoundOnRoles(p, r, action + PERMISSION_SUFFIX)
    && ClosedRegion(p, r, action, region)
    && (forall t :: !DocDeclares(p, r.roleBindingResource.name, action, t))
    && (forall typ, t :: typ in region ==> !DocDeclares(p, typ, action, t))
    && (forall typ, t :: typ in region && DocDeclares(p, typ, GRANT_RELATION, t) ==>
          t == Plain(r.roleBindingResource.name))
    && (forall typ, d :: typ in region && BindsTo(p, d, typ) && d.actionName == action ==> OnlyRoleBindings(d))
  }

  predicate OnlyRoleBindings(d: ActionBinding) {
    d.conditions != [] && forall c :: c in d.conditions ==> c.relationshipAction.None?
  }

  /** Nothing inherits from roles or role bindings. */
  ghost predicate InheritsOutside(p: PolicyDocument, r: RBAC) {
    forall typ, f, t :: f in InheritsOf(p, typ) && DocDeclares(p, typ, f, t) ==> !OfRbac(r, t.name)
  }

  lemma BoundTwice(p: PolicyDocument, r: RBAC, o: Orders, d: ActionBinding)
    requires ValidOrders(p, o) && UnionsAccepted(p, CompiledTypes(p, o.roleActions)) && p.rbac == Some(r)
    requires BindsTo(p, d, r.roleBindingResource.name) && d.actionName in ActionNames(p)
    ensures !DistinctBindings(CompiledBindings(p, o))
  {
    var typ := r.roleBindingResource.name;
    var b := d.(typeName := typ);
    BindingOfDocument(p, o, d, b, typ);
    ExpandBindingsMembers(UnionTable(p.unions), p.actionBindings, b);
    var bn := CompiledBindings(p, o);
    var rest := AvailableRolesBindings(r, GeneratedTypes(p, o.roleActions), o.types);
    var user := ExpandBindings(UnionTable(p.unions), p.actionBindings);
    var i :| 0 <= i < |o.bindingActions| && o.bindingActions[i] == d.actionName;
    var j :| 0 <= j < |user| && user[j] == b;
    var generated := RoleBindingBindings(r, o.bindingActions);
    assert generated[i] == RoleBindingBinding(r, d.actionName);
    assert bn == generated + rest + user;
    SameKeyTwice(generated, rest, user, i, j);
  }

  lemma SameKeyTwice(first: seq<ActionBinding>, rest: seq<ActionBinding>, last: seq<ActionBinding>, i: nat, j: nat)
    requires i < |first| && j < |last|
    requires first[i].actionName == last[j].actionName && first[i].typeName == last[j].typeName
    ensures !DistinctBindings(first + rest + last)
  {
    var bn, k := first + rest + last, |first| + |rest| + j;
    assert bn[i] == first[i] && bn[k] == last[j];
  }

  /** No binding of an accepted document is about the role-binding type: every action is bound there already. */
  lemma NothingBoundOnRoleBindings(p: PolicyDocument, r: RBAC, o: Orders, validPrefix: string -> bool, d: ActionBinding)
    requires DocAccepted(p, o, validPrefix) && p.rbac == Some(r)
    ensures !BindsTo(p, d, r.roleBindingResource.name)
  {
    if BindsTo(p, d, r.roleBindingResource.name) {
      BoundActionsAreNamed(p, o, validPrefix, d, r.roleBindingResource.name);
      BoundTwice(p, r, o, d);
    }
  }

  lemma BoundActionsAreNamed(p: PolicyDocument, o: Orders, validPrefix: string -> bool, d: ActionBinding, typ: string)
    requires DocAccepted(p, o, validPrefix) && BindsTo(p, d, typ)
    ensures d.actionName in ActionNames(p)
  {
    var b := d.(typeName := typ);
    BindingOfDocument(p, o, d, b, typ);
    CompiledBindingsMembers(p, o, b);
    assert BindingAccepted(CompiledTypes(p, o.roleActions), ActionNames(p), CompiledBindings(p, o), b);
  }

  // ---------- one step of a governed action ----------

  lemma RoleBindingConditionMeans(p: PolicyDocument, action: string, g: Graph, n: nat, x: Object, c: Condition,
    s: Subject)
    requires c.relationshipAction.None? && DocConditionHolds(p, g, n, x, action, c, s)
    ensures c.roleBinding ==> DocHolds(p, g, n, x, action + PERMISSION_SUFFIX, s)
    ensures !c.roleBinding ==> c.roleBindingV2 && V2Of(p, x.typ).Some?
    ensures !c.roleBinding ==>
      GrantedOrInherited(p, g, n, x, action,
        if V2Of(p, x.typ).value.inheritAllActions then InheritsOf(p, x.typ) else [], s)
  {
    assert !DocClauseHolds(p, g, n, x, c.relationshipAction, s);
  }

  lemma GovernedBindingMeans(p: PolicyDocument, action: string, g: Graph, n: nat, x: Object, d: ActionBinding,
    s: Subject)
    requires OnlyRoleBindings(d) && BindsTo(p, d, x.typ) && d.actionName == action && x.typ in TypeNames(p)
    requires DocBindingHolds(p, g, n, x, d, s)
    ensures ByRoleBinding(p, action, g, n, x, s)
  {
    var c :| c in d.conditions && DocConditionHolds(p, g, n, x, action, c, s);
    RoleBindingConditionMeans(p, action, g, n, x, c, s);
    if c.roleBinding {
      assert BoundV1(p, action, x.typ);
    } else {
      assert BoundV2(p, action, x.typ);
    }
  }

  /** The action by role bindings, one level down. */
  ghost predicate ByRoleBinding(p: PolicyDocument, action: string, g: Graph, n: nat, x: Object, s: Subject)
    requires x.typ in TypeNames(p)
  {
    || (BoundV1(p, action, x.typ) && DocHolds(p, g, n, x, action + PERMISSION_SUFFIX, s))
    || (Carries(p, action, x.typ) && GrantedOrInherited(p, g, n, x, action, PassedAlong(p, action)[x.typ], s))
  }

  lemma GovernedOnly(p: PolicyDocument, r: RBAC, action: string, region: iset<string>, g: Graph, n: nat, x: Object,
    s: Subject)
    requires Governed(p, r, action, region) && x.typ in region && x.typ in TypeNames(p)
    requires DocHolds(p, g, n + 1, x, action, s)
    ensures ByRoleBinding(p, action, g, n, x, s)
  {
    forall held
      ensures !DocStored(p, g, x, action, held)
    {
    }
    if d :| BindsTo(p, d, x.typ) && d.actionName == action && DocBindingHolds(p, g, n, x, d, s) {
      assert OnlyRoleBindings(d);
      GovernedBindingMeans(p, action, g, n, x, d, s);
    }
  }

  lemma GovernedEnough(p: PolicyDocument, action: string, g: Graph, n: nat, x: Object, s: Subject)
    requires x.typ in TypeNames(p) && ByRoleBinding(p, action, g, n, x, s)
    ensures DocHolds(p, g, n + 1, x, action, s)
  {
    if BoundV1(p, action, x.typ) && DocHolds(p, g, n, x, action + PERMISSION_SUFFIX, s) {
      var d, c :| BindsTo(p, d, x.typ) && d.actionName == action && c in d.conditions && c.roleBinding;
      GovernedV1(p, g, n, x, d, c, s);
    } else {
      GovernedCarries(p, action, g, n, x, s);
    }
  }

  /** A governed action holds exactly by a role binding one level down. */
  lemma GovernedExactly(p: PolicyDocument, r: RBAC, action: string, region: iset<string>, g: Graph, n: nat, x: Object,
    s: Subject)
    requires Governed(p, r, action, region) && x.typ in region && x.typ in TypeNames(p)
    ensures DocHolds(p, g, n + 1, x, action, s) <==> ByRoleBinding(p, action, g, n, x, s)
  {
    if DocHolds(p, g, n + 1, x, action, s) {
      GovernedOnly(p, r, action, region, g, n, x, s);
    }
    if ByRoleBinding(p, action, g, n, x, s) {
      GovernedEnough(p, action, g, n, x, s);
    }
  }

  lemma UnnamedHoldsNothing(p: PolicyDocument, o: Orders, validPrefix: string -> bool, g: Graph, n: nat, x: Object,
    name: string, s: Subject)
    requires DocAccepted(p, o, validPrefix) && x.typ !in TypeNames(p)
    ensures !DocHolds(p, g, n, x, name, s)
  {
    CompilerPreservesMeaning(p, o, validPrefix, g, n, s);
    CompiledTypesNames(p, o.roleActions);
  }

  lemma GovernedV1(p: PolicyDocument, g: Graph, n: nat, x: Object, d: ActionBinding, c: Condition, s: Subject)
    requires BindsTo(p, d, x.typ) && c in d.conditions && c.roleBinding
    requires DocHolds(p, g, n, x, d.actionName + PERMISSION_SUFFIX, s)
    ensures DocHolds(p, g, n + 1, x, d.actionName, s)
  {
    assert DocConditionHolds(p, g, n, x, d.actionName, c, s);
    assert DocBindingHolds(p, g, n, x, d, s);
  }

  lemma GovernedCarries(p: PolicyDocument, action: string, g: Graph, n: nat, x: Object, s: Subject)
    requires x.typ in TypeNames(p) && Carries(p, action, x.typ)
    requires GrantedOrInherited(p, g, n, x, action, PassedAlong(p, action)[x.typ], s)
    ensures DocHolds(p, g, n + 1, x, action, s)
  {
    if action in ROLE_BINDING_ACTIONS && DocUsesV2(p, x.typ) {
    } else {
      var d, c :|
        BindsTo(p, d, x.typ) && d.actionName == action && c in d.conditions && !c.roleBinding && c.roleBindingV2;
      assert DocConditionHolds(p, g, n, x, action, c, s);
      assert DocBindingHolds(p, g, n, x, d, s);
    }
  }

  // ---------- a grant: role binding, role and subject ----------

  function Wildcard(s: Subject): Subject {
    Subject(Object(s.obj.typ, "*"), "")
  }

  lemma PermissionNames(action: string)
    ensures action + PERMISSION_SUFFIX !in [ROLE_OWNER_RELATION, MEMBER_ROLE_RELATION, ROLE_RELATION, SUBJECT_RELATION]
    ensures forall a :: a + PERMISSION_SUFFIX == action + PERMISSION_SUFFIX ==> a == action
  {
    var name := action + PERMISSION_SUFFIX;
    assert name[|action|] == '_';
    forall a | a + PERMISSION_SUFFIX == name
      ensures a == action
    {
      assert (a + PERMISSION_SUFFIX)[..|a|] == a && name[..|action|] == action;
    }
  }

  lemma StandsForItself(p: PolicyDocument, t: TargetType, m: TargetType)
    requires t.name !in UnionTable(p.unions) && StandsFor(UnionTable(p.unions), t, m)
    ensures t == m
  {
  }

  /** The only targets of a permission relation of the role type are wildcards. */
  lemma RolePermissionTargets(p: PolicyDocument, r: RBAC, action: string, t: TargetType)
    requires OwnRoleTypes(p, r)
    requires DocDeclares(p, r.roleResource.name, action + PERMISSION_SUFFIX, t)
    ensures t.subjectIdentifier == "*" && t.subjectRelation == "" && t.name in r.roleSubjectTypes
  {
    var typ, name := r.roleResource.name, action + PERMISSION_SUFFIX;
    PermissionNames(action);
    var rel, tt :|
      HasRelation(p, typ, rel) && rel.relation == name && tt in rel.types && StandsFor(UnionTable(p.unions), tt, t);
    var a :| a in ActionNames(p) && rel == RolePermission(r, a);
    StandsForItself(p, tt, t);
  }

  lemma PermissionIsNoOwnAction(action: string)
    ensures action + PERMISSION_SUFFIX != AVAILABLE_ROLES && action + PERMISSION_SUFFIX !in ROLE_BINDING_ACTIONS
  {
    assert (action + PERMISSION_SUFFIX)[|action| + 3] == 'l';
  }

  lemma NoActionOnRole(p: PolicyDocument, r: RBAC, o: Orders, validPrefix: string -> bool, action: string, g: Graph,
    n: nat, role: Object, s: Subject)
    requires DocAccepted(p, o, validPrefix) && OwnRoleTypes(p, r)
    requires NotBoundOnRoles(p, r, action + PERMISSION_SUFFIX)
    requires role.typ == r.roleResource.name
    ensures !DocAllows(p, g, n, role, action + PERMISSION_SUFFIX, s)
  {
    PermissionIsNoOwnAction(action);
  }

  lemma DocHoldsSplit(p: PolicyDocument, g: Graph, n: nat, x: Object, name: string, s: Subject)
    ensures DocHolds(p, g, n + 1, x, name, s) <==>
      (exists held :: DocStored(p, g, x, name, held) && DocCovers(p, g, n, held, s)) || DocAllows(p, g, n, x, name, s)
  {
  }

  lemma OnlyTheWildcardCovers(p: PolicyDocument, r: RBAC, action: string, g: Graph, n: nat, role: Object,
    held: Subject, s: Subject)
    requires OwnRoleTypes(p, r) && role.typ == r.roleResource.name && Concrete(s)
    requires DocStored(p, g, role, action + PERMISSION_SUFFIX, held)
    ensures DocCovers(p, g, n, held, s) <==> held == Wildcard(s)
  {
    var t :| DocDeclares(p, role.typ, action + PERMISSION_SUFFIX, t) && Admits(t, held);
    RolePermissionTargets(p, r, action, t);
  }

  lemma HoldsByWildcard(p: PolicyDocument, g: Graph, n: nat, x: Object, name: string, s: Subject)
    requires forall held :: DocStored(p, g, x, name, held) ==> (DocCovers(p, g, n, held, s) <==> held == Wildcard(s))
    requires !DocAllows(p, g, n, x, name, s)
    ensures DocHolds(p, g, n + 1, x, name, s) <==> DocStored(p, g, x, name, Wildcard(s))
  {
    DocHoldsSplit(p, g, n, x, name, s);
  }

  lemma OnlyWildcardsCover(p: PolicyDocument, r: RBAC, action: string, g: Graph, n: nat, role: Object, s: Subject)
    requires OwnRoleTypes(p, r) && role.typ == r.roleResource.name && Concrete(s)
    ensures forall held :: DocStored(p, g, role, action + PERMISSION_SUFFIX, held) ==>
      (DocCovers(p, g, n, held, s) <==> held == Wildcard(s))
  {
    forall held | DocStored(p, g, role, action + PERMISSION_SUFFIX, held)
      ensures DocCovers(p, g, n, held, s) <==> held == Wildcard(s)
    {
      OnlyTheWildcardCovers(p, r, action, g, n, role, held, s);
    }
  }

  lemma RoleCarries(p: PolicyDocument, r: RBAC, o: Orders, validPrefix: string -> bool, action: string, g: Graph,
    n: nat, role: Object, s: Subject)
    requires DocAccepted(p, o, validPrefix) && OwnRoleTypes(p, r)
    requires NotBoundOnRoles(p, r, action + PERMISSION_SUFFIX)
    requires role.typ == r.roleResource.name && Concrete(s)
    ensures DocHolds(p, g, n, role, action + PERMISSION_SUFFIX, s) <==>
      (n > 0 && DocStored(p, g, role, action + PERMISSION_SUFFIX, Wildcard(s)))
  {
    if n > 0 {
      NoActionOnRole(p, r, o, validPrefix, action, g, n - 1, role, s);
      OnlyWildcardsCover(p, r, action, g, n - 1, role, s);
      HoldsByWildcard(p, g, n - 1, role, action + PERMISSION_SUFFIX, s);
    }
  }

  lemma RoleOfBindingTargets(p: PolicyDocument, r: RBAC, o: Orders, validPrefix: string -> bool, t: TargetType)
    requires DocAccepted(p, o, validPrefix) && p.rbac == Some(r)
    requires DocDeclares(p, r.roleBindingResource.name, ROLE_RELATION, t)
    ensures t == Plain(r.roleResource.name)
  {
    CompiledTypesNames(p, o.roleActions);
    DeclaresAgree(p, o, r.roleBindingResource.name, ROLE_RELATION, t);
    RoleTargetIsTheRole(p, r, o, validPrefix, t);
  }

  // ---------- what the generated types declare ----------

  /** A relation of the type has the target before V1 conditions add theirs. */
  ghost predicate Relates(p: PolicyDocument, typ: string, relation: string, t: TargetType) {
    exists rel, tt :: HasRelation(p, typ, rel) && rel.relation == relation && tt in rel.types &&
      StandsFor(UnionTable(p.unions), tt, t)
  }

  lemma UnboundRelates(p: PolicyDocument, typ: string, relation: string, t: TargetType)
    requires forall d :: !BindsTo(p, d, typ)
    ensures DocDeclares(p, typ, relation, t) <==> Relates(p, typ, relation, t)
  {
  }

  /** Nothing of the document adds to the relations of the role-binding type. */
  lemma BindingTypeDeclares(p: PolicyDocument, r: RBAC, o: Orders, validPrefix: string -> bool, relation: string,
    t: TargetType)
    requires DocAccepted(p, o, validPrefix) && p.rbac == Some(r)
    ensures Declares(SchemaOf(p, o), r.roleBindingResource.name, relation, t) <==>
      Relates(p, r.roleBindingResource.name, relation, t)
  {
    forall d
      ensures !BindsTo(p, d, r.roleBindingResource.name)
    {
      NothingBoundOnRoleBindings(p, r, o, validPrefix, d);
    }
    UnboundRelates(p, r.roleBindingResource.name, relation, t);
    DeclaresAgree(p, o, r.roleBindingResource.name, relation, t);
  }

  /** subject accepts what the RBAC block lists, subject relations included, and what its unions stand for. */
  lemma SubjectTargets(p: PolicyDocument, r: RBAC, o: Orders, validPrefix: string -> bool, t: TargetType)
    requires DocAccepted(p, o, validPrefix) && p.rbac == Some(r)
    ensures Declares(SchemaOf(p, o), r.roleBindingResource.name, "subject", t) <==>
      exists tt :: tt in r.roleBindingSubjects && StandsFor(UnionTable(p.unions), tt, t)
  {
    BindingTypeDeclares(p, r, o, validPrefix, SUBJECT_RELATION, t);
    var rel := Relationship(SUBJECT_RELATION, r.roleBindingSubjects);
    assert HasRelation(p, r.roleBindingResource.name, rel);
    assert rel.relation != MEMBER_ROLE_RELATION && rel.relation != ROLE_RELATION;
  }

  lemma RelatesToRoles(p: PolicyDocument, r: RBAC, t: TargetType)
    requires p.rbac == Some(r) && r.roleResource.name !in UnionTable(p.unions)
    ensures Relates(p, r.roleBindingResource.name, ROLE_RELATION, t) <==> t == TargetType(r.roleResource.name, "", "")
  {
    var own := TargetType(r.roleResource.name, "", "");
    var rel := Relationship(ROLE_RELATION, [own]);
    assert HasRelation(p, r.roleBindingResource.name, rel) && own in rel.types;
    assert Stands(UnionTable(p.unions), 0, own, own);
    if StandsFor(UnionTable(p.unions), own, t) {
      StandsForItself(p, own, t);
    }
    assert rel.relation != MEMBER_ROLE_RELATION && rel.relation != SUBJECT_RELATION;
  }

  /** role accepts roles, and nothing else. */
  lemma RoleTargetIsTheRole(p: PolicyDocument, r: RBAC, o: Orders, validPrefix: string -> bool, t: TargetType)
    requires DocAccepted(p, o, validPrefix) && p.rbac == Some(r)
    ensures Declares(SchemaOf(p, o), r.roleBindingResource.name, "role", t) <==>
      t == TargetType(r.roleResource.name, "", "")
  {
    AcceptedUnionsAreConcrete(p, CompiledTypes(p, o.roleActions));
    CompiledTypesNames(p, o.roleActions);
    BindingTypeDeclares(p, r, o, validPrefix, ROLE_RELATION, t);
    RelatesToRoles(p, r, t);
  }

  lemma RelationsOfRoles(p: PolicyDocument, r: RBAC, rel: Relationship)
    requires p.rbac == Some(r) && r.roleResource.name != r.roleBindingResource.name
    ensures HasRelation(p, r.roleResource.name, rel) && rel.relation == ROLE_OWNER_RELATION <==> IsOwnerRelation(r, rel)
    ensures forall a :: HasRelation(p, r.roleResource.name, rel) && rel.relation == a + PERMISSION_SUFFIX <==>
      a in ActionNames(p) && IsPermissionRelation(r, a, rel)
  {
    forall a: string
      ensures a + PERMISSION_SUFFIX !in [ROLE_OWNER_RELATION, MEMBER_ROLE_RELATION]
      ensures forall b :: b + PERMISSION_SUFFIX == a + PERMISSION_SUFFIX ==> a == b
    {
      PermissionNames(a);
    }
  }

  /** owner accepts the types that own roles, and what its unions stand for. */
  lemma OwnerTargets(p: PolicyDocument, r: RBAC, o: Orders, validPrefix: string -> bool, t: TargetType)
    requires DocAccepted(p, o, validPrefix) && p.rbac == Some(r) && r.roleResource.name != r.roleBindingResource.name
    ensures Declares(SchemaOf(p, o), r.roleResource.name, "owner", t) <==>
      exists owner :: owner in r.roleOwners && StandsFor(UnionTable(p.unions), TargetType(owner, "", ""), t)
  {
    DeclaresAgree(p, o, r.roleResource.name, ROLE_OWNER_RELATION, t);
    forall a: string
      ensures a + PERMISSION_SUFFIX != ROLE_OWNER_RELATION
    {
      PermissionNames(a);
    }
    forall rel
      ensures HasRelation(p, r.roleResource.name, rel) && rel.relation == ROLE_OWNER_RELATION <==>
        IsOwnerRelation(r, rel)
    {
      RelationsOfRoles(p, r, rel);
    }
    MadeRelations(r, "", RoleOwner(r));
    if owner :| owner in r.roleOwners && StandsFor(UnionTable(p.unions), TargetType(owner, "", ""), t) {
      var i :| 0 <= i < |r.roleOwners| && r.roleOwners[i] == owner;
      assert RoleOwner(r).types[i] in RoleOwner(r).types;
    }
  }

  /** action_rel accepts the wildcards of the subject types, as their unions stand for them, and
      V1 roles where a V1 condition binds the action on roles. */
  lemma PermissionTargets(p: PolicyDocument, r: RBAC, o: Orders, validPrefix: string -> bool, action: string,
    t: TargetType)
    requires DocAccepted(p, o, validPrefix) && p.rbac == Some(r) && r.roleResource.name != r.roleBindingResource.name
    ensures Declares(SchemaOf(p, o), r.roleResource.name, action + "_rel", t) <==>
      || (action in ActionNames(p) && exists typ ::
            typ in r.roleSubjectTypes && StandsFor(UnionTable(p.unions), TargetType(typ, "*", ""), t))
      || (t == TargetType("role", "", "subject") && BoundV1(p, action, r.roleResource.name))
  {
    PermissionNames(action);
    DeclaresAgree(p, o, r.roleResource.name, action + PERMISSION_SUFFIX, t);
    forall rel
      ensures HasRelation(p, r.roleResource.name, rel) && rel.relation == action + PERMISSION_SUFFIX <==>
        action in ActionNames(p) && IsPermissionRelation(r, action, rel)
    {
      RelationsOfRoles(p, r, rel);
    }
    var made := RolePermission(r, action);
    MadeRelations(r, action, made);
    if typ :| typ in r.roleSubjectTypes && StandsFor(UnionTable(p.unions), TargetType(typ, "*", ""), t) {
      var i :| 0 <= i < |r.roleSubjectTypes| && r.roleSubjectTypes[i] == typ;
      assert made.types[i] in made.types;
    }
  }

  /** On a role binding nothing but the generated binding allows an action. */
  lemma OnlyTheRoleBindingAllows(p: PolicyDocument, r: RBAC, o: Orders, validPrefix: string -> bool, action: string,
    g: Graph, n: nat, rb: Object, s: Subject)
    requires DocAccepted(p, o, validPrefix) && p.rbac == Some(r) && rb.typ == r.roleBindingResource.name
    requires action == AVAILABLE_ROLES ==> rb.typ !in r.roleOwners
    ensures DocAllows(p, g, n, rb, action, s) <==> OnRoleBinding(p, r, g, n, rb, action, s)
  {
    forall d
      ensures !BindsTo(p, d, rb.typ)
    {
      NothingBoundOnRoleBindings(p, r, o, validPrefix, d);
    }
    assert InheritsOf(p, rb.typ) == [];
  }

  lemma NothingStored(p: PolicyDocument, g: Graph, n: nat, x: Object, name: string, s: Subject)
    requires forall t :: !DocDeclares(p, x.typ, name, t)
    ensures DocHolds(p, g, n + 1, x, name, s) <==> DocAllows(p, g, n, x, name, s)
  {
    DocHoldsSplit(p, g, n, x, name, s);
  }

  lemma BindingUnfoldsAt(p: PolicyDocument, r: RBAC, o: Orders, validPrefix: string -> bool, action: string, g: Graph,
    n: nat, rb: Object, s: Subject)
    requires DocAccepted(p, o, validPrefix) && p.rbac == Some(r) && rb.typ == r.roleBindingResource.name
    requires action == AVAILABLE_ROLES ==> rb.typ !in r.roleOwners
    requires forall t :: !DocDeclares(p, rb.typ, action, t)
    ensures DocHolds(p, g, n + 1, rb, action, s) <==> OnRoleBinding(p, r, g, n, rb, action, s)
  {
    NothingStored(p, g, n, rb, action, s);
    OnlyTheRoleBindingAllows(p, r, o, validPrefix, action, g, n, rb, s);
  }

  lemma BindingUnfolds(p: PolicyDocument, r: RBAC, o: Orders, validPrefix: string -> bool, action: string, g: Graph,
    n: nat, rb: Object, s: Subject)
    requires DocAccepted(p, o, validPrefix) && p.rbac == Some(r) && rb.typ == r.roleBindingResource.name
    requires action == AVAILABLE_ROLES ==> rb.typ !in r.roleOwners
    requires forall t :: !DocDeclares(p, rb.typ, action, t)
    ensures DocHolds(p, g, n, rb, action, s) <==> (n > 0 && OnRoleBinding(p, r, g, n - 1, rb, action, s))
  {
    if n > 0 {
      BindingUnfoldsAt(p, r, o, validPrefix, action, g, n - 1, rb, s);
    }
  }

  /** q#grant@rb, rb#role@role, role#action_rel@type:* */
  ghost predicate GrantChain(p: PolicyDocument, g: Graph, action: string, q: Object, rb: Object, role: Object,
    s: Subject) {
    && DocStored(p, g, q, GRANT_RELATION, Subject(rb, ""))
    && DocStored(p, g, rb, ROLE_RELATION, Subject(role, ""))
    && DocStored(p, g, role, action + PERMISSION_SUFFIX, Wildcard(s))
  }

  lemma GrantTargets(p: PolicyDocument, r: RBAC, action: string, region: iset<string>, g: Graph, q: Object,
    held: Subject)
    requires Governed(p, r, action, region) && q.typ in region && DocStored(p, g, q, GRANT_RELATION, held)
    ensures held.obj.typ == r.roleBindingResource.name && held.relation == ""
  {
    var t :| DocDeclares(p, q.typ, GRANT_RELATION, t) && Admits(t, held);
  }

  lemma RoleTargets(p: PolicyDocument, r: RBAC, o: Orders, validPrefix: string -> bool, g: Graph, rb: Object,
    held: Subject)
    requires DocAccepted(p, o, validPrefix) && p.rbac == Some(r) && rb.typ == r.roleBindingResource.name
    requires DocStored(p, g, rb, ROLE_RELATION, held)
    ensures held.obj.typ == r.roleResource.name && held.relation == "" && held.obj.id != "*"
  {
    var t :| DocDeclares(p, rb.typ, ROLE_RELATION, t) && Admits(t, held);
    RoleOfBindingTargets(p, r, o, validPrefix, t);
  }

  lemma GrantDown(p: PolicyDocument, r: RBAC, o: Orders, validPrefix: string -> bool, action: string,
    region: iset<string>, g: Graph, n: nat, q: Object, s: Subject)
    returns (rb: Object, role: Object, m: nat)
    requires DocAccepted(p, o, validPrefix) && Governed(p, r, action, region) && action in ActionNames(p) && Concrete(s)
    requires q.typ in region && DocAlong(p, g, n, q, GRANT_RELATION, action, s)
    ensures GrantChain(p, g, action, q, rb, role, s) && DocHolds(p, g, m, rb, SUBJECT_RELATION, s)
  {
    var grant :| DocStored(p, g, q, GRANT_RELATION, grant) && DocHolds(p, g, n, grant.obj, action, s);
    GrantTargets(p, r, action, region, g, q, grant);
    rb := grant.obj;
    BindingUnfolds(p, r, o, validPrefix, action, g, n, rb, s);
    var held :|
      DocStored(p, g, rb, ROLE_RELATION, held) && DocHolds(p, g, n - 1, held.obj, action + PERMISSION_SUFFIX, s);
    RoleTargets(p, r, o, validPrefix, g, rb, held);
    role := held.obj;
    RoleCarries(p, r, o, validPrefix, action, g, n - 1, role, s);
    m := n - 1;
  }

  lemma GrantUp(p: PolicyDocument, r: RBAC, o: Orders, validPrefix: string -> bool, action: string,
    region: iset<string>, g: Graph, m: nat, q: Object, rb: Object, role: Object, s: Subject)
    requires DocAccepted(p, o, validPrefix) && Governed(p, r, action, region) && action in ActionNames(p) && Concrete(s)
    requires q.typ in region && GrantChain(p, g, action, q, rb, role, s)
    requires DocHolds(p, g, m + 1, rb, SUBJECT_RELATION, s)
    ensures DocAlong(p, g, m + 2, q, GRANT_RELATION, action, s)
  {
    GrantTargets(p, r, action, region, g, q, Subject(rb, ""));
    RoleTargets(p, r, o, validPrefix, g, rb, Subject(role, ""));
    RoleCarries(p, r, o, validPrefix, action, g, m + 1, role, s);
    assert DocAlong(p, g, m + 1, rb, ROLE_RELATION, action + PERMISSION_SUFFIX, s) by {
      assert DocStored(p, g, rb, ROLE_RELATION, Subject(role, "")) &&
        DocHolds(p, g, m + 1, Subject(role, "").obj, action + PERMISSION_SUFFIX, s);
    }
    BindingUnfolds(p, r, o, validPrefix, action, g, m + 2, rb, s);
    assert DocStored(p, g, q, GRANT_RELATION, Subject(rb, "")) && DocHolds(p, g, m + 2, Subject(rb, "").obj, action, s);
  }

  // ---------- the theorem ----------

  /** The subject is bound on q itself: by a V2 grant whose role carries the action, or by a V1 role. */
  ghost predicate BoundAt(p: PolicyDocument, o: Orders, action: string, g: Graph, q: Object, s: Subject)
    requires ValidOrders(p, o)
  {
    var schema := SchemaOf(p, o);
    || (&& Carries(p, action, q.typ)
        && exists rb, role ::
             SchemaGrantChain(schema, g, action, q, rb, role, s) && Granted(schema, g, rb, SUBJECT_RELATION, s))
    || (BoundV1(p, action, q.typ) && Granted(schema, g, q, action + PERMISSION_SUFFIX, s))
  }

  ghost predicate SchemaGrantChain(schema: Schema, g: Graph, action: string, q: Object, rb: Object, role: Object,
    s: Subject) {
    && Stored(schema, g, q, GRANT_RELATION, Subject(rb, ""))
    && Stored(schema, g, rb, ROLE_RELATION, Subject(role, ""))
    && Stored(schema, g, role, action + PERMISSION_SUFFIX, Wildcard(s))
  }

  lemma GrantChainAgrees(p: PolicyDocument, o: Orders, validPrefix: string -> bool, g: Graph, action: string,
    q: Object, rb: Object, role: Object, s: Subject)
    requires DocAccepted(p, o, validPrefix)
    ensures SchemaGrantChain(SchemaOf(p, o), g, action, q, rb, role, s) <==> GrantChain(p, g, action, q, rb, role, s)
  {
    StoredAgree(p, o, validPrefix, g, q, GRANT_RELATION, Subject(rb, ""));
    StoredAgree(p, o, validPrefix, g, rb, ROLE_RELATION, Subject(role, ""));
    StoredAgree(p, o, validPrefix, g, role, action + PERMISSION_SUFFIX, Wildcard(s));
  }

  /** One derivation step of the action that does not follow an inherit relation. */
  ghost predicate BoundBelow(p: PolicyDocument, action: string, g: Graph, n: nat, q: Object, s: Subject) {
    || (Carries(p, action, q.typ) && DocAlong(p, g, n, q, GRANT_RELATION, action, s))
    || (BoundV1(p, action, q.typ) && DocHolds(p, g, n, q, action + PERMISSION_SUFFIX, s))
  }

  lemma BoundBelowIsBoundAt(p: PolicyDocument, r: RBAC, o: Orders, validPrefix: string -> bool, action: string,
    region: iset<string>, g: Graph, n: nat, q: Object, s: Subject)
    requires DocAccepted(p, o, validPrefix) && Governed(p, r, action, region) && action in ActionNames(p) && Concrete(s)
    requires q.typ in region && BoundBelow(p, action, g, n, q, s)
    ensures BoundAt(p, o, action, g, q, s)
  {
    if Carries(p, action, q.typ) && DocAlong(p, g, n, q, GRANT_RELATION, action, s) {
      var rb, role, m := GrantDown(p, r, o, validPrefix, action, region, g, n, q, s);
      GrantChainAgrees(p, o, validPrefix, g, action, q, rb, role, s);
      CompilerPreservesMeaning(p, o, validPrefix, g, m, s);
      assert Holds(SchemaOf(p, o), g, m, rb, SUBJECT_RELATION, s);
    } else {
      CompilerPreservesMeaning(p, o, validPrefix, g, n, s);
      assert Holds(SchemaOf(p, o), g, n, q, action + PERMISSION_SUFFIX, s);
    }
  }

  lemma BoundAtIsBoundBelow(p: PolicyDocument, r: RBAC, o: Orders, validPrefix: string -> bool, action: string,
    region: iset<string>, g: Graph, q: Object, s: Subject)
    returns (n: nat)
    requires DocAccepted(p, o, validPrefix) && Governed(p, r, action, region) && action in ActionNames(p) && Concrete(s)
    requires q.typ in region && BoundAt(p, o, action, g, q, s)
    ensures BoundBelow(p, action, g, n, q, s)
  {
    var schema := SchemaOf(p, o);
    if BoundV1(p, action, q.typ) && Granted(schema, g, q, action + PERMISSION_SUFFIX, s) {
      n :| Holds(schema, g, n, q, action + PERMISSION_SUFFIX, s);
      CompilerPreservesMeaning(p, o, validPrefix, g, n, s);
    } else {
      var rb, role :|
        SchemaGrantChain(schema, g, action, q, rb, role, s) && Granted(schema, g, rb, SUBJECT_RELATION, s);
      GrantChainAgrees(p, o, validPrefix, g, action, q, rb, role, s);
      var m: nat :| Holds(schema, g, m, rb, SUBJECT_RELATION, s);
      HoldsMonotone(schema, g, m, m + 1, rb, SUBJECT_RELATION, s);
      CompilerPreservesMeaning(p, o, validPrefix, g, m + 1, s);
      GrantUp(p, r, o, validPrefix, action, region, g, m, q, rb, role, s);
      n := m + 2;
    }
  }

  ghost function Outside(r: RBAC): iset<string> {
    iset typ | !OfRbac(r, typ)
  }

  lemma ParentsAreOutside(p: PolicyDocument, r: RBAC, o: Orders, validPrefix: string -> bool, g: Graph, x: Object,
    y: Object)
    requires DocAccepted(p, o, validPrefix) && InheritsOutside(p, r)
    requires Parent(SchemaOf(p, o), g, RolesPassedAlong(p), x, y)
    ensures !OfRbac(r, y.typ)
  {
    var f, held :| x.typ in RolesPassedAlong(p) && f in InheritsOf(p, x.typ) && Stored(SchemaOf(p, o), g, x, f, held) &&
      held.obj == y;
    StoredAgree(p, o, validPrefix, g, x, f, held);
    var t :| DocDeclares(p, x.typ, f, t) && Admits(t, held);
  }

  lemma InheritedIsFromParent(p: PolicyDocument, o: Orders, validPrefix: string -> bool, pass: Parents, g: Graph,
    n: nat, x: Object, name: string, s: Subject)
    requires DocAccepted(p, o, validPrefix) && x.typ in pass
    ensures FromParent(SchemaOf(p, o), g, pass, n, x, name, s) <==>
      exists f :: f in pass[x.typ] && DocAlong(p, g, n, x, f, name, s)
  {
    var schema := SchemaOf(p, o);
    CompilerPreservesMeaning(p, o, validPrefix, g, n, s);
    if FromParent(schema, g, pass, n, x, name, s) {
      var y :| Parent(schema, g, pass, x, y) && Holds(schema, g, n, y, name, s);
      var f, held :| f in pass[x.typ] && Stored(schema, g, x, f, held) && held.obj == y;
      StoredAgree(p, o, validPrefix, g, x, f, held);
      assert DocHolds(p, g, n, held.obj, name, s);
      assert DocAlong(p, g, n, x, f, name, s);
    }
    if f :| f in pass[x.typ] && DocAlong(p, g, n, x, f, name, s) {
      var held :| DocStored(p, g, x, f, held) && DocHolds(p, g, n, held.obj, name, s);
      StoredAgree(p, o, validPrefix, g, x, f, held);
      assert Holds(schema, g, n, held.obj, name, s);
      assert Parent(schema, g, pass, x, held.obj);
    }
  }

  /** What is not bound below is inherited. */
  lemma ByRoleBindingSplits(p: PolicyDocument, action: string, g: Graph, n: nat, x: Object, s: Subject)
    requires x.typ in TypeNames(p)
    ensures ByRoleBinding(p, action, g, n, x, s) <==>
      BoundBelow(p, action, g, n, x, s) ||
      exists f :: f in PassedAlong(p, action)[x.typ] && DocAlong(p, g, n, x, f, action, s)
  {
  }

  lemma GovernedStepOnNamed(p: PolicyDocument, r: RBAC, o: Orders, validPrefix: string -> bool, action: string,
    region: iset<string>, g: Graph, n: nat, x: Object, s: Subject)
    requires DocAccepted(p, o, validPrefix) && Governed(p, r, action, region) && x.typ in region
    requires x.typ in TypeNames(p)
    ensures DocHolds(p, g, n + 1, x, action, s) <==>
      (BoundBelow(p, action, g, n, x, s) ||
        FromParent(SchemaOf(p, o), g, PassedAlong(p, action), n, x, action, s))
  {
    GovernedExactly(p, r, action, region, g, n, x, s);
    ByRoleBindingSplits(p, action, g, n, x, s);
    InheritedIsFromParent(p, o, validPrefix, PassedAlong(p, action), g, n, x, action, s);
  }

  lemma NothingOnUnnamed(p: PolicyDocument, o: Orders, validPrefix: string -> bool, action: string, g: Graph, n: nat,
    x: Object, s: Subject)
    requires DocAccepted(p, o, validPrefix) && x.typ !in TypeNames(p)
    ensures !BoundBelow(p, action, g, n, x, s)
    ensures !FromParent(SchemaOf(p, o), g, PassedAlong(p, action), n, x, action, s)
  {
    NothingBoundElsewhere(p, o, validPrefix, action, x.typ);
  }

  /** One more step of a derivation, on the side of the document. */
  ghost predicate NextStep(p: PolicyDocument, o: Orders, action: string, g: Graph, n: nat, x: Object, s: Subject)
    requires ValidOrders(p, o)
  {
    || BoundBelow(p, action, g, n, x, s)
    || FromParent(SchemaOf(p, o), g, PassedAlong(p, action), n, x, action, s)
  }

  lemma HoldsAgreeAt(p: PolicyDocument, o: Orders, validPrefix: string -> bool, g: Graph, n: nat, x: Object,
    name: string, s: Subject)
    requires DocAccepted(p, o, validPrefix)
    ensures Holds(SchemaOf(p, o), g, n, x, name, s) <==> DocHolds(p, g, n, x, name, s)
  {
    CompilerPreservesMeaning(p, o, validPrefix, g, n, s);
  }

  lemma GovernedNext(p: PolicyDocument, r: RBAC, o: Orders, validPrefix: string -> bool, action: string,
    region: iset<string>, g: Graph, n: nat, x: Object, s: Subject)
    requires DocAccepted(p, o, validPrefix) && Governed(p, r, action, region) && x.typ in region
    ensures DocHolds(p, g, n + 1, x, action, s) <==> NextStep(p, o, action, g, n, x, s)
  {
    if x.typ in TypeNames(p) {
      GovernedStepOnNamed(p, r, o, validPrefix, action, region, g, n, x, s);
    } else {
      UnnamedHoldsNothing(p, o, validPrefix, g, n + 1, x, action, s);
      NothingOnUnnamed(p, o, validPrefix, action, g, n, x, s);
    }
  }

  lemma NothingAtZero(p: PolicyDocument, r: RBAC, action: string, region: iset<string>, g: Graph, x: Object,
    s: Subject)
    requires Governed(p, r, action, region) && x.typ in region
    ensures !DocHolds(p, g, 0, x, action, s)
  {
  }

  lemma GovernedStep(p: PolicyDocument, r: RBAC, o: Orders, validPrefix: string -> bool, action: string,
    region: iset<string>, g: Graph, n: nat, x: Object, s: Subject)
    requires DocAccepted(p, o, validPrefix) && Governed(p, r, action, region) && x.typ in region
    ensures Holds(SchemaOf(p, o), g, n, x, action, s) <==> (n > 0 && NextStep(p, o, action, g, n - 1, x, s))
  {
    HoldsAgreeAt(p, o, validPrefix, g, n, x, action, s);
    if n == 0 {
      NothingAtZero(p, r, action, region, g, x, s);
    } else {
      GovernedNext(p, r, o, validPrefix, action, region, g, n - 1, x, s);
    }
  }

  lemma NothingBoundElsewhere(p: PolicyDocument, o: Orders, validPrefix: string -> bool, action: string, typ: string)
    requires DocAccepted(p, o, validPrefix) && typ !in TypeNames(p)
    ensures !Carries(p, action, typ) && !BoundV1(p, action, typ)
  {
    OnlyNamedTypes(p, o, validPrefix, typ);
  }

  ghost function Below(p: PolicyDocument, action: string, g: Graph, s: Subject): iset<(nat, Object)> {
    iset pair: (nat, Object) | BoundBelow(p, action, g, pair.0, pair.1, s)
  }

  ghost function Bound(p: PolicyDocument, o: Orders, action: string, g: Graph, s: Subject): iset<Object>
    requires ValidOrders(p, o)
  {
    iset q: Object | BoundAt(p, o, action, g, q, s)
  }

  lemma RegionIsClosed(p: PolicyDocument, r: RBAC, o: Orders, validPrefix: string -> bool, action: string,
    region: iset<string>, g: Graph, x: Object, y: Object)
    requires DocAccepted(p, o, validPrefix) && ClosedRegion(p, r, action, region) && x.typ in region
    requires Parent(SchemaOf(p, o), g, PassedAlong(p, action), x, y)
    ensures y.typ in region
  {
    var pass := PassedAlong(p, action);
    var f, held :| x.typ in pass && f in pass[x.typ] && Stored(SchemaOf(p, o), g, x, f, held) && held.obj == y;
    StoredAgree(p, o, validPrefix, g, x, f, held);
    var t :| DocDeclares(p, x.typ, f, t) && Admits(t, held);
  }

  lemma GovernedIsDerived(p: PolicyDocument, r: RBAC, o: Orders, validPrefix: string -> bool, action: string,
    region: iset<string>, g: Graph, s: Subject)
    requires DocAccepted(p, o, validPrefix) && Governed(p, r, action, region)
    ensures Derived(SchemaOf(p, o), g, PassedAlong(p, action), region, Below(p, action, g, s), action, s)
  {
    var schema, pass := SchemaOf(p, o), PassedAlong(p, action);
    forall n: nat, x: Object | x.typ in region
      ensures Holds(schema, g, n, x, action, s) <==>
        (n > 0 && ((n - 1, x) in Below(p, action, g, s) || FromParent(schema, g, pass, n - 1, x, action, s)))
    {
      GovernedStep(p, r, o, validPrefix, action, region, g, n, x, s);
    }
    forall x: Object, y: Object | x.typ in region && Parent(schema, g, pass, x, y)
      ensures y.typ in region
    {
      RegionIsClosed(p, r, o, validPrefix, action, region, g, x, y);
    }
  }

  /** The RBAC V2 encoding is right: for every graph, an action governed by role bindings in a
      region is granted on an object of the region exactly when a path of inherit relations
      leads from it to an object on which the subject is bound to the action. */
  lemma RoleBindingsGrantAlongPaths(p: PolicyDocument, r: RBAC, o: Orders, validPrefix: string -> bool,
    action: string, region: iset<string>, g: Graph, x: Object, s: Subject)
    requires DocAccepted(p, o, validPrefix) && Governed(p, r, action, region) && action in ActionNames(p)
    requires x.typ in region && Concrete(s)
    ensures Granted(SchemaOf(p, o), g, x, action, s) <==>
      Reaches(SchemaOf(p, o), g, PassedAlong(p, action), Bound(p, o, action, g, s), x)
  {
    var schema, pass := SchemaOf(p, o), PassedAlong(p, action);
    var at, base := Below(p, action, g, s), Bound(p, o, action, g, s);
    GovernedIsDerived(p, r, o, validPrefix, action, region, g, s);
    if Granted(schema, g, x, action, s) {
      var n: nat :| Holds(schema, g, n, x, action, s);
      forall m: nat, y: Object | y.typ in region && (m, y) in at
        ensures y in base
      {
        BoundBelowIsBoundAt(p, r, o, validPrefix, action, region, g, m, y, s);
      }
      DerivedReaches(schema, g, pass, region, at, base, action, s, n, x);
    }
    if Reaches(schema, g, pass, base, x) {
      var path :| IsPath(schema, g, pass, path) && path[0] == x && path[|path| - 1] in base;
      PathIsKept(schema, g, g, pass, region, path, |path| - 1);
      var n := BoundAtIsBoundBelow(p, r, o, validPrefix, action, region, g, path[|path| - 1], s);
      PathDerives(schema, g, pass, region, at, action, s, path, n);
    }
  }

  // ---------- availability of roles ----------

  /** avail_role is the policy's own action and member_role its own relation. */
  ghost predicate OwnsRoles(p: PolicyDocument, r: RBAC) {
    && SoundRoleTypes(p, r)
    && (forall owner :: owner in r.roleOwners ==> !OfRbac(r, owner))
    && r.roleResource.name !in r.roleSubjectTypes
    && NotBoundOnRoles(p, r, AVAILABLE_ROLES + PERMISSION_SUFFIX)
    && (forall d :: d in p.actionBindings ==> d.actionName != AVAILABLE_ROLES)
    && (forall typ, t :: !DocDeclares(p, typ, AVAILABLE_ROLES, t))
    && MEMBER_ROLE_RELATION !in ActionNames(p)
    && (forall typ, t :: DocDeclares(p, typ, MEMBER_ROLE_RELATION, t) ==> t == Plain(r.roleResource.name))
  }

  lemma OnlyRolesAreMembers(p: PolicyDocument, r: RBAC, g: Graph, x: Object, held: Subject)
    requires OwnsRoles(p, r) && DocStored(p, g, x, MEMBER_ROLE_RELATION, held)
    ensures held.obj.typ == r.roleResource.name && held.obj.id != "*" && held.relation == ""
  {
    var t :| DocDeclares(p, x.typ, MEMBER_ROLE_RELATION, t) && Admits(t, held);
  }

  lemma MemberRoleMeans(p: PolicyDocument, r: RBAC, o: Orders, validPrefix: string -> bool, g: Graph, n: nat,
    x: Object, s: Subject)
    requires DocAccepted(p, o, validPrefix) && OwnsRoles(p, r)
    ensures DocHolds(p, g, n, x, MEMBER_ROLE_RELATION, s) <==>
      (n > 0 && DocStored(p, g, x, MEMBER_ROLE_RELATION, s))
  {
    if n > 0 {
      DocHoldsSplit(p, g, n - 1, x, MEMBER_ROLE_RELATION, s);
      forall d | BindsTo(p, d, x.typ)
        ensures d.actionName != MEMBER_ROLE_RELATION
      {
        BoundActionsAreNamed(p, o, validPrefix, d, x.typ);
      }
      assert !DocAllows(p, g, n - 1, x, MEMBER_ROLE_RELATION, s);
      forall held | DocStored(p, g, x, MEMBER_ROLE_RELATION, held) && DocCovers(p, g, n - 1, held, s)
        ensures held == s
      {
        OnlyRolesAreMembers(p, r, g, x, held);
      }
    }
  }

  /** Nothing but the stored relationship makes a subject a member_role. */
  lemma MembershipIsStored(p: PolicyDocument, r: RBAC, o: Orders, validPrefix: string -> bool, g: Graph, x: Object,
    s: Subject)
    requires DocAccepted(p, o, validPrefix) && OwnsRoles(p, r)
    ensures Granted(SchemaOf(p, o), g, x, MEMBER_ROLE_RELATION, s) <==>
      Stored(SchemaOf(p, o), g, x, MEMBER_ROLE_RELATION, s)
  {
    StoredAgree(p, o, validPrefix, g, x, MEMBER_ROLE_RELATION, s);
    forall n: nat
      ensures Holds(SchemaOf(p, o), g, n, x, MEMBER_ROLE_RELATION, s) <==>
        (n > 0 && DocStored(p, g, x, MEMBER_ROLE_RELATION, s))
    {
      CompilerPreservesMeaning(p, o, validPrefix, g, n, s);
      MemberRoleMeans(p, r, o, validPrefix, g, n, x, s);
    }
    assert DocStored(p, g, x, MEMBER_ROLE_RELATION, s) ==> Holds(SchemaOf(p, o), g, 1, x, MEMBER_ROLE_RELATION, s);
  }

  ghost predicate OwnedBelow(p: PolicyDocument, r: RBAC, g: Graph, n: nat, x: Object, s: Subject) {
    n > 0 && x.typ in TypeNames(p) && x.typ in r.roleOwners && DocStored(p, g, x, MEMBER_ROLE_RELATION, s)
  }

  lemma AvailabilityUnfolds(p: PolicyDocument, r: RBAC, g: Graph, n: nat, x: Object, s: Subject)
    requires OwnsRoles(p, r) && !OfRbac(r, x.typ)
    ensures DocHolds(p, g, n + 1, x, AVAILABLE_ROLES, s) <==> RoleAvailable(p, r, g, n, x, s)
  {
    DocHoldsSplit(p, g, n, x, AVAILABLE_ROLES, s);
  }

  lemma AvailabilityStep(p: PolicyDocument, r: RBAC, o: Orders, validPrefix: string -> bool, g: Graph, n: nat,
    x: Object, s: Subject)
    requires DocAccepted(p, o, validPrefix) && OwnsRoles(p, r) && !OfRbac(r, x.typ)
    ensures Holds(SchemaOf(p, o), g, n, x, AVAILABLE_ROLES, s) <==> (n > 0 &&
      (OwnedBelow(p, r, g, n - 1, x, s) ||
        FromParent(SchemaOf(p, o), g, RolesPassedAlong(p), n - 1, x, AVAILABLE_ROLES, s)))
  {
    CompilerPreservesMeaning(p, o, validPrefix, g, n, s);
    if n > 0 {
      AvailabilityUnfolds(p, r, g, n - 1, x, s);
      if x.typ in TypeNames(p) {
        MemberRoleMeans(p, r, o, validPrefix, g, n - 1, x, s);
        InheritedIsFromParent(p, o, validPrefix, RolesPassedAlong(p), g, n - 1, x, AVAILABLE_ROLES, s);
      }
    }
  }

  ghost function OwnersBelow(p: PolicyDocument, r: RBAC, g: Graph, s: Subject): iset<(nat, Object)> {
    iset pair: (nat, Object) | OwnedBelow(p, r, g, pair.0, pair.1, s)
  }

  /** The objects of a role-owner type that have the subject as member_role. */
  ghost function Owners(p: PolicyDocument, r: RBAC, o: Orders, g: Graph, s: Subject): iset<Object>
    requires ValidOrders(p, o)
  {
    iset x: Object | x.typ in r.roleOwners && Stored(SchemaOf(p, o), g, x, MEMBER_ROLE_RELATION, s)
  }

  lemma AvailabilityIsDerived(p: PolicyDocument, r: RBAC, o: Orders, validPrefix: string -> bool, g: Graph,
    s: Subject)
    requires DocAccepted(p, o, validPrefix) && OwnsRoles(p, r)
    ensures Derived(SchemaOf(p, o), g, RolesPassedAlong(p), Outside(r), OwnersBelow(p, r, g, s),
      AVAILABLE_ROLES, s)
  {
    var schema, pass := SchemaOf(p, o), RolesPassedAlong(p);
    forall n: nat, x: Object | x.typ in Outside(r)
      ensures Holds(schema, g, n, x, AVAILABLE_ROLES, s) <==>
        (n > 0 && ((n - 1, x) in OwnersBelow(p, r, g, s) ||
          FromParent(schema, g, pass, n - 1, x, AVAILABLE_ROLES, s)))
    {
      AvailabilityStep(p, r, o, validPrefix, g, n, x, s);
    }
    forall x: Object, y: Object | x.typ in Outside(r) && Parent(schema, g, pass, x, y)
      ensures y.typ in Outside(r)
    {
      ParentsAreOutside(p, r, o, validPrefix, g, x, y);
    }
  }

  lemma NotAvailableAtDepth(p: PolicyDocument, r: RBAC, o: Orders, validPrefix: string -> bool, g: Graph, n: nat,
    x: Object, role: Subject)
    requires DocAccepted(p, o, validPrefix) && OwnsRoles(p, r)
    requires Concrete(role) && role.obj.typ == r.roleResource.name && OfRbac(r, x.typ)
    ensures !DocHolds(p, g, n, x, AVAILABLE_ROLES, role)
  {
    if n > 0 {
      if x.typ == r.roleBindingResource.name {
        BindingUnfolds(p, r, o, validPrefix, AVAILABLE_ROLES, g, n, x, role);
        forall held | DocStored(p, g, x, ROLE_RELATION, held)
          ensures !DocHolds(p, g, n - 1, held.obj, AVAILABLE_ROLES + PERMISSION_SUFFIX, role)
        {
          RoleTargets(p, r, o, validPrefix, g, x, held);
          RoleCarries(p, r, o, validPrefix, AVAILABLE_ROLES, g, n - 1, held.obj, role);
          NoRoleWildcard(p, r, AVAILABLE_ROLES, g, held.obj, role);
        }
      } else {
        DocHoldsSplit(p, g, n - 1, x, AVAILABLE_ROLES, role);
        assert InheritsOf(p, x.typ) == [];
      }
    }
  }

  /** No role is available on a role or on a role binding. */
  lemma NotAvailableOnRoleTypes(p: PolicyDocument, r: RBAC, o: Orders, validPrefix: string -> bool, g: Graph, x: Object,
    role: Subject)
    requires DocAccepted(p, o, validPrefix) && OwnsRoles(p, r)
    requires Concrete(role) && role.obj.typ == r.roleResource.name && OfRbac(r, x.typ)
    ensures !Granted(SchemaOf(p, o), g, x, AVAILABLE_ROLES, role)
  {
    forall n: nat
      ensures !Holds(SchemaOf(p, o), g, n, x, AVAILABLE_ROLES, role)
    {
      CompilerPreservesMeaning(p, o, validPrefix, g, n, role);
      NotAvailableAtDepth(p, r, o, validPrefix, g, n, x, role);
    }
  }

  lemma NoRoleWildcard(p: PolicyDocument, r: RBAC, action: string, g: Graph, x: Object, role: Subject)
    requires SoundRoleTypes(p, r) && r.roleResource.name !in r.roleSubjectTypes
    requires x.typ == role.obj.typ == r.roleResource.name
    ensures !DocStored(p, g, x, action + PERMISSION_SUFFIX, Wildcard(role))
  {
    forall t | DocDeclares(p, x.typ, action + PERMISSION_SUFFIX, t)
      ensures t.name != role.obj.typ
    {
      RolePermissionTargets(p, r, action, t);
    }
  }

  lemma NoParents(p: PolicyDocument, r: RBAC, schema: Schema, g: Graph, x: Object)
    requires p.rbac == Some(r) && OfRbac(r, x.typ)
    ensures forall y :: !Parent(schema, g, RolesPassedAlong(p), x, y)
  {
  }

  lemma RolesPassNothing(p: PolicyDocument, r: RBAC, schema: Schema, g: Graph, path: seq<Object>)
    requires p.rbac == Some(r) && IsPath(schema, g, RolesPassedAlong(p), path) && OfRbac(r, path[0].typ)
    ensures |path| == 1
  {
    assert |path| > 1 ==> Parent(schema, g, RolesPassedAlong(p), path[0], path[1]);
    NoParents(p, r, schema, g, path[0]);
  }

  /** Availability is reachability: avail_role holds on x exactly when a path of inherit relations
      leads from x to an owner that has the subject as member_role.  So it is for every subject on
      objects outside RBAC, and for every role on all objects. */
  lemma AvailabilityIsReachability(p: PolicyDocument, r: RBAC, o: Orders, validPrefix: string -> bool, g: Graph,
    x: Object, s: Subject)
    requires DocAccepted(p, o, validPrefix) && OwnsRoles(p, r)
    requires OfRbac(r, x.typ) ==> Concrete(s) && s.obj.typ == r.roleResource.name
    ensures Granted(SchemaOf(p, o), g, x, AVAILABLE_ROLES, s) <==>
      Reaches(SchemaOf(p, o), g, RolesPassedAlong(p), Owners(p, r, o, g, s), x)
  {
    var schema, pass := SchemaOf(p, o), RolesPassedAlong(p);
    var base := Owners(p, r, o, g, s);
    if OfRbac(r, x.typ) {
      NotAvailableOnRoleTypes(p, r, o, validPrefix, g, x, s);
      forall path | IsPath(schema, g, pass, path) && path[0] == x
        ensures path[|path| - 1] !in base
      {
        RolesPassNothing(p, r, schema, g, path);
      }
    } else {
      AvailabilityIsDerived(p, r, o, validPrefix, g, s);
      OwnersAgree(p, r, o, validPrefix, g, s);
      if Granted(schema, g, x, AVAILABLE_ROLES, s) {
        var n: nat :| Holds(schema, g, n, x, AVAILABLE_ROLES, s);
        DerivedReaches(schema, g, pass, Outside(r), OwnersBelow(p, r, g, s), base, AVAILABLE_ROLES, s, n, x);
      }
      if Reaches(schema, g, pass, base, x) {
        var path :| IsPath(schema, g, pass, path) && path[0] == x && path[|path| - 1] in base;
        PathDerives(schema, g, pass, Outside(r), OwnersBelow(p, r, g, s), AVAILABLE_ROLES, s, path, 1);
      }
    }
  }

  lemma OwnersAgree(p: PolicyDocument, r: RBAC, o: Orders, validPrefix: string -> bool, g: Graph, s: Subject)
    requires DocAccepted(p, o, validPrefix)
    ensures forall m: nat, y: Object :: (m, y) in OwnersBelow(p, r, g, s) ==> y in Owners(p, r, o, g, s)
    ensures forall y: Object :: y in Owners(p, r, o, g, s) ==> (1, y) in OwnersBelow(p, r, g, s)
  {
    CompiledTypesNames(p, o.roleActions);
    forall y
      ensures Stored(SchemaOf(p, o), g, y, MEMBER_ROLE_RELATION, s) <==>
        DocStored(p, g, y, MEMBER_ROLE_RELATION, s)
    {
      StoredAgree(p, o, validPrefix, g, y, MEMBER_ROLE_RELATION, s);
    }
  }
}
