/** Runs of the example policy: one that ends with a grant, one that leaves a role behind, and one
    whose update does not store what it was asked to. */
module ExampleRuns {
  import opened Types
  import opened Rbac
  import opened Iapl
  import opened PolicyMeaning
  import opened Permissions
  import opened RoleBindingMeaning
  import opened Relations
  import opened TwoStores
  import opened StoreRuns
  import opened Leftovers
  import opened Grants
  import opened Example

  const ROOT := Object(TENANT, "root")
  const CHILD := Object(TENANT, "child")
  const ALICE := Object(USER, "alice")
  const ROOT_ROLE := RoleRow("readers", "", ROOT)
  const ROOT_BINDING := BindingRow(ROOT, "")

  function Start(): Stores {
    Stores(map[], map[], {Tuple(CHILD, PARENT, Subject(ROOT, ""))}, {}, {})
  }

  // ---------- steps, for any system ----------

  ghost function AfterRole(sys: System, s: Stores, id: string, row: RoleRow, actions: seq<string>,
    outcome: Outcome): Stores {
    s.(usedRoles := s.usedRoles + {id},
       roles := if outcome.Done? then s.roles[id := row] else s.roles,
       rels := if outcome.Refused? then s.rels else s.rels + sys.RoleTuples(id, row.owner, actions))
  }

  ghost function AfterBinding(sys: System, s: Stores, id: string, row: BindingRow, role: string,
    subjects: seq<Object>): Stores
    requires forall x :: x in subjects ==> sys.ValidSubject(x)
  {
    s.(bindings := s.bindings[id := row], usedBindings := s.usedBindings + {id},
       rels := s.rels + sys.BindingTuples(id, row.resource, role, subjects))
  }

  lemma FirstRole(sys: System, s: Stores, id: string, row: RoleRow, actions: seq<string>, outcome: Outcome)
    requires sys.Sound() && id !in s.usedRoles && id != "*" && sys.Writable(sys.RoleTuples(id, row.owner, actions))
    ensures Step(sys, s, CreateRole(id, row, actions, outcome), AfterRole(sys, s, id, row, actions, outcome))
  {
  }

  lemma FirstBinding(sys: System, s: Stores, id: string, row: BindingRow, role: string, subjects: seq<Object>)
    requires sys.Sound() && id !in s.usedBindings && id != "*"
    requires role in s.roles && Available(sys, s.rels, row.resource, role)
    requires forall x :: x in subjects ==> sys.ValidSubject(x)
    ensures Step(sys, s, CreateBinding(id, row, role, subjects, Done), AfterBinding(sys, s, id, row, role, subjects))
  {
  }

  lemma TwoSteps(sys: System, s0: Stores, e1: Event, s1: Stores, e2: Event, s2: Stores)
    requires sys.Sound() && Initial(sys, s0) && Step(sys, s0, e1, s1) && Step(sys, s1, e2, s2)
    ensures IsRun(sys, [s0, s1, s2], [e1, e2])
  {
  }

  lemma OneStep(sys: System, s0: Stores, e: Event, s1: Stores)
    requires sys.Sound() && Initial(sys, s0) && Step(sys, s0, e, s1)
    ensures IsRun(sys, [s0, s1], [e])
  {
  }

  lemma RoleTuplesAre(sys: System, id: string, owner: Object, action: string, typ: string, t: Tuple)
    requires sys.r.roleSubjectTypes == [typ] && t in sys.RoleTuples(id, owner, [action])
    ensures t in [sys.MemberTuple(id, owner), sys.OwnerTuple(id, owner), PermissionTuple(sys, id, action, typ)]
  {
  }

  ghost predicate Admitted(sys: System, t: Tuple)
    requires ValidOrders(sys.p, sys.orders)
  {
    exists target :: Declares(sys.Schema(), t.res.typ, t.relation, target) && Admits(target, t.subj)
  }

  lemma AllAreWritable(sys: System, id: string, owner: Object, action: string, typ: string)
    requires ValidOrders(sys.p, sys.orders) && sys.r.roleSubjectTypes == [typ]
    requires Admitted(sys, sys.MemberTuple(id, owner)) && Admitted(sys, sys.OwnerTuple(id, owner))
    requires Admitted(sys, PermissionTuple(sys, id, action, typ))
    ensures sys.Writable(sys.RoleTuples(id, owner, [action]))
  {
    forall t | t in sys.RoleTuples(id, owner, [action])
      ensures Admitted(sys, t)
    {
      RoleTuplesAre(sys, id, owner, action, typ, t);
    }
  }

  /** Documents that compile to sound systems admit a role of an owner type. */
  lemma RoleIsAdmitted(sys: System, id: string, owner: Object, action: string, typ: string)
    requires sys.Sound() && sys.r.roleSubjectTypes == [typ] && action in ActionNames(sys.p)
    requires owner.typ in sys.r.roleOwners && owner.id != "*" && id != "*"
    requires owner.typ !in UnionTable(sys.p.unions)
    ensures sys.Writable(sys.RoleTuples(id, owner, [action]))
  {
    OwnerIsDeclared(sys.p, sys.r, sys.orders, sys.validPrefix, owner.typ);
    assert Admits(Plain(owner.typ), sys.OwnerTuple(id, owner).subj);
    MemberRoleIsDeclared(sys.p, sys.r, sys.orders, sys.validPrefix, owner.typ);
    assert Admits(Plain(sys.r.roleResource.name), sys.MemberTuple(id, owner).subj);
    WildcardIsDeclared(sys.p, sys.r, sys.orders, sys.validPrefix, action, typ);
    assert Admits(TargetType(typ, "*", ""), PermissionTuple(sys, id, action, typ).subj);
    AllAreWritable(sys, id, owner, action, typ);
  }

  lemma OwnerIsDeclared(p: PolicyDocument, r: RBAC, o: Orders, validPrefix: string -> bool, typ: string)
    requires DocAccepted(p, o, validPrefix) && p.rbac == Some(r) && r.roleResource.name != r.roleBindingResource.name
    requires typ in r.roleOwners && typ !in UnionTable(p.unions)
    ensures Declares(SchemaOf(p, o), r.roleResource.name, ROLE_OWNER_RELATION, Plain(typ))
  {
    var i :| 0 <= i < |r.roleOwners| && r.roleOwners[i] == typ;
    assert RoleOwner(r).types[i] == Plain(typ);
    DeclaredByItself(p, r.roleResource.name, RoleOwner(r), Plain(typ));
    DeclaresAgree(p, o, r.roleResource.name, ROLE_OWNER_RELATION, Plain(typ));
  }

  // ---------- a role in the example ----------

  lemma StartIsInitial()
    ensures Initial(TheSystem(), Start())
  {
    TypesDiffer();
  }

  lemma StartIsConsistent()
    ensures TheSystem().Sound() && Consistent(TheSystem(), Start())
  {
    TheSystemIsSound();
    StartIsInitial();
    RunsAreConsistent(TheSystem(), [Start()], [], 0);
  }

  lemma RoleIsWritable(action: string)
    requires action in ACTIONS
    ensures TheSystem().Sound() && TheSystem().Writable(TheSystem().RoleTuples("r", ROOT, [action]))
  {
    TheSystemIsSound();
    ActionNamesAre(action);
    assert UnionTable([]) == map[];
    RoleIsAdmitted(TheSystem(), "r", ROOT, action, USER);
  }

  ghost function WithRole(action: string, outcome: Outcome): Stores {
    AfterRole(TheSystem(), Start(), "r", ROOT_ROLE, [action], outcome)
  }

  lemma RoleIsCreated(action: string, outcome: Outcome)
    requires action in ACTIONS
    ensures TheSystem().Sound()
    ensures Step(TheSystem(), Start(), CreateRole("r", ROOT_ROLE, [action], outcome), WithRole(action, outcome))
  {
    RoleIsWritable(action);
    FirstRole(TheSystem(), Start(), "r", ROOT_ROLE, [action], outcome);
  }

  lemma WithRoleIsConsistent(action: string, outcome: Outcome)
    requires action in ACTIONS
    ensures TheSystem().Sound() && Consistent(TheSystem(), WithRole(action, outcome))
  {
    StartIsConsistent();
    RoleIsCreated(action, outcome);
    StepKeepsConsistent(TheSystem(), Start(), CreateRole("r", ROOT_ROLE, [action], outcome), WithRole(action, outcome));
  }

  lemma RoleIsAvailable(action: string)
    requires action in ACTIONS
    ensures TheSystem().Sound() && Available(TheSystem(), WithRole(action, Done).rels, ROOT, "r")
  {
    var sys, s := TheSystem(), WithRole(action, Done);
    WithRoleIsConsistent(action, Done);
    ReachesHere(sys.Schema(), s.rels, RolesPassedAlong(sys.p), iset{ROOT}, ROOT);
    RoleIsAvailableBelowItsOwner(sys, s, "r", ROOT);
  }

  // ---------- a run that ends with a grant ----------

  lemma AliceIsASubject()
    ensures TheSystem().ValidSubject(ALICE)
    ensures TheSystem().SubjectTuple("b", ALICE) == Tuple(Object(BINDING, "b"), SUBJECT_RELATION, Subject(ALICE, ""))
  {
    assert [Plain(USER)][..0] == [];
    assert SubjectsMap([Plain(USER)]) == map[USER := Plain(USER)];
  }

  ghost function WithBinding(): Stores
    requires TheSystem().ValidSubject(ALICE)
  {
    AfterBinding(TheSystem(), WithRole(READ, Done), "b", ROOT_BINDING, "r", [ALICE])
  }

  lemma RowsOfWithRole(action: string)
    ensures WithRole(action, Done).usedBindings == {} && "r" in WithRole(action, Done).roles
    ensures ROOT_BINDING.resource == ROOT && "b" != "*" && forall x :: x in [ALICE] ==> x == ALICE
  {
  }

  lemma AliceIsBound()
    ensures TheSystem().ValidSubject(ALICE) && TheSystem().Sound()
    ensures Step(TheSystem(), WithRole(READ, Done), CreateBinding("b", ROOT_BINDING, "r", [ALICE], Done), WithBinding())
  {
    assert READ == ACTIONS[0];
    AliceIsASubject();
    RoleIsAvailable(READ);
    RowsOfWithRole(READ);
    FirstBinding(TheSystem(), WithRole(READ, Done), "b", ROOT_BINDING, "r", [ALICE]);
  }

  lemma IsAdmitted(x: Object, rel: Relationship, held: Subject, t: TargetType)
    requires x.typ in TheTypes() && IsRelation(x.typ, rel) && t in rel.types && Admits(t, held)
    ensures ValidOrders(Document(), TheOrders())
    ensures Admitted(TheSystem(), Tuple(x, rel.relation, held))
  {
    DocumentIsAccepted();
    Tables();
    Declared(x.typ, rel.relation, t);
    DeclaresAgree(Document(), TheOrders(), x.typ, rel.relation, t);
  }

  lemma GrantsAreDeclared()
    ensures TheSystem().Sound()
    ensures Declares(TheSystem().Schema(), TENANT, "grant", Plain(BINDING))
  {
    TheSystemIsSound();
    Tables();
    Declared(TENANT, GRANT_RELATION, Plain(BINDING));
    assert IsRelation(TENANT, TenantType().relationships[1]);
    DeclaresAgree(Document(), TheOrders(), TENANT, GRANT_RELATION, Plain(BINDING));
  }

  lemma ChildIsBelowRoot()
    ensures TheSystem().Sound() && TheSystem().ValidSubject(ALICE)
    ensures Stored(TheSystem().Schema(), WithBinding().rels, CHILD, PARENT, Subject(ROOT, ""))
  {
    TheSystemIsSound();
    AliceIsASubject();
    IsAdmitted(CHILD, TenantType().relationships[0], Subject(ROOT, ""), Plain(TENANT));
  }

  lemma ReadPassesAlongParents()
    ensures Carries(Document(), READ, TENANT)
    ensures TENANT in PassedAlong(Document(), READ) && PassedAlong(Document(), READ)[TENANT] == [PARENT]
  {
    Tables();
    Inheritance();
    WhatIsBound(OnTenants(), TENANT);
    assert OnTenants().conditions[1] in OnTenants().conditions;
    assert BoundV2(Document(), READ, TENANT);
  }

  lemma ReadIsGrantable()
    ensures TheSystem().Sound() && Grantable(TheSystem(), READ, iset{TENANT}, ROOT)
  {
    TheSystemIsSound();
    ReadIsGoverned();
    ReadPassesAlongParents();
    GrantsAreDeclared();
  }

  lemma ReachesRoot(sys: System, g: Graph)
    requires sys.Sound() && Stored(sys.Schema(), g, CHILD, PARENT, Subject(ROOT, ""))
    requires PassesAlong(sys.p, READ, TENANT, PARENT)
    ensures Reaches(sys.Schema(), g, PassedAlong(sys.p, READ), iset{ROOT}, CHILD)
  {
    var schema, pass := sys.Schema(), PassedAlong(sys.p, READ);
    ReachesHere(schema, g, pass, iset{ROOT}, ROOT);
    assert Parent(schema, g, pass, CHILD, ROOT);
    ReachesBeyond(schema, g, pass, iset{ROOT}, CHILD, ROOT);
  }

  lemma AliceIsAMember(g: Graph)
    ensures TheSystem().Sound() && IsMember(TheSystem(), g, ALICE, 0, Subject(ALICE, ""))
  {
    TheSystemIsSound();
    Tables();
  }

  lemma ReadIsGrantedOnChild()
    ensures TheSystem().ValidSubject(ALICE) && ValidOrders(Document(), TheOrders())
    ensures Granted(SchemaOf(Document(), TheOrders()), WithBinding().rels, CHILD, READ, Subject(ALICE, ""))
  {
    assert READ == ACTIONS[0];
    RoleIsCreated(READ, Done);
    AliceIsBound();
    ReadIsGrantable();
    ReadPassesAlongParents();
    ChildIsBelowRoot();
    ReachesRoot(TheSystem(), WithBinding().rels);
    AliceIsAMember(WithBinding().rels);
    Tables();
    RoleThenBindingGrants(TheSystem(), Start(), "r", ROOT_ROLE, [READ], WithRole(READ, Done), "b", ROOT_BINDING,
      [ALICE], WithBinding(), READ, iset{TENANT}, ALICE, 0, Subject(ALICE, ""), CHILD);
  }

  /** Two operations later alice may read on the child of the tenant that owns the role. */
  lemma ARunThatGrants()
    ensures TheSystem().ValidSubject(ALICE) && ValidOrders(Document(), TheOrders())
    ensures IsRun(TheSystem(), [Start(), WithRole(READ, Done), WithBinding()],
      [CreateRole("r", ROOT_ROLE, [READ], Done), CreateBinding("b", ROOT_BINDING, "r", [ALICE], Done)])
    ensures Granted(SchemaOf(Document(), TheOrders()), WithBinding().rels, CHILD, READ, Subject(ALICE, ""))
  {
    assert READ == ACTIONS[0];
    RoleIsCreated(READ, Done);
    AliceIsBound();
    StartIsInitial();
    TwoSteps(TheSystem(), Start(), CreateRole("r", ROOT_ROLE, [READ], Done), WithRole(READ, Done),
      CreateBinding("b", ROOT_BINDING, "r", [ALICE], Done), WithBinding());
    ReadIsGrantedOnChild();
  }

  // ---------- a role left behind ----------

  lemma OutcomesWriteAlike(action: string)
    ensures WithRole(action, Unfinished).rels == WithRole(action, Done).rels
  {
  }

  lemma LeftBehindIsAvailable()
    ensures TheSystem().Sound() && Available(TheSystem(), WithRole(READ, Unfinished).rels, ROOT, "r")
  {
    assert READ == ACTIONS[0];
    RoleIsAvailable(READ);
    OutcomesWriteAlike(READ);
  }

  lemma LeftBehindIsAnOrphan()
    ensures TheSystem().Sound() && Orphan(TheSystem(), WithRole(READ, Unfinished), "r")
  {
    assert READ == ACTIONS[0];
    StartIsConsistent();
    RoleIsCreated(READ, Unfinished);
    UnfinishedCreateLeavesOrphan(TheSystem(), Start(), "r", ROOT_ROLE, [READ], WithRole(READ, Unfinished));
  }

  /** A create that does not commit leaves a role that its owner still makes available, until the
      remains are removed. */
  lemma LeftoversAreAvailable()
    ensures TheSystem().Sound() && Oblivious(Document())
    ensures IsRun(TheSystem(), [Start(), WithRole(READ, Unfinished)], [CreateRole("r", ROOT_ROLE, [READ], Unfinished)])
    ensures var s := WithRole(READ, Unfinished);
      && Orphan(TheSystem(), s, "r") && Available(TheSystem(), s.rels, ROOT, "r")
      && !Available(TheSystem(), s.rels - Remains(TheSystem(), s.rels, "r"), ROOT, "r")
  {
    assert READ == ACTIONS[0];
    DocumentIsOblivious();
    RoleIsCreated(READ, Unfinished);
    StartIsInitial();
    OneStep(TheSystem(), Start(), CreateRole("r", ROOT_ROLE, [READ], Unfinished), WithRole(READ, Unfinished));
    LeftBehindIsAnOrphan();
    LeftBehindIsAvailable();
    AvailabilityOfTheRole(TheSystem(), WithRole(READ, Unfinished).rels, "r", ROOT);
  }

  // ---------- an update that misreads ----------

  lemma LogReadsAsAudit()
    ensures LOG == AUDIT + PERMISSION_SUFFIX && RelationToAction(ActionToRelation(LOG)) == Some(AUDIT)
  {
    var s := ActionToRelation(LOG);
    assert s == AUDIT + (PERMISSION_SUFFIX + PERMISSION_SUFFIX);
    assert s[5..][..4] == PERMISSION_SUFFIX;
    CutStops(s, 5);
    assert s[..5] == AUDIT;
  }

  /** Cutting stops at the first suffix. */
  lemma {:induction false} CutStops(s: string, k: nat)
    requires SuffixAt(s, k) && forall i :: 0 <= i < k ==> s[i] != '_'
    ensures CutSuffix(s) == Some(s[..k])
  {
    if k > 0 {
      assert s[..4][0] != PERMISSION_SUFFIX[0];
      assert s[1..][k - 1..k + 3] == s[k..k + 4];
      CutStops(s[1..], k - 1);
      assert s[..k] == [s[0]] + s[1..][..k - 1];
    }
  }

  lemma ReadOnly(sys: System, g: Graph, id: string, action: string, cut: string)
    requires RoleWellFormed(sys, g, id) && sys.r.roleSubjectTypes != [] && StoredActions(sys, g, id) == {action}
    requires RelationToAction(ActionToRelation(action)) == Some(cut)
    ensures sys.ReadActions(g, id) == {Some(cut)}
  {
    forall x
      ensures x in sys.ReadActions(g, id) <==> x == Some(cut)
    {
      ReadMembers(sys, g, id, x);
    }
  }

  lemma OnlyStored(sys: System, s: Stores, s': Stores, id: string, row: RoleRow, action: string)
    requires sys.Sound() && Consistent(sys, s) && CreateRoleStep(sys, s, id, row, [action], Done, s')
    requires sys.r.roleSubjectTypes != []
    ensures StoredActions(sys, s'.rels, id) == {action} && RoleWellFormed(sys, s'.rels, id)
  {
    CreateStoresRequest(sys, s, id, row, [action], s');
    CreateRoleKeeps(sys, s, id, row, [action], Done, s');
    ConsistentRoles(sys, s', id);
    assert Elements([action]) == {action};
  }

  /** An update whose request is what is read changes nothing. */
  lemma NothingToWrite(sys: System, s: Stores, id: string, action: string)
    requires sys.Sound() && id in s.roles && sys.ReadActions(s.rels, id) == {Some(action)}
    ensures Step(sys, s, UpdateRole(id, "", [action], Done), s)
  {
    var current := set a | a in sys.ReadActions(s.rels, id) && a.Some? :: a.value;
    assert current == {action} == Elements([action]);
    assert sys.PermissionTuples(id, {}) == {};
  }

  lemma OnlyLogIsStored()
    ensures TheSystem().Sound()
    ensures StoredActions(TheSystem(), WithRole(LOG, Done).rels, "r") == {LOG}
    ensures Step(TheSystem(), WithRole(LOG, Done), UpdateRole("r", "", [AUDIT], Done), WithRole(LOG, Done))
  {
    assert LOG == ACTIONS[2];
    var sys, s := TheSystem(), WithRole(LOG, Done);
    StartIsConsistent();
    RoleIsCreated(LOG, Done);
    RowsOfWithRole(LOG);
    OnlyStored(sys, Start(), s, "r", ROOT_ROLE, LOG);
    LogReadsAsAudit();
    ReadOnly(sys, s.rels, "r", LOG, AUDIT);
    NothingToWrite(sys, s, "r", AUDIT);
  }

  /** A role is created with an action that contains the suffix and then updated to the name it
      is read back as: the update succeeds and still stores the old action only. */
  lemma AnUpdateThatMisreads()
    ensures var s := WithRole(LOG, Done);
      && IsRun(TheSystem(), [Start(), s, s],
           [CreateRole("r", ROOT_ROLE, [LOG], Done), UpdateRole("r", "", [AUDIT], Done)])
      && StoredActions(TheSystem(), s.rels, "r") == {LOG} != {AUDIT}
  {
    assert LOG == ACTIONS[2] && |LOG| != |AUDIT|;
    StartIsInitial();
    RoleIsCreated(LOG, Done);
    OnlyLogIsStored();
    TwoSteps(TheSystem(), Start(), CreateRole("r", ROOT_ROLE, [LOG], Done), WithRole(LOG, Done),
      UpdateRole("r", "", [AUDIT], Done), WithRole(LOG, Done));
  }
}
