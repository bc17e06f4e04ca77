/** What a failed commit of a role's creation or deletion leaves behind: it is never bound
    later, and it changes no check but those of role ownership and availability. */
module Leftovers {
  import opened Types
  import opened Rbac
  import opened Iapl
  import opened PolicyTables
  import opened PolicyMeaning
  import opened Permissions
  import opened CompilerCorrectness
  import opened RoleBindingMeaning
  import opened Relations
  import opened TwoStores
  import opened StoreRuns

  // ---------- leftovers stay unbound ----------

  /** The role was created once, and lacks its row or its owner's membership. */
  ghost predicate Orphan(sys: System, s: Stores, role: string) {
    role in s.usedRoles && (role in s.roles ==> sys.MemberTuple(role, s.roles[role].owner) !in s.rels)
  }

  /** A create whose commit fails leaves an orphan. */
  lemma UnfinishedCreateLeavesOrphan(sys: System, s: Stores, id: string, row: RoleRow, actions: seq<string>, s': Stores)
    requires sys.Sound() && Consistent(sys, s) && CreateRoleStep(sys, s, id, row, actions, Unfinished, s')
    ensures Orphan(sys, s', id)
  {
  }

  /** So does a delete whose commit fails after the membership was removed. */
  lemma UnfinishedDeleteLeavesOrphan(sys: System, s: Stores, id: string, fromRole: bool, s': Stores)
    requires sys.Sound() && Consistent(sys, s) && DeleteRoleStep(sys, s, id, fromRole, true, Unfinished, s')
    ensures Orphan(sys, s', id)
  {
    assert sys.MemberTuple(id, s.roles[id].owner).res.typ == s.roles[id].owner.typ;
  }

  lemma OrphansAreUnbound(sys: System, s: Stores, role: string)
    requires Consistent(sys, s) && Orphan(sys, s, role) && sys.Sound()
    ensures !BoundTo(sys, s.rels, role)
  {
    forall t | t in s.rels && t.res.typ == sys.r.roleBindingResource.name && t.relation == ROLE_RELATION
      ensures t.subj.obj != sys.Role(role)
    {
      assert TupleOk(sys, s, t);
    }
  }

  /** No step hands an existing role a new owner, in either store. */
  ghost predicate NoNewOwner(sys: System, s: Stores, s': Stores, role: string) {
    && (role in s'.roles ==> role in s.roles && s'.roles[role].owner == s.roles[role].owner)
    && (forall owner: Object :: !OfRbac(sys.r, owner.typ) && sys.MemberTuple(role, owner) in s'.rels ==>
      sys.MemberTuple(role, owner) in s.rels)
  }

  lemma CreateRoleNoNewOwner(sys: System, s: Stores, id: string, row: RoleRow, actions: seq<string>, outcome: Outcome,
    s': Stores, role: string)
    requires sys.Sound() && CreateRoleStep(sys, s, id, row, actions, outcome, s') && role in s.usedRoles
    ensures NoNewOwner(sys, s, s', role)
  {
    forall owner: Object | !OfRbac(sys.r, owner.typ) && sys.MemberTuple(role, owner) in s'.rels
      ensures sys.MemberTuple(role, owner) in s.rels
    {
      assert sys.MemberTuple(role, owner) != sys.MemberTuple(id, row.owner);
      assert sys.MemberTuple(role, owner) !in sys.PermissionTuples(id, Elements(actions));
    }
  }

  lemma UpdateRoleNoNewOwner(sys: System, s: Stores, id: string, name: string, actions: seq<string>, outcome: Outcome,
    s': Stores, role: string)
    requires sys.Sound() && UpdateRoleStep(sys, s, id, name, actions, outcome, s')
    ensures NoNewOwner(sys, s, s', role)
  {
    UpdatedKeepsOthers(sys, s.rels, id, actions);
  }

  lemma BindingRelations(sys: System, id: string, resource: Object, role: string, subjects: seq<Object>)
    requires forall x :: x in subjects ==> sys.ValidSubject(x)
    ensures forall t :: t in sys.BindingTuples(id, resource, role, subjects) ==> t.relation != MEMBER_ROLE_RELATION
  {
  }

  lemma BindingsNoNewOwner(sys: System, s: Stores, e: Event, s': Stores, role: string)
    requires sys.Sound() && Step(sys, s, e, s') && (e.CreateBinding? || e.UpdateBinding? || e.DeleteBinding?)
    ensures NoNewOwner(sys, s, s', role)
  {
    if e.outcome.Done? {
      if e.CreateBinding? {
        BindingRelations(sys, e.id, e.binding.resource, e.role, e.subjects);
      } else if e.UpdateBinding? {
        assert forall t :: t in sys.SubjectTuples(e.id, e.subjects) ==> t.relation == SUBJECT_RELATION;
      }
    }
    assert forall t :: t in s'.rels && t !in s.rels ==> t.relation != MEMBER_ROLE_RELATION;
  }

  lemma OrphansStayOrphans(sys: System, s: Stores, e: Event, s': Stores, role: string)
    requires sys.Sound() && Consistent(sys, s) && Step(sys, s, e, s') && Orphan(sys, s, role)
    ensures Orphan(sys, s', role)
  {
    assert NoNewOwner(sys, s, s', role) by {
      match e
      case CreateRole(id, row, actions, outcome) => CreateRoleNoNewOwner(sys, s, id, row, actions, outcome, s', role);
      case UpdateRole(id, name, actions, outcome) => UpdateRoleNoNewOwner(sys, s, id, name, actions, outcome, s', role);
      case DeleteRole(_, _, _, _) =>
      case Elsewhere(_) =>
      case _ => BindingsNoNewOwner(sys, s, e, s', role);
    }
    assert role in s'.usedRoles;
    assert role in s.roles ==> !OfRbac(sys.r, s.roles[role].owner.typ);
  }

  lemma RunStep(sys: System, states: seq<Stores>, events: seq<Event>, k: nat)
    requires IsRun(sys, states, events) && k < |events|
    ensures sys.Sound() && Consistent(sys, states[k]) && Step(sys, states[k], events[k], states[k + 1])
  {
    RunGoesOn(sys, states, events, k);
    RunsAreConsistent(sys, states, events, k);
  }

  lemma RunKeepsOrphan(sys: System, states: seq<Stores>, events: seq<Event>, k: nat, role: string)
    requires IsRun(sys, states, events) && k < |events| && Orphan(sys, states[k], role)
    ensures Orphan(sys, states[k + 1], role)
  {
    var s, e, s' := states[k], events[k], states[k + 1];
    RunStep(sys, states, events, k);
    OrphansStayOrphans(sys, s, e, s', role);
  }

  /** Orphan, at every state of the run. */
  ghost predicate OrphanAt(sys: System, states: seq<Stores>, role: string, k: nat) {
    k < |states| && Orphan(sys, states[k], role)
  }

  lemma {:induction false} KeptAlong(sys: System, states: seq<Stores>, role: string, i: nat, j: nat)
    requires i <= j < |states| && OrphanAt(sys, states, role, i)
    requires forall k: nat :: k + 1 < |states| && OrphanAt(sys, states, role, k) ==> OrphanAt(sys, states, role, k + 1)
    ensures OrphanAt(sys, states, role, j)
    decreases j
  {
    if i < j {
      KeptAlong(sys, states, role, i, j - 1);
    }
  }

  lemma OrphansStay(sys: System, states: seq<Stores>, events: seq<Event>, i: nat, j: nat, role: string)
    requires IsRun(sys, states, events) && i <= j < |states| && Orphan(sys, states[i], role)
    ensures Orphan(sys, states[j], role)
  {
    forall k: nat | k + 1 < |states| && OrphanAt(sys, states, role, k)
      ensures OrphanAt(sys, states, role, k + 1)
    {
      RunKeepsOrphan(sys, states, events, k, role);
    }
    KeptAlong(sys, states, role, i, j);
  }

  /** What a failed commit leaves in one store is never bound later, whatever follows. */
  lemma LeftoversAreNeverBound(sys: System, states: seq<Stores>, events: seq<Event>, i: nat, j: nat, role: string)
    requires IsRun(sys, states, events) && i <= j < |states| && Orphan(sys, states[i], role)
    ensures !BoundTo(sys, states[j].rels, role)
  {
    OrphansStay(sys, states, events, i, j, role);
    RunsAreConsistent(sys, states, events, j);
    OrphansAreUnbound(sys, states[j], role);
  }

  // ---------- leftovers are inert ----------

  /** Nothing but its membership leads to a leftover role, which is named there as a single object. */
  lemma OnlyMembershipLeadsToOrphans(sys: System, s: Stores, role: string)
    requires Consistent(sys, s) && Orphan(sys, s, role)
    ensures OnlyAlong(s.rels, MEMBER_ROLE_RELATION, sys.Role(role)) && role != "*"
    ensures forall t :: t in s.rels && t.subj.obj == sys.Role(role) ==> t.subj.relation == ""
  {
    forall t | t in s.rels && t.subj.obj == sys.Role(role)
      ensures t.relation == MEMBER_ROLE_RELATION && t.subj.relation == ""
    {
      assert TupleOk(sys, s, t);
    }
  }

  /** What is left of a role. */
  function Remains(sys: System, g: Graph, role: string): Graph {
    Touching(g, sys.Role(role))
  }

  /** Removing a leftover role changes no check, of any subject on any other object, that does
      not follow member_role. */
  lemma LeftoversAreInert(sys: System, s: Stores, names: Names, role: string, x: Object, name: string, subject: Subject)
    requires sys.Sound() && Consistent(sys, s) && Orphan(sys, s, role)
    requires Avoids(sys.Schema(), names, MEMBER_ROLE_RELATION) && (x.typ, name) in names && x != sys.Role(role)
    ensures Granted(sys.Schema(), s.rels, x, name, subject) <==>
      Granted(sys.Schema(), s.rels - Remains(sys, s.rels, role), x, name, subject)
  {
    OnlyMembershipLeadsToOrphans(sys, s, role);
    GrantedWithout(sys.Schema(), s.rels, names, MEMBER_ROLE_RELATION, sys.Role(role), x, name, subject);
  }

  lemma LeftoverAt(sys: System, states: seq<Stores>, events: seq<Event>, i: nat, j: nat, role: string)
    requires IsRun(sys, states, events) && i <= j < |states| && Orphan(sys, states[i], role)
    ensures Consistent(sys, states[j]) && Orphan(sys, states[j], role) && role != "*"
  {
    RunsAreConsistent(sys, states, events, j);
    OrphansStay(sys, states, events, i, j, role);
  }

  /** So along every run: from the failed commit on, the leftovers change no such check. */
  lemma LeftoversStayInert(sys: System, states: seq<Stores>, events: seq<Event>, i: nat, j: nat,
    names: Names, role: string, x: Object, name: string, subject: Subject)
    requires IsRun(sys, states, events) && i <= j < |states| && Orphan(sys, states[i], role)
    requires Avoids(sys.Schema(), names, MEMBER_ROLE_RELATION) && (x.typ, name) in names && x != sys.Role(role)
    ensures Granted(sys.Schema(), states[j].rels, x, name, subject) <==>
      Granted(sys.Schema(), states[j].rels - Remains(sys, states[j].rels, role), x, name, subject)
  {
    LeftoverAt(sys, states, events, i, j, role);
    LeftoversAreInert(sys, states[j], names, role, x, name, subject);
  }

  // ---------- the clauses of an emitted schema ----------

  ghost predicate ClauseOf(a: Action, c: Condition) {
    c in a.conditions || exists cs :: cs in a.conditionSets && c in cs.conditions
  }

  ghost predicate ClauseOfDocument(p: PolicyDocument, clause: Option<RelationshipAction>) {
    exists d, c: Condition :: d in p.actionBindings && c.relationshipAction == clause &&
      (c in d.conditions || exists cs :: cs in d.conditionSets && c in cs.conditions)
  }

  /** The clauses the compiler adds for an action of a type. */
  predicate GeneratedClause(p: PolicyDocument, typ: string, action: string, clause: RelationshipAction) {
    || clause == RelationshipAction(action + PERMISSION_SUFFIX, "")
    || (clause.actionName == action && (clause.relation == GRANT_RELATION || clause.relation in InheritsOf(p, typ)))
    || (action == AVAILABLE_ROLES && clause == RelationshipAction(MEMBER_ROLE_RELATION, ""))
    || clause == RelationshipAction(ROLE_RELATION, action + PERMISSION_SUFFIX)
    || clause == RelationshipAction(SUBJECT_RELATION, "")
  }

  ghost predicate KnownClause(p: PolicyDocument, typ: string, action: string, c: Condition) {
    ClauseOfDocument(p, c.relationshipAction) ||
    (c.relationshipAction.Some? && GeneratedClause(p, typ, action, c.relationshipAction.value))
  }

  lemma RoleBindingClauses(p: PolicyDocument, typ: string, action: string, from: seq<string>, m: Condition)
    requires from == InheritsOf(p, typ) || from == []
    requires m in RoleBindingConditions(action, from)
    ensures KnownClause(p, typ, action, m)
  {
  }

  lemma CompiledClause(p: PolicyDocument, t: ResourceType, typ: string, action: string, c: Condition, m: Condition)
    requires InheritsFrom(t) == InheritsOf(p, typ)
    requires m in CompileCondition(t, action, c)
    ensures KnownClause(p, typ, action, m) || m.relationshipAction == c.relationshipAction
  {
    if !c.roleBinding && c.roleBindingV2 && t.roleBindingV2.Some? {
      RoleBindingClauses(p, typ, action, if t.roleBindingV2.value.inheritAllActions then InheritsFrom(t) else [], m);
    }
  }

  /** The clauses of a binding that the compiler made. */
  lemma MadeClauses(p: PolicyDocument, b: ActionBinding, c: Condition)
    requires p.rbac.Some?
    requires b == RoleBindingBinding(p.rbac.value, b.actionName) ||
      b in AvailableBindingOf(p, p.rbac.value, b.typeName)
    requires c in b.conditions || exists cs :: cs in b.conditionSets && c in cs.conditions
    ensures KnownClause(p, b.typeName, b.actionName, c)
  {
    if b in AvailableBindingOf(p, p.rbac.value, b.typeName) {
      assert c in AvailableConditionsOf(p, p.rbac.value, b.typeName);
    }
  }

  lemma BoundClauses(p: PolicyDocument, b: ActionBinding, c: Condition)
    requires HasBinding(p, b)
    requires c in b.conditions || exists cs :: cs in b.conditionSets && c in cs.conditions
    ensures KnownClause(p, b.typeName, b.actionName, c)
  {
    if d :| d in p.actionBindings && b in ExpandBinding(UnionTable(p.unions), d) {
      assert b.conditions == d.conditions && b.conditionSets == d.conditionSets;
      assert ClauseOfDocument(p, c.relationshipAction);
    } else {
      MadeClauses(p, b, c);
    }
  }

  /** Every clause of an emitted action is one of the document or one the compiler adds. */
  lemma EmittedClauses(p: PolicyDocument, o: Orders, validPrefix: string -> bool, typ: string, a: Action, m: Condition)
    requires DocAccepted(p, o, validPrefix)
    requires HasAction(SchemaOf(p, o), typ, a) && ClauseOf(a, m)
    ensures KnownClause(p, typ, a.name, m)
  {
    CompiledTypesNames(p, o.roleActions);
    HasActionOfBindings(p, o, typ, a);
    var t := CompiledTypes(p, o.roleActions)[typ];
    assert InheritsFrom(t) == InheritsOf(p, typ);
    if b :| HasBinding(p, b) && b.typeName == typ && a == CompileBinding(t, b) {
      if m in a.conditions {
        CompileConditionsMembers(t, b.actionName, b.conditions, m);
        var c :| c in b.conditions && m in CompileCondition(t, b.actionName, c);
        BoundClauses(p, b, c);
        CompiledClause(p, t, typ, b.actionName, c, m);
      } else {
        BoundClauses(p, b, m);
      }
    } else {
      RoleBindingClauses(p, typ, a.name, InheritsOf(p, typ), m);
    }
  }

  // ---------- only the role itself sees its remains ----------

  /** The document follows no arrow along member_role. */
  ghost predicate NeverThroughMembers(p: PolicyDocument) {
    forall ra :: ClauseOfDocument(p, Some(ra)) && ra.actionName != "" ==> ra.relation != MEMBER_ROLE_RELATION
  }

  lemma OnlyInheritanceFollowsMembers(p: PolicyDocument, typ: string, action: string, ra: RelationshipAction)
    requires NeverThroughMembers(p) && ra.relation == MEMBER_ROLE_RELATION && ra.actionName != ""
    requires ClauseOfDocument(p, Some(ra)) || GeneratedClause(p, typ, action, ra)
    ensures MEMBER_ROLE_RELATION in InheritsOf(p, typ)
  {
  }

  lemma InheritanceSkipsMembers(p: PolicyDocument, r: RBAC, o: Orders, typ: string, t: TargetType)
    requires ValidOrders(p, o) && UnionsAccepted(p, CompiledTypes(p, o.roleActions)) && OwnsRoles(p, r)
    requires typ in TypeNames(p) && MEMBER_ROLE_RELATION in InheritsOf(p, typ)
    ensures !Declares(SchemaOf(p, o), typ, MEMBER_ROLE_RELATION, t)
  {
    DeclaresAgree(p, o, typ, MEMBER_ROLE_RELATION, t);
  }

  lemma NoArrowThroughMembers(p: PolicyDocument, r: RBAC, o: Orders, validPrefix: string -> bool, typ: string,
    a: Action, c: Condition)
    requires DocAccepted(p, o, validPrefix) && OwnsRoles(p, r) && NeverThroughMembers(p)
    requires HasAction(SchemaOf(p, o), typ, a) && ClauseOf(a, c)
    ensures ClauseIsNoArrow(SchemaOf(p, o), MEMBER_ROLE_RELATION, typ, c)
  {
    EmittedClauses(p, o, validPrefix, typ, a, c);
    CompiledTypesNames(p, o.roleActions);
    match c.relationshipAction
    case None =>
    case Some(ra) =>
      if ra.relation == MEMBER_ROLE_RELATION && ra.actionName != "" {
        OnlyInheritanceFollowsMembers(p, typ, a.name, ra);
        forall t
          ensures !Declares(SchemaOf(p, o), typ, MEMBER_ROLE_RELATION, t)
        {
          InheritanceSkipsMembers(p, r, o, typ, t);
        }
      }
  }

  /** Then neither does the schema, wherever the relation leads to anything. */
  lemma SchemaHasNoArrow(p: PolicyDocument, r: RBAC, o: Orders, validPrefix: string -> bool)
    requires DocAccepted(p, o, validPrefix) && OwnsRoles(p, r) && NeverThroughMembers(p)
    ensures NoArrowAlong(SchemaOf(p, o), MEMBER_ROLE_RELATION)
  {
    forall typ, a | HasAction(SchemaOf(p, o), typ, a)
      ensures ActionHasNoArrow(SchemaOf(p, o), MEMBER_ROLE_RELATION, typ, a)
    {
      forall c | ClauseOf(a, c)
        ensures ClauseIsNoArrow(SchemaOf(p, o), MEMBER_ROLE_RELATION, typ, c)
      {
        NoArrowThroughMembers(p, r, o, validPrefix, typ, a, c);
      }
    }
  }

  /** Removing a leftover role changes no check at all on another object, but those of the role
      itself as the subject. */
  lemma OthersNeverSeeLeftovers(sys: System, s: Stores, role: string, x: Object, name: string, subject: Subject)
    requires sys.Sound() && Consistent(sys, s) && Orphan(sys, s, role) && NeverThroughMembers(sys.p)
    requires x != sys.Role(role) && subject != Subject(sys.Role(role), "")
    ensures Granted(sys.Schema(), s.rels, x, name, subject) <==>
      Granted(sys.Schema(), s.rels - Remains(sys, s.rels, role), x, name, subject)
  {
    SchemaHasNoArrow(sys.p, sys.r, sys.orders, sys.validPrefix);
    OnlyMembershipLeadsToOrphans(sys, s, role);
    GrantedToOthers(sys.Schema(), s.rels, MEMBER_ROLE_RELATION, sys.Role(role), x, name, subject);
  }

  /** So along every run, from the failed commit on. */
  lemma LeftoversStayUnseen(sys: System, states: seq<Stores>, events: seq<Event>, i: nat, j: nat,
    role: string, x: Object, name: string, subject: Subject)
    requires IsRun(sys, states, events) && i <= j < |states| && Orphan(sys, states[i], role)
    requires NeverThroughMembers(sys.p) && x != sys.Role(role) && subject != Subject(sys.Role(role), "")
    ensures Granted(sys.Schema(), states[j].rels, x, name, subject) <==>
      Granted(sys.Schema(), states[j].rels - Remains(sys, states[j].rels, role), x, name, subject)
  {
    LeftoverAt(sys, states, events, i, j, role);
    OthersNeverSeeLeftovers(sys, states[j], role, x, name, subject);
  }

  // ---------- membership and availability ----------

  /** Removing any role takes away its own membership and no other. */
  lemma MembershipWithoutLeftovers(sys: System, g: Graph, role: string, x: Object, subject: Subject)
    requires sys.Sound() && x != sys.Role(role)
    ensures Granted(sys.Schema(), g - Remains(sys, g, role), x, MEMBER_ROLE_RELATION, subject) <==>
      Granted(sys.Schema(), g, x, MEMBER_ROLE_RELATION, subject) && subject != Subject(sys.Role(role), "")
  {
    var p, r, o := sys.p, sys.r, sys.orders;
    var h := g - Remains(sys, g, role);
    MembershipIsStored(p, r, o, sys.validPrefix, g, x, subject);
    MembershipIsStored(p, r, o, sys.validPrefix, h, x, subject);
    StoredAgree(p, o, sys.validPrefix, g, x, MEMBER_ROLE_RELATION, subject);
    if Stored(sys.Schema(), g, x, MEMBER_ROLE_RELATION, subject) {
      OnlyRolesAreMembers(p, r, g, x, subject);
    }
  }

  /** Inherit relations never lead to a role, so removing one leaves them as they are. */
  lemma ParentsRemain(sys: System, g: Graph, role: string)
    requires sys.Sound()
    ensures var h := g - Remains(sys, g, role);
      && ParentsKept(sys.Schema(), g, h, RolesPassedAlong(sys.p), Outside(sys.r))
      && ParentsKept(sys.Schema(), h, g, RolesPassedAlong(sys.p), Outside(sys.r))
  {
    var schema, pass, h := sys.Schema(), RolesPassedAlong(sys.p), g - Remains(sys, g, role);
    forall x: Object, y: Object | x.typ in Outside(sys.r) && Parent(schema, g, pass, x, y)
      ensures y.typ in Outside(sys.r) && Parent(schema, h, pass, x, y)
    {
      ParentsAreOutside(sys.p, sys.r, sys.orders, sys.validPrefix, g, x, y);
      ParentRemains(schema, pass, g, sys.Role(role), x, y);
    }
    forall x: Object, y: Object | x.typ in Outside(sys.r) && Parent(schema, h, pass, x, y)
      ensures y.typ in Outside(sys.r) && Parent(schema, g, pass, x, y)
    {
      ParentsAreOutside(sys.p, sys.r, sys.orders, sys.validPrefix, h, x, y);
      var f, held :| x.typ in pass && f in pass[x.typ] && Stored(schema, h, x, f, held) && held.obj == y;
      assert Stored(schema, g, x, f, held);
    }
  }

  lemma ParentRemains(schema: Schema, pass: Parents, g: Graph, gone: Object, x: Object, y: Object)
    requires Parent(schema, g, pass, x, y) && x != gone && y != gone
    ensures Parent(schema, g - Touching(g, gone), pass, x, y)
  {
    var f, held :| x.typ in pass && f in pass[x.typ] && Stored(schema, g, x, f, held) && held.obj == y;
    assert Stored(schema, g - Touching(g, gone), x, f, held);
  }

  lemma OwnersWithoutLeftovers(sys: System, g: Graph, role: string, subject: Subject)
    requires sys.Sound()
    ensures forall y: Object :: y.typ in Outside(sys.r) ==>
      (y in Owners(sys.p, sys.r, sys.orders, g - Remains(sys, g, role), subject) <==>
        y in Owners(sys.p, sys.r, sys.orders, g, subject) && subject != Subject(sys.Role(role), ""))
  {
    forall y: Object | y.typ in Outside(sys.r)
      ensures Stored(sys.Schema(), g - Remains(sys, g, role), y, MEMBER_ROLE_RELATION, subject) <==>
        Stored(sys.Schema(), g, y, MEMBER_ROLE_RELATION, subject) && subject != Subject(sys.Role(role), "")
    {
      MembershipIsStored(sys.p, sys.r, sys.orders, sys.validPrefix, g, y, subject);
      MembershipIsStored(sys.p, sys.r, sys.orders, sys.validPrefix, g - Remains(sys, g, role), y, subject);
      MembershipWithoutLeftovers(sys, g, role, y, subject);
    }
  }

  /** Removing any role takes away its own availability and no other: for every subject on objects
      outside RBAC, where roles are bound. */
  lemma AvailabilityWithoutLeftovers(sys: System, g: Graph, role: string, x: Object, subject: Subject)
    requires sys.Sound() && !OfRbac(sys.r, x.typ)
    ensures Granted(sys.Schema(), g - Remains(sys, g, role), x, AVAILABLE_ROLES, subject) <==>
      Granted(sys.Schema(), g, x, AVAILABLE_ROLES, subject) && subject != Subject(sys.Role(role), "")
  {
    var p, r, o, h := sys.p, sys.r, sys.orders, g - Remains(sys, g, role);
    var schema, pass := sys.Schema(), RolesPassedAlong(p);
    var before, after := Owners(p, r, o, g, subject), Owners(p, r, o, h, subject);
    AvailabilityIsReachability(p, r, o, sys.validPrefix, g, x, subject);
    AvailabilityIsReachability(p, r, o, sys.validPrefix, h, x, subject);
    OwnersWithoutLeftovers(sys, g, role, subject);
    ParentsRemain(sys, g, role);
    if Reaches(schema, h, pass, after, x) {
      ReachesStill(schema, h, g, pass, Outside(r), after, before, x);
    }
    if subject != Subject(sys.Role(role), "") && Reaches(schema, g, pass, before, x) {
      ReachesStill(schema, g, h, pass, Outside(r), before, after, x);
    }
  }

  // ---------- documents that leave role ownership to the compiler ----------

  predicate OfOwnership(name: string) {
    name == MEMBER_ROLE_RELATION || name == AVAILABLE_ROLES
  }

  predicate ClauseIsOblivious(c: Condition) {
    match c.relationshipAction
    case None => true
    case Some(ra) => !OfOwnership(ra.relation) && !OfOwnership(ra.actionName)
  }

  /** The document itself never mentions member_role and avail_role. */
  ghost predicate Oblivious(p: PolicyDocument) {
    && (forall ra :: ClauseOfDocument(p, Some(ra)) ==> !OfOwnership(ra.relation) && !OfOwnership(ra.actionName))
    && (forall typ, f :: f in InheritsOf(p, typ) ==> !OfOwnership(f))
    && (forall typ, relation, t :: DocDeclares(p, typ, relation, t) ==> !OfOwnership(t.subjectRelation))
  }

  /** Every name but those of role ownership and availability. */
  ghost function OtherNames(): Names {
    iset typ: string, name: string | !OfOwnership(name) :: (typ, name)
  }

  lemma SuffixedIsOther(a: string)
    ensures !OfOwnership(a + PERMISSION_SUFFIX)
  {
    PermissionNames(a);
    PermissionIsNoOwnAction(a);
  }

  ghost predicate ClausesAreOblivious(cs: seq<Condition>) {
    forall c :: c in cs ==> ClauseIsOblivious(c)
  }

  ghost predicate ObliviousAction(a: Action) {
    && ClausesAreOblivious(a.conditions)
    && (forall cs :: cs in a.conditionSets ==> ClausesAreOblivious(cs.conditions))
  }

  lemma EmittedActionIsOblivious(p: PolicyDocument, o: Orders, validPrefix: string -> bool, typ: string, a: Action)
    requires DocAccepted(p, o, validPrefix) && Oblivious(p)
    requires HasAction(SchemaOf(p, o), typ, a) && !OfOwnership(a.name)
    ensures ObliviousAction(a)
  {
    SuffixedIsOther(a.name);
    forall c | ClauseOf(a, c)
      ensures ClauseIsOblivious(c)
    {
      EmittedClauses(p, o, validPrefix, typ, a, c);
    }
  }

  lemma EmittedTargetIsOblivious(p: PolicyDocument, o: Orders, validPrefix: string -> bool, typ: string, name: string,
    t: TargetType)
    requires DocAccepted(p, o, validPrefix) && Oblivious(p) && typ in TypeNames(p)
    requires Declares(SchemaOf(p, o), typ, name, t)
    ensures !OfOwnership(t.subjectRelation)
  {
    DeclaresAgree(p, o, typ, name, t);
  }

  ghost predicate ObliviousTypes(schema: Schema) {
    && (forall typ, name, t :: Declares(schema, typ, name, t) ==> !OfOwnership(t.subjectRelation))
    && (forall typ, a :: HasAction(schema, typ, a) && !OfOwnership(a.name) ==> ObliviousAction(a))
  }

  lemma ObliviousTypesAvoid(schema: Schema)
    requires ObliviousTypes(schema)
    ensures Avoids(schema, OtherNames(), MEMBER_ROLE_RELATION)
  {
    forall typ, a | HasAction(schema, typ, a) && !OfOwnership(a.name)
      ensures ActionAvoids(schema, OtherNames(), MEMBER_ROLE_RELATION, typ, a)
    {
      assert ObliviousAction(a);
    }
  }

  /** Then all other names form a closed set that never uses member_role. */
  lemma ObliviousDocumentAvoids(p: PolicyDocument, o: Orders, validPrefix: string -> bool)
    requires DocAccepted(p, o, validPrefix) && Oblivious(p)
    ensures Avoids(SchemaOf(p, o), OtherNames(), MEMBER_ROLE_RELATION)
  {
    var schema := SchemaOf(p, o);
    CompiledTypesNames(p, o.roleActions);
    forall typ, name, t | Declares(schema, typ, name, t)
      ensures !OfOwnership(t.subjectRelation)
    {
      EmittedTargetIsOblivious(p, o, validPrefix, typ, name, t);
    }
    forall typ, a | HasAction(schema, typ, a) && !OfOwnership(a.name)
      ensures ObliviousAction(a)
    {
      EmittedActionIsOblivious(p, o, validPrefix, typ, a);
    }
    ObliviousTypesAvoid(schema);
  }

  /** On the RBAC types a role is available neither with the remains nor without. */
  lemma AvailabilityOfTheRole(sys: System, g: Graph, role: string, x: Object)
    requires sys.Sound() && role != "*"
    ensures !Granted(sys.Schema(), g - Remains(sys, g, role), x, AVAILABLE_ROLES, Subject(sys.Role(role), ""))
  {
    var subject := Subject(sys.Role(role), "");
    if OfRbac(sys.r, x.typ) {
      NotAvailableOnRoleTypes(sys.p, sys.r, sys.orders, sys.validPrefix, g - Remains(sys, g, role), x, subject);
    } else {
      AvailabilityWithoutLeftovers(sys, g, role, x, subject);
    }
  }

  /** The role is a member_role of x, or x reaches an owner that has it as one. */
  ghost predicate OwnedOrReached(sys: System, g: Graph, role: string, x: Object, name: string)
    requires sys.Sound()
  {
    var subject := Subject(sys.Role(role), "");
    || (name == MEMBER_ROLE_RELATION && Stored(sys.Schema(), g, x, MEMBER_ROLE_RELATION, subject))
    || (name == AVAILABLE_ROLES &&
      Reaches(sys.Schema(), g, RolesPassedAlong(sys.p), Owners(sys.p, sys.r, sys.orders, g, subject), x))
  }

  lemma TheRoleSeesItsOwnership(sys: System, g: Graph, role: string, x: Object, name: string)
    requires sys.Sound() && role != "*" && x != sys.Role(role) && OfOwnership(name)
    ensures var subject := Subject(sys.Role(role), "");
      && !Granted(sys.Schema(), g - Remains(sys, g, role), x, name, subject)
      && (Granted(sys.Schema(), g, x, name, subject) <==> OwnedOrReached(sys, g, role, x, name))
  {
    var subject := Subject(sys.Role(role), "");
    if name == MEMBER_ROLE_RELATION {
      MembershipIsStored(sys.p, sys.r, sys.orders, sys.validPrefix, g, x, subject);
      MembershipWithoutLeftovers(sys, g, role, x, subject);
    } else {
      AvailabilityIsReachability(sys.p, sys.r, sys.orders, sys.validPrefix, g, x, subject);
      AvailabilityOfTheRole(sys, g, role, x);
    }
  }

  lemma ObliviousNeverThroughMembers(p: PolicyDocument)
    requires Oblivious(p)
    ensures NeverThroughMembers(p)
  {
  }

  /** When the document leaves role ownership to the compiler, removing the remains of a role
      changes a check on another object exactly when the subject is the role itself and the check
      is a membership it has or an availability it reaches. */
  lemma OnlyOwnershipSeesLeftovers(sys: System, states: seq<Stores>, events: seq<Event>, i: nat, j: nat,
    role: string, x: Object, name: string, subject: Subject)
    requires IsRun(sys, states, events) && i <= j < |states| && Orphan(sys, states[i], role)
    requires Oblivious(sys.p) && x != sys.Role(role)
    ensures var g := states[j].rels;
      (Granted(sys.Schema(), g, x, name, subject) <==>
        Granted(sys.Schema(), g - Remains(sys, g, role), x, name, subject)) <==>
      !(subject == Subject(sys.Role(role), "") && OwnedOrReached(sys, g, role, x, name))
  {
    if subject != Subject(sys.Role(role), "") {
      ObliviousNeverThroughMembers(sys.p);
      LeftoversStayUnseen(sys, states, events, i, j, role, x, name, subject);
    } else if OfOwnership(name) {
      LeftoverAt(sys, states, events, i, j, role);
      TheRoleSeesItsOwnership(sys, states[j].rels, role, x, name);
    } else {
      ObliviousDocumentAvoids(sys.p, sys.orders, sys.validPrefix);
      LeftoversStayInert(sys, states, events, i, j, OtherNames(), role, x, name, subject);
    }
  }
}
