/** Properties of whole runs of role and role-binding operations: the two stores stay in step,
    a role can be bound below its owner, and role actions read back. */
module StoreRuns {
  import opened Types
  import opened Rbac
  import opened Iapl
  import opened PolicyTables
  import opened PolicyMeaning
  import opened Permissions
  import opened RoleBindingMeaning
  import opened Relations
  import opened TwoStores

  // ---------- runs ----------

  ghost predicate Initial(sys: System, s: Stores) {
    && s.roles == map[] && s.bindings == map[] && s.usedRoles == {} && s.usedBindings == {}
    && forall t :: t in s.rels ==> !sys.Touches(t)
  }

  ghost predicate IsRun(sys: System, states: seq<Stores>, events: seq<Event>) {
    && sys.Sound()
    && |states| == |events| + 1
    && Initial(sys, states[0])
    && forall i :: 0 <= i < |events| ==> Step(sys, states[i], events[i], states[i + 1])
  }

  lemma InitialIsConsistent(sys: System, s: Stores)
    requires Initial(sys, s)
    ensures Consistent(sys, s)
  {
  }

  lemma RunsStartConsistent(sys: System, states: seq<Stores>, events: seq<Event>)
    requires IsRun(sys, states, events)
    ensures Consistent(sys, states[0])
  {
    InitialIsConsistent(sys, states[0]);
  }

  lemma RunGoesOn(sys: System, states: seq<Stores>, events: seq<Event>, k: nat)
    requires IsRun(sys, states, events) && k < |events|
    ensures sys.Sound() && Step(sys, states[k], events[k], states[k + 1])
  {
  }

  lemma RunKeepsConsistent(sys: System, states: seq<Stores>, events: seq<Event>, k: nat)
    requires IsRun(sys, states, events) && k < |events| && Consistent(sys, states[k])
    ensures Consistent(sys, states[k + 1])
  {
    var s, s' := states[k], states[k + 1];
    RunGoesOn(sys, states, events, k);
    StepKeepsConsistent(sys, s, events[k], s');
  }

  /** Induction over the states of a run. */
  lemma {:induction false} StaysInside(inside: iset<Stores>, states: seq<Stores>, k: nat)
    requires k < |states| && states[0] in inside
    requires forall i :: 0 <= i < |states| - 1 && states[i] in inside ==> states[i + 1] in inside
    ensures states[k] in inside
  {
    if k > 0 {
      StaysInside(inside, states, k - 1);
      assert states[k - 1 + 1] in inside;
    }
  }

  lemma RunsAreConsistent(sys: System, states: seq<Stores>, events: seq<Event>, k: nat)
    requires IsRun(sys, states, events) && k < |states|
    ensures Consistent(sys, states[k])
  {
    var inside := iset s | Consistent(sys, s);
    RunsStartConsistent(sys, states, events);
    forall i | 0 <= i < |states| - 1 && states[i] in inside
      ensures states[i + 1] in inside
    {
      RunKeepsConsistent(sys, states, events, i);
    }
    StaysInside(inside, states, k);
  }

  function RolesOf(sys: System, g: Graph, binding: string): Graph {
    set t | t in g && t.res == sys.Binding(binding) && t.relation == ROLE_RELATION
  }

  function GrantsOf(sys: System, g: Graph, binding: string): Graph {
    set t | t in g && t.relation == GRANT_RELATION && t.subj.obj == sys.Binding(binding)
  }

  predicate IsGrant(sys: System, t: Tuple) {
    t.relation == GRANT_RELATION && t.subj.obj.typ == sys.r.roleBindingResource.name
  }

  /** In every state of every run: a binding row has exactly one role, whose row exists, and
      exactly one grant, from the resource of the row; every grant ends at a binding row. */
  lemma TheStoresStayInStep(sys: System, states: seq<Stores>, events: seq<Event>, k: nat)
    requires IsRun(sys, states, events) && k < |states|
    ensures forall id :: id in states[k].bindings ==>
      && (exists role :: role in states[k].roles && RolesOf(sys, states[k].rels, id) == {sys.RoleTuple(id, role)})
      && GrantsOf(sys, states[k].rels, id) == {sys.GrantTuple(id, states[k].bindings[id].resource)}
    ensures forall t :: t in states[k].rels && IsGrant(sys, t) ==> t.subj.obj.id in states[k].bindings
  {
    RunsAreConsistent(sys, states, events, k);
    ConsistentStoresAreInStep(sys, states[k]);
  }

  lemma ConsistentStoresAreInStep(sys: System, s: Stores)
    requires Consistent(sys, s)
    ensures forall id :: id in s.bindings ==>
      && (exists role :: role in s.roles && RolesOf(sys, s.rels, id) == {sys.RoleTuple(id, role)})
      && GrantsOf(sys, s.rels, id) == {sys.GrantTuple(id, s.bindings[id].resource)}
    ensures forall t :: t in s.rels && IsGrant(sys, t) ==> t.subj.obj.id in s.bindings
  {
    forall id | id in s.bindings
      ensures exists role :: role in s.roles && RolesOf(sys, s.rels, id) == {sys.RoleTuple(id, role)}
      ensures GrantsOf(sys, s.rels, id) == {sys.GrantTuple(id, s.bindings[id].resource)}
    {
      assert BindingOk(sys, s, id);
      var role :| HasRole(sys, s, id, role);
      assert RolesOf(sys, s.rels, id) == {sys.RoleTuple(id, role)};
      forall t | t in GrantsOf(sys, s.rels, id)
        ensures t == sys.GrantTuple(id, s.bindings[id].resource)
      {
        assert TupleOk(sys, s, t);
      }
    }
    forall t | t in s.rels && IsGrant(sys, t)
      ensures t.subj.obj.id in s.bindings
    {
      assert TupleOk(sys, s, t);
    }
  }

  // ---------- where a role can be bound ----------

  /** Only the owner of its row can have the role as a member. */
  lemma OnlyTheOwnerHasIt(sys: System, s: Stores, id: string, y: Object)
    requires sys.Separate() && Consistent(sys, s) && id in s.roles && sys.MemberTuple(id, y) in s.rels
    ensures y == s.roles[id].owner
  {
    assert TupleOk(sys, s, sys.MemberTuple(id, y));
  }

  lemma MemberRoleIsDeclared(p: PolicyDocument, r: RBAC, o: Orders, validPrefix: string -> bool, typ: string)
    requires DocAccepted(p, o, validPrefix) && OwnsRoles(p, r) && typ in r.roleOwners
    ensures Declares(SchemaOf(p, o), typ, MEMBER_ROLE_RELATION, Plain(r.roleResource.name))
  {
    CompiledTypesNames(p, o.roleActions);
    AcceptedUnionsAreConcrete(p, CompiledTypes(p, o.roleActions));
    assert Plain(r.roleResource.name) in MemberRole(r).types;
    DeclaredByItself(p, typ, MemberRole(r), Plain(r.roleResource.name));
    DeclaresAgree(p, o, typ, MEMBER_ROLE_RELATION, Plain(r.roleResource.name));
  }

  lemma OwnersOfRole(sys: System, s: Stores, id: string, y: Object)
    requires sys.Sound() && Consistent(sys, s) && id in s.roles
    ensures y in Owners(sys.p, sys.r, sys.orders, s.rels, Subject(sys.Role(id), "")) <==>
      y == s.roles[id].owner && y.typ in sys.r.roleOwners && sys.MemberTuple(id, y) in s.rels
  {
    if sys.MemberTuple(id, y) in s.rels {
      OnlyTheOwnerHasIt(sys, s, id, y);
      if y.typ in sys.r.roleOwners {
        MemberRoleIsDeclared(sys.p, sys.r, sys.orders, sys.validPrefix, y.typ);
        assert Admits(Plain(sys.r.roleResource.name), Subject(sys.Role(id), ""));
      }
    }
  }

  lemma AllOwnersOfRole(sys: System, s: Stores, id: string)
    requires sys.Sound() && Consistent(sys, s) && id in s.roles
    ensures var owner := s.roles[id].owner;
      Owners(sys.p, sys.r, sys.orders, s.rels, Subject(sys.Role(id), "")) ==
        if owner.typ in sys.r.roleOwners && sys.MemberTuple(id, owner) in s.rels then iset{owner} else iset{}
  {
    forall y: Object
      ensures y in Owners(sys.p, sys.r, sys.orders, s.rels, Subject(sys.Role(id), "")) <==>
        y == s.roles[id].owner && y.typ in sys.r.roleOwners && sys.MemberTuple(id, y) in s.rels
    {
      OwnersOfRole(sys, s, id, y);
    }
  }

  /** In every consistent state, so in every state of every run, a role with a row can be bound
      exactly where its owner can be reached along inherit relations, the owner included,
      provided the owner is of a role-owner type and still has the role as a member. */
  lemma RoleIsAvailableBelowItsOwner(sys: System, s: Stores, id: string, x: Object)
    requires sys.Sound() && Consistent(sys, s) && id in s.roles
    ensures var owner := s.roles[id].owner;
      Available(sys, s.rels, x, id) <==>
        (owner.typ in sys.r.roleOwners && sys.MemberTuple(id, owner) in s.rels
         && Reaches(sys.Schema(), s.rels, RolesPassedAlong(sys.p), iset{owner}, x))
  {
    AvailabilityIsReachability(sys.p, sys.r, sys.orders, sys.validPrefix, s.rels, x, Subject(sys.Role(id), ""));
    AllOwnersOfRole(sys, s, id);
  }

  lemma RunsBindBelowTheOwner(sys: System, states: seq<Stores>, events: seq<Event>, k: nat, id: string, x: Object)
    requires IsRun(sys, states, events) && k < |states| && id in states[k].roles
    ensures var s, owner := states[k], states[k].roles[id].owner;
      Available(sys, s.rels, x, id) <==>
        (owner.typ in sys.r.roleOwners && sys.MemberTuple(id, owner) in s.rels
         && Reaches(sys.Schema(), s.rels, RolesPassedAlong(sys.p), iset{owner}, x))
  {
    RunsAreConsistent(sys, states, events, k);
    RoleIsAvailableBelowItsOwner(sys, states[k], id, x);
  }

  /** A bound role is still a member of its owner: it stays available there. */
  lemma BoundRolesStayOwned(sys: System, s: Stores, id: string)
    requires Consistent(sys, s) && BoundTo(sys, s.rels, id)
    ensures id in s.roles && sys.MemberTuple(id, s.roles[id].owner) in s.rels
  {
    var t :| t in s.rels && t.res.typ == sys.r.roleBindingResource.name && t.relation == ROLE_RELATION &&
      t.subj.obj == sys.Role(id);
    assert TupleOk(sys, s, t);
  }

  // ---------- the actions of a role read back ----------

  function DropSuffix(relation: string): string {
    if |relation| < |PERMISSION_SUFFIX| then relation else relation[..|relation| - |PERMISSION_SUFFIX|]
  }

  /** The actions whose wildcards the role holds, for whatever subject type. */
  function StoredActions(sys: System, g: Graph, role: string): set<string> {
    set t | t in g && t.res == sys.Role(role) && IsPermission(sys, t) :: DropSuffix(t.relation)
  }

  /** The relationships of the role are what the invariant says they are. */
  ghost predicate RoleWellFormed(sys: System, g: Graph, role: string) {
    && Uniform(sys, g)
    && forall t :: t in g && t.res == sys.Role(role) ==>
         || (t.relation == ROLE_OWNER_RELATION && t.subj.obj.id != "*")
         || (IsPermission(sys, t) && exists a :: t.relation == ActionToRelation(a))
  }

  lemma ConsistentRoles(sys: System, s: Stores, role: string)
    requires Consistent(sys, s)
    ensures RoleWellFormed(sys, s.rels, role)
  {
    forall t | t in s.rels && t.res == sys.Role(role)
      ensures FromRoleOk(sys, s, t)
    {
      assert TupleOk(sys, s, t);
    }
  }

  lemma ActionOfRelation(a: string)
    ensures DropSuffix(ActionToRelation(a)) == a
  {
  }

  lemma StoredMeansWildcard(sys: System, g: Graph, role: string, a: string, typ: string)
    requires RoleWellFormed(sys, g, role) && typ in sys.r.roleSubjectTypes
    ensures a in StoredActions(sys, g, role) <==> PermissionTuple(sys, role, a, typ) in g
  {
    ActionOfRelation(a);
    if a in StoredActions(sys, g, role) {
      var t :| t in g && t.res == sys.Role(role) && IsPermission(sys, t) && DropSuffix(t.relation) == a;
      PermissionRelation(a);
      var b :| t.relation == ROLE_OWNER_RELATION || t.relation == ActionToRelation(b);
      ActionOfRelation(b);
      assert t == PermissionTuple(sys, role, a, t.subj.obj.typ);
    }
    if PermissionTuple(sys, role, a, typ) in g {
      var t := PermissionTuple(sys, role, a, typ);
      assert IsPermission(sys, t) && DropSuffix(t.relation) == a;
    }
  }

  /** What is cut off before the first suffix contains no suffix. */
  lemma {:induction false} CutContainsNoSuffix(s: string)
    ensures CutSuffix(s).Some? ==> !ContainsSuffix(CutSuffix(s).value)
    ensures CutSuffix(s).Some? ==>
      |CutSuffix(s).value| + |PERMISSION_SUFFIX| <= |s| && CutSuffix(s).value == s[..|CutSuffix(s).value|]
  {
    if |s| >= |PERMISSION_SUFFIX| && s[..|PERMISSION_SUFFIX|] != PERMISSION_SUFFIX {
      CutContainsNoSuffix(s[1..]);
      if CutSuffix(s).Some? {
        var cut := CutSuffix(s).value;
        assert cut[1..] == CutSuffix(s[1..]).value;
        ContainsShift(cut);
        assert !SuffixAt(cut, 0) by {
          if |cut| >= |PERMISSION_SUFFIX| {
            assert s[..4] == cut[..4];
          }
        }
      }
    }
  }

  /** Reading a role yields one entry per stored action, cut at the first suffix. */
  lemma ReadMembers(sys: System, g: Graph, role: string, x: Option<string>)
    requires RoleWellFormed(sys, g, role) && sys.r.roleSubjectTypes != []
    ensures x in sys.ReadActions(g, role) <==>
      exists a :: a in StoredActions(sys, g, role) && x == RelationToAction(ActionToRelation(a))
  {
    var typ := sys.r.roleSubjectTypes[0];
    if x in sys.ReadActions(g, role) {
      var t :| t in g && t.res == sys.Role(role) && t.subj.obj == Object(typ, "*") && x == RelationToAction(t.relation);
      var a :| t.relation == ActionToRelation(a);
      assert t == PermissionTuple(sys, role, a, typ);
      StoredMeansWildcard(sys, g, role, a, typ);
    }
    if a :| a in StoredActions(sys, g, role) && x == RelationToAction(ActionToRelation(a)) {
      StoredMeansWildcard(sys, g, role, a, typ);
      var t := PermissionTuple(sys, role, a, typ);
      assert t.subj.obj == Object(typ, "*");
    }
  }

  /** The stored actions read back exactly, if and only if none contains the suffix inside. */
  lemma RoleActionsReadBack(sys: System, s: Stores, role: string)
    requires Consistent(sys, s) && sys.r.roleSubjectTypes != []
    ensures sys.ReadActions(s.rels, role) == (set a | a in StoredActions(sys, s.rels, role) :: Some(a)) <==>
      forall a :: a in StoredActions(sys, s.rels, role) ==> !ContainsSuffix(a)
  {
    ConsistentRoles(sys, s, role);
    var stored := StoredActions(sys, s.rels, role);
    var expected := set a | a in stored :: Some(a);
    forall x
      ensures x in sys.ReadActions(s.rels, role) <==>
        exists a :: a in stored && x == RelationToAction(ActionToRelation(a))
    {
      ReadMembers(sys, s.rels, role, x);
    }
    forall a
      ensures RelationToAction(ActionToRelation(a)) == Some(a) <==> !ContainsSuffix(a)
      ensures RelationToAction(ActionToRelation(a)).Some?
      ensures !ContainsSuffix(RelationToAction(ActionToRelation(a)).value)
    {
      ActionReadsBack(a);
      CutContainsNoSuffix(ActionToRelation(a));
    }
    if sys.ReadActions(s.rels, role) == expected {
      forall a | a in stored
        ensures !ContainsSuffix(a)
      {
        assert Some(a) in expected;
        var b :| b in stored && Some(a) == RelationToAction(ActionToRelation(b));
      }
    }
  }

  lemma FreshRoleHasNoTuples(sys: System, s: Stores, id: string)
    requires Consistent(sys, s) && id !in s.usedRoles
    ensures forall t :: t in s.rels ==> t.res != sys.Role(id)
  {
    forall t | t in s.rels
      ensures t.res != sys.Role(id)
    {
      assert TupleOk(sys, s, t);
    }
  }

  /** A created role stores the requested actions. */
  lemma CreateStoresRequest(sys: System, s: Stores, id: string, row: RoleRow, actions: seq<string>, s': Stores)
    requires sys.Sound() && Consistent(sys, s) && CreateRoleStep(sys, s, id, row, actions, Done, s')
    requires sys.r.roleSubjectTypes != []
    ensures StoredActions(sys, s'.rels, id) == Elements(actions)
  {
    CreateRoleKeeps(sys, s, id, row, actions, Done, s');
    ConsistentRoles(sys, s', id);
    FreshRoleHasNoTuples(sys, s, id);
    var typ := sys.r.roleSubjectTypes[0];
    forall a
      ensures a in StoredActions(sys, s'.rels, id) <==> a in Elements(actions)
    {
      StoredMeansWildcard(sys, s'.rels, id, a, typ);
      CreatedWildcard(sys, s.rels, id, row.owner, actions, a, typ);
    }
  }

  lemma CreatedWildcard(sys: System, g: Graph, id: string, owner: Object, actions: seq<string>, a: string, typ: string)
    requires typ in sys.r.roleSubjectTypes && forall t :: t in g ==> t.res != sys.Role(id)
    ensures PermissionTuple(sys, id, a, typ) in g + sys.RoleTuples(id, owner, actions) <==> a in Elements(actions)
  {
    PermissionMembers(sys, id, Elements(actions), id, a, typ);
    PermissionRelation(a);
  }

  lemma UpdatedWildcard(sys: System, g: Graph, id: string, actions: seq<string>, a: string, typ: string)
    requires typ in sys.r.roleSubjectTypes && actions != []
    ensures PermissionTuple(sys, id, a, typ) in sys.UpdatedPermissions(g, id, actions) <==>
      if a in actions then Some(a) !in sys.ReadActions(g, id) || PermissionTuple(sys, id, a, typ) in g
      else PermissionTuple(sys, id, a, typ) in g && Some(a) !in sys.ReadActions(g, id)
  {
    var current := set x | x in sys.ReadActions(g, id) && x.Some? :: x.value;
    PermissionMembers(sys, id, current - Elements(actions), id, a, typ);
    PermissionMembers(sys, id, Elements(actions) - current, id, a, typ);
    assert a in current <==> Some(a) in sys.ReadActions(g, id);
  }

  /** An update keeps what it could not read: the stored action is requested, or it was stored and is not read back. */
  lemma StoredAfterUpdate(sys: System, g: Graph, id: string, actions: seq<string>, a: string)
    requires RoleWellFormed(sys, g, id) && RoleWellFormed(sys, sys.UpdatedPermissions(g, id, actions), id)
    requires sys.r.roleSubjectTypes != [] && actions != []
    ensures a in StoredActions(sys, sys.UpdatedPermissions(g, id, actions), id) <==>
      if a in actions then a in StoredActions(sys, g, id) || Some(a) !in sys.ReadActions(g, id)
      else a in StoredActions(sys, g, id) && ContainsSuffix(a)
  {
    var typ := sys.r.roleSubjectTypes[0];
    StoredMeansWildcard(sys, sys.UpdatedPermissions(g, id, actions), id, a, typ);
    StoredMeansWildcard(sys, g, id, a, typ);
    UpdatedWildcard(sys, g, id, actions, a, typ);
    ReadMembers(sys, g, id, Some(a));
    ActionReadsBack(a);
    if Some(a) in sys.ReadActions(g, id) {
      var b :| b in StoredActions(sys, g, id) && Some(a) == RelationToAction(ActionToRelation(b));
      CutContainsNoSuffix(ActionToRelation(b));
    }
  }

  /** After a successful, non-empty update of a role none of whose old or new actions contains the
      suffix, exactly the requested actions are stored; in general this holds exactly when every
      stored action that is dropped is free of the suffix and every requested one is stored. */
  lemma UpdateStoresRequest(sys: System, s: Stores, id: string, name: string, actions: seq<string>, s': Stores)
    requires sys.Sound() && Consistent(sys, s) && UpdateRoleStep(sys, s, id, name, actions, Done, s')
    requires sys.r.roleSubjectTypes != [] && actions != []
    ensures StoredActions(sys, s'.rels, id) == Elements(actions) <==>
      && (forall a :: a in StoredActions(sys, s.rels, id) && a !in actions ==> !ContainsSuffix(a))
      && (forall a :: a in actions && a !in StoredActions(sys, s.rels, id) ==> Some(a) !in sys.ReadActions(s.rels, id))
  {
    UpdateRoleKeeps(sys, s, id, name, actions, Done, s');
    ConsistentRoles(sys, s', id);
    ConsistentRoles(sys, s, id);
    forall a
      ensures a in StoredActions(sys, s'.rels, id) <==>
        if a in actions then a in StoredActions(sys, s.rels, id) || Some(a) !in sys.ReadActions(s.rels, id)
        else a in StoredActions(sys, s.rels, id) && ContainsSuffix(a)
    {
      StoredAfterUpdate(sys, s.rels, id, actions, a);
    }
    if StoredActions(sys, s'.rels, id) == Elements(actions) {
      forall a | a in actions && a !in StoredActions(sys, s.rels, id)
        ensures Some(a) !in sys.ReadActions(s.rels, id)
      {
        assert a in Elements(actions);
      }
    }
  }

  // ---------- which wildcards the schema admits ----------

  lemma NoUnionIsATarget(p: PolicyDocument, o: Orders, validPrefix: string -> bool, typ: string, relation: string,
    t: TargetType)
    requires DocAccepted(p, o, validPrefix) && typ in TypeNames(p)
    requires ROLE_RELATION !in UnionTable(p.unions) && DocDeclares(p, typ, relation, t)
    ensures t.name !in UnionTable(p.unions)
  {
    var un := UnionTable(p.unions);
    CompiledTypesNames(p, o.roleActions);
    AcceptedUnionsAreConcrete(p, CompiledTypes(p, o.roleActions));
    if rel, tt :| HasRelation(p, typ, rel) && rel.relation == relation && tt in rel.types && StandsFor(un, tt, t) {
      var k: nat :| Stands(un, k, tt, t);
      StandsOutside(un, k, tt, t);
    }
  }

  lemma {:induction false} StandsOutside(un: UnionMap, k: nat, t: TargetType, m: TargetType)
    requires Stands(un, k, t, m)
    ensures m.name !in un
  {
    if t.name in un {
      var u :| u in un[t.name].resourceTypes && Stands(un, k - 1, u, m);
      StandsOutside(un, k - 1, u, m);
    }
  }

  lemma UnionWildcardIsRefused(p: PolicyDocument, r: RBAC, o: Orders, validPrefix: string -> bool, relation: string,
    held: Subject)
    requires DocAccepted(p, o, validPrefix) && p.rbac == Some(r)
    requires ROLE_RELATION !in UnionTable(p.unions) && held.obj.typ in UnionTable(p.unions)
    ensures forall target :: Declares(SchemaOf(p, o), r.roleResource.name, relation, target) ==> !Admits(target, held)
  {
    forall target | Declares(SchemaOf(p, o), r.roleResource.name, relation, target)
      ensures !Admits(target, held)
    {
      DeclaresAgree(p, o, r.roleResource.name, relation, target);
      NoUnionIsATarget(p, o, validPrefix, r.roleResource.name, relation, target);
    }
  }

  lemma DeclaredByItself(p: PolicyDocument, typ: string, rel: Relationship, t: TargetType)
    requires HasRelation(p, typ, rel) && t in rel.types && t.name !in UnionTable(p.unions)
    ensures DocDeclares(p, typ, rel.relation, t)
  {
    assert Stands(UnionTable(p.unions), 0, t, t);
    assert StandsFor(UnionTable(p.unions), t, t);
  }

  lemma WildcardIsDeclared(p: PolicyDocument, r: RBAC, o: Orders, validPrefix: string -> bool, action: string,
    typ: string)
    requires DocAccepted(p, o, validPrefix) && p.rbac == Some(r) && r.roleResource.name != r.roleBindingResource.name
    requires typ in r.roleSubjectTypes && action in ActionNames(p) && typ !in UnionTable(p.unions)
    ensures Declares(SchemaOf(p, o), r.roleResource.name, ActionToRelation(action), TargetType(typ, "*", ""))
  {
    var target, rel := TargetType(typ, "*", ""), RolePermission(r, action);
    var j :| 0 <= j < |r.roleSubjectTypes| && r.roleSubjectTypes[j] == typ;
    assert rel.types[j] == target && target in rel.types;
    DeclaredByItself(p, r.roleResource.name, rel, target);
    DeclaresAgree(p, o, r.roleResource.name, ActionToRelation(action), target);
  }

  /** The permission wildcard of an action is admitted exactly when its subject type is not a
      union: unions are expanded away, and the wildcard still names the union. */
  lemma WildcardIsAdmittedUnlessUnion(sys: System, role: string, action: string, typ: string)
    requires DocAccepted(sys.p, sys.orders, sys.validPrefix) && sys.p.rbac == Some(sys.r)
    requires sys.r.roleResource.name != sys.r.roleBindingResource.name
    requires typ in sys.r.roleSubjectTypes && action in ActionNames(sys.p)
    requires ROLE_RELATION !in UnionTable(sys.p.unions)
    ensures sys.Writable({PermissionTuple(sys, role, action, typ)}) <==> typ !in UnionTable(sys.p.unions)
  {
    var t := PermissionTuple(sys, role, action, typ);
    if typ in UnionTable(sys.p.unions) {
      UnionWildcardIsRefused(sys.p, sys.r, sys.orders, sys.validPrefix, ActionToRelation(action), t.subj);
      assert t in {t};
    } else {
      WildcardIsDeclared(sys.p, sys.r, sys.orders, sys.validPrefix, action, typ);
      assert Admits(TargetType(typ, "*", ""), t.subj);
    }
  }
}
