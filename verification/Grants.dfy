/** What the operations grant: the members of the subjects of a binding have the actions of its
    role, on the resource of the binding and on whatever inherits from it. */
module Grants {
  import opened Types
  import opened Rbac
  import opened Iapl
  import opened PolicyTables
  import opened PolicyMeaning
  import opened Permissions
  import opened CompilerCorrectness
  import opened RoleBindingMeaning
  import opened Relations
  import opened TwoStores
  import opened StoreRuns

  lemma StandsForNoUnion(un: UnionMap, t: TargetType)
    requires t.name !in un
    ensures StandsFor(un, t, t)
  {
    assert Stands(un, 0, t, t);
  }

  // ---------- the subjects of a binding ----------

  /** m is the subject x itself, or x is bound with a subject relation and m has that on x. */
  ghost predicate MemberOf(schema: Schema, g: Graph, x: Object, relation: string, m: Subject) {
    if relation == "" then m == Subject(x, "") else Granted(schema, g, x, relation, m)
  }

  /** Members of a stored subject are subjects of the binding. */
  lemma MembersAreSubjects(sys: System, g: Graph, binding: Object, x: Object, t: TargetType, m: Subject)
    requires sys.Sound() && binding.typ == sys.r.roleBindingResource.name
    requires t in sys.r.roleBindingSubjects && t.name !in UnionTable(sys.p.unions)
    requires Tuple(binding, "subject", Subject(x, t.subjectRelation)) in g && Admits(t, Subject(x, t.subjectRelation))
    requires MemberOf(sys.Schema(), g, x, t.subjectRelation, m)
    ensures Granted(sys.Schema(), g, binding, SUBJECT_RELATION, m)
  {
    var schema, held := sys.Schema(), Subject(x, t.subjectRelation);
    StandsForNoUnion(UnionTable(sys.p.unions), t);
    SubjectTargets(sys.p, sys.r, sys.orders, sys.validPrefix, t);
    assert Stored(schema, g, binding, SUBJECT_RELATION, held);
    if t.subjectRelation == "" {
      assert Covers(schema, g, 0, held, m);
      assert Holds(schema, g, 1, binding, SUBJECT_RELATION, m);
    } else {
      var n: nat :| Holds(schema, g, n, x, t.subjectRelation, m);
      assert Covers(schema, g, n, held, m);
      assert Holds(schema, g, n + 1, binding, SUBJECT_RELATION, m);
    }
  }

  // ---------- the chain of a binding ----------

  /** The relationships of a binding that grant the action to subjects of the type. */
  ghost predicate IsBound(r: RBAC, g: Graph, id: string, resource: Object, role: string, a: string, typ: string) {
    var binding, held := Object(r.roleBindingResource.name, id), Object(r.roleResource.name, role);
    && Tuple(resource, "grant", Subject(binding, "")) in g
    && Tuple(binding, "role", Subject(held, "")) in g
    && Tuple(held, a + "_rel", Subject(Object(typ, "*"), "")) in g
  }

  lemma ChainIsStored(sys: System, g: Graph, id: string, resource: Object, role: string, a: string, m: Subject)
    requires sys.Sound() && IsBound(sys.r, g, id, resource, role, a, m.obj.typ) && id != "*" && role != "*"
    requires a in ActionNames(sys.p) && m.obj.typ in sys.r.roleSubjectTypes && m.obj.typ !in UnionTable(sys.p.unions)
    requires Declares(sys.Schema(), resource.typ, "grant", Plain(sys.r.roleBindingResource.name))
    ensures SchemaGrantChain(sys.Schema(), g, a, resource, sys.Binding(id), sys.Role(role), m)
  {
    var p, r, o, wildcard := sys.p, sys.r, sys.orders, TargetType(m.obj.typ, "*", "");
    assert Admits(Plain(r.roleBindingResource.name), Subject(sys.Binding(id), ""));
    RoleTargetIsTheRole(p, r, o, sys.validPrefix, Plain(r.roleResource.name));
    assert Admits(Plain(r.roleResource.name), Subject(sys.Role(role), ""));
    StandsForNoUnion(UnionTable(p.unions), wildcard);
    PermissionTargets(p, r, o, sys.validPrefix, a, wildcard);
    assert Admits(wildcard, Wildcard(m));
  }

  /** The action is governed where the binding is, and grants carry it there. */
  ghost predicate Grantable(sys: System, a: string, region: iset<string>, resource: Object)
    requires sys.Sound()
  {
    && Governed(sys.p, sys.r, a, region) && a in ActionNames(sys.p)
    && resource.typ in region && Carries(sys.p, a, resource.typ)
    && Declares(sys.Schema(), resource.typ, "grant", Plain(sys.r.roleBindingResource.name))
  }

  lemma ChainReaches(p: PolicyDocument, o: Orders, a: string, g: Graph, q: Object, rb: Object, role: Object,
    m: Subject, y: Object)
    requires ValidOrders(p, o) && Carries(p, a, q.typ)
    requires SchemaGrantChain(SchemaOf(p, o), g, a, q, rb, role, m)
    requires Granted(SchemaOf(p, o), g, rb, SUBJECT_RELATION, m)
    requires Reaches(SchemaOf(p, o), g, PassedAlong(p, a), iset{q}, y)
    ensures Reaches(SchemaOf(p, o), g, PassedAlong(p, a), Bound(p, o, a, g, m), y)
  {
    assert q in Bound(p, o, a, g, m);
    ReachesMore(SchemaOf(p, o), g, PassedAlong(p, a), iset{q}, Bound(p, o, a, g, m), y);
  }

  lemma ReachesMore(schema: Schema, g: Graph, pass: Parents, base: iset<Object>, more: iset<Object>, x: Object)
    requires Reaches(schema, g, pass, base, x) && base <= more
    ensures Reaches(schema, g, pass, more, x)
  {
  }

  /** A chain of grant, role and wildcard grants the action to the subjects of its binding, on the
      resource and on what inherits from it. */
  lemma ChainGrants(p: PolicyDocument, r: RBAC, o: Orders, validPrefix: string -> bool, a: string,
    region: iset<string>, g: Graph, q: Object, rb: Object, role: Object, m: Subject, y: Object)
    requires DocAccepted(p, o, validPrefix) && Governed(p, r, a, region) && a in ActionNames(p)
    requires Carries(p, a, q.typ) && SchemaGrantChain(SchemaOf(p, o), g, a, q, rb, role, m)
    requires Granted(SchemaOf(p, o), g, rb, SUBJECT_RELATION, m) && Concrete(m)
    requires y.typ in region && Reaches(SchemaOf(p, o), g, PassedAlong(p, a), iset{q}, y)
    ensures Granted(SchemaOf(p, o), g, y, a, m)
  {
    ChainReaches(p, o, a, g, q, rb, role, m, y);
    RoleBindingsGrantAlongPaths(p, r, o, validPrefix, a, region, g, y, m);
  }

  /** The subject relation of x is that of the last target of its type, the schema admits it, and m is a member. */
  ghost predicate IsMember(sys: System, g: Graph, x: Object, i: nat, m: Subject)
    requires ValidOrders(sys.p, sys.orders)
  {
    && IsLastTarget(sys.r.roleBindingSubjects, i)
    && var t := sys.r.roleBindingSubjects[i];
       && t.name == x.typ && t.name !in UnionTable(sys.p.unions) && Admits(t, Subject(x, t.subjectRelation))
       && MemberOf(sys.Schema(), g, x, t.subjectRelation, m)
  }

  lemma MembersOfTuple(sys: System, g: Graph, id: string, x: Object, i: nat, m: Subject)
    requires sys.Sound() && IsMember(sys, g, x, i, m)
    requires forall t :: IsSubjectTuple(sys.r, id, x, t) ==> t in g
    ensures Granted(sys.Schema(), g, Object(sys.r.roleBindingResource.name, id), "subject", m)
  {
    var t := sys.r.roleBindingSubjects[i];
    assert IsSubjectTuple(sys.r, id, x, Tuple(sys.Binding(id), "subject", Subject(x, t.subjectRelation)));
    MembersAreSubjects(sys, g, sys.Binding(id), x, t, m);
  }

  // ---------- what the operations grant ----------

  lemma CreatedRoleIsStored(sys: System, s: Stores, role: string, row: RoleRow, actions: seq<string>, s': Stores,
    a: string, typ: string)
    requires sys.Sound() && CreateRoleStep(sys, s, role, row, actions, Done, s')
    requires a in actions && typ in sys.r.roleSubjectTypes
    ensures Tuple(Object(sys.r.roleResource.name, role), a + "_rel", Subject(Object(typ, "*"), "")) in s'.rels
    ensures role != "*"
  {
    var t := Tuple(Object(sys.r.roleResource.name, role), a + "_rel", Subject(Object(typ, "*"), ""));
    assert IsRoleTuple(sys.r, role, row.owner, actions, t);
    RoleTuplesAre(sys, role, row.owner, actions, t);
  }

  lemma CreatedBindingIsStored(sys: System, s: Stores, id: string, row: BindingRow, role: string,
    subjects: seq<Object>, s': Stores)
    requires sys.Sound() && CreateBindingStep(sys, s, id, row, role, subjects, Done, s')
    ensures s.rels <= s'.rels && id != "*"
    ensures forall t :: IsBindingTuple(sys.r, id, row.resource, role, subjects, t) ==> t in s'.rels
  {
    forall t | IsBindingTuple(sys.r, id, row.resource, role, subjects, t)
      ensures t in s'.rels
    {
      BindingTuplesAre(sys, id, row.resource, role, subjects, t);
    }
  }

  lemma BindingGrants(sys: System, g: Graph, id: string, resource: Object, role: string, a: string,
    region: iset<string>, x: Object, i: nat, m: Subject, y: Object)
    requires sys.Sound() && Grantable(sys, a, region, resource) && id != "*" && role != "*"
    requires IsBound(sys.r, g, id, resource, role, a, m.obj.typ)
    requires forall t :: IsSubjectTuple(sys.r, id, x, t) ==> t in g
    requires m.obj.typ in sys.r.roleSubjectTypes && m.obj.typ !in UnionTable(sys.p.unions) && Concrete(m)
    requires IsMember(sys, g, x, i, m)
    requires y.typ in region && Reaches(sys.Schema(), g, PassedAlong(sys.p, a), iset{resource}, y)
    ensures Granted(sys.Schema(), g, y, a, m)
  {
    MembersOfTuple(sys, g, id, x, i, m);
    ChainIsStored(sys, g, id, resource, role, a, m);
    ChainGrants(sys.p, sys.r, sys.orders, sys.validPrefix, a, region, g, resource, sys.Binding(id), sys.Role(role), m,
      y);
  }

  lemma BoundByOperations(sys: System, s: Stores, role: string, row: RoleRow, actions: seq<string>, s': Stores,
    id: string, bound: BindingRow, subjects: seq<Object>, s'': Stores, a: string, typ: string)
    requires sys.Sound() && CreateRoleStep(sys, s, role, row, actions, Done, s')
    requires CreateBindingStep(sys, s', id, bound, role, subjects, Done, s'')
    requires a in actions && typ in sys.r.roleSubjectTypes
    ensures IsBound(sys.r, s''.rels, id, bound.resource, role, a, typ) && id != "*" && role != "*"
    ensures forall x, t :: x in subjects && IsSubjectTuple(sys.r, id, x, t) ==> t in s''.rels
  {
    CreatedRoleIsStored(sys, s, role, row, actions, s', a, typ);
    CreatedBindingIsStored(sys, s', id, bound, role, subjects, s'');
  }

  /** Create a role with some actions, then bind it on a resource: every member of every bound
      subject has each of the actions there, and on whatever inherits from there. */
  lemma RoleThenBindingGrants(sys: System, s: Stores, role: string, row: RoleRow, actions: seq<string>, s': Stores,
    id: string, bound: BindingRow, subjects: seq<Object>, s'': Stores, a: string, region: iset<string>, x: Object,
    i: nat, m: Subject, y: Object)
    requires sys.Sound() && Step(sys, s, CreateRole(role, row, actions, Done), s')
    requires Step(sys, s', CreateBinding(id, bound, role, subjects, Done), s'')
    requires a in actions && x in subjects && Grantable(sys, a, region, bound.resource)
    requires m.obj.typ in sys.r.roleSubjectTypes && m.obj.typ !in UnionTable(sys.p.unions) && Concrete(m)
    requires IsMember(sys, s''.rels, x, i, m)
    requires y.typ in region && Reaches(sys.Schema(), s''.rels, PassedAlong(sys.p, a), iset{bound.resource}, y)
    ensures Granted(sys.Schema(), s''.rels, y, a, m)
  {
    BoundByOperations(sys, s, role, row, actions, s', id, bound, subjects, s'', a, m.obj.typ);
    BindingGrants(sys, s''.rels, id, bound.resource, role, a, region, x, i, m, y);
  }

  /** Replace the subjects of a binding: the members of each new subject are subjects of it. */
  lemma UpdatedBindingHasMembers(sys: System, s: Stores, id: string, subjects: seq<Object>, s': Stores, x: Object,
    i: nat, m: Subject)
    requires sys.Sound() && Step(sys, s, UpdateBinding(id, subjects, Done), s') && x in subjects
    requires IsMember(sys, s'.rels, x, i, m)
    ensures Granted(sys.Schema(), s'.rels, Object(sys.r.roleBindingResource.name, id), "subject", m)
  {
    forall t | IsSubjectTuple(sys.r, id, x, t)
      ensures t in s'.rels
    {
      SubjectTuplesAre(sys, id, subjects, t);
    }
    MembersOfTuple(sys, s'.rels, id, x, i, m);
  }
}
