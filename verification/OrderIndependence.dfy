/** Neither the order in which documents are merged nor the order in which Go ranges over
    its maps changes what is accepted or what schema is emitted (docs/iapl.md: the order
    of objects is inconsequential). */
module OrderIndependence {
  import opened Types
  import opened Rbac
  import opened Iapl
  import opened PolicyTables
  import opened PolicyMeaning

  // ---------- sequences with the same elements ----------

  function FlatMap<A, B>(f: A -> seq<B>, s: seq<A>): seq<B> {
    if s == [] then [] else FlatMap(f, s[..|s| - 1]) + f(s[|s| - 1])
  }

  lemma {:induction false} FlatMapWithout<A, B>(f: A -> seq<B>, s: seq<A>, i: nat)
    requires i < |s|
    ensures multiset(FlatMap(f, s)) == multiset(FlatMap(f, s[..i] + s[i + 1..])) + multiset(f(s[i]))
  {
    var rest := s[..i] + s[i + 1..];
    if i == |s| - 1 {
      assert rest == s[..|s| - 1];
    } else {
      var init := s[..|s| - 1];
      FlatMapWithout(f, init, i);
      assert rest[..|rest| - 1] == init[..i] + init[i + 1..];
      assert rest[|rest| - 1] == s[|s| - 1];
    }
  }

  lemma Removed<A>(s: seq<A>, i: nat)
    requires i < |s|
    ensures multiset(s[..i] + s[i + 1..]) == multiset(s) - multiset{s[i]}
  {
    assert s == s[..i] + [s[i]] + s[i + 1..];
  }

  lemma {:induction false} FlatMapPermutes<A, B>(f: A -> seq<B>, s: seq<A>, t: seq<A>)
    requires multiset(s) == multiset(t)
    ensures multiset(FlatMap(f, s)) == multiset(FlatMap(f, t))
  {
    if s == [] {
      assert |t| == |multiset(t)| == 0;
    } else {
      var x := s[|s| - 1];
      assert x in multiset(s);
      assert x in t;
      var i :| 0 <= i < |t| && t[i] == x;
      var rest := t[..i] + t[i + 1..];
      Removed(s, |s| - 1);
      Removed(t, i);
      assert s[..|s| - 1] + s[|s|..] == s[..|s| - 1];
      FlatMapPermutes(f, s[..|s| - 1], rest);
      FlatMapWithout(f, t, i);
    }
  }

  lemma {:induction false} EnumerationMultiset<T(!new)>(order: seq<T>, s: set<T>)
    requires Enumerates(order, s)
    ensures multiset(order) == multiset(s)
  {
    if order != [] {
      var init, x := order[..|order| - 1], order[|order| - 1];
      assert order == init + [x];
      forall y
        ensures y in init <==> y in s - {x}
      {
        if y in init {
          var i :| 0 <= i < |init| && init[i] == y;
          assert order[i] != order[|order| - 1];
        }
      }
      EnumerationMultiset(init, s - {x});
      assert s == s - {x} + {x};
    } else {
      assert s == {};
    }
  }

  // ---------- the binding list is a permutation ----------

  lemma {:induction false} ExpandBindingsFlat(un: UnionMap, bs: seq<ActionBinding>)
    ensures ExpandBindings(un, bs) == FlatMap((b: ActionBinding) => ExpandBinding(un, b), bs)
  {
    if bs != [] {
      ExpandBindingsFlat(un, bs[..|bs| - 1]);
    }
  }

  lemma {:induction false} RoleBindingBindingsFlat(r: RBAC, order: seq<string>)
    ensures RoleBindingBindings(r, order) == FlatMap((a: string) => [RoleBindingBinding(r, a)], order)
  {
    if order != [] {
      RoleBindingBindingsFlat(r, order[..|order| - 1]);
    }
  }

  lemma {:induction false} AvailableRolesBindingsFlat(p: PolicyDocument, r: RBAC, types: TypeMap, order: seq<string>)
    requires forall n :: n in order ==>
      n in types && AvailableRolesBinding(r, n, types[n]) == AvailableBindingOf(p, r, n)
    ensures AvailableRolesBindings(r, types, order) == FlatMap((n: string) => AvailableBindingOf(p, r, n), order)
  {
    if order != [] {
      AvailableRolesBindingsFlat(p, r, types, order[..|order| - 1]);
    }
  }

  // ---------- documents with the same content ----------

  ghost predicate DistinctTypeNames(ts: seq<ResourceType>) {
    forall t, u :: t in ts && u in ts && t.name == u.name ==> t == u
  }

  ghost predicate DistinctUnionNames(us: seq<Union>) {
    forall t, u :: t in us && u in us && t.name == u.name ==> t == u
  }

  /** The same objects, each as often, in any order. */
  ghost predicate SameContent(p: PolicyDocument, q: PolicyDocument) {
    && multiset(p.resourceTypes) == multiset(q.resourceTypes)
    && multiset(p.unions) == multiset(q.unions)
    && (forall a :: a in p.actions <==> a in q.actions)
    && multiset(p.actionBindings) == multiset(q.actionBindings)
    && p.rbac == q.rbac
  }

  ghost predicate DistinctNames(p: PolicyDocument) {
    DistinctTypeNames(p.resourceTypes) && DistinctUnionNames(p.unions)
  }

  lemma SameElements<T>(s: seq<T>, t: seq<T>)
    requires multiset(s) == multiset(t)
    ensures forall x :: x in s <==> x in t
  {
    forall x
      ensures x in s <==> x in t
    {
      assert x in s <==> x in multiset(s);
      assert x in t <==> x in multiset(t);
    }
  }

  lemma SameTables(p: PolicyDocument, q: PolicyDocument)
    requires SameContent(p, q) && DistinctNames(p)
    ensures TypeTable(p.resourceTypes) == TypeTable(q.resourceTypes)
    ensures UnionTable(p.unions) == UnionTable(q.unions)
    ensures ActionNames(p) == ActionNames(q) && TypeNames(p) == TypeNames(q)
  {
    TypeTableNames(p.resourceTypes);
    TypeTableNames(q.resourceTypes);
    UnionTableNames(p.unions);
    UnionTableNames(q.unions);
    SameElements(p.resourceTypes, q.resourceTypes);
    SameElements(p.unions, q.unions);
    assert TypeTable(p.resourceTypes).Keys == TypeTable(q.resourceTypes).Keys;
    assert UnionTable(p.unions).Keys == UnionTable(q.unions).Keys;
  }

  lemma BindingsArePermuted(p: PolicyDocument, o: Orders, q: PolicyDocument, o': Orders)
    requires SameContent(p, q) && DistinctNames(p) && ValidOrders(p, o) && ValidOrders(q, o')
    ensures multiset(CompiledBindings(p, o)) == multiset(CompiledBindings(q, o'))
  {
    SameTables(p, q);
    var un := UnionTable(p.unions);
    ExpandBindingsFlat(un, p.actionBindings);
    ExpandBindingsFlat(un, q.actionBindings);
    FlatMapPermutes((b: ActionBinding) => ExpandBinding(un, b), p.actionBindings, q.actionBindings);
    if p.rbac.Some? {
      GeneratedArePermuted(p, p.rbac.value, o, q, o');
    }
  }

  lemma GeneratedArePermuted(p: PolicyDocument, r: RBAC, o: Orders, q: PolicyDocument, o': Orders)
    requires SameContent(p, q) && DistinctNames(p) && ValidOrders(p, o) && ValidOrders(q, o') && p.rbac == Some(r)
    ensures multiset(CompiledRBACBindings(p, r, o)) == multiset(CompiledRBACBindings(q, r, o'))
  {
    SameTables(p, q);
    EnumerationMultiset(o.bindingActions, ActionNames(p));
    EnumerationMultiset(o'.bindingActions, ActionNames(p));
    RoleBindingBindingsFlat(r, o.bindingActions);
    RoleBindingBindingsFlat(r, o'.bindingActions);
    FlatMapPermutes((a: string) => [RoleBindingBinding(r, a)], o.bindingActions, o'.bindingActions);
    AvailableIsFlat(p, r, o, p);
    AvailableIsFlat(q, r, o', p);
    EnumerationMultiset(o.types, TypeNames(p));
    EnumerationMultiset(o'.types, TypeNames(p));
    FlatMapPermutes((n: string) => AvailableBindingOf(p, r, n), o.types, o'.types);
  }

  lemma AvailableIsFlat(q: PolicyDocument, r: RBAC, o: Orders, p: PolicyDocument)
    requires q.rbac == p.rbac == Some(r) && TypeTable(q.resourceTypes) == TypeTable(p.resourceTypes)
    requires ValidOrders(q, o)
    ensures forall n :: n in o.types ==> n in GeneratedTypes(q, o.roleActions)
    ensures AvailableRolesBindings(r, GeneratedTypes(q, o.roleActions), o.types) ==
      FlatMap((n: string) => AvailableBindingOf(p, r, n), o.types)
  {
    CompiledTypesNames(q, o.roleActions);
    forall n | n in o.types
      ensures AvailableRolesBinding(r, n, GeneratedTypes(q, o.roleActions)[n]) == AvailableBindingOf(p, r, n)
    {
      AvailableBindingAgrees(q, o.roleActions, n);
      assert AvailableConditionsOf(p, r, n) == AvailableConditionsOf(q, r, n);
    }
    AvailableRolesBindingsFlat(p, r, GeneratedTypes(q, o.roleActions), o.types);
  }

  // ---------- the compiled types agree ----------

  /** The relations of t and u are the same set, and a name finds the same first relation. */
  ghost predicate SameType(t: ResourceType, u: ResourceType) {
    && t.name == u.name && t.idPrefix == u.idPrefix && t.roleBindingV2 == u.roleBindingV2
    && (forall r :: r in t.relationships <==> r in u.relationships)
    && (forall name :: FirstRelation(t.relationships, name) == FirstRelation(u.relationships, name))
  }

  ghost predicate SameTypes(rt: TypeMap, rt': TypeMap) {
    rt.Keys == rt'.Keys && forall n :: n in rt ==> SameType(rt[n], rt'[n])
  }

  lemma {:induction false} FirstIsTheOne(rels: seq<Relationship>, r: Relationship)
    requires r in rels && forall x :: x in rels && x.relation == r.relation ==> x == r
    ensures FirstRelation(rels, r.relation) == Some(r)
  {
    if rels[0] != r {
      assert rels[0] in rels;
      assert rels == [rels[0]] + rels[1..];
      FirstIsTheOne(rels[1..], r);
    }
  }

  lemma {:induction false} FirstIsNone(rels: seq<Relationship>, name: string)
    requires forall x :: x in rels ==> x.relation != name
    ensures FirstRelation(rels, name).None?
  {
    if rels != [] {
      assert rels[0] in rels;
      FirstIsNone(rels[1..], name);
    }
  }

  /** With one relation per name, the first relation of a name does not depend on the order. */
  lemma FirstIsOrderFree(rels: seq<Relationship>, rels': seq<Relationship>, name: string)
    requires forall r :: r in rels <==> r in rels'
    requires forall x, y :: x in rels && y in rels && x.relation == y.relation ==> x == y
    ensures FirstRelation(rels, name) == FirstRelation(rels', name)
  {
    if r :| r in rels && r.relation == name {
      FirstIsTheOne(rels, r);
      FirstIsTheOne(rels', r);
    } else {
      FirstIsNone(rels, name);
      FirstIsNone(rels', name);
    }
  }

  lemma RoleRelationsAreDistinct(p: PolicyDocument, r: RBAC, x: Relationship, y: Relationship)
    requires p.rbac == Some(r) && r.roleResource.name != r.roleBindingResource.name
    requires HasRelation(p, r.roleResource.name, x) && HasRelation(p, r.roleResource.name, y)
    requires x.relation == y.relation
    ensures x == y
  {
    SuffixedNames(x.relation);
  }

  lemma SuffixedNames(name: string)
    ensures forall a, b :: a + PERMISSION_SUFFIX == name && b + PERMISSION_SUFFIX == name ==> a == b
    ensures forall a :: a + PERMISSION_SUFFIX != ROLE_OWNER_RELATION && a + PERMISSION_SUFFIX != MEMBER_ROLE_RELATION
  {
    forall a, b | a + PERMISSION_SUFFIX == name && b + PERMISSION_SUFFIX == name
      ensures a == b
    {
      assert a == name[..|a|] && b == name[..|b|];
    }
    forall a: string
      ensures a + PERMISSION_SUFFIX != ROLE_OWNER_RELATION && a + PERMISSION_SUFFIX != MEMBER_ROLE_RELATION
    {
      assert (a + PERMISSION_SUFFIX)[|a|] == '_';
    }
  }

  lemma TypesAgree(p: PolicyDocument, o: Orders, q: PolicyDocument, o': Orders)
    requires SameContent(p, q) && DistinctNames(p) && ValidOrders(p, o) && ValidOrders(q, o')
    ensures SameTypes(CompiledTypes(p, o.roleActions), CompiledTypes(q, o'.roleActions))
  {
    SameTables(p, q);
    CompiledTypesNames(p, o.roleActions);
    CompiledTypesNames(q, o'.roleActions);
    forall n | n in TypeNames(p)
      ensures SameType(CompiledTypes(p, o.roleActions)[n], CompiledTypes(q, o'.roleActions)[n])
    {
      if p.rbac.Some? && n == p.rbac.value.roleResource.name && n != p.rbac.value.roleBindingResource.name {
        RoleTypeAgrees(p, p.rbac.value, o, q, o');
      } else {
        OtherTypesAgree(p, o.roleActions, q, o'.roleActions, n);
      }
    }
  }

  lemma OtherTypesAgree(p: PolicyDocument, order: seq<string>, q: PolicyDocument, order': seq<string>, n: string)
    requires SameContent(p, q) && DistinctNames(p) && n in TypeNames(p)
    requires p.rbac.Some? ==> n != p.rbac.value.roleResource.name || n == p.rbac.value.roleBindingResource.name
    ensures n in CompiledTypes(p, order) && n in CompiledTypes(q, order')
    ensures CompiledTypes(p, order)[n] == CompiledTypes(q, order')[n]
  {
    SameTables(p, q);
    assert GeneratedTypes(p, order)[n] == GeneratedTypes(q, order')[n];
    assert AugmentedTypes(p, order)[n] == AugmentedTypes(q, order')[n];
  }

  lemma SameRelations(p: PolicyDocument, o: Orders, q: PolicyDocument, o': Orders, n: string)
    requires SameContent(p, q) && DistinctNames(p) && ValidOrders(p, o) && ValidOrders(q, o') && n in TypeNames(p)
    ensures n in CompiledTypes(p, o.roleActions) && n in CompiledTypes(q, o'.roleActions)
    ensures forall m :: m in CompiledTypes(p, o.roleActions)[n].relationships <==>
      m in CompiledTypes(q, o'.roleActions)[n].relationships
  {
    SameTables(p, q);
    assert forall rel :: HasRelation(q, n, rel) <==> HasRelation(p, n, rel);
    CompiledTypesNames(p, o.roleActions);
    CompiledTypesNames(q, o'.roleActions);
    forall m
      ensures m in CompiledTypes(p, o.roleActions)[n].relationships <==>
        m in CompiledTypes(q, o'.roleActions)[n].relationships
    {
      CompiledRelations(p, o.roleActions, n, m);
      CompiledRelations(q, o'.roleActions, n, m);
    }
  }

  lemma RoleTypeAgrees(p: PolicyDocument, r: RBAC, o: Orders, q: PolicyDocument, o': Orders)
    requires SameContent(p, q) && DistinctNames(p) && ValidOrders(p, o) && ValidOrders(q, o')
    requires p.rbac == Some(r) && r.roleResource.name != r.roleBindingResource.name
    ensures r.roleResource.name in CompiledTypes(p, o.roleActions)
    ensures r.roleResource.name in CompiledTypes(q, o'.roleActions)
    ensures SameType(CompiledTypes(p, o.roleActions)[r.roleResource.name],
      CompiledTypes(q, o'.roleActions)[r.roleResource.name])
  {
    CompiledTypesNames(p, o.roleActions);
    CompiledTypesNames(q, o'.roleActions);
    RoleTypePrefix(p, r, o.roleActions);
    RoleTypePrefix(q, r, o'.roleActions);
    RoleRelationsAgree(p, r, o, q, o');
  }

  lemma RoleTypePrefix(p: PolicyDocument, r: RBAC, order: seq<string>)
    requires p.rbac == Some(r) && r.roleResource.name != r.roleBindingResource.name
    ensures r.roleResource.name in CompiledTypes(p, order)
    ensures CompiledTypes(p, order)[r.roleResource.name].idPrefix == r.roleResource.idPrefix
    ensures CompiledTypes(p, order)[r.roleResource.name].roleBindingV2 == None
  {
  }

  lemma RoleRelationsAgree(p: PolicyDocument, r: RBAC, o: Orders, q: PolicyDocument, o': Orders)
    requires SameContent(p, q) && DistinctNames(p) && ValidOrders(p, o) && ValidOrders(q, o')
    requires p.rbac == Some(r) && r.roleResource.name != r.roleBindingResource.name
    ensures r.roleResource.name in CompiledTypes(p, o.roleActions)
    ensures r.roleResource.name in CompiledTypes(q, o'.roleActions)
    ensures
      var t, u := CompiledTypes(p, o.roleActions)[r.roleResource.name].relationships,
        CompiledTypes(q, o'.roleActions)[r.roleResource.name].relationships;
      && (forall m :: m in t <==> m in u)
      && forall name :: FirstRelation(t, name) == FirstRelation(u, name)
  {
    SameRelations(p, o, q, o', r.roleResource.name);
    var t, u := CompiledTypes(p, o.roleActions)[r.roleResource.name].relationships,
      CompiledTypes(q, o'.roleActions)[r.roleResource.name].relationships;
    forall x, y | x in t && y in t && x.relation == y.relation
      ensures x == y
    {
      OneRelationPerName(p, r, o, x, y);
    }
    forall name
      ensures FirstRelation(t, name) == FirstRelation(u, name)
    {
      FirstIsOrderFree(t, u, name);
    }
  }

  lemma OneRelationPerName(p: PolicyDocument, r: RBAC, o: Orders, x: Relationship, y: Relationship)
    requires ValidOrders(p, o) && p.rbac == Some(r) && r.roleResource.name != r.roleBindingResource.name
    requires r.roleResource.name in CompiledTypes(p, o.roleActions)
    requires x in CompiledTypes(p, o.roleActions)[r.roleResource.name].relationships
    requires y in CompiledTypes(p, o.roleActions)[r.roleResource.name].relationships
    requires x.relation == y.relation
    ensures x == y
  {
    var n, un := r.roleResource.name, UnionTable(p.unions);
    CompiledRelations(p, o.roleActions, n, x);
    CompiledRelations(p, o.roleActions, n, y);
    var x0 :| HasRelation(p, n, x0) && x == ExpandRelationship(un, x0);
    var y0 :| HasRelation(p, n, y0) && y == ExpandRelationship(un, y0);
    RoleRelationsAreDistinct(p, r, x0, y0);
  }

  // ---------- acceptance and emission depend on no order ----------

  lemma {:induction false} TwoOccurrences<T>(s: seq<T>, x: T) returns (i: nat, j: nat)
    requires multiset(s)[x] >= 2
    ensures i < j < |s| && s[i] == x && s[j] == x
  {
    var init, last := s[..|s| - 1], s[|s| - 1];
    assert s == init + [last];
    assert multiset(s) == multiset(init) + multiset{last};
    if last == x {
      assert x in multiset(init);
      assert x in init;
      i :| 0 <= i < |init| && init[i] == x;
      j := |s| - 1;
    } else {
      i, j := TwoOccurrences(init, x);
    }
  }

  lemma OccursTwice<T>(s: seq<T>, i: nat, j: nat)
    requires i < j < |s| && s[i] == s[j]
    ensures multiset(s)[s[i]] >= 2
  {
    assert s == s[..j] + [s[j]] + s[j + 1..];
    assert multiset(s) == multiset(s[..j]) + multiset{s[j]} + multiset(s[j + 1..]);
    assert s[..j][i] in s[..j];
    assert s[i] in multiset(s[..j]);
  }

  lemma DistinctIsOrderFree(bn: seq<ActionBinding>, bn': seq<ActionBinding>)
    requires multiset(bn) == multiset(bn') && DistinctBindings(bn)
    ensures DistinctBindings(bn')
  {
    SameElements(bn, bn');
    forall i, j | 0 <= i < j < |bn'|
      ensures bn'[i].actionName != bn'[j].actionName || bn'[i].typeName != bn'[j].typeName
    {
      if bn'[i] == bn'[j] {
        OccursTwice(bn', i, j);
        var k, l := TwoOccurrences(bn, bn'[i]);
        assert false;
      } else {
        assert bn'[i] in bn && bn'[j] in bn;
        var k :| 0 <= k < |bn| && bn[k] == bn'[i];
        var l :| 0 <= l < |bn| && bn[l] == bn'[j];
        assert k < l || l < k;
      }
    }
  }

  lemma AcceptedIsOrderFree(p: PolicyDocument, rt: TypeMap, bn: seq<ActionBinding>, q: PolicyDocument, rt': TypeMap,
    bn': seq<ActionBinding>, validPrefix: string -> bool)
    requires SameContent(p, q) && DistinctNames(p) && SameTypes(rt, rt') && multiset(bn) == multiset(bn')
    requires Accepted(p, rt, bn, validPrefix)
    ensures Accepted(q, rt', bn', validPrefix)
  {
    SameElements(bn, bn');
    SameElements(p.unions, q.unions);
    SameTables(p, q);
    DistinctIsOrderFree(bn, bn');
    forall t, a
      ensures Binds(bn, t, a) <==> Binds(bn', t, a)
    {
    }
    TypesAcceptedIsOrderFree(rt, bn, rt', bn', validPrefix);
    forall b | b in bn'
      ensures BindingAccepted(rt', ActionNames(q), bn', b)
    {
      assert BindingAccepted(rt, ActionNames(p), bn, b);
      forall c | c in b.conditions
        ensures ConditionAccepted(rt'[b.typeName].relationships, bn', c)
      {
        assert ConditionAccepted(rt[b.typeName].relationships, bn, c);
      }
    }
  }

  lemma TypesAcceptedIsOrderFree(rt: TypeMap, bn: seq<ActionBinding>, rt': TypeMap, bn': seq<ActionBinding>,
    validPrefix: string -> bool)
    requires SameTypes(rt, rt') && (forall t, a :: Binds(bn, t, a) <==> Binds(bn', t, a))
    requires TypesAccepted(rt, bn, validPrefix)
    ensures TypesAccepted(rt', bn', validPrefix)
  {
    forall n, r, t | n in rt' && r in rt'[n].relationships && t in r.types
      ensures TargetAccepted(rt', bn', t)
    {
      assert TargetAccepted(rt, bn, t);
    }
  }

  ghost predicate SameDefinition(d: Definition, e: Definition) {
    && d.name == e.name && d.idPrefix == e.idPrefix
    && (forall r :: r in d.relationships <==> r in e.relationships)
    && (forall a :: a in d.actions <==> a in e.actions)
  }

  ghost predicate SameSchema(s: Schema, t: Schema) {
    s.Keys == t.Keys && forall n :: n in s ==> SameDefinition(s[n], t[n])
  }

  lemma SameConditionsCompiled(t: ResourceType, u: ResourceType, action: string, cs: seq<Condition>)
    requires t.roleBindingV2 == u.roleBindingV2
    ensures CompileConditions(t, action, cs) == CompileConditions(u, action, cs)
  {
  }

  lemma DefinitionIsOrderFree(t: ResourceType, bn: seq<ActionBinding>, u: ResourceType, bn': seq<ActionBinding>,
    n: string)
    requires SameType(t, u) && multiset(bn) == multiset(bn')
    ensures SameDefinition(EmittedDefinition(t, bn, n), EmittedDefinition(u, bn', n))
  {
    SameElements(bn, bn');
    if UsesV2(t, bn, n) {
      var b, c :| b in bn && b.typeName == n && c in b.conditions && TriggersV2(t, c);
      assert TriggersV2(u, c);
    }
    if UsesV2(u, bn', n) {
      var b, c :| b in bn' && b.typeName == n && c in b.conditions && TriggersV2(u, c);
      assert TriggersV2(t, c);
    }
    forall a
      ensures HasV1(bn, n, a) <==> HasV1(bn', n, a)
    {
    }
    forall r
      ensures r in EmittedRelationships(t, bn, n) <==> r in EmittedRelationships(u, bn', n)
    {
      EmittedRelationshipsMembers(t, bn, n, r);
      EmittedRelationshipsMembers(u, bn', n, r);
    }
    forall a
      ensures a in EmittedActions(t, bn, n) <==> a in EmittedActions(u, bn', n)
    {
      EmittedActionsMembers(t, bn, n, a);
      EmittedActionsMembers(u, bn', n, a);
      forall b
        ensures CompileBinding(t, b) == CompileBinding(u, b)
      {
        SameConditionsCompiled(t, u, b.actionName, b.conditions);
      }
    }
  }

  /** The theorem: documents with the same objects, names distinct, are accepted alike and
      compile to the same schema, whatever the iteration orders of the two runs. */
  lemma CompilationIsOrderFree(p: PolicyDocument, o: Orders, q: PolicyDocument, o': Orders, validPrefix: string -> bool)
    requires SameContent(p, q) && DistinctNames(p) && ValidOrders(p, o) && ValidOrders(q, o')
    ensures DocAccepted(p, o, validPrefix) <==> DocAccepted(q, o', validPrefix)
    ensures SameSchema(SchemaOf(p, o), SchemaOf(q, o'))
  {
    var rt, bn := CompiledTypes(p, o.roleActions), CompiledBindings(p, o);
    var rt', bn' := CompiledTypes(q, o'.roleActions), CompiledBindings(q, o');
    BindingsArePermuted(p, o, q, o');
    TypesAgree(p, o, q, o');
    SameElements(p.resourceTypes, q.resourceTypes);
    SameElements(p.unions, q.unions);
    if Accepted(p, rt, bn, validPrefix) {
      AcceptedIsOrderFree(p, rt, bn, q, rt', bn', validPrefix);
    }
    if Accepted(q, rt', bn', validPrefix) {
      AcceptedIsOrderFree(q, rt', bn', p, rt, bn, validPrefix);
    }
    forall n | n in rt
      ensures SameDefinition(SchemaOf(p, o)[n], SchemaOf(q, o')[n])
    {
      DefinitionIsOrderFree(rt[n], bn, rt'[n], bn', n);
    }
  }

  /** A merged document holds the elements of both, each as often as both together, and the RBAC
      block of the second one, if it has any. */
  lemma MergeHoldsBoth(p: PolicyDocument, q: PolicyDocument)
    ensures var m := p.MergeWith(q);
      && multiset(m.resourceTypes) == multiset(p.resourceTypes) + multiset(q.resourceTypes)
      && multiset(m.unions) == multiset(p.unions) + multiset(q.unions)
      && multiset(m.actions) == multiset(p.actions) + multiset(q.actions)
      && multiset(m.actionBindings) == multiset(p.actionBindings) + multiset(q.actionBindings)
      && p.resourceTypes <= m.resourceTypes && p.unions <= m.unions
      && p.actions <= m.actions && p.actionBindings <= m.actionBindings
      && (q.rbac.Some? ==> m.rbac == q.rbac) && (q.rbac.None? ==> m.rbac == p.rbac)
  {
  }

  /** Merging two documents in either order is the same, when at most one has an RBAC block. */
  lemma MergeCommutes(p: PolicyDocument, q: PolicyDocument, o: Orders, o': Orders, validPrefix: string -> bool)
    requires p.rbac.None? || q.rbac.None?
    requires DistinctNames(p.MergeWith(q)) && ValidOrders(p.MergeWith(q), o) && ValidOrders(q.MergeWith(p), o')
    ensures DocAccepted(p.MergeWith(q), o, validPrefix) <==> DocAccepted(q.MergeWith(p), o', validPrefix)
    ensures SameSchema(SchemaOf(p.MergeWith(q), o), SchemaOf(q.MergeWith(p), o'))
  {
    CompilationIsOrderFree(p.MergeWith(q), o, q.MergeWith(p), o', validPrefix);
  }
}
