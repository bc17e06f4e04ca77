/** When the relations and permissions of every definition have different names, as a schema must.
    Validation does not check it; NamesReady says, in terms of types and bindings, when it is so. */
module SchemaNames {
  import opened Types
  import opened Rbac
  import opened Iapl
  import opened PolicyTables
  import opened PolicyMeaning
  import opened SchemaClosure

  function RelationNames(rels: seq<Relationship>): seq<string> {
    if rels == [] then [] else RelationNames(rels[..|rels| - 1]) + [rels[|rels| - 1].relation]
  }

  function PermissionNames(actions: seq<Action>): seq<string> {
    if actions == [] then [] else PermissionNames(actions[..|actions| - 1]) + [actions[|actions| - 1].name]
  }

  predicate AllDistinct(names: seq<string>) {
    forall i, j :: 0 <= i < j < |names| ==> names[i] != names[j]
  }

  /** No relation or permission of a definition is declared twice, or as both. */
  ghost predicate WellNamed(schema: Schema) {
    forall n :: n in schema ==>
      AllDistinct(RelationNames(schema[n].relationships) + PermissionNames(schema[n].actions))
  }

  // ---------- how often a name occurs ----------

  lemma {:induction false} DistinctMeansOnce(names: seq<string>)
    ensures AllDistinct(names) <==> forall x :: multiset(names)[x] <= 1
  {
    if names != [] {
      var init, last := names[..|names| - 1], names[|names| - 1];
      DistinctMeansOnce(init);
      assert names == init + [last];
      assert last in init <==> multiset(init)[last] > 0;
      assert forall x :: multiset(init)[x] <= multiset(names)[x];
      if forall x :: multiset(names)[x] <= 1 {
        forall i, j | 0 <= i < j < |names|
          ensures names[i] != names[j]
        {
          assert j == |names| - 1 ==> init[i] in init && multiset(names)[last] == multiset(init)[last] + 1;
          assert j < |names| - 1 ==> init[i] != init[j];
        }
      }
    }
  }

  lemma {:induction false} NamesAppend(a: seq<Relationship>, b: seq<Relationship>)
    ensures RelationNames(a + b) == RelationNames(a) + RelationNames(b)
  {
    if b == [] {
      assert a + b == a;
    } else {
      NamesAppend(a, b[..|b| - 1]);
      assert (a + b)[..|a + b| - 1] == a + b[..|b| - 1];
    }
  }

  lemma {:induction false} PermissionsAppend(a: seq<Action>, b: seq<Action>)
    ensures PermissionNames(a + b) == PermissionNames(a) + PermissionNames(b)
  {
    if b == [] {
      assert a + b == a;
    } else {
      PermissionsAppend(a, b[..|b| - 1]);
      assert (a + b)[..|a + b| - 1] == a + b[..|b| - 1];
    }
  }

  /** How many of the conditions are V1. */
  function V1Count(cs: seq<Condition>): nat {
    if cs == [] then 0 else V1Count(cs[..|cs| - 1]) + if cs[|cs| - 1].roleBinding then 1 else 0
  }

  predicate AtMostOneV1(cs: seq<Condition>) {
    forall i, j :: 0 <= i < j < |cs| ==> !(cs[i].roleBinding && cs[j].roleBinding)
  }

  lemma {:induction false} V1CountMeans(cs: seq<Condition>)
    ensures V1Count(cs) > 0 <==> exists c :: c in cs && c.roleBinding
    ensures V1Count(cs) <= 1 <==> AtMostOneV1(cs)
  {
    if cs != [] {
      var init := cs[..|cs| - 1];
      V1CountMeans(init);
      assert cs == init + [cs[|cs| - 1]];
      if c :| c in init && c.roleBinding {
        var i :| 0 <= i < |init| && init[i] == c;
        assert cs[i].roleBinding;
      }
    }
  }

  lemma {:induction false} V1Names(action: string, cs: seq<Condition>, x: string)
    ensures multiset(RelationNames(V1Relations(action, cs)))[x] ==
      if x == action + PERMISSION_SUFFIX then V1Count(cs) else 0
  {
    if cs != [] {
      var added := if cs[|cs| - 1].roleBinding then [V1Relation(action)] else [];
      V1Names(action, cs[..|cs| - 1], x);
      NamesAppend(V1Relations(action, cs[..|cs| - 1]), added);
      assert added != [] ==> added[..0] == [] && RelationNames(added) == [action + PERMISSION_SUFFIX];
    }
  }

  /** How often the bindings of the type add the V1 relation of the name, and bind an action of the name. */
  function V1Times(bn: seq<ActionBinding>, n: string, x: string): nat {
    if bn == [] then 0 else
      var b := bn[|bn| - 1];
      V1Times(bn[..|bn| - 1], n, x) +
        if b.typeName == n && b.actionName + PERMISSION_SUFFIX == x then V1Count(b.conditions) else 0
  }

  function BoundTimes(bn: seq<ActionBinding>, n: string, x: string): nat {
    if bn == [] then 0 else
      BoundTimes(bn[..|bn| - 1], n, x) +
        if bn[|bn| - 1].typeName == n && bn[|bn| - 1].actionName == x then 1 else 0
  }

  lemma {:induction false} EmittedRelationNames(t: ResourceType, bn: seq<ActionBinding>, n: string, x: string)
    ensures multiset(RelationNames(EmittedRelationships(t, bn, n)))[x] ==
      multiset(RelationNames(t.relationships))[x] + V1Times(bn, n, x)
  {
    if bn != [] {
      var b := bn[|bn| - 1];
      var before := EmittedRelationships(t, bn[..|bn| - 1], n);
      var added := if b.typeName == n then V1Relations(b.actionName, b.conditions) else [];
      EmittedRelationNames(t, bn[..|bn| - 1], n, x);
      V1Names(b.actionName, b.conditions, x);
      NamesAppend(before, added);
    }
  }

  lemma {:induction false} EmittedPermissionNames(t: ResourceType, bn: seq<ActionBinding>, n: string, x: string)
    ensures multiset(PermissionNames(EmittedActions(t, bn, n)))[x] == BoundTimes(bn, n, x)
  {
    if bn != [] {
      var b := bn[|bn| - 1];
      var before := EmittedActions(t, bn[..|bn| - 1], n);
      EmittedPermissionNames(t, bn[..|bn| - 1], n, x);
      if b.typeName == n {
        OnePermission(before, CompileBinding(t, b));
      } else {
        assert before + [] == before;
      }
    }
  }

  lemma OnePermission(before: seq<Action>, a: Action)
    ensures PermissionNames(before + [a]) == PermissionNames(before) + [a.name]
  {
    assert (before + [a])[..|before|] == before;
  }

  /** The one binding of an action on a type, in bindings that differ. */
  lemma {:induction false} TimesOfDistinct(bn: seq<ActionBinding>, n: string, a: string)
    requires DistinctBindings(bn)
    ensures BoundTimes(bn, n, a) == if Binds(bn, n, a) then 1 else 0
    ensures forall b :: b in bn && b.typeName == n && b.actionName == a ==>
      V1Times(bn, n, a + PERMISSION_SUFFIX) == V1Count(b.conditions)
    ensures !Binds(bn, n, a) ==> V1Times(bn, n, a + PERMISSION_SUFFIX) == 0
  {
    if bn != [] {
      var init, b := bn[..|bn| - 1], bn[|bn| - 1];
      TimesOfDistinct(init, n, a);
      SuffixIsInjective(a, b.actionName);
      assert bn == init + [b];
      if b.typeName == n && b.actionName == a {
        assert Binds(bn, n, a);
        forall k | k in init
          ensures k.typeName != n || k.actionName != a
        {
          var i :| 0 <= i < |init| && init[i] == k;
          assert bn[i] == k;
        }
      }
    }
  }

  lemma SuffixIsInjective(a: string, b: string)
    ensures a + PERMISSION_SUFFIX == b + PERMISSION_SUFFIX ==> a == b
  {
    assert (a + PERMISSION_SUFFIX)[..|a|] == a && (b + PERMISSION_SUFFIX)[..|b|] == b;
  }

  lemma {:induction false} NoSuffixNoV1(bn: seq<ActionBinding>, n: string, x: string)
    requires forall a :: x != a + PERMISSION_SUFFIX
    ensures V1Times(bn, n, x) == 0
  {
    if bn != [] {
      NoSuffixNoV1(bn[..|bn| - 1], n, x);
    }
  }

  lemma ManagementNames(from: seq<string>, x: string)
    ensures multiset(PermissionNames(RoleBindingActionsFor(from)))[x] == if x in ROLE_BINDING_ACTIONS then 1 else 0
  {
    NamesInOrder(RoleBindingActionsFor(from));
    assert PermissionNames(RoleBindingActionsFor(from)) == ROLE_BINDING_ACTIONS;
    ManagementActionsDiffer();
    OnceIfDistinct(ROLE_BINDING_ACTIONS, x);
  }

  lemma OnceIfDistinct(names: seq<string>, x: string)
    requires AllDistinct(names)
    ensures multiset(names)[x] == if x in names then 1 else 0
  {
    DistinctMeansOnce(names);
    assert x in names <==> multiset(names)[x] > 0;
  }

  lemma ManagementActionsDiffer()
    ensures AllDistinct(ROLE_BINDING_ACTIONS)
  {
    var c, u, d := ROLE_BINDING_ACTIONS[0], ROLE_BINDING_ACTIONS[1], ROLE_BINDING_ACTIONS[2];
    var g, l := ROLE_BINDING_ACTIONS[3], ROLE_BINDING_ACTIONS[4];
    assert c[16] != u[16] && c[16] != d[16] && u[16] != d[16] && g[16] != l[16];
  }

  lemma {:induction false} NamesInOrder(actions: seq<Action>)
    ensures |PermissionNames(actions)| == |actions|
    ensures forall i :: 0 <= i < |actions| ==> PermissionNames(actions)[i] == actions[i].name
  {
    if actions != [] {
      NamesInOrder(actions[..|actions| - 1]);
    }
  }

  // ---------- the exact condition ----------

  ghost predicate NamedByRelation(t: ResourceType, x: string) {
    exists rel :: rel in t.relationships && rel.relation == x
  }

  lemma {:induction false} RelationNamesMembers(rels: seq<Relationship>, x: string)
    ensures x in RelationNames(rels) <==> exists rel :: rel in rels && rel.relation == x
  {
    if rels != [] {
      RelationNamesMembers(rels[..|rels| - 1], x);
      assert rels == rels[..|rels| - 1] + [rels[|rels| - 1]];
    }
  }

  /** How often the definition of the type has the name. */
  lemma TimesInDefinition(t: ResourceType, bn: seq<ActionBinding>, n: string, x: string)
    ensures var d := EmittedDefinition(t, bn, n);
      multiset(RelationNames(d.relationships) + PermissionNames(d.actions))[x] ==
        multiset(RelationNames(t.relationships))[x] + V1Times(bn, n, x) + BoundTimes(bn, n, x) +
          (if UsesV2(t, bn, n) && x in ROLE_BINDING_ACTIONS then 1 else 0)
  {
    EmittedRelationNames(t, bn, n, x);
    EmittedPermissionNames(t, bn, n, x);
    ManagementNames(InheritsFrom(t), x);
    PermissionsAppend(EmittedActions(t, bn, n), RoleBindingActionsFor(InheritsFrom(t)));
  }

  /** The relations of the type differ; no bound action has the name of a relation of it; an action
      has at most one V1 condition, and then no relation or action of the type is called action_rel;
      and where V2 is used the management actions are neither bound nor relations. */
  ghost predicate NamesReady(t: ResourceType, bn: seq<ActionBinding>, n: string) {
    && AllDistinct(RelationNames(t.relationships))
    && (forall b :: b in bn && b.typeName == n ==>
         AtMostOneV1(b.conditions) && !NamedByRelation(t, b.actionName))
    && (forall a :: HasV1(bn, n, a) ==>
         !NamedByRelation(t, a + PERMISSION_SUFFIX) && !Binds(bn, n, a + PERMISSION_SUFFIX))
    && (UsesV2(t, bn, n) ==> forall a :: a in ROLE_BINDING_ACTIONS ==> !Binds(bn, n, a) && !NamedByRelation(t, a))
  }

  /** The four ways in which a definition may come to have a name. */
  ghost predicate Sources(t: ResourceType, bn: seq<ActionBinding>, n: string, x: string, r: nat, v: nat, b: nat,
    m: nat) {
    && r == multiset(RelationNames(t.relationships))[x] && (r > 0 <==> NamedByRelation(t, x))
    && v == V1Times(bn, n, x) && (v > 0 <==> exists a :: HasV1(bn, n, a) && x == a + PERMISSION_SUFFIX)
    && b == BoundTimes(bn, n, x) && b == (if Binds(bn, n, x) then 1 else 0)
    && m == if UsesV2(t, bn, n) && x in ROLE_BINDING_ACTIONS then 1 else 0
  }

  lemma SourcesOf(t: ResourceType, bn: seq<ActionBinding>, n: string, x: string)
    requires DistinctBindings(bn)
    ensures Sources(t, bn, n, x, multiset(RelationNames(t.relationships))[x], V1Times(bn, n, x), BoundTimes(bn, n, x),
      if UsesV2(t, bn, n) && x in ROLE_BINDING_ACTIONS then 1 else 0)
    ensures forall b :: b in bn && b.typeName == n && b.actionName + PERMISSION_SUFFIX == x ==>
      (V1Times(bn, n, x) <= 1 <==> AtMostOneV1(b.conditions))
  {
    RelationNamesMembers(t.relationships, x);
    TimesOfDistinct(bn, n, x);
    if a :| x == a + PERMISSION_SUFFIX {
      TimesOfDistinct(bn, n, a);
      forall other: string
        ensures other + PERMISSION_SUFFIX == x ==> other == a
      {
        SuffixIsInjective(a, other);
      }
      if b :| b in bn && b.typeName == n && b.actionName == a {
        V1CountMeans(b.conditions);
        assert HasV1(bn, n, a) ==> V1Count(b.conditions) > 0;
      }
    } else {
      NoSuffixNoV1(bn, n, x);
    }
  }

  ghost predicate OnceEach(t: ResourceType, bn: seq<ActionBinding>, n: string, x: string) {
    multiset(RelationNames(t.relationships))[x] + V1Times(bn, n, x) + BoundTimes(bn, n, x) +
      (if UsesV2(t, bn, n) && x in ROLE_BINDING_ACTIONS then 1 else 0) <= 1
  }

  lemma DistinctMeansOnceEach(t: ResourceType, bn: seq<ActionBinding>, n: string)
    ensures var d := EmittedDefinition(t, bn, n);
      AllDistinct(RelationNames(d.relationships) + PermissionNames(d.actions)) <==> forall x :: OnceEach(t, bn, n, x)
  {
    var d := EmittedDefinition(t, bn, n);
    var names := RelationNames(d.relationships) + PermissionNames(d.actions);
    DistinctMeansOnce(names);
    forall x
      ensures multiset(names)[x] <= 1 <==> OnceEach(t, bn, n, x)
    {
      TimesInDefinition(t, bn, n, x);
    }
  }

  lemma ReadyFromOnce(t: ResourceType, bn: seq<ActionBinding>, n: string)
    requires DistinctBindings(bn) && forall x :: OnceEach(t, bn, n, x)
    ensures NamesReady(t, bn, n)
  {
    forall x
      ensures multiset(RelationNames(t.relationships))[x] <= 1
    {
      assert OnceEach(t, bn, n, x);
    }
    DistinctMeansOnce(RelationNames(t.relationships));
    forall b | b in bn && b.typeName == n
      ensures AtMostOneV1(b.conditions) && !NamedByRelation(t, b.actionName)
    {
      assert OnceEach(t, bn, n, b.actionName) && OnceEach(t, bn, n, b.actionName + PERMISSION_SUFFIX);
      SourcesOf(t, bn, n, b.actionName);
      SourcesOf(t, bn, n, b.actionName + PERMISSION_SUFFIX);
      assert Binds(bn, n, b.actionName);
    }
    forall a | HasV1(bn, n, a)
      ensures !NamedByRelation(t, a + PERMISSION_SUFFIX) && !Binds(bn, n, a + PERMISSION_SUFFIX)
    {
      assert OnceEach(t, bn, n, a + PERMISSION_SUFFIX);
      SourcesOf(t, bn, n, a + PERMISSION_SUFFIX);
    }
    forall a | UsesV2(t, bn, n) && a in ROLE_BINDING_ACTIONS
      ensures !Binds(bn, n, a) && !NamedByRelation(t, a)
    {
      assert OnceEach(t, bn, n, a);
      SourcesOf(t, bn, n, a);
    }
  }

  lemma OnceFromReady(t: ResourceType, bn: seq<ActionBinding>, n: string, x: string)
    requires DistinctBindings(bn) && NamesReady(t, bn, n)
    ensures OnceEach(t, bn, n, x)
  {
    SourcesOf(t, bn, n, x);
    DistinctMeansOnce(RelationNames(t.relationships));
    if a :| HasV1(bn, n, a) && x == a + PERMISSION_SUFFIX {
      var b, c :|
        b in bn && b.typeName == n && b.actionName == a && c in b.conditions && c.roleBinding;
      assert AtMostOneV1(b.conditions);
      NoManagementAction(a);
    }
  }

  lemma NoManagementAction(a: string)
    ensures a + PERMISSION_SUFFIX !in ROLE_BINDING_ACTIONS
  {
    assert (a + PERMISSION_SUFFIX)[|a| + 3] == 'l';
  }

  /** In an accepted policy the names of every definition differ exactly when its type and the
      bindings on it are ready for that. */
  lemma AcceptedIsWellNamedIff(p: PolicyDocument, o: Orders, validPrefix: string -> bool)
    requires DocAccepted(p, o, validPrefix)
    ensures WellNamed(SchemaOf(p, o)) <==>
      forall n :: n in CompiledTypes(p, o.roleActions) ==>
        NamesReady(CompiledTypes(p, o.roleActions)[n], CompiledBindings(p, o), n)
  {
    var rt, bn := CompiledTypes(p, o.roleActions), CompiledBindings(p, o);
    forall n | n in rt
      ensures NamesReady(rt[n], bn, n) <==>
        AllDistinct(RelationNames(SchemaOf(p, o)[n].relationships) + PermissionNames(SchemaOf(p, o)[n].actions))
    {
      DistinctMeansOnceEach(rt[n], bn, n);
      if forall x :: OnceEach(rt[n], bn, n, x) {
        ReadyFromOnce(rt[n], bn, n);
      }
      if NamesReady(rt[n], bn, n) {
        forall x
          ensures OnceEach(rt[n], bn, n, x)
        {
          OnceFromReady(rt[n], bn, n, x);
        }
      }
    }
  }

  lemma {:induction false} RelationNamesInOrder(rels: seq<Relationship>)
    ensures |RelationNames(rels)| == |rels|
    ensures forall i :: 0 <= i < |rels| ==> RelationNames(rels)[i] == rels[i].relation
  {
    if rels != [] {
      RelationNamesInOrder(rels[..|rels| - 1]);
    }
  }

  lemma WellNamedRelationsDiffer(schema: Schema)
    requires WellNamed(schema)
    ensures DistinctRelations(schema)
  {
    forall n, i, j | n in schema && 0 <= i < j < |schema[n].relationships|
      ensures schema[n].relationships[i].relation != schema[n].relationships[j].relation
    {
      RelationNamesInOrder(schema[n].relationships);
      var names := RelationNames(schema[n].relationships) + PermissionNames(schema[n].actions);
      assert names[i] != names[j];
    }
  }

  /** The schema of an accepted policy can be loaded, with every name declared once and everything
      that is used declared, exactly when names and clauses are ready. */
  lemma AcceptedSchemaLoadsIff(p: PolicyDocument, o: Orders, validPrefix: string -> bool)
    requires DocAccepted(p, o, validPrefix)
    ensures forall b :: b in CompiledBindings(p, o) ==> b.typeName in CompiledTypes(p, o.roleActions)
    ensures WellNamed(SchemaOf(p, o)) && Closed(SchemaOf(p, o)) <==>
      && (forall n :: n in CompiledTypes(p, o.roleActions) ==>
            NamesReady(CompiledTypes(p, o.roleActions)[n], CompiledBindings(p, o), n))
      && Ready(CompiledTypes(p, o.roleActions), CompiledBindings(p, o))
  {
    AcceptedIsWellNamedIff(p, o, validPrefix);
    forall b | b in CompiledBindings(p, o)
      ensures b.typeName in CompiledTypes(p, o.roleActions)
    {
      AcceptedBindingsHaveTypes(p, o, validPrefix, b);
    }
    if WellNamed(SchemaOf(p, o)) {
      WellNamedRelationsDiffer(SchemaOf(p, o));
      AcceptedSchemaIsClosedIffReady(p, o, validPrefix);
    }
  }
}
