/** The policy object: NewPolicy, Validate and Schema (internal/iapl/policy.go).
    The tables are fields the passes overwrite in place; Compiled says what they
    hold once every pass has run. */
module Policy {
  import opened Types
  import opened Rbac
  import opened Iapl

  datatype Cause =
    | TypeExists | UnknownType | UnknownRelation | UnknownAction
    | InvalidCondition | ActionBindingExists | InvalidPrefix

  datatype PolicyError =
    | UnionError(cause: Cause)
    | ResourceTypeError(cause: Cause)
    | ActionBindingError(cause: Cause)
    | RoleError(cause: Cause)

  class Policy {
    const p: PolicyDocument
    var rt: TypeMap
    var un: UnionMap
    var ac: set<string>
    var rb: map<string, set<string>>
    var bn: seq<ActionBinding>
    ghost var orders: Orders

    /** What NewPolicy leaves in the tables. */
    ghost predicate Compiled()
      reads this
    {
      && un == UnionTable(p.unions)
      && ac == ActionNames(p)
      && ValidOrders(p, orders)
      && rt == CompiledTypes(p, orders.roleActions)
      && bn == CompiledBindings(p, orders)
      && BindTable(rb, bn)
    }

    constructor (p: PolicyDocument)
      ensures this.p == p
      ensures Compiled()
    {
      this.p := p;
      this.rt, this.un, this.ac, this.rb, this.bn := map[], map[], {}, map[], [];
      this.orders := Orders([], [], []);
      new;
      rt := ReadTypes(p.resourceTypes);
      un := ReadUnions(p.unions);
      ac := ReadActions(p);
      if p.rbac.Some? {
        CompileRBAC(p.rbac.value);
      }
      ghost var augmented := rt;
      assert augmented == AugmentedTypes(p, orders.roleActions) && ValidOrders(p, orders);
      ExpandActionBindings();
      assert bn == CompiledBindings(p, orders);
      ExpandResourceTypes();
      TypesAreCompiled(p, orders.roleActions, augmented, rt);
    }

    /** The RBAC branch of NewPolicy. */
    method CompileRBAC(r: RBAC)
      requires p.rbac == Some(r)
      requires rt == TypeTable(p.resourceTypes) && ac == ActionNames(p) && bn == []
      modifies this`rt, this`bn, this`orders
      ensures ValidOrders(p, orders)
      ensures rt == AugmentedTypes(p, orders.roleActions)
      ensures bn == CompiledRBACBindings(p, r, orders)
    {
      GenerateRBACTypes(r);
      ExpandRBACV2Relationships(r);
    }

    method GenerateRBACTypes(r: RBAC)
      requires p.rbac == Some(r)
      requires rt == TypeTable(p.resourceTypes) && ac == ActionNames(p) && bn == []
      modifies this`rt, this`bn, this`orders
      ensures Enumerates(orders.roleActions, ActionNames(p))
      ensures Enumerates(orders.bindingActions, ActionNames(p))
      ensures rt == GeneratedTypes(p, orders.roleActions) && rt.Keys == TypeNames(p)
      ensures bn == RoleBindingBindings(r, orders.bindingActions)
    {
      CreateV2RoleResourceType(r);
      CreateRoleBindingResourceType(r);
    }

    static method ReadTypes(ts: seq<ResourceType>) returns (types: TypeMap)
      ensures types == TypeTable(ts)
    {
      types := map[];
      for i := 0 to |ts|
        invariant types == TypeTable(ts[..i])
      {
        types := types[ts[i].name := ts[i]];
        assert ts[..i + 1][..i] == ts[..i];
      }
      assert ts[..|ts|] == ts;
    }

    static method ReadUnions(us: seq<Union>) returns (unions: UnionMap)
      ensures unions == UnionTable(us)
    {
      unions := map[];
      for i := 0 to |us|
        invariant unions == UnionTable(us[..i])
      {
        unions := unions[us[i].name := us[i]];
        assert us[..i + 1][..i] == us[..i];
      }
      assert us[..|us|] == us;
    }

    static method ReadActions(p: PolicyDocument) returns (actions: set<string>)
      ensures actions == ActionNames(p)
      ensures forall a :: a in actions <==> a in p.actions || (p.rbac.Some? && a in ["avail_role",
        "iam_rolebinding_create", "iam_rolebinding_update", "iam_rolebinding_delete", "iam_rolebinding_get",
        "iam_rolebinding_list"])
    {
      actions := {};
      for i := 0 to |p.actions|
        invariant actions == set a | a in p.actions[..i]
      {
        actions := actions + {p.actions[i]};
      }
      assert p.actions[..|p.actions|] == p.actions;
      if p.rbac.Some? {
        actions := actions + RoleBindingActionNames();
      }
    }

    /** The role type gets one relation per action, in map order, then its owner. */
    method CreateV2RoleResourceType(r: RBAC)
      modifies this`rt, this`orders
      ensures Enumerates(orders.roleActions, ac)
      ensures orders == old(orders).(roleActions := orders.roleActions)
      ensures rt == old(rt)[r.roleResource.name := RoleType(r, orders.roleActions)]
      ensures var t, n := rt[r.roleResource.name], |orders.roleActions|;
        && t.name == r.roleResource.name && t.idPrefix == r.roleResource.idPrefix && t.roleBindingV2 == None
        && |t.relationships| == n + 1
        && (forall i :: 0 <= i < n ==> var rel := t.relationships[i];
             && rel.relation == orders.roleActions[i] + "_rel" && |rel.types| == |r.roleSubjectTypes|
             && forall j :: 0 <= j < |rel.types| ==> rel.types[j] == TargetType(r.roleSubjectTypes[j], "*", ""))
        && t.relationships[n].relation == "owner" && |t.relationships[n].types| == |r.roleOwners|
        && forall j :: 0 <= j < |r.roleOwners| ==> t.relationships[n].types[j] == TargetType(r.roleOwners[j], "", "")
    {
      var owners: seq<TargetType> := [];
      for i := 0 to |r.roleOwners|
        invariant owners == RoleOwner(r).types[..i]
      {
        owners := owners + [Plain(r.roleOwners[i])];
      }

      var rels: seq<Relationship> := [];
      var rest := ac;
      ghost var order: seq<string> := [];
      while rest != {}
        invariant EnumeratesBut(order, ac, rest)
        invariant rels == RolePermissions(r, order)
        invariant unchanged(this)
        decreases rest
      {
        var action :| action in rest;
        var targets: seq<TargetType> := [];
        for j := 0 to |r.roleSubjectTypes|
          invariant targets == RolePermission(r, action).types[..j]
        {
          targets := targets + [TargetType(r.roleSubjectTypes[j], "*", "")];
        }
        EnumerationGrows(order, ac, rest, action);
        assert Relationship(action + PERMISSION_SUFFIX, targets) == RolePermission(r, action);
        rels := rels + [Relationship(action + PERMISSION_SUFFIX, targets)];
        rest := rest - {action};
        order := order + [action];
      }
      EnumerationEnds(order, ac);
      rels := rels + [Relationship(ROLE_OWNER_RELATION, owners)];
      assert owners == RoleOwner(r).types;
      orders := orders.(roleActions := order);
      rt := rt[r.roleResource.name := ResourceType(r.roleResource.name, r.roleResource.idPrefix, None, rels)];
    }

    /** The role-binding type, and one binding on it per action in map order. */
    method CreateRoleBindingResourceType(r: RBAC)
      modifies this`rt, this`bn, this`orders
      ensures Enumerates(orders.bindingActions, ac)
      ensures orders == old(orders).(bindingActions := orders.bindingActions)
      ensures rt == old(rt)[r.roleBindingResource.name := RoleBindingType(r)]
      ensures rt[r.roleBindingResource.name] ==
        ResourceType(r.roleBindingResource.name, r.roleBindingResource.idPrefix, None,
          [Relationship("role", [TargetType(r.roleResource.name, "", "")]),
            Relationship("subject", r.roleBindingSubjects)])
      ensures bn == old(bn) + RoleBindingBindings(r, orders.bindingActions)
      ensures |bn| == |old(bn)| + |orders.bindingActions|
      ensures forall i :: 0 <= i < |orders.bindingActions| ==> var a := orders.bindingActions[i];
        bn[|old(bn)| + i] == ActionBinding(a, r.roleBindingResource.name, [],
          [ConditionSet([Along("role", a + "_rel")]), ConditionSet([Along("subject", "")])])
    {
      var bindings: seq<ActionBinding> := [];
      var rest := ac;
      ghost var order: seq<string> := [];
      while rest != {}
        invariant EnumeratesBut(order, ac, rest)
        invariant bindings == RoleBindingBindings(r, order)
        invariant unchanged(this)
        decreases rest
      {
        var action :| action in rest;
        EnumerationGrows(order, ac, rest, action);
        bindings := bindings + [RoleBindingBinding(r, action)];
        rest := rest - {action};
        order := order + [action];
      }
      EnumerationEnds(order, ac);
      bn := bn + bindings;
      orders := orders.(bindingActions := order);
      rt := rt[r.roleBindingResource.name := RoleBindingType(r)];
    }

    /** member_role on role owners, avail_role on owners and on inheriting types. */
    method ExpandRBACV2Relationships(r: RBAC)
      modifies this`rt, this`bn, this`orders
      ensures Enumerates(orders.types, old(rt).Keys)
      ensures orders == old(orders).(types := orders.types)
      ensures rt == map n | n in old(rt) :: WithMemberRole(r, n, old(rt)[n])
      ensures bn == old(bn) + AvailableRolesBindings(r, old(rt), orders.types)
    {
      ghost var before := rt;
      var names := rt.Keys;
      var rest := names;
      var bindings: seq<ActionBinding> := [];
      ghost var order: seq<string> := [];
      while rest != {}
        invariant EnumeratesBut(order, names, rest)
        invariant names == before.Keys && AugmentedBut(r, before, rt, rest)
        invariant bindings == AvailableRolesBindings(r, before, order)
        invariant bn == old(bn) && orders == old(orders)
        decreases rest
      {
        var name :| name in rest;
        var t, added := AugmentType(r, name, rt[name]);
        bindings := bindings + added;
        AugmentNext(r, before, rt, rest, name);
        rt := rt[name := t];
        EnumerationGrows(order, names, rest, name);
        AvailableRolesBindingsGrow(r, before, order, name);
        rest := rest - {name};
        order := order + [name];
      }
      EnumerationEnds(order, names);
      bn := bn + bindings;
      orders := orders.(types := order);
    }

    /** One type: an owner gains member_role, and an owner or heir of roles an avail_role binding. */
    static method AugmentType(r: RBAC, name: string, t: ResourceType)
      returns (u: ResourceType, added: seq<ActionBinding>)
      ensures u == WithMemberRole(r, name, t) && added == AvailableRolesBinding(r, name, t)
    {
      u, added := t, [];
      var available := AvailableRolesOn(r, name, t);
      if |available| > 0 {
        added := [ActionBinding(AVAILABLE_ROLES, t.name, available, [])];
      }
      if name in r.roleOwners {
        u := u.(relationships := u.relationships + [MemberRole(r)]);
      }
    }

    /** avail_role = member_role (for owners) + from[0]->avail_role + ... */
    static method AvailableRolesOn(r: RBAC, name: string, t: ResourceType) returns (available: seq<Condition>)
      ensures available == AvailableRolesConditions(r, name, t)
    {
      available := [];
      if name in r.roleOwners {
        available := available + [Along(MEMBER_ROLE_RELATION, "")];
      }
      if t.roleBindingV2.Some? {
        var from := t.roleBindingV2.value.inheritPermissionsFrom;
        ghost var own := available;
        for i := 0 to |from|
          invariant available == own + seq(i, k requires 0 <= k < i => Along(from[k], AVAILABLE_ROLES))
        {
          available := available + [Along(from[i], AVAILABLE_ROLES)];
        }
      }
    }

    method ExpandActionBindings()
      modifies this`bn, this`rb
      ensures bn == old(bn) + ExpandBindings(un, p.actionBindings)
      ensures BindTable(rb, bn)
    {
      var expanded: seq<ActionBinding> := [];
      for i := 0 to |p.actionBindings|
        invariant bn == old(bn) && expanded == ExpandBindings(un, p.actionBindings[..i])
      {
        var b := p.actionBindings[i];
        ExpandBindingsGrows(un, p.actionBindings, i);
        if b.typeName in un {
          var members := un[b.typeName].resourceTypes;
          ghost var start := expanded;
          for j := 0 to |members|
            invariant expanded == start + ExpandBinding(un, b)[..j]
          {
            expanded := expanded + [b.(typeName := members[j].name)];
          }
          assert ExpandBinding(un, b)[..|members|] == ExpandBinding(un, b);
        } else {
          expanded := expanded + [b];
        }
      }
      assert p.actionBindings[..|p.actionBindings|] == p.actionBindings;
      bn := bn + expanded;
      rb := IndexBindings(bn);
    }

    static method IndexBindings(bn: seq<ActionBinding>) returns (rb: map<string, set<string>>)
      ensures BindTable(rb, bn)
    {
      rb := map[];
      for i := 0 to |bn|
        invariant BindTable(rb, bn[..i])
      {
        var b := bn[i];
        var known := if b.typeName in rb then rb[b.typeName] else {};
        BindTableGrows(rb, bn, i);
        rb := rb[b.typeName := known + {b.actionName}];
      }
      assert bn[..|bn|] == bn;
    }

    method ExpandResourceTypes()
      modifies this`rt
      ensures rt == map n | n in old(rt) :: ExpandType(un, old(rt)[n])
    {
      var names := rt.Keys;
      var rest := names;
      while rest != {}
        invariant rest <= names && rt.Keys == names == old(rt).Keys
        invariant forall n :: n in rest ==> rt[n] == old(rt)[n]
        invariant forall n :: n in names - rest ==> rt[n] == ExpandType(un, old(rt)[n])
        decreases rest
      {
        var name :| name in rest;
        var t := rt[name];
        for i := 0 to |t.relationships|
          invariant |t.relationships| == |old(rt)[name].relationships|
          invariant t == old(rt)[name].(relationships := t.relationships)
          invariant forall k :: 0 <= k < i ==>
            t.relationships[k] == ExpandRelationship(un, old(rt)[name].relationships[k])
          invariant forall k :: i <= k < |t.relationships| ==> t.relationships[k] == old(rt)[name].relationships[k]
        {
          var targets := t.relationships[i].types;
          var expanded: seq<TargetType> := [];
          for j := 0 to |targets|
            invariant expanded == ExpandTargets(un, targets[..j])
          {
            assert targets[..j + 1][..j] == targets[..j];
            if targets[j].name in un {
              expanded := expanded + un[targets[j].name].resourceTypes;
            } else {
              expanded := expanded + [targets[j]];
            }
          }
          assert targets[..|targets|] == targets;
          t := t.(relationships := t.relationships[i := t.relationships[i].(types := expanded)]);
        }
        assert t.relationships == ExpandType(un, old(rt)[name]).relationships;
        rt := rt[name := t];
        rest := rest - {name};
      }
    }

    // ---------- validation ----------

    method ValidateUnions() returns (err: Option<Cause>)
      ensures err.None? <==> UnionsAccepted(p, rt)
      ensures err.None? <==>
        forall u :: u in p.unions ==> u.name !in rt && forall m :: m in u.resourceTypes ==> m.name in rt
      ensures err.Some? ==> err.value in {TypeExists, UnknownType}
    {
      for i := 0 to |p.unions|
        invariant forall u :: u in p.unions[..i] ==> u.name !in rt && forall m :: m in u.resourceTypes ==> m.name in rt
      {
        var u := p.unions[i];
        if u.name in rt {
          return Some(TypeExists);
        }
        for j := 0 to |u.resourceTypes|
          invariant forall m :: m in u.resourceTypes[..j] ==> m.name in rt
        {
          if u.resourceTypes[j].name !in rt {
            return Some(UnknownType);
          }
        }
      }
      return None;
    }

    method FindRelationship(rels: seq<Relationship>, name: string) returns (found: bool)
      ensures found <==> NamesRelation(rels, name)
    {
      for i := 0 to |rels|
        invariant forall r :: r in rels[..i] ==> r.relation != name
      {
        if rels[i].relation == name {
          return true;
        }
      }
      return false;
    }

    method FindActionBinding(action: string, typ: string) returns (found: bool)
      ensures found <==> Binds(bn, typ, action)
    {
      for i := 0 to |bn|
        invariant forall b :: b in bn[..i] ==> b.actionName != action || b.typeName != typ
      {
        if bn[i].actionName == action && bn[i].typeName == typ {
          return true;
        }
      }
      return false;
    }

    method ValidateTarget(t: TargetType) returns (err: Option<Cause>)
      ensures err.None? <==> TargetAccepted(rt, bn, t)
      ensures err.None? <==>
        && t.name in rt
        && (|| t.subjectRelation == ""
            || (exists r :: r in rt[t.name].relationships && r.relation == t.subjectRelation)
            || (exists b :: b in bn && b.typeName == t.name && b.actionName == t.subjectRelation))
      ensures err.Some? ==> err.value == if t.name in rt then UnknownRelation else UnknownType
    {
      if t.name !in rt {
        return Some(UnknownType);
      }
      if t.subjectRelation != "" {
        var related := FindRelationship(rt[t.name].relationships, t.subjectRelation);
        var bound := FindActionBinding(t.subjectRelation, t.name);
        if !related && !bound {
          return Some(UnknownRelation);
        }
      }
      return None;
    }

    method ValidateResourceTypes(validPrefix: string -> bool) returns (err: Option<Cause>)
      ensures err.None? <==> TypesAccepted(rt, bn, validPrefix)
      ensures err.None? <==> forall n :: n in rt ==>
        && validPrefix(rt[n].idPrefix)
        && forall r, t :: r in rt[n].relationships && t in r.types ==> TargetAccepted(rt, bn, t)
    {
      var rest := rt.Keys;
      while rest != {}
        invariant rest <= rt.Keys
        invariant forall n :: n in rt.Keys - rest ==>
          && validPrefix(rt[n].idPrefix)
          && forall r, t :: r in rt[n].relationships && t in r.types ==> TargetAccepted(rt, bn, t)
        decreases rest
      {
        var name :| name in rest;
        if !validPrefix(rt[name].idPrefix) {
          return Some(InvalidPrefix);
        }
        var rels := rt[name].relationships;
        for i := 0 to |rels|
          invariant forall r, t :: r in rels[..i] && t in r.types ==> TargetAccepted(rt, bn, t)
        {
          for j := 0 to |rels[i].types|
            invariant forall t :: t in rels[i].types[..j] ==> TargetAccepted(rt, bn, t)
          {
            err := ValidateTarget(rels[i].types[j]);
            if err.Some? {
              assert rels[i] in rels && rels[i].types[j] in rels[i].types;
              return;
            }
          }
        }
        assert rels[..|rels|] == rels;
        rest := rest - {name};
      }
      return None;
    }

    method ValidateConditionRelationshipAction(rels: seq<Relationship>, ra: RelationshipAction)
      returns (err: Option<Cause>)
      requires BindTable(rb, bn)
      ensures err.None? <==> RelationshipActionAccepted(rels, bn, ra)
      ensures err.None? <==> exists i ::
        && 0 <= i < |rels| && rels[i].relation == ra.relation
        && (forall j :: 0 <= j < i ==> rels[j].relation != ra.relation)
        && (ra.actionName == "" || forall t :: t in rels[i].types ==>
          exists b :: b in bn && b.typeName == t.name && b.actionName == ra.actionName)
      ensures err.Some? ==> err.value == if NamesRelation(rels, ra.relation) then UnknownAction else UnknownRelation
    {
      var i := 0;
      while i < |rels| && rels[i].relation != ra.relation
        invariant 0 <= i <= |rels| && forall j :: 0 <= j < i ==> rels[j].relation != ra.relation
      {
        i := i + 1;
      }
      if i == |rels| {
        NoFirstRelation(rels, ra.relation);
        return Some(UnknownRelation);
      }
      FirstRelationAt(rels, ra.relation, i);
      assert rels[i] in rels;
      if ra.actionName == "" {
        return None;
      }
      var targets := rels[i].types;
      for j := 0 to |targets|
        invariant forall t :: t in targets[..j] ==> Binds(bn, t.name, ra.actionName)
      {
        assert Indexed(rb, targets[j].name, ra.actionName) <==> Binds(bn, targets[j].name, ra.actionName);
        if targets[j].name !in rb || ra.actionName !in rb[targets[j].name] {
          assert targets[j] in targets;
          return Some(UnknownAction);
        }
      }
      return None;
    }

    method ValidateConditions(rels: seq<Relationship>, conds: seq<Condition>) returns (err: Option<Cause>)
      requires BindTable(rb, bn)
      ensures err.None? <==> forall c :: c in conds ==> ConditionAccepted(rels, bn, c)
      ensures err.None? <==> forall c :: c in conds ==>
        || (c.roleBinding && !c.roleBindingV2 && c.relationshipAction.None?)
        || (!c.roleBinding && c.roleBindingV2 && c.relationshipAction.None?)
        || (!c.roleBinding && !c.roleBindingV2 && c.relationshipAction.Some? &&
             RelationshipActionAccepted(rels, bn, c.relationshipAction.value))
    {
      for i := 0 to |conds|
        invariant forall c :: c in conds[..i] ==> ConditionAccepted(rels, bn, c)
      {
        var c := conds[i];
        assert c in conds;
        var clauses := 0;
        if c.roleBinding { clauses := clauses + 1; }
        if c.roleBindingV2 { clauses := clauses + 1; }
        if c.relationshipAction.Some? { clauses := clauses + 1; }
        if clauses != 1 {
          return Some(InvalidCondition);
        }
        if c.relationshipAction.Some? {
          err := ValidateConditionRelationshipAction(rels, c.relationshipAction.value);
          if err.Some? {
            return;
          }
        }
      }
      return None;
    }

    method ValidateActionBindings() returns (err: Option<Cause>)
      requires BindTable(rb, bn)
      ensures err.None? <==> BindingsAccepted(rt, ac, bn)
      ensures err.None? <==>
        && (forall i, j :: 0 <= i < j < |bn| ==>
          bn[i].actionName != bn[j].actionName || bn[i].typeName != bn[j].typeName)
        && forall b :: b in bn ==>
             && b.actionName != "" && b.typeName != "" && b.actionName in ac && b.typeName in rt
             && forall c :: c in b.conditions ==> ConditionAccepted(rt[b.typeName].relationships, bn, c)
    {
      var seen: set<(string, string)> := {};
      for i := 0 to |bn|
        invariant seen == set b | b in bn[..i] :: (b.actionName, b.typeName)
        invariant DistinctBindings(bn[..i])
        invariant forall b :: b in bn[..i] ==> BindingAccepted(rt, ac, bn, b)
      {
        var b := bn[i];
        assert b in bn;
        if b.actionName == "" {
          return Some(UnknownAction);
        }
        if b.typeName == "" {
          return Some(UnknownType);
        }
        if (b.actionName, b.typeName) in seen {
          var k :| k in bn[..i] && (k.actionName, k.typeName) == (b.actionName, b.typeName);
          return Some(ActionBindingExists);
        }
        seen := seen + {(b.actionName, b.typeName)};
        if b.actionName !in ac {
          return Some(UnknownAction);
        }
        if b.typeName !in rt {
          return Some(UnknownType);
        }
        err := ValidateConditions(rt[b.typeName].relationships, b.conditions);
        if err.Some? {
          return;
        }
        DistinctGrows(bn, i);
      }
      assert bn[..|bn|] == bn;
      return None;
    }

    method ValidateRoles() returns (err: Option<Cause>)
      ensures err.None? <==> RolesAccepted(p, rt)
      ensures err.None? <==> p.rbac.None? || forall o :: o in p.rbac.value.roleOwners ==> o in rt
      ensures err.Some? ==> err.value == UnknownType
    {
      if p.rbac.None? {
        return None;
      }
      var owners := p.rbac.value.roleOwners;
      for i := 0 to |owners|
        invariant forall o :: o in owners[..i] ==> o in rt
      {
        if owners[i] !in rt {
          return Some(UnknownType);
        }
      }
      return None;
    }

    /** Accepts exactly the policies Accepted describes; an error names the first failing stage.
        validPrefix stands for the ID library's check of a prefix. */
    method Validate(validPrefix: string -> bool) returns (err: Option<PolicyError>)
      requires Compiled()
      ensures err.None? <==> Accepted(p, rt, bn, validPrefix)
      ensures err.None? <==>
        && UnionsAccepted(p, rt) && TypesAccepted(rt, bn, validPrefix)
        && BindingsAccepted(rt, ac, bn) && RolesAccepted(p, rt)
      ensures err.Some? ==>
        match err.value
        case UnionError(_) => !UnionsAccepted(p, rt)
        case ResourceTypeError(_) => UnionsAccepted(p, rt) && !TypesAccepted(rt, bn, validPrefix)
        case ActionBindingError(_) => UnionsAccepted(p, rt) && TypesAccepted(rt, bn, validPrefix) &&
          !BindingsAccepted(rt, ac, bn)
        case RoleError(_) => BindingsAccepted(rt, ac, bn) && !RolesAccepted(p, rt)
    {
      var cause := ValidateUnions();
      if cause.Some? {
        return Some(UnionError(cause.value));
      }
      cause := ValidateResourceTypes(validPrefix);
      if cause.Some? {
        return Some(ResourceTypeError(cause.value));
      }
      cause := ValidateActionBindings();
      if cause.Some? {
        return Some(ActionBindingError(cause.value));
      }
      cause := ValidateRoles();
      if cause.Some? {
        return Some(RoleError(cause.value));
      }
      return None;
    }

    // ---------- emission ----------

    /** One definition per type.  A binding on an unknown type would be a nil dereference:
        the requires is what Validate guarantees. */
    method Schema() returns (out: seq<Definition>)
      requires forall n :: n in rt ==> rt[n].name == n
      requires forall b :: b in bn ==> b.typeName in rt
      ensures |out| == |rt|
      ensures forall n :: n in rt ==> EmittedSchema(rt, bn)[n] in out
      ensures forall d :: d in out ==> d.name in rt && d == EmittedSchema(rt, bn)[d.name]
    {
      var typeMap := DeclareDefinitions();
      var v2Actions: map<string, seq<Action>> := map[];
      for i := 0 to |bn|
        invariant Emitting(rt, typeMap, v2Actions, bn[..i])
      {
        typeMap, v2Actions := EmitBinding(i, typeMap, v2Actions);
      }
      assert bn[..|bn|] == bn;
      typeMap := AppendV2Actions(typeMap, v2Actions);
      assert |typeMap| == |typeMap.Keys| == |rt.Keys| == |rt|;
      out := Collect(typeMap);
    }

    method DeclareDefinitions() returns (typeMap: map<string, Definition>)
      ensures Emitting(rt, typeMap, map[], [])
    {
      typeMap := map[];
      var rest := rt.Keys;
      while rest != {}
        invariant rest <= rt.Keys && typeMap.Keys == rt.Keys - rest
        invariant forall n :: n in typeMap ==>
          typeMap[n] == Definition(rt[n].name, rt[n].idPrefix, rt[n].relationships, [])
        decreases rest
      {
        var n :| n in rest;
        var rels: seq<Relationship> := [];
        for i := 0 to |rt[n].relationships|
          invariant rels == rt[n].relationships[..i]
        {
          rels := rels + [rt[n].relationships[i]];
        }
        typeMap := typeMap[n := Definition(rt[n].name, rt[n].idPrefix, rels, [])];
        rest := rest - {n};
      }
    }

    /** The body of Schema's loop over the bindings. */
    method EmitBinding(i: nat, defs: map<string, Definition>, v2: map<string, seq<Action>>)
      returns (typeMap: map<string, Definition>, v2Actions: map<string, seq<Action>>)
      requires i < |bn| && bn[i].typeName in rt
      requires Emitting(rt, defs, v2, bn[..i])
      ensures Emitting(rt, typeMap, v2Actions, bn[..i + 1])
    {
      var b := bn[i];
      var t := rt[b.typeName];
      var conditions, rels, triggers := EmitConditions(t, b);
      typeMap, v2Actions := defs, v2;
      if triggers && b.typeName !in v2Actions {
        var actions := CreateRoleBindingActionsForResource(t.roleBindingV2.value.inheritPermissionsFrom);
        v2Actions := v2Actions[b.typeName := actions];
      }
      var d := typeMap[b.typeName];
      typeMap := typeMap[b.typeName := d.(
        relationships := d.relationships + rels,
        actions := d.actions + [Action(b.actionName, conditions, b.conditionSets)])];
      EmittingGrows(rt, bn, i, defs, v2);
    }

    static method EmitConditions(t: ResourceType, b: ActionBinding)
      returns (conditions: seq<Condition>, rels: seq<Relationship>, triggers: bool)
      ensures conditions == CompileConditions(t, b.actionName, b.conditions)
      ensures rels == V1Relations(b.actionName, b.conditions)
      ensures triggers <==> exists c :: c in b.conditions && TriggersV2(t, c)
    {
      conditions, rels, triggers := [], [], false;
      ghost var done: seq<Condition> := [];
      for j := 0 to |b.conditions|
        invariant done == b.conditions[..j]
        invariant conditions == CompileConditions(t, b.actionName, done)
        invariant rels == V1Relations(b.actionName, done)
        invariant triggers <==> AnyTriggers(t, done)
      {
        var c := b.conditions[j];
        ConditionsGrow(t, b.actionName, done, c);
        done := done + [c];
        var clauses := EmitCondition(t, b.actionName, c);
        conditions := conditions + clauses;
        if c.roleBinding {
          rels := rels + [V1Relation(b.actionName)];
        } else if c.roleBindingV2 && t.roleBindingV2.Some? {
          triggers := true;
        }
      }
      assert done == b.conditions;
    }

    /** The clauses of one condition: V1, V2, or as the document has it. */
    static method EmitCondition(t: ResourceType, action: string, c: Condition) returns (clauses: seq<Condition>)
      ensures clauses == CompileCondition(t, action, c)
    {
      if c.roleBinding {
        clauses := [Condition(true, false, Some(RelationshipAction(action + PERMISSION_SUFFIX, "")))];
      } else if c.roleBindingV2 && t.roleBindingV2.Some? {
        if t.roleBindingV2.value.inheritAllActions {
          clauses := CreateRoleBindingConditionsForAction(action, t.roleBindingV2.value.inheritPermissionsFrom);
        } else {
          clauses := CreateRoleBindingConditionsForAction(action, []);
        }
      } else {
        clauses := [Condition(false, false, c.relationshipAction)];
      }
    }

    method AppendV2Actions(defs: map<string, Definition>, v2: map<string, seq<Action>>)
      returns (typeMap: map<string, Definition>)
      requires Emitting(rt, defs, v2, bn)
      ensures typeMap == EmittedSchema(rt, bn)
    {
      typeMap := defs;
      var rest := v2.Keys;
      while rest != {}
        invariant rest <= v2.Keys && typeMap.Keys == rt.Keys
        invariant forall n :: n in rt && n !in v2.Keys - rest ==> typeMap[n] == defs[n]
        invariant forall n :: n in v2.Keys - rest ==> typeMap[n] == EmittedDefinition(rt[n], bn, n)
        decreases rest
      {
        var n :| n in rest;
        typeMap := typeMap[n := typeMap[n].(actions := typeMap[n].actions + v2[n])];
        rest := rest - {n};
      }
      forall n | n in rt
        ensures typeMap[n] == EmittedDefinition(rt[n], bn, n)
      {
        assert defs[n].actions + [] == defs[n].actions;
      }
    }

    static method Collect(typeMap: map<string, Definition>) returns (out: seq<Definition>)
      requires forall n :: n in typeMap ==> typeMap[n].name == n
      ensures |out| == |typeMap|
      ensures forall n :: n in typeMap ==> typeMap[n] in out
      ensures forall d :: d in out ==> d.name in typeMap && d == typeMap[d.name]
    {
      out := [];
      var rest := typeMap.Keys;
      while rest != {}
        invariant rest <= typeMap.Keys && |out| == |typeMap.Keys - rest|
        invariant forall n :: n in typeMap.Keys - rest ==> typeMap[n] in out
        invariant forall d :: d in out ==> d.name in typeMap && d == typeMap[d.name]
        decreases rest
      {
        var n :| n in rest;
        assert typeMap.Keys - (rest - {n}) == typeMap.Keys - rest + {n};
        out := out + [typeMap[n]];
        rest := rest - {n};
      }
      assert typeMap.Keys - rest == typeMap.Keys;
    }
  }

  /** All types but the rest have gained what they gain. */
  ghost predicate AugmentedBut(r: RBAC, before: TypeMap, after: TypeMap, rest: set<string>) {
    && after.Keys == before.Keys
    && forall n :: n in before ==> after[n] == if n in rest then before[n] else WithMemberRole(r, n, before[n])
  }

  lemma AugmentNext(r: RBAC, before: TypeMap, after: TypeMap, rest: set<string>, name: string)
    requires AugmentedBut(r, before, after, rest) && name in rest && name in before
    ensures after[name] == before[name]
    ensures AugmentedBut(r, before, after[name := WithMemberRole(r, name, before[name])], rest - {name})
  {
  }

  lemma AvailableRolesBindingsGrow(r: RBAC, types: TypeMap, order: seq<string>, n: string)
    requires n in types && forall m :: m in order ==> m in types
    ensures AvailableRolesBindings(r, types, order + [n]) ==
      AvailableRolesBindings(r, types, order) + AvailableRolesBinding(r, n, types[n])
  {
    assert (order + [n])[..|order|] == order;
  }

  lemma {:induction false} FirstRelationAt(rels: seq<Relationship>, name: string, i: nat)
    requires i < |rels| && rels[i].relation == name && forall j :: 0 <= j < i ==> rels[j].relation != name
    ensures FirstRelation(rels, name) == Some(rels[i])
  {
    if i > 0 {
      FirstRelationAt(rels[1..], name, i - 1);
    }
  }

  lemma {:induction false} NoFirstRelation(rels: seq<Relationship>, name: string)
    requires forall j :: 0 <= j < |rels| ==> rels[j].relation != name
    ensures FirstRelation(rels, name) == None
  {
    if rels != [] {
      NoFirstRelation(rels[1..], name);
    }
  }

  lemma BindTableGrows(rb: map<string, set<string>>, bn: seq<ActionBinding>, i: nat)
    requires i < |bn| && BindTable(rb, bn[..i])
    ensures
      var b := bn[i];
      BindTable(rb[b.typeName := (if b.typeName in rb then rb[b.typeName] else {}) + {b.actionName}], bn[..i + 1])
  {
    var b := bn[i];
    var rb' := rb[b.typeName := (if b.typeName in rb then rb[b.typeName] else {}) + {b.actionName}];
    assert bn[..i + 1] == bn[..i] + [b];
    forall t, a
      ensures Indexed(rb', t, a) <==> Binds(bn[..i + 1], t, a)
    {
      assert Binds(bn[..i + 1], t, a) <==> Binds(bn[..i], t, a) || (b.typeName == t && b.actionName == a) by {
        assert b in bn[..i + 1];
      }
      assert Indexed(rb, t, a) <==> Binds(bn[..i], t, a);
    }
  }

  lemma ExpandBindingsGrows(un: UnionMap, bs: seq<ActionBinding>, i: nat)
    requires i < |bs|
    ensures ExpandBindings(un, bs[..i + 1]) == ExpandBindings(un, bs[..i]) + ExpandBinding(un, bs[i])
  {
    assert bs[..i + 1][..i] == bs[..i];
  }

  lemma TypesAreCompiled(p: PolicyDocument, order: seq<string>, augmented: TypeMap, rt: TypeMap)
    requires augmented == AugmentedTypes(p, order)
    requires rt == map n | n in augmented :: ExpandType(UnionTable(p.unions), augmented[n])
    ensures rt == CompiledTypes(p, order)
  {
  }

  lemma DistinctGrows(bn: seq<ActionBinding>, i: nat)
    requires i < |bn| && DistinctBindings(bn[..i])
    requires (bn[i].actionName, bn[i].typeName) !in set b | b in bn[..i] :: (b.actionName, b.typeName)
    ensures DistinctBindings(bn[..i + 1])
  {
    forall j | 0 <= j < i
      ensures bn[j].actionName != bn[i].actionName || bn[j].typeName != bn[i].typeName
    {
      assert bn[j] in bn[..i];
    }
  }

  /** typeMap and v2Actions after the bindings bs. */
  ghost predicate Emitting(rt: TypeMap, typeMap: map<string, Definition>, v2Actions: map<string, seq<Action>>,
    bs: seq<ActionBinding>) {
    && typeMap.Keys == rt.Keys
    && v2Actions.Keys <= rt.Keys
    && forall n :: n in rt ==> EmittingAt(rt, typeMap, v2Actions, bs, n)
  }

  ghost predicate EmittingAt(rt: TypeMap, typeMap: map<string, Definition>, v2Actions: map<string, seq<Action>>,
    bs: seq<ActionBinding>, n: string)
    requires n in rt && n in typeMap
  {
    && typeMap[n] == EmittedSoFar(rt[n], bs, n)
    && (n in v2Actions <==> UsesV2(rt[n], bs, n))
    && (n in v2Actions ==> v2Actions[n] == RoleBindingActionsFor(InheritsFrom(rt[n])))
  }

  lemma EmittingGrows(rt: TypeMap, bn: seq<ActionBinding>, i: nat, defs: map<string, Definition>, v2: map<string,
    seq<Action>>)
    requires i < |bn| && bn[i].typeName in rt && Emitting(rt, defs, v2, bn[..i])
    ensures
      var b := bn[i];
      var t := rt[b.typeName];
      var d := defs[b.typeName];
      Emitting(
        rt,
        defs[b.typeName := d.(
          relationships := d.relationships + V1Relations(b.actionName, b.conditions),
          actions := d.actions + [CompileBinding(t, b)])],
        if (exists c :: c in b.conditions && TriggersV2(t, c)) && b.typeName !in v2
        then v2[b.typeName := RoleBindingActionsFor(InheritsFrom(t))] else v2,
        bn[..i + 1])
  {
    forall n | n in rt
      ensures UsesV2(rt[n], bn[..i + 1], n) <==>
        UsesV2(rt[n], bn[..i], n) || (n == bn[i].typeName && AnyTriggers(rt[n], bn[i].conditions))
    {
      UsesV2Grows(rt[n], bn, i, n);
    }
    forall n | n in rt
      ensures n != bn[i].typeName ==> EmittedSoFar(rt[n], bn[..i + 1], n) == EmittedSoFar(rt[n], bn[..i], n)
    {
      EmittedGrows(rt[n], bn, i, n);
    }
    EmittedGrows(rt[bn[i].typeName], bn, i, bn[i].typeName);
  }

  lemma EmittedGrows(t: ResourceType, bn: seq<ActionBinding>, i: nat, n: string)
    requires i < |bn|
    ensures n != bn[i].typeName ==> EmittedSoFar(t, bn[..i + 1], n) == EmittedSoFar(t, bn[..i], n)
    ensures n == bn[i].typeName ==>
      var b, d := bn[i], EmittedSoFar(t, bn[..i], n);
      EmittedSoFar(t, bn[..i + 1], n) == d.(
        relationships := d.relationships + V1Relations(b.actionName, b.conditions),
        actions := d.actions + [CompileBinding(t, b)])
  {
    assert bn[..i + 1][..i] == bn[..i];
  }

  ghost predicate AnyTriggers(t: ResourceType, cs: seq<Condition>) {
    exists c :: c in cs && TriggersV2(t, c)
  }

  lemma ConditionsGrow(t: ResourceType, action: string, cs: seq<Condition>, c: Condition)
    ensures CompileConditions(t, action, cs + [c]) == CompileConditions(t, action, cs) + CompileCondition(t, action, c)
    ensures V1Relations(action, cs + [c]) ==
      V1Relations(action, cs) + (if c.roleBinding then [V1Relation(action)] else [])
    ensures AnyTriggers(t, cs + [c]) <==> AnyTriggers(t, cs) || TriggersV2(t, c)
  {
    var longer := cs + [c];
    assert longer[|cs|] == c;
    assert longer[..|longer| - 1] == cs && longer[|longer| - 1] == c;
  }

  lemma UsesV2Grows(t: ResourceType, bn: seq<ActionBinding>, i: nat, n: string)
    requires i < |bn|
    ensures UsesV2(t, bn[..i + 1], n) <==>
      UsesV2(t, bn[..i], n) || (n == bn[i].typeName && exists c :: c in bn[i].conditions && TriggersV2(t, c))
  {
    assert bn[..i + 1] == bn[..i] + [bn[i]];
    if n == bn[i].typeName && exists c :: c in bn[i].conditions && TriggersV2(t, c) {
      var c :| c in bn[i].conditions && TriggersV2(t, c);
      assert bn[i] in bn[..i + 1];
    }
  }
}
