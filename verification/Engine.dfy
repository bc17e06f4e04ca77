/** The role and role-binding operations of the engine (internal/query/roles_v2.go,
    rolebindings.go), step by step: a transaction over the rows, one relationship write, and
    compensating writes.  Any set of external calls may fail; every operation is proved to be
    one step of TwoStores. */
module Engine {
  import opened Types
  import opened Rbac
  import opened Permissions
  import opened Relations
  import opened TwoStores

  /** The external calls of one operation.  ParseId reads an ID from its text, ResolveId finds the
      resource type that an ID belongs to. */
  datatype Call =
    | NewId | CheckPermission | FindRow | BeginTx | LockRow | ParseId | ResolveId | ReadFrom | ReadTo
    | WriteRow | WriteRels | DeleteFrom | DeleteTo | CommitTx

  datatype Role = Role(id: string, row: RoleRow, actions: seq<string>)
  datatype RoleBinding = RoleBinding(id: string, row: BindingRow, role: string, subjects: seq<Object>)

  /** Nothing: an empty value and no error. */
  datatype Reply<T> = Reply(value: T) | Nothing | Failed

  datatype Rows = Rows(roles: map<string, RoleRow>, bindings: map<string, BindingRow>)

  /** A transaction sees and changes its own copy of the rows; a finished one cannot commit. */
  datatype Tx = Open(rows: Rows) | Finished

  // ---------- relationship lists ----------

  /** A read returns the matching relationships in an order of the store's choosing. */
  method Read(g: Graph) returns (ts: seq<Tuple>)
    ensures Elements(ts) == g && |ts| == |g| && forall i, j :: 0 <= i < j < |ts| ==> ts[i] != ts[j]
  {
    ts := [];
    var rest := g;
    while rest != {}
      invariant Elements(ts) + rest == g && Elements(ts) !! rest
      invariant |ts| + |rest| == |g| && forall i, j :: 0 <= i < j < |ts| ==> ts[i] != ts[j]
      decreases rest
    {
      var t :| t in rest;
      assert Elements(ts + [t]) == Elements(ts) + {t};
      assert forall i :: 0 <= i < |ts| ==> ts[i] in Elements(ts);
      ts, rest := ts + [t], rest - {t};
    }
  }

  /** role#action_rel@type:* for each subject type. */
  method ActionUpdates(sys: System, role: string, action: string, op: Operation) returns (us: seq<Update>)
    ensures AllOf(op, us) && TuplesOf(us) == sys.PermissionTuples(role, {action})
    ensures |us| == |sys.r.roleSubjectTypes| && forall i :: 0 <= i < |us| ==>
      us[i].tuple == Tuple(Object(sys.r.roleResource.name, role), action + "_rel",
        Subject(Object(sys.r.roleSubjectTypes[i], "*"), ""))
  {
    var types := sys.r.roleSubjectTypes;
    us := [];
    for i := 0 to |types|
      invariant |us| == i
      invariant forall k :: 0 <= k < i ==>
        us[k] == Update(op, Tuple(sys.Role(role), ActionToRelation(action), Subject(Object(types[k], "*"), "")))
    {
      us := us + [Update(op, Tuple(sys.Role(role), ActionToRelation(action), Subject(Object(types[i], "*"), "")))];
    }
    forall t | t in sys.PermissionTuples(role, {action})
      ensures t in TuplesOf(us)
    {
      var k :|
        0 <= k < |types| && t == Tuple(sys.Role(role), ActionToRelation(action), Subject(Object(types[k], "*"), ""));
      assert us[k] in us;
    }
  }

  method ActionsUpdates(sys: System, role: string, actions: seq<string>, op: Operation) returns (us: seq<Update>)
    ensures AllOf(op, us) && TuplesOf(us) == sys.PermissionTuples(role, Elements(actions))
  {
    us := [];
    for i := 0 to |actions|
      invariant AllOf(op, us) && TuplesOf(us) == sys.PermissionTuples(role, Elements(actions[..i]))
    {
      var more := ActionUpdates(sys, role, actions[i], op);
      assert TuplesOf(us + more) == TuplesOf(us) + TuplesOf(more);
      assert Elements(actions[..i + 1]) == Elements(actions[..i]) + {actions[i]};
      us := us + more;
    }
    assert actions[..|actions|] == actions;
  }

  method RoleRelationships(sys: System, role: string, owner: Object, actions: seq<string>) returns (us: seq<Update>)
    ensures AllOf(Touch, us) && TuplesOf(us) == sys.RoleTuples(role, owner, actions)
    ensures forall t :: t in TuplesOf(us) <==> IsRoleTuple(sys.r, role, owner, actions, t)
  {
    var permissions := ActionsUpdates(sys, role, actions, Touch);
    var ownerRels := [Update(Touch, sys.OwnerTuple(role, owner)), Update(Touch, sys.MemberTuple(role, owner))];
    us := permissions + ownerRels;
    assert TuplesOf(ownerRels) == {sys.OwnerTuple(role, owner), sys.MemberTuple(role, owner)};
    assert TuplesOf(us) == TuplesOf(permissions) + TuplesOf(ownerRels);
    WrittenRole(sys, {}, role, owner, actions);
    assert {} + TuplesOf(us) == TuplesOf(us);
  }

  /** The subject relationships of a binding, or None if some subject has a type that may not be bound. */
  method SubjectUpdates(sys: System, binding: string, subjects: seq<Object>, op: Operation)
    returns (us: Option<seq<Update>>)
    ensures us.Some? <==> forall x :: x in subjects ==> sys.ValidSubject(x)
    ensures us.Some? ==> AllOf(op, us.value) && TuplesOf(us.value) == sys.SubjectTuples(binding, subjects)
    ensures us.Some? <==> forall x :: x in subjects ==> exists t :: t in sys.r.roleBindingSubjects && t.name == x.typ
    ensures us.Some? ==> forall t :: t in TuplesOf(us.value) <==>
      exists x :: x in subjects && IsSubjectTuple(sys.r, binding, x, t)
  {
    SubjectsBindable(sys, subjects);
    var built: seq<Update> := [];
    for i := 0 to |subjects|
      invariant forall x :: x in subjects[..i] ==> sys.ValidSubject(x)
      invariant AllOf(op, built) && TuplesOf(built) == sys.SubjectTuples(binding, subjects[..i])
    {
      if !sys.ValidSubject(subjects[i]) {
        return None;
      }
      assert subjects[..i + 1] == subjects[..i] + [subjects[i]];
      var u := Update(op, sys.SubjectTuple(binding, subjects[i]));
      assert TuplesOf(built + [u]) == TuplesOf(built) + {u.tuple};
      built := built + [u];
    }
    assert subjects[..|subjects|] == subjects;
    SubjectTuplesMean(sys, binding, subjects);
    us := Some(built);
  }

  method DeleteUpdates(ts: seq<Tuple>) returns (us: seq<Update>)
    ensures AllOf(Delete, us) && TuplesOf(us) == Elements(ts)
  {
    us := [];
    for i := 0 to |ts|
      invariant AllOf(Delete, us) && TuplesOf(us) == Elements(ts[..i])
    {
      assert ts[..i + 1] == ts[..i] + [ts[i]];
      assert TuplesOf(us + [Update(Delete, ts[i])]) == TuplesOf(us) + {ts[i]};
      us := us + [Update(Delete, ts[i])];
    }
    assert ts[..|ts|] == ts;
  }

  // ---------- filters ----------

  /** The role relationships of bindings to the role. */
  function BindingsTo(sys: System, g: Graph, role: string): Graph {
    set t | t in g && t.res.typ == sys.r.roleBindingResource.name && t.relation == ROLE_RELATION
      && t.subj.obj == sys.Role(role)
  }

  /** The grants on the resource. */
  function GrantsOn(sys: System, g: Graph, resource: Object): Graph {
    set t | t in g && t.res == resource && t.relation == GRANT_RELATION
      && t.subj.obj.typ == sys.r.roleBindingResource.name
  }

  /** The grants of the binding on resources of the type. */
  function GrantsTo(sys: System, g: Graph, typ: string, binding: string): Graph {
    set t | t in g && t.res.typ == typ && t.relation == GRANT_RELATION && t.subj.obj == sys.Binding(binding)
  }

  // ---------- what is read back ----------

  function StoredSubjects(sys: System, g: Graph, binding: string): set<Object> {
    set t | t in SubjectsOf(sys, g, binding) :: t.subj.obj
  }

  /** The actions of a role, one per wildcard of its first subject type; RelationToAction never panics. */
  method ListRoleActions(sys: System, g: Graph, role: string) returns (actions: seq<string>)
    requires Readable(sys, g, role)
    ensures sys.ReadActions(g, role) == Readings(actions)
  {
    if |sys.r.roleSubjectTypes| == 0 {
      return [];
    }
    var wildcards := set t | t in g && t.res == sys.Role(role) && t.subj.obj == Object(sys.r.roleSubjectTypes[0], "*");
    var ts := Read(wildcards);
    actions := [];
    for i := 0 to |ts|
      invariant Readings(actions) == set t | t in ts[..i] :: RelationToAction(t.relation)
    {
      assert ts[i] in Elements(ts);
      assert ts[..i + 1] == ts[..i] + [ts[i]];
      var action := RelationToAction(ts[i].relation).value;
      assert Readings(actions + [action]) == Readings(actions) + {Some(action)};
      actions := actions + [action];
    }
    assert ts[..|ts|] == ts;
    assert forall t :: t in ts <==> t in Elements(ts);
  }

  /** Every relationship of the binding is read: the subjects, and the role they share. */
  method ReadBinding(sys: System, g: Graph, binding: string, row: BindingRow) returns (rb: Option<RoleBinding>)
    requires ROLE_RELATION != SUBJECT_RELATION
    requires forall t :: t in g && t.res == sys.Binding(binding) ==> t.relation in {ROLE_RELATION, SUBJECT_RELATION}
    ensures rb.None? <==> forall t :: t in g ==> t.res != sys.Binding(binding)
    ensures rb.Some? ==> rb.value.id == binding && rb.value.row == row
    ensures rb.Some? ==> Elements(rb.value.subjects) == StoredSubjects(sys, g, binding)
    ensures rb.Some? ==> forall role: string :: RolesAre(sys, g, binding, role) ==> rb.value.role == role
  {
    var found := set t | t in g && t.res == sys.Binding(binding);
    var ts := Read(found);
    if |ts| < 1 {
      assert found == {};
      assert forall t :: t in g && t.res == sys.Binding(binding) ==> t in found;
      return None;
    }
    assert ts[0] in Elements(ts);
    var role := "";
    var subjects: seq<Object> := [];
    for i := 0 to |ts|
      invariant Elements(subjects) == set t | t in ts[..i] && t.relation == SUBJECT_RELATION :: t.subj.obj
      invariant (exists t :: t in ts[..i] && t.relation == ROLE_RELATION) ==>
        forall r: string :: RolesAre(sys, g, binding, r) ==> role == r
    {
      assert ts[i] in Elements(ts);
      assert ts[..i + 1] == ts[..i] + [ts[i]];
      if ts[i].relation == SUBJECT_RELATION {
        assert Elements(subjects + [ts[i].subj.obj]) == Elements(subjects) + {ts[i].subj.obj};
        subjects := subjects + [ts[i].subj.obj];
      } else {
        role := ts[i].subj.obj.id;
      }
    }
    assert ts[..|ts|] == ts;
    assert forall t :: t in ts <==> t in Elements(ts);
    forall r: string | RolesAre(sys, g, binding, r)
      ensures role == r
    {
      assert sys.RoleTuple(binding, r) in ts;
    }
    rb := Some(RoleBinding(binding, row, role, subjects));
  }

  /** The binding has this role and no other. */
  ghost predicate RolesAre(sys: System, g: Graph, binding: string, role: string) {
    && sys.RoleTuple(binding, role) in g
    && forall t :: t in g && t.res == sys.Binding(binding) && t.relation == ROLE_RELATION ==>
      t == sys.RoleTuple(binding, role)
  }

  // ---------- facts about consistent stores ----------

  lemma BindingRelationships(sys: System, s: Stores, binding: string)
    requires Consistent(sys, s) && ROLE_RELATION != SUBJECT_RELATION
    ensures forall t :: t in s.rels && t.res == sys.Binding(binding) ==> t.relation in {ROLE_RELATION, SUBJECT_RELATION}
    ensures forall x :: x in StoredSubjects(sys, s.rels, binding) ==> sys.ValidSubject(x)
    ensures forall t :: t in SubjectsOf(sys, s.rels, binding) ==>
      sys.ValidSubject(t.subj.obj) && t == sys.SubjectTuple(binding, t.subj.obj)
    ensures binding in s.bindings ==> exists role :: role in s.roles && RolesAre(sys, s.rels, binding, role)
  {
    forall t | t in s.rels && t.res == sys.Binding(binding)
      ensures FromBindingOk(sys, s, t)
    {
      assert TupleOk(sys, s, t);
    }
    if binding in s.bindings {
      assert BindingOk(sys, s, binding);
      var role :| HasRole(sys, s, binding, role);
      assert RolesAre(sys, s.rels, binding, role);
    }
  }

  lemma RoleRelationsReadBack(sys: System, s: Stores, role: string)
    requires Consistent(sys, s)
    ensures Readable(sys, s.rels, role)
  {
    forall t | t in s.rels && t.res == sys.Role(role) && t.subj.obj.id == "*"
      ensures RelationToAction(t.relation).Some?
    {
      assert TupleOk(sys, s, t);
      var a :| t.relation == ActionToRelation(a);
      ActionReadsBack(a);
    }
  }

  /** Consistent stores meet the requirements of every operation; so, by StepKeepsConsistent,
      they keep meeting them along every run. */
  lemma ConsistentStoresServe(sys: System, s: Stores)
    requires sys.Sound() && Consistent(sys, s)
    ensures forall role :: Readable(sys, s.rels, role)
    ensures forall id :: BindingReadable(sys, s.rels, id)
    ensures forall id :: id !in s.usedBindings ==> Fresh(sys, s.rels, id)
    ensures forall id :: id in s.bindings ==> OnlyGrant(sys, s.rels, id, s.bindings[id].resource)
    ensures Listable(sys, s)
  {
    forall role
      ensures Readable(sys, s.rels, role)
    {
      RoleRelationsReadBack(sys, s, role);
    }
    forall id
      ensures BindingReadable(sys, s.rels, id)
      ensures id in s.bindings ==> exists role :: RolesAre(sys, s.rels, id, role)
    {
      BindingRelationships(sys, s, id);
    }
    GrantsAreExact(sys, s);
  }

  lemma GrantsAreExact(sys: System, s: Stores)
    requires Consistent(sys, s)
    ensures forall t :: t in s.rels && t.subj.obj.typ == sys.r.roleBindingResource.name ==>
      t.subj.obj.id in s.bindings && t == sys.GrantTuple(t.subj.obj.id, s.bindings[t.subj.obj.id].resource)
    ensures forall id :: id in s.bindings ==> sys.GrantTuple(id, s.bindings[id].resource) in s.rels
    ensures forall id :: id !in s.usedBindings ==> Fresh(sys, s.rels, id)
  {
    forall t | t in s.rels
      ensures t.subj.obj.typ == sys.r.roleBindingResource.name ==> ToBindingOk(sys, s, t)
      ensures t.res.typ == sys.r.roleBindingResource.name ==> t.res.id in s.bindings
    {
      assert TupleOk(sys, s, t);
    }
    forall id | id in s.bindings
      ensures sys.GrantTuple(id, s.bindings[id].resource) in s.rels
    {
      assert BindingOk(sys, s, id);
    }
  }

  class Engine {
    const sys: System

    // the committed rows
    var roles: map<string, RoleRow>
    var bindings: map<string, BindingRow>
    // the relationship store
    var rels: Graph
    // every ID handed out so far
    ghost var usedRoles: set<string>
    ghost var usedBindings: set<string>

    ghost function State(): Stores
      reads this
    {
      Stores(roles, bindings, rels, usedRoles, usedBindings)
    }

    constructor (sys: System)
      ensures this.sys == sys
      ensures State() == Stores(map[], map[], {}, {}, {})
    {
      this.sys := sys;
      roles, bindings, rels := map[], map[], {};
      usedRoles, usedBindings := {}, {};
    }

    method Commit(tx: Tx, fails: set<Call>) returns (ok: bool)
      modifies this`roles, this`bindings
      ensures ok <==> tx.Open? && CommitTx !in fails
      ensures ok ==> roles == tx.rows.roles && bindings == tx.rows.bindings
      ensures !ok ==> roles == old(roles) && bindings == old(bindings)
    {
      ok := tx.Open? && CommitTx !in fails;
      if ok {
        roles, bindings := tx.rows.roles, tx.rows.bindings;
      }
    }

    /** The relationship store applies a list of updates at once. */
    method Write(us: seq<Update>)
      modifies this`rels
      ensures rels == Apply(old(rels), us)
    {
      rels := Apply(rels, us);
    }

    /** The compensating write. */
    method RollbackWrites(us: seq<Update>)
      modifies this`rels
      ensures rels == Apply(old(rels), Compensation(us))
    {
      var rollbacks := RollbackUpdates(us);
      Write(rollbacks);
    }

    // ---------- roles ----------

    method CreateRoleV2(id: string, owner: Object, manager: string, name: string, actions: seq<string>,
      fails: set<Call>)
      returns (reply: Reply<Role>, outcome: Outcome)
      requires id !in usedRoles && id != "*"
      modifies this
      ensures RoleCreated(sys, old(State()), id, RoleRow(name, manager, owner), actions, outcome, State())
      ensures outcome.Done? <==> {NewId, ResolveId, BeginTx, WriteRow, WriteRels, CommitTx} !! fails
      ensures outcome.Unfinished? <==>
        {NewId, ResolveId, BeginTx, WriteRow, WriteRels} !! fails && CommitTx in fails
      ensures bindings == old(bindings)
      ensures roles == if outcome.Done? then old(roles)[id := RoleRow(name, manager, owner)] else old(roles)
      ensures outcome.Refused? ==> rels == old(rels)
      ensures !outcome.Refused? ==> forall t :: t in rels <==>
        t in old(rels) || IsRoleTuple(sys.r, id, owner, actions, t)
      ensures reply == if outcome.Done? then Reply(Role(id, RoleRow(name, manager, owner), actions))
        else if {NewId, ResolveId} !! fails && BeginTx in fails then Nothing else Failed
    {
      var row := RoleRow(name, manager, owner);
      usedRoles := usedRoles + {id};
      if NewId in fails || ResolveId in fails {
        return Failed, Refused;
      }
      var updates := RoleRelationships(sys, id, owner, actions);
      if BeginTx in fails {
        return Nothing, Refused;
      }
      if WriteRow in fails {
        return Failed, Refused;
      }
      var tx := Open(Rows(roles[id := row], bindings));
      if WriteRels in fails {
        return Failed, Refused;
      }
      ApplyTouches(rels, updates);
      WrittenRole(sys, rels, id, owner, actions);
      Write(updates);
      var ok := Commit(tx, fails);
      if !ok {
        return Failed, Unfinished;
      }
      return Reply(Role(id, row, actions)), Done;
    }

    /** The actions of the role and its row, as the given rows show it. */
    method GetRoleV2(role: Object, rows: Rows, fails: set<Call>) returns (r: Option<Role>)
      requires Readable(sys, rels, role.id)
      ensures r.Some? <==> role.typ == sys.r.roleResource.name && role.id in rows.roles && {ReadFrom, FindRow} !! fails
      ensures r.Some? ==> r.value.id == role.id && r.value.row == rows.roles[role.id]
      ensures r.Some? ==> sys.ReadActions(rels, role.id) == Readings(r.value.actions)
    {
      if role.typ != sys.r.roleResource.name {
        return None;
      }
      if ReadFrom in fails {
        return None;
      }
      var actions := ListRoleActions(sys, rels, role.id);
      if role.id !in rows.roles || FindRow in fails {
        return None;
      }
      r := Some(Role(role.id, rows.roles[role.id], actions));
    }

    method UpdateRoleV2(role: Object, newName: string, newActions: seq<string>, fails: set<Call>)
      returns (reply: Reply<Role>, outcome: Outcome)
      requires Readable(sys, rels, role.id)
      modifies this
      ensures UpdateRoleStep(sys, old(State()), role.id, newName, newActions, outcome, State())
      ensures reply.Reply? <==> outcome.Done?
      ensures reply.Reply? ==> reply.value.id == role.id && role.id in roles && reply.value.row == roles[role.id]
      ensures outcome.Done? <==>
        && role.typ == sys.r.roleResource.name && role.id in old(roles)
        && {BeginTx, LockRow, ReadFrom, FindRow} !! fails && CommitTx !in fails
        && (|| (&& (newName == "" || newName == old(roles)[role.id].name)
                && (newActions == [] || sys.ReadActions(old(rels), role.id) == Readings(newActions)))
            || {WriteRow, WriteRels} !! fails)
      ensures outcome.Unfinished? <==>
        && role.typ == sys.r.roleResource.name && role.id in old(roles)
        && {BeginTx, LockRow, ReadFrom, FindRow, WriteRow, WriteRels} !! fails && CommitTx in fails
        && !(&& (newName == "" || newName == old(roles)[role.id].name)
             && (newActions == [] || sys.ReadActions(old(rels), role.id) == Readings(newActions)))
      ensures bindings == old(bindings)
      ensures roles == if !outcome.Done? || newName == "" then old(roles)
        else old(roles)[role.id := RoleRow(newName, old(roles)[role.id].manager, old(roles)[role.id].owner)]
      ensures outcome.Refused? ==> rels == old(rels)
    {
      if BeginTx in fails {
        return Failed, Refused;
      }
      var tx := Open(Rows(roles, bindings));
      if role.id !in roles || LockRow in fails {
        return Failed, Refused;
      }
      var found := GetRoleV2(role, tx.rows, fails);
      if found.None? {
        return Failed, Refused;
      }
      var r := found.value;
      var name := if newName == "" then r.row.name else newName;
      var addActions, rmActions := Diff(r.actions, newActions, false);
      UpdateChanges(sys, rels, role.id, r.actions, newActions, addActions, rmActions);
      if name == r.row.name && |addActions| == 0 && |rmActions| == 0 {
        var ok := Commit(tx, fails);
        if !ok {
          return Failed, Refused;
        }
        assert roles[role.id := roles[role.id].(name := name)] == roles;
        return Reply(r), Done;
      }
      var row := r.row.(name := name);
      outcome := ChangeRole(role.id, row, rmActions, addActions, fails);
      return if outcome.Done? then Reply(Role(role.id, row, newActions)) else Failed, outcome;
    }

    /** The row, then the relationships, then the commit; nothing undoes the relationships. */
    method ChangeRole(id: string, row: RoleRow, rmActions: seq<string>, addActions: seq<string>, fails: set<Call>)
      returns (outcome: Outcome)
      modifies this`roles, this`bindings, this`rels
      ensures outcome ==
        if !({WriteRow, WriteRels} !! fails) then Refused else if CommitTx in fails then Unfinished else Done
      ensures bindings == old(bindings) && roles == if outcome.Done? then old(roles)[id := row] else old(roles)
      ensures rels == if outcome.Refused? then old(rels) else
        old(rels) - sys.PermissionTuples(id, Elements(rmActions)) + sys.PermissionTuples(id, Elements(addActions))
    {
      if WriteRow in fails {
        return Refused;
      }
      var tx := Open(Rows(roles[id := row], bindings));
      var removals := ActionsUpdates(sys, id, rmActions, Delete);
      var additions := ActionsUpdates(sys, id, addActions, Touch);
      if WriteRels in fails {
        return Refused;
      }
      RemoveThenAdd(rels, removals, additions);
      Write(removals + additions);
      var ok := Commit(tx, fails);
      return if ok then Done else Unfinished;
    }

    method DeleteRoleV2(id: string, fails: set<Call>) returns (outcome: Outcome)
      modifies this`roles, this`bindings, this`rels
      ensures DeleteRoleStep(sys, old(State()), id, DeleteFrom !in fails, DeleteTo !in fails, outcome, State())
      ensures outcome.Refused? <==>
        || id !in old(roles) || !({BeginTx, LockRow, ReadFrom, FindRow, ResolveId, WriteRow} !! fails)
        || exists t :: t in old(rels) && t.res.typ == sys.r.roleBindingResource.name && t.relation == "role" &&
             t.subj.obj == Object(sys.r.roleResource.name, id)
      ensures outcome.Done? ==> {DeleteFrom, DeleteTo, CommitTx} !! fails
      ensures outcome.Unfinished? ==> !({DeleteFrom, DeleteTo, CommitTx} !! fails)
      ensures bindings == old(bindings) && roles == if outcome.Done? then old(roles) - {id} else old(roles)
      ensures outcome.Refused? ==> rels == old(rels)
      ensures !outcome.Refused? ==> forall t :: t in rels <==>
        && t in old(rels) && (DeleteFrom in fails || t.res != Object(sys.r.roleResource.name, id))
        && (DeleteTo in fails || t.res.typ != old(roles)[id].owner.typ ||
             t.subj.obj != Object(sys.r.roleResource.name, id))
    {
      if BeginTx in fails {
        return Refused;
      }
      if id !in roles || LockRow in fails {
        return Refused;
      }
      if ReadFrom in fails {
        return Refused;
      }
      var found := Read(BindingsTo(sys, rels, id));
      BoundIsFound(sys, rels, id, found);
      if |found| > 0 {
        return Refused;
      }
      if FindRow in fails || ResolveId in fails {
        return Refused;
      }
      var owner := roles[id].owner;
      if WriteRow in fails {
        return Refused;
      }
      var tx := Open(Rows(roles - {id}, bindings));
      assert ToRole(sys, rels, id, owner) - FromRole(sys, rels, id) ==
        ToRole(sys, rels - FromRole(sys, rels, id), id, owner);
      if DeleteFrom !in fails {
        rels := rels - FromRole(sys, rels, id);
      }
      if DeleteTo !in fails {
        rels := rels - ToRole(sys, rels, id, owner);
      }
      if DeleteFrom in fails || DeleteTo in fails {
        return Unfinished;
      }
      var ok := Commit(tx, fails);
      return if ok then Done else Unfinished;
    }

    // ---------- role bindings ----------

    method CreateRoleBinding(id: string, resource: Object, role: string, manager: string, subjects: seq<Object>,
      available: bool, fails: set<Call>)
      returns (reply: Reply<RoleBinding>, outcome: Outcome)
      requires id !in usedBindings && id != "*"
      requires Fresh(sys, rels, id)
      modifies this
      ensures BindingCreated(sys, old(State()), id, BindingRow(resource, manager), role, subjects, outcome, State())
      ensures outcome.Done? <==>
        && {CheckPermission, FindRow, BeginTx, NewId, WriteRow, WriteRels, CommitTx} !! fails
        && available && role in old(roles)
        && forall x :: x in subjects ==> exists t :: t in sys.r.roleBindingSubjects && t.name == x.typ
      ensures roles == old(roles)
      ensures bindings == if outcome.Done? then old(bindings)[id := BindingRow(resource, manager)] else old(bindings)
      ensures !outcome.Done? ==> outcome.Refused? && rels == old(rels)
      ensures outcome.Done? ==> forall t :: t in rels <==>
        t in old(rels) || IsBindingTuple(sys.r, id, resource, role, subjects, t)
      ensures reply == if outcome.Done? then Reply(RoleBinding(id, BindingRow(resource, manager), role, subjects))
        else if available && role in old(roles) && {CheckPermission, FindRow} !! fails && BeginTx in fails
        then Nothing else Failed
    {
      var row := BindingRow(resource, manager);
      usedBindings := usedBindings + {id};
      if CheckPermission in fails || !available {
        return Failed, Refused;
      }
      if FindRow in fails || role !in roles {
        return Failed, Refused;
      }
      if BeginTx in fails {
        return Nothing, Refused;
      }
      SubjectsBindable(sys, subjects);
      outcome := InsertBinding(id, row, role, subjects, fails);
      if outcome.Done? {
        WrittenBinding(sys, old(rels), id, resource, role, subjects);
      }
      return if outcome.Done? then Reply(RoleBinding(id, row, role, subjects)) else Failed, outcome;
    }

    /** What follows the start of the transaction. */
    method InsertBinding(id: string, row: BindingRow, role: string, subjects: seq<Object>, fails: set<Call>)
      returns (outcome: Outcome)
      requires Fresh(sys, rels, id)
      modifies this`roles, this`bindings, this`rels
      ensures outcome ==
        if {NewId, WriteRow, WriteRels, CommitTx} !! fails && AllValid(sys, subjects) then Done else Refused
      ensures roles == old(roles) && bindings == if outcome.Done? then old(bindings)[id := row] else old(bindings)
      ensures outcome.Refused? ==> rels == old(rels)
      ensures outcome.Done? ==> rels == old(rels) + sys.BindingTuples(id, row.resource, role, subjects)
    {
      if NewId in fails || WriteRow in fails {
        return Refused;
      }
      var tx := Open(Rows(roles, bindings[id := row]));
      var subjUpdates := SubjectUpdates(sys, id, subjects, Touch);
      if subjUpdates.None? {
        return Refused;
      }
      var updates :=
        [Update(Touch, sys.RoleTuple(id, role)), Update(Touch, sys.GrantTuple(id, row.resource))] + subjUpdates.value;
      BindingUpdates(sys, rels, id, row.resource, role, subjects, updates, subjUpdates.value);
      if WriteRels in fails {
        return Refused;
      }
      Write(updates);
      var ok := Commit(tx, fails);
      if !ok {
        RollbackWrites(updates);
        return Refused;
      }
      return Done;
    }

    /** The row, as the given rows show it, and the relationships of the binding. */
    method GetRoleBinding(id: string, rows: Rows, fails: set<Call>) returns (rb: Option<RoleBinding>)
      requires BindingReadable(sys, rels, id)
      ensures rb.Some? <==>
        && id in rows.bindings && {FindRow, ReadFrom, ParseId} !! fails
        && exists t :: t in rels && t.res == sys.Binding(id)
      ensures rb.Some? ==> rb.value.id == id && rb.value.row == rows.bindings[id]
      ensures rb.Some? ==> Elements(rb.value.subjects) == StoredSubjects(sys, rels, id)
      ensures rb.Some? ==> forall role: string :: RolesAre(sys, rels, id, role) ==> rb.value.role == role
    {
      if FindRow in fails || id !in rows.bindings {
        return None;
      }
      if ReadFrom in fails {
        return None;
      }
      rb := ReadBinding(sys, rels, id, rows.bindings[id]);
      if ParseId in fails {
        rb := None;
      }
    }

    method UpdateRoleBinding(id: string, subjects: seq<Object>, fails: set<Call>)
      returns (reply: Reply<RoleBinding>, outcome: Outcome)
      requires BindingReadable(sys, rels, id)
      modifies this`roles, this`bindings, this`rels
      ensures UpdateBindingStep(sys, old(State()), id, subjects, outcome, State())
      ensures reply.Reply? <==> outcome.Done?
      ensures outcome.Done? <==>
        && id in old(bindings) && {BeginTx, LockRow, FindRow, ReadFrom, ParseId} !! fails
        && (exists t :: t in old(rels) && t.res == Object(sys.r.roleBindingResource.name, id))
        && (|| Elements(subjects) == StoredSubjects(sys, old(rels), id)
            || (&& {ResolveId, WriteRels, WriteRow, CommitTx} !! fails
                && forall x :: x in subjects ==> exists t :: t in sys.r.roleBindingSubjects && t.name == x.typ))
      ensures roles == old(roles) && bindings == old(bindings)
      ensures !outcome.Done? ==> outcome.Refused? && rels == old(rels)
      ensures outcome.Done? ==> forall t :: t in rels <==>
        || (t in old(rels) && (t.res != Object(sys.r.roleBindingResource.name, id) || t.relation != "subject"))
        || exists x :: x in subjects && IsSubjectTuple(sys.r, id, x, t)
      ensures outcome.Done? ==> Elements(reply.value.subjects) == Elements(subjects) == StoredSubjects(sys, rels, id)
    {
      if BeginTx in fails {
        return Failed, Refused;
      }
      var tx := Open(Rows(roles, bindings));
      if id !in bindings || LockRow in fails {
        return Failed, Refused;
      }
      var found := GetRoleBinding(id, tx.rows, fails);
      if found.None? {
        return Failed, Refused;
      }
      var rolebinding := found.value;
      var add, remove := Diff(rolebinding.subjects, subjects, true);
      var touches := SubjectUpdates(sys, id, add, Touch);
      var deletions := SubjectUpdates(sys, id, remove, Delete);
      SubjectsAccepted(sys, rels, id, rolebinding.subjects, subjects);
      SubjectsBindable(sys, subjects);
      if |add| + |remove| == 0 {
        NoSubjectChanges(sys, rels, id, rolebinding.subjects, subjects);
        WrittenSubjects(sys, rels, id, subjects);
        return Reply(rolebinding), Done;
      }
      outcome := ChangeSubjects(tx, id, rolebinding.subjects, subjects, touches, deletions, fails);
      if outcome.Done? {
        WrittenSubjects(sys, old(rels), id, subjects);
      }
      return if outcome.Done? then Reply(rolebinding.(subjects := subjects)) else Failed, outcome;
    }

    /** The relationships, the row and the commit; a failure undoes the relationships. */
    method ChangeSubjects(open: Tx, id: string, current: seq<Object>, subjects: seq<Object>,
      touches: Option<seq<Update>>, deletions: Option<seq<Update>>, fails: set<Call>)
      returns (outcome: Outcome)
      requires open == Open(Rows(roles, bindings))
      requires BindingReadable(sys, rels, id) && Elements(current) == StoredSubjects(sys, rels, id)
      requires touches.Some? <==> forall x :: x in Without(subjects, current) ==> sys.ValidSubject(x)
      requires touches.Some? ==> AllOf(Touch, touches.value)
      requires touches.Some? ==> TuplesOf(touches.value) == sys.SubjectTuples(id, Without(subjects, current))
      requires forall x :: x in Without(current, subjects) ==> sys.ValidSubject(x)
      requires deletions.Some? && AllOf(Delete, deletions.value) &&
        TuplesOf(deletions.value) == sys.SubjectTuples(id, Without(current, subjects))
      modifies this`roles, this`bindings, this`rels
      ensures outcome ==
        if AllValid(sys, subjects) && {ResolveId, WriteRels, WriteRow, CommitTx} !! fails then Done else Refused
      ensures roles == old(roles) && bindings == old(bindings)
      ensures outcome.Refused? ==> rels == old(rels)
      ensures outcome.Done? ==> rels == old(rels) - SubjectsOf(sys, old(rels), id) + sys.SubjectTuples(id, subjects)
      ensures outcome.Done? ==> StoredSubjects(sys, rels, id) == Elements(subjects)
    {
      var tx := open;
      SubjectsAccepted(sys, rels, id, current, subjects);
      if ResolveId in fails || touches.None? || deletions.None? {
        return Refused;
      }
      var updates := touches.value + deletions.value;
      if WriteRels in fails {
        return Refused;
      }
      SubjectChanges(sys, rels, id, current, subjects, touches.value, deletions.value);
      SubjectsReadBack(sys, rels, id, subjects);
      Write(updates);
      if WriteRow in fails {
        // no return: the commit of the finished transaction fails below
        tx := Finished;
        RollbackWrites(updates);
      }
      var ok := Commit(tx, fails);
      if !ok {
        RollbackWrites(updates);
        ApplyTwice(Apply(old(rels), updates), Compensation(updates));
        return Refused;
      }
      return Done;
    }

    method DeleteRoleBinding(id: string, fails: set<Call>) returns (outcome: Outcome)
      requires id in bindings ==> OnlyGrant(sys, rels, id, bindings[id].resource)
      modifies this`roles, this`bindings, this`rels
      ensures DeleteBindingStep(sys, old(State()), id, outcome, State())
      ensures outcome.Done? <==>
        && id in old(bindings)
        && {BeginTx, LockRow, FindRow, ResolveId, ReadFrom, ReadTo, WriteRels, WriteRow, CommitTx} !! fails
      ensures roles == old(roles) && bindings == if outcome.Done? then old(bindings) - {id} else old(bindings)
      ensures !outcome.Done? ==> outcome.Refused? && rels == old(rels)
      ensures outcome.Done? ==> forall t :: t in rels <==>
        && t in old(rels) && t.res != Object(sys.r.roleBindingResource.name, id)
        && t.subj.obj != Object(sys.r.roleBindingResource.name, id)
    {
      if BeginTx in fails {
        return Refused;
      }
      if id !in bindings || LockRow in fails {
        return Refused;
      }
      if FindRow in fails || ResolveId in fails {
        return Refused;
      }
      var resource := bindings[id].resource;
      if ReadFrom in fails || ReadTo in fails {
        return Refused;
      }
      var fromRels := Read(set t | t in rels && t.res == sys.Binding(id));
      var toRels := Read(GrantsTo(sys, rels, resource.typ, id));
      var updates := DeleteUpdates(fromRels + toRels);
      BindingDeletions(sys, rels, id, resource, fromRels, toRels, updates);
      if WriteRels in fails {
        return Refused;
      }
      Write(updates);
      if WriteRow in fails {
        RollbackWrites(updates);
        return Refused;
      }
      var tx := Open(Rows(roles, bindings - {id}));
      var ok := Commit(tx, fails);
      if !ok {
        RollbackWrites(updates);
        return Refused;
      }
      return Done;
    }

    /** The bindings granted on a resource, those without subjects left out. */
    method ListRoleBindings(resource: Object, optionalRole: Option<string>, optionalManager: Option<string>,
      fails: set<Call>)
      returns (result: Option<seq<RoleBinding>>)
      requires Listable(sys, State())
      ensures result.None? <==>
        (ReadTo in fails || (HasBindings(State(), resource) && !({ResolveId, FindRow, ReadFrom, ParseId} !! fails)))
      ensures result.Some? ==> forall i, j :: 0 <= i < j < |result.value| ==> result.value[i].id != result.value[j].id
      ensures result.Some? ==> forall id :: id in IdsOf(result.value) <==>
        && id in bindings && bindings[id].resource == resource
        && (optionalManager.Some? ==> bindings[id].manager == optionalManager.value)
        && (optionalRole.Some? ==> Tuple(Object(sys.r.roleBindingResource.name, id), "role",
          Subject(Object(sys.r.roleResource.name, optionalRole.value), "")) in rels)
        && exists t :: t in rels && t.res == Object(sys.r.roleBindingResource.name, id) && t.relation == "subject"
      ensures result.Some? ==> forall rb :: rb in result.value ==>
        && rb.id in bindings && rb.row == bindings[rb.id]
        && Tuple(Object(sys.r.roleBindingResource.name, rb.id), "role",
          Subject(Object(sys.r.roleResource.name, rb.role), "")) in rels
        && Elements(rb.subjects) == set t | t in rels && t.res == Object(sys.r.roleBindingResource.name, rb.id) &&
          t.relation == "subject" :: t.subj.obj
    {
      if ReadTo in fails {
        return None;
      }
      var ts := Read(GrantsOn(sys, rels, resource));
      GrantsAreReadable(sys, State(), resource);
      forall t | t in ts
        ensures GrantReadable(sys, State(), resource, t)
      {
        assert t in Elements(ts);
      }
      SomeGrant(sys, State(), resource, ts);
      GrantsAreDistinct(sys, State(), resource, ts);
      result := FetchBindings(resource, optionalRole, optionalManager, ts, fails);
      if result.Some? {
        AllListed(sys, State(), resource, optionalRole, optionalManager, ts, result.value);
        ListedMeans(sys, State(), resource, optionalRole, optionalManager);
      }
    }

    /** The details of every granted binding; one that cannot be fetched fails the whole list. */
    method FetchBindings(resource: Object, optionalRole: Option<string>, optionalManager: Option<string>,
      grants: seq<Tuple>, fails: set<Call>)
      returns (result: Option<seq<RoleBinding>>)
      requires forall t :: t in grants ==> GrantReadable(sys, State(), resource, t)
      requires forall i, j :: 0 <= i < j < |grants| ==> grants[i].subj.obj.id != grants[j].subj.obj.id
      ensures result.Some? ==> forall i, j :: 0 <= i < j < |result.value| ==> result.value[i].id != result.value[j].id
      ensures result.None? <==> grants != [] && !({ResolveId, FindRow, ReadFrom, ParseId} !! fails)
      ensures result.Some? ==> ListedSoFar(sys, State(), resource, optionalRole, optionalManager, grants, result.value)
    {
      var failed := false;
      var found: seq<RoleBinding> := [];
      for i := 0 to |grants|
        invariant failed <==> i > 0 && !({ResolveId, FindRow, ReadFrom, ParseId} !! fails)
        invariant !failed ==> ListedSoFar(sys, State(), resource, optionalRole, optionalManager, grants[..i], found)
        invariant forall k, l :: 0 <= k < l < |found| ==> found[k].id != found[l].id
        invariant forall k :: 0 <= k < |found| ==> exists l :: 0 <= l < i && found[k].id == grants[l].subj.obj.id
      {
        assert grants[..i + 1] == grants[..i] + [grants[i]];
        assert GrantReadable(sys, State(), resource, grants[i]);
        var next := GetRoleBinding(grants[i].subj.obj.id, Rows(roles, bindings), fails);
        if ResolveId in fails || next.None? {
          failed := true;
          continue;
        }
        var rb := next.value;
        NextListed(sys, State(), resource, optionalRole, optionalManager, grants[..i], found, grants[i], rb);
        if (optionalManager.Some? && rb.row.manager != optionalManager.value) ||
          (optionalRole.Some? && rb.role != optionalRole.value) || |rb.subjects| == 0 {
          continue;
        }
        found := found + [rb];
      }
      assert grants[..|grants|] == grants;
      result := if failed then None else Some(found);
    }
  }

  predicate HasBindings(s: Stores, resource: Object) {
    exists id :: id in s.bindings && s.bindings[id].resource == resource
  }

  lemma SomeGrant(sys: System, s: Stores, resource: Object, grants: seq<Tuple>)
    requires Listable(sys, s)
    requires Elements(grants) == GrantsOn(sys, s.rels, resource)
    ensures grants != [] <==> HasBindings(s, resource)
  {
    if grants != [] {
      assert grants[0] in Elements(grants);
    }
    if id :| id in s.bindings && s.bindings[id].resource == resource {
      assert sys.GrantTuple(id, resource) in Elements(grants);
    }
  }

  function IdsOf(bindings: seq<RoleBinding>): set<string> {
    set rb | rb in bindings :: rb.id
  }

  ghost predicate ListedSoFar(sys: System, s: Stores, resource: Object, role: Option<string>, manager: Option<string>,
    grants: seq<Tuple>, found: seq<RoleBinding>) {
    && (forall rb :: rb in found ==> Shows(sys, s, rb))
    && IdsOf(found) == set t | t in grants && Listed(sys, s, resource, role, manager, t.subj.obj.id) :: t.subj.obj.id
  }

  /** The grant ends at a binding of the resource that can be read. */
  ghost predicate GrantReadable(sys: System, s: Stores, resource: Object, t: Tuple) {
    var id := t.subj.obj.id;
    && id in s.bindings && s.bindings[id].resource == resource
    && BindingReadable(sys, s.rels, id)
    && (exists u :: u in s.rels && u.res == sys.Binding(id))
    && (exists role :: RolesAre(sys, s.rels, id, role))
  }

  lemma GrantsAreReadable(sys: System, s: Stores, resource: Object)
    requires Listable(sys, s)
    ensures forall t :: t in GrantsOn(sys, s.rels, resource) ==> GrantReadable(sys, s, resource, t)
  {
    forall t | t in GrantsOn(sys, s.rels, resource)
      ensures GrantReadable(sys, s, resource, t)
    {
      var role :| RolesAre(sys, s.rels, t.subj.obj.id, role);
      assert sys.RoleTuple(t.subj.obj.id, role).res == sys.Binding(t.subj.obj.id);
    }
  }

  /** One grant more: its binding is skipped exactly when it is not listed. */
  lemma NextListed(sys: System, s: Stores, resource: Object, role: Option<string>, manager: Option<string>,
    grants: seq<Tuple>, found: seq<RoleBinding>, t: Tuple, rb: RoleBinding)
    requires ListedSoFar(sys, s, resource, role, manager, grants, found)
    requires rb.id == t.subj.obj.id && rb.id in s.bindings && s.bindings[rb.id].resource == resource
    requires rb.row == s.bindings[rb.id]
    requires exists actual :: RolesAre(sys, s.rels, rb.id, actual)
    requires forall actual: string :: RolesAre(sys, s.rels, rb.id, actual) ==> rb.role == actual
    requires Elements(rb.subjects) == StoredSubjects(sys, s.rels, rb.id)
    ensures ListedSoFar(sys, s, resource, role, manager, grants + [t],
      if (manager.Some? && rb.row.manager != manager.value) || (role.Some? && rb.role != role.value) ||
        |rb.subjects| == 0 then found else found + [rb])
  {
    NoSubjects(rb.subjects, StoredSubjects(sys, s.rels, rb.id));
    assert Shows(sys, s, rb);
    assert IdsOf(found + [rb]) == IdsOf(found) + {rb.id};
  }

  lemma AllListed(sys: System, s: Stores, resource: Object, role: Option<string>, manager: Option<string>,
    grants: seq<Tuple>, found: seq<RoleBinding>)
    requires Listable(sys, s)
    requires Elements(grants) == GrantsOn(sys, s.rels, resource)
    requires ListedSoFar(sys, s, resource, role, manager, grants, found)
    ensures forall id :: id in IdsOf(found) <==> Listed(sys, s, resource, role, manager, id)
  {
    forall id | Listed(sys, s, resource, role, manager, id)
      ensures id in IdsOf(found)
    {
      assert sys.GrantTuple(id, resource) in Elements(grants);
    }
  }

  lemma GrantsAreDistinct(sys: System, s: Stores, resource: Object, grants: seq<Tuple>)
    requires Listable(sys, s) && Elements(grants) == GrantsOn(sys, s.rels, resource)
    requires forall i, j :: 0 <= i < j < |grants| ==> grants[i] != grants[j]
    ensures forall i, j :: 0 <= i < j < |grants| ==> grants[i].subj.obj.id != grants[j].subj.obj.id
  {
    forall t | t in grants
      ensures t.subj.obj.id in s.bindings && t == sys.GrantTuple(t.subj.obj.id, s.bindings[t.subj.obj.id].resource)
    {
      assert t in Elements(grants);
    }
  }

  /** Which bindings are listed, and what is shown of them, relationship by relationship. */
  lemma ListedMeans(sys: System, s: Stores, resource: Object, role: Option<string>, manager: Option<string>)
    requires Listable(sys, s)
    ensures forall id :: Listed(sys, s, resource, role, manager, id) <==>
      && id in s.bindings && s.bindings[id].resource == resource
      && (manager.Some? ==> s.bindings[id].manager == manager.value)
      && (role.Some? ==> Tuple(Object(sys.r.roleBindingResource.name, id), "role",
        Subject(Object(sys.r.roleResource.name, role.value), "")) in s.rels)
      && exists t :: t in s.rels && t.res == Object(sys.r.roleBindingResource.name, id) && t.relation == "subject"
    ensures forall rb :: Shows(sys, s, rb) ==>
      && Tuple(Object(sys.r.roleBindingResource.name, rb.id), "role",
        Subject(Object(sys.r.roleResource.name, rb.role), "")) in s.rels
      && Elements(rb.subjects) == set t | t in s.rels && t.res == Object(sys.r.roleBindingResource.name, rb.id) &&
        t.relation == "subject" :: t.subj.obj
  {
    forall id
      ensures StoredSubjects(sys, s.rels, id) != {} <==>
        exists t :: t in s.rels && t.res == Object(sys.r.roleBindingResource.name, id) && t.relation == "subject"
    {
      if t :| t in s.rels && t.res == Object(sys.r.roleBindingResource.name, id) && t.relation == "subject" {
        assert t.subj.obj in StoredSubjects(sys, s.rels, id);
      }
    }
    forall id, x: string | id in s.bindings
      ensures RolesAre(sys, s.rels, id, x) <==> sys.RoleTuple(id, x) in s.rels
    {
      var actual :| RolesAre(sys, s.rels, id, actual);
    }
    forall rb | Shows(sys, s, rb)
      ensures Elements(rb.subjects) == set t | t in s.rels &&
        t.res == Object(sys.r.roleBindingResource.name, rb.id) && t.relation == "subject" :: t.subj.obj
    {
    }
  }

  /** What the stores say about the binding. */
  ghost predicate Shows(sys: System, s: Stores, rb: RoleBinding) {
    && rb.id in s.bindings && rb.row == s.bindings[rb.id]
    && RolesAre(sys, s.rels, rb.id, rb.role)
    && Elements(rb.subjects) == StoredSubjects(sys, s.rels, rb.id)
  }

  ghost predicate Listed(sys: System, s: Stores, resource: Object, role: Option<string>, manager: Option<string>,
    id: string) {
    && id in s.bindings && s.bindings[id].resource == resource
    && (manager.Some? ==> s.bindings[id].manager == manager.value)
    && (role.Some? ==> RolesAre(sys, s.rels, id, role.value))
    && StoredSubjects(sys, s.rels, id) != {}
  }

  /** Grants and rows agree, and every binding can be read. */
  ghost predicate Listable(sys: System, s: Stores) {
    && (forall t :: t in s.rels && t.relation == GRANT_RELATION && t.subj.obj.typ == sys.r.roleBindingResource.name ==>
          t.subj.obj.id in s.bindings && t == sys.GrantTuple(t.subj.obj.id, s.bindings[t.subj.obj.id].resource))
    && (forall id :: id in s.bindings ==>
          && sys.GrantTuple(id, s.bindings[id].resource) in s.rels
          && BindingReadable(sys, s.rels, id)
          && exists role :: RolesAre(sys, s.rels, id, role))
  }

  lemma NoSubjects(xs: seq<Object>, stored: set<Object>)
    requires Elements(xs) == stored
    ensures |xs| == 0 <==> stored == {}
  {
    if |xs| > 0 {
      assert xs[0] in Elements(xs);
    }
  }


  lemma BoundIsFound(sys: System, g: Graph, id: string, found: seq<Tuple>)
    requires Elements(found) == BindingsTo(sys, g, id)
    ensures BoundTo(sys, g, id) <==> |found| > 0
  {
    if |found| > 0 {
      assert found[0] in Elements(found);
    }
    if BoundTo(sys, g, id) {
      var t :| t in g && t.res.typ == sys.r.roleBindingResource.name && t.relation == ROLE_RELATION
        && t.subj.obj == sys.Role(id);
      assert t in BindingsTo(sys, g, id);
      assert t in Elements(found);
    }
  }

  /** No relationship mentions the binding yet. */
  predicate Fresh(sys: System, g: Graph, binding: string) {
    forall t :: t in g ==> t.res != sys.Binding(binding) && t.subj.obj != sys.Binding(binding)
  }

  predicate BindingReadable(sys: System, g: Graph, binding: string) {
    && ROLE_RELATION != SUBJECT_RELATION
    && (forall t :: t in g && t.res == sys.Binding(binding) ==> t.relation in {ROLE_RELATION, SUBJECT_RELATION})
    && (forall t :: t in SubjectsOf(sys, g, binding) ==>
      sys.ValidSubject(t.subj.obj) && t == sys.SubjectTuple(binding, t.subj.obj))
  }

  /** Whatever ends at the binding is its grant from the resource. */
  predicate OnlyGrant(sys: System, g: Graph, binding: string, resource: Object) {
    forall t :: t in g && t.subj.obj == sys.Binding(binding) ==> t == sys.GrantTuple(binding, resource)
  }

  lemma BindingUpdates(sys: System, g: Graph, id: string, resource: Object, role: string, subjects: seq<Object>,
    us: seq<Update>, subjUpdates: seq<Update>)
    requires forall x :: x in subjects ==> sys.ValidSubject(x)
    requires AllOf(Touch, subjUpdates) && TuplesOf(subjUpdates) == sys.SubjectTuples(id, subjects)
    requires us == [Update(Touch, sys.RoleTuple(id, role)), Update(Touch, sys.GrantTuple(id, resource))] + subjUpdates
    requires Fresh(sys, g, id)
    ensures Apply(g, us) == g + sys.BindingTuples(id, resource, role, subjects)
    ensures Apply(Apply(g, us), Compensation(us)) == g
  {
    var first := [Update(Touch, sys.RoleTuple(id, role)), Update(Touch, sys.GrantTuple(id, resource))];
    assert TuplesOf(first) == {sys.RoleTuple(id, role), sys.GrantTuple(id, resource)};
    assert TuplesOf(us) == TuplesOf(first) + TuplesOf(subjUpdates);
    ApplyTouches(g, us);
    TouchesAreFirstEffective(g, us);
    CompensationRestoresIff(g, us);
  }

  lemma BindingDeletions(sys: System, g: Graph, id: string, resource: Object, fromRels: seq<Tuple>, toRels: seq<Tuple>,
    us: seq<Update>)
    requires Elements(fromRels) == set t | t in g && t.res == sys.Binding(id)
    requires Elements(toRels) == GrantsTo(sys, g, resource.typ, id)
    requires AllOf(Delete, us) && TuplesOf(us) == Elements(fromRels + toRels)
    requires OnlyGrant(sys, g, id, resource)
    ensures Apply(g, us) == g - AboutBinding(sys, g, id)
    ensures Apply(Apply(g, us), Compensation(us)) == g
  {
    assert Elements(fromRels + toRels) == Elements(fromRels) + Elements(toRels);
    assert TuplesOf(us) == AboutBinding(sys, g, id);
    ApplyDeletes(g, us);
    DeletesAreFirstEffective(g, us);
    CompensationRestoresIff(g, us);
  }

  lemma NoSubjectChanges(sys: System, g: Graph, id: string, current: seq<Object>, subjects: seq<Object>)
    requires BindingReadable(sys, g, id) && Elements(current) == StoredSubjects(sys, g, id)
    requires Without(subjects, current) == [] && Without(current, subjects) == []
    ensures forall x :: x in subjects ==> sys.ValidSubject(x)
    ensures g == g - SubjectsOf(sys, g, id) + sys.SubjectTuples(id, subjects)
    ensures Elements(subjects) == Elements(current)
  {
    DiffIsExact(current, subjects);
    StoredTuples(sys, g, id, subjects);
  }

  lemma StoredTuples(sys: System, g: Graph, id: string, stored: seq<Object>)
    requires BindingReadable(sys, g, id) && Elements(stored) == StoredSubjects(sys, g, id)
    ensures forall x :: x in stored ==> sys.ValidSubject(x)
    ensures SubjectsOf(sys, g, id) == sys.SubjectTuples(id, stored)
  {
    forall x | x in stored
      ensures sys.ValidSubject(x) && sys.SubjectTuple(id, x) in SubjectsOf(sys, g, id)
    {
      assert x in Elements(stored);
      var t :| t in SubjectsOf(sys, g, id) && t.subj.obj == x;
    }
    forall t | t in SubjectsOf(sys, g, id)
      ensures t in sys.SubjectTuples(id, stored)
    {
      assert t.subj.obj in Elements(stored);
    }
  }

  /** Only subjects that are not bound yet are checked; the others were checked when they were bound. */
  lemma SubjectsAccepted(sys: System, g: Graph, id: string, current: seq<Object>, subjects: seq<Object>)
    requires BindingReadable(sys, g, id) && Elements(current) == StoredSubjects(sys, g, id)
    ensures (forall x :: x in subjects ==> sys.ValidSubject(x)) <==>
      (forall x :: x in Without(subjects, current) ==> sys.ValidSubject(x))
    ensures forall x :: x in Without(current, subjects) ==> sys.ValidSubject(x)
    ensures Elements(subjects) == StoredSubjects(sys, g, id) <==>
      Without(subjects, current) == [] && Without(current, subjects) == []
  {
    StoredTuples(sys, g, id, current);
    DiffIsExact(current, subjects);
    WithoutMembers(subjects, current);
    WithoutMembers(current, subjects);
    forall x | x in subjects && x !in current
      ensures x in Without(subjects, current)
    {
    }
  }

  lemma SubjectsReadBack(sys: System, g: Graph, id: string, subjects: seq<Object>)
    requires forall x :: x in subjects ==> sys.ValidSubject(x)
    ensures StoredSubjects(sys, g - SubjectsOf(sys, g, id) + sys.SubjectTuples(id, subjects), id) == Elements(subjects)
  {
    var h := g - SubjectsOf(sys, g, id) + sys.SubjectTuples(id, subjects);
    assert SubjectsOf(sys, h, id) == sys.SubjectTuples(id, subjects);
    forall x | x in subjects
      ensures x in StoredSubjects(sys, h, id)
    {
      assert sys.SubjectTuple(id, x) in SubjectsOf(sys, h, id);
    }
  }

  lemma SubjectMembers(sys: System, id: string, xs: seq<Object>, t: Tuple)
    requires forall x :: x in xs ==> sys.ValidSubject(x)
    ensures t in sys.SubjectTuples(id, xs) <==> t.subj.obj in xs && t == sys.SubjectTuple(id, t.subj.obj)
  {
  }

  lemma SubjectSets(sys: System, g: Graph, id: string, current: seq<Object>, subjects: seq<Object>)
    requires (forall x :: x in current ==> sys.ValidSubject(x)) && (forall x :: x in subjects ==> sys.ValidSubject(x))
    requires SubjectsOf(sys, g, id) == sys.SubjectTuples(id, current)
    requires forall x :: x in Without(subjects, current) ==> sys.ValidSubject(x)
    requires forall x :: x in Without(current, subjects) ==> sys.ValidSubject(x)
    ensures sys.SubjectTuples(id, Without(subjects, current)) !! g
    ensures sys.SubjectTuples(id, Without(current, subjects)) <= g
    ensures g + sys.SubjectTuples(id, Without(subjects, current)) - sys.SubjectTuples(id, Without(current, subjects)) ==
      g - SubjectsOf(sys, g, id) + sys.SubjectTuples(id, subjects)
  {
    WithoutMembers(subjects, current);
    WithoutMembers(current, subjects);
    forall t
      ensures t in sys.SubjectTuples(id, Without(subjects, current)) <==>
        t in sys.SubjectTuples(id, subjects) && t !in sys.SubjectTuples(id, current)
      ensures t in sys.SubjectTuples(id, Without(current, subjects)) <==>
        t in sys.SubjectTuples(id, current) && t !in sys.SubjectTuples(id, subjects)
      ensures t in sys.SubjectTuples(id, subjects) && t in g ==> t in SubjectsOf(sys, g, id)
      ensures t in SubjectsOf(sys, g, id) ==> t in g
    {
      SubjectMembers(sys, id, Without(subjects, current), t);
      SubjectMembers(sys, id, Without(current, subjects), t);
      SubjectMembers(sys, id, subjects, t);
      SubjectMembers(sys, id, current, t);
    }
  }

  lemma SubjectChanges(sys: System, g: Graph, id: string, current: seq<Object>, subjects: seq<Object>,
    touches: seq<Update>, deletions: seq<Update>)
    requires BindingReadable(sys, g, id) && Elements(current) == StoredSubjects(sys, g, id)
    requires forall x :: x in Without(subjects, current) ==> sys.ValidSubject(x)
    requires forall x :: x in Without(current, subjects) ==> sys.ValidSubject(x)
    requires AllOf(Touch, touches) && TuplesOf(touches) == sys.SubjectTuples(id, Without(subjects, current))
    requires AllOf(Delete, deletions) && TuplesOf(deletions) == sys.SubjectTuples(id, Without(current, subjects))
    ensures forall x :: x in subjects ==> sys.ValidSubject(x)
    ensures Apply(g, touches + deletions) == g - SubjectsOf(sys, g, id) + sys.SubjectTuples(id, subjects)
    ensures Apply(Apply(g, touches + deletions), Compensation(touches + deletions)) == g
  {
    StoredTuples(sys, g, id, current);
    SubjectsAccepted(sys, g, id, current, subjects);
    SubjectSets(sys, g, id, current, subjects);
    MixedIsFirstEffective(g, touches, deletions);
    CompensationRestoresIff(g, touches + deletions);
  }


  lemma WrittenRole(sys: System, g: Graph, id: string, owner: Object, actions: seq<string>)
    ensures forall t :: t in g + sys.RoleTuples(id, owner, actions) <==>
      t in g || IsRoleTuple(sys.r, id, owner, actions, t)
  {
    forall t
      ensures t in sys.RoleTuples(id, owner, actions) <==> IsRoleTuple(sys.r, id, owner, actions, t)
    {
      RoleTuplesAre(sys, id, owner, actions, t);
    }
  }

  lemma WrittenBinding(sys: System, g: Graph, id: string, resource: Object, role: string, subjects: seq<Object>)
    requires forall x :: x in subjects ==> sys.ValidSubject(x)
    ensures forall t :: t in g + sys.BindingTuples(id, resource, role, subjects) <==>
      t in g || IsBindingTuple(sys.r, id, resource, role, subjects, t)
  {
    forall t
      ensures t in sys.BindingTuples(id, resource, role, subjects) <==>
        IsBindingTuple(sys.r, id, resource, role, subjects, t)
    {
      BindingTuplesAre(sys, id, resource, role, subjects, t);
    }
  }

  lemma WrittenSubjects(sys: System, g: Graph, id: string, subjects: seq<Object>)
    requires forall x :: x in subjects ==> sys.ValidSubject(x)
    ensures forall t :: t in g - SubjectsOf(sys, g, id) + sys.SubjectTuples(id, subjects) <==>
      || (t in g && (t.res != Object(sys.r.roleBindingResource.name, id) || t.relation != "subject"))
      || exists x :: x in subjects && IsSubjectTuple(sys.r, id, x, t)
  {
    SubjectTuplesMean(sys, id, subjects);
  }

  lemma SubjectTuplesMean(sys: System, binding: string, subjects: seq<Object>)
    requires forall x :: x in subjects ==> sys.ValidSubject(x)
    ensures forall t :: t in sys.SubjectTuples(binding, subjects) <==>
      exists x :: x in subjects && IsSubjectTuple(sys.r, binding, x, t)
  {
    forall t
      ensures t in sys.SubjectTuples(binding, subjects) <==>
        exists x :: x in subjects && IsSubjectTuple(sys.r, binding, x, t)
    {
      SubjectTuplesAre(sys, binding, subjects, t);
    }
  }

  lemma SubjectsBindable(sys: System, subjects: seq<Object>)
    ensures (forall x :: x in subjects ==> sys.ValidSubject(x)) <==>
      forall x :: x in subjects ==> exists t :: t in sys.r.roleBindingSubjects && t.name == x.typ
  {
    forall x | x in subjects
      ensures sys.ValidSubject(x) <==> exists t :: t in sys.r.roleBindingSubjects && t.name == x.typ
    {
      BindableTypes(sys, x);
    }
  }

  predicate AllValid(sys: System, subjects: seq<Object>) {
    forall x :: x in subjects ==> sys.ValidSubject(x)
  }

  function Readings(actions: seq<string>): set<Option<string>> {
    set a | a in actions :: Some(a)
  }

  /** Every action wildcard of the role can be read: its relation ends in the suffix. */
  predicate Readable(sys: System, g: Graph, role: string) {
    forall x :: x in sys.ReadActions(g, role) ==> x.Some?
  }

  lemma RemoveThenAdd(g: Graph, removals: seq<Update>, additions: seq<Update>)
    requires AllOf(Delete, removals) && AllOf(Touch, additions)
    ensures Apply(g, removals + additions) == g - TuplesOf(removals) + TuplesOf(additions)
  {
    ApplyAppends(g, removals, additions);
    ApplyDeletes(g, removals);
    ApplyTouches(g - TuplesOf(removals), additions);
  }

  /** The lists that diff yields are the ones an update is about. */
  lemma UpdateChanges(sys: System, g: Graph, role: string, current: seq<string>, actions: seq<string>,
    add: seq<string>, rem: seq<string>)
    requires sys.ReadActions(g, role) == Readings(current)
    requires if actions == [] then add == [] && rem == []
      else add == Without(actions, current) && rem == Without(current, actions)
    ensures sys.UpdatedPermissions(g, role, actions) ==
      g - sys.PermissionTuples(role, Elements(rem)) + sys.PermissionTuples(role, Elements(add))
    ensures add == [] && rem == [] <==> actions == [] || sys.ReadActions(g, role) == Readings(actions)
  {
    var read := set a | a in sys.ReadActions(g, role) && a.Some? :: a.value;
    forall a
      ensures a in read <==> Some(a) in Readings(current)
      ensures a in Elements(current) <==> Some(a) in Readings(current)
      ensures a in Elements(actions) <==> Some(a) in Readings(actions)
    {
    }
    assert read == Elements(current);
    DiffIsExact(current, actions);
    WithoutElements(current, actions);
    WithoutElements(actions, current);
    if Readings(current) == Readings(actions) {
      assert Elements(current) == Elements(actions);
    }
  }

  // ---------- every call is a step ----------

  /** The relationship store refuses what the schema does not admit; then creating a role, whatever
      else fails, is a step that keeps the stores consistent. */
  lemma CreateRoleIsAStep(sys: System, s: Stores, id: string, row: RoleRow, actions: seq<string>, fails: set<Call>,
    outcome: Outcome, s': Stores)
    requires sys.Sound() && Consistent(sys, s)
    requires RoleCreated(sys, s, id, row, actions, outcome, s') && (!outcome.Refused? ==> WriteRels !in fails)
    requires !sys.Writable(sys.RoleTuples(id, row.owner, actions)) ==> WriteRels in fails
    ensures Step(sys, s, CreateRole(id, row, actions, outcome), s') && Consistent(sys, s')
  {
    StepKeepsConsistent(sys, s, CreateRole(id, row, actions, outcome), s');
  }

  /** The permission check answers as the schema grants; then creating a binding is such a step. */
  lemma CreateBindingIsAStep(sys: System, s: Stores, id: string, row: BindingRow, role: string, subjects: seq<Object>,
    available: bool, outcome: Outcome, s': Stores)
    requires sys.Sound() && Consistent(sys, s)
    requires BindingCreated(sys, s, id, row, role, subjects, outcome, s') && (outcome.Done? ==> available)
    requires available <==> Available(sys, s.rels, row.resource, role)
    ensures Step(sys, s, CreateBinding(id, row, role, subjects, outcome), s') && Consistent(sys, s')
  {
    StepKeepsConsistent(sys, s, CreateBinding(id, row, role, subjects, outcome), s');
  }
}
