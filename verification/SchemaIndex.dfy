/** The indexes the query engine builds from a schema (internal/query/service.go) and the
    lookups that use them (internal/query/relations.go). */
module SchemaIndex {
  import opened Types
  import opened Permissions
  import opened Relations
  import opened TwoStores

  // ---------- specifications ----------

  /** Of several definitions with one name, the last. */
  function ByName(schema: seq<Definition>): map<string, Definition> {
    if schema == [] then map[] else
      var last := schema[|schema| - 1];
      ByName(schema[..|schema| - 1])[last.name := last]
  }

  function ByPrefix(schema: seq<Definition>): map<string, Definition> {
    if schema == [] then map[] else
      var last := schema[|schema| - 1];
      ByPrefix(schema[..|schema| - 1])[last.idPrefix := last]
  }

  /** For each subject type and relation, the types that declare it, as often as they do. */
  type SubjectRelations = map<string, map<string, seq<string>>>

  function AddTarget(m: SubjectRelations, subject: string, relation: string, typ: string): SubjectRelations {
    var relations := if subject in m then m[subject] else map[];
    var types := if relation in relations then relations[relation] else [];
    m[subject := relations[relation := types + [typ]]]
  }

  function AddTargets(m: SubjectRelations, targets: seq<TargetType>, relation: string, typ: string): SubjectRelations {
    if targets == [] then m else
      AddTarget(AddTargets(m, targets[..|targets| - 1], relation, typ), targets[|targets| - 1].name, relation, typ)
  }

  function AddRelationships(m: SubjectRelations, rels: seq<Relationship>, typ: string): SubjectRelations {
    if rels == [] then m else
      AddTargets(AddRelationships(m, rels[..|rels| - 1], typ), rels[|rels| - 1].types, rels[|rels| - 1].relation, typ)
  }

  function BySubject(schema: seq<Definition>): SubjectRelations {
    if schema == [] then map[] else
      AddRelationships(BySubject(schema[..|schema| - 1]), schema[|schema| - 1].relationships, schema[|schema| - 1].name)
  }

  predicate BindsRoles(d: Definition) {
    exists a, c :: a in d.actions && c in a.conditions && c.roleBinding
  }

  predicate BindsRolesV2(d: Definition) {
    exists a, c :: a in d.actions && c in a.conditions && c.roleBindingV2
  }

  datatype ListError = InvalidType | ReadFailed | InvalidID

  datatype Listing = Listed(relationships: set<(Object, string, Object)>) | Failed(error: ListError)

  // ---------- the index ----------

  class Index {
    const schema: seq<Definition>
    const subjects: seq<TargetType>
    var prefixMap: map<string, Definition>
    var typeMap: map<string, Definition>
    var subjectRelationMap: SubjectRelations
    var roleables: seq<Definition>
    var rbacV2ResourceTypes: seq<Definition>
    var subjectsMap: map<string, TargetType>

    constructor (schema: seq<Definition>, subjects: seq<TargetType>)
      ensures this.schema == schema && this.subjects == subjects && Cached()
    {
      this.schema, this.subjects := schema, subjects;
      new;
      CacheSchemaResources();
    }

    ghost predicate Cached()
      reads this
    {
      && prefixMap == ByPrefix(schema) && typeMap == ByName(schema) && subjectRelationMap == BySubject(schema)
      && (forall d :: d in roleables <==> d in schema && BindsRoles(d))
      && (forall d :: d in rbacV2ResourceTypes <==> d in schema && BindsRolesV2(d))
      && subjectsMap == SubjectsMap(subjects)
    }

    method CacheSchemaResources()
      modifies this
      ensures Cached()
    {
      prefixMap, typeMap, subjectRelationMap := map[], map[], map[];
      roleables, rbacV2ResourceTypes, subjectsMap := [], [], map[];
      for i := 0 to |schema|
        invariant prefixMap == ByPrefix(schema[..i]) && typeMap == ByName(schema[..i])
        invariant subjectRelationMap == BySubject(schema[..i])
        invariant forall d :: d in roleables <==> d in schema[..i] && BindsRoles(d)
        invariant forall d :: d in rbacV2ResourceTypes <==> d in schema[..i] && BindsRolesV2(d)
        invariant subjectsMap == map[]
      {
        var res := schema[i];
        assert schema[..i + 1] == schema[..i] + [res];
        prefixMap, typeMap := prefixMap[res.idPrefix := res], typeMap[res.name := res];
        subjectRelationMap := IndexRelationships(subjectRelationMap, res);
        var roles := HasCondition(res, false);
        if roles {
          roleables := roleables + [res];
        }
        var rolesV2 := HasCondition(res, true);
        if rolesV2 {
          rbacV2ResourceTypes := rbacV2ResourceTypes + [res];
        }
      }
      assert schema[..|schema|] == schema;
      for i := 0 to |subjects|
        invariant subjectsMap == SubjectsMap(subjects[..i])
        invariant prefixMap == ByPrefix(schema) && typeMap == ByName(schema) && subjectRelationMap == BySubject(schema)
        invariant forall d :: d in roleables <==> d in schema && BindsRoles(d)
        invariant forall d :: d in rbacV2ResourceTypes <==> d in schema && BindsRolesV2(d)
      {
        assert subjects[..i + 1] == subjects[..i] + [subjects[i]];
        subjectsMap := subjectsMap[subjects[i].name := subjects[i]];
      }
      assert subjects[..|subjects|] == subjects;
    }

    /** The stored relationships whose subject is the resource and whose resource is of a type that
        accepts such subjects, those of roles and wildcards left out; an error for a type the schema
        does not know as a subject, for a read that fails, of one of those types, and for an ID that
        cannot be converted. */
    method ListRelationshipsTo(g: Graph, resource: Object, failing: set<string>, invalid: set<Object>)
      returns (found: Listing)
      requires Cached()
      ensures found == Failed(InvalidType) <==>
        forall d, rel, target :: d in schema && rel in d.relationships && target in rel.types ==>
          target.name != resource.typ
      ensures found != Failed(InvalidType) ==>
        var items := NonRolesTo(FromAccepting(schema, g, resource.typ), resource);
        found == if exists typ :: typ in failing && Accepts(schema, typ, resource.typ) then Failed(ReadFailed)
          else if exists x :: x in items && (x.0 in invalid || x.2 in invalid) then Failed(InvalidID)
          else Listed(items)
      ensures found.Listed? ==> forall x :: x in found.relationships <==>
        && resource.typ != "role" && resource.id != "*" && x.2 == resource && Accepts(schema, x.0.typ, resource.typ)
        && exists t :: t in g && t.res == x.0 && t.relation == x.1 && t.subj.obj == resource
    {
      KnownSubjects(schema, resource.typ);
      if resource.typ !in subjectRelationMap {
        return Failed(InvalidType);
      }
      var relTypes := subjectRelationMap[resource.typ];
      SomeReadFails(schema, relTypes, resource.typ, failing);
      var read := ReadTo(g, relTypes, resource, failing);
      if read.None? {
        return Failed(ReadFailed);
      }
      AllItemsListed(schema, g, relTypes, resource);
      var items := NonRoles(read.value);
      ListedItems(schema, g, resource);
      if exists x :: x in items && (x.0 in invalid || x.2 in invalid) {
        return Failed(InvalidID);
      }
      found := Listed(items);
    }
  }

  /** One read for each type, under each relation, until one fails. */
  method ReadTo(g: Graph, relTypes: map<string, seq<string>>, resource: Object, failing: set<string>)
    returns (read: Option<Graph>)
    ensures read == if TypesOf(relTypes, relTypes.Keys) !! failing
      then Some(ToSubject(g, TypesOf(relTypes, relTypes.Keys), resource)) else None
  {
    var relationships: Graph := {};
    var rest := relTypes.Keys;
    while rest != {}
      invariant rest <= relTypes.Keys
      invariant relationships == ToSubject(g, TypesOf(relTypes, relTypes.Keys - rest), resource)
      invariant TypesOf(relTypes, relTypes.Keys - rest) !! failing
    {
      var relation :| relation in rest;
      var types := relTypes[relation];
      ghost var before := TypesOf(relTypes, relTypes.Keys - rest);
      for i := 0 to |types|
        invariant relationships == ToSubject(g, before + Elements(types[..i]), resource)
        invariant Elements(types[..i]) !! failing
      {
        assert types[..i + 1] == types[..i] + [types[i]];
        if types[i] in failing {
          assert relation in relTypes.Keys && types[i] in relTypes[relation];
          return None;
        }
        relationships := relationships + ToSubject(g, {types[i]}, resource);
      }
      assert types[..|types|] == types;
      assert relTypes.Keys - (rest - {relation}) == (relTypes.Keys - rest) + {relation};
      assert TypesOf(relTypes, (relTypes.Keys - rest) + {relation}) == before + Elements(types);
      rest := rest - {relation};
    }
    assert relTypes.Keys - rest == relTypes.Keys;
    read := Some(relationships);
  }

  /** resourceHasRoleBindings and resourceHasRoleBindingV2. */
  method HasCondition(d: Definition, v2: bool) returns (found: bool)
    ensures found <==> if v2 then BindsRolesV2(d) else BindsRoles(d)
    ensures found <==> exists a, c ::
      a in d.actions && c in a.conditions && if v2 then c.roleBindingV2 else c.roleBinding
  {
    for i := 0 to |d.actions|
      invariant forall a, c :: a in d.actions[..i] && c in a.conditions ==>
        if v2 then !c.roleBindingV2 else !c.roleBinding
    {
      var a := d.actions[i];
      assert d.actions[..i + 1] == d.actions[..i] + [a];
      for j := 0 to |a.conditions|
        invariant forall c :: c in a.conditions[..j] ==> if v2 then !c.roleBindingV2 else !c.roleBinding
      {
        var c := a.conditions[j];
        assert a.conditions[..j + 1] == a.conditions[..j] + [c];
        if if v2 then c.roleBindingV2 else c.roleBinding {
          assert a in d.actions && c in a.conditions;
          return true;
        }
      }
      assert a.conditions[..|a.conditions|] == a.conditions;
    }
    assert d.actions[..|d.actions|] == d.actions;
    found := false;
  }

  method IndexTargets(m: SubjectRelations, targets: seq<TargetType>, relation: string, typ: string)
    returns (r: SubjectRelations)
    ensures r == AddTargets(m, targets, relation, typ)
  {
    r := m;
    for i := 0 to |targets|
      invariant r == AddTargets(m, targets[..i], relation, typ)
    {
      var t := targets[i];
      assert targets[..i + 1][..i] == targets[..i];
      if t.name !in r {
        r := r[t.name := map[]];
      }
      var types := if relation in r[t.name] then r[t.name][relation] else [];
      r := r[t.name := r[t.name][relation := types + [typ]]];
    }
    assert targets[..|targets|] == targets;
  }

  method IndexRelationships(m: SubjectRelations, d: Definition) returns (r: SubjectRelations)
    ensures r == AddRelationships(m, d.relationships, d.name)
  {
    r := m;
    for i := 0 to |d.relationships|
      invariant r == AddRelationships(m, d.relationships[..i], d.name)
    {
      assert d.relationships[..i + 1][..i] == d.relationships[..i];
      r := IndexTargets(r, d.relationships[i].types, d.relationships[i].relation, d.name);
    }
    assert d.relationships[..|d.relationships|] == d.relationships;
  }

  // ---------- the maps agree with a linear scan ----------

  /** getTypeForResource: the first definition of the name. */
  function Scan(schema: seq<Definition>, name: string): Option<Definition> {
    if schema == [] then None else if schema[0].name == name then Some(schema[0]) else Scan(schema[1..], name)
  }

  predicate DistinctDefinitions(schema: seq<Definition>) {
    forall i, j :: 0 <= i < j < |schema| ==>
      schema[i].name != schema[j].name && schema[i].idPrefix != schema[j].idPrefix
  }

  lemma {:induction false} ScanFinds(schema: seq<Definition>, name: string)
    ensures Scan(schema, name).Some? <==> exists d :: d in schema && d.name == name
    ensures Scan(schema, name).Some? ==> Scan(schema, name).value in schema && Scan(schema, name).value.name == name
  {
    if schema != [] {
      ScanFinds(schema[1..], name);
      assert schema == [schema[0]] + schema[1..];
    }
  }

  lemma {:induction false} MapsHold(schema: seq<Definition>)
    requires DistinctDefinitions(schema)
    ensures forall d :: d in schema ==> d.name in ByName(schema) && ByName(schema)[d.name] == d
    ensures forall d :: d in schema ==> d.idPrefix in ByPrefix(schema) && ByPrefix(schema)[d.idPrefix] == d
    ensures forall n :: n in ByName(schema) ==> exists d :: d in schema && d.name == n
    ensures forall x :: x in ByPrefix(schema) ==> exists d :: d in schema && d.idPrefix == x
  {
    if schema != [] {
      var init, last := schema[..|schema| - 1], schema[|schema| - 1];
      MapsHold(init);
      assert schema == init + [last];
    }
  }

  /** With distinct names and prefixes, either map finds exactly what a scan of the schema finds. */
  lemma MapsAgreeWithScan(schema: seq<Definition>, name: string)
    requires DistinctDefinitions(schema)
    ensures Scan(schema, name) == if name in ByName(schema) then Some(ByName(schema)[name]) else None
    ensures forall d :: d in schema && d.name == name ==>
      d.idPrefix in ByPrefix(schema) && Scan(schema, name) == Some(ByPrefix(schema)[d.idPrefix])
  {
    MapsHold(schema);
    ScanFinds(schema, name);
  }

  // ---------- the subject index is complete ----------

  predicate Indexed(m: SubjectRelations, subject: string, relation: string, typ: string) {
    subject in m && relation in m[subject] && typ in m[subject][relation]
  }

  lemma {:induction false} AddedTargets(m: SubjectRelations, targets: seq<TargetType>, relation: string, typ: string,
    s: string, r: string, x: string)
    ensures Indexed(AddTargets(m, targets, relation, typ), s, r, x) <==>
      Indexed(m, s, r, x) || (r == relation && x == typ && exists t :: t in targets && t.name == s)
  {
    if targets != [] {
      AddedTargets(m, targets[..|targets| - 1], relation, typ, s, r, x);
      assert targets == targets[..|targets| - 1] + [targets[|targets| - 1]];
    }
  }

  predicate Names(rels: seq<Relationship>, subject: string, relation: string) {
    exists rel, t :: rel in rels && rel.relation == relation && t in rel.types && t.name == subject
  }

  lemma {:induction false} AddedRelationships(m: SubjectRelations, rels: seq<Relationship>, typ: string, s: string,
    r: string, x: string)
    ensures Indexed(AddRelationships(m, rels, typ), s, r, x) <==> Indexed(m, s, r, x) || (x == typ && Names(rels, s, r))
  {
    if rels != [] {
      var init, last := rels[..|rels| - 1], rels[|rels| - 1];
      AddedRelationships(m, init, typ, s, r, x);
      AddedTargets(AddRelationships(m, init, typ), last.types, last.relation, typ, s, r, x);
      assert rels == init + [last];
      assert Names(rels, s, r) <==>
        Names(init, s, r) || (last.relation == r && exists t :: t in last.types && t.name == s);
    }
  }

  /** The index lists a type exactly when one of its relations of that name accepts the subject. */
  lemma {:induction false} SubjectIndexIsComplete(schema: seq<Definition>, s: string, r: string, x: string)
    ensures Indexed(BySubject(schema), s, r, x) <==>
      exists d :: d in schema && d.name == x && Names(d.relationships, s, r)
  {
    if schema != [] {
      var init, last := schema[..|schema| - 1], schema[|schema| - 1];
      SubjectIndexIsComplete(init, s, r, x);
      AddedRelationships(BySubject(init), last.relationships, last.name, s, r, x);
      assert schema == init + [last];
    }
  }

  ghost predicate NonEmpty(m: SubjectRelations) {
    forall s :: s in m ==> exists r, x :: Indexed(m, s, r, x)
  }

  lemma {:induction false} NoEmptyEntries(schema: seq<Definition>)
    ensures NonEmpty(BySubject(schema))
  {
    if schema != [] {
      NoEmptyEntries(schema[..|schema| - 1]);
      RelationshipsNonEmpty(BySubject(schema[..|schema| - 1]), schema[|schema| - 1].relationships,
        schema[|schema| - 1].name);
    }
  }

  lemma {:induction false} RelationshipsNonEmpty(m: SubjectRelations, rels: seq<Relationship>, typ: string)
    requires NonEmpty(m)
    ensures NonEmpty(AddRelationships(m, rels, typ))
  {
    if rels != [] {
      RelationshipsNonEmpty(m, rels[..|rels| - 1], typ);
      TargetsNonEmpty(AddRelationships(m, rels[..|rels| - 1], typ), rels[|rels| - 1].types, rels[|rels| - 1].relation,
        typ);
    }
  }

  lemma {:induction false} TargetsNonEmpty(m: SubjectRelations, targets: seq<TargetType>, relation: string, typ: string)
    requires NonEmpty(m)
    ensures NonEmpty(AddTargets(m, targets, relation, typ))
  {
    if targets != [] {
      var before := AddTargets(m, targets[..|targets| - 1], relation, typ);
      var name := targets[|targets| - 1].name;
      TargetsNonEmpty(m, targets[..|targets| - 1], relation, typ);
      var after := AddTarget(before, name, relation, typ);
      assert Indexed(after, name, relation, typ);
      forall s | s in after && s != name
        ensures exists r, x :: Indexed(after, s, r, x)
      {
        var r, x :| Indexed(before, s, r, x);
        assert Indexed(after, s, r, x);
      }
    }
  }

  lemma KnownSubjects(schema: seq<Definition>, s: string)
    ensures s !in BySubject(schema) <==>
      forall d, rel, target :: d in schema && rel in d.relationships && target in rel.types ==> target.name != s
  {
    NoEmptyEntries(schema);
    if s in BySubject(schema) {
      var r, x :| Indexed(BySubject(schema), s, r, x);
      SubjectIndexIsComplete(schema, s, r, x);
    }
    forall d, rel, target | d in schema && rel in d.relationships && target in rel.types && target.name == s
      ensures s in BySubject(schema)
    {
      assert Names(d.relationships, s, rel.relation);
      SubjectIndexIsComplete(schema, s, rel.relation, d.name);
    }
  }

  // ---------- relationships to a resource ----------

  /** The schema admits the stored relationship. */
  predicate Conforms(schema: seq<Definition>, t: Tuple) {
    exists d, rel, target :: d in schema && d.name == t.res.typ && rel in d.relationships && rel.relation == t.relation
      && target in rel.types && Admits(target, t.subj)
  }

  /** relationshipsToNonRoles leaves out V1 roles and wildcards. */
  predicate IsRoleOrWildcard(subject: Object) {
    subject.typ == "role" || subject.id == "*"
  }

  function NonRoles(g: Graph): set<(Object, string, Object)> {
    set t | t in g && !IsRoleOrWildcard(t.subj.obj) :: (t.res, t.relation, t.subj.obj)
  }

  function NonRolesTo(g: Graph, subject: Object): set<(Object, string, Object)> {
    set t | t in g && t.subj.obj == subject && !IsRoleOrWildcard(subject) :: (t.res, t.relation, t.subj.obj)
  }

  /** A read filtered by the type of the resource and by the subject. */
  function ToSubject(g: Graph, types: set<string>, subject: Object): Graph {
    set t | t in g && t.res.typ in types && t.subj.obj == subject
  }

  function TypesOf(relTypes: map<string, seq<string>>, relations: set<string>): set<string>
    requires relations <= relTypes.Keys
  {
    set r, typ | r in relations && typ in relTypes[r] :: typ
  }

  /** Some relation of the type accepts subjects of the other type. */
  predicate Accepts(schema: seq<Definition>, typ: string, subject: string) {
    exists d, rel, target :: d in schema && d.name == typ && rel in d.relationships && target in rel.types
      && target.name == subject
  }

  function FromAccepting(schema: seq<Definition>, g: Graph, subject: string): Graph {
    set t | t in g && Accepts(schema, t.res.typ, subject)
  }

  lemma AcceptsMeansListed(schema: seq<Definition>, typ: string, subject: string)
    requires subject in BySubject(schema)
    ensures Accepts(schema, typ, subject) <==>
      typ in TypesOf(BySubject(schema)[subject], BySubject(schema)[subject].Keys)
  {
    var relTypes := BySubject(schema)[subject];
    if d, rel, target :|
      d in schema && d.name == typ && rel in d.relationships && target in rel.types && target.name == subject {
      assert Names(d.relationships, subject, rel.relation);
      SubjectIndexIsComplete(schema, subject, rel.relation, typ);
    }
    if r :| r in relTypes && typ in relTypes[r] {
      SubjectIndexIsComplete(schema, subject, r, typ);
      var d :| d in schema && d.name == typ && Names(d.relationships, subject, r);
    }
  }

  lemma SomeReadFails(schema: seq<Definition>, relTypes: map<string, seq<string>>, subject: string,
    failing: set<string>)
    requires subject in BySubject(schema) && relTypes == BySubject(schema)[subject]
    ensures TypesOf(relTypes, relTypes.Keys) !! failing <==>
      forall typ :: typ in failing ==> !Accepts(schema, typ, subject)
  {
    forall typ
      ensures typ in TypesOf(relTypes, relTypes.Keys) <==> Accepts(schema, typ, subject)
    {
      AcceptsMeansListed(schema, typ, subject);
    }
  }

  lemma AllTypesListed(schema: seq<Definition>, g: Graph, relTypes: map<string, seq<string>>, resource: Object)
    requires resource.typ in BySubject(schema) && relTypes == BySubject(schema)[resource.typ]
    ensures ToSubject(g, TypesOf(relTypes, relTypes.Keys), resource) ==
      set t | t in FromAccepting(schema, g, resource.typ) && t.subj.obj == resource
  {
    forall typ
      ensures typ in TypesOf(relTypes, relTypes.Keys) <==> Accepts(schema, typ, resource.typ)
    {
      AcceptsMeansListed(schema, typ, resource.typ);
    }
  }

  lemma AllItemsListed(schema: seq<Definition>, g: Graph, relTypes: map<string, seq<string>>, resource: Object)
    requires resource.typ in BySubject(schema) && relTypes == BySubject(schema)[resource.typ]
    ensures NonRoles(ToSubject(g, TypesOf(relTypes, relTypes.Keys), resource)) ==
      NonRolesTo(FromAccepting(schema, g, resource.typ), resource)
  {
    AllTypesListed(schema, g, relTypes, resource);
    var read := ToSubject(g, TypesOf(relTypes, relTypes.Keys), resource);
    assert forall t :: t in read <==> t in FromAccepting(schema, g, resource.typ) && t.subj.obj == resource;
  }

  /** What is listed, relationship by relationship. */
  lemma ListedItems(schema: seq<Definition>, g: Graph, resource: Object)
    ensures forall x :: x in NonRolesTo(FromAccepting(schema, g, resource.typ), resource) <==>
      && resource.typ != "role" && resource.id != "*" && x.2 == resource && Accepts(schema, x.0.typ, resource.typ)
      && exists t :: t in g && t.res == x.0 && t.relation == x.1 && t.subj.obj == resource
  {
  }

  /** Every stored relationship to the resource is listed if and only if all of them start at types
      that accept it, as they do when the schema admits the whole store. */
  lemma EverythingIsListed(schema: seq<Definition>, g: Graph, resource: Object)
    requires resource.typ != "role" && resource.id != "*"
    ensures NonRolesTo(FromAccepting(schema, g, resource.typ), resource) == NonRolesTo(g, resource) <==>
      forall t :: t in g && t.subj.obj == resource ==> Accepts(schema, t.res.typ, resource.typ)
    ensures (forall t :: t in g ==> Conforms(schema, t)) ==>
      forall t :: t in g && t.subj.obj == resource ==> Accepts(schema, t.res.typ, resource.typ)
  {
    var listed, all := NonRolesTo(FromAccepting(schema, g, resource.typ), resource), NonRolesTo(g, resource);
    if listed == all {
      forall t | t in g && t.subj.obj == resource
        ensures Accepts(schema, t.res.typ, resource.typ)
      {
        assert (t.res, t.relation, t.subj.obj) in all;
      }
    }
  }
}
