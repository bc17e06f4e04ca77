/** The values shared by the policy compiler, the schema printer and the query
    engine (internal/types/types.go).  A Go reference to an empty struct is a
    boolean here, a nil-able reference is an Option, and an absent string is "". */
module Types {

  datatype Option<+T> = None | Some(value: T)

  datatype TargetType = TargetType(name: string, subjectIdentifier: string, subjectRelation: string)

  /** A target named only by its type. */
  function Plain(name: string): TargetType {
    TargetType(name, "", "")
  }

  /** A named relation of a resource type and the targets it accepts. */
  datatype Relationship = Relationship(relation: string, types: seq<TargetType>)

  datatype RelationshipAction = RelationshipAction(relation: string, actionName: string)

  datatype Condition = Condition(
    roleBinding: bool,
    roleBindingV2: bool,
    relationshipAction: Option<RelationshipAction>)

  /** The condition `relation->action`, or `relation` alone when action is "". */
  function Along(relation: string, action: string): Condition {
    Condition(false, false, Some(RelationshipAction(relation, action)))
  }

  datatype ConditionSet = ConditionSet(conditions: seq<Condition>)

  datatype Action = Action(name: string, conditions: seq<Condition>, conditionSets: seq<ConditionSet>)

  /** One definition of the emitted schema (`types.ResourceType`; the policy's
      own resource types are Iapl.ResourceType). */
  datatype Definition = Definition(
    name: string,
    idPrefix: string,
    relationships: seq<Relationship>,
    actions: seq<Action>)

  type Schema = map<string, Definition>

  /** order lists every element of s, each once: one possible iteration of a Go map. */
  ghost predicate Enumerates<T(!new)>(order: seq<T>, s: set<T>) {
    && (forall x :: x in order <==> x in s)
    && (forall i, j :: 0 <= i < j < |order| ==> order[i] != order[j])
  }

  /** An iteration of s that has yet to visit the rest. */
  ghost predicate EnumeratesBut<T(!new)>(order: seq<T>, s: set<T>, rest: set<T>) {
    rest <= s && Enumerates(order, s - rest)
  }

  lemma EnumerationGrows<T(!new)>(order: seq<T>, s: set<T>, rest: set<T>, x: T)
    requires EnumeratesBut(order, s, rest) && x in rest
    ensures EnumeratesBut(order + [x], s, rest - {x})
  {
    assert s - (rest - {x}) == s - rest + {x};
  }

  lemma EnumerationEnds<T(!new)>(order: seq<T>, s: set<T>)
    requires EnumeratesBut(order, s, {})
    ensures Enumerates(order, s)
  {
    assert s - {} == s;
  }
}
