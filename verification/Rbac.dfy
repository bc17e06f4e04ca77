/** RBAC directives and the clauses they generate (internal/iapl/rbac.go). */
module Rbac {
  import opened Types

  const ROLE_OWNER_RELATION := "owner"
  const MEMBER_ROLE_RELATION := "member_role"
  const AVAILABLE_ROLES := "avail_role"
  const ROLE_RELATION := "role"
  const SUBJECT_RELATION := "subject"
  const PERMISSION_SUFFIX := "_rel"
  const GRANT_RELATION := "grant"

  /** The actions every resource with a V2 condition also supports. */
  const ROLE_BINDING_ACTIONS: seq<string> := [
    "iam_rolebinding_create",
    "iam_rolebinding_update",
    "iam_rolebinding_delete",
    "iam_rolebinding_get",
    "iam_rolebinding_list"
  ]

  datatype ResourceRoleBindingV2 = ResourceRoleBindingV2(
    inheritPermissionsFrom: seq<string>,
    inheritAllActions: bool)

  datatype RBACResource = RBACResource(name: string, idPrefix: string)

  datatype RBAC = RBAC(
    roleResource: RBACResource,
    roleBindingResource: RBACResource,
    roleSubjectTypes: seq<string>,
    roleOwners: seq<string>,
    roleBindingSubjects: seq<TargetType>)

  /** `grant->action`, the condition that marks a V2 role binding. */
  function GrantCondition(action: string): Condition {
    Condition(false, true, Some(RelationshipAction(GRANT_RELATION, action)))
  }

  /** grant->action + from[0]->action + ... */
  function RoleBindingConditions(action: string, from: seq<string>): seq<Condition> {
    [GrantCondition(action)] + seq(|from|, i requires 0 <= i < |from| => Along(from[i], action))
  }

  function RoleBindingActionsFor(from: seq<string>): seq<Action> {
    seq(|ROLE_BINDING_ACTIONS|, i requires 0 <= i < |ROLE_BINDING_ACTIONS| =>
      Action(ROLE_BINDING_ACTIONS[i], RoleBindingConditions(ROLE_BINDING_ACTIONS[i], from), []))
  }

  /** The action names the policy adds for managing role bindings. */
  function RoleBindingActionNames(): set<string> {
    (set a | a in ROLE_BINDING_ACTIONS) + {AVAILABLE_ROLES}
  }

  method CreateRoleBindingConditionsForAction(action: string, from: seq<string>) returns (conds: seq<Condition>)
    ensures conds == RoleBindingConditions(action, from)
    ensures |conds| == |from| + 1
    ensures conds[0] == Condition(false, true, Some(RelationshipAction("grant", action)))
    ensures forall i :: 0 <= i < |from| ==>
      conds[i + 1] == Condition(false, false, Some(RelationshipAction(from[i], action)))
  {
    conds := [GrantCondition(action)];
    for i := 0 to |from|
      invariant |conds| == i + 1 && conds[0] == GrantCondition(action)
      invariant forall j :: 0 <= j < i ==> conds[j + 1] == Along(from[j], action)
    {
      conds := conds + [Along(from[i], action)];
    }
  }

  method CreateRoleBindingActionsForResource(from: seq<string>) returns (actions: seq<Action>)
    ensures actions == RoleBindingActionsFor(from)
    ensures |actions| == 5
    ensures actions[0].name == "iam_rolebinding_create" && actions[1].name == "iam_rolebinding_update"
    ensures actions[2].name == "iam_rolebinding_delete" && actions[3].name == "iam_rolebinding_get"
    ensures actions[4].name == "iam_rolebinding_list"
    ensures forall a :: a in actions ==> a.conditions == RoleBindingConditions(a.name, from) && a.conditionSets == []
  {
    actions := [];
    for i := 0 to |ROLE_BINDING_ACTIONS|
      invariant actions == RoleBindingActionsFor(from)[..i]
    {
      var conds := CreateRoleBindingConditionsForAction(ROLE_BINDING_ACTIONS[i], from);
      actions := actions + [Action(ROLE_BINDING_ACTIONS[i], conds, [])];
    }
  }
}
