# Verified model of permissions-api

This project models the logic of permissions-api in Dafny and proves what that logic promises.
It has four parts.

**The policy compiler.** A policy document declares resource types, unions, actions, action
bindings and an optional RBAC V2 block. `NewPolicy` compiles it, `Validate` checks it and `Schema`
emits a relationship schema. `Permissions` gives an emitted schema a meaning, the least fixed
point of permission derivation over an arbitrary, possibly cyclic relationship graph, indexed by
the depth of the derivation. `PolicyMeaning` gives the document itself a meaning, with unions read
as sum types and role bindings read as docs/rbac.md describes them. `CompilerCorrectness` proves
that the two agree at every depth. `RoleBindingMeaning` proves what the RBAC V2 encoding grants,
`SchemaClosure` when the output refers only to what it declares, `SchemaNames` when it declares
nothing twice, `OrderIndependence` that neither map iteration nor document order matters, and
`SchemaText` that printed permissions parse back.

**The two stores.** V2 roles and role bindings live in database rows and in relationships.
`Engine` is the code: a class whose operations open a transaction, write relationships once and
compensate. Each external call is named, and any set of them may fail. `TwoStores` says what one
operation may do to the pair of stores and what every step keeps; `StoreRuns` speaks about whole
runs, `Grants` about what the operations grant, and `Leftovers` about what failed commits leave
behind. `Relations` holds updates, compensation, differences and names; `SchemaIndex` the indexes
that the engine builds from a schema.

**The check-all worker pool.** `CheckAll` models workers, channels, collector and context as
interleaved steps.

**The host selector.** `HostIdentity` has identity strings and the order of hosts, `Selector` the
code (hosts and selector are classes), `SelectorRuns` its runs under any interleaving: a selection
reads the errors of the hosts one by one, and they may change between two readings.

`Example` is a small policy that meets every assumption below; `ExampleRuns` has runs of it, one of
which ends with a grant, so the theorems are not about nothing. `Counterexamples` has policies that
are accepted although their schemas do not work.

How to read the model:

- Go maps have no order. Where the code iterates over one, the model enumerates it in an arbitrary
  order; the orders used by `NewPolicy` are kept in a ghost field and every result holds for all
  of them.
- An object is a type and an ID. In the program an ID's prefix determines its type, so an object
  stands for an ID, and a conversion from ID to resource is a call that may fail.
- `Sound` collects what the configuration must satisfy: the policy is accepted, the role types are
  its own, subject types lie outside RBAC, no relation or binding of the document is called
  `avail_role`, no action is called `member_role` and no relation of that name has another target,
  and nothing binds `avail_role_rel` on the role type. `Governed` speaks of a region of types closed
  under inheritance: there the action is bound only by role-binding conditions, V1 or V2, no
  relation bears its name, and `grant` leads to role bindings; other types may bind it as they like.
  Nothing may bind `action_rel` on the role type, but a policy may well have an action of that name.
  `Consistent` is the invariant of the two stores.
- The relationship store refuses relationships that the schema does not admit, writes a list of
  updates atomically, and answers a permission check as the schema grants. Compensating writes
  succeed. Runs are serial.

Results that differ from what the code's comments or names suggest.  Where a property fails, its
exact condition is proved and an input shows the failure:

- A V2 condition on a type without `rolebindingv2` is accepted and emitted as a clause without a
  relation (internal/iapl/policy.go:809, 820-825). `SchemaClosure.AcceptedSchemaIsClosedIffReady`
  says exactly when an accepted schema is closed, `SchemaText.PermissionParsesBack` when a permission
  parses; `Counterexamples.AcceptedButNotClosed` is an accepted policy whose permission does neither.
- Validation does not compare names, so an accepted schema may declare one twice, such as a
  management action that is bound on a type with V2 conditions, or an action with the name of a
  relation (internal/iapl/policy.go:761-838). `SchemaNames.AcceptedIsWellNamedIff` says exactly when
  it does not; `Counterexamples.AcceptedButNotWellNamed` has an input.
- A union in `RoleSubjectTypes` loses the wildcard when it is expanded, and the wildcards written
  for a role still name the union; they are admitted exactly when the subject type is not a union
  (`StoreRuns.WildcardIsAdmittedUnlessUnion`). `Counterexamples.AcceptedButNotWritable` has one.
- `relationToAction` cuts at the first `_rel`, so exactly the actions that contain `_rel` are not
  read back (`Relations.ActionReadsBack`), and `UpdateRoleV2` then keeps or skips actions it misreads
  (`StoreRuns.UpdateStoresRequest`). `ExampleRuns.AnUpdateThatMisreads` is a run in which it does.
- `UpdateRoleBinding` does not return when its row update fails; the commit of the finished
  transaction fails next and the compensation runs twice, which is harmless (`Relations.ApplyTwice`).
- A preferred host is recognised only in a record whose priority and weight are zero, because both
  are part of a host's identity (`HostIdentity.ConfiguredHostMatches`, and
  `HostIdentity.PreferredHostIsMissed` for a record with a weight).
- A text that is no 16-bit port is read as the default 0, as a comment says, exactly when the digits
  it begins with denote a 16-bit number, and as 65535 otherwise
  (pkg/permissions/internal/selecthost/host.go:67; `HostIdentity.InvalidPortIsZero`, and
  `HostIdentity.LargePortIsNotZero` for 70000).
- A role that a failed commit left in the relationship store is still available where it is owned
  (`ExampleRuns.LeftoversAreAvailable`). Removing any role at all takes away its own `member_role`
  and `avail_role` and that of no other subject (`Leftovers.MembershipWithoutLeftovers`,
  `Leftovers.AvailabilityWithoutLeftovers`). Where the document follows no arrow along `member_role`,
  a leftover changes no check of any other subject (`Leftovers.LeftoversStayUnseen`). Where it
  mentions neither name, a check on another object changes exactly when its subject is the leftover
  role itself, being a `member_role` of the object or reaching an owner along inherit relations
  (`Leftovers.OnlyOwnershipSeesLeftovers`).

## Model

| member | source | states |
|---|---|---|
| Rbac.CreateRoleBindingConditionsForAction | internal/iapl/rbac.go:160-181 | The conditions are grant->action followed by from->action for each inherited relation, in order |
| Rbac.CreateRoleBindingActionsForResource | internal/iapl/rbac.go:189-206 | Exactly the five role-binding actions, each with the V2 conditions of its own name |
| Policy.Policy.constructor | internal/iapl/policy.go:101-139 | After NewPolicy every table is the compiled one, for some iteration order of each map: all passes have run, in this order, on every type and binding |
| Policy.Policy.CompileRBAC | internal/iapl/policy.go:125-133 | The RBAC branch: generated types augmented with member_role, and the bindings of role-binding and available-role actions |
| Policy.Policy.GenerateRBACTypes | internal/iapl/policy.go:126-131 | Role and role-binding types replace declared types of the same name and keep all others |
| Policy.Policy.ReadActions | internal/iapl/policy.go:112-128 | The actions are the declared ones plus, with RBAC, the role-binding actions and avail_role |
| Policy.Policy.CreateV2RoleResourceType | internal/iapl/policy.go:490-529 | One wildcard relation per action, in map order, then the owner relation; nothing else changes |
| Policy.Policy.CreateRoleBindingResourceType | internal/iapl/policy.go:565-619 | The role-binding type has the relation role, to the role type, and the relation subject, to the subjects of the RBAC block with their subject relations; for each action the binding role->action_rel and subject, in map order; nothing else changes |
| Policy.Policy.ExpandRBACV2Relationships | internal/iapl/policy.go:663-715 | Owner types gain member_role, and each type that owns or inherits roles gains its avail_role binding, whatever order the types are visited in |
| Policy.Policy.ExpandActionBindings | internal/iapl/policy.go:446-473 | A binding on a union becomes one per member, other bindings stay, and the lookup table knows exactly the bound pairs |
| Policy.Policy.ExpandResourceTypes | internal/iapl/policy.go:717-735 | Union targets of every relation of every type are replaced by the members, in place |
| Policy.Policy.ValidateUnions | internal/iapl/policy.go:272-286 | No error exactly when no union bears the name of a type and all members are types |
| Policy.Policy.ValidateTarget | internal/iapl/policy.go:295-303 | No error exactly when the target type exists and a subject relation is a relation or a bound action of it; which of the two errors otherwise |
| Policy.Policy.ValidateResourceTypes | internal/iapl/policy.go:288-308 | No error exactly when every prefix is valid and every target of every relation is accepted |
| Policy.Policy.ValidateConditionRelationshipAction | internal/iapl/policy.go:310-351 | No error exactly when the first relation of that name exists and all its targets bind the action; which error otherwise |
| Policy.Policy.ValidateConditions | internal/iapl/policy.go:353-380 | No error exactly when each condition has one clause and its relationship action is accepted |
| Policy.Policy.ValidateActionBindings | internal/iapl/policy.go:382-425 | No error exactly when bindings are pairwise distinct by action and type and each is accepted |
| Policy.Policy.ValidateRoles | internal/iapl/policy.go:429-444 | No error exactly when every role owner is a type |
| Policy.Policy.Validate | internal/iapl/policy.go:737-755 | No error exactly when all four checks accept, and the error names the first that does not |
| Policy.Policy.EmitBinding | internal/iapl/policy.go:779-834 | One binding more: the invariant of the emission loop, with V2 management actions recorded once per type |
| Policy.Policy.EmitConditions | internal/iapl/policy.go:789-829 | The clauses, V1 relations and V2 trigger of one binding |
| Policy.Policy.AppendV2Actions | internal/iapl/policy.go:836-838 | The management actions come after all bound actions, and the result is the emitted schema |
| Policy.Policy.Schema | internal/iapl/policy.go:757-846 | Every type once, each with exactly its emitted definition |
| SchemaClosure.CompilePolicy | internal/iapl/policy.go:101-139 | NewPolicy, Validate and Schema together: accepted policies, and only they, yield a schema with one definition per type, each with the ID prefix of its type in the document; Schema never fails on them |
| PolicyTables.LastTypeCounts | internal/iapl/policy.go:101-111 | Of several declared types of one name the last one is in the table |
| PolicyTables.LastUnionCounts | internal/iapl/policy.go:101-111 | Of several unions of one name the last one is in the table |
| PolicyTables.PrefixOfDefinition | internal/iapl/policy.go:757-766 | Every definition has the name of its type and the ID prefix that the RBAC block or the last declaration of the type gives it |
| PolicyTables.CompiledRelations | internal/iapl/policy.go:663-735 | The relations of a compiled type are exactly the expansions of the declared, generated and member_role relations |
| PolicyTables.CompiledBindingsMembers | internal/iapl/policy.go:446-461 | The compiled bindings are exactly the generated, the available-role and the expanded declared ones |
| PolicyTables.EmittedRelationshipsMembers | internal/iapl/policy.go:761-808 | The emitted relations of a type are its own and one V1 relation for each action bound with a V1 condition |
| PolicyMeaning.ExpansionIsComplete | internal/iapl/policy.go:717-735 | A target stands for a type through any number of unions exactly when one expansion pass lists it |
| PolicyMeaning.ExpansionIsIdempotent | internal/iapl/policy.go:717-735 | A second expansion pass changes nothing |
| PolicyMeaning.NothingToExpand | internal/iapl/policy.go:717-735 | After one pass no relation of an accepted policy names a union |
| PolicyMeaning.BindingOfDocument | internal/iapl/policy.go:446-461 | A compiled binding on a type exists exactly when the document binds the type, directly or through a union that has it as a member |
| PolicyMeaning.DeclaresAgree | internal/iapl/policy.go:490-808 | The schema declares a target of a relation exactly where the document does: in declared types, in member_role, owner, permission, role and subject relations spelled out from the RBAC block, and in V1 relations, with unions read as sum types |
| CompilerCorrectness.BoundTypesAreNamed | internal/iapl/policy.go:414-417 | In an accepted policy only existing types are bound |
| CompilerCorrectness.StoredAgree | internal/iapl/policy.go:717-735 | The same stored relationships count under the schema and under the document |
| CompilerCorrectness.BoundActionAgrees | internal/iapl/policy.go:779-834 | One emitted action holds exactly when the document's binding does, given agreement at smaller depth |
| CompilerCorrectness.GeneratedActionAgrees | internal/iapl/rbac.go:189-206 | The generated role-binding actions hold exactly when granted or inherited, as the document means them |
| CompilerCorrectness.CompilerPreservesMeaning | internal/iapl/policy.go:757-846 | For every accepted policy, graph, depth, object, name and subject: the compiled schema grants exactly what the document does |
| CompilerCorrectness.MarksAgree | internal/iapl/policy.go:789-838 | Emitted conditions are marked as V1 or V2 role bindings on exactly the types where the document has such conditions that take effect |
| RoleBindingMeaning.NothingBoundOnRoleBindings | internal/iapl/policy.go:382-425 | An accepted document cannot bind an action on the role-binding type: it would repeat a generated binding |
| RoleBindingMeaning.SubjectTargets | internal/iapl/policy.go:565-586 | For every accepted policy the schema declares a target for subject on role bindings exactly when the RBAC block lists it, subject relation included, or a union that stands for it |
| RoleBindingMeaning.RoleTargetIsTheRole | internal/iapl/policy.go:565-580 | ... and for role exactly the role type |
| RoleBindingMeaning.OwnerTargets | internal/iapl/policy.go:490-529 | ... for owner on roles exactly the owner types, unions as sums |
| RoleBindingMeaning.PermissionTargets | internal/iapl/policy.go:490-522 | ... for action_rel on roles exactly the wildcards of the subject types, for actions of the policy, and V1 roles where a V1 condition binds the action there |
| RoleBindingMeaning.RoleCarries | internal/iapl/policy.go:506-522 | A role holds an action's relation for a subject exactly when its wildcard for the subject's type is stored |
| RoleBindingMeaning.BoundBelowIsBoundAt | internal/iapl/policy.go:588-609 | A derivation through grant yields a grant, a binding, a role with the wildcard and a bound subject |
| RoleBindingMeaning.BoundAtIsBoundBelow | internal/iapl/policy.go:588-609 | Such a chain yields a derivation through grant |
| RoleBindingMeaning.RoleBindingsGrantAlongPaths | internal/iapl/policy.go:565-619 | RBAC V2 is encoded right: in a region closed under inheritance where an action is governed by role bindings it is granted exactly when a finite inherit path leads to an object with grant, role and wildcard, whose binding has the subject, or with a V1 role; types outside the region may bind the action otherwise |
| RoleBindingMeaning.NotAvailableOnRoleTypes | internal/iapl/policy.go:663-715 | No role is available on a role or a role binding |
| RoleBindingMeaning.MembershipIsStored | internal/iapl/policy.go:663-715 | A subject has member_role on an object exactly when that relationship is stored and admitted |
| RoleBindingMeaning.AvailabilityIsReachability | internal/iapl/policy.go:663-715 | A subject, on objects outside RBAC any subject at all, satisfies avail_role exactly when a finite inherit path leads to a role owner that has it as member_role |
| SchemaClosure.AcceptedClauseIsClosed | internal/iapl/policy.go:310-351 | An accepted relationship action names a declared relation whose targets all define the action |
| SchemaClosure.ConditionReadyMeansClosed | internal/iapl/policy.go:789-828 | The clauses of one condition are closed exactly when what Validate does not check holds for it |
| SchemaClosure.ClauseReadyMeansClosed | internal/iapl/policy.go:757-846 | Any clause is closed in the schema exactly when the compiled tables provide its relation, declared or added by a V1 condition, and its action on all targets |
| SchemaClosure.GeneratedSetsAreReady | internal/iapl/policy.go:588-609 | The condition sets generated for role bindings are always ready |
| SchemaClosure.AcceptedTargetsClosed | internal/iapl/policy.go:295-303 | Every declared target of an accepted policy exists and defines its subject relation |
| SchemaClosure.AcceptedSchemaIsClosedIffReady | internal/iapl/policy.go:737-846 | With distinct relation names an accepted schema is closed if and only if V1 subjects, grant, inherited relations and their targets, and condition sets provide what the clauses use, with or without an RBAC block |
| SchemaNames.AcceptedIsWellNamedIff | internal/iapl/policy.go:757-846 | In an accepted schema no relation or permission is declared twice or as both if and only if relation names differ, no action is named as a relation, each binding has at most one V1 condition whose relation is no other name, and management actions are not bound where V2 is used |
| SchemaNames.AcceptedSchemaLoadsIff | internal/iapl/policy.go:737-846 | An accepted schema declares everything it uses, and everything once, if and only if names and clauses are ready, without any assumption on names |
| OrderIndependence.BindingsArePermuted | internal/iapl/policy.go:588-614 | Two runs yield the same bindings as multisets, whatever the orders of maps and documents |
| OrderIndependence.TypesAgree | internal/iapl/policy.go:509-522 | Two runs yield the same types, up to the order of role relations |
| OrderIndependence.AcceptedIsOrderFree | internal/iapl/policy.go:737-755 | Acceptance carries over from one run to the other |
| OrderIndependence.DefinitionIsOrderFree | internal/iapl/policy.go:757-846 | Every definition has the same relations, actions and conditions in both runs |
| OrderIndependence.CompilationIsOrderFree | internal/iapl/policy.go:101-139 | Documents with the same objects and distinct names are accepted alike and compile to the same schema, whatever the iteration orders |
| OrderIndependence.MergeCommutes | internal/iapl/policy.go:142-156 | Merging two documents in either order is the same when at most one has an RBAC block |
| OrderIndependence.MergeHoldsBoth | internal/iapl/policy.go:142-156 | Each list of a merged document begins with the one and holds exactly the elements of both; the RBAC block is that of the second document, if it has one |
| SchemaText.SetParses | internal/spicedbx/schema.go:23-37 | A printed condition set parses to its union, with either precedence, or not at all if a clause is missing |
| SchemaText.PermissionParsesBack | internal/spicedbx/schema.go:12-57 | A printed permission parses, with either precedence, to its union or intersection of unions, exactly when every clause names a relation and nothing is empty |
| SchemaText.ParsedPermissionMeans | internal/spicedbx/schema.go:51-57 | What is parsed back grants what the action grants, on every graph |
| Relations.RollbackUpdates | internal/query/relations.go:1225-1260 | The compensating list is the inverse of every update, last first |
| Relations.ApplyTwice | internal/query/relations.go:1225-1260 | Applying any list twice is applying it once |
| Relations.CompensationRestores | internal/query/relations.go:1225-1260 | Compensating a list every step of which took effect restores the relationships |
| Relations.CompensationRestoresIff | internal/query/relations.go:1225-1260 | For any list: compensation restores the relationships if and only if the first update of every tuple took effect |
| Relations.MixedIsFirstEffective | internal/query/rolebindings.go:496-522 | Additions of new tuples followed by removals of old ones are such a list, and what they yield |
| Relations.Diff | internal/query/relations.go:366-397 | The incoming elements that are not current and the current that are not incoming, in order and multiplicity; nothing for an empty request that is not allowed |
| Relations.WithoutAddsUp | internal/query/relations.go:366-397 | What diff yields is its input element by element, in order and multiplicity, without the elements of the other list |
| Relations.DiffIsExact | internal/query/relations.go:366-397 | The two lists are disjoint, turn the current set into exactly the incoming one, and are empty only if the sets are equal |
| Relations.ActionReadsBack | internal/query/relations.go:517-529 | An action is read back from its relation if and only if _rel does not occur in it; reading never panics |
| TwoStores.SubjectTupleIs | internal/query/rolebindings.go:605-636 | The relationship of a subject is subject@x with the subject relation of the last target of its type |
| TwoStores.RoleTuplesAre | internal/query/roles_v2.go:594-690 | The relationships of a role are owner, member_role and action_rel@type:* for all actions and subject types |
| TwoStores.BindingTuplesAre | internal/query/rolebindings.go:167-188 | The relationships of a binding are role, grant and its subjects |
| TwoStores.AvailableIsOwned | internal/query/rolebindings.go:573-601 | A role that is available on a resource is a member of its owner in the relationship store, and the resource is not part of RBAC |
| TwoStores.MemberRoleOutside | internal/query/roles_v2.go:594-633 | A role the relationship store accepts has an owner outside RBAC |
| TwoStores.CreateRoleKeeps | internal/query/roles_v2.go:25-94 | Creating a role keeps the two stores consistent, also when only one of them changes |
| TwoStores.UpdateRoleKeeps | internal/query/roles_v2.go:326-448 | So does updating a role |
| TwoStores.DeleteRoleKeeps | internal/query/roles_v2.go:450-591 | So does deleting a role, whichever of its two deletions fail |
| TwoStores.CreateBindingKeeps | internal/query/rolebindings.go:92-218 | So does creating a binding |
| TwoStores.UpdateBindingKeeps | internal/query/rolebindings.go:440-555 | So does updating the subjects of a binding |
| TwoStores.DeleteBindingKeeps | internal/query/rolebindings.go:220-329 | So does deleting a binding |
| TwoStores.StepKeepsConsistent | internal/query/rolebindings.go:92-329 | Every operation keeps the invariant: rows and relationships of bindings in step, bound roles owned, wildcards uniform |
| StoreRuns.TheStoresStayInStep | internal/query/rolebindings.go:92-218 | In every state of every run a binding row has exactly one role, whose row exists, and exactly one grant, from the row's resource; every grant ends at a row |
| Leftovers.UnfinishedCreateLeavesOrphan | internal/query/roles_v2.go:72-84 | A create whose commit fails leaves a role in the relationship store only |
| Leftovers.UnfinishedDeleteLeavesOrphan | internal/query/roles_v2.go:570-588 | A delete whose commit fails leaves a row without membership |
| Leftovers.OrphansStayOrphans | internal/query/roles_v2.go:570-588 | No operation completes a leftover role again |
| Leftovers.LeftoversAreNeverBound | internal/query/roles_v2.go:72-84 | A role left in one store only is never bound later, whatever operations follow |
| Permissions.GrantedWithout | internal/query/roles_v2.go:78-81 | Names closed under the schema that avoid the only relation leading to an object do not depend on that object, on any graph |
| Leftovers.LeftoversAreInert | internal/query/roles_v2.go:78-81 | Removing all relationships of a leftover role changes no check, of any subject on any other object, that does not follow member_role |
| Leftovers.LeftoversStayInert | internal/query/roles_v2.go:570-588 | The same in every later state of every run |
| Permissions.GrantedMisses | internal/query/roles_v2.go:78-81 | Names no derivation of which passes through an object on its way to a subject do not depend on that object, for that subject |
| Leftovers.EmittedClauses | internal/iapl/policy.go:779-838 | Every clause of an emitted action is one of the document or one of six forms the compiler adds |
| Leftovers.OthersNeverSeeLeftovers | internal/query/roles_v2.go:78-81 | If the document follows no arrow along member_role, removing a leftover role changes no check, under any name, of any other subject on any other object |
| Leftovers.LeftoversStayUnseen | internal/query/roles_v2.go:570-588 | The same in every later state of every run |
| Leftovers.MembershipWithoutLeftovers | internal/query/roles_v2.go:78-81 | After any role is removed a subject has member_role on another object exactly if it had it before and is not that role |
| Leftovers.AvailabilityWithoutLeftovers | internal/query/rolebindings.go:573-601 | After any role is removed a subject is available on an object outside RBAC exactly if it was before and is not that role |
| Leftovers.ObliviousDocumentAvoids | internal/iapl/policy.go:663-715 | When the document never mentions member_role and avail_role, all other names form such a closed set |
| Leftovers.OnlyOwnershipSeesLeftovers | internal/query/roles_v2.go:570-588 | Then, along every run, removing the remains changes a check on another object, under any name and for any subject, if and only if the subject is the leftover role itself and the check is a member_role it has or an avail_role it reaches along inherit relations |
| StoreRuns.RoleIsAvailableBelowItsOwner | internal/query/rolebindings.go:573-601 | In every consistent state a role with a row can be bound exactly where a finite inherit path leads to its owner, the owner included, if the owner is of a role-owner type and still has the role as a member |
| StoreRuns.RunsBindBelowTheOwner | internal/query/rolebindings.go:573-601 | So in every state of every run, after inherit relations have moved |
| StoreRuns.BoundRolesStayOwned | internal/query/rolebindings.go:573-601 | A bound role has its row and is still a member of its owner |
| StoreRuns.RoleActionsReadBack | internal/query/roles_v2.go:692-727 | In every consistent state the first subject type yields exactly the stored actions if and only if none of them contains _rel |
| StoreRuns.CreateStoresRequest | internal/query/roles_v2.go:663-690 | After a successful create exactly the requested actions are stored |
| StoreRuns.UpdateStoresRequest | internal/query/roles_v2.go:361-413 | After a successful update with actions exactly the requested ones are stored, if and only if no dropped action contains _rel and no added one is misread as present |
| StoreRuns.WildcardIsAdmittedUnlessUnion | internal/query/roles_v2.go:637-661 | The schema admits a role's wildcard for an action exactly when its subject type is not a union |
| Grants.MembersAreSubjects | internal/query/rolebindings.go:605-636 | Whoever is a member of a stored subject such as group#member holds subject on the binding |
| Grants.RoleThenBindingGrants | internal/query/rolebindings.go:92-218 | After a role is created with actions and then bound, every member of every bound subject has each of the actions on the resource and on whatever inherits from it |
| Grants.UpdatedBindingHasMembers | internal/query/rolebindings.go:440-555 | After the subjects of a binding are replaced, the members of each new subject hold subject on it |
| Engine.ActionUpdates | internal/query/roles_v2.go:637-661 | One update per subject type, in order, about the wildcard of that type under action_rel |
| Engine.RoleRelationships | internal/query/roles_v2.go:594-690 | The updates touch exactly the wildcards of all actions, the owner and the membership |
| Engine.ListRoleActions | internal/query/roles_v2.go:692-727 | The actions read from the wildcards of the first subject type; reading them back never panics in a consistent store |
| Engine.ReadBinding | internal/query/rolebindings.go:61-87 | All stored subjects and the one role, whatever order relationships are read in; nothing exactly when there is no relationship |
| Engine.SubjectUpdates | internal/query/rolebindings.go:605-636 | One relationship for each subject of the request, with the subject relation that the RBAC block gives its type last, or an error exactly when some subject's type is not listed there |
| Engine.UpdateChanges | internal/query/roles_v2.go:361-410 | The lists that diff yields turn the stored permissions into the updated ones, and are empty exactly when nothing is asked for or the request is what is read |
| Engine.Engine.Commit | internal/query/rolebindings.go:541-548 | Only an open transaction commits, and then all its rows at once |
| Engine.Engine.CreateRoleV2 | internal/query/roles_v2.go:25-94 | Done exactly when no call fails; relationships are left behind exactly when only the commit fails, and they are the owner, the membership and the wildcards; else neither store changes; nothing without an error when no transaction could be started |
| Engine.Engine.GetRoleV2 | internal/query/roles_v2.go:274-324 | The role's row and actions, exactly when the type is the role type, the row exists and both reads succeed |
| Engine.Engine.UpdateRoleV2 | internal/query/roles_v2.go:326-448 | Done and unfinished exactly when which calls succeed, stated for requests that change something and for those that do not; the row and the relationships after each |
| Engine.Engine.DeleteRoleV2 | internal/query/roles_v2.go:450-591 | Refused exactly when the role has no row, is bound, or an early call fails; else exactly the relationships that the succeeding deletions cover are gone, and the row only if all calls succeed |
| Engine.Engine.CreateRoleBinding | internal/query/rolebindings.go:92-218 | Success exactly when no call fails, the role is available and has a row and all subjects' types are listed; then exactly role, grant and subjects, with their subject relations, are added; otherwise neither store changes |
| Engine.Engine.GetRoleBinding | internal/query/rolebindings.go:19-90 | The row, all stored subjects and the one role, exactly when the row and some relationship exist and no read and no ID fails |
| Engine.Engine.UpdateRoleBinding | internal/query/rolebindings.go:440-555 | Success exactly when the binding can be read and nothing is to change or no call fails; then the stored subjects, with their subject relations, are exactly the requested and all else is untouched; otherwise neither store changes |
| Engine.Engine.DeleteRoleBinding | internal/query/rolebindings.go:220-329 | Success exactly when the row exists and no call fails, and then nothing mentions the binding; otherwise neither store changes |
| Engine.Engine.ListRoleBindings | internal/query/rolebindings.go:360-438 | An error exactly when a call it makes fails; otherwise each binding once whose row names the resource, that has subjects and passes the filters, as the stores show it; no dangling grant is ever met |
| Engine.BindingUpdates | internal/query/rolebindings.go:167-198 | The updates of a new binding yield its relationships, and their compensation undoes them even with repeated subjects |
| Engine.BindingDeletions | internal/query/rolebindings.go:261-299 | What is read and deleted is everything about the binding, and compensation restores it |
| Engine.SubjectChanges | internal/query/rolebindings.go:488-522 | The updates turn the stored subjects into the requested ones, and compensation undoes them |
| Engine.ConsistentStoresServe | internal/query/rolebindings.go:361-438 | Consistent stores meet the requirements of every operation |
| Engine.CreateRoleIsAStep | internal/query/roles_v2.go:25-94 | Creating a role, whatever fails, is a step that keeps the stores consistent |
| Engine.CreateBindingIsAStep | internal/query/rolebindings.go:92-218 | Creating a binding, whatever fails, is a step that keeps the stores consistent |
| SchemaIndex.Index.constructor | internal/query/service.go:107-141 | All indexes are built |
| SchemaIndex.Index.CacheSchemaResources | internal/query/service.go:107-141 | Every index is rebuilt from the schema alone, whatever it held before |
| SchemaIndex.HasCondition | internal/query/service.go:143-165 | Whether some action has a V1, or a V2, role-binding condition |
| SchemaIndex.IndexRelationships | internal/query/service.go:119-127 | One more type in the subject index |
| SchemaIndex.ScanFinds | internal/query/relations.go:25-33 | A scan finds a definition of the name exactly when there is one |
| SchemaIndex.MapsAgreeWithScan | internal/query/relations.go:25-33 | With distinct names and prefixes the maps find exactly what a scan of the schema finds |
| SchemaIndex.SubjectIndexIsComplete | internal/query/service.go:119-127 | The index lists a type under a subject and a relation exactly when it declares that relation with that subject type |
| SchemaIndex.KnownSubjects | internal/query/relations.go:820-823 | A subject type is unknown exactly when no relation accepts it |
| SchemaIndex.Index.ListRelationshipsTo | internal/query/relations.go:760-845 | As a set, exactly the stored relationships whose subject is the resource and that start at a type accepting it, V1 roles and wildcards left out; an error exactly for a type no relation accepts, for a failing read of an accepting type, and for a found ID that cannot be converted |
| SchemaIndex.EverythingIsListed | internal/query/relations.go:819-845 | Nothing stored is missed if and only if all relationships to the resource start at such types, as when the schema admits the store |
| SchemaIndex.ListedItems | internal/query/relations.go:760-845 | A relationship is listed exactly when it is stored, ends at the resource, which is neither a V1 role nor a wildcard, and starts at a type accepting it |
| CheckAll.QueueRequests | internal/api/permissions.go:168-204 | Errors exactly when some check is malformed; otherwise every index is queued once, in order |
| CheckAll.StepKeepsInv | internal/api/permissions.go:212-290 | Every interleaved step keeps each request in exactly one place and the counters in line with what was collected |
| CheckAll.EverythingCollected | internal/api/permissions.go:247-290 | If no internal error was counted, or the context lasts, every request was checked once and its verdict collected |
| CheckAll.StatusIsSound | internal/api/permissions.go:292-312 | The status is the one the verdicts call for, 500 before 403 before 400, or it is 500 and the context had ended |
| CheckAll.CheckAllIsSound | internal/api/permissions.go:152-313 | Under every interleaving, success means that every requested pair was checked exactly once, and allowed |
| CheckAll.WithoutExpiryStatusIsExact | internal/api/permissions.go:247-312 | While the context lasts exactly one result per request is collected and the status is a function of the verdicts |
| CheckAll.RunsAreBounded | internal/api/permissions.go:212-238 | A run during which the context lasts takes at most four steps a request and one a worker |
| CheckAll.NeverStuck | internal/api/permissions.go:212-290 | Until the collector is done something can happen, if there is a worker or the context has ended |
| HostIdentity.TrimIsUnique | pkg/permissions/internal/selecthost/helpers.go:33 | Trimming dots has one result |
| HostIdentity.PortRoundTrip | pkg/permissions/internal/selecthost/host.go:67 | A formatted port parses back |
| HostIdentity.PortReadFrom | pkg/permissions/internal/selecthost/host.go:67 | The port read from any text: its number, the maximum if the leading digits do not fit, or 0 if it is not a number |
| HostIdentity.InvalidPortIsZero | pkg/permissions/internal/selecthost/host.go:67 | A text that is no port is read as 0 if and only if its leading digits denote a 16-bit number |
| HostIdentity.LargePortIsNotZero | pkg/permissions/internal/selecthost/host.go:67 | 70000 is no port and is read as 65535 |
| HostIdentity.IdentityIsInjective | pkg/permissions/internal/selecthost/helpers.go:31-40 | Two identities are equal exactly when the hosts differ in trailing dots at most and all numbers are equal, colons in names included |
| HostIdentity.NewHostHasKey | pkg/permissions/internal/selecthost/host.go:65-76 | A host made from a record has the key of the record |
| HostIdentity.ConfiguredHostMatches | pkg/permissions/internal/selecthost/options.go:122-135 | A host configured by name matches a record exactly when name and port agree and priority and weight are zero |
| HostIdentity.PreferredHostIsMissed | pkg/permissions/internal/selecthost/options.go:122-135 | A record of the preferred name and port that has a weight has another identity |
| HostIdentity.BeforeIsStrictWeakOrder | pkg/permissions/internal/selecthost/host.go:141-160 | Before is asymmetric, transitive and negatively transitive, and ties only equal standings |
| HostIdentity.BeforeComparesRanks | pkg/permissions/internal/selecthost/host.go:141-160 | Before is the order of one number, errors above priorities above weights, least first, and then of the averages |
| Selector.Host.constructor | pkg/permissions/internal/selecthost/host.go:65-76 | A new host has the identity of its name, port and record and no error |
| Selector.Host.Check | pkg/permissions/internal/selecthost/host.go:162-253 | The results sum up the probes; the last error sticks and an error-free check clears it |
| Selector.CleanCheck | pkg/permissions/internal/selecthost/host.go:243-252 | A check leaves no error exactly when every probe succeeded |
| Selector.SummaryAddsUp | pkg/permissions/internal/selecthost/host.go:162-241 | Checks, durations and errors of probes add up, in order |
| Selector.Selector.constructor | pkg/permissions/internal/selecthost/selector.go:466-501 | Nothing is selected, the list is empty and there is a fallback |
| Selector.Selector.Scan | pkg/permissions/internal/selecthost/selector.go:192-212 | The first error-free host, and the first ones with the identity of the selected and of the preferred host, early exit included |
| Selector.Selector.SelectHost | pkg/permissions/internal/selecthost/selector.go:175-293 | Selection and sticky deadline after a selection with two readings of the clock; nothing else changes |
| Selector.Selector.MatchHosts | pkg/permissions/internal/selecthost/helpers.go:73-85 | Position by position the surviving object of that identity, or a new error-free host made from the record |
| Selector.LastTracked | pkg/permissions/internal/selecthost/helpers.go:59-72 | Of several hosts with one identity the last in the list is the one that survives |
| Selector.Selector.MarkRemoved | pkg/permissions/internal/selecthost/helpers.go:87-92 | Exactly the hosts whose identity is gone are removed and marked |
| Selector.Selector.DiffHosts | pkg/permissions/internal/selecthost/helpers.go:59-95 | Matching, additions and removals together; the errors of survivors are untouched |
| Selector.Selector.Discover | pkg/permissions/internal/selecthost/selector.go:366-372 | The list becomes the list of records; newcomers are unknown to the selector and without error |
| Selector.Selector.DiscoverRecords | pkg/permissions/internal/selecthost/selector.go:310-395 | The list becomes the list of records; the first discovery also checks and selects |
| Selector.Selector.SortHosts | pkg/permissions/internal/selecthost/selector.go:457-459 | A permutation in which error-free hosts come first, and then lower priorities, lower weights and lower average durations |
| Selector.Selector.FirstIsBest | pkg/permissions/internal/selecthost/selector.go:457-461 | After sorting the first error-free host is the first of all, and has the least priority of the error-free hosts, the least weight among those and the least average duration among those |
| Selector.Selector.CheckHosts | pkg/permissions/internal/selecthost/selector.go:412-462 | Every listed host holds the results of its check, error-free hosts come first by priority, weight and average duration, and a selection was made from that list |
| Selector.Selector.Start | pkg/permissions/internal/selecthost/selector.go:122-153 | Starts once: a quick selector selects its fallback and leaves discovery to the background, any other discovers, checks and selects |
| Selector.Selector.RoundTrip | pkg/permissions/internal/selecthost/http.go:26-69 | Only requests for the target use the host obtained earlier; a transport error marks that host, selected still or not, and a selection follows |
| SelectorRuns.SelectionIsSafe | pkg/permissions/internal/selecthost/selector.go:214-224 | After a selection the host is an error-free member of the list, or the fallback, and that exactly when no listed host is error-free |
| SelectorRuns.SelectionOrder | pkg/permissions/internal/selecthost/selector.go:165-224 | The documented order: the selected host while sticky, else the preferred, else the first in the list, else the fallback |
| SelectorRuns.FailedHostIsDropped | pkg/permissions/internal/selecthost/http.go:60-66 | Any host whose request failed is the selection afterwards only if it is the fallback and no listed host is error-free |
| SelectorRuns.SelectionIsNeverLost | pkg/permissions/internal/selecthost/selector.go:253-281 | Over every run a selection is never lost and the sticky deadline never moves back |
| SelectorRuns.EverySelectionIsSafe | pkg/permissions/internal/selecthost/selector.go:175-293 | Every selection of every run is safe for the errors as it read them, one by one: the selected host was listed without error at some time since the selection began, or it is the fallback and every listed host had an error at some such time; if errors do not change meanwhile it is safe for the errors as they are |
| SelectorRuns.UndisturbedSelection | pkg/permissions/internal/selecthost/selector.go:192-224 | A selection that reads all errors unchanged is the one SelectHost makes |
| SelectorRuns.EarlyExit | pkg/permissions/internal/selecthost/selector.go:209-211 | What would be read once the selected and the preferred host are found does not matter |
| SelectorRuns.HealthyIsRead | pkg/permissions/internal/selecthost/selector.go:192-195 | A host listed without error all along a selection is read without error |
| SelectorRuns.StickinessHolds | pkg/permissions/internal/selecthost/selector.go:214-217 | An identity that every selection reads without error before the deadline keeps the selection, whatever other hosts appear |
| SelectorRuns.HealthyStaysServed | pkg/permissions/internal/selecthost/selector.go:192-217 | A host that stays listed and error-free is so read by every selection that begins meanwhile |
| SelectorRuns.ChosenForFiveIntervals | pkg/permissions/internal/selecthost/selector.go:253-281 | A host chosen by a selection keeps it for five check intervals while selections read its identity without error |
| SelectorRuns.DeadlineMoves | pkg/permissions/internal/selecthost/selector.go:253-281 | The deadline stays when the host is kept before it, and otherwise is five intervals after the second reading of the clock |
| SelectorRuns.StickinessEnds | pkg/permissions/internal/selecthost/selector.go:214-281 | The first selection after the deadline takes the preferred host if it reads it without error, however often the other was kept before |
| SelectorRuns.NewSelectorIsInitial | pkg/permissions/internal/selecthost/selector.go:132-141 | A new selector, and a quick one just started, begin a run |
| SelectorRuns.SelectIsSteps | pkg/permissions/internal/selecthost/selector.go:175-293 | What SelectHost does is a selection that nothing disturbs |
| SelectorRuns.CheckIsSteps | pkg/permissions/internal/selecthost/selector.go:412-462 | What checkHosts does is a sequence of check results, a sort and a selection |
| SelectorRuns.FirstDiscoveryIsSteps | pkg/permissions/internal/selecthost/selector.go:366-394 | The first discovery is a discovery followed by such a check |
| SelectorRuns.FailureIsSteps | pkg/permissions/internal/selecthost/http.go:60-66 | A failed request is a host error followed by a selection |
| SelectorRuns.Joined | pkg/permissions/internal/selecthost/selector.go:295-410 | Such sequences continue runs |
| Example.TheSystemIsSound | docs/rbac.md:36-96 | A policy of users, tenants with a parent, reports and V1 roles is accepted and sound |
| Example.ReadIsGoverned | docs/rbac.md:160-215 | Reading, bound on tenants by V1 and V2 role bindings side by side, is governed there although reports bind it along a relation |
| Example.AuditIsGoverned | docs/rbac.md:160-215 | Auditing is governed although the name of its permission relation is an action of the policy too |
| Example.DocumentIsOblivious | docs/rbac.md:160-215 | The policy leaves role ownership to the compiler |
| ExampleRuns.ARunThatGrants | docs/rbac.md:116-133 | A run creates a role and binds it; then the subject has the action on the child of the tenant that holds the grant |
| ExampleRuns.LeftoversAreAvailable | internal/query/roles_v2.go:72-84 | After a create that does not commit, the role is available on its owner until the remains are removed |
| ExampleRuns.LogReadsAsAudit | internal/query/relations.go:521-529 | The action audit_rel is read back as audit |
| ExampleRuns.AnUpdateThatMisreads | internal/query/roles_v2.go:361-413 | A run in which an update to audit succeeds and audit_rel alone stays stored |
| Counterexamples.AcceptedButNotClosed | internal/iapl/policy.go:809-825 | An accepted policy whose schema is neither ready nor closed and whose permission does not parse |
| Counterexamples.AcceptedButNotWellNamed | internal/iapl/policy.go:737-846 | An accepted policy whose schema declares a name as a relation and as a permission |
| Counterexamples.AcceptedButNotWritable | internal/iapl/policy.go:717-735 | An accepted policy with a union among the role subject types, whose wildcard the schema refuses |

## Left out

- V1 roles and their operations; V2 operations run without them.
- YAML decoding, directory walking, SQL text, migrations, HTTP handlers, tokens, NATS, configuration, logging and tracing.
- Token upserts after a relationship write, and their failure.
- Failure of compensating writes, and nil entries in the list of updates.
- Concurrent operations on the two stores, such as creating a binding while its role is deleted.
- Timestamps and actors of rows; the row update of a role binding is a call that may fail.
- Parsing of IDs: an object carries its type, and whether a prefix is valid is a parameter of validation.
- Aliasing of Go slices, in MergeWithPolicyDocument and in the relations that expandResourceTypes overwrites, and the memo of RoleOwnersSet.
- Names inside tokens: a printed relation or action is one token, and white space is not modelled.
- Multiplicity of the relationships that ListRelationshipsTo returns.
- Termination of check-all workers after the context has ended; only the collector's loop is bounded.
- DNS lookups, HTTP probes and clocks: their outcomes are parameters; a clock does not run backwards.
- Errors that change while a method of Selector runs: the methods are serial, and runs interleave their steps.
- Concurrent checks of one list of hosts: CheckHosts probes them one after another, and runs allow any interleaving of their results.
- Blocking, timeouts and stopping in GetHost, and the rewriting of the request address in RoundTrip.
- Calls fail by kind: in a loop over IDs or grants all calls of a kind fail or none.
