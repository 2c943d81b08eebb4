# ManagedNode — a Dafny model of the graph node entity

This project models `ManagedNode`, the node entity of the Graph library's
persistence layer. A node is a managed object carrying a class number, a
type name, a creation date and two owned relationship sets: group records
(tags with a name) and property records (a name and a stored value). The
model covers the identifier, the groups and properties snapshots, subscript
lookup, group membership, removal from a group, the `addToGroup` stub, and
the cascade delete.

Modelling choices:

- The node is an immutable `Node<V>` value. Every operation is one atomic
  step (the managed object context serialises them) and returns the new node
  when it changes one. `V` is the type of stored property values.
- Group and property records are `Group(rid, name)` and `Prop(rid, name, value)`.
  `rid` stands for object identity, so two records may share a name.
  The code does not keep names unique, and neither does the model.
- Every operation except `addToGroup` does its work through
  `managedObjectContext?`. A node with no context (`inContext` false) skips
  that work and returns the empty default. `id` then force-unwraps `nil`,
  which the model returns as `None`. Two operations differ: `addToGroup`
  (lines 135-137) never touches the context, and `delete` calls
  `super.delete()` (line 108) outside the optional chain, so a node without
  a context still calls `super.delete()`, recorded as `NodeDeleted` and the
  `deleted` flag.
- An `NSSet` is enumerated in no fixed order. The loops pick the next record
  with `:|`, and the contracts hold for every order.
- Calls to `delete()` on a group, a property or the node itself are returned
  as a log of `Event`s. This log is how the model states what was deleted and
  in what order.
- The identifier's last part is the last path component of the node's
  object-ID URI. It is an input string (`objectKey`). `NodeId.IdUnique` shows
  when the concatenation can be read back. `NodeId.IdCollision` shows that in
  general it cannot: class 1 with type "2a" and class 12 with type "a" give
  the same identifier.

The code enforces less than a reader might expect; the model follows the code:
- Group and property names are not kept unique.
- Nothing stops an operation on a deleted node.
- A failure to obtain a permanent identifier is swallowed, so `objectKey` may
  be a temporary key.
- `addToGroup` adds nothing.

## Model

| member | source | states |
|---|---|---|
| ManagedNode.Init | Sources/ManagedNode.swift:84-90 | A new node has the given type and date, no groups, no properties, is attached to its context and is not deleted |
| NodeFacts.InitIsEmpty | Sources/ManagedNode.swift:84-90 | For every new node the group-name counts are zero, the empty map is its properties snapshot, every lookup is absent and it is a member of no group |
| ManagedNode.Id | Sources/ManagedNode.swift:41-50 | Fails exactly when the node has no context. Otherwise the identifier ends with the type name followed by the object key, and the part before them is the class number in normal decimal form (no leading zero, no "-0") |
| NodeId.IdShapeExact | Sources/ManagedNode.swift:47 | A string has that shape exactly when it is the class numeral, the type name and the key concatenated, so `Id`'s contract fixes the whole identifier |
| Decimal.CanonicalDecimalUnique | Sources/ManagedNode.swift:47 | Two numerals in normal form that denote the same integer are the same string |
| Decimal.DecimalRoundTrip | Sources/ManagedNode.swift:47 | Parsing the decimal rendering of the class number gives the number back, so the rendering is injective |
| NodeId.IdUnique | Sources/ManagedNode.swift:47 | Assume type names do not start with a digit and object keys are permanent ("p" then digits). Then equal identifiers imply equal class numbers, type names and keys |
| NodeId.IdCollision | Sources/ManagedNode.swift:47 | Without those assumptions, class 1 with type "2a" and class 12 with type "a" compose the same identifier |
| NodeFacts.NodeIdsUnique | Sources/ManagedNode.swift:41-50 | Take two attached nodes with plain type names and permanent keys. If their `Id` results are equal, their class, type and key agree |
| ManagedNode.Groups | Sources/ManagedNode.swift:53-63 | Lists one name per group record. Each name appears as many times as there are records with that name. Without a context the list is empty |
| NodeFacts.SnapshotNamesAreMemberships | Sources/ManagedNode.swift:53-63 | A name is in the groups snapshot exactly when some owned group has that name |
| ManagedNode.Properties | Sources/ManagedNode.swift:66-76 | The map's keys are exactly the names of the owned properties. Each key maps to a value stored under that name. Without a context the map is empty |
| NodeFacts.SnapshotHoldsRecordValue | Sources/ManagedNode.swift:66-76 | When property names are unique, the snapshot maps each record's name to that record's value |
| ManagedNode.Subscript | Sources/ManagedNode.swift:116-127 | Returns nil exactly when no owned property has the name (or there is no context). Otherwise returns a value stored under that name |
| NodeFacts.LookupAgreesWithSnapshot | Sources/ManagedNode.swift:116-127 | When property names are unique, subscript lookup returns the same value as the properties snapshot for every name, and nil exactly when the name is not a key |
| ManagedNode.AddToGroup | Sources/ManagedNode.swift:135-137 | Always reports false and leaves the node unchanged |
| NodeFacts.AddToGroupNeverJoins | Sources/ManagedNode.swift:129-137 | A node that is not in a group is still not in it after `addToGroup`, although the documentation promises true when added |
| NodeFacts.AddToGroupFailsOnFreshNode | Sources/ManagedNode.swift:129-137 | A new node asked to join "admin" reports false and is not a member |
| ManagedNode.AddToGroupIntended | Sources/ManagedNode.swift:129-134 | Succeeds exactly when the node has a context and no group of that name. On success it adds one new record and changes nothing else. On failure the node is unchanged. Afterwards an attached node is a member, with exactly one record of that name if it had none |
| NodeFacts.IntendedAddIdempotent | Sources/ManagedNode.swift:129-134 | A second add of the same name fails and leaves the node as the first add left it |
| ManagedNode.MemberOfGroup | Sources/ManagedNode.swift:145-156 | True exactly when the node has a context and some owned group has the name |
| ManagedNode.RemoveFromGroup | Sources/ManagedNode.swift:164-177 | Returns true exactly when the node has a context and owns a group with the name. On true, exactly one matching record is deleted and taken out of the group set, and nothing else changes. On false, the node is unchanged and nothing is deleted |
| NodeFacts.DropLowersCount | Sources/ManagedNode.swift:164-177 | Removing one record lowers that name's record count by one and leaves every other name's count unchanged |
| NodeFacts.MemberAfterDropIff | Sources/ManagedNode.swift:164-177 | After a successful removal, the node is still a member of that group exactly when it had two or more records of that name |
| ManagedNode.Delete | Sources/ManagedNode.swift:93-109 | Every owned group and every owned property is deleted exactly once and leaves its set, groups before properties. The node's own deletion comes last. Both sets end up empty and the `deleted` flag is set. Class, type, date and context do not change. Without a context the cascade is skipped and only the `super.delete()` call is made, recorded as `NodeDeleted` and the `deleted` flag |

## Left out

- `performBlockAndWait` confinement and the `unowned self` captures: each operation is one atomic step of a value, so no interleaving is modelled.
- `NSEntityDescription.entityForName` and its forced unwrap (line 85): schema lookup belongs to the store; `Init` takes the class number directly because the initializer does not set it.
- `NSDate()` (line 87): the creation date is an input.
- `obtainPermanentIDsForObjects` and `URIRepresentation()` (lines 45-47): the object key is an opaque input, permanent or, after the swallowed error, temporary.
- The internals of `ManagedGroup.delete()`, `ManagedProperty.delete()` and `ManagedModel.delete()`: they are not part of this model; each call is recorded as an `Event`, and the base-class call also sets the `deleted` flag.
- The `as? ManagedGroup`, `as? ManagedProperty` and `as? NSMutableSet` casts (lines 57, 70, 96, 98, 102, 104) and the forced `as! NSMutableSet` cast in `removeFromGroup` (line 170): the sets are strongly typed, and the mutable-set casts are taken to succeed, as they do for a to-many relationship. If they failed, the `as?` casts would silently skip the removal and the `as!` cast would trap; neither outcome is modelled.
- ManagedNode.Properties: names are compared code point by code point, as Dafny sequences. Swift's dictionary at line 71 treats canonically equivalent names (`"\u{E9}"` and `"e\u{301}"`) as one key, so the source can return fewer keys than the model promises. Unicode canonical equivalence is not modelled.
- ManagedNode.Subscript: the name match at line 120 uses Swift's `String ==`, which is canonical equivalence; the model matches code point by code point, so a property stored under `"e\u{301}"` is not found for `"\u{E9}"` here, though it is in the source.
- ManagedNode.MemberOfGroup: the name match at line 149 is canonical equivalence in Swift; the model compares code points, so it answers false where the source answers true for canonically equivalent but differently encoded names.
- ManagedNode.RemoveFromGroup: the name match at line 168 is canonical equivalence in Swift; the model compares code points, so it removes nothing (and returns false) where the source removes a record whose name is only canonically equivalent to the one asked for.
- ManagedNode.Delete: the cascade is modelled as walking a copy of each set while removing records from the live set. The source (lines 95-98 and 101-104) removes each record from the same set `forEach` walks; Foundation leaves that mutation during enumeration undefined (records skipped or an exception), so "every record deleted, both sets empty" holds for the model's reading, not for every Foundation behaviour.
- `AnyObject` property values: a type parameter `V`.
- Which of several equally named properties `properties` and `subscript` pick: the contracts allow any of them, since the enumeration order is unspecified.
- Exclusive ownership of a record by one node: the model has a single node, so sharing cannot be expressed.

## Findings

| source | as written | input that shows it | evidently intended | confidence | as-written member | corrected member |
|---|---|---|---|---|---|---|
| Sources/ManagedNode.swift:129-137 | `addToGroup` returns false and creates no group record | a new node of type "User" asked to join "admin": false, and not a member afterwards | create a group record with that name and return true unless the node already belongs to that group | high (not executed) | NodeFacts.AddToGroupFailsOnFreshNode | ManagedNode.AddToGroupIntended |
