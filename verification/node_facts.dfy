/** Properties that relate the node's operations to one another. */
module NodeFacts {
  import opened Wrappers
  import opened Records
  import opened NodeId
  import opened ManagedNode

  /**
   * A new node has no groups and no properties: its groups snapshot is
   * empty, its properties snapshot is the empty map, every lookup is absent
   * and it is a member of no group.
   */
  lemma InitIsEmpty<V>(nodeClass: int, typeName: string, now: int, name: string)
    ensures var n := Init<V>(nodeClass, typeName, now);
      && (forall x :: |GroupsNamed(n.groups, x)| == 0)
      && IsPropertySnapshot(n.properties, map[])
      && IsLookup(n.properties, name, None)
      && !HasGroupNamed(n.groups, name)
  {
  }

  /** With unique property names, the snapshot holds each record's own value. */
  lemma SnapshotHoldsRecordValue<V>(ps: set<Prop<V>>, m: map<string, V>, p: Prop<V>)
    requires UniquePropNames(ps)
    requires IsPropertySnapshot(ps, m)
    requires p in ps
    ensures p.name in m && m[p.name] == p.value
  {
  }

  /** With unique property names, subscript lookup and the snapshot agree on every name. */
  lemma LookupAgreesWithSnapshot<V>(ps: set<Prop<V>>, m: map<string, V>, name: string, r: Option<V>)
    requires UniquePropNames(ps)
    requires IsPropertySnapshot(ps, m)
    requires IsLookup(ps, name, r)
    ensures r == (if name in m then Some(m[name]) else None)
  {
  }

  /** A name appears in the groups snapshot exactly when the node is a member of that group. */
  lemma SnapshotNamesAreMemberships(gs: set<Group>, names: seq<string>, name: string)
    requires forall x :: multiset(names)[x] == |GroupsNamed(gs, x)|
    ensures name in names <==> HasGroupNamed(gs, name)
  {
    HasGroupNamedCount(gs, name);
    assert name in names <==> multiset(names)[name] > 0;
  }

  /**
   * Taking out one record called `name` lowers the count of that name by
   * one and leaves the count of every other name as it was.
   */
  lemma DropLowersCount<V>(n: Node<V>, g: Group, n': Node<V>, x: string)
    requires DropsGroup(n, g, n')
    ensures |GroupsNamed(n'.groups, x)| == |GroupsNamed(n.groups, x)| - (if g.name == x then 1 else 0)
  {
    assert n.groups == n'.groups + {g};
    GroupsNamedInsert(n'.groups, g, x);
  }

  /**
   * After a successful removal the node is still a member of the group
   * exactly when it held two or more records of that name.
   */
  lemma MemberAfterDropIff<V>(n: Node<V>, g: Group, n': Node<V>)
    requires DropsGroup(n, g, n')
    ensures HasGroupNamed(n'.groups, g.name) <==> |GroupsNamed(n.groups, g.name)| >= 2
  {
    DropLowersCount(n, g, n', g.name);
    HasGroupNamedCount(n'.groups, g.name);
  }

  /** The stub never makes a node a member of a group it was not already in. */
  lemma AddToGroupNeverJoins<V>(n: Node<V>, name: string)
    requires !HasGroupNamed(n.groups, name)
    ensures !AddToGroup(n, name).0
    ensures !HasGroupNamed(AddToGroup(n, name).1.groups, name)
  {
  }

  /** A fresh node asked to join "admin" reports failure and stays out of it. */
  lemma AddToGroupFailsOnFreshNode()
    ensures var n := Init<int>(1, "User", 0);
      !AddToGroup(n, "admin").0 && !HasGroupNamed(AddToGroup(n, "admin").1.groups, "admin")
  {
  }

  /** Adding the same group twice: the second add fails and changes nothing. */
  lemma IntendedAddIdempotent<V>(n: Node<V>, name: string, rid1: nat, rid2: nat)
    requires forall g :: g in n.groups ==> g.rid != rid1 && g.rid != rid2
    requires rid1 != rid2
    ensures var n1 := AddToGroupIntended(n, name, rid1).1;
      && !AddToGroupIntended(n1, name, rid2).0
      && AddToGroupIntended(n1, name, rid2).1 == n1
  {
  }

  /** Two attached nodes with plain type names and permanent keys share an identifier only if class, type and key agree. */
  lemma NodeIdsUnique<V>(a: Node<V>, ka: string, b: Node<V>, kb: string)
    requires a.inContext && b.inContext
    requires PlainTypeName(a.typeName) && PlainTypeName(b.typeName)
    requires PermanentKey(ka) && PermanentKey(kb)
    requires Id(a, ka) == Id(b, kb)
    ensures a.nodeClass == b.nodeClass && a.typeName == b.typeName && ka == kb
  {
    IdUnique(a.nodeClass, a.typeName, ka, b.nodeClass, b.typeName, kb);
  }
}
