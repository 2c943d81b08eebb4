/**
 * A graph node held by a managed object context: a class number, a type
 * name, a creation date, and two owned relationship sets, one of group tags
 * and one of named properties.
 *
 * Every operation of the node runs as one atomic step (the context serialises
 * them). The snapshots, the lookup, the membership test and the removal are
 * guarded by optional chaining on the node's context: a node without one
 * (`inContext` false) skips the step and returns the empty default. `Id`
 * instead traps (here `None`), `AddToGroup` never touches the context, and
 * `Delete` skips only its cascade and still makes the base-class deletion
 * call. The order in which a set is enumerated is unspecified, so the loops
 * below pick the next record with `:|`. Names are compared character by
 * character.
 */
module ManagedNode {
  import opened Wrappers
  import opened Records
  import opened Decimal
  import opened NodeId

  datatype Node<V(==)> = Node(
    nodeClass: int,
    typeName: string,
    createdDate: int,
    groups: set<Group>,
    properties: set<Prop<V>>,
    inContext: bool,
    deleted: bool)

  /** A request to the context to delete one managed object. */
  datatype Event<V> = GroupDeleted(group: Group) | PropertyDeleted(property: Prop<V>) | NodeDeleted

  /** The groups a log of events deletes. */
  ghost function DeletedGroups<V>(log: seq<Event<V>>): set<Group> {
    set i | 0 <= i < |log| && log[i].GroupDeleted? :: log[i].group
  }

  /** The properties a log of events deletes. */
  ghost function DeletedProperties<V>(log: seq<Event<V>>): set<Prop<V>> {
    set i | 0 <= i < |log| && log[i].PropertyDeleted? :: log[i].property
  }

  lemma DeletedAppend<V>(log: seq<Event<V>>, e: Event<V>)
    ensures DeletedGroups(log + [e]) == DeletedGroups(log) + (if e.GroupDeleted? then {e.group} else {})
    ensures DeletedProperties(log + [e]) == DeletedProperties(log) + (if e.PropertyDeleted? then {e.property} else {})
  {
    var log' := log + [e];
    assert forall i :: 0 <= i < |log| ==> log'[i] == log[i];
    assert log'[|log|] == e;
  }

  /** No object is deleted twice. */
  ghost predicate NoRepeats<V>(log: seq<Event<V>>) {
    forall i, j :: 0 <= i < j < |log| ==> log[i] != log[j]
  }

  /** `m` is a snapshot of `ps`: its keys are the property names, each mapped to a value stored under that name. */
  ghost predicate IsPropertySnapshot<V>(ps: set<Prop<V>>, m: map<string, V>) {
    && (forall k :: k in m <==> HasPropNamed(ps, k))
    && (forall k :: k in m ==> HoldsValue(ps, k, m[k]))
  }

  /** `r` is a lookup of `name` in `ps`: absent exactly when no property has that name. */
  ghost predicate IsLookup<V>(ps: set<Prop<V>>, name: string, r: Option<V>) {
    && (r.None? <==> !HasPropNamed(ps, name))
    && (r.Some? ==> HoldsValue(ps, name, r.value))
  }

  /** `n'` is `n` with the one group record `g` taken out, and nothing else changed. */
  ghost predicate DropsGroup<V>(n: Node<V>, g: Group, n': Node<V>) {
    g in n.groups && n' == n.(groups := n.groups - {g})
  }

  /** A freshly inserted node: the given type and date, no groups, no properties. */
  function Init<V(==)>(nodeClass: int, typeName: string, now: int): (n: Node<V>)
    ensures n.typeName == typeName && n.nodeClass == nodeClass && n.createdDate == now
    ensures n.groups == {} && n.properties == {}
    ensures n.inContext && !n.deleted
  {
    Node(nodeClass, typeName, now, {}, {}, true, false)
  }

  /**
   * The identifier, given the last path component of the node's object-ID
   * URI. Without a context the source force-unwraps a nil result; that trap
   * is `None` here.
   */
  function Id<V(==)>(n: Node<V>, objectKey: string): (r: Option<string>)
    ensures r.Some? <==> n.inContext
    ensures r.Some? ==> IdShape(r.value, n.nodeClass, n.typeName, objectKey)
  {
    if n.inContext then
      var id := ComposeId(n.nodeClass, n.typeName, objectKey);
      IdShapeExact(id, n.nodeClass, n.typeName, objectKey);
      Some(id)
    else
      None
  }

  /** The names of the owned groups, one entry per group record. */
  method Groups<V(==)>(n: Node<V>) returns (names: seq<string>)
    ensures !n.inContext ==> names == []
    ensures n.inContext ==> |names| == |n.groups|
    ensures n.inContext ==> forall x :: multiset(names)[x] == |GroupsNamed(n.groups, x)|
  {
    names := [];
    if !n.inContext {
      return;
    }
    var rest := n.groups;
    while rest != {}
      invariant rest <= n.groups
      invariant |names| == |n.groups - rest|
      invariant forall x :: multiset(names)[x] == |GroupsNamed(n.groups - rest, x)|
      decreases rest
    {
      var g :| g in rest;
      var done := n.groups - rest;
      assert n.groups - (rest - {g}) == done + {g};
      forall x {
        GroupsNamedInsert(done, g, x);
      }
      names := names + [g.name];
      rest := rest - {g};
    }
  }

  /** The owned properties as a name-to-value map; on a shared name, one of the values. */
  method Properties<V(==)>(n: Node<V>) returns (m: map<string, V>)
    ensures !n.inContext ==> m == map[]
    ensures n.inContext ==> IsPropertySnapshot(n.properties, m)
  {
    m := map[];
    if !n.inContext {
      return;
    }
    var rest := n.properties;
    while rest != {}
      invariant rest <= n.properties
      invariant IsPropertySnapshot(n.properties - rest, m)
      decreases rest
    {
      var p :| p in rest;
      var done := n.properties - rest;
      assert n.properties - (rest - {p}) == done + {p};
      m := m[p.name := p.value];
      rest := rest - {p};
    }
  }

  /** The value of the first property met whose name is `name`. */
  method Subscript<V(==)>(n: Node<V>, name: string) returns (r: Option<V>)
    ensures !n.inContext ==> r == None
    ensures n.inContext ==> IsLookup(n.properties, name, r)
  {
    r := None;
    if !n.inContext {
      return;
    }
    var rest := n.properties;
    while rest != {}
      invariant rest <= n.properties
      invariant forall p :: p in n.properties - rest ==> p.name != name
      decreases rest
    {
      var p :| p in rest;
      if name == p.name {
        r := Some(p.value);
        return;
      }
      rest := rest - {p};
    }
  }

  /** Adding to a group is a stub: it reports failure and changes nothing. */
  function AddToGroup<V(==)>(n: Node<V>, name: string): (r: (bool, Node<V>))
    ensures !r.0
    ensures r.1 == n
  {
    (false, n)
  }

  /**
   * What the stub's documentation promises: a new group record `Group(rid, name)`
   * joins the node unless it already belongs to a group of that name.
   * `rid` is the identity the context gives the new record.
   */
  function AddToGroupIntended<V(==)>(n: Node<V>, name: string, rid: nat): (r: (bool, Node<V>))
    requires forall g :: g in n.groups ==> g.rid != rid
    ensures r.0 <==> n.inContext && !HasGroupNamed(n.groups, name)
    ensures r.0 ==> r.1 == n.(groups := n.groups + {Group(rid, name)})
    ensures !r.0 ==> r.1 == n
    ensures r.1.inContext ==> HasGroupNamed(r.1.groups, name)
    ensures r.1.inContext && !HasGroupNamed(n.groups, name) ==> |GroupsNamed(r.1.groups, name)| == 1
  {
    HasGroupNamedCount(n.groups, name);
    if n.inContext && GroupsNamed(n.groups, name) == {} then
      assert GroupsNamed(n.groups + {Group(rid, name)}, name) == {Group(rid, name)};
      (true, n.(groups := n.groups + {Group(rid, name)}))
    else
      (false, n)
  }

  /** Whether some owned group record is called `name`. */
  method MemberOfGroup<V(==)>(n: Node<V>, name: string) returns (member: bool)
    ensures member <==> n.inContext && HasGroupNamed(n.groups, name)
  {
    member := false;
    if !n.inContext {
      return;
    }
    var rest := n.groups;
    while rest != {}
      invariant rest <= n.groups
      invariant forall g :: g in n.groups - rest ==> g.name != name
      decreases rest
    {
      var g :| g in rest;
      if name == g.name {
        member := true;
        return;
      }
      rest := rest - {g};
    }
  }

  /**
   * Deletes the first group record met whose name is `name` and takes it out
   * of the group set; other records with the same name stay.
   */
  method RemoveFromGroup<V(==)>(n: Node<V>, name: string) returns (removed: bool, n': Node<V>, log: seq<Event<V>>)
    ensures removed <==> n.inContext && HasGroupNamed(n.groups, name)
    ensures removed ==> exists g: Group :: g.name == name && DropsGroup(n, g, n') && log == [GroupDeleted(g)]
    ensures !removed ==> n' == n && log == []
  {
    removed, n', log := false, n, [];
    if !n.inContext {
      return;
    }
    var rest := n.groups;
    while rest != {}
      invariant rest <= n.groups
      invariant forall g :: g in n.groups - rest ==> g.name != name
      decreases rest
    {
      var g :| g in rest;
      if name == g.name {
        log := [GroupDeleted(g)];
        n' := n.(groups := n.groups - {g});
        removed := true;
        return;
      }
      rest := rest - {g};
    }
  }

  /**
   * Cascade delete: every owned group is deleted and taken out of the group
   * set, then every owned property likewise, and only then is the node itself
   * deleted. Without a context the cascade is skipped. Each loop walks what
   * is left of a set as a copy taken before the removal, which is the
   * reading under which every record is reached.
   */
  method Delete<V(==)>(n: Node<V>) returns (n': Node<V>, log: seq<Event<V>>)
    ensures n'.deleted
    ensures n'.nodeClass == n.nodeClass && n'.typeName == n.typeName
    ensures n'.createdDate == n.createdDate && n'.inContext == n.inContext
    ensures n.inContext ==> n'.groups == {} && n'.properties == {}
    ensures !n.inContext ==> n'.groups == n.groups && n'.properties == n.properties
    ensures DeletedGroups(log) == (if n.inContext then n.groups else {})
    ensures DeletedProperties(log) == (if n.inContext then n.properties else {})
    ensures NoRepeats(log)
    ensures |log| >= 1 && log[|log| - 1] == NodeDeleted
    ensures forall i :: 0 <= i < |log| - 1 ==> !log[i].NodeDeleted?
    ensures forall i, j :: 0 <= i < j < |log| && log[i].PropertyDeleted? ==> !log[j].GroupDeleted?
  {
    log := [];
    var cur := n;
    if n.inContext {
      while cur.groups != {}
        invariant cur == n.(groups := cur.groups)
        invariant cur.groups <= n.groups
        invariant forall i :: 0 <= i < |log| ==> log[i].GroupDeleted?
        invariant DeletedGroups(log) == n.groups - cur.groups
        invariant NoRepeats(log)
        decreases cur.groups
      {
        var g :| g in cur.groups;
        assert forall i :: 0 <= i < |log| ==> log[i].group in DeletedGroups(log);
        DeletedAppend(log, GroupDeleted(g));
        log := log + [GroupDeleted(g)];
        cur := cur.(groups := cur.groups - {g});
      }
      ghost var groupLog := log;
      while cur.properties != {}
        invariant cur == n.(groups := {}, properties := cur.properties)
        invariant cur.properties <= n.properties
        invariant |groupLog| <= |log| && log[..|groupLog|] == groupLog
        invariant forall i :: 0 <= i < |groupLog| ==> log[i].GroupDeleted?
        invariant forall i :: |groupLog| <= i < |log| ==> log[i].PropertyDeleted?
        invariant DeletedGroups(log) == n.groups
        invariant DeletedProperties(log) == n.properties - cur.properties
        invariant NoRepeats(log)
        decreases cur.properties
      {
        var p :| p in cur.properties;
        assert forall i :: |groupLog| <= i < |log| ==> log[i].property in DeletedProperties(log);
        DeletedAppend(log, PropertyDeleted(p));
        log := log + [PropertyDeleted(p)];
        cur := cur.(properties := cur.properties - {p});
      }
    }
    n' := cur.(deleted := true);
    DeletedAppend(log, NodeDeleted);
    log := log + [NodeDeleted];
  }
}
