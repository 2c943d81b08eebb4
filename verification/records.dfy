/**
 * The records a node owns: group tags and named properties. Each record is a
 * managed object of its own; `rid` stands for its object identity, so two
 * records with the same name are still distinct.
 */
module Records {

  /** A group tag owned by one node. */
  datatype Group = Group(rid: nat, name: string)

  /** A named property owned by one node; `value` is the stored object. */
  datatype Prop<V> = Prop(rid: nat, name: string, value: V)

  /** The owned groups whose name is `name`. */
  function GroupsNamed(gs: set<Group>, name: string): set<Group> {
    set g | g in gs && g.name == name
  }

  /** Some group in `gs` is called `name`. */
  ghost predicate HasGroupNamed(gs: set<Group>, name: string) {
    exists g :: g in gs && g.name == name
  }

  /** Some property in `ps` is called `name`. */
  ghost predicate HasPropNamed<V>(ps: set<Prop<V>>, name: string) {
    exists p :: p in ps && p.name == name
  }

  /** Some property in `ps` called `name` holds `v`. */
  ghost predicate HoldsValue<V>(ps: set<Prop<V>>, name: string, v: V) {
    exists p :: p in ps && p.name == name && p.value == v
  }

  /** No two distinct properties share a name (the source does not enforce this). */
  ghost predicate UniquePropNames<V>(ps: set<Prop<V>>) {
    forall p, q :: p in ps && q in ps && p.name == q.name ==> p == q
  }

  /** Adding one group changes the count of groups called `name` by one exactly when it is so called. */
  lemma GroupsNamedInsert(gs: set<Group>, g: Group, name: string)
    requires g !in gs
    ensures |GroupsNamed(gs + {g}, name)| == |GroupsNamed(gs, name)| + (if g.name == name then 1 else 0)
  {
    if g.name == name {
      assert GroupsNamed(gs + {g}, name) == GroupsNamed(gs, name) + {g};
    } else {
      assert GroupsNamed(gs + {g}, name) == GroupsNamed(gs, name);
    }
  }

  /** There is a group called `name` exactly when the count of such groups is positive. */
  lemma HasGroupNamedCount(gs: set<Group>, name: string)
    ensures HasGroupNamed(gs, name) <==> |GroupsNamed(gs, name)| > 0
  {
    if HasGroupNamed(gs, name) {
      var g :| g in gs && g.name == name;
      assert g in GroupsNamed(gs, name);
    }
    if |GroupsNamed(gs, name)| > 0 {
      var g :| g in GroupsNamed(gs, name);
      assert g in gs && g.name == name;
    }
  }
}
