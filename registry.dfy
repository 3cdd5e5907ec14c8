/**
 * The handle-keyed registries the voxel world stores its meshes and entities in
 * (`Registry<Mesh>`, `Registry<Entity>`). Their implementation is not part of this model;
 * they are modelled as a map from handle to value together with the next handle to hand
 * out, so that a handle, once issued, is never issued again.
 */
module Registries {

  import opened Common

  class Registry<T> {
    /** The live entries. */
    var items: map<nat, T>
    /** Every handle issued so far is below `next`. */
    var next: nat

    ghost predicate Valid()
      reads this
    {
      forall h | h in items :: h < next
    }

    constructor ()
      ensures Valid() && items == map[] && next == 0
    {
      items := map[];
      next := 0;
    }

    /** Stores `x` under a handle that has never been issued before. */
    method Add(x: T) returns (h: nat)
      requires Valid()
      modifies this
      ensures Valid() && h !in old(items) && h == old(next) && next == old(next) + 1
      ensures items == old(items)[h := x]
    {
      h := next;
      items := items[h := x];
      next := next + 1;
    }

    /** The entry stored under `h`, if it is live. */
    function Get(h: nat): (r: Option<T>)
      reads this
      ensures r.Some? <==> h in items
      ensures r.Some? ==> r.value == items[h]
    {
      if h in items then Some(items[h]) else None
    }

    /** Drops the entry under `h`, if any; handles are not reissued. */
    method Remove(h: nat)
      requires Valid()
      modifies this
      ensures Valid() && items == old(items) - {h} && next == old(next)
    {
      items := items - {h};
    }
  }
}
