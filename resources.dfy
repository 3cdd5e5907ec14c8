/**
 * The RTS client's shared resources (rts/src/client/resources.rs): the two id generators
 * that number units and buildings, and the wrapper holding the flow field.
 */
module Resources {

  import opened Common
  import opened Navigation

  /**
   * The id `generate` hands out after `last`: 0 the first time, then one more than the last.
   * Rust's `u32` add would overflow after `u32::MAX`, so that call is excluded.
   */
  function NextId(last: Option<U32>): (id: U32)
    requires last != Some(U32_MAX)
    ensures last.None? ==> id == 0
    ensures last.Some? ==> id == last.value + 1 && id > last.value
  {
    match last
    case None => 0
    case Some(v) => v + 1
  }

  /** The ids `n` successive calls of `generate` return, starting from `last`. */
  function Ids(last: Option<U32>, n: nat): seq<int>
    decreases n
  {
    if n == 0 || last == Some(U32_MAX) then []
    else var id := NextId(last); [id] + Ids(Some(id), n - 1)
  }

  /**
   * A fresh generator numbers its first `n` calls 0, 1, ..., n - 1: the ids are consecutive,
   * so no two calls ever return the same id.
   */
  lemma {:induction false} FreshIdsCount(n: nat)
    requires n <= U32_MAX + 1
    ensures |Ids(None, n)| == n && forall i | 0 <= i < n :: Ids(None, n)[i] == i
  {
    if n > 0 {
      IdsCountFrom(0, n - 1);
    }
  }

  lemma {:induction false} IdsCountFrom(last: U32, n: nat)
    requires last + n <= U32_MAX
    ensures |Ids(Some(last), n)| == n && forall i | 0 <= i < n :: Ids(Some(last), n)[i] == last + 1 + i
    decreases n
  {
    if n > 0 {
      IdsCountFrom(last + 1, n - 1);
    }
  }

  /** `UnitIdGenerator`. */
  class UnitIdGenerator {
    var lastId: Option<U32>

    /** `Default`: nothing issued yet. */
    constructor ()
      ensures lastId == None
    {
      lastId := None;
    }

    /** `generate`: the next id, which is also recorded as the last one issued. */
    method Generate() returns (id: U32)
      requires lastId != Some(U32_MAX)
      modifies this
      ensures id == NextId(old(lastId)) && lastId == Some(id)
    {
      id := NextId(lastId);
      lastId := Some(id);
    }
  }

  /** `BuildingIdGenerator`: the same numbering with a counter of its own. */
  class BuildingIdGenerator {
    var lastId: Option<U32>

    constructor ()
      ensures lastId == None
    {
      lastId := None;
    }

    method Generate() returns (id: U32)
      requires lastId != Some(U32_MAX)
      modifies this
      ensures id == NextId(old(lastId)) && lastId == Some(id)
    {
      id := NextId(lastId);
      lastId := Some(id);
    }
  }

  /** `FlowFields`: holds the one flow field the units steer by. */
  class FlowFields {
    var flowField: FlowField

    /** `FlowFields::new`: a fresh `width × height` field, every cell unreached. */
    constructor (width: nat, height: nat)
      requires width * height < USIZE_MODULUS
      ensures fresh(flowField) && fresh(flowField.values) && fresh(flowField.flow)
      ensures flowField.Valid() && flowField.width == width && flowField.height == height
      ensures forall i | 0 <= i < flowField.values.Length :: flowField.values[i] == UNREACHED
      ensures forall i | 0 <= i < flowField.flow.Length :: flowField.flow[i] == ZERO
    {
      flowField := new FlowField(width, height);
    }
  }
}
