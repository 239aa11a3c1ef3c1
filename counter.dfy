/** The locality-id counter kept in the device's non-volatile storage
    (namespace "scout", key "id_loc", stored as a signed 32-bit integer). */
module LocalityCounter {
  import opened Common

  const I32Min: int := -0x8000_0000
  const I32Max: int := 0x7fff_ffff

  predicate IsI32(v: int) { I32Min <= v <= I32Max }

  /** What reading the key yields: a missing key (the `OSError` branch) reads as 0. */
  function StoredValue(key: Option<int>): int { key.GetOr(0) }

  /** One allocation from the given key state: the incremented value, or
      `None` when it no longer fits the 32-bit slot and `set_i32` raises. */
  function Allocate(key: Option<int>): (id: Option<int>)
    ensures id.Some? ==> id.value == StoredValue(key) + 1 && IsI32(id.value)
    ensures key.None? ==> id == Some(1)
    ensures key.Some? && IsI32(key.value) ==> (id.None? <==> key.value == I32Max)
  {
    var next := StoredValue(key) + 1;
    if IsI32(next) then Some(next) else None
  }

  /** The key state after an allocation: the new value on success, the old one otherwise. */
  function After(key: Option<int>): Option<int>
  {
    if Allocate(key).Some? then Allocate(key) else key
  }

  /** The results of `n` successive allocations starting from `key`. */
  function Run(key: Option<int>, n: nat): (ids: seq<Option<int>>)
    ensures |ids| == n
    decreases n
  {
    if n == 0 then [] else [Allocate(key)] + Run(After(key), n - 1)
  }

  /** From a counter holding a non-negative value v (or missing: v = 0),
      n successive allocations return v+1, ..., v+n while they fit in 32 bits. */
  lemma {:induction false} RunCountsUp(key: Option<int>, n: nat)
    requires 0 <= StoredValue(key) && StoredValue(key) + n <= I32Max
    ensures forall i :: 0 <= i < n ==> Run(key, n)[i] == Some(StoredValue(key) + i + 1)
    decreases n
  {
    if n > 0 {
      assert After(key) == Some(StoredValue(key) + 1);
      RunCountsUp(After(key), n - 1);
      forall i | 0 < i < n ensures Run(key, n)[i] == Some(StoredValue(key) + i + 1) {
        assert Run(key, n)[i] == Run(After(key), n - 1)[i - 1];
      }
    }
  }

  /** From a fresh or reset counter the ids handed out are 1, 2, ..., n. */
  lemma FreshCounterStartsAtOne(key: Option<int>, n: nat)
    requires key == None || key == Some(0)
    requires n <= I32Max
    ensures forall i :: 0 <= i < n ==> Run(key, n)[i] == Some(i + 1)
  {
    RunCountsUp(key, n);
  }

  /** Successful allocations are strictly increasing, whatever the starting value:
      an id is never handed out twice. */
  lemma {:induction false} RunStrictlyIncreasing(key: Option<int>, n: nat)
    ensures forall i, j :: 0 <= i < j < n && Run(key, n)[i].Some? && Run(key, n)[j].Some? ==>
      Run(key, n)[i].value < Run(key, n)[j].value
    ensures forall i :: 0 <= i < n && Run(key, n)[i].Some? ==> Run(key, n)[i].value > StoredValue(key)
    decreases n
  {
    if n > 0 {
      var ids := Run(key, n);
      var tail := Run(After(key), n - 1);
      RunStrictlyIncreasing(After(key), n - 1);
      assert forall i :: 0 < i < n ==> ids[i] == tail[i - 1];
      assert StoredValue(After(key)) >= StoredValue(key);
      assert ids[0].Some? ==> StoredValue(After(key)) == ids[0].value;
    }
  }

  /** The NVS slot; `idLoc == None` is a key that was never written. */
  class NvsCounter {
    var idLoc: Option<int>

    ghost predicate Valid()
      reads this
    {
      idLoc.Some? ==> IsI32(idLoc.value)
    }

    constructor ()
      ensures Valid() && idLoc == None
    {
      idLoc := None;
    }

    /** get_next_id: read (missing reads as 0), increment, write and commit,
        return the new id. `None` is the overflow raised by the 32-bit store,
        which leaves the slot as it was. */
    method GetNextId() returns (id: Option<int>)
      requires Valid()
      modifies this
      ensures Valid()
      ensures id == Allocate(old(idLoc))
      ensures id.Some? ==> id.value == StoredValue(old(idLoc)) + 1 && idLoc == id
      ensures id.None? ==> idLoc == old(idLoc)
    {
      var localityId: int;
      match idLoc {
        case Some(v) => localityId := v;
        case None => localityId := 0;
      }
      localityId := localityId + 1;
      if !IsI32(localityId) {
        return None;
      }
      idLoc := Some(localityId);
      id := Some(localityId);
    }

    /** reset_locality_id: the slot is written with 0 and committed. */
    method ResetLocalityId()
      modifies this
      ensures Valid() && idLoc == Some(0)
      ensures Allocate(idLoc) == Some(1)
    {
      idLoc := Some(0);
    }
  }
}
