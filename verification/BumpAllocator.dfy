/** A region of addresses handed out from the bottom up. */
module Bump {
  import opened Base
  import opened Bits

  /** A request for size bytes is served: the sums are 64 bits wide. */
  predicate Served(base: nat, capacity: nat, next: nat, size: nat) {
    0 < size && (next + size) % U64 <= (base + capacity) % U64
  }

  /** A request is served exactly when it is not empty and lies inside the region, or its end does not fit 64 bits: the
    comparison accepts every request whose end wraps around. */
  lemma ServedInside(base: nat, capacity: nat, next: nat, size: nat)
    requires base <= next <= base + capacity < U64 && size < U64
    ensures Served(base, capacity, next, size) <==> 0 < size && (next + size <= base + capacity || U64 <= next + size)
  {
    if U64 <= next + size {
      DivModUnique(next + size, U64, 1, next + size - U64);
    }
  }

  class BumpAllocator {
    var baseAddress: nat
    var capacity: nat
    var nextAddress: nat
    var growable: Option<bool>

    ghost predicate Valid()
      reads this
    {
      baseAddress <= nextAddress <= baseAddress + capacity < U64
    }

    constructor ()
      ensures Valid() && baseAddress == 0 && capacity == 0 && nextAddress == 0 && growable == None
    {
      baseAddress, capacity, nextAddress, growable := 0, 0, 0, None;
    }

    method InitBaseAddress(base: nat)
      modifies this
      ensures baseAddress == base && nextAddress == base && capacity == old(capacity) && growable == old(growable)
    {
      baseAddress, nextAddress := base, base;
    }

    method InitCapacity(newCapacity: nat)
      modifies this
      ensures capacity == newCapacity && baseAddress == old(baseAddress) && nextAddress == old(nextAddress)
      ensures growable == old(growable)
    {
      capacity := newCapacity;
    }

    /** Can be decided once; a different later decision is an error. */
    method SetGrowable(value: bool) returns (ok: bool)
      modifies `growable
      ensures ok <==> old(growable) == None || old(growable) == Some(value)
      ensures growable == if old(growable) == None then Some(value) else old(growable)
    {
      ok := growable.None? || growable.value == value;
      if growable.None? {
        growable := Some(value);
      }
    }

    method GrowCapacity(additional: nat) returns (ok: bool)
      modifies `capacity
      ensures ok <==> growable == Some(true)
      ensures capacity == if ok then (old(capacity) + additional) % U64 else old(capacity)
    {
      ok := growable == Some(true);
      if ok {
        capacity := (capacity + additional) % U64;
      }
    }

    /** The next size bytes of the region, as a 32-bit address. */
    method Allocate(size: nat) returns (addr: Option<nat>)
      requires Valid() && size < U64
      modifies `nextAddress
      ensures addr.Some? <==> Served(baseAddress, capacity, old(nextAddress), size)
      ensures addr.None? ==> nextAddress == old(nextAddress) && (size == 0 || old(nextAddress) + size > baseAddress + capacity)
      ensures addr.Some? ==> addr.value == old(nextAddress) % U32 && 0 < size && nextAddress == (old(nextAddress) + size) % U64
      ensures old(nextAddress) + size < U64 ==> Valid() && (addr.Some? ==> nextAddress == old(nextAddress) + size)
    {
      if size == 0 {
        return None;
      }
      ServedInside(baseAddress, capacity, nextAddress, size);
      if (nextAddress + size) % U64 > (baseAddress + capacity) % U64 {
        return None;
      }
      addr := Some(nextAddress % U32);
      nextAddress := (nextAddress + size) % U64;
    }
  }
}
