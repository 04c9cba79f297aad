/** Address ranges that the allocator's frames must not be used from. */
module Holes {

  /** The end of a hole counts as inside. */
  predicate InHole(holes: map<nat, nat>, a: nat) {
    exists h :: h in holes && h <= a <= h + holes[h]
  }

  class HoleList {
    var holes: map<nat, nat>

    constructor ()
      ensures holes == map[]
    {
      holes := map[];
    }

    /** An empty hole is dropped. */
    method AddHole(addr: nat, size: nat)
      modifies this
      ensures holes == if size > 0 then old(holes)[addr := size] else old(holes)
    {
      if size > 0 {
        holes := holes[addr := size];
      }
    }

    method AddrInHole(addr: nat) returns (r: bool)
      ensures r <==> InHole(holes, addr)
    {
      var rest := holes.Keys;
      while rest != {}
        invariant rest <= holes.Keys
        invariant forall h <- holes.Keys - rest :: !(h <= addr <= h + holes[h])
        decreases rest
      {
        var a :| a in rest;
        if addr >= a && addr <= a + holes[a] {
          return true;
        }
        rest := rest - {a};
      }
      return false;
    }
  }
}
