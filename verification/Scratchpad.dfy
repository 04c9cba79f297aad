/** The sparse scratchpad: pages that come into being when they are first touched, behind a lock. */
module Scratchpad {
  import opened Bits
  import opened Memory

  type Store = map<nat, seq<byte>>

  ghost predicate StoreOk(pages: Store) {
    forall p <- pages :: |pages[p]| == PAGE_SIZE
  }

  /** The byte at an address: of its page, or zero when the page does not exist yet. */
  function ByteOf(pages: Store, a: nat): byte {
    var key := a - a % PAGE_SIZE;
    if key in pages && a % PAGE_SIZE < |pages[key]| then pages[key][a % PAGE_SIZE] else 0
  }

  /** The memory that a store stands for. */
  ghost function MemOf(pages: Store): Mem {
    imap a: nat | a < U32 :: ByteOf(pages, a)
  }

  lemma SameBytes(pages: Store, pages': Store)
    requires forall a: nat | a < U32 :: ByteOf(pages, a) == ByteOf(pages', a)
    ensures MemOf(pages) == MemOf(pages')
  {
  }

  /** Creating a zero page leaves the memory as it is. */
  lemma Created(pages: Store, key: nat, zeros: seq<byte>)
    requires key !in pages && AllZero(zeros) && |zeros| == PAGE_SIZE
    ensures MemOf(pages[key := zeros]) == MemOf(pages)
  {
    SameBytes(pages, pages[key := zeros]);
  }

  /** Storing one byte into an existing page. */
  lemma Stored(pages: Store, a: nat, b: byte)
    requires StoreOk(pages) && a < U32 && a - a % PAGE_SIZE in pages
    ensures var key := a - a % PAGE_SIZE;
      StoreOk(pages[key := pages[key][a % PAGE_SIZE := b]])
    ensures var key := a - a % PAGE_SIZE;
      MemOf(pages[key := pages[key][a % PAGE_SIZE := b]]) == Written(MemOf(pages), a, [b])
  {
    var key := a - a % PAGE_SIZE;
    var pages' := pages[key := pages[key][a % PAGE_SIZE := b]];
    forall x: nat | x < U32 ensures ByteOf(pages', x) == if x == a then b else ByteOf(pages, x) {
      if x - x % PAGE_SIZE == key && x % PAGE_SIZE == a % PAGE_SIZE {
        assert x == a;
      }
    }
  }

  /** The byte at a 64-bit address has its place in a page whose key is 32 bits wide. */
  lemma PlaceOf(x: nat)
    ensures var a := x % U64;
      && a % U32 == x % U32 && a % PAGE_SIZE == x % U32 % PAGE_SIZE
      && (a - a % PAGE_SIZE) % U32 == x % U32 - x % U32 % PAGE_SIZE
  {
    var a, b := x % U64, x % U32;
    var q := x / U64 * U32 + a / U32;
    DivModUnique(x, U32, q, a % U32);
    PageIn(a, a / U32, b);
  }

  lemma PageIn(a: nat, q: nat, b: nat)
    requires a == U32 * q + b && b < U32
    ensures a % PAGE_SIZE == b % PAGE_SIZE && (a - a % PAGE_SIZE) % U32 == b - b % PAGE_SIZE
  {
    DivModUnique(a, PAGE_SIZE, q * 0x10_0000 + b / PAGE_SIZE, b % PAGE_SIZE);
    DivModUnique(a - a % PAGE_SIZE, U32, q, b - b % PAGE_SIZE);
  }

  lemma ByteThere(pages: Store, a: nat)
    requires StoreOk(pages) && a < U32 && a - a % PAGE_SIZE in pages
    ensures At(MemOf(pages), a) == pages[a - a % PAGE_SIZE][a % PAGE_SIZE]
  {
  }

  class ScratchpadMemory {
    var pageContent: Store
    var locked: bool

    ghost predicate Valid()
      reads `pageContent
    {
      StoreOk(pageContent)
    }

    ghost function Mem(): Mem
      reads `pageContent
    {
      MemOf(pageContent)
    }

    constructor ()
      ensures Valid() && !locked && Mem() == ZERO
    {
      pageContent, locked := map[], false;
    }

    method BeginTransaction()
      requires Valid() && !locked
      modifies `locked
      ensures locked
    {
      locked := true;
    }

    method EndTransaction()
      requires Valid() && locked
      modifies `locked
      ensures !locked
    {
      locked := false;
    }

    /** The map's key is 32 bits wide. */
    method GetPageOrElseCreate(pageBase: nat) returns (key: nat)
      requires Valid() && locked
      modifies `pageContent
      ensures Valid() && key == pageBase % U32 && key in pageContent && Mem() == old(Mem())
    {
      key := pageBase % U32;
      if key !in pageContent {
        var zeros := seq(PAGE_SIZE, _ => 0 as byte);
        Created(pageContent, key, zeros);
        pageContent := pageContent[key := zeros];
      }
    }

    /** Stores the bytes one after the other, across page boundaries and around the end of the 32-bit memory, and nothing else. */
    method Write(addr: nat, data: seq<byte>)
      requires Valid() && locked
      modifies `pageContent
      ensures Valid() && Mem() == WrittenAround(old(Mem()), addr, data)
      ensures addr + |data| <= U32 ==> Mem() == Written(old(Mem()), addr, data)
    {
      hide MemOf, Written, ByteOf, WrittenAround;
      AroundNothing(Mem(), addr);
      for i := 0 to |data|
        invariant Valid() && Mem() == WrittenAround(old(Mem()), addr, data[..i])
      {
        var currentAddr := (addr + i) % U64;
        var currentPageBase := currentAddr - currentAddr % PAGE_SIZE;
        var offset := currentAddr % PAGE_SIZE;
        PlaceOf(addr + i);
        var key := GetPageOrElseCreate(currentPageBase);
        Stored(pageContent, (addr + i) % U32, data[i]);
        AroundStep(old(Mem()), addr, data, i);
        pageContent := pageContent[key := pageContent[key][offset := data[i]]];
      }
      assert data[..|data|] == data;
      if addr + |data| <= U32 {
        AroundStraight(old(Mem()), addr, data);
      }
    }

    method WriteAtomic(addr: nat, data: seq<byte>)
      requires Valid() && !locked
      modifies this
      ensures Valid() && !locked && Mem() == WrittenAround(old(Mem()), addr, data)
      ensures addr + |data| <= U32 ==> Mem() == Written(old(Mem()), addr, data)
    {
      BeginTransaction();
      Write(addr, data);
      EndTransaction();
    }

    /** Returns the bytes; pages may be created on the way, but the memory stays the same. */
    method Read(addr: nat, size: nat) returns (result: seq<byte>)
      requires Valid() && locked
      modifies `pageContent
      ensures Valid() && Mem() == old(Mem()) && result == BytesAround(Mem(), addr, size)
      ensures addr + size <= U32 ==> result == Bytes(Mem(), addr, size)
    {
      hide MemOf, ByteOf, At;
      result := [];
      for i := 0 to size
        invariant Valid() && Mem() == old(Mem())
        invariant |result| == i && forall j | 0 <= j < i :: result[j] == At(Mem(), (addr + j) % U32)
      {
        var currentAddr := (addr + i) % U64;
        var currentPageBase := currentAddr - currentAddr % PAGE_SIZE;
        var offset := currentAddr % PAGE_SIZE;
        PlaceOf(addr + i);
        var key := GetPageOrElseCreate(currentPageBase);
        ByteThere(pageContent, (addr + i) % U32);
        result := result + [pageContent[key][offset]];
      }
      if addr + size <= U32 {
        AroundBytes(Mem(), addr, size);
      }
    }

    method ReadAtomic(addr: nat, size: nat) returns (result: seq<byte>)
      requires Valid() && !locked
      modifies this
      ensures Valid() && !locked && Mem() == old(Mem()) && result == BytesAround(Mem(), addr, size)
      ensures addr + size <= U32 ==> result == Bytes(Mem(), addr, size)
    {
      BeginTransaction();
      result := Read(addr, size);
      EndTransaction();
    }
  }
}
