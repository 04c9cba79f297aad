/** The device's physical memory, which accepts every transfer that fits it. */
module Device {
  import opened Bits
  import opened Memory

  ghost function MemOfSeq(s: seq<byte>): Mem
    requires |s| == U32
  {
    imap a: nat | a < U32 :: s[a]
  }

  class Accelerator {
    const data: array<byte>

    ghost predicate Valid() {
      data.Length == U32
    }

    constructor ()
      ensures Valid() && fresh(data)
    {
      data := new byte[U32];
    }

    ghost function Mem(): Mem
      requires Valid()
      reads data
    {
      MemOfSeq(data[..])
    }

    method Upload(pa: nat, content: seq<byte>)
      requires Valid() && pa + |content| <= U32
      modifies data
      ensures Mem() == Written(old(Mem()), pa, content)
    {
      for i := 0 to |content|
        invariant forall a | 0 <= a < U32 :: data[a] == if pa <= a < pa + i then content[a - pa] else old(data[a])
      {
        data[pa + i] := content[i];
      }
    }

    method Download(pa: nat, size: nat) returns (content: seq<byte>)
      requires Valid() && pa + size <= U32
      ensures content == Bytes(Mem(), pa, size)
    {
      content := data[pa..pa + size];
    }
  }
}
