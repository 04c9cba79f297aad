/** Byte memory of the 32-bit physical address space, and its little-endian words. */
module Memory {
  import opened Bits

  const PAGE_SIZE: nat := 4096
  const PTE_SIZE: nat := 4
  const PTES: nat := 1024

  newtype byte = x: int | 0 <= x < 256

  ghost predicate Total(m: imap<nat, byte>) {
    forall a: nat :: a in m <==> a < U32
  }

  /** A total map from 32-bit addresses to bytes. */
  type Mem = m: imap<nat, byte> | Total(m) ghost witness (imap a: nat | a < U32 :: 0 as byte)

  ghost function At(m: Mem, a: nat): byte
    requires a < U32
  {
    m[a]
  }

  ghost const ZERO: Mem := imap a: nat | a < U32 :: 0 as byte

  /** m with data stored from address a on. */
  ghost function Written(m: Mem, a: nat, data: seq<byte>): Mem
    requires a + |data| <= U32
  {
    imap x: nat | x < U32 :: if a <= x < a + |data| then data[x - a] else m[x]
  }

  lemma WrittenNothing(m: Mem, a: nat)
    requires a <= U32
    ensures Written(m, a, []) == m
  {
  }

  lemma WrittenStep(m: Mem, a: nat, data: seq<byte>, i: nat)
    requires a + |data| <= U32 && i < |data|
    ensures Written(Written(m, a, data[..i]), a + i, [data[i]]) == Written(m, a, data[..i + 1])
  {
  }

  /** m with the bytes of data stored one by one from address a on, around the end of the memory. */
  ghost function WrittenAround(m: Mem, a: nat, data: seq<byte>): Mem
    decreases |data|
  {
    if data == [] then m else
      var n := |data| - 1;
      Written(WrittenAround(m, a, data[..n]), (a + n) % U32, [data[n]])
  }

  lemma AroundNothing(m: Mem, a: nat)
    ensures WrittenAround(m, a, []) == m
  {
  }

  lemma AroundStep(m: Mem, a: nat, data: seq<byte>, i: nat)
    requires i < |data|
    ensures WrittenAround(m, a, data[..i + 1]) == Written(WrittenAround(m, a, data[..i]), (a + i) % U32, [data[i]])
  {
    hide Written;
    assert data[..i + 1][..i] == data[..i];
  }

  /** Below 4 GiB the bytes lie in one piece. */
  lemma {:induction false} AroundStraight(m: Mem, a: nat, data: seq<byte>)
    requires a + |data| <= U32
    ensures WrittenAround(m, a, data) == Written(m, a, data)
    decreases |data|
  {
    hide Written;
    if data == [] {
      WrittenNothing(m, a);
    } else {
      var n := |data| - 1;
      AroundStraight(m, a, data[..n]);
      WrittenStep(m, a, data, n);
      assert data[..n + 1] == data;
    }
  }

  ghost function BytesAround(m: Mem, a: nat, n: nat): (r: seq<byte>)
    ensures |r| == n && forall i | 0 <= i < n :: r[i] == At(m, (a + i) % U32)
  {
    seq(n, i requires 0 <= i < n => At(m, (a + i) % U32))
  }

  lemma AroundBytes(m: Mem, a: nat, n: nat)
    requires a + n <= U32
    ensures BytesAround(m, a, n) == Bytes(m, a, n)
  {
  }

  ghost function Bytes(m: Mem, a: nat, n: nat): (r: seq<byte>)
    requires a + n <= U32
    ensures |r| == n && forall i | 0 <= i < n :: r[i] == At(m, a + i)
  {
    seq(n, i requires 0 <= i < n => At(m, a + i))
  }

  function Decode(b: seq<byte>): (w: nat)
    requires |b| == 4
    ensures w < U32
  {
    b[0] as nat + 256 * (b[1] as nat) + 65536 * (b[2] as nat) + 16777216 * (b[3] as nat)
  }

  function Encode(w: nat): (b: seq<byte>)
    requires w < U32
    ensures |b| == 4
  {
    [(w % 256) as byte, (w / 256 % 256) as byte, (w / 65536 % 256) as byte, (w / 16777216) as byte]
  }

  lemma DecodeEncode(w: nat)
    requires w < U32
    ensures Decode(Encode(w)) == w
  {
    var q0 := w / 256;
    var q1 := w / 65536;
    var q2 := w / 16777216;
    assert q1 == q0 / 256 && q2 == q1 / 256;
  }

  /** The little-endian word at a. */
  ghost function Word(m: Mem, a: nat): (w: nat)
    requires a + 4 <= U32
    ensures w < U32
  {
    Decode(Bytes(m, a, 4))
  }

  /** The four bytes from a on are those of w, the lowest first. */
  ghost predicate LittleEndian(m: Mem, a: nat, w: nat)
    requires a + 4 <= U32
  {
    && At(m, a) as nat == w % 256 && At(m, a + 1) as nat == w / 256 % 256
    && At(m, a + 2) as nat == w / 65536 % 256 && At(m, a + 3) as nat == w / 16777216 % 256
  }

  lemma WordBytes(m: Mem, a: nat)
    requires a + 4 <= U32
    ensures LittleEndian(m, a, Word(m, a))
  {
    var b := Bytes(m, a, 4);
    FourBytes(b[0] as nat, b[1] as nat, b[2] as nat, b[3] as nat);
  }

  lemma FourBytes(b0: nat, b1: nat, b2: nat, b3: nat)
    requires b0 < 256 && b1 < 256 && b2 < 256 && b3 < 256
    ensures var w := b0 + 256 * b1 + 65536 * b2 + 16777216 * b3;
      w % 256 == b0 && w / 256 % 256 == b1 && w / 65536 % 256 == b2 && w / 16777216 % 256 == b3
  {
    var w := b0 + 256 * b1 + 65536 * b2 + 16777216 * b3;
    DivModUnique(w, 256, b1 + 256 * b2 + 65536 * b3, b0);
    DivModUnique(w, 65536, b2 + 256 * b3, b0 + 256 * b1);
    DivModUnique(w, 16777216, b3, b0 + 256 * b1 + 65536 * b2);
    DivModUnique(b1 + 256 * b2 + 65536 * b3, 256, b2 + 256 * b3, b1);
    DivModUnique(b2 + 256 * b3, 256, b3, b2);
  }

  lemma WordWritten(m: Mem, a: nat, w: nat)
    requires a + 4 <= U32 && w < U32
    ensures Word(Written(m, a, Encode(w)), a) == w
  {
    DecodeEncode(w);
    assert Bytes(Written(m, a, Encode(w)), a, 4) == Encode(w);
  }

  /** A write leaves words alone that it does not meet. */
  lemma WordElsewhere(m: Mem, a: nat, data: seq<byte>, b: nat)
    requires a + |data| <= U32 && b + 4 <= U32 && (b + 4 <= a || a + |data| <= b)
    ensures Word(Written(m, a, data), b) == Word(m, b)
  {
    assert Bytes(Written(m, a, data), b, 4) == Bytes(m, b, 4);
  }

  ghost predicate AllZero(data: seq<byte>) {
    forall i | 0 <= i < |data| :: data[i] == 0
  }

  lemma WordZeroed(m: Mem, a: nat, data: seq<byte>, b: nat)
    requires a + |data| <= U32 && AllZero(data) && a <= b && b + 4 <= a + |data|
    ensures Word(Written(m, a, data), b) == 0
  {
    var r := Bytes(Written(m, a, data), b, 4);
    assert forall i | 0 <= i < 4 :: r[i] == 0;
  }
}
