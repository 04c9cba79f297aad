/** The stack slots of the hardware threads of a kernel. */
module Stacks {
  import opened Bits
  import opened Memory
  import opened Mappings

  const NUM_CORES: nat := 4

  /** The ceiling of the binary logarithm. */
  function CeilLog2(n: nat): (b: nat)
    requires 0 < n
    ensures n <= Pow2(b) && (0 < b ==> Pow2(b - 1) < n)
  {
    if n == 1 then 0 else 1 + CeilLog2((n + 1) / 2)
  }

  /** The id of a hardware thread: core, warp and thread as bit fields. */
  function HartId(core: nat, warp: nat, thread: nat, nwBits: nat, ntBits: nat): nat {
    core * Pow2(nwBits + ntBits) + warp * Pow2(ntBits) + thread
  }

  function MaxHartId(warps: nat, threads: nat): nat
    requires 0 < warps && 0 < threads
  {
    HartId(NUM_CORES - 1, warps - 1, threads - 1, CeilLog2(warps), CeilLog2(threads))
  }

  ghost predicate IsHart(core: nat, warp: nat, thread: nat, warps: nat, threads: nat) {
    core < NUM_CORES && warp < warps && thread < threads
  }

  /** Different hardware threads have different ids. */
  lemma HartIdsDiffer(c: nat, w: nat, t: nat, c': nat, w': nat, t': nat, warps: nat, threads: nat)
    requires IsHart(c, w, t, warps, threads) && IsHart(c', w', t', warps, threads)
    ensures var nw, nt := CeilLog2(warps), CeilLog2(threads);
      HartId(c, w, t, nw, nt) == HartId(c', w', t', nw, nt) ==> c == c' && w == w' && t == t'
  {
    hide HartId, CeilLog2, Pow2;
    HartFields(c, w, t, CeilLog2(warps), CeilLog2(threads));
    HartFields(c', w', t', CeilLog2(warps), CeilLog2(threads));
  }

  /** The fields of an id can be read back from it. */
  lemma HartFields(c: nat, w: nat, t: nat, nw: nat, nt: nat)
    requires w < Pow2(nw) && t < Pow2(nt)
    ensures var id := HartId(c, w, t, nw, nt);
      id % Pow2(nt) == t && id / Pow2(nt) % Pow2(nw) == w && id / Pow2(nt) / Pow2(nw) == c
  {
    hide Pow2;
    PowSum(nw, nt);
    Fields(c, w, t, Pow2(nw), Pow2(nt));
  }

  lemma Fields(c: nat, w: nat, t: nat, W: nat, T: nat)
    requires w < W && t < T
    ensures var id := c * (W * T) + w * T + t; id % T == t && id / T == c * W + w && id / T % W == w && id / T / W == c
  {
    var id := c * (W * T) + w * T + t;
    assert c * (W * T) + w * T == T * (c * W + w);
    DivModUnique(id, T, c * W + w, t);
    DivModUnique(c * W + w, W, c, w);
  }

  /** No id exceeds the largest one. */
  lemma HartIdBound(c: nat, w: nat, t: nat, warps: nat, threads: nat)
    requires IsHart(c, w, t, warps, threads)
    ensures HartId(c, w, t, CeilLog2(warps), CeilLog2(threads)) <= MaxHartId(warps, threads)
  {
    hide CeilLog2, Pow2;
    var nw, nt := CeilLog2(warps), CeilLog2(threads);
    MulLe(c, NUM_CORES - 1, Pow2(nw + nt));
    MulLe(w, warps - 1, Pow2(nt));
  }

  lemma MulLe(a: nat, b: nat, k: nat)
    requires a <= b
    ensures a * k <= b * k
  {
  }

  /** The slot of an id lies this far below the top of the stacks, and is size bytes long. */
  function SlotStart(top: nat, id: nat, size: nat): int {
    top - (id + 1) * size
  }

  /** Slots of different ids are disjoint, and all slots lie between the bottom and the top of the stacks. */
  lemma SlotsDisjoint(top: nat, size: nat, id: nat, id': nat, max: nat)
    requires id < id' <= max
    ensures SlotStart(top, id', size) + size <= SlotStart(top, id, size)
    ensures top - (max + 1) * size <= SlotStart(top, id', size) && SlotStart(top, id, size) + size <= top
  {
    MulLe(id + 1, id', size);
    MulLe(id' + 1, max + 1, size);
    assert (id' + 1) * size == id' * size + size;
  }

  /** The stacks lie on no more pages than their size needs. */
  predicate StackCovered(top: nat, bytes: nat)
    requires bytes <= top
  {
    0 < bytes ==> (top - bytes) % PAGE_SIZE + (bytes - 1) % PAGE_SIZE < PAGE_SIZE
  }

  /** The started pages from the bottom on never reach past the top, and reach it exactly when the stacks are covered, in
    particular when the top is page-aligned. */
  lemma StackPages(top: nat, bytes: nat)
    requires bytes <= top
    ensures var first := (top - bytes) / PAGE_SIZE;
      && first + Started(bytes) <= Started(top)
      && (0 < bytes ==> (first + Started(bytes) == Started(top) <==> StackCovered(top, bytes)))
      && (top % PAGE_SIZE == 0 ==> StackCovered(top, bytes))
  {
    hide Started;
    StartedSplit(top - bytes, bytes);
    StraddleOne((top - bytes) % PAGE_SIZE, bytes);
    if top % PAGE_SIZE == 0 && 0 < bytes {
      AlignedTop(top, bytes);
    }
  }

  lemma AlignedTop(top: nat, bytes: nat)
    requires 0 < bytes <= top && top % PAGE_SIZE == 0
    ensures (top - bytes) % PAGE_SIZE + (bytes - 1) % PAGE_SIZE == PAGE_SIZE - 1
  {
  }

  /** The bytes of all slots together. */
  function StackBytes(warps: nat, threads: nat, stackLog2: nat): nat
    requires 0 < warps && 0 < threads
  {
    Pow2(stackLog2) * (MaxHartId(warps, threads) + 1)
  }

  /** The largest id is that of a hardware thread, and its slot starts where the stacks do. */
  lemma LastSlot(warps: nat, threads: nat, top: nat, stackLog2: nat)
    requires 0 < warps && 0 < threads
    ensures IsHart(3, warps - 1, threads - 1, warps, threads)
    ensures MaxHartId(warps, threads) == HartId(3, warps - 1, threads - 1, CeilLog2(warps), CeilLog2(threads))
    ensures SlotStart(top, MaxHartId(warps, threads), Pow2(stackLog2)) == top - StackBytes(warps, threads, stackLog2)
  {
    hide HartId, CeilLog2, Pow2;
  }

  predicate InSlot(top: nat, id: nat, size: nat, a: nat) {
    SlotStart(top, id, size) <= a < SlotStart(top, id, size) + size
  }

  /** The slots fill the stacks: every byte lies in the slot of one id. */
  lemma SlotsCover(warps: nat, threads: nat, top: nat, stackLog2: nat, a: nat)
    requires 0 < warps && 0 < threads && top - StackBytes(warps, threads, stackLog2) <= a < top
    ensures exists id: nat :: id <= MaxHartId(warps, threads) && InSlot(top, id, Pow2(stackLog2), a)
  {
    hide Pow2, MaxHartId;
    var size := Pow2(stackLog2);
    var id := (top - 1 - a) / size;
    DivBounds(top - 1 - a, size);
    assert (id + 1) * size == id * size + size;
    if MaxHartId(warps, threads) < id {
      MulLe(MaxHartId(warps, threads) + 1, id, size);
    }
    assert InSlot(top, id, size, a);
  }

  lemma DivBounds(x: nat, m: nat)
    requires 0 < m
    ensures x / m * m <= x < x / m * m + m
  {
  }

  lemma SlotInside(warps: nat, threads: nat, top: nat, stackLog2: nat, id: nat, a: nat)
    requires 0 < warps && 0 < threads && StackBytes(warps, threads, stackLog2) <= top
    requires id <= MaxHartId(warps, threads) && InSlot(top, id, Pow2(stackLog2), a)
    ensures top - StackBytes(warps, threads, stackLog2) <= a < top
  {
    hide Pow2, MaxHartId;
    var size := Pow2(stackLog2);
    MulLe(id + 1, MaxHartId(warps, threads) + 1, size);
    assert (id + 1) * size == id * size + size;
  }

  /** No address lies in the slots of two hardware threads. */
  lemma SlotsApart(warps: nat, threads: nat, top: nat, size: nat, c: nat, w: nat, t: nat, c': nat, w': nat, t': nat, a: nat)
    requires IsHart(c, w, t, warps, threads) && IsHart(c', w', t', warps, threads)
    requires InSlot(top, HartId(c, w, t, CeilLog2(warps), CeilLog2(threads)), size, a)
    requires InSlot(top, HartId(c', w', t', CeilLog2(warps), CeilLog2(threads)), size, a)
    ensures c == c' && w == w' && t == t'
  {
    hide HartId, CeilLog2, Pow2;
    var i, j := HartId(c, w, t, CeilLog2(warps), CeilLog2(threads)), HartId(c', w', t', CeilLog2(warps), CeilLog2(threads));
    HartIdsDiffer(c, w, t, c', w', t', warps, threads);
    if i < j {
      SlotsDisjoint(top, size, i, j, j);
    } else if j < i {
      SlotsDisjoint(top, size, j, i, i);
    }
  }
}
