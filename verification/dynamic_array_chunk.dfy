/** Chunks of the dynamic array (src/DynamicArray/DynamicArrayChunk.c).

    The handle's chunk list is modelled by its contents in creation order,
    a `seq<seq<Slot>>`: chunk k is the k-th node from the list head. A slot
    keeps its permanent index and its used flag; the payload bytes and the
    chunk memory layout are not modelled, and a slot's storage pointer is
    the abstract identity `SlotRef(k, j)`. */
module DynamicArrayChunk {
  import opened MLibTypes

  /** ChunkEntry_t without its payload. */
  datatype Slot = Slot(idx: uint32, used: bool)

  /** The storage pointer of slot j of chunk k. */
  datatype SlotRef = SlotRef(chunk: nat, offset: nat)

  /** MLibDynamicArray_t. */
  datatype DynArray = DynArray(
    chunkSize: size_t,
    entrySize: size_t,
    entryMaxNum: size_t,
    entryNum: size_t,
    chunks: seq<seq<Slot>>)

  /** The shape Init gives a handle and every operation keeps: non-zero
      sizes, and every chunk holding exactly chunkSize slots. */
  predicate Shaped(h: DynArray)
  {
    && h.chunkSize >= 1 && h.entrySize >= 1 && h.entryMaxNum >= 1
    && forall k :: 0 <= k < |h.chunks| ==> |h.chunks[k]| == h.chunkSize
  }

  predicate IsRef(h: DynArray, r: SlotRef)
  {
    r.chunk < |h.chunks| && r.offset < |h.chunks[r.chunk]|
  }

  function At(h: DynArray, r: SlotRef): Slot
    requires IsRef(h, r)
  {
    h.chunks[r.chunk][r.offset]
  }

  /** Creation order of slots: chunk order, then offset order. */
  predicate Before(a: SlotRef, b: SlotRef)
  {
    a.chunk < b.chunk || (a.chunk == b.chunk && a.offset < b.offset)
  }

  /** Slot j of chunk k carries the index k*chunkSize + j. */
  predicate Numbered(h: DynArray)
  {
    forall k, j :: 0 <= k < |h.chunks| && 0 <= j < |h.chunks[k]| ==>
      h.chunks[k][j].idx == k * h.chunkSize + j
  }

  /** The indices of all created slots fit in uint_t. */
  predicate IndexRoom(h: DynArray)
  {
    |h.chunks| * h.chunkSize <= UINT_MOD
  }

  /** Number of used slots of a chunk. */
  function ChunkUsed(c: seq<Slot>): nat
  {
    if |c| == 0 then 0
    else ChunkUsed(c[..|c| - 1]) + (if c[|c| - 1].used then 1 else 0)
  }

  /** Number of used slots of a chunk list. */
  function UsedCount(cs: seq<seq<Slot>>): nat
  {
    if |cs| == 0 then 0 else UsedCount(cs[..|cs| - 1]) + ChunkUsed(cs[|cs| - 1])
  }

  /** The handle invariant: numbered slots and entryNum equal to the number
      of used slots, within the ceiling. */
  predicate Valid(h: DynArray)
  {
    && Shaped(h)
    && Numbered(h)
    && IndexRoom(h)
    && h.entryNum == UsedCount(h.chunks)
    && h.entryNum <= h.entryMaxNum
  }

  /** The index ChunkAdd gives the first slot of a new chunk: 0 for an empty
      list, otherwise the tail chunk's last index plus one (uint_t wrap). */
  function NextFirstIdx(h: DynArray): uint32
    requires Shaped(h)
  {
    if |h.chunks| == 0 then 0
    else (h.chunks[|h.chunks| - 1][h.chunkSize - 1].idx + 1) % UINT_MOD
  }

  datatype ChunkAddResult = ChunkAddResult(chunk: Ptr<nat>, h: DynArray, err: Ptr<Err>)

  /** ChunkAdd: allocate a chunk (mallocOk is the allocator's answer),
      number its slots from NextFirstIdx, mark them unused, append it at
      the tail of the list. The result's `chunk` is the new chunk's position. */
  function ChunkAdd(h: DynArray, pErr: Ptr<Err>, mallocOk: bool): (r: ChunkAddResult)
    requires Shaped(h)
    ensures r.chunk.Null? <==> !mallocOk
    ensures !mallocOk ==> r.h == h && r.err == Set(pErr, ErrNoMemory)
    ensures mallocOk ==>
      && r.chunk == Points(|h.chunks|)
      && r.err == Set(pErr, ErrNone)
      && Shaped(r.h)
      && |r.h.chunks| == |h.chunks| + 1
      && r.h == h.(chunks := h.chunks + [r.h.chunks[|h.chunks|]])
      && (forall j :: 0 <= j < h.chunkSize ==> !r.h.chunks[|h.chunks|][j].used)
      && (forall j :: 0 <= j < h.chunkSize ==>
            r.h.chunks[|h.chunks|][j].idx == (NextFirstIdx(h) + j) % UINT_MOD)
  {
    var first := NextFirstIdx(h);
    if !mallocOk then
      ChunkAddResult(Null, h, Set(pErr, ErrNoMemory))
    else
      var c := seq(h.chunkSize, j requires 0 <= j < h.chunkSize => Slot((first + j) % UINT_MOD, false));
      ChunkAddResult(Points(|h.chunks|), h.(chunks := h.chunks + [c]), Set(pErr, ErrNone))
  }

  /** The first chunk gets indices 0..chunkSize-1, and a later one continues
      from the tail: chunk k covers [k*chunkSize, (k+1)*chunkSize), as long
      as the indices fit in uint_t. */
  lemma ChunkAddNumbered(h: DynArray, pErr: Ptr<Err>)
    requires Shaped(h) && Numbered(h)
    requires (|h.chunks| + 1) * h.chunkSize <= UINT_MOD
    ensures var r := ChunkAdd(h, pErr, true);
      && Numbered(r.h) && IndexRoom(r.h)
      && forall j :: 0 <= j < h.chunkSize ==> r.h.chunks[|h.chunks|][j].idx == |h.chunks| * h.chunkSize + j
  {
    var n := |h.chunks|;
    var cs := h.chunkSize;
    var r := ChunkAdd(h, pErr, true);
    MulSucc(n, cs);
    if n > 0 {
      assert h.chunks[n - 1][cs - 1].idx == (n - 1) * cs + cs - 1;
      MulSucc(n - 1, cs);
      assert NextFirstIdx(h) == n * cs;
    }
    assert NextFirstIdx(h) == n * cs;
    forall j | 0 <= j < cs
      ensures r.h.chunks[n][j].idx == n * cs + j
    {
      assert (n * cs + j) % UINT_MOD == n * cs + j;
    }
  }

  /** A new chunk adds no used slot. */
  lemma ChunkAddKeepsCount(h: DynArray, pErr: Ptr<Err>)
    requires Shaped(h)
    ensures UsedCount(ChunkAdd(h, pErr, true).h.chunks) == UsedCount(h.chunks)
  {
    var r := ChunkAdd(h, pErr, true);
    var c := r.h.chunks[|h.chunks|];
    assert r.h.chunks[..|h.chunks|] == h.chunks;
    NoneUsed(c);
  }

  lemma {:induction false} NoneUsed(c: seq<Slot>)
    requires forall j :: 0 <= j < |c| ==> !c[j].used
    ensures ChunkUsed(c) == 0
  {
    if |c| > 0 {
      NoneUsed(c[..|c| - 1]);
    }
  }

  /** Used slots of a chunk never outnumber its slots. */
  lemma {:induction false} ChunkUsedBound(c: seq<Slot>)
    ensures ChunkUsed(c) <= |c|
    ensures ChunkUsed(c) == |c| <==> forall j :: 0 <= j < |c| ==> c[j].used
  {
    if |c| > 0 {
      ChunkUsedBound(c[..|c| - 1]);
      assert forall j :: 0 <= j < |c| - 1 ==> c[..|c| - 1][j] == c[j];
    }
  }

  /** Changing one slot's used flag changes a chunk's count by the difference. */
  lemma {:induction false} ChunkUsedUpdate(c: seq<Slot>, j: nat, s: Slot)
    requires j < |c|
    ensures ChunkUsed(c[j := s]) + (if c[j].used then 1 else 0)
         == ChunkUsed(c) + (if s.used then 1 else 0)
  {
    var n := |c| - 1;
    if j < n {
      assert c[j := s][..n] == c[..n][j := s];
      ChunkUsedUpdate(c[..n], j, s);
    } else {
      assert c[j := s][..n] == c[..n];
    }
  }

  /** Changing one slot's used flag changes the array's count by the difference. */
  lemma {:induction false} UsedCountUpdate(cs: seq<seq<Slot>>, k: nat, j: nat, s: Slot)
    requires k < |cs| && j < |cs[k]|
    ensures UsedCount(cs[k := cs[k][j := s]]) + (if cs[k][j].used then 1 else 0)
         == UsedCount(cs) + (if s.used then 1 else 0)
  {
    var n := |cs| - 1;
    var cs' := cs[k := cs[k][j := s]];
    if k < n {
      assert cs'[..n] == cs[..n][k := cs[k][j := s]];
      UsedCountUpdate(cs[..n], k, j, s);
    } else {
      assert cs'[..n] == cs[..n];
      ChunkUsedUpdate(cs[k], j, s);
    }
  }

  /** When every slot is used, the used count is the capacity. */
  lemma {:induction false} AllUsedCount(h: DynArray)
    requires Shaped(h)
    requires forall k, j :: 0 <= k < |h.chunks| && 0 <= j < |h.chunks[k]| ==> h.chunks[k][j].used
    ensures UsedCount(h.chunks) == |h.chunks| * h.chunkSize
    decreases |h.chunks|
  {
    if |h.chunks| > 0 {
      var n := |h.chunks| - 1;
      var h' := h.(chunks := h.chunks[..n]);
      AllUsedCount(h');
      ChunkUsedBound(h.chunks[n]);
      MulSucc(n, h.chunkSize);
    }
  }
}
