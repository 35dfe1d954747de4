/** The dynamic array's public operations: Init, Alloc, Free, Get and Exit
    (src/DynamicArray/DynamicArray{Init,Alloc,Free,Get,Exit}.c).

    A handle pointer is a `Ptr<DynArray>`; an operation returns the handle's
    new value together with the values of its out-parameter cells. */
module DynamicArray {
  import opened MLibTypes
  import opened DynamicArrayChunk
  import List

  // ---------------------------------------------------------------- Init

  datatype InitResult = InitResult(ret: Ret, ppHandle: Ptr<Ptr<DynArray>>, err: Ptr<Err>)

  /** MLibDynamicArrayInit(ppHandle, chunkSize, entrySize, entryMaxNum, pErr).
      `mallocOk` is the answer of the handle allocation; the handle's chunk
      list is set up by MLibListInit, whose result is returned. */
  function Init(ppHandle: Ptr<Ptr<DynArray>>, chunkSize: size_t, entrySize: size_t,
                entryMaxNum: size_t, pErr: Ptr<Err>, mallocOk: bool): (r: InitResult)
    ensures ppHandle.Null? || chunkSize == 0 || entrySize == 0 || entryMaxNum == 0 ==>
      r == InitResult(Failure, ppHandle, Set(pErr, ErrParam))
    ensures ppHandle.Points? && chunkSize > 0 && entrySize > 0 && entryMaxNum > 0 && !mallocOk ==>
      r == InitResult(Failure, Points(Null), Set(pErr, ErrNoMemory))
    ensures r.ret == Success <==>
      ppHandle.Points? && chunkSize > 0 && entrySize > 0 && entryMaxNum > 0 && mallocOk
    ensures r.ret == Success ==>
      && r.err == Set(pErr, ErrNone)
      && r.ppHandle.Points? && r.ppHandle.to.Points?
      && r.ppHandle.to.to == DynArray(chunkSize, entrySize, entryMaxNum, 0, [])
      && Valid(r.ppHandle.to.to)
  {
    if ppHandle.Null? || chunkSize == 0 || entrySize == 0 || entryMaxNum == 0 then
      InitResult(Failure, ppHandle, Set(pErr, ErrParam))
    else if !mallocOk then
      InitResult(Failure, Points(Null), Set(pErr, ErrNoMemory))
    else
      var h := DynArray(chunkSize, entrySize, entryMaxNum, 0, []);
      var li := List.Init(List.List(0, Null, Null, 0));
      assert li.ret == Success;
      InitResult(li.ret, Points(Points(h)), Set(pErr, ErrNone))
  }

  /** Whether the error out-parameter is NULL or not has no influence on the
      result and on the handle. */
  lemma InitErrIndependent(ppHandle: Ptr<Ptr<DynArray>>, chunkSize: size_t, entrySize: size_t,
                           entryMaxNum: size_t, mallocOk: bool, pErr: Ptr<Err>)
    ensures var a := Init(ppHandle, chunkSize, entrySize, entryMaxNum, Null, mallocOk);
            var b := Init(ppHandle, chunkSize, entrySize, entryMaxNum, pErr, mallocOk);
            a.ret == b.ret && a.ppHandle == b.ppHandle && a.err == Null
  {
  }

  // --------------------------------------------------------------- Alloc

  predicate AtOrAfter(r: SlotRef, k: nat, j: nat)
  {
    r.chunk > k || (r.chunk == k && r.offset >= j)
  }

  predicate HasFree(h: DynArray)
  {
    exists k, j :: 0 <= k < |h.chunks| && 0 <= j < |h.chunks[k]| && !h.chunks[k][j].used
  }

  /** The first unused slot at or after slot j of chunk k, scanning chunks in
      list order and slots in offset order, as Alloc's loops do. */
  function FirstFree(cs: seq<seq<Slot>>, k: nat, j: nat): (r: Ptr<SlotRef>)
    requires k <= |cs| && (k < |cs| ==> j <= |cs[k]|)
    decreases |cs| - k, if k < |cs| then |cs[k]| - j else 0
    ensures r.Points? ==>
      && r.to.chunk < |cs| && r.to.offset < |cs[r.to.chunk]|
      && AtOrAfter(r.to, k, j)
      && !cs[r.to.chunk][r.to.offset].used
      && forall k', j' :: (0 <= k' < |cs| && 0 <= j' < |cs[k']| && AtOrAfter(SlotRef(k', j'), k, j)
                           && Before(SlotRef(k', j'), r.to)) ==> cs[k'][j'].used
    ensures r.Null? ==>
      forall k', j' :: 0 <= k' < |cs| && 0 <= j' < |cs[k']| && AtOrAfter(SlotRef(k', j'), k, j) ==>
        cs[k'][j'].used
  {
    if k == |cs| then Null
    else if j == |cs[k]| then FirstFree(cs, k + 1, 0)
    else if !cs[k][j].used then Points(SlotRef(k, j))
    else FirstFree(cs, k, j + 1)
  }

  /** The handle with the used flag of one slot set to `used`. */
  function Mark(h: DynArray, r: SlotRef, used: bool): (h': DynArray)
    requires IsRef(h, r)
    ensures h' == h.(chunks := h'.chunks) && |h'.chunks| == |h.chunks|
    ensures forall k :: 0 <= k < |h.chunks| ==> |h'.chunks[k]| == |h.chunks[k]|
    ensures forall k, j :: 0 <= k < |h.chunks| && 0 <= j < |h.chunks[k]| ==>
      h'.chunks[k][j] == if k == r.chunk && j == r.offset then h.chunks[k][j].(used := used) else h.chunks[k][j]
    ensures Shaped(h) ==> Shaped(h')
    ensures Numbered(h) ==> Numbered(h')
  {
    h.(chunks := h.chunks[r.chunk := h.chunks[r.chunk][r.offset := At(h, r).(used := used)]])
  }

  datatype AllocResult = AllocResult(
    ret: Ret, h: Ptr<DynArray>, idx: Ptr<uint32>, entry: Ptr<Ptr<SlotRef>>, err: Ptr<Err>)

  /** Alloc's success path: mark the slot used, count it, report it. */
  function Take(h: DynArray, r: SlotRef, err: Ptr<Err>): AllocResult
    requires IsRef(h, r) && h.entryNum < SIZE_MAX
  {
    AllocResult(Success, Points(Mark(h, r, true).(entryNum := h.entryNum + 1)),
                Points(At(h, r).idx), Points(Points(r)), err)
  }

  /** MLibDynamicArrayAlloc(pHandle, pIdx, ppEntry, pErr): first fit under
      the entryMaxNum ceiling, growing by one chunk (whose first slot is then
      taken) only when no existing slot is free. `mallocOk` is the answer of
      the chunk allocation, should one be needed. */
  function Alloc(pHandle: Ptr<DynArray>, pIdx: Ptr<uint32>, ppEntry: Ptr<Ptr<SlotRef>>,
                 pErr: Ptr<Err>, mallocOk: bool): (r: AllocResult)
    requires pHandle.Points? ==> Shaped(pHandle.to)
    ensures pHandle.Null? || pIdx.Null? || ppEntry.Null? ==>
      r == AllocResult(Failure, pHandle, pIdx, ppEntry, Set(pErr, ErrParam))
    ensures pHandle.Points? && pIdx.Points? && ppEntry.Points? &&
            pHandle.to.entryNum >= pHandle.to.entryMaxNum ==>
      r == AllocResult(Failure, pHandle, pIdx, ppEntry, Set(pErr, ErrLimitOver))
    ensures r.ret == Success <==>
      && pHandle.Points? && pIdx.Points? && ppEntry.Points?
      && pHandle.to.entryNum < pHandle.to.entryMaxNum
      && (HasFree(pHandle.to) || mallocOk)
    ensures r.ret == Failure ==> r.h == pHandle && r.idx == pIdx && r.entry == ppEntry
    ensures (r.ret == Failure && pHandle.Points? && pIdx.Points? && ppEntry.Points? &&
             pHandle.to.entryNum < pHandle.to.entryMaxNum) ==> r.err == Set(pErr, ErrNoMemory)
    ensures r.ret == Success ==>
      var h := pHandle.to;
      && r.err == Set(pErr, ErrNone)
      && r.h.Points? && r.entry.Points? && r.entry.to.Points?
      && var h', ref := r.h.to, r.entry.to.to;
      && Shaped(h') && IsRef(h', ref) && At(h', ref).used
      && r.idx == Points(At(h', ref).idx)
      && h' == h.(entryNum := h.entryNum + 1, chunks := h'.chunks)
  {
    if pHandle.Null? || pIdx.Null? || ppEntry.Null? then
      AllocResult(Failure, pHandle, pIdx, ppEntry, Set(pErr, ErrParam))
    else
      var h := pHandle.to;
      if h.entryNum >= h.entryMaxNum then
        AllocResult(Failure, pHandle, pIdx, ppEntry, Set(pErr, ErrLimitOver))
      else
        match FirstFree(h.chunks, 0, 0)
        case Points(ref) =>
          Take(h, ref, Set(pErr, ErrNone))
        case Null =>
          var added := ChunkAdd(h, Set(pErr, ErrNone), mallocOk);
          if added.chunk.Null? then
            AllocResult(Failure, pHandle, pIdx, ppEntry, added.err)
          else
            Take(added.h, SlotRef(|h.chunks|, 0), added.err)
  }

  /** Which slot Alloc takes: every slot created before it is in use; an
      existing free slot is taken in place, with nothing else changed;
      otherwise every slot was in use and a chunk numbered from
      NextFirstIdx was appended, whose first slot is taken. */
  lemma AllocFirstFit(h: DynArray, pIdx: Ptr<uint32>, ppEntry: Ptr<Ptr<SlotRef>>,
                      pErr: Ptr<Err>, mallocOk: bool)
    requires Shaped(h)
    ensures var r := Alloc(Points(h), pIdx, ppEntry, pErr, mallocOk);
      r.ret == Success ==>
        var h', ref := r.h.to, r.entry.to.to;
        && (forall k, j :: (0 <= k < |h.chunks| && 0 <= j < |h.chunks[k]| &&
                            Before(SlotRef(k, j), ref)) ==> h.chunks[k][j].used)
        && (ref.chunk < |h.chunks| ==>
              !At(h, ref).used && h'.chunks == Mark(h, ref, true).chunks)
        && (ref.chunk >= |h.chunks| ==>
              && ref == SlotRef(|h.chunks|, 0)
              && !HasFree(h)
              && |h'.chunks| == |h.chunks| + 1
              && h'.chunks[..|h.chunks|] == h.chunks
              && h'.chunks[|h.chunks|][0].idx == NextFirstIdx(h)
              && forall j :: 1 <= j < h.chunkSize ==> !h'.chunks[|h.chunks|][j].used)
  {
    AllocTakesFirst(h, pIdx, ppEntry, pErr, mallocOk);
    AllocInPlace(h, pIdx, ppEntry, pErr, mallocOk);
    AllocGrows(h, pIdx, ppEntry, pErr, mallocOk);
  }

  /** AllocFirstFit's first clause: every earlier slot is in use. */
  lemma AllocTakesFirst(h: DynArray, pIdx: Ptr<uint32>, ppEntry: Ptr<Ptr<SlotRef>>,
                        pErr: Ptr<Err>, mallocOk: bool)
    requires Shaped(h)
    ensures var r := Alloc(Points(h), pIdx, ppEntry, pErr, mallocOk);
      r.ret == Success ==>
        forall k, j :: (0 <= k < |h.chunks| && 0 <= j < |h.chunks[k]| &&
                        Before(SlotRef(k, j), r.entry.to.to)) ==> h.chunks[k][j].used
  {
  }

  /** AllocFirstFit's second clause: an existing slot is taken in place. */
  lemma AllocInPlace(h: DynArray, pIdx: Ptr<uint32>, ppEntry: Ptr<Ptr<SlotRef>>,
                     pErr: Ptr<Err>, mallocOk: bool)
    requires Shaped(h)
    ensures var r := Alloc(Points(h), pIdx, ppEntry, pErr, mallocOk);
      r.ret == Success && r.entry.to.to.chunk < |h.chunks| ==>
        !At(h, r.entry.to.to).used && r.h.to.chunks == Mark(h, r.entry.to.to, true).chunks
  {
  }

  /** AllocFirstFit's third clause: otherwise a new chunk is appended and its
      first slot taken. */
  lemma AllocGrows(h: DynArray, pIdx: Ptr<uint32>, ppEntry: Ptr<Ptr<SlotRef>>,
                   pErr: Ptr<Err>, mallocOk: bool)
    requires Shaped(h)
    ensures var r := Alloc(Points(h), pIdx, ppEntry, pErr, mallocOk);
      r.ret == Success && r.entry.to.to.chunk >= |h.chunks| ==>
        var h', ref := r.h.to, r.entry.to.to;
        && ref == SlotRef(|h.chunks|, 0)
        && !HasFree(h)
        && |h'.chunks| == |h.chunks| + 1
        && h'.chunks[..|h.chunks|] == h.chunks
        && h'.chunks[|h.chunks|][0].idx == NextFirstIdx(h)
        && forall j :: 1 <= j < h.chunkSize ==> !h'.chunks[|h.chunks|][j].used
  {
    var r := Alloc(Points(h), pIdx, ppEntry, pErr, mallocOk);
    if r.ret == Success && FirstFree(h.chunks, 0, 0).Null? {
      var g := ChunkAdd(h, Set(pErr, ErrNone), true);
      assert r == Take(g.h, SlotRef(|h.chunks|, 0), g.err);
      GrowTake(h, Set(pErr, ErrNone));
    }
  }

  /** Taking the first slot of a freshly added chunk keeps the old chunks
      and leaves the new chunk's other slots unused. */
  lemma GrowTake(h: DynArray, err: Ptr<Err>)
    requires Shaped(h) && h.entryNum < SIZE_MAX
    ensures var g := ChunkAdd(h, err, true);
      var h' := Take(g.h, SlotRef(|h.chunks|, 0), g.err).h.to;
      && |h'.chunks| == |h.chunks| + 1
      && h'.chunks[..|h.chunks|] == h.chunks
      && h'.chunks[|h.chunks|][0].idx == NextFirstIdx(h)
      && forall j :: 1 <= j < h.chunkSize ==> !h'.chunks[|h.chunks|][j].used
  {
    var n := |h.chunks|;
    var g := ChunkAdd(h, err, true);
    var m := Mark(g.h, SlotRef(n, 0), true);
    assert m.chunks == h.chunks + [m.chunks[n]];
    assert (m.chunks)[..n] == h.chunks;
  }

  /** Taking an unused slot of a handle whose count is below the ceiling
      gives a valid handle. */
  lemma TakeKeepsValid(h: DynArray, ref: SlotRef, err: Ptr<Err>)
    requires Shaped(h) && Numbered(h) && IndexRoom(h)
    requires h.entryNum == UsedCount(h.chunks) && h.entryNum < h.entryMaxNum
    requires IsRef(h, ref) && !At(h, ref).used
    ensures Valid(Take(h, ref, err).h.to)
  {
    UsedCountUpdate(h.chunks, ref.chunk, ref.offset, At(h, ref).(used := true));
  }

  /** Alloc keeps the handle invariant: the returned slot was unused, so
      entryNum still counts the used slots; the new chunk, if any, continues
      the numbering. Growth needs the new indices to fit in uint_t. */
  lemma AllocKeepsValid(h: DynArray, pIdx: Ptr<uint32>, ppEntry: Ptr<Ptr<SlotRef>>,
                        pErr: Ptr<Err>, mallocOk: bool)
    requires Valid(h)
    requires h.entryMaxNum + h.chunkSize <= UINT_MOD + 1
    ensures var r := Alloc(Points(h), pIdx, ppEntry, pErr, mallocOk);
            r.h.Points? && Valid(r.h.to)
  {
    var r := Alloc(Points(h), pIdx, ppEntry, pErr, mallocOk);
    if r.ret == Success && pIdx.Points? && ppEntry.Points? {
      var ref := r.entry.to.to;
      match FirstFree(h.chunks, 0, 0)
      case Points(f) =>
        assert ref == f;
        TakeKeepsValid(h, ref, Set(pErr, ErrNone));
      case Null =>
        var n, cs := |h.chunks|, h.chunkSize;
        AllUsedCount(h);
        MulSucc(n, cs);
        ChunkAddNumbered(h, Set(pErr, ErrNone));
        ChunkAddKeepsCount(h, Set(pErr, ErrNone));
        var g := ChunkAdd(h, Set(pErr, ErrNone), true);
        TakeKeepsValid(g.h, SlotRef(n, 0), g.err);
    }
  }

  /** Under the numbering, creation order is index order: Alloc returns the
      lowest index whose slot is unused, or the first index past the created
      slots when all are used. */
  lemma AllocLowestIndex(h: DynArray, pIdx: Ptr<uint32>, ppEntry: Ptr<Ptr<SlotRef>>,
                         pErr: Ptr<Err>, mallocOk: bool)
    requires Valid(h)
    requires h.entryMaxNum + h.chunkSize <= UINT_MOD + 1
    ensures var r := Alloc(Points(h), pIdx, ppEntry, pErr, mallocOk);
      r.ret == Success ==>
        && r.idx.Points?
        && (forall k, j :: (0 <= k < |h.chunks| && 0 <= j < |h.chunks[k]| &&
                            h.chunks[k][j].idx < r.idx.to) ==> h.chunks[k][j].used)
        && (r.idx.to < |h.chunks| * h.chunkSize ==>
              exists k, j :: 0 <= k < |h.chunks| && 0 <= j < |h.chunks[k]| &&
                             h.chunks[k][j] == Slot(r.idx.to, false))
        && (r.idx.to >= |h.chunks| * h.chunkSize ==> r.idx.to == |h.chunks| * h.chunkSize)
  {
    var r := Alloc(Points(h), pIdx, ppEntry, pErr, mallocOk);
    AllocIndex(h, pIdx, ppEntry, pErr, mallocOk);
    AllocBelowUsed(h, pIdx, ppEntry, pErr, mallocOk);
    if r.ret == Success && r.entry.to.to.chunk < |h.chunks| {
      var ref := r.entry.to.to;
      assert 0 <= ref.chunk < |h.chunks| && 0 <= ref.offset < |h.chunks[ref.chunk]| &&
             h.chunks[ref.chunk][ref.offset] == Slot(r.idx.to, false);
    }
  }

  /** Where Alloc's index lies: at the unused slot it takes, inside the
      created range, or at the start of the chunk it adds. */
  lemma AllocIndex(h: DynArray, pIdx: Ptr<uint32>, ppEntry: Ptr<Ptr<SlotRef>>,
                   pErr: Ptr<Err>, mallocOk: bool)
    requires Valid(h)
    requires h.entryMaxNum + h.chunkSize <= UINT_MOD + 1
    ensures var r := Alloc(Points(h), pIdx, ppEntry, pErr, mallocOk);
      r.ret == Success ==>
        var ref := r.entry.to.to;
        && r.idx.Points?
        && (ref.chunk < |h.chunks| ==>
              && ref.offset < |h.chunks[ref.chunk]|
              && r.idx.to < |h.chunks| * h.chunkSize
              && h.chunks[ref.chunk][ref.offset] == Slot(r.idx.to, false))
        && (ref.chunk >= |h.chunks| ==> r.idx.to == |h.chunks| * h.chunkSize)
  {
    var r := Alloc(Points(h), pIdx, ppEntry, pErr, mallocOk);
    AllocInPlace(h, pIdx, ppEntry, pErr, mallocOk);
    AllocGrows(h, pIdx, ppEntry, pErr, mallocOk);
    if r.ret == Success {
      var ref, cs := r.entry.to.to, h.chunkSize;
      if ref.chunk < |h.chunks| {
        assert r.idx.to == ref.chunk * cs + ref.offset;
        IndexOrder(cs, ref.chunk, ref.offset, |h.chunks|, 0);
      } else {
        AllUsedCount(h);
        ChunkAddNumbered(h, Set(pErr, ErrNone));
        assert ChunkAdd(h, Set(pErr, ErrNone), true).h.chunks[|h.chunks|][0].idx == |h.chunks| * cs;
      }
    }
  }

  /** Every slot whose index is below Alloc's is in use. */
  lemma AllocBelowUsed(h: DynArray, pIdx: Ptr<uint32>, ppEntry: Ptr<Ptr<SlotRef>>,
                       pErr: Ptr<Err>, mallocOk: bool)
    requires Valid(h)
    requires h.entryMaxNum + h.chunkSize <= UINT_MOD + 1
    ensures var r := Alloc(Points(h), pIdx, ppEntry, pErr, mallocOk);
      r.ret == Success ==>
        && r.idx.Points?
        && forall k, j :: (0 <= k < |h.chunks| && 0 <= j < |h.chunks[k]| &&
                           h.chunks[k][j].idx < r.idx.to) ==> h.chunks[k][j].used
  {
    var r := Alloc(Points(h), pIdx, ppEntry, pErr, mallocOk);
    AllocIndex(h, pIdx, ppEntry, pErr, mallocOk);
    AllocTakesFirst(h, pIdx, ppEntry, pErr, mallocOk);
    AllocGrows(h, pIdx, ppEntry, pErr, mallocOk);
    if r.ret == Success && r.entry.to.to.chunk < |h.chunks| {
      var ref, cs := r.entry.to.to, h.chunkSize;
      forall k, j | 0 <= k < |h.chunks| && 0 <= j < |h.chunks[k]| && h.chunks[k][j].idx < r.idx.to
        ensures h.chunks[k][j].used
      {
        IndexOrder(cs, k, j, ref.chunk, ref.offset);
      }
    }
  }

  /** Index order agrees with creation order for numbered slots. */
  lemma IndexOrder(cs: nat, k: nat, j: nat, k': nat, j': nat)
    requires j < cs && j' < cs
    ensures k * cs + j < k' * cs + j' <==> Before(SlotRef(k, j), SlotRef(k', j'))
  {
    if k < k' {
      assert k * cs + cs <= k' * cs by { MulMono(k + 1, k', cs); }
    } else if k' < k {
      assert k' * cs + cs <= k * cs by { MulMono(k' + 1, k, cs); }
    }
  }

  // --------------------------------------------------------- Free and Get

  /** localIdx = idx - first in uint_t arithmetic, as Free and Get compute it. */
  function Offset(idx: uint32, first: uint32): uint32
  {
    (idx - first) % UINT_MOD
  }

  /** The unsigned test `idx - first >= chunkSize` of Free and Get. */
  predicate Outside(idx: uint32, first: uint32, cs: nat)
  {
    Offset(idx, first) >= cs
  }

  /** The unsigned test is an interval test: it rejects exactly the indices
      outside [first, first + chunkSize). */
  lemma OutsideIsInterval(idx: uint32, first: uint32, cs: nat)
    requires first + cs <= UINT_MOD
    ensures Outside(idx, first, cs) <==> !(first <= idx < first + cs)
    ensures !Outside(idx, first, cs) ==> Offset(idx, first) == idx - first
  {
  }

  /** The first chunk, from chunk k on, whose index range contains idx. */
  function FindChunk(h: DynArray, idx: uint32, k: nat): (r: Ptr<nat>)
    requires Shaped(h) && k <= |h.chunks|
    decreases |h.chunks| - k
    ensures r.Points? ==>
      && k <= r.to < |h.chunks|
      && !Outside(idx, h.chunks[r.to][0].idx, h.chunkSize)
      && forall k' :: k <= k' < r.to ==> Outside(idx, h.chunks[k'][0].idx, h.chunkSize)
    ensures r.Null? ==>
      forall k' :: k <= k' < |h.chunks| ==> Outside(idx, h.chunks[k'][0].idx, h.chunkSize)
  {
    if k == |h.chunks| then Null
    else if !Outside(idx, h.chunks[k][0].idx, h.chunkSize) then Points(k)
    else FindChunk(h, idx, k + 1)
  }

  /** Division by the chunk size locates an index: it lies in
      [q*cs, q*cs + cs) exactly for q == idx / cs. */
  lemma DivLocate(idx: nat, cs: nat, q: nat)
    requires cs > 0
    ensures q * cs <= idx < q * cs + cs <==> q == idx / cs
  {
    var q0 := idx / cs;
    assert idx == q0 * cs + idx % cs;
    MulSucc(q, cs);
    MulSucc(q0, cs);
    if q < q0 { MulMono(q + 1, q0, cs); }
    else if q > q0 { MulMono(q0 + 1, q, cs); }
  }

  /** idx / cs names an existing chunk exactly when idx is below the
      capacity n * cs. */
  lemma DivBelow(idx: nat, cs: nat, n: nat)
    requires cs > 0
    ensures idx / cs < n <==> idx < n * cs
  {
    var q := idx / cs;
    DivLocate(idx, cs, q);
    MulSucc(q, cs);
    if q < n { MulMono(q + 1, n, cs); } else { MulMono(n, q, cs); }
  }

  /** Chunk k of a valid handle starts at index k*chunkSize and its range
      fits in uint_t. */
  lemma ChunkBase(h: DynArray, k: nat)
    requires Valid(h) && k < |h.chunks|
    ensures h.chunks[k][0].idx == k * h.chunkSize
    ensures k * h.chunkSize + h.chunkSize <= UINT_MOD
  {
    MulSucc(k, h.chunkSize);
    MulMono(k + 1, |h.chunks|, h.chunkSize);
  }

  /** Chunk k of a valid handle passes the range test for idx exactly when
      k == idx / chunkSize, and then the offset is idx % chunkSize. */
  lemma ChunkCovers(h: DynArray, k: nat, idx: uint32)
    requires Valid(h) && k < |h.chunks|
    ensures !Outside(idx, h.chunks[k][0].idx, h.chunkSize) <==> k == idx / h.chunkSize
    ensures k == idx / h.chunkSize ==>
      Offset(idx, h.chunks[k][0].idx) == idx % h.chunkSize &&
      h.chunks[k][idx % h.chunkSize].idx == idx
  {
    var cs := h.chunkSize;
    ChunkBase(h, k);
    OutsideIsInterval(idx, k * cs, cs);
    DivLocate(idx, cs, k);
    if k == idx / cs {
      assert h.chunks[k][idx % cs].idx == k * cs + idx % cs;
    }
  }

  /** Exactly chunk idx / chunkSize passes the range test for idx. */
  lemma OnlyChunkCovers(h: DynArray, idx: uint32)
    requires Valid(h)
    ensures forall k :: 0 <= k < |h.chunks| ==> (!Outside(idx, h.chunks[k][0].idx, h.chunkSize) <==> k == idx / h.chunkSize)
  {
    forall k | 0 <= k < |h.chunks|
      ensures !Outside(idx, h.chunks[k][0].idx, h.chunkSize) <==> k == idx / h.chunkSize
    {
      ChunkCovers(h, k, idx);
    }
  }

  /** With numbered chunks, idx is found in chunk idx / chunkSize at offset
      idx % chunkSize, and it is found exactly when a chunk covers it. */
  lemma FindChunkCovers(h: DynArray, idx: uint32)
    requires Valid(h)
    ensures var r := FindChunk(h, idx, 0);
      && (r.Points? <==> idx < |h.chunks| * h.chunkSize)
      && (r.Points? ==>
            && r.to == idx / h.chunkSize
            && Offset(idx, h.chunks[r.to][0].idx) == idx % h.chunkSize
            && h.chunks[r.to][idx % h.chunkSize].idx == idx)
  {
    var cs, n := h.chunkSize, |h.chunks|;
    var q := idx / cs;
    FindChunkFound(h, idx);
    DivBelow(idx, cs, n);
    if q < n {
      ChunkCovers(h, q, idx);
    }
  }

  /** FindChunk finds chunk idx / chunkSize when there is one. */
  lemma FindChunkFound(h: DynArray, idx: uint32)
    requires Valid(h)
    ensures FindChunk(h, idx, 0) == if idx / h.chunkSize < |h.chunks| then Points(idx / h.chunkSize) else Null
  {
    OnlyChunkCovers(h, idx);
    FindOnly(h, idx, idx / h.chunkSize);
  }

  /** When chunk q is the only one passing the range test, FindChunk finds
      it, or nothing when there is no chunk q. */
  lemma FindOnly(h: DynArray, idx: uint32, q: nat)
    requires Shaped(h)
    requires forall k :: 0 <= k < |h.chunks| ==> (!Outside(idx, h.chunks[k][0].idx, h.chunkSize) <==> k == q)
    ensures FindChunk(h, idx, 0) == if q < |h.chunks| then Points(q) else Null
  {
    var r := FindChunk(h, idx, 0);
    if q < |h.chunks| {
      assert !Outside(idx, h.chunks[q][0].idx, h.chunkSize);
    }
    if r.Points? {
      assert !Outside(idx, h.chunks[r.to][0].idx, h.chunkSize);
    }
  }

  datatype FreeResult = FreeResult(ret: Ret, h: Ptr<DynArray>, err: Ptr<Err>)

  /** MLibDynamicArrayFree(pHandle, idx, pErr): clear the used flag of the
      slot whose chunk covers idx and decrement entryNum, whether or not the
      slot was in use; an index no chunk covers is silently ignored. */
  function Free(pHandle: Ptr<DynArray>, idx: uint32, pErr: Ptr<Err>): (r: FreeResult)
    requires pHandle.Points? ==> Shaped(pHandle.to)
    ensures pHandle.Null? ==> r == FreeResult(Failure, Null, Set(pErr, ErrParam))
    ensures pHandle.Points? ==> r.ret == Success && r.err == Set(pErr, ErrNone)
    ensures pHandle.Points? ==>
      var h := pHandle.to;
      && r.h.Points?
      && var h' := r.h.to;
      && Shaped(h')
      && |h'.chunks| == |h.chunks|
      && h' == h.(entryNum := h'.entryNum, chunks := h'.chunks)
      && (FindChunk(h, idx, 0).Null? ==> h' == h)
      && (FindChunk(h, idx, 0).Points? ==>
            var k := FindChunk(h, idx, 0).to;
            var j := Offset(idx, h.chunks[k][0].idx);
            && h'.entryNum == DecSize(h.entryNum)
            && h'.chunks == Mark(h, SlotRef(k, j), false).chunks)
  {
    if pHandle.Null? then
      FreeResult(Failure, pHandle, Set(pErr, ErrParam))
    else
      var h := pHandle.to;
      match FindChunk(h, idx, 0)
      case Null =>
        FreeResult(Success, pHandle, Set(pErr, ErrNone))
      case Points(k) =>
        var j := Offset(idx, h.chunks[k][0].idx);
        FreeResult(Success, Points(Mark(h, SlotRef(k, j), false).(entryNum := DecSize(h.entryNum))),
                   Set(pErr, ErrNone))
  }

  /** Freeing an index no chunk covers changes nothing; freeing a covered
      index leaves its slot unused and every other slot as it was, and
      lowers entryNum by one (with size_t wrap-around at zero). */
  lemma FreeEffect(h: DynArray, idx: uint32, pErr: Ptr<Err>)
    requires Valid(h)
    ensures var r := Free(Points(h), idx, pErr);
      && (idx >= |h.chunks| * h.chunkSize ==> r.h == Points(h))
      && (idx < |h.chunks| * h.chunkSize ==> r.h.to.entryNum == DecSize(h.entryNum))
      && forall k, j :: 0 <= k < |h.chunks| && 0 <= j < |h.chunks[k]| ==>
           r.h.to.chunks[k][j] ==
             if h.chunks[k][j].idx == idx then Slot(idx, false) else h.chunks[k][j]
  {
    FindChunkCovers(h, idx);
    var r := Free(Points(h), idx, pErr);
    forall k, j | 0 <= k < |h.chunks| && 0 <= j < |h.chunks[k]|
      ensures r.h.to.chunks[k][j] == if h.chunks[k][j].idx == idx then Slot(idx, false) else h.chunks[k][j]
    {
      SlotOfIndex(h, k, j);
    }
  }

  /** In a valid handle slot j of chunk k is the one Free and Get locate for
      its index. */
  lemma SlotOfIndex(h: DynArray, k: nat, j: nat)
    requires Valid(h) && k < |h.chunks| && j < |h.chunks[k]|
    ensures var idx := h.chunks[k][j].idx;
      idx < |h.chunks| * h.chunkSize && idx / h.chunkSize == k && idx % h.chunkSize == j
  {
    var cs, idx := h.chunkSize, h.chunks[k][j].idx;
    DivLocate(idx, cs, k);
    DivBelow(idx, cs, |h.chunks|);
  }

  /** Freeing a slot in use keeps the handle invariant. */
  lemma FreeKeepsValid(h: DynArray, k: nat, j: nat, pErr: Ptr<Err>)
    requires Valid(h) && k < |h.chunks| && j < |h.chunks[k]| && h.chunks[k][j].used
    ensures var r := Free(Points(h), h.chunks[k][j].idx, pErr); r.h.Points? && Valid(r.h.to)
  {
    SlotOfIndex(h, k, j);
    FindChunkCovers(h, h.chunks[k][j].idx);
    UsedCountUpdate(h.chunks, k, j, h.chunks[k][j].(used := false));
  }

  /** The decrement does not look at the used flag: freeing a slot that is
      not in use still lowers entryNum, which then no longer counts the used
      slots. */
  lemma FreeUnusedBreaksCount(h: DynArray, k: nat, j: nat, pErr: Ptr<Err>)
    requires Valid(h) && k < |h.chunks| && j < |h.chunks[k]| && !h.chunks[k][j].used
    ensures var r := Free(Points(h), h.chunks[k][j].idx, pErr);
      r.h.to.entryNum == DecSize(h.entryNum) && r.h.to.entryNum != UsedCount(r.h.to.chunks)
  {
    SlotOfIndex(h, k, j);
    FindChunkCovers(h, h.chunks[k][j].idx);
    var g := Mark(h, SlotRef(k, j), false);
    assert g.chunks[k] == h.chunks[k];
    assert g.chunks == h.chunks;
  }

  /** In a numbered handle whose indices fit in uint_t, the slot at which the
      range test of chunk k locates idx carries idx. */
  lemma CoveredSlotIdx(h: DynArray, k: nat, idx: uint32)
    requires Shaped(h) && k < |h.chunks| && !Outside(idx, h.chunks[k][0].idx, h.chunkSize)
    ensures Numbered(h) && IndexRoom(h) ==> h.chunks[k][Offset(idx, h.chunks[k][0].idx)].idx == idx
  {
    if Numbered(h) && IndexRoom(h) {
      var cs := h.chunkSize;
      MulSucc(k, cs);
      MulMono(k + 1, |h.chunks|, cs);
      OutsideIsInterval(idx, k * cs, cs);
    }
  }

  datatype GetResult = GetResult(ret: Ret, entry: Ptr<Ptr<SlotRef>>, err: Ptr<Err>)

  /** MLibDynamicArrayGet(pHandle, idx, ppEntry, pErr): the storage of the
      slot with index idx, if a chunk covers it and it is in use. The handle
      is only read. */
  function Get(pHandle: Ptr<DynArray>, idx: uint32, ppEntry: Ptr<Ptr<SlotRef>>,
               pErr: Ptr<Err>): (r: GetResult)
    requires pHandle.Points? ==> Shaped(pHandle.to)
    ensures pHandle.Null? || ppEntry.Null? ==> r == GetResult(Failure, ppEntry, Set(pErr, ErrParam))
    ensures r.ret == Failure && pHandle.Points? && ppEntry.Points? ==>
      r.entry == ppEntry && r.err == Set(pErr, ErrNoEntry)
    ensures r.ret == Success ==>
      && pHandle.Points? && ppEntry.Points?
      && r.err == Set(pErr, ErrNone)
      && r.entry.Points? && r.entry.to.Points?
      && IsRef(pHandle.to, r.entry.to.to)
      && At(pHandle.to, r.entry.to.to).used
    ensures r.ret == Success && Numbered(pHandle.to) && IndexRoom(pHandle.to) ==>
      At(pHandle.to, r.entry.to.to).idx == idx
  {
    if pHandle.Null? || ppEntry.Null? then
      GetResult(Failure, ppEntry, Set(pErr, ErrParam))
    else
      var h := pHandle.to;
      match FindChunk(h, idx, 0)
      case Null =>
        GetResult(Failure, ppEntry, Set(pErr, ErrNoEntry))
      case Points(k) =>
        var j := Offset(idx, h.chunks[k][0].idx);
        CoveredSlotIdx(h, k, idx);
        if !h.chunks[k][j].used then GetResult(Failure, ppEntry, Set(pErr, ErrNoEntry))
        else GetResult(Success, Points(Points(SlotRef(k, j))), Set(pErr, ErrNone))
  }

  /** Only slot idx % chunkSize of chunk idx / chunkSize carries idx. */
  lemma IndexUnique(h: DynArray, idx: uint32)
    requires Valid(h)
    ensures forall k, j :: 0 <= k < |h.chunks| && 0 <= j < |h.chunks[k]| && h.chunks[k][j].idx == idx ==>
      k == idx / h.chunkSize && j == idx % h.chunkSize && idx < |h.chunks| * h.chunkSize
  {
    forall k, j | 0 <= k < |h.chunks| && 0 <= j < |h.chunks[k]| && h.chunks[k][j].idx == idx
      ensures k == idx / h.chunkSize && j == idx % h.chunkSize && idx < |h.chunks| * h.chunkSize
    {
      SlotOfIndex(h, k, j);
    }
  }

  /** Get succeeds exactly for the indices of used slots, and returns the
      storage of the slot carrying that index. */
  lemma GetIffUsed(h: DynArray, idx: uint32, ppEntry: Ptr<Ptr<SlotRef>>, pErr: Ptr<Err>)
    requires Valid(h) && ppEntry.Points?
    ensures var r := Get(Points(h), idx, ppEntry, pErr);
      && (r.ret == Success <==>
            exists k, j :: 0 <= k < |h.chunks| && 0 <= j < |h.chunks[k]| && h.chunks[k][j] == Slot(idx, true))
      && (r.ret == Success ==> At(h, r.entry.to.to).idx == idx)
  {
    FindChunkCovers(h, idx);
    var cs := h.chunkSize;
    var q, o := idx / cs, idx % cs;
    var r := Get(Points(h), idx, ppEntry, pErr);
    IndexUnique(h, idx);
    if r.ret == Success {
      assert r.entry.to.to == SlotRef(q, o);
      assert h.chunks[q][o] == Slot(idx, true);
    }
  }

  /** A slot Alloc hands out is found again by Get with the index Alloc
      reported, at the same storage. */
  lemma AllocThenGet(h: DynArray, pIdx: Ptr<uint32>, ppEntry: Ptr<Ptr<SlotRef>>,
                     pErr: Ptr<Err>, mallocOk: bool, ppOut: Ptr<Ptr<SlotRef>>)
    requires Valid(h) && h.entryMaxNum + h.chunkSize <= UINT_MOD + 1
    requires ppOut.Points?
    ensures var a := Alloc(Points(h), pIdx, ppEntry, pErr, mallocOk);
      a.ret == Success ==>
        var g := Get(a.h, a.idx.to, ppOut, pErr);
        g.ret == Success && g.entry == a.entry
  {
    var a := Alloc(Points(h), pIdx, ppEntry, pErr, mallocOk);
    if a.ret == Success {
      AllocKeepsValid(h, pIdx, ppEntry, pErr, mallocOk);
      var h', ref := a.h.to, a.entry.to.to;
      SlotOfIndex(h', ref.chunk, ref.offset);
      FindChunkCovers(h', a.idx.to);
    }
  }

  /** On a fresh handle that allows two entries, two Allocs return the
      indices 0 and then 1. */
  lemma FirstTwoAllocs(chunkSize: size_t, entrySize: size_t, entryMaxNum: size_t,
                       pErr: Ptr<Err>, pIdx: Ptr<uint32>, ppEntry: Ptr<Ptr<SlotRef>>)
    requires 1 <= chunkSize <= 256 && 1 <= entrySize && 2 <= entryMaxNum <= 0x1000
    requires pIdx.Points? && ppEntry.Points?
    ensures var i := Init(Points(Null), chunkSize, entrySize, entryMaxNum, pErr, true);
      && i.ret == Success
      && var a := Alloc(i.ppHandle.to, pIdx, ppEntry, pErr, true);
      && a.ret == Success && a.idx == Points(0)
      && var b := Alloc(a.h, a.idx, a.entry, pErr, true);
      && b.ret == Success && b.idx == Points(1)
  {
    var i := Init(Points(Null), chunkSize, entrySize, entryMaxNum, pErr, true);
    var h := i.ppHandle.to.to;
    FirstAlloc(h, pIdx, ppEntry, pErr);
    var a := Alloc(i.ppHandle.to, pIdx, ppEntry, pErr, true);
    SecondAlloc(a.h.to, a.idx, a.entry, pErr);
  }

  /** The first Alloc on an empty handle adds chunk 0 and takes its slot 0. */
  lemma FirstAlloc(h: DynArray, pIdx: Ptr<uint32>, ppEntry: Ptr<Ptr<SlotRef>>, pErr: Ptr<Err>)
    requires Valid(h) && |h.chunks| == 0 && h.chunkSize <= 256 && h.entryMaxNum <= 0x1000
    requires pIdx.Points? && ppEntry.Points?
    ensures var a := Alloc(Points(h), pIdx, ppEntry, pErr, true);
      && a.ret == Success && a.idx == Points(0) && a.entry.Points? && a.h.Points?
      && var h1 := a.h.to;
      && Valid(h1) && |h1.chunks| == 1 && h1.entryNum == 1 && h1.entryMaxNum == h.entryMaxNum
      && h1.chunks[0][0].used
      && forall j :: 1 <= j < h1.chunkSize ==> !h1.chunks[0][j].used
  {
    AllocFirstFit(h, pIdx, ppEntry, pErr, true);
    AllocKeepsValid(h, pIdx, ppEntry, pErr, true);
  }

  /** The second Alloc takes slot 1 of chunk 0 when there is one, and
      otherwise starts chunk 1, which continues the numbering at 1. */
  lemma SecondAlloc(h1: DynArray, pIdx: Ptr<uint32>, ppEntry: Ptr<Ptr<SlotRef>>, pErr: Ptr<Err>)
    requires Valid(h1) && |h1.chunks| == 1 && h1.entryNum == 1 && h1.entryMaxNum >= 2
    requires h1.chunkSize <= 256 && h1.entryMaxNum <= 0x1000
    requires h1.chunks[0][0].used && forall j :: 1 <= j < h1.chunkSize ==> !h1.chunks[0][j].used
    requires pIdx.Points? && ppEntry.Points?
    ensures var b := Alloc(Points(h1), pIdx, ppEntry, pErr, true);
      b.ret == Success && b.idx == Points(1)
  {
    AllocFirstFit(h1, pIdx, ppEntry, pErr, true);
    var b := Alloc(Points(h1), pIdx, ppEntry, pErr, true);
    var ref := b.entry.to.to;
    if h1.chunkSize == 1 {
      assert ref.chunk == 1;
      assert NextFirstIdx(h1) == 1;
    } else {
      assert !h1.chunks[0][1].used && HasFree(h1);
      assert ref == SlotRef(0, 1);
    }
  }

  // ---------------------------------------------------------------- Exit

  /** MLibDynamicArrayExit(ppHandle, pErr): remove chunks from the tail of
      the handle's chunk list with MLibListRemoveTail until it is empty,
      releasing each, then release the handle and set *ppHandle to NULL.
      The chunk list is given in its list form (`chunkList`, `nodes`, the
      chunk nodes in list order, one per chunk); `released` lists the chunk
      nodes in the order they are released. */
  method Exit(ppHandle: Ptr<Ptr<DynArray>>, chunkList: List.List, s: List.Store,
              nodes: seq<List.NodeId>, pErr: Ptr<Err>)
    returns (ret: Ret, ppHandle': Ptr<Ptr<DynArray>>, err: Ptr<Err>,
             released: seq<List.NodeId>, drained: List.List)
    requires ppHandle.Points? ==>
      ppHandle.to.Points? && List.Valid(chunkList, s, nodes) && |nodes| == |ppHandle.to.to.chunks|
    ensures ppHandle.Null? ==>
      ret == Failure && ppHandle' == Null && err == Set(pErr, ErrParam) && released == []
    ensures ppHandle.Points? ==>
      && ret == Success && ppHandle' == Points(Null) && err == Set(pErr, ErrNone)
      && drained.head.Null? && drained.tail.Null? && drained.size == 0
      && |released| == |nodes|
      && forall i :: 0 <= i < |released| ==> released[i] == nodes[|nodes| - 1 - i]
  {
    drained := chunkList;
    if ppHandle.Null? {
      return Failure, ppHandle, Set(pErr, ErrParam), [], drained;
    }
    var st := s;
    var m := |nodes|;
    assert nodes[..m] == nodes;
    released := [];
    while true
      invariant 0 <= m <= |nodes|
      invariant List.Valid(drained, st, nodes[..m])
      invariant |released| == |nodes| - m
      invariant forall i :: 0 <= i < |released| ==> released[i] == nodes[|nodes| - 1 - i]
      decreases m
    {
      List.RemoveTailValid(drained, st, nodes[..m]);
      var t := List.RemoveTail(Points(drained), st);
      if t.node.Null? {
        break;
      }
      assert nodes[..m][..m - 1] == nodes[..m - 1];
      released := released + [t.node.to];
      drained, st := t.list.to, t.store;
      m := m - 1;
    }
    return Success, Points(Null), Set(pErr, ErrNone), released, drained;
  }
}
