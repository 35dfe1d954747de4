/** The ring buffer (src/RingBuffer/RingBufferInit.c, RingBufferPush.c,
    RingBufferPop.c, RingBufferClear.c).

    pushIdx and popIdx run over the entryNum + 1 positions 0 .. entryNum;
    the buffer is empty when they are equal, so it holds at most entryNum
    entries, and a Push onto a full buffer drops the oldest entry. Entry i
    lives at bytes [i * entrySize, (i + 1) * entrySize) of the buffer; the
    model keeps the buffer as its whole entry slots, bufferSize / entrySize
    of them (SlotInBuffer relates the two views). The indices need
    entryNum + 1 slots but MLibRingBufferInit allocates entryNum:
    InitAsWritten models it, OverrunAfterInit shows the write that leaves the
    buffer, and Init is the corrected version the rest of the model uses.
    The spin lock is not modelled. */
module RingBuffer {
  import opened MLibTypes

  /** MLibRingBuffer_t. `buffer` is pBuffer: NULL, or the allocated slots. */
  datatype Ring = Ring(entrySize: size_t, entryNum: size_t, bufferSize: size_t, num: size_t,
                       pushIdx: size_t, popIdx: size_t, buffer: Ptr<seq<seq<byte>>>)

  /** Entry slot i occupies bytes [i * size, i * size + size) of a buffer of
      bufferSize bytes exactly when i is below the number of whole slots. */
  lemma SlotInBuffer(i: nat, size: nat, bufferSize: nat)
    requires size > 0
    ensures i * size + size <= bufferSize <==> i < bufferSize / size
  {
    var q := bufferSize / size;
    assert q * size <= bufferSize < q * size + size;
    if i < q {
      MulMono(i + 1, q, size);
    } else {
      MulMono(q + 1, i + 1, size);
    }
  }

  /** A freshly allocated, zeroed buffer of `size` bytes. */
  function Zeroed(entrySize: nat, size: nat): (b: seq<seq<byte>>)
    requires entrySize > 0
    ensures |b| == size / entrySize
    ensures forall i :: 0 <= i < |b| ==> b[i] == seq(entrySize, _ => 0)
  {
    seq(size / entrySize, _ => seq(entrySize, _ => 0))
  }

  /** The index step of Push and Pop: `i++`, then back to 0 once above
      entryNum. The step is taken in size_t; the C fields are uint32_t, which
      gives the same step while entryNum < 2^32. */
  function Next(i: size_t, n: size_t): (j: size_t)
    ensures j <= n
    ensures i < n ==> j == i + 1
    ensures i >= n ==> j == 0
  {
    var k := (i + 1) % SIZE_MOD;
    if k > n then 0 else k
  }

  /** Entry slot i lies inside the allocated buffer. */
  predicate Fits(h: Ring, i: nat)
  {
    h.buffer.Points? && i < |h.buffer.to|
  }

  /** The handle invariant: both indices among the entryNum + 1 positions,
      and a slot of entrySize bytes for each of them. */
  predicate Valid(h: Ring)
  {
    && h.entrySize > 0 && h.entryNum > 0
    && h.pushIdx <= h.entryNum && h.popIdx <= h.entryNum
    && h.buffer.Points? && |h.buffer.to| == h.entryNum + 1
    && h.bufferSize == (h.entryNum + 1) * h.entrySize
    && forall i :: 0 <= i < |h.buffer.to| ==> |h.buffer.to[i]| == h.entrySize
  }

  // ---------------------------------------------------------------------
  // Queue view

  /** Position of the k-th oldest entry. */
  function Pos(pop: nat, k: nat, n: nat): (i: nat)
    requires pop <= n && k <= n
    ensures i <= n
  {
    if pop + k <= n then pop + k else pop + k - (n + 1)
  }

  /** Number of entries between popIdx and pushIdx. */
  function Len(h: Ring): (c: nat)
    requires h.pushIdx <= h.entryNum && h.popIdx <= h.entryNum
    ensures c <= h.entryNum
    ensures Pos(h.popIdx, c, h.entryNum) == h.pushIdx
    ensures c == 0 <==> h.pushIdx == h.popIdx
  {
    if h.pushIdx >= h.popIdx then h.pushIdx - h.popIdx else h.pushIdx + h.entryNum + 1 - h.popIdx
  }

  /** The entries held, oldest first. */
  function Contents(h: Ring): seq<seq<byte>>
    requires Valid(h)
  {
    seq(Len(h), k requires 0 <= k < Len(h) => h.buffer.to[Pos(h.popIdx, k, h.entryNum)])
  }

  /** Positions of distinct ages are distinct. */
  lemma PosInjective(pop: nat, k: nat, k': nat, n: nat)
    requires pop <= n && k <= n && k' <= n && k != k'
    ensures Pos(pop, k, n) != Pos(pop, k', n)
  {
  }

  /** Advancing popIdx shifts the ages by one. */
  lemma PosNext(pop: size_t, k: nat, n: size_t)
    requires pop <= n && k + 1 <= n
    ensures Pos(Next(pop, n), k, n) == Pos(pop, k + 1, n)
  {
  }

  // ---------------------------------------------------------------------
  // Operations

  /** Result of Init: return code, the handle contents, error. */
  datatype InitResult = InitResult(ret: Ret, handle: Ptr<Ring>, err: Ptr<Err>)

  /** MLibRingBufferInit(pHandle, entrySize, entryNum, pErr) as written:
      the buffer gets entrySize * entryNum bytes (size_t product), that is
      room for entryNum entries. */
  function InitAsWritten(pHandle: Ptr<Ring>, entrySize: size_t, entryNum: size_t, pErr: Ptr<Err>,
                         mallocOk: bool): (r: InitResult)
    ensures pHandle.Null? || entrySize == 0 || entryNum == 0 ==>
      r == InitResult(Failure, pHandle, Set(pErr, ErrParam))
    ensures pHandle.Points? && entrySize > 0 && entryNum > 0 ==>
      && r.handle.Points?
      && var h := r.handle.to;
      && h.entrySize == entrySize && h.entryNum == entryNum
      && h.bufferSize == (entrySize * entryNum) % SIZE_MOD
      && h.num == 0 && h.pushIdx == 0 && h.popIdx == 0
      && (r.ret == Success <==> mallocOk)
      && (mallocOk ==> r.err == Set(pErr, ErrNone) && h.buffer == Points(Zeroed(entrySize, h.bufferSize)))
      && (!mallocOk ==> r.err == Set(pErr, ErrNoMemory) && h.buffer.Null?)
  {
    if pHandle.Null? || entrySize == 0 || entryNum == 0 then
      InitResult(Failure, pHandle, Set(pErr, ErrParam))
    else
      var size := (entrySize * entryNum) % SIZE_MOD;
      var h := Ring(entrySize, entryNum, size, 0, 0, 0, Null);
      if !mallocOk then InitResult(Failure, Points(h), Set(pErr, ErrNoMemory))
      else InitResult(Success, Points(h.(buffer := Points(Zeroed(entrySize, size)))), Set(pErr, ErrNone))
  }

  /** MLibRingBufferInit with the buffer sized for the entryNum + 1 positions
      the indices use. A size that does not fit in size_t cannot be
      allocated and is reported as MLIB_ERR_NOMEMORY. */
  function Init(pHandle: Ptr<Ring>, entrySize: size_t, entryNum: size_t, pErr: Ptr<Err>,
                mallocOk: bool): (r: InitResult)
    ensures pHandle.Null? || entrySize == 0 || entryNum == 0 ==>
      r == InitResult(Failure, pHandle, Set(pErr, ErrParam))
    ensures r.ret == Success <==>
      pHandle.Points? && entrySize > 0 && entryNum > 0 && mallocOk && entrySize * (entryNum + 1) < SIZE_MOD
    ensures pHandle.Points? && entrySize > 0 && entryNum > 0 && r.ret == Failure ==>
      r.err == Set(pErr, ErrNoMemory) && r.handle.Points? && r.handle.to.buffer.Null?
    ensures r.ret == Success ==>
      && r.err == Set(pErr, ErrNone) && r.handle.Points?
      && var h := r.handle.to;
      && Valid(h) && h.entrySize == entrySize && h.entryNum == entryNum && h.num == 0
      && Contents(h) == []
      && forall i :: 0 <= i < |h.buffer.to| ==> h.buffer.to[i] == seq(entrySize, _ => 0)
  {
    if pHandle.Null? || entrySize == 0 || entryNum == 0 then
      InitResult(Failure, pHandle, Set(pErr, ErrParam))
    else
      var fits := entrySize * (entryNum + 1) < SIZE_MOD;
      var size: size_t := if fits then entrySize * (entryNum + 1) else 0;
      var h := Ring(entrySize, entryNum, size, 0, 0, 0, Null);
      if !fits || !mallocOk then InitResult(Failure, Points(h), Set(pErr, ErrNoMemory))
      else
        assert size / entrySize == entryNum + 1 by {
          SlotInBuffer(entryNum, entrySize, size);
          SlotInBuffer(entryNum + 1, entrySize, size);
        }
        InitResult(Success, Points(h.(buffer := Points(Zeroed(entrySize, size)))), Set(pErr, ErrNone))
  }

  /** Result of Push: return code, the handle, error. */
  datatype PushResult = PushResult(ret: Ret, handle: Ptr<Ring>, err: Ptr<Err>)

  /** MLibRingBufferPush(pHandle, pData, pErr): copy entrySize bytes into
      the slot at pushIdx, advance pushIdx, advance popIdx too when they
      meet, and wrap popIdx. The C code needs the slot at pushIdx inside the
      buffer. */
  function Push(pHandle: Ptr<Ring>, pData: Ptr<seq<byte>>, pErr: Ptr<Err>): (r: PushResult)
    requires pHandle.Points? && pData.Points? ==>
      Fits(pHandle.to, pHandle.to.pushIdx) && pHandle.to.entrySize <= |pData.to|
    ensures pHandle.Null? || pData.Null? ==> r == PushResult(Failure, pHandle, Set(pErr, ErrParam))
    ensures pHandle.Points? && pData.Points? ==>
      var h := pHandle.to;
      && r.ret == Success && r.err == Set(pErr, ErrNone) && r.handle.Points?
      && var h' := r.handle.to;
      && h'.pushIdx == Next(h.pushIdx, h.entryNum)
      && h'.popIdx == (if h'.pushIdx == h.popIdx || h.popIdx > h.entryNum then Next(h.popIdx, h.entryNum) else h.popIdx)
      && h'.buffer.Points? && |h'.buffer.to| == |h.buffer.to|
      && h'.buffer.to[h.pushIdx] == pData.to[..h.entrySize]
      && (forall i :: 0 <= i < |h.buffer.to| && i != h.pushIdx ==> h'.buffer.to[i] == h.buffer.to[i])
      && h' == h.(pushIdx := h'.pushIdx, popIdx := h'.popIdx, buffer := h'.buffer)
  {
    if pHandle.Null? || pData.Null? then PushResult(Failure, pHandle, Set(pErr, ErrParam))
    else
      var h := pHandle.to;
      var buf := h.buffer.to[h.pushIdx := pData.to[..h.entrySize]];
      var push := Next(h.pushIdx, h.entryNum);
      var pop := if h.popIdx == push then (h.popIdx + 1) % SIZE_MOD else h.popIdx;
      var pop' := if pop > h.entryNum then 0 else pop;
      PushResult(Success, Points(h.(pushIdx := push, popIdx := pop', buffer := Points(buf))), Set(pErr, ErrNone))
  }

  /** Result of Pop: return code, the handle, the data out-parameter, error. */
  datatype PopResult = PopResult(ret: Ret, handle: Ptr<Ring>, data: Ptr<seq<byte>>, err: Ptr<Err>)

  /** MLibRingBufferPop(pHandle, pData, pErr): copy the entry at popIdx out
      (only when pData is not NULL) and advance popIdx. The C code needs the
      slot at popIdx inside the buffer when the buffer is not empty. */
  function Pop(pHandle: Ptr<Ring>, pData: Ptr<seq<byte>>, pErr: Ptr<Err>): (r: PopResult)
    requires pHandle.Points? && pHandle.to.popIdx != pHandle.to.pushIdx ==> Fits(pHandle.to, pHandle.to.popIdx)
    ensures pHandle.Null? ==> r == PopResult(Failure, pHandle, pData, Set(pErr, ErrParam))
    ensures pHandle.Points? ==>
      var h := pHandle.to;
      && (r.ret == Success <==> h.popIdx != h.pushIdx)
      && (r.ret == Failure ==> r.handle == pHandle && r.data == pData && r.err == Set(pErr, ErrNoEntry))
      && (r.ret == Success ==>
            && r.err == Set(pErr, ErrNone)
            && r.handle == Points(h.(popIdx := Next(h.popIdx, h.entryNum)))
            && r.data == (if pData.Null? then Null else Points(h.buffer.to[h.popIdx])))
  {
    if pHandle.Null? then PopResult(Failure, pHandle, pData, Set(pErr, ErrParam))
    else
      var h := pHandle.to;
      if h.popIdx == h.pushIdx then PopResult(Failure, pHandle, pData, Set(pErr, ErrNoEntry))
      else
        var out := if pData.Null? then Null else Points(h.buffer.to[h.popIdx]);
        var pop := (h.popIdx + 1) % SIZE_MOD;
        PopResult(Success, Points(h.(popIdx := if pop > h.entryNum then 0 else pop)), out, Set(pErr, ErrNone))
  }

  /** Result of Clear: return code, the handle, error. */
  datatype ClearResult = ClearResult(ret: Ret, handle: Ptr<Ring>, err: Ptr<Err>)

  /** MLibRingBufferClear(pHandle, pErr). */
  function Clear(pHandle: Ptr<Ring>, pErr: Ptr<Err>): (r: ClearResult)
    ensures pHandle.Null? ==> r == ClearResult(Failure, pHandle, Set(pErr, ErrParam))
    ensures pHandle.Points? ==>
      && r.ret == Success && r.err == Set(pErr, ErrNone) && r.handle.Points?
      && var h, h' := pHandle.to, r.handle.to;
      && h'.pushIdx == h'.popIdx == h'.num == 0
      && h' == h.(num := h'.num, pushIdx := h'.pushIdx, popIdx := h'.popIdx)
  {
    if pHandle.Null? then ClearResult(Failure, pHandle, Set(pErr, ErrParam))
    else ClearResult(Success, Points(pHandle.to.(num := 0, pushIdx := 0, popIdx := 0)), Set(pErr, ErrNone))
  }

  // ---------------------------------------------------------------------
  // The as-written buffer size

  /** With entrySize = entryNum = 1 the buffer as written has one byte; the
      first Push fits, leaves pushIdx at 1, and the next Push would write
      byte 1, outside the buffer. */
  lemma OverrunAfterInit()
    ensures var h := InitAsWritten(Points(Ring(0, 0, 0, 0, 0, 0, Null)), 1, 1, Null, true).handle.to;
            && h.bufferSize == 1 && Fits(h, h.pushIdx)
            && var h1 := Push(Points(h), Points([0x41]), Null).handle.to;
            && h1.pushIdx == 1 && h1.pushIdx <= h1.entryNum
            && h1.pushIdx * h1.entrySize + h1.entrySize > h1.bufferSize
            && !Fits(h1, h1.pushIdx)
  {
  }

  /** The corrected Init leaves room for every position: each slot the
      indices can name lies inside the allocated bytes. */
  lemma InitRoom(pHandle: Ptr<Ring>, entrySize: size_t, entryNum: size_t, pErr: Ptr<Err>, i: nat)
    requires Init(pHandle, entrySize, entryNum, pErr, true).ret == Success && i <= entryNum
    ensures var h := Init(pHandle, entrySize, entryNum, pErr, true).handle.to;
            Fits(h, i) && i * h.entrySize + h.entrySize <= h.bufferSize
  {
    MulMono(i + 1, entryNum + 1, entrySize);
  }

  // ---------------------------------------------------------------------
  // The corrected ring buffer is a bounded queue

  /** Push keeps the invariant. */
  lemma PushValid(h: Ring, data: seq<byte>)
    requires Valid(h) && h.entrySize <= |data|
    ensures Valid(Push(Points(h), Points(data), Null).handle.to)
  {
  }

  /** Push appends the entry; on a full buffer it first drops the oldest. */
  lemma PushQueue(h: Ring, data: seq<byte>)
    requires Valid(h) && h.entrySize <= |data|
    ensures var h' := Push(Points(h), Points(data), Null).handle.to;
            && Valid(h')
            && Len(h') == (if Len(h) < h.entryNum then Len(h) + 1 else h.entryNum)
            && Contents(h') == (if Len(h) < h.entryNum then Contents(h) else Contents(h)[1..]) + [data[..h.entrySize]]
  {
    var h' := Push(Points(h), Points(data), Null).handle.to;
    PushValid(h, data);
    var n, before, after := h.entryNum, Contents(h), Contents(h');
    var shift := if Len(h) < n then 0 else 1;
    var keep := before[shift..];
    assert |after| == |keep| + 1;
    forall k | 0 <= k < |after| ensures after[k] == (keep + [data[..h.entrySize]])[k] {
      if shift == 1 {
        PosNext(h.popIdx, k, n);
      }
      if k < |keep| {
        PosInjective(h.popIdx, k + shift, Len(h), n);
      }
    }
  }

  /** Pop keeps the invariant, hands out the oldest entry and removes it;
      it fails with MLIB_ERR_NOENTRY exactly when the queue is empty. */
  lemma PopQueue(h: Ring, pData: Ptr<seq<byte>>)
    requires Valid(h)
    ensures var r := Pop(Points(h), pData, Null);
            && (r.ret == Failure <==> Contents(h) == [])
            && Valid(r.handle.to)
            && (r.ret == Success ==>
                  && Contents(r.handle.to) == Contents(h)[1..]
                  && (pData.Points? ==> r.data == Points(Contents(h)[0])))
  {
    var r := Pop(Points(h), pData, Null);
    if r.ret == Success {
      var h', n := r.handle.to, h.entryNum;
      forall k | 0 <= k < Len(h') ensures Contents(h')[k] == Contents(h)[1..][k] {
        PosNext(h.popIdx, k, n);
      }
    }
  }

  /** Clear keeps the invariant and empties the queue, so a Pop right after
      it fails with MLIB_ERR_NOENTRY; sizes and bytes are kept. */
  lemma ClearQueue(h: Ring, pData: Ptr<seq<byte>>)
    requires Valid(h)
    ensures var h' := Clear(Points(h), Null).handle.to;
            && Valid(h') && Contents(h') == []
            && h'.entrySize == h.entrySize && h'.entryNum == h.entryNum && h'.buffer == h.buffer
            && Pop(Points(h'), pData, Points(ErrNone)).err == Points(ErrNoEntry)
  {
  }

  /** A Push onto an empty buffer followed by a Pop hands the entry back and
      leaves the buffer empty. */
  lemma PushThenPop(h: Ring, data: seq<byte>, out: seq<byte>)
    requires Valid(h) && Contents(h) == [] && h.entrySize <= |data|
    ensures var h1 := Push(Points(h), Points(data), Null).handle.to;
            && Valid(h1) && Len(h1) == 1
            && var r := Pop(Points(h1), Points(out), Null);
            && r.ret == Success && r.data == Points(data[..h.entrySize])
            && Contents(r.handle.to) == []
  {
    PushQueue(h, data);
    var h1 := Push(Points(h), Points(data), Null).handle.to;
    PopQueue(h1, Points(out));
  }
}
