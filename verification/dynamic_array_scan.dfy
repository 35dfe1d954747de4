/** The scans over used slots (src/DynamicArray/DynamicArraySearch.c,
    src/DynamicArray/DynamicArrayForeach.c).

    Both walk the chunk list from the head with MLibListGetNextNode (the
    chunk sequence, see List.CursorWalk) and, within a chunk, the offsets
    0 .. chunkSize-1, skipping unused slots. The scan order is the reference
    function UsedSlots; the callbacks' variable arguments are not modelled,
    and a callback is pure with respect to the array. */
module DynamicArrayScan {
  import opened MLibTypes
  import opened DynamicArrayChunk

  /** (k, j) is a scan position of cs: offset j of chunk k, or the end. */
  predicate Pos(cs: seq<seq<Slot>>, k: nat, j: nat)
  {
    if k < |cs| then j <= |cs[k]| else k == |cs| && j == 0
  }

  /** The used slots a scan meets before position (k, j), in scan order:
      chunk order, then offset order. */
  function UsedBefore(cs: seq<seq<Slot>>, k: nat, j: nat): seq<SlotRef>
    requires Pos(cs, k, j)
    decreases k, j
  {
    if j > 0 then UsedBefore(cs, k, j - 1) + (if cs[k][j - 1].used then [SlotRef(k, j - 1)] else [])
    else if k > 0 then UsedBefore(cs, k - 1, |cs[k - 1]|)
    else []
  }

  /** Every used slot of the handle, in scan order. */
  function UsedSlots(h: DynArray): seq<SlotRef>
  {
    UsedBefore(h.chunks, |h.chunks|, 0)
  }

  /** Slot r exists in cs and is in use. */
  predicate UsedIn(cs: seq<seq<Slot>>, r: SlotRef)
  {
    r.chunk < |cs| && r.offset < |cs[r.chunk]| && cs[r.chunk][r.offset].used
  }

  /** A scan meets, before position (k, j), exactly the used slots that are
      created before it. */
  lemma {:induction false} UsedBeforeMembers(cs: seq<seq<Slot>>, k: nat, j: nat)
    requires Pos(cs, k, j)
    ensures forall r :: r in UsedBefore(cs, k, j) <==> UsedIn(cs, r) && Before(r, SlotRef(k, j))
    decreases k, j
  {
    if j > 0 {
      UsedBeforeMembers(cs, k, j - 1);
    } else if k > 0 {
      UsedBeforeMembers(cs, k - 1, |cs[k - 1]|);
    }
  }

  /** A scan meets the used slots in creation order, so each at most once. */
  lemma {:induction false} UsedBeforeOrdered(cs: seq<seq<Slot>>, k: nat, j: nat)
    requires Pos(cs, k, j)
    ensures forall a, b :: 0 <= a < b < |UsedBefore(cs, k, j)| ==> Before(UsedBefore(cs, k, j)[a], UsedBefore(cs, k, j)[b])
    decreases k, j
  {
    if j > 0 {
      var prev := UsedBefore(cs, k, j - 1);
      UsedBeforeOrdered(cs, k, j - 1);
      UsedBeforeMembers(cs, k, j - 1);
      if cs[k][j - 1].used {
        var all := prev + [SlotRef(k, j - 1)];
        forall a, b | 0 <= a < b < |all| ensures Before(all[a], all[b]) {
          assert all[a] == prev[a] && all[a] in prev;
        }
      }
    } else if k > 0 {
      UsedBeforeOrdered(cs, k - 1, |cs[k - 1]|);
    }
  }

  /** What a scan has met at any position is the start of the whole scan. */
  lemma {:induction false} UsedBeforePrefix(cs: seq<seq<Slot>>, k: nat, j: nat)
    requires Pos(cs, k, j)
    ensures UsedBefore(cs, k, j) <= UsedBefore(cs, |cs|, 0)
    decreases |cs| - k, if k < |cs| then |cs[k]| - j else 0
  {
    if k < |cs| {
      if j < |cs[k]| {
        UsedBeforePrefix(cs, k, j + 1);
      } else {
        UsedBeforePrefix(cs, k + 1, 0);
      }
    }
  }

  /** The number of slots a scan meets before (k, j) is the number of used
      slots of the chunks before k plus those of chunk k before offset j. */
  lemma {:induction false} UsedBeforeCount(cs: seq<seq<Slot>>, k: nat, j: nat)
    requires Pos(cs, k, j)
    ensures |UsedBefore(cs, k, j)| == UsedCount(cs[..k]) + (if k < |cs| then ChunkUsed(cs[k][..j]) else 0)
    decreases k, j
  {
    if j > 0 {
      UsedBeforeCount(cs, k, j - 1);
      assert cs[k][..j][..j - 1] == cs[k][..j - 1];
    } else if k > 0 {
      UsedBeforeCount(cs, k - 1, |cs[k - 1]|);
      assert cs[..k][..k - 1] == cs[..k - 1];
      assert cs[k - 1][..|cs[k - 1]|] == cs[k - 1];
    }
  }

  /** UsedSlots lists exactly the used slots, each once, in creation order. */
  lemma UsedSlotsExact(h: DynArray)
    ensures forall r :: r in UsedSlots(h) <==> IsRef(h, r) && At(h, r).used
    ensures forall a, b :: 0 <= a < b < |UsedSlots(h)| ==> Before(UsedSlots(h)[a], UsedSlots(h)[b])
  {
    UsedBeforeMembers(h.chunks, |h.chunks|, 0);
    UsedBeforeOrdered(h.chunks, |h.chunks|, 0);
  }

  /** On a valid handle there are entryNum used slots to scan. */
  lemma UsedSlotsCount(h: DynArray)
    requires Valid(h)
    ensures |UsedSlots(h)| == h.entryNum
  {
    UsedBeforeCount(h.chunks, |h.chunks|, 0);
    assert h.chunks[..|h.chunks|] == h.chunks;
  }

  /** The address of a callback; what it does with its own arguments is
      outside the model. */
  datatype Callback = Callback(address: nat)

  /** MLibDynamicArrayForeach(pHandle, pErr, pCallback, ...) with its
      internal Foreach: call the callback once for every used slot, chunk by
      chunk and offset by offset. `visits` records the slots it was called
      on. */
  method Foreach(pHandle: Ptr<DynArray>, pErr: Ptr<Err>, pCallback: Ptr<Callback>)
    returns (ret: Ret, err: Ptr<Err>, visits: seq<SlotRef>)
    requires pHandle.Points? ==> Shaped(pHandle.to)
    ensures pHandle.Null? || pCallback.Null? ==>
      ret == Failure && err == Set(pErr, ErrParam) && visits == []
    ensures pHandle.Points? && pCallback.Points? ==>
      ret == Success && err == Set(pErr, ErrNone) && visits == UsedSlots(pHandle.to)
  {
    err := Set(pErr, ErrNone);
    if pHandle.Null? || pCallback.Null? {
      return Failure, Set(pErr, ErrParam), [];
    }
    var h := pHandle.to;
    visits := [];
    var k := 0;
    while k < |h.chunks|
      invariant k <= |h.chunks|
      invariant visits == UsedBefore(h.chunks, k, 0)
      decreases |h.chunks| - k
    {
      var j := 0;
      while j < h.chunkSize
        invariant j <= h.chunkSize == |h.chunks[k]|
        invariant visits == UsedBefore(h.chunks, k, j)
        decreases h.chunkSize - j
      {
        if h.chunks[k][j].used {
          visits := visits + [SlotRef(k, j)];
        }
        j := j + 1;
      }
      k := k + 1;
    }
    return Success, err, visits;
  }

  /** MLibDynamicArraySearch(pHandle, pIdx, ppEntry, pErr, pCallback, ...)
      with its internal Search: offer the used slots in scan order to the
      callback and report the first it accepts. The callback is given as the
      set of slots it accepts; `calls` records the slots it was called on. */
  method Search(pHandle: Ptr<DynArray>, pIdx: Ptr<uint32>, ppEntry: Ptr<Ptr<SlotRef>>,
                pErr: Ptr<Err>, pCallback: Ptr<set<SlotRef>>)
    returns (ret: Ret, idx: Ptr<uint32>, entry: Ptr<Ptr<SlotRef>>, err: Ptr<Err>, calls: seq<SlotRef>)
    requires pHandle.Points? ==> Shaped(pHandle.to)
    ensures pHandle.Null? || pIdx.Null? || ppEntry.Null? || pCallback.Null? ==>
      ret == Failure && idx == pIdx && entry == ppEntry && err == Set(pErr, ErrParam) && calls == []
    ensures pHandle.Points? && pIdx.Points? && ppEntry.Points? && pCallback.Points? ==>
      var h, accepted := pHandle.to, pCallback.to;
      && calls <= UsedSlots(h)
      && (forall i :: 0 <= i < |calls| - 1 ==> calls[i] !in accepted)
      && (ret == Success <==> exists i :: 0 <= i < |UsedSlots(h)| && UsedSlots(h)[i] in accepted)
      && (ret == Success ==>
            && |calls| > 0 && calls[|calls| - 1] in accepted
            && IsRef(h, calls[|calls| - 1])
            && idx == Points(At(h, calls[|calls| - 1]).idx)
            && entry == Points(Points(calls[|calls| - 1]))
            && err == Set(pErr, ErrNone))
      && (ret == Failure ==>
            calls == UsedSlots(h) && idx == pIdx && entry == Points(Null) && err == Set(pErr, ErrNoEntry))
  {
    if pHandle.Null? || pIdx.Null? || ppEntry.Null? || pCallback.Null? {
      return Failure, pIdx, ppEntry, Set(pErr, ErrParam), [];
    }
    var h, accepted := pHandle.to, pCallback.to;
    entry := Points(Null);
    err := Set(pErr, ErrNone);
    calls := [];
    var k := 0;
    while k < |h.chunks|
      invariant k <= |h.chunks|
      invariant calls == UsedBefore(h.chunks, k, 0)
      invariant forall i :: 0 <= i < |calls| ==> calls[i] !in accepted
      decreases |h.chunks| - k
    {
      var j := 0;
      while j < h.chunkSize
        invariant j <= h.chunkSize == |h.chunks[k]|
        invariant calls == UsedBefore(h.chunks, k, j)
        invariant forall i :: 0 <= i < |calls| ==> calls[i] !in accepted
        decreases h.chunkSize - j
      {
        if h.chunks[k][j].used {
          calls := calls + [SlotRef(k, j)];
          if SlotRef(k, j) in accepted {
            UsedBeforePrefix(h.chunks, k, j + 1);
            assert UsedSlots(h)[|calls| - 1] in accepted;
            return Success, Points(h.chunks[k][j].idx), Points(Points(SlotRef(k, j))), err, calls;
          }
        }
        j := j + 1;
      }
      k := k + 1;
    }
    assert calls == UsedSlots(h);
    return Failure, pIdx, entry, Set(pErr, ErrNoEntry), calls;
  }
}
