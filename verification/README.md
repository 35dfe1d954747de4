# MLib in Dafny

A Dafny model of the sequential core of MLib, a small C utility library. It covers six parts:

- **Dynamic array** (`src/DynamicArray`). The array is a list of chunks of `chunkSize` slots each, and every slot has a permanent index and a used flag. Operations: Init, Alloc (first fit under the `entryMaxNum` ceiling, growing by one chunk), Free, Get, Search, Foreach and Exit.
- **Intrusive doubly-linked list** (`src/List`). Insert at the head, the tail, after a node or before a node; remove a node, the head or the tail; search from the head, optionally removing the match.
- **Delimiter splitter** (`src/Split`). It cuts a string into NUL-terminated pieces; Get, GetNext and GetNum hand the pieces out.
- **Ring buffer** (`src/RingBuffer`). Init, Push (which drops the oldest entry when the buffer is full), Pop and Clear.
- **Table-driven state machine** (`src/State`). Init validates the table. Exec takes the first row matching (state, event) and accepts the candidate next state only if it is listed in the row.
- **Utilities** (`src/Util`, `MLibUtil.h`). The byte fills SetMemory8, SetMemory16 and SetMemoryCmpt, and the macros ALIGN, HAVE_FLAG, MAX and MIN.

## Conventions

- **Data and operations.** Data is immutable datatypes, and every C entry point is a pure function or a method.
- **Return values.** An operation returns its `MLibRet_t` together with the new state and every out-parameter.
- **Pointers.** A pointer argument is a `Ptr<T>` (`Null` or `Points(value)`). `MLIB_SET_IFNOT_NULL(pErr, e)` is `Set(pErr, e)`.
- **Heap allocation.** Each heap acquisition is a `mallocOk: bool` parameter: the allocator's answer.
- **Integer widths.** `size_t` is 64 bits and `uint_t`/`uint32_t` is 32 bits. Wrap-around is written out where the C arithmetic can wrap on the modelled inputs: ChunkAdd's index arithmetic; the `size_t` decrements of DynamicArray.Free and of List.RemoveHead and List.RemoveTail (`DecSize`); the unsigned range test of Free and Get; the ring buffer's index step (`Next`, `% SIZE_MOD`) and the as-written ring buffer size `entrySize * entryNum`; and the splitter's allocation size in Split.InitAsWritten. Loop counters are unbounded in the model, and the ring buffer's pushIdx and popIdx are `size_t`. The lines under "Left out" that start with those members say where this differs from the C code, which is only for sizes of 2^32 or more. The `size_t` sum that sizes a dynamic-array chunk (`DynamicArrayChunk.c:52-54`) is not modelled, because chunk memory layout is left out.
- **Dynamic array.** The chunk list is modelled as `seq<seq<Slot>>`, chunk by chunk in creation order. A slot's storage pointer is the abstract identity `SlotRef(chunk, offset)`.
- **List.** A list is a store `map<NodeId, Node>` plus the list header. `List.Valid(l, s, xs)` says the header and links agree with the node sequence `xs`.
- **Callbacks.** A callback of Search, SearchHead and the state machine's task is given by what it answers: the set of items it accepts, or the task's return value.

## Model

| member | source | states |
|---|---|---|
| DynamicArrayChunk.ChunkAdd | src/DynamicArray/DynamicArrayChunk.c:41-117 | A failed allocation returns NULL with NOMEMORY and leaves the chunk list alone. Otherwise exactly one chunk is appended at the tail: chunkSize unused slots numbered on from the tail chunk's last index (from 0 for an empty list), with earlier chunks unchanged |
| DynamicArrayChunk.ChunkAddNumbered | src/DynamicArray/DynamicArrayChunk.c:64-83 | When the indices fit in uint_t, the new chunk n gets indices n*chunkSize .. n*chunkSize+chunkSize-1, so the numbering invariant is kept |
| DynamicArrayChunk.ChunkAddKeepsCount | src/DynamicArray/DynamicArrayChunk.c:99-114 | A new chunk adds no used slot, so the used-slot count is unchanged |
| DynamicArray.Init | src/DynamicArray/DynamicArrayInit.c:43-94 | A NULL handle pointer or a zero size gives FAILURE/PARAM; a failed allocation gives FAILURE/NOMEMORY. Success happens in exactly the remaining case and yields a valid handle: the three sizes stored, entryNum 0, no chunks |
| DynamicArray.InitErrIndependent | src/DynamicArray/DynamicArrayInit.c:55-88 | Whether the error out-parameter is NULL does not change the return code or the handle |
| DynamicArray.FirstFree | src/DynamicArray/DynamicArrayAlloc.c:83-103 | The slot found is unused and every slot created before it is in use; NULL means every slot from the start position on is in use |
| DynamicArray.Alloc | src/DynamicArray/DynamicArrayAlloc.c:45-123 | A NULL handle, pIdx or ppEntry gives PARAM, and entryNum >= entryMaxNum gives LIMITOVER, both with nothing changed. Success happens exactly below the ceiling when a slot is free or the new chunk can be allocated. On success one unused slot becomes used, entryNum rises by one, and its index and storage are reported |
| DynamicArray.AllocFirstFit | src/DynamicArray/DynamicArrayAlloc.c:83-120 | Alloc takes the first unused slot in chunk-then-offset order. It adds a chunk only when every existing slot is in use, and then takes the new chunk's first slot |
| DynamicArray.AllocTakesFirst | src/DynamicArray/DynamicArrayAlloc.c:83-103 | Every slot created before the one Alloc takes is in use |
| DynamicArray.AllocInPlace | src/DynamicArray/DynamicArrayAlloc.c:83-103 | When an unused slot exists, Alloc takes it without adding a chunk |
| DynamicArray.AllocGrows | src/DynamicArray/DynamicArrayAlloc.c:90-120 | When every slot is used, Alloc appends one chunk, keeps the old chunks, and takes slot 0 of the new one |
| DynamicArray.TakeKeepsValid | src/DynamicArray/DynamicArrayAlloc.c:112-117 | Marking an unused slot used and counting it keeps entryNum equal to the number of used slots |
| DynamicArray.AllocKeepsValid | src/DynamicArray/DynamicArrayAlloc.c:83-120 | Alloc keeps the handle invariant: slot j of chunk k has index k*chunkSize+j, and entryNum is the number of used slots |
| DynamicArray.AllocLowestIndex | src/DynamicArray/DynamicArrayAlloc.c:83-120 | On a valid handle Alloc returns the lowest index whose slot is unused or not yet created |
| DynamicArray.OutsideIsInterval | src/DynamicArray/DynamicArrayGet.c:81-88 | The unsigned test `idx - first >= chunkSize` rejects exactly the indices outside [first, first+chunkSize); inside, the offset is idx - first |
| DynamicArray.FindChunk | src/DynamicArray/DynamicArrayGet.c:69-88 | The chunk found is the first one from the start whose range test passes; NULL means no chunk passes |
| DynamicArray.FindChunkCovers | src/DynamicArray/DynamicArrayFree.c:66-86 | On a valid handle, idx is found in chunk idx / chunkSize at offset idx % chunkSize exactly when it is below the capacity |
| DynamicArray.Free | src/DynamicArray/DynamicArrayFree.c:41-96 | A NULL handle gives FAILURE/PARAM. Otherwise the result is SUCCESS and the chunk list keeps its shape; a covered index has its used flag cleared and entryNum lowered by one (wrapping), and nothing else changes |
| DynamicArray.FreeEffect | src/DynamicArray/DynamicArrayFree.c:66-95 | An index no chunk covers changes nothing. A covered index clears exactly the slot carrying that index |
| DynamicArray.FreeKeepsValid | src/DynamicArray/DynamicArrayFree.c:80-92 | Freeing a slot that is in use keeps the handle invariant |
| DynamicArray.FreeUnusedBreaksCount | src/DynamicArray/DynamicArrayFree.c:89-90 | The decrement does not check the used flag: freeing an unused slot leaves entryNum one below the used-slot count |
| DynamicArray.Get | src/DynamicArray/DynamicArrayGet.c:43-107 | A NULL handle or ppEntry gives PARAM. Failure otherwise means NOENTRY. Success returns the storage of a used slot. In a numbered handle whose indices fit in uint_t, that slot carries idx. The array is never changed |
| DynamicArray.GetIffUsed | src/DynamicArray/DynamicArrayGet.c:69-106 | On a valid handle, Get succeeds exactly when idx is the index of a used slot, and then returns that slot |
| DynamicArray.AllocThenGet | src/DynamicArray/DynamicArrayAlloc.c:112-117 | After a successful Alloc reports (idx, entry), Get(idx) on the new handle succeeds with the same entry |
| DynamicArray.FirstTwoAllocs | test/DynamicArray/Alloc.c:51-99 | On a fresh handle with 1 <= chunkSize <= 256 and 2 <= entryMaxNum <= 0x1000, the first two Allocs return indices 0 and 1. The test's sizes (256, 1, 512) lie in that range |
| DynamicArray.Exit | src/DynamicArray/DynamicArrayExit.c:42-83 | A NULL ppHandle gives PARAM. Otherwise every chunk node is released exactly once, tail first, the list ends empty, *ppHandle becomes NULL, and the result is SUCCESS |
| DynamicArrayScan.UsedSlotsExact | src/DynamicArray/DynamicArrayForeach.c:128-157 | The scan order meets exactly the used slots, each once, in creation order |
| DynamicArrayScan.UsedSlotsCount | src/DynamicArray/DynamicArrayForeach.c:128-157 | On a valid handle the scan meets entryNum slots |
| DynamicArrayScan.Foreach | src/DynamicArray/DynamicArrayForeach.c:53-161 | A NULL handle or callback gives PARAM with no call. Otherwise the callback is called once per used slot, never on an unused one, in creation order, and the result is SUCCESS |
| DynamicArrayScan.Search | src/DynamicArray/DynamicArraySearch.c:60-189 | A NULL argument gives PARAM with no call. Otherwise the callback sees used slots in scan order and stops at the first it accepts. Success holds iff some used slot is accepted, returning that slot's index and storage. Otherwise the result is NOENTRY with *ppEntry NULL after every used slot was offered |
| List.Init | src/DynamicArray/DynamicArrayInit.c:90-91 | MLibListInit succeeds and leaves an empty list that is well formed over any store |
| List.CursorWalk | src/DynamicArray/DynamicArrayChunk.c:63-64 | From a NULL cursor, next gives the first node and prev gives the last. From a member, they step to its neighbours in list order, and NULL past the ends |
| List.InsertHead | src/List/ListInsert.c:36-94 | NULL arguments or size == SIZE_MAX give FAILURE with list and store unchanged. Otherwise the new node becomes the head with the old head behind it, size rises by one, and the node's owner is the list |
| List.InsertTail | src/List/ListInsert.c:276-334 | NULL arguments or size == SIZE_MAX give FAILURE with nothing changed. Otherwise the new node becomes the tail after the old tail, and size rises by one |
| List.InsertNext | src/List/ListInsert.c:111-177 | A NULL argument, an empty list or size == SIZE_MAX give FAILURE with nothing changed. Otherwise the new node is linked right after the anchor, becoming the tail when the anchor was the tail |
| List.InsertPrev | src/List/ListInsert.c:194-260 | A NULL argument, an empty list or size == SIZE_MAX give FAILURE with nothing changed. Otherwise the new node is linked right before the anchor, becoming the head when the anchor was the head |
| List.InsertHeadValid | src/List/ListInsert.c:65-91 | On a well-formed list of nodes xs, InsertHead of a fresh node yields a well-formed list of [new] + xs; other nodes are untouched |
| List.InsertTailValid | src/List/ListInsert.c:305-331 | On a well-formed list of xs, InsertTail yields a well-formed list of xs + [new] |
| List.InsertNextValid | src/List/ListInsert.c:148-176 | Inserting after member xs[k] yields a well-formed list of xs[..k+1] + [new] + xs[k+1..] |
| List.InsertPrevValid | src/List/ListInsert.c:231-259 | Inserting before member xs[k] yields a well-formed list of xs[..k] + [new] + xs[k..] |
| List.ListRemove | src/List/ListRemove.c:226-285 | FAILURE, with nothing changed, exactly when the list is empty or the node's owner is another list. On success size falls by one and the node's prev and next are cleared while its owner stays set |
| List.Remove | src/List/ListRemove.c:41-67 | NULL arguments give FAILURE with nothing changed; otherwise MLibListRemove is ListRemove |
| List.ListRemoveValid | src/List/ListRemove.c:244-282 | Removing member xs[k] of a well-formed list yields a well-formed list of xs without it, in the only, head, tail and middle cases alike |
| List.StaleOwnerPassesCheck | src/List/ListRemove.c:237-279 | A removed node keeps its owner, so a second removal of it still passes the membership test |
| List.RemoveHead | src/List/ListRemove.c:84-137 | A NULL or empty list gives NULL with nothing changed; otherwise the head node is detached and returned |
| List.RemoveTail | src/List/ListRemove.c:154-207 | A NULL or empty list gives NULL with nothing changed; otherwise the tail node is detached and returned |
| List.RemoveEndsAreRemove | src/List/ListRemove.c:102-136 | On a well-formed non-empty list, RemoveHead and RemoveTail detach their node exactly as ListRemove does |
| List.RemoveHeadValid | src/List/ListRemove.c:102-136 | On a well-formed list of xs, RemoveHead returns xs[0] (NULL when empty) and leaves a well-formed list of xs[1..] |
| List.RemoveTailValid | src/List/ListRemove.c:172-206 | On a well-formed list of xs, RemoveTail returns the last node (NULL when empty) and leaves a well-formed list of the rest |
| List.Walk | src/List/ListSearch.c:59-85 | Following next links from the head, the callback is called on a prefix of the list. It stops at the first accepted node; with no accepted node every node was offered and the result is NULL |
| List.SearchHead | src/List/ListSearch.c:41-86 | A NULL list or callback gives NULL with no call. Otherwise the result is the first accepted node from the head, with no call past it. With GET, or with no match, the list is unchanged. With REMOVE the node is detached as ListRemove does |
| Split.EffLen | src/Split/SplitInit.c:80-92 | The effective input is the first `length` characters cut at the first NUL |
| Split.CountDelimiters | src/Split/SplitInit.c:80-92 | The first loop counts the delimiters of the effective input |
| Split.CopyPieces | src/Split/SplitInit.c:115-142 | The second loop writes the effective input with each delimiter replaced by a NUL, plus a final NUL, and records a piece start at 0 and after each delimiter |
| Split.Built | src/Split/SplitInit.c:107-142 | The handle built for an effective input has num = delimiter count + 1, cursor 0, its pieces are the reference split, and it takes the header, num pointers and the input length + 1 bytes |
| Split.InitAsWritten | src/Split/SplitInit.c:47-145 | As written, NULL ppHandle or pStr, length 0 or a NUL delimiter gives PARAM, and success happens exactly when the allocation succeeds. The malloc request is the size_t sum (header + (delimiterNum + 1) pointers + length + delimiterNum + 1) modulo 2^64 |
| Split.OverrunOnWrap | src/Split/SplitInit.c:95-98 | With pStr = "a" and length = SIZE_MAX the as-written request wraps to 40 bytes, while the handle written into it takes 42 |
| Split.InitByDelimiter | src/Split/SplitInit.c:47-145 | The corrected Init. A NULL ppHandle or pStr, length 0 or a NUL delimiter gives PARAM; a failed allocation, or a request that does not fit in size_t, gives NOMEMORY with *ppHandle NULL. Success happens exactly otherwise: num is the delimiter count + 1, the cursor is 0, the handle's bytes fit in the unwrapped request, and piece i read as a C string is the i-th delimiter-free run of the effective input |
| Split.SplitJoin | src/Split/SplitInit.c:115-142 | The pieces joined with the delimiter give the effective input back |
| Split.JoinSplit | src/Split/SplitInit.c:115-142 | Delimiter-free pieces joined and split again give the same pieces |
| Split.SplitCount | src/Split/SplitInit.c:80-112 | There is one piece more than there are delimiters |
| Split.SplitClean | src/Split/SplitInit.c:115-142 | No piece contains the delimiter, and every piece character comes from the input |
| Split.LayoutPieces | src/Split/SplitInit.c:115-142 | The C string at each recorded start of the buffer is the corresponding piece of the reference split |
| Split.Get | src/Split/SplitGet.c:40-73 | A NULL handle or ppStr gives PARAM. Otherwise INDEX holds exactly when idx >= num, and else piece idx is returned; the cursor never moves |
| Split.GetNext | src/Split/SplitGet.c:93-125 | A NULL handle or ppStr gives PARAM. A cursor at or past num gives INDEX with the cursor unchanged; otherwise the piece at the cursor is returned and the cursor advances by one |
| Split.GetNum | src/Split/SplitGet.c:144-166 | A NULL argument gives PARAM; otherwise the piece count is returned |
| Split.DrainPrefix | src/Split/SplitGet.c:112-122 | From a fresh cursor, k <= num calls of GetNext return the first k pieces in order and leave the cursor at k |
| Split.DrainAll | src/Split/SplitGet.c:93-125 | From a fresh cursor, num calls of GetNext return every piece in order, and the next call fails with INDEX |
| RingBuffer.Next | src/RingBuffer/RingBufferPush.c:73-77 | An index advances by one and wraps to 0 past entryNum, so it stays within the entryNum+1 positions |
| RingBuffer.SlotInBuffer | src/RingBuffer/RingBufferPush.c:63-67 | The write at byte offset i*entrySize stays inside the buffer exactly when i is below the number of whole entries the buffer holds |
| RingBuffer.InitAsWritten | src/RingBuffer/RingBufferInit.c:43-89 | As the C code does it: PARAM on NULL or zero sizes; otherwise the indices are 0 and the buffer is entrySize*entryNum zero bytes |
| RingBuffer.OverrunAfterInit | src/RingBuffer/RingBufferInit.c:69 | After the source's Init with entrySize = entryNum = 1, one Push moves pushIdx to 1. The next write then starts at byte 1 = bufferSize, past the buffer |
| RingBuffer.Init | src/RingBuffer/RingBufferInit.c:43-89 | PARAM on a NULL handle or zero sizes; NOMEMORY when allocation fails. Success happens exactly otherwise and gives a valid, empty ring with entryNum+1 zeroed entries |
| RingBuffer.InitRoom | src/RingBuffer/RingBufferInit.c:69-72 | After a successful Init every index 0..entryNum names an entry inside the buffer |
| RingBuffer.Push | src/RingBuffer/RingBufferPush.c:39-94 | NULL handle or data gives PARAM with nothing changed. Otherwise: SUCCESS, the entry written at the old pushIdx, pushIdx advanced with wrap, and popIdx advanced only when the push meets it. Nothing else changes |
| RingBuffer.PushValid | src/RingBuffer/RingBufferPush.c:70-91 | Push keeps the indices within 0..entryNum and the buffer shape |
| RingBuffer.PushQueue | src/RingBuffer/RingBufferPush.c:63-91 | As a queue, Push appends the entry. When entryNum entries were already held, it first drops the oldest. The result is never empty |
| RingBuffer.Pop | src/RingBuffer/RingBufferPop.c:38-93 | A NULL handle gives PARAM. Equal indices give NOENTRY with nothing changed. Otherwise SUCCESS: the entry at popIdx is copied out only to a non-NULL pData, popIdx advances with wrap, and pushIdx and the buffer stay |
| RingBuffer.PopQueue | src/RingBuffer/RingBufferPop.c:61-92 | As a queue, Pop fails exactly on the empty queue, and otherwise returns the oldest entry and leaves the rest |
| RingBuffer.Clear | src/RingBuffer/RingBufferClear.c:36-64 | A NULL handle gives PARAM. Otherwise pushIdx, popIdx and num become 0, and the sizes and the buffer stay |
| RingBuffer.ClearQueue | src/RingBuffer/RingBufferClear.c:56-58 | After Clear the queue is empty and a Pop fails with NOENTRY |
| RingBuffer.PushThenPop | src/RingBuffer/RingBufferPop.c:71-80 | A Push onto an empty ring followed by a Pop returns the pushed entry and leaves the ring empty |
| State.InitAsWritten | src/State/StateInit.c:40-98 | As the C code does it: a NULL handle returns SUCCESS with ERR_PARAM. Otherwise success holds iff the table is non-NULL, its size is a multiple of the row size and the state is not NULL; failure leaves the handle untouched |
| State.NullHandleSucceeds | src/State/StateInit.c:50-57 | The source's Init reports SUCCESS for a NULL handle, while the corrected Init reports FAILURE |
| State.Init | src/State/StateInit.c:40-98 | Success iff the handle and table are non-NULL, tableSize is a multiple of the row size and the state is not NULL. Failure gives ERR_PARAM with the handle untouched. Success stores the state and table, with transitionNum * row size == tableSize |
| State.InitReadable | src/State/StateInit.c:90-95 | Init over a table of whole rows yields a handle whose transitionNum is the row count |
| State.FirstFrom | src/State/StateExec.c:79-92 | The row found matches (state, event) and no earlier row does; no row means none matches |
| State.Candidate | src/State/StateExec.c:140-151 | The candidate is next[0] when the row has no task, and the task's result otherwise |
| State.ExecTask | src/State/StateExec.c:124-171 | The candidate is accepted iff it occurs among the row's MLIB_STATE_NEXT_NUM next entries. Then the state becomes the candidate with SUCCESS; otherwise ERR_TRANS with the state unchanged |
| State.Exec | src/State/StateExec.c:50-98 | A NULL handle gives ERR_PARAM. Otherwise *pPrevState gets the state held before the call. The lowest matching row is used, and no matching row gives ERR_NO_TRANS with the state unchanged |
| UtilMemory.SetMemory8 | src/Util/UtilSetMemory.c:32-44 | Bytes 0..size-1 become value and every later byte is unchanged |
| UtilMemory.Load16Rep16 | src/Util/UtilSetMemory.c:65-76 | Reading back the two bytes of a 16-bit value's representation gives the value, in either byte order |
| UtilMemory.SetMemory16 | src/Util/UtilSetMemory.c:57-79 | Byte k < size becomes byte k mod 2 of value's in-memory representation, and later bytes are unchanged |
| UtilMemory.SetMemory16Units | src/Util/UtilSetMemory.c:65-76 | Every complete 16-bit unit written reads back as value |
| UtilMemory.SetMemoryCmpt | src/Util/UtilSetMemory.c:131-138 | Like SetMemory8 with value truncated to its low 8 bits; returns pAddr |
| UtilMacros.Align | build/release/include/MLib/MLibUtil.h:22-23 | For a power-of-two alignment, ALIGN(value, alignment) is a multiple of the alignment |
| UtilMacros.AlignMultiple | build/release/include/MLib/MLibUtil.h:22-23 | For a power-of-two alignment the result is a multiple of it, and a value already aligned is returned unchanged |
| UtilMacros.AlignIdempotent | build/release/include/MLib/MLibUtil.h:22-23 | Aligning twice is aligning once |
| UtilMacros.AlignBounds | build/release/include/MLib/MLibUtil.h:22-23 | Without overflow, value <= ALIGN(value, a) < value + a |
| UtilMacros.HaveFlag | build/release/include/MLib/MLibUtil.h:26-27 | HAVE_FLAG(value, flag) fails exactly when flag has a bit that value lacks |
| UtilMacros.HaveFlagBits | build/release/include/MLib/MLibUtil.h:26-27 | HAVE_FLAG(value, flag) holds iff every bit set in flag is set in value |
| UtilMacros.Max | build/release/include/MLib/MLibUtil.h:30-31 | MAX returns one of its arguments, at least as large as both |
| UtilMacros.Min | build/release/include/MLib/MLibUtil.h:33-34 | MIN returns one of its arguments, at most as large as both |

## Left out

- Spin locks (`src/Spin`) are out: every lock and unlock call is sequentially transparent and is not modelled.
- `MLibStateSet` is out: its handle and state types belong to a different version of the state API.
- `MLibRingBufferExit` and heap release are out. They only free memory, and allocation itself is the `mallocOk` parameter.
- `MLibUtilSetMemory32` is out: it stores 16-bit units and picks value bytes by `offset % 3`, so none of the properties its comment describes hold.
- `MLibDynamicArrayAllocSpec` is out: it is only declared, and its source is not part of this model.
- `MLibListInit`, `MLibListGetNextNode` and `MLibListGetPrevNode` are not part of this model's source. `List.Init`, `List.GetNextNode` and `List.GetPrevNode` state them by what their callers rely on.
- Payload bytes and chunk memory layout are out. Search, Get, Alloc and Free use `entry[localIdx]` while ChunkAdd and Foreach use `CHUNK_ENTRY_ADDR`; the model gives a slot's storage an abstract identity instead.
- The `va_list` arguments of the Search and Foreach callbacks are out. A callback is a pure test of the slot, or of the list node in SearchHead.
- The state machine's task callback is out. Its return value is the parameter `taskResult`.
- SetMemory16's host byte order is the parameter `littleEndian`.
- DynamicArray.Free: the promise that entryNum keeps counting the used slots needs the freed slot to be in use (`FreeKeepsValid`). `FreeUnusedBreaksCount` shows what happens otherwise.
- DynamicArray.Exit: requires `*ppHandle` to be non-NULL. The C code dereferences it without a check at `DynamicArrayExit.c:66`, so a NULL `*ppHandle` is undefined behaviour; a second Exit on the same handle is one such case, since line 80 sets it to NULL.
- DynamicArrayChunk.ChunkAdd: the loop that numbers the new chunk's slots counts in `uint_t` against the `size_t` chunkSize. For chunkSize >= 2^32 the counter wraps and the C loop never ends, while the model builds the chunk.
- DynamicArray.Alloc: its loop over a chunk's slots has the same `uint_t` counter. For chunkSize >= 2^32 the C code does not terminate, while the model returns.
- DynamicArrayScan.Foreach: same `uint_t` slot counter. For chunkSize >= 2^32 the C loop never ends, while the model finishes the scan.
- DynamicArrayScan.Search: same `uint_t` slot counter. For chunkSize >= 2^32 the C loop never ends, while the model finishes the scan.
- State.Exec: the row loop counts in `uint32_t` against the `size_t` transitionNum. With transitionNum >= 2^32 and no match among the first 2^32 rows, the C loop never ends. The model (State.FirstFrom) goes on to later rows.
- RingBuffer.Push: pushIdx and popIdx are `size_t` here, while MLibRingBuffer.h declares them `uint32_t`. For entryNum < 2^32 the two agree, because an index never exceeds entryNum and `entryNum + 1 <= 2^32`. For larger entryNum the C indices wrap at 2^32 instead of at entryNum. The same holds for RingBuffer.Pop.
- RingBuffer.Pop: see RingBuffer.Push for the `uint32_t` width of the indices.
- DynamicArray.AllocKeepsValid: the index invariant is proved for handles whose capacity fits in uint_t (`entryMaxNum + chunkSize <= 2^32 + 1`); beyond that ChunkAdd's indices wrap.
- Split.InitByDelimiter: excludes effective inputs of 2^32 - 1 characters or more. The C counters `idx`, `splitStrNo`, `splitStrIdx` and `delimiterNum` are `uint32_t` and would wrap there.
- Split.InitByDelimiter: when the size_t request does not fit, the corrected Init reports NOMEMORY instead of allocating the wrapped size (see Findings). Split.InitAsWritten keeps the wrapped size and makes the same uint32_t exclusion.
- RingBuffer.Init: when `entrySize * (entryNum + 1)` does not fit in size_t, the corrected Init reports NOMEMORY instead of allocating a wrapped size.
- RingBuffer.Push: requires the slot at pushIdx to lie inside the buffer (and Pop the slot at popIdx). Writing outside it is undefined behaviour in C, and `OverrunAfterInit` shows the as-written Init allowing it.
- RingBuffer: the `num` field is only ever set to 0 and is carried along unchanged.
- UtilMacros: the macros are modelled on 32-bit unsigned operands (`bv32`) and MAX/MIN on mathematical integers. The macros are width-generic and the library itself does not use them.
- UtilMemory.SetMemoryCmpt: the C `int` value is taken as its 32-bit pattern.

## Findings

| source | as written | input that shows it | evidently intended | confidence | as-written member | corrected member |
|---|---|---|---|---|---|---|
| src/RingBuffer/RingBufferInit.c:69 | `bufferSize = entrySize * entryNum`, while pushIdx and popIdx range over the entryNum + 1 positions 0..entryNum | entrySize = entryNum = 1: the first Push leaves pushIdx = 1, and the second writes bytes [1, 2) of a 1-byte buffer | room for entryNum + 1 entries, `entrySize * (entryNum + 1)` | not executed | RingBuffer.OverrunAfterInit | RingBuffer.Init |
| src/State/StateInit.c:50-57 | a NULL handle sets ERR_PARAM and returns MLIB_SUCCESS (0, MLib.h:25) | MLibStateInit(NULL, table, size, state, &err) returns MLIB_SUCCESS | MLIB_FAILURE (-1, MLib.h:26), as the other parameter checks return | not executed | State.NullHandleSucceeds | State.Init |
| src/Split/SplitInit.c:95-98 | the malloc size `sizeof(MLibSplit_t) + sizeof(char *) * (delimiterNum + 1) + length + delimiterNum + 1` is a size_t sum that wraps for length close to SIZE_MAX, and the copy loops then write past it | pStr = "a", length = SIZE_MAX on LP64: 40 bytes are requested and 42 are written | a request that does not fit in size_t is refused (NOMEMORY), so the handle always fits its allocation | not executed | Split.OverrunOnWrap | Split.InitByDelimiter |
