/** The intrusive doubly-linked list (src/List/ListInsert.c,
    src/List/ListRemove.c, src/List/ListSearch.c).

    Nodes live in a store `map<NodeId, Node>` standing for the memory the
    caller owns; a list header is identified by its address `id`. Every
    operation performs the pointer writes of the C code in the same order,
    each read taken from the store as it is at that point. Whether a store
    holds a proper list is the predicate `Valid`, relative to the sequence
    of nodes it links, which the lemmas carry along. */
module List {
  import opened MLibTypes

  type NodeId = nat
  type ListId = nat

  /** MLibListNode_t: neighbour links and the back-reference to its list. */
  datatype Node = Node(prev: Ptr<NodeId>, next: Ptr<NodeId>, owner: Ptr<ListId>)

  /** MLibList_t (the lock is not modelled). */
  datatype List = List(id: ListId, head: Ptr<NodeId>, tail: Ptr<NodeId>, size: size_t)

  type Store = map<NodeId, Node>

  datatype ListResult = ListResult(ret: Ret, list: Ptr<List>, store: Store)

  /** A node pointer that is NULL or refers to a node of the store. */
  predicate Deref(s: Store, p: Ptr<NodeId>)
  {
    p.Points? ==> p.to in s
  }

  /** The list links exactly the nodes xs, in order: head and tail are the
      ends, prev and next agree with the neighbours in xs (so they stay in
      the store), every member's back-reference is the list, no node occurs
      twice and size counts them. */
  predicate Valid(l: List, s: Store, xs: seq<NodeId>)
  {
    && |xs| == l.size
    && (forall i, j :: 0 <= i < j < |xs| ==> xs[i] != xs[j])
    && l.head == (if |xs| == 0 then Null else Points(xs[0]))
    && l.tail == (if |xs| == 0 then Null else Points(xs[|xs| - 1]))
    && (forall i :: 0 <= i < |xs| ==> xs[i] in s)
    && (forall i :: 0 <= i < |xs| ==> Deref(s, s[xs[i]].prev) && Deref(s, s[xs[i]].next))
    && (forall i :: 0 <= i < |xs| ==> LinkedAt(l, s, xs, i))
  }

  /** The i-th member of xs is in the store with the links Expected gives it. */
  predicate LinkedAt(l: List, s: Store, xs: seq<NodeId>, i: nat)
    requires i < |xs|
  {
    xs[i] in s && s[xs[i]] == Expected(l, xs, i)
  }

  /** Valid from its per-member part: links that agree with the neighbours
      in xs keep the walk inside the store. */
  lemma ValidIntro(l: List, s: Store, xs: seq<NodeId>)
    requires |xs| == l.size
    requires forall i, j :: 0 <= i < j < |xs| ==> xs[i] != xs[j]
    requires l.head == (if |xs| == 0 then Null else Points(xs[0]))
    requires l.tail == (if |xs| == 0 then Null else Points(xs[|xs| - 1]))
    requires forall i :: 0 <= i < |xs| ==> LinkedAt(l, s, xs, i)
    ensures Valid(l, s, xs)
  {
    forall i | 0 <= i < |xs|
      ensures xs[i] in s && Deref(s, s[xs[i]].prev) && Deref(s, s[xs[i]].next)
    {
      assert LinkedAt(l, s, xs, i);
      if i > 0 { assert LinkedAt(l, s, xs, i - 1); }
      if i + 1 < |xs| { assert LinkedAt(l, s, xs, i + 1); }
    }
  }

  /** The links and back-reference of the i-th member of a list linking xs. */
  function Expected(l: List, xs: seq<NodeId>, i: nat): Node
    requires i < |xs|
  {
    Node(if i == 0 then Null else Points(xs[i - 1]),
         if i == |xs| - 1 then Null else Points(xs[i + 1]),
         Points(l.id))
  }

  /** Nodes outside `keep` are the same in both stores, and no node came or went. */
  predicate Others(s: Store, s': Store, keep: seq<NodeId>)
  {
    s'.Keys == s.Keys && forall m {:trigger s'[m]} :: m in s && m !in keep ==> s'[m] == s[m]
  }

  /** xs with n inserted at position k. */
  function Inserted(xs: seq<NodeId>, k: nat, n: NodeId): (ys: seq<NodeId>)
    requires k <= |xs|
    ensures |ys| == |xs| + 1
  {
    seq(|xs| + 1, i requires 0 <= i <= |xs| => if i < k then xs[i] else if i == k then n else xs[i - 1])
  }

  lemma InsertedDistinct(xs: seq<NodeId>, k: nat, n: NodeId)
    requires k <= |xs| && n !in xs
    requires forall i, j :: 0 <= i < j < |xs| ==> xs[i] != xs[j]
    ensures var ys := Inserted(xs, k, n); forall i, j :: 0 <= i < j < |ys| ==> ys[i] != ys[j]
  {
  }

  /** A store that changed only at n and at the members xs[a] and xs[b - 1]
      (the neighbours of the gap at k) differs from the first only inside
      Inserted(xs, k, n). */
  lemma InsertedFrame(s: Store, s': Store, xs: seq<NodeId>, k: nat, n: NodeId, a: nat, b: nat)
    requires k <= |xs| && a < |xs| && 0 < b
    requires s'.Keys == s.Keys
    requires forall m {:trigger s'[m]} :: m in s && m != xs[a] && m != n && (b <= |xs| ==> m != xs[b - 1]) ==>
      s'[m] == s[m]
    ensures Others(s, s', Inserted(xs, k, n))
  {
    var ys := Inserted(xs, k, n);
    forall m | m in s && m !in ys ensures s'[m] == s[m] {
      assert m != ys[k];
      assert m != ys[if a < k then a else a + 1];
      if b <= |xs| { assert m != ys[if b - 1 < k then b - 1 else b]; }
    }
  }

  lemma InsertedIsSplice(xs: seq<NodeId>, k: nat, n: NodeId)
    requires k <= |xs|
    ensures Inserted(xs, k, n) == xs[..k] + [n] + xs[k..]
  {
  }

  /** xs without its member at position k. */
  function Without(xs: seq<NodeId>, k: nat): (ys: seq<NodeId>)
    requires k < |xs|
    ensures |ys| == |xs| - 1
  {
    seq(|xs| - 1, i requires 0 <= i < |xs| - 1 => if i < k then xs[i] else xs[i + 1])
  }

  lemma WithoutDistinct(xs: seq<NodeId>, k: nat)
    requires k < |xs|
    requires forall i, j :: 0 <= i < j < |xs| ==> xs[i] != xs[j]
    ensures var ys := Without(xs, k); forall i, j :: 0 <= i < j < |ys| ==> ys[i] != ys[j]
  {
  }

  lemma WithoutIsSplice(xs: seq<NodeId>, k: nat)
    requires k < |xs|
    ensures Without(xs, k) == xs[..k] + xs[k + 1..]
  {
  }

  // ---------------------------------------------------------------- Init

  datatype InitResult = InitResult(ret: Ret, list: List)

  /** MLibListInit, whose source is not part of this model, by its call-site
      contract (src/DynamicArray/DynamicArrayInit.c:91): it succeeds and
      leaves the list empty. */
  function Init(l: List): (r: InitResult)
    ensures r.ret == Success && r.list.id == l.id
    ensures forall s: Store :: Valid(r.list, s, [])
  {
    InitResult(Success, List(l.id, Null, Null, 0))
  }

  // ------------------------------------------------------ cursor movement

  /** MLibListGetNextNode, by its call-site contract: a NULL cursor gives the
      head, otherwise the cursor's next node. */
  function GetNextNode(l: List, s: Store, cur: Ptr<NodeId>): Ptr<NodeId>
    requires Deref(s, cur)
  {
    if cur.Null? then l.head else s[cur.to].next
  }

  /** MLibListGetPrevNode, by its call-site contract: a NULL cursor gives the
      tail, otherwise the cursor's previous node. */
  function GetPrevNode(l: List, s: Store, cur: Ptr<NodeId>): Ptr<NodeId>
    requires Deref(s, cur)
  {
    if cur.Null? then l.tail else s[cur.to].prev
  }

  /** Stepping from a NULL cursor visits the nodes of a valid list in order,
      forward with GetNextNode and backward with GetPrevNode, and reaches NULL
      after the last one. This is why the chunk list can be read as a
      sequence. */
  lemma CursorWalk(l: List, s: Store, xs: seq<NodeId>)
    requires Valid(l, s, xs)
    ensures GetNextNode(l, s, Null) == (if |xs| == 0 then Null else Points(xs[0]))
    ensures GetPrevNode(l, s, Null) == (if |xs| == 0 then Null else Points(xs[|xs| - 1]))
    ensures forall i :: 0 <= i < |xs| ==>
      GetNextNode(l, s, Points(xs[i])) == (if i + 1 < |xs| then Points(xs[i + 1]) else Null)
    ensures forall i :: 0 <= i < |xs| ==>
      GetPrevNode(l, s, Points(xs[i])) == (if i > 0 then Points(xs[i - 1]) else Null)
  {
    forall i | 0 <= i < |xs|
      ensures GetNextNode(l, s, Points(xs[i])) == (if i + 1 < |xs| then Points(xs[i + 1]) else Null)
      ensures GetPrevNode(l, s, Points(xs[i])) == (if i > 0 then Points(xs[i - 1]) else Null)
    {
      assert LinkedAt(l, s, xs, i);
    }
  }

  // -------------------------------------------------------------- Insert

  /** MLibListInsertHead(pList, pNewNode). */
  function InsertHead(pList: Ptr<List>, s: Store, pNewNode: Ptr<NodeId>): (r: ListResult)
    requires Deref(s, pNewNode)
    requires pList.Points? ==> Deref(s, pList.to.head)
    ensures r.ret == Success <==> pList.Points? && pNewNode.Points? && pList.to.size < SIZE_MAX
    ensures r.ret == Failure ==> r.list == pList && r.store == s
    ensures r.ret == Success ==>
      && r.store.Keys == s.Keys
      && r.list.Points? && r.list.to.id == pList.to.id
      && r.list.to.head == pNewNode && r.list.to.size == pList.to.size + 1
      && r.store[pNewNode.to].owner == Points(pList.to.id)
  {
    if pList.Null? || pNewNode.Null? || pList.to.size == SIZE_MAX then
      ListResult(Failure, pList, s)
    else
      var l, n := pList.to, pNewNode.to;
      var oldHead := l.head;
      var s1 := s[n := s[n].(owner := Points(l.id), next := oldHead, prev := Null)];
      if oldHead.Null? then
        ListResult(Success, Points(l.(head := Points(n), tail := Points(n), size := l.size + 1)), s1)
      else
        var s2 := s1[oldHead.to := s1[oldHead.to].(prev := Points(n))];
        ListResult(Success, Points(l.(head := Points(n), size := l.size + 1)), s2)
  }

  /** MLibListInsertTail(pList, pNewNode). */
  function InsertTail(pList: Ptr<List>, s: Store, pNewNode: Ptr<NodeId>): (r: ListResult)
    requires Deref(s, pNewNode)
    requires pList.Points? ==> Deref(s, pList.to.tail)
    ensures r.ret == Success <==> pList.Points? && pNewNode.Points? && pList.to.size < SIZE_MAX
    ensures r.ret == Failure ==> r.list == pList && r.store == s
    ensures r.ret == Success ==>
      && r.store.Keys == s.Keys
      && r.list.Points? && r.list.to.id == pList.to.id
      && r.list.to.tail == pNewNode && r.list.to.size == pList.to.size + 1
      && r.store[pNewNode.to].owner == Points(pList.to.id)
  {
    if pList.Null? || pNewNode.Null? || pList.to.size == SIZE_MAX then
      ListResult(Failure, pList, s)
    else
      var l, n := pList.to, pNewNode.to;
      var oldTail := l.tail;
      var s1 := s[n := s[n].(owner := Points(l.id), next := Null, prev := oldTail)];
      if oldTail.Null? then
        ListResult(Success, Points(l.(tail := Points(n), head := Points(n), size := l.size + 1)), s1)
      else
        var s2 := s1[oldTail.to := s1[oldTail.to].(next := Points(n))];
        ListResult(Success, Points(l.(tail := Points(n), size := l.size + 1)), s2)
  }

  /** MLibListInsertNext(pList, pNode, pNewNode): insert after pNode. */
  function InsertNext(pList: Ptr<List>, s: Store, pNode: Ptr<NodeId>, pNewNode: Ptr<NodeId>): (r: ListResult)
    requires Deref(s, pNode) && Deref(s, pNewNode)
    requires pNode.Points? ==> Deref(s, s[pNode.to].next)
    ensures r.ret == Success <==>
      pList.Points? && pNode.Points? && pNewNode.Points? && 0 < pList.to.size < SIZE_MAX
    ensures r.ret == Failure ==> r.list == pList && r.store == s
    ensures r.ret == Success ==>
      && r.store.Keys == s.Keys
      && r.list.Points? && r.list.to.id == pList.to.id && r.list.to.head == pList.to.head
      && r.list.to.size == pList.to.size + 1
      && r.store[pNewNode.to].owner == Points(pList.to.id)
  {
    if pList.Null? || pNode.Null? || pNewNode.Null? || pList.to.size == 0 || pList.to.size == SIZE_MAX then
      ListResult(Failure, pList, s)
    else
      var l, a, n := pList.to, pNode.to, pNewNode.to;
      var nextNode := s[a].next;
      var s1 := s[a := s[a].(next := Points(n))];
      var s2 := s1[n := s1[n].(owner := Points(l.id), prev := Points(a), next := nextNode)];
      if nextNode.Null? then
        ListResult(Success, Points(l.(tail := Points(n), size := l.size + 1)), s2)
      else
        var s3 := s2[nextNode.to := s2[nextNode.to].(prev := Points(n))];
        ListResult(Success, Points(l.(size := l.size + 1)), s3)
  }

  /** MLibListInsertPrev(pList, pNode, pNewNode): insert before pNode. */
  function InsertPrev(pList: Ptr<List>, s: Store, pNode: Ptr<NodeId>, pNewNode: Ptr<NodeId>): (r: ListResult)
    requires Deref(s, pNode) && Deref(s, pNewNode)
    requires pNode.Points? ==> Deref(s, s[pNode.to].prev)
    ensures r.ret == Success <==>
      pList.Points? && pNode.Points? && pNewNode.Points? && 0 < pList.to.size < SIZE_MAX
    ensures r.ret == Failure ==> r.list == pList && r.store == s
    ensures r.ret == Success ==>
      && r.store.Keys == s.Keys
      && r.list.Points? && r.list.to.id == pList.to.id && r.list.to.tail == pList.to.tail
      && r.list.to.size == pList.to.size + 1
      && r.store[pNewNode.to].owner == Points(pList.to.id)
  {
    if pList.Null? || pNode.Null? || pNewNode.Null? || pList.to.size == 0 || pList.to.size == SIZE_MAX then
      ListResult(Failure, pList, s)
    else
      var l, a, n := pList.to, pNode.to, pNewNode.to;
      var prevNode := s[a].prev;
      var s1 := s[a := s[a].(prev := Points(n))];
      var s2 := s1[n := s1[n].(owner := Points(l.id), next := Points(a), prev := prevNode)];
      if prevNode.Null? then
        ListResult(Success, Points(l.(head := Points(n), size := l.size + 1)), s2)
      else
        var s3 := s2[prevNode.to := s2[prevNode.to].(next := Points(n))];
        ListResult(Success, Points(l.(size := l.size + 1)), s3)
  }

  /** InsertHead on a valid list links [new] + xs. */
  lemma InsertHeadValid(l: List, s: Store, xs: seq<NodeId>, n: NodeId)
    requires Valid(l, s, xs) && n in s && n !in xs && l.size < SIZE_MAX
    ensures var r := InsertHead(Points(l), s, Points(n));
      r.ret == Success && Valid(r.list.to, r.store, [n] + xs) && Others(s, r.store, [n] + xs)
  {
    var r := InsertHead(Points(l), s, Points(n));
    var l', s', ys := r.list.to, r.store, [n] + xs;
    if |xs| > 0 { assert LinkedAt(l, s, xs, 0); }
    forall i | 0 <= i < |ys|
      ensures LinkedAt(l', s', ys, i)
    {
      if i > 0 {
        assert ys[i] == xs[i - 1] && LinkedAt(l, s, xs, i - 1);
        if i > 1 { assert xs[i - 1] != xs[0]; }
      }
    }
  }

  /** InsertTail on a valid list links xs + [new]. */
  lemma InsertTailValid(l: List, s: Store, xs: seq<NodeId>, n: NodeId)
    requires Valid(l, s, xs) && n in s && n !in xs && l.size < SIZE_MAX
    ensures var r := InsertTail(Points(l), s, Points(n));
      r.ret == Success && Valid(r.list.to, r.store, xs + [n]) && Others(s, r.store, xs + [n])
  {
    var r := InsertTail(Points(l), s, Points(n));
    var l', s', ys := r.list.to, r.store, xs + [n];
    var m := |xs|;
    if m > 0 { assert LinkedAt(l, s, xs, m - 1); }
    forall i | 0 <= i < |ys|
      ensures LinkedAt(l', s', ys, i)
    {
      if i < m {
        assert ys[i] == xs[i] && LinkedAt(l, s, xs, i);
        if i < m - 1 { assert xs[i] != xs[m - 1]; }
      }
    }
  }

  /** The store after InsertNext after xs[k]: the anchor points forward to
      the new node, the new node sits between the anchor and its old
      successor, the successor points back to the new node; nothing else
      changes. */
  lemma InsertNextStore(l: List, s: Store, xs: seq<NodeId>, k: nat, n: NodeId)
    requires Valid(l, s, xs) && k < |xs| && n in s && n !in xs && l.size < SIZE_MAX
    ensures var r := InsertNext(Points(l), s, Points(xs[k]), Points(n));
      && r.ret == Success && r.store.Keys == s.Keys
      && r.list == Points(l.(size := l.size + 1, tail := if k == |xs| - 1 then Points(n) else l.tail))
      && r.store[xs[k]] == s[xs[k]].(next := Points(n))
      && r.store[n] == Node(Points(xs[k]), s[xs[k]].next, Points(l.id))
      && (k + 1 < |xs| ==> r.store[xs[k + 1]] == s[xs[k + 1]].(prev := Points(n)))
      && forall m {:trigger r.store[m]} :: m in s && m != xs[k] && m != n && (k + 1 < |xs| ==> m != xs[k + 1]) ==> r.store[m] == s[m]
  {
    assert LinkedAt(l, s, xs, k);
    if k + 1 < |xs| { assert xs[k + 1] != xs[k] && LinkedAt(l, s, xs, k + 1); }
  }

  /** InsertNext after the member xs[k] links xs[..k+1] + [new] + xs[k+1..]. */
  lemma InsertNextValid(l: List, s: Store, xs: seq<NodeId>, k: nat, n: NodeId)
    requires Valid(l, s, xs) && k < |xs| && n in s && n !in xs && l.size < SIZE_MAX
    ensures var r := InsertNext(Points(l), s, Points(xs[k]), Points(n));
      var ys := xs[..k + 1] + [n] + xs[k + 1..];
      r.ret == Success && Valid(r.list.to, r.store, ys) && Others(s, r.store, ys)
  {
    InsertNextStore(l, s, xs, k, n);
    var r := InsertNext(Points(l), s, Points(xs[k]), Points(n));
    LinkedAfter(l, s, xs, k, n, r.list.to, r.store);
    InsertedFrame(s, r.store, xs, k + 1, n, k, k + 2);
    InsertedIsSplice(xs, k + 1, n);
  }

  /** A store changed as InsertNextStore describes links xs with n after xs[k]
      (the frame is InsertedFrame's). */
  lemma LinkedAfter(l: List, s: Store, xs: seq<NodeId>, k: nat, n: NodeId, l': List, s': Store)
    requires Valid(l, s, xs) && k < |xs| && n in s && n !in xs && l.size < SIZE_MAX
    requires s'.Keys == s.Keys
    requires l' == l.(size := l.size + 1, tail := if k == |xs| - 1 then Points(n) else l.tail)
    requires s'[xs[k]] == s[xs[k]].(next := Points(n))
    requires s'[n] == Node(Points(xs[k]), s[xs[k]].next, Points(l.id))
    requires k + 1 < |xs| ==> s'[xs[k + 1]] == s[xs[k + 1]].(prev := Points(n))
    requires forall m {:trigger s'[m]} :: m in s && m != xs[k] && m != n && (k + 1 < |xs| ==> m != xs[k + 1]) ==> s'[m] == s[m]
    ensures Valid(l', s', Inserted(xs, k + 1, n))
  {
    var ys := Inserted(xs, k + 1, n);
    assert ys[0] == xs[0];
    assert ys[|ys| - 1] == if k == |xs| - 1 then n else xs[|xs| - 1];
    forall i | 0 <= i < |ys|
      ensures LinkedAt(l', s', ys, i)
    {
      LinkedAfterAt(l, s, xs, k, n, l', s', i);
    }
    InsertedDistinct(xs, k + 1, n);
    ValidIntro(l', s', ys);
  }

  /** One member of the longer list, as LinkedAfter needs it. */
  lemma LinkedAfterAt(l: List, s: Store, xs: seq<NodeId>, k: nat, n: NodeId, l': List, s': Store, i: nat)
    requires Valid(l, s, xs) && k < |xs| && n in s && n !in xs && l.size < SIZE_MAX && i <= |xs|
    requires s'.Keys == s.Keys
    requires l' == l.(size := l.size + 1, tail := if k == |xs| - 1 then Points(n) else l.tail)
    requires s'[xs[k]] == s[xs[k]].(next := Points(n))
    requires s'[n] == Node(Points(xs[k]), s[xs[k]].next, Points(l.id))
    requires k + 1 < |xs| ==> s'[xs[k + 1]] == s[xs[k + 1]].(prev := Points(n))
    requires forall m {:trigger s'[m]} :: m in s && m != xs[k] && m != n && (k + 1 < |xs| ==> m != xs[k + 1]) ==> s'[m] == s[m]
    ensures LinkedAt(l', s', Inserted(xs, k + 1, n), i)
  {
    var ys := Inserted(xs, k + 1, n);
    assert LinkedAt(l, s, xs, k);
    if i < k {
      assert xs[i] != xs[k] && LinkedAt(l, s, xs, i);
      if k + 1 < |xs| { assert xs[i] != xs[k + 1]; }
      assert s'[ys[i]] == s[xs[i]];
    } else if i == k + 2 {
      assert LinkedAt(l, s, xs, k + 1);
    } else if i > k + 2 {
      assert xs[i - 1] != xs[k] && xs[i - 1] != xs[k + 1] && LinkedAt(l, s, xs, i - 1);
      assert s'[ys[i]] == s[xs[i - 1]];
    }
  }


  /** The store after InsertPrev before xs[k], symmetric to InsertNextStore. */
  lemma InsertPrevStore(l: List, s: Store, xs: seq<NodeId>, k: nat, n: NodeId)
    requires Valid(l, s, xs) && k < |xs| && n in s && n !in xs && l.size < SIZE_MAX
    ensures var r := InsertPrev(Points(l), s, Points(xs[k]), Points(n));
      && r.ret == Success && r.store.Keys == s.Keys
      && r.list == Points(l.(size := l.size + 1, head := if k == 0 then Points(n) else l.head))
      && r.store[xs[k]] == s[xs[k]].(prev := Points(n))
      && r.store[n] == Node(s[xs[k]].prev, Points(xs[k]), Points(l.id))
      && (k > 0 ==> r.store[xs[k - 1]] == s[xs[k - 1]].(next := Points(n)))
      && forall m {:trigger r.store[m]} :: m in s && m != xs[k] && m != n && (k > 0 ==> m != xs[k - 1]) ==> r.store[m] == s[m]
  {
    assert LinkedAt(l, s, xs, k);
    if k > 0 { assert xs[k - 1] != xs[k] && LinkedAt(l, s, xs, k - 1); }
  }

  /** InsertPrev before the member xs[k] links xs[..k] + [new] + xs[k..]. */
  lemma InsertPrevValid(l: List, s: Store, xs: seq<NodeId>, k: nat, n: NodeId)
    requires Valid(l, s, xs) && k < |xs| && n in s && n !in xs && l.size < SIZE_MAX
    ensures var r := InsertPrev(Points(l), s, Points(xs[k]), Points(n));
      var ys := xs[..k] + [n] + xs[k..];
      r.ret == Success && Valid(r.list.to, r.store, ys) && Others(s, r.store, ys)
  {
    InsertPrevStore(l, s, xs, k, n);
    var r := InsertPrev(Points(l), s, Points(xs[k]), Points(n));
    LinkedBefore(l, s, xs, k, n, r.list.to, r.store);
    InsertedFrame(s, r.store, xs, k, n, if k > 0 then k - 1 else k, k + 1);
    InsertedIsSplice(xs, k, n);
  }

  /** A store changed as InsertPrevStore describes links xs with n before xs[k]
      (the frame is InsertedFrame's). */
  lemma LinkedBefore(l: List, s: Store, xs: seq<NodeId>, k: nat, n: NodeId, l': List, s': Store)
    requires Valid(l, s, xs) && k < |xs| && n in s && n !in xs && l.size < SIZE_MAX
    requires s'.Keys == s.Keys
    requires l' == l.(size := l.size + 1, head := if k == 0 then Points(n) else l.head)
    requires s'[xs[k]] == s[xs[k]].(prev := Points(n))
    requires s'[n] == Node(s[xs[k]].prev, Points(xs[k]), Points(l.id))
    requires k > 0 ==> s'[xs[k - 1]] == s[xs[k - 1]].(next := Points(n))
    requires forall m {:trigger s'[m]} :: m in s && m != xs[k] && m != n && (k > 0 ==> m != xs[k - 1]) ==> s'[m] == s[m]
    ensures Valid(l', s', Inserted(xs, k, n))
  {
    var ys := Inserted(xs, k, n);
    assert ys[0] == if k == 0 then n else xs[0];
    assert ys[|ys| - 1] == xs[|xs| - 1];
    forall i | 0 <= i < |ys|
      ensures LinkedAt(l', s', ys, i)
    {
      LinkedBeforeAt(l, s, xs, k, n, l', s', i);
    }
    InsertedDistinct(xs, k, n);
    ValidIntro(l', s', ys);
  }

  /** One member of the longer list, as LinkedBefore needs it. */
  lemma LinkedBeforeAt(l: List, s: Store, xs: seq<NodeId>, k: nat, n: NodeId, l': List, s': Store, i: nat)
    requires Valid(l, s, xs) && k < |xs| && n in s && n !in xs && l.size < SIZE_MAX && i <= |xs|
    requires s'.Keys == s.Keys
    requires l' == l.(size := l.size + 1, head := if k == 0 then Points(n) else l.head)
    requires s'[xs[k]] == s[xs[k]].(prev := Points(n))
    requires s'[n] == Node(s[xs[k]].prev, Points(xs[k]), Points(l.id))
    requires k > 0 ==> s'[xs[k - 1]] == s[xs[k - 1]].(next := Points(n))
    requires forall m {:trigger s'[m]} :: m in s && m != xs[k] && m != n && (k > 0 ==> m != xs[k - 1]) ==> s'[m] == s[m]
    ensures LinkedAt(l', s', Inserted(xs, k, n), i)
  {
    var ys := Inserted(xs, k, n);
    assert LinkedAt(l, s, xs, k);
    if i < k - 1 {
      assert xs[i] != xs[k] && xs[i] != xs[k - 1] && LinkedAt(l, s, xs, i);
      assert s'[ys[i]] == s[xs[i]];
    } else if i == k - 1 {
      assert LinkedAt(l, s, xs, k - 1);
    } else if i > k + 1 {
      assert xs[i - 1] != xs[k] && LinkedAt(l, s, xs, i - 1);
      if k > 0 { assert xs[i - 1] != xs[k - 1]; }
      assert s'[ys[i]] == s[xs[i - 1]];
    }
  }


  // -------------------------------------------------------------- Remove

  /** ListRemove(pList, pNode), the internal removal: refuses an empty list
      and a node whose back-reference names another list, then unlinks the
      node as the only, head, tail or middle node, clears its links (the
      back-reference stays) and decrements size. */
  function ListRemove(l: List, s: Store, n: NodeId): (r: ListResult)
    requires n in s && Deref(s, s[n].prev) && Deref(s, s[n].next)
    ensures r.ret == Success <==> l.size > 0 && s[n].owner == Points(l.id)
    ensures r.ret == Failure ==> r.list == Points(l) && r.store == s
    ensures r.ret == Success ==>
      && r.store.Keys == s.Keys
      && r.list.Points? && r.list.to.id == l.id && r.list.to.size == l.size - 1
      && r.store[n] == s[n].(prev := Null, next := Null)
  {
    if l.size == 0 || s[n].owner != Points(l.id) then
      ListResult(Failure, Points(l), s)
    else
      var node := s[n];
      var (l1, s1) :=
        if node.prev.Null? && node.next.Null? then
          (l.(head := Null, tail := Null), s)
        else if node.prev.Null? then
          (l.(head := node.next), s[node.next.to := s[node.next.to].(prev := Null)])
        else if node.next.Null? then
          (l.(tail := node.prev), s[node.prev.to := s[node.prev.to].(next := Null)])
        else
          var sa := s[node.next.to := s[node.next.to].(prev := s[n].prev)];
          (l, sa[node.prev.to := sa[node.prev.to].(next := sa[n].next)]);
      ListResult(Success, Points(l1.(size := l1.size - 1)), s1[n := s1[n].(next := Null, prev := Null)])
  }

  /** MLibListRemove(pList, pNode): the NULL checks, then ListRemove (the
      spin lock around it has no sequential effect). */
  function Remove(pList: Ptr<List>, s: Store, pNode: Ptr<NodeId>): (r: ListResult)
    requires Deref(s, pNode)
    requires pNode.Points? ==> Deref(s, s[pNode.to].prev) && Deref(s, s[pNode.to].next)
    ensures pList.Null? || pNode.Null? ==> r == ListResult(Failure, pList, s)
    ensures pList.Points? && pNode.Points? ==> r == ListRemove(pList.to, s, pNode.to)
  {
    if pList.Null? || pNode.Null? then ListResult(Failure, pList, s)
    else ListRemove(pList.to, s, pNode.to)
  }

  /** Removing the member xs[k] of a valid list links xs without it; the
      removed node keeps its back-reference and loses its links. */
  lemma ListRemoveValid(l: List, s: Store, xs: seq<NodeId>, k: nat)
    requires Valid(l, s, xs) && k < |xs|
    ensures var r := ListRemove(l, s, xs[k]);
      var ys := xs[..k] + xs[k + 1..];
      && r.ret == Success
      && Valid(r.list.to, r.store, ys)
      && r.store[xs[k]] == Node(Null, Null, Points(l.id))
      && Others(s, r.store, xs)
  {
    ListRemoveStore(l, s, xs, k);
    var r := ListRemove(l, s, xs[k]);
    Unlinked(l, s, xs, k, r.list.to, r.store);
    WithoutIsSplice(xs, k);
  }

  /** The store after ListRemove of the member xs[k]: its neighbours are
      joined, its own links are cleared, nothing else changes. */
  lemma ListRemoveStore(l: List, s: Store, xs: seq<NodeId>, k: nat)
    requires Valid(l, s, xs) && k < |xs|
    ensures var r := ListRemove(l, s, xs[k]);
      && r.ret == Success && r.store.Keys == s.Keys
      && r.list == Points(l.(size := l.size - 1,
                             head := if k == 0 then s[xs[k]].next else l.head,
                             tail := if k == |xs| - 1 then s[xs[k]].prev else l.tail))
      && r.store[xs[k]] == s[xs[k]].(prev := Null, next := Null)
      && (k > 0 ==> r.store[xs[k - 1]] == s[xs[k - 1]].(next := s[xs[k]].next))
      && (k + 1 < |xs| ==> r.store[xs[k + 1]] == s[xs[k + 1]].(prev := s[xs[k]].prev))
      && forall m {:trigger r.store[m]} :: m in s && m != xs[k] && (k > 0 ==> m != xs[k - 1]) && (k + 1 < |xs| ==> m != xs[k + 1]) ==>
           r.store[m] == s[m]
  {
    assert LinkedAt(l, s, xs, k);
    if k > 0 { assert xs[k - 1] != xs[k] && LinkedAt(l, s, xs, k - 1); }
    if k + 1 < |xs| { assert xs[k + 1] != xs[k] && LinkedAt(l, s, xs, k + 1); }
    if 0 < k < |xs| - 1 { assert xs[k - 1] != xs[k + 1]; }
  }

  /** A store changed as ListRemoveStore describes links xs without xs[k]. */
  lemma Unlinked(l: List, s: Store, xs: seq<NodeId>, k: nat, l': List, s': Store)
    requires Valid(l, s, xs) && k < |xs|
    requires s'.Keys == s.Keys
    requires l' == l.(size := l.size - 1,
                      head := if k == 0 then s[xs[k]].next else l.head,
                      tail := if k == |xs| - 1 then s[xs[k]].prev else l.tail)
    requires s'[xs[k]] == s[xs[k]].(prev := Null, next := Null)
    requires k > 0 ==> s'[xs[k - 1]] == s[xs[k - 1]].(next := s[xs[k]].next)
    requires k + 1 < |xs| ==> s'[xs[k + 1]] == s[xs[k + 1]].(prev := s[xs[k]].prev)
    requires forall m {:trigger s'[m]} :: m in s && m != xs[k] && (k > 0 ==> m != xs[k - 1]) && (k + 1 < |xs| ==> m != xs[k + 1]) ==>
      s'[m] == s[m]
    ensures Valid(l', s', Without(xs, k)) && s'[xs[k]] == Node(Null, Null, Points(l.id)) && Others(s, s', xs)
  {
    var ys := Without(xs, k);
    assert LinkedAt(l, s, xs, k);
    forall i | 0 <= i < |ys|
      ensures LinkedAt(l', s', ys, i)
    {
      UnlinkedAt(l, s, xs, k, l', s', i);
    }
    WithoutDistinct(xs, k);
    ValidIntro(l', s', ys);
  }

  /** One member of the shortened list, as Unlinked needs it. */
  lemma UnlinkedAt(l: List, s: Store, xs: seq<NodeId>, k: nat, l': List, s': Store, i: nat)
    requires Valid(l, s, xs) && k < |xs| && i < |xs| - 1 && s'.Keys == s.Keys
    requires l' == l.(size := l.size - 1,
                      head := if k == 0 then s[xs[k]].next else l.head,
                      tail := if k == |xs| - 1 then s[xs[k]].prev else l.tail)
    requires k > 0 ==> s'[xs[k - 1]] == s[xs[k - 1]].(next := s[xs[k]].next)
    requires k + 1 < |xs| ==> s'[xs[k + 1]] == s[xs[k + 1]].(prev := s[xs[k]].prev)
    requires forall m {:trigger s'[m]} :: m in s && m != xs[k] && (k > 0 ==> m != xs[k - 1]) && (k + 1 < |xs| ==> m != xs[k + 1]) ==>
      s'[m] == s[m]
    ensures LinkedAt(l', s', Without(xs, k), i)
  {
    var ys := Without(xs, k);
    if i < k - 1 {
      assert xs[i] != xs[k] && xs[i] != xs[k - 1];
      if k + 1 < |xs| { assert xs[i] != xs[k + 1]; }
      assert LinkedAt(l, s, xs, i);
      assert ys[i + 1] == xs[i + 1];
    } else if i == k - 1 {
      assert LinkedAt(l, s, xs, i) && LinkedAt(l, s, xs, k);
    } else if i == k {
      assert LinkedAt(l, s, xs, k + 1) && LinkedAt(l, s, xs, k);
    } else {
      assert xs[i + 1] != xs[k] && xs[i + 1] != xs[k + 1];
      if k > 0 { assert xs[i + 1] != xs[k - 1]; }
      assert LinkedAt(l, s, xs, i + 1);
    }
  }

  /** The membership test is only the back-reference, which removal leaves
      in place: removing a node a second time from a list of three or more
      passes both checks, reports success, and leaves a non-empty size with
      a NULL head. */
  lemma StaleOwnerPassesCheck(l: List, s: Store, xs: seq<NodeId>, k: nat)
    requires Valid(l, s, xs) && k < |xs| && |xs| >= 3
    ensures var r1 := ListRemove(l, s, xs[k]);
      var r2 := ListRemove(r1.list.to, r1.store, xs[k]);
      && r1.ret == Success && xs[k] !in xs[..k] + xs[k + 1..]
      && r2.ret == Success && r2.list.to.head == Null && r2.list.to.size == |xs| - 2 > 0
  {
    ListRemoveValid(l, s, xs, k);
    var ys := xs[..k] + xs[k + 1..];
    assert forall i :: 0 <= i < k ==> ys[i] == xs[i];
    assert forall i :: k <= i < |ys| ==> ys[i] == xs[i + 1];
  }

  datatype TakeResult = TakeResult(node: Ptr<NodeId>, list: Ptr<List>, store: Store)

  /** MLibListRemoveHead(pList): detach and return the head node, NULL when
      the list is empty. */
  function RemoveHead(pList: Ptr<List>, s: Store): (r: TakeResult)
    requires pList.Points? ==> Deref(s, pList.to.head)
    requires pList.Points? && pList.to.head.Points? ==> Deref(s, s[pList.to.head.to].next)
    ensures pList.Null? || pList.to.head.Null? ==> r == TakeResult(Null, pList, s)
    ensures r.node.Points? ==>
      && pList.Points? && r.node == pList.to.head
      && r.store.Keys == s.Keys
      && r.list.Points? && r.list.to.id == pList.to.id
      && r.list.to.head == s[r.node.to].next && r.list.to.size == DecSize(pList.to.size)
      && r.store[r.node.to] == s[r.node.to].(prev := Null, next := Null)
  {
    if pList.Null? || pList.to.head.Null? then TakeResult(Null, pList, s)
    else
      var l, n := pList.to, pList.to.head.to;
      var nx := s[n].next;
      var (l1, s1) :=
        if nx.Null? then (l.(head := nx, tail := Null), s)
        else (l.(head := nx), s[nx.to := s[nx.to].(prev := Null)]);
      TakeResult(Points(n), Points(l1.(size := DecSize(l1.size))), s1[n := s1[n].(next := Null, prev := Null)])
  }

  /** MLibListRemoveTail(pList): detach and return the tail node, NULL when
      the list is empty. */
  function RemoveTail(pList: Ptr<List>, s: Store): (r: TakeResult)
    requires pList.Points? ==> Deref(s, pList.to.tail)
    requires pList.Points? && pList.to.tail.Points? ==> Deref(s, s[pList.to.tail.to].prev)
    ensures pList.Null? || pList.to.tail.Null? ==> r == TakeResult(Null, pList, s)
    ensures r.node.Points? ==>
      && pList.Points? && r.node == pList.to.tail
      && r.store.Keys == s.Keys
      && r.list.Points? && r.list.to.id == pList.to.id
      && r.list.to.tail == s[r.node.to].prev && r.list.to.size == DecSize(pList.to.size)
      && r.store[r.node.to] == s[r.node.to].(prev := Null, next := Null)
  {
    if pList.Null? || pList.to.tail.Null? then TakeResult(Null, pList, s)
    else
      var l, n := pList.to, pList.to.tail.to;
      var pv := s[n].prev;
      var (l1, s1) :=
        if pv.Null? then (l.(tail := pv, head := Null), s)
        else (l.(tail := pv), s[pv.to := s[pv.to].(next := Null)]);
      TakeResult(Points(n), Points(l1.(size := DecSize(l1.size))), s1[n := s1[n].(next := Null, prev := Null)])
  }

  /** On a valid non-empty list, RemoveHead detaches the head exactly as
      ListRemove does, and RemoveTail the tail. */
  lemma RemoveEndsAreRemove(l: List, s: Store, xs: seq<NodeId>)
    requires Valid(l, s, xs) && |xs| > 0
    ensures var h, r := RemoveHead(Points(l), s), ListRemove(l, s, xs[0]);
      h.node == Points(xs[0]) && h.list == r.list && h.store == r.store
    ensures var t, r := RemoveTail(Points(l), s), ListRemove(l, s, xs[|xs| - 1]);
      t.node == Points(xs[|xs| - 1]) && t.list == r.list && t.store == r.store
  {
    assert LinkedAt(l, s, xs, 0) && LinkedAt(l, s, xs, |xs| - 1);
  }

  /** RemoveHead on a valid list returns its first node and links the rest;
      on an empty one it returns NULL. */
  lemma RemoveHeadValid(l: List, s: Store, xs: seq<NodeId>)
    requires Valid(l, s, xs)
    ensures var r := RemoveHead(Points(l), s);
      && (|xs| == 0 ==> r.node.Null?)
      && (|xs| > 0 ==>
            && r.node == Points(xs[0])
            && Valid(r.list.to, r.store, xs[1..])
            && r.store[xs[0]] == Node(Null, Null, Points(l.id))
            && Others(s, r.store, xs))
  {
    if |xs| > 0 {
      RemoveEndsAreRemove(l, s, xs);
      ListRemoveStore(l, s, xs, 0);
      var r := ListRemove(l, s, xs[0]);
      Unlinked(l, s, xs, 0, r.list.to, r.store);
      assert Without(xs, 0) == xs[1..];
    }
  }

  /** RemoveTail on a valid list returns its last node and links the rest;
      on an empty one it returns NULL. */
  lemma RemoveTailValid(l: List, s: Store, xs: seq<NodeId>)
    requires Valid(l, s, xs)
    ensures var r := RemoveTail(Points(l), s);
      && (|xs| == 0 ==> r.node.Null?)
      && (|xs| > 0 ==>
            && r.node == Points(xs[|xs| - 1])
            && Valid(r.list.to, r.store, xs[..|xs| - 1])
            && r.store[xs[|xs| - 1]] == Node(Null, Null, Points(l.id))
            && Others(s, r.store, xs))
  {
    if |xs| > 0 {
      var m := |xs| - 1;
      RemoveEndsAreRemove(l, s, xs);
      ListRemoveStore(l, s, xs, m);
      var r := ListRemove(l, s, xs[m]);
      Unlinked(l, s, xs, m, r.list.to, r.store);
      assert Without(xs, m) == xs[..m];
    }
  }

  // -------------------------------------------------------------- Search

  /** MLIB_LIST_GET / MLIB_LIST_REMOVE. */
  datatype SearchMethod = SearchGet | SearchRemove

  /** calls is an initial part of xs. */
  predicate Prefix(calls: seq<NodeId>, xs: seq<NodeId>)
  {
    |calls| <= |xs| && forall j :: 0 <= j < |calls| ==> calls[j] == xs[j]
  }

  /** The forward links of xs as a walk from the head follows them. */
  predicate Chain(s: Store, xs: seq<NodeId>)
  {
    && (forall i :: 0 <= i < |xs| ==> xs[i] in s)
    && (forall i {:trigger s[xs[i]]} :: 0 <= i < |xs| ==>
          s[xs[i]].next == if i + 1 < |xs| then Points(xs[i + 1]) else Null)
  }

  lemma ValidChain(l: List, s: Store, xs: seq<NodeId>)
    requires Valid(l, s, xs)
    ensures Chain(s, xs)
  {
    forall i | 0 <= i < |xs|
      ensures s[xs[i]].next == if i + 1 < |xs| then Points(xs[i + 1]) else Null
    {
      assert LinkedAt(l, s, xs, i);
    }
  }

  /** The loop of MLibListSearchHead: starting at `node`, the first of xs,
      offer each node along the next links to the callback and stop at the
      first one in `accepted`. */
  method Walk(s: Store, xs: seq<NodeId>, node: Ptr<NodeId>, accepted: set<NodeId>)
    returns (found: Ptr<NodeId>, calls: seq<NodeId>)
    requires Chain(s, xs)
    requires node == if |xs| == 0 then Null else Points(xs[0])
    ensures Prefix(calls, xs)
    ensures found.Null? ==> |calls| == |xs| && forall i :: 0 <= i < |xs| ==> xs[i] !in accepted
    ensures found.Points? ==>
      && 0 < |calls| && found.to == calls[|calls| - 1] && found.to in accepted
      && forall i :: 0 <= i < |calls| - 1 ==> calls[i] !in accepted
  {
    var cur := node;
    calls := [];
    while cur.Points?
      invariant |calls| <= |xs| && Prefix(calls, xs)
      invariant cur == if |calls| < |xs| then Points(xs[|calls|]) else Null
      invariant forall j :: 0 <= j < |calls| ==> calls[j] !in accepted
      decreases |xs| - |calls|
    {
      var i := |calls|;
      calls := calls + [cur.to];
      if cur.to in accepted {
        return cur, calls;
      }
      assert s[xs[i]].next == if i + 1 < |xs| then Points(xs[i + 1]) else Null;
      cur := s[cur.to].next;
    }
    return Null, calls;
  }

  /** MLibListSearchHead(pList, pCallback, pParam, method): call the callback
      on the nodes from the head on, following the next links, and return the
      first node it accepts, detaching it with MLibListRemove when asked to.
      The callback with its parameter is a pure test of the node, given as
      the set of nodes it accepts (NULL for a NULL callback); `calls`
      records the nodes it was called on, in order. */
  method SearchHead(pList: Ptr<List>, s: Store, xs: seq<NodeId>,
                    pCallback: Ptr<set<NodeId>>, how: SearchMethod)
    returns (found: Ptr<NodeId>, l': Ptr<List>, s': Store, calls: seq<NodeId>)
    requires pList.Points? ==> Valid(pList.to, s, xs)
    ensures pList.Null? || pCallback.Null? ==> found == Null && l' == pList && s' == s && calls == []
    ensures found.Null? ==> l' == pList && s' == s
    ensures Prefix(calls, xs)
    ensures found.Null? && pList.Points? && pCallback.Points? ==>
      |calls| == |xs| && forall i :: 0 <= i < |xs| ==> xs[i] !in pCallback.to
    ensures found.Points? ==>
      && pList.Points? && pCallback.Points? && 0 < |calls|
      && found.to == calls[|calls| - 1] && found.to in pCallback.to
      && (forall i :: 0 <= i < |calls| - 1 ==> calls[i] !in pCallback.to)
      && (how == SearchGet ==> l' == pList && s' == s)
      && (how == SearchRemove ==>
            var k := |calls| - 1;
            var r := ListRemove(pList.to, s, xs[k]);
            l' == r.list && s' == r.store && Valid(r.list.to, r.store, xs[..k] + xs[k + 1..]))
  {
    if pList.Null? || pCallback.Null? {
      return Null, pList, s, [];
    }
    ValidChain(pList.to, s, xs);
    found, calls := Walk(s, xs, pList.to.head, pCallback.to);
    l', s' := pList, s;
    if found.Points? && how == SearchRemove {
      var k := |calls| - 1;
      assert xs[k] == found.to;
      ListRemoveValid(pList.to, s, xs, k);
      var r := Remove(pList, s, found);
      l', s' := r.list, r.store;
    }
  }
}
