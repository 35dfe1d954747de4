/** The delimiter splitter (src/Split/SplitInit.c, src/Split/SplitGet.c).

    MLibSplitInitByDelimiter copies the input into one buffer in which every
    delimiter, and the end, is replaced by a NUL, and records where each
    piece starts; Get, GetNext and GetNum read the pieces back. The model
    keeps the buffer (`strs`) and the start offsets (`starts`) and reads a
    piece back as the C string at its offset (CStr). A `char *` the library
    hands out is modelled as its offset in `strs`. */
module Split {
  import opened MLibTypes

  const NUL: char := '\0'

  /** Reading pStr[0 .. length) up to the first NUL stays inside str. */
  predicate Readable(str: string, length: nat)
  {
    length <= |str| || NUL in str
  }

  /** Length of the effective input: length characters, cut at the first NUL. */
  function EffLen(str: string, length: nat): (n: nat)
    requires Readable(str, length)
    ensures n <= length && n <= |str|
    ensures forall i :: 0 <= i < n ==> str[i] != NUL
    ensures n == length || (n < |str| && str[n] == NUL)
    decreases length
  {
    if length == 0 || str[0] == NUL then 0
    else
      var m := EffLen(str[1..], length - 1);
      assert forall i :: 1 <= i < m + 1 ==> str[i] == str[1..][i - 1];
      1 + m
  }

  /** The characters the splitter works on. */
  function Effective(str: string, length: nat): string
    requires Readable(str, length)
  {
    str[..EffLen(str, length)]
  }

  /** Number of delimiters in s. */
  function Count(s: string, d: char): (c: nat)
    ensures c <= |s|
  {
    if |s| == 0 then 0 else Count(s[..|s| - 1], d) + (if s[|s| - 1] == d then 1 else 0)
  }

  /** s with every delimiter replaced by a NUL: the buffer before its final NUL. */
  function Mask(s: string, d: char): string
  {
    if |s| == 0 then [] else Mask(s[..|s| - 1], d) + [if s[|s| - 1] == d then NUL else s[|s| - 1]]
  }

  /** Offsets at which the pieces of s start in the buffer: 0, and one past
      every delimiter. */
  function DelimStarts(s: string, d: char): seq<nat>
  {
    if |s| == 0 then [0]
    else DelimStarts(s[..|s| - 1], d) + (if s[|s| - 1] == d then [|s|] else [])
  }

  /** Reference split: the maximal delimiter-free runs of s, in order. */
  function SplitOn(s: string, d: char): (r: seq<string>)
    ensures |r| >= 1
  {
    if |s| == 0 then [[]]
    else
      var r0 := SplitOn(s[..|s| - 1], d);
      var c := s[|s| - 1];
      if c == d then r0 + [[]] else Extend(r0, [c])
  }

  /** ps with text p appended to its last piece. */
  function Extend(ps: seq<string>, p: string): (r: seq<string>)
    requires |ps| >= 1
    ensures |r| == |ps|
  {
    ps[..|ps| - 1] + [ps[|ps| - 1] + p]
  }

  /** The pieces put back together with the delimiter between them. */
  function Join(ps: seq<string>, d: char): string
    requires |ps| >= 1
  {
    if |ps| == 1 then ps[0] else Join(ps[..|ps| - 1], d) + [d] + ps[|ps| - 1]
  }

  /** The C string at offset start of buf: up to the first NUL. */
  function CStr(buf: string, start: nat): string
    decreases |buf| - start
  {
    if start >= |buf| || buf[start] == NUL then [] else [buf[start]] + CStr(buf, start + 1)
  }

  /** MLibSplit_t: the piece count, the GetNext cursor, the piece pointer
      array (as offsets) and the piece buffer. */
  datatype Handle = Handle(num: uint32, idx: uint32, starts: seq<nat>, strs: string)

  /** The pointer array holds num pieces and the cursor is within them. */
  predicate Valid(h: Handle)
  {
    |h.starts| == h.num && h.idx <= h.num
  }

  /** The pieces as the library hands them out. */
  function Pieces(h: Handle): seq<string>
  {
    seq(|h.starts|, n requires 0 <= n < |h.starts| => CStr(h.strs, h.starts[n]))
  }

  // ---------------------------------------------------------------------
  // Properties of the reference split

  /** Splitting and joining again gives the input back. */
  lemma {:induction false} SplitJoin(s: string, d: char)
    ensures Join(SplitOn(s, d), d) == s
    decreases |s|
  {
    if |s| > 0 {
      var s0, c := s[..|s| - 1], s[|s| - 1];
      var r0 := SplitOn(s0, d);
      SplitJoin(s0, d);
      assert s == s0 + [c];
      if c != d {
        JoinSnoc(r0, c, d);
        assert SplitOn(s, d) == Extend(r0, [c]);
      }
    }
  }

  /** Appending a character to the last piece appends it to the join. */
  lemma JoinSnoc(ps: seq<string>, c: char, d: char)
    requires |ps| >= 1
    ensures Join(Extend(ps, [c]), d) == Join(ps, d) + [c]
  {
    var qs := Extend(ps, [c]);
    if |ps| > 1 {
      assert qs[..|qs| - 1] == ps[..|ps| - 1];
    }
  }

  /** There is one piece more than there are delimiters. */
  lemma {:induction false} SplitCount(s: string, d: char)
    ensures |SplitOn(s, d)| == Count(s, d) + 1
    decreases |s|
  {
    if |s| > 0 {
      SplitCount(s[..|s| - 1], d);
    }
  }

  /** No piece contains the delimiter, and no piece contains a character
      the input does not. */
  lemma {:induction false} SplitClean(s: string, d: char)
    ensures forall n :: 0 <= n < |SplitOn(s, d)| ==> d !in SplitOn(s, d)[n]
    ensures forall n, c :: 0 <= n < |SplitOn(s, d)| && c in SplitOn(s, d)[n] ==> c in s
    decreases |s|
  {
    if |s| > 0 {
      var s0, c := s[..|s| - 1], s[|s| - 1];
      SplitClean(s0, d);
      var r0 := SplitOn(s0, d);
      assert s == s0 + [c];
      if c != d {
        var r := SplitOn(s, d);
        forall n | 0 <= n < |r| ensures d !in r[n] && forall x :: x in r[n] ==> x in s {
          if n < |r0| - 1 {
            assert r[n] == r0[n];
          } else {
            assert r[n] == r0[|r0| - 1] + [c];
          }
        }
      }
    }
  }

  /** Appending a character other than the delimiter extends the last piece. */
  lemma SplitSnoc(s: string, c: char, d: char)
    requires c != d
    ensures SplitOn(s + [c], d) == Extend(SplitOn(s, d), [c])
  {
    assert (s + [c])[..|s|] == s;
  }

  /** Extending twice is extending by both texts. */
  lemma ExtendTwice(ps: seq<string>, p: string, q: string)
    requires |ps| >= 1
    ensures Extend(Extend(ps, p), q) == Extend(ps, p + q)
  {
    assert ps[|ps| - 1] + p + q == ps[|ps| - 1] + (p + q);
  }

  /** Appending delimiter-free text extends the last piece. */
  lemma {:induction false} SplitAppendClean(s: string, p: string, d: char)
    requires forall i :: 0 <= i < |p| ==> p[i] != d
    ensures SplitOn(s + p, d) == Extend(SplitOn(s, d), p)
    decreases |p|
  {
    var r := SplitOn(s, d);
    if |p| == 0 {
      assert s + p == s;
      assert r[|r| - 1] + p == r[|r| - 1];
      assert r[..|r| - 1] + [r[|r| - 1]] == r;
    } else {
      var p0, c := p[..|p| - 1], p[|p| - 1];
      assert p == p0 + [c];
      SplitAppendClean(s, p0, d);
      assert s + p == (s + p0) + [c];
      SplitSnoc(s + p0, c, d);
      ExtendTwice(r, p0, [c]);
    }
  }

  /** Appending the delimiter starts a new, empty piece. */
  lemma SplitDelim(s: string, d: char)
    ensures SplitOn(s + [d], d) == SplitOn(s, d) + [[]]
  {
    assert (s + [d])[..|s|] == s;
  }

  /** Extending a new empty piece by p gives the piece p. */
  lemma ExtendEmpty(ps: seq<string>, p: string)
    ensures Extend(ps + [[]], p) == ps + [p]
  {
    assert [] + p == p;
  }

  /** A delimiter-free text is one piece. */
  lemma SplitOne(p: string, d: char)
    requires d !in p
    ensures SplitOn(p, d) == [p]
  {
    assert forall i :: 0 <= i < |p| ==> p[i] in p;
    SplitAppendClean([], p, d);
    assert [] + p == p;
    ExtendEmpty([], p);
  }

  /** Joining delimiter-free pieces and splitting again gives the pieces back. */
  lemma {:induction false} JoinSplit(ps: seq<string>, d: char)
    requires |ps| >= 1
    requires forall n :: 0 <= n < |ps| ==> d !in ps[n]
    ensures SplitOn(Join(ps, d), d) == ps
    decreases |ps|
  {
    if |ps| == 1 {
      SplitOne(ps[0], d);
    } else {
      var init, last := ps[..|ps| - 1], ps[|ps| - 1];
      JoinSplit(init, d);
      SplitDelim(Join(init, d), d);
      assert forall i :: 0 <= i < |last| ==> last[i] in last;
      SplitAppendClean(Join(init, d) + [d], last, d);
      ExtendEmpty(init, last);
      assert ps == init + [last];
    }
  }

  // ---------------------------------------------------------------------
  // Layout of the buffer

  /** Piece p is stored at offset st of buf and ended by a NUL. */
  predicate Laid(buf: string, st: nat, p: string)
  {
    && st + |p| < |buf|
    && (forall i :: 0 <= i < |p| ==> buf[st + i] == p[i])
    && buf[st + |p|] == NUL
  }

  /** A NUL-free piece laid out at an offset is the C string there. */
  lemma {:induction false} LaidCStr(buf: string, st: nat, p: string)
    requires Laid(buf, st, p)
    requires NUL !in p
    ensures CStr(buf, st) == p
    decreases |p|
  {
    if |p| > 0 {
      assert p[0] in p;
      assert Laid(buf, st + 1, p[1..]) by {
        forall i | 0 <= i < |p[1..]| ensures buf[st + 1 + i] == p[1..][i] {
          assert buf[st + (i + 1)] == p[i + 1];
        }
      }
      assert NUL !in p[1..] by { assert forall x :: x in p[1..] ==> x in p; }
      LaidCStr(buf, st + 1, p[1..]);
      assert p == [p[0]] + p[1..];
    }
  }

  /** A piece laid out before position k stays laid out in a buffer that
      agrees on the first k characters. */
  lemma LaidAgree(a: string, b: string, k: nat, st: nat, p: string)
    requires Laid(a, st, p) && st + |p| < k <= |a| && k <= |b| && a[..k] == b[..k]
    ensures Laid(b, st, p)
  {
    forall j | st <= j <= st + |p| ensures b[j] == a[j] {
      assert a[..k][j] == b[..k][j];
    }
  }

  /** The shape of the buffer for input s: every piece laid out at its start
      offset, every piece but the last ended by a delimiter inside s, the
      last one ended by the final NUL. */
  predicate Layout(s: string, d: char)
  {
    var buf, st, ps := Mask(s, d) + [NUL], DelimStarts(s, d), SplitOn(s, d);
    && |st| == |ps|
    && (forall n :: 0 <= n < |ps| ==> Laid(buf, st[n], ps[n]))
    && (forall n :: 0 <= n < |ps| - 1 ==> st[n] + |ps[n]| < |s|)
    && st[|ps| - 1] + |ps[|ps| - 1]| == |s|
  }

  /** Mask keeps the length. */
  lemma {:induction false} MaskLength(s: string, d: char)
    ensures |Mask(s, d)| == |s|
    decreases |s|
  {
    if |s| > 0 {
      MaskLength(s[..|s| - 1], d);
    }
  }

  /** Layout holds for every input. */
  lemma {:induction false} LayoutHolds(s: string, d: char)
    ensures Layout(s, d)
    decreases |s|
  {
    if |s| > 0 {
      var s0, c := s[..|s| - 1], s[|s| - 1];
      LayoutHolds(s0, d);
      if c == d {
        LayoutDelim(s0, d);
        assert s0 + [c] == s;
      } else {
        LayoutChar(s0, c, d);
        assert s0 + [c] == s;
      }
    }
  }

  /** Layout step for a delimiter: a new empty piece starts after it. */
  lemma LayoutDelim(s: string, d: char)
    requires Layout(s, d)
    ensures Layout(s + [d], d)
  {
    var t := s + [d];
    assert t[..|t| - 1] == s;
    MaskLength(s, d);
    var a, b := Mask(s, d) + [NUL], Mask(t, d) + [NUL];
    assert b == Mask(s, d) + [NUL] + [NUL];
    var st, ps := DelimStarts(s, d), SplitOn(s, d);
    assert DelimStarts(t, d) == st + [|t|];
    assert SplitOn(t, d) == ps + [[]];
    forall n | 0 <= n < |ps| ensures Laid(b, st[n], ps[n]) {
      assert a[..|a|] == b[..|a|];
      LaidAgree(a, b, |a|, st[n], ps[n]);
    }
  }

  /** Layout step for another character: it extends the last piece. */
  lemma LayoutChar(s: string, c: char, d: char)
    requires Layout(s, d) && c != d
    ensures Layout(s + [c], d)
  {
    var t := s + [c];
    assert t[..|t| - 1] == s;
    MaskLength(s, d);
    var a, b := Mask(s, d) + [NUL], Mask(t, d) + [NUL];
    assert b == Mask(s, d) + [c] + [NUL];
    var st, ps := DelimStarts(s, d), SplitOn(s, d);
    var m := |ps|;
    var ps' := SplitOn(t, d);
    assert DelimStarts(t, d) == st;
    assert ps' == ps[..m - 1] + [ps[m - 1] + [c]];
    forall n | 0 <= n < m - 1 ensures Laid(b, st[n], ps'[n]) {
      assert a[..|s|] == b[..|s|];
      LaidAgree(a, b, |s|, st[n], ps[n]);
    }
    LayoutCharLast(s, c, d, a, b, st[m - 1], ps[m - 1]);
  }

  /** The last piece, extended by c, is laid out in the new buffer. */
  lemma LayoutCharLast(s: string, c: char, d: char, a: string, b: string, st: nat, p: string)
    requires a == Mask(s, d) + [NUL] && b == Mask(s, d) + [c] + [NUL] && |Mask(s, d)| == |s|
    requires Laid(a, st, p) && st + |p| == |s|
    ensures Laid(b, st, p + [c])
  {
    forall i | 0 <= i < |p| + 1 ensures b[st + i] == (p + [c])[i] {
      if i < |p| {
        assert b[st + i] == a[st + i];
      }
    }
  }

  /** The pieces the buffer holds, read as C strings, are the reference
      split of a NUL-free input. */
  lemma LayoutPieces(s: string, d: char)
    requires NUL !in s
    ensures |DelimStarts(s, d)| == |SplitOn(s, d)|
    ensures forall n :: 0 <= n < |SplitOn(s, d)| ==> CStr(Mask(s, d) + [NUL], DelimStarts(s, d)[n]) == SplitOn(s, d)[n]
  {
    LayoutHolds(s, d);
    SplitClean(s, d);
    var ps := SplitOn(s, d);
    forall n | 0 <= n < |ps| ensures CStr(Mask(s, d) + [NUL], DelimStarts(s, d)[n]) == ps[n] {
      assert forall x :: x in ps[n] ==> x in s;
      LaidCStr(Mask(s, d) + [NUL], DelimStarts(s, d)[n], ps[n]);
    }
  }

  /** The delimiters of a prefix are among those of the whole. */
  lemma {:induction false} CountPrefix(s: string, i: nat, d: char)
    requires i <= |s|
    ensures Count(s[..i], d) <= Count(s, d)
    decreases |s| - i
  {
    if i < |s| {
      CountPrefix(s, i + 1, d);
      assert s[..i + 1][..i] == s[..i];
    } else {
      assert s[..i] == s;
    }
  }

  /** How Count, Mask and DelimStarts grow by one character of s. */
  lemma PrefixStep(s: string, i: nat, d: char)
    requires i < |s|
    ensures Count(s[..i + 1], d) == Count(s[..i], d) + (if s[i] == d then 1 else 0)
    ensures Mask(s[..i + 1], d) == Mask(s[..i], d) + [if s[i] == d then NUL else s[i]]
    ensures DelimStarts(s[..i + 1], d) == DelimStarts(s[..i], d) + (if s[i] == d then [i + 1] else [])
  {
    assert s[..i + 1][..i] == s[..i];
  }

  // ---------------------------------------------------------------------
  // Operations

  /** The first loop of MLibSplitInitByDelimiter: count the delimiters of
      the effective input. */
  method CountDelimiters(str: string, length: size_t, delimiter: char) returns (delimiterNum: nat)
    requires Readable(str, length)
    ensures delimiterNum == Count(Effective(str, length), delimiter)
  {
    ghost var n := EffLen(str, length);
    ghost var e := Effective(str, length);
    delimiterNum := 0;
    var idx: nat := 0;
    while idx < length
      invariant idx <= n
      invariant delimiterNum == Count(e[..idx], delimiter)
      decreases length - idx
    {
      if str[idx] == NUL {
        break;
      }
      PrefixStep(e, idx, delimiter);
      if str[idx] == delimiter {
        delimiterNum := delimiterNum + 1;
      }
      idx := idx + 1;
    }
    assert idx == n && e[..idx] == e;
  }

  /** The second loop of MLibSplitInitByDelimiter: copy the effective input
      into the piece buffer, writing a NUL for every delimiter and at the end,
      and record the start of every piece when its NUL is written. */
  method CopyPieces(str: string, length: size_t, delimiter: char, delimiterNum: nat)
    returns (strs: string, starts: seq<nat>)
    requires Readable(str, length)
    requires delimiterNum == Count(Effective(str, length), delimiter)
    ensures strs == Mask(Effective(str, length), delimiter) + [NUL]
    ensures starts == DelimStarts(Effective(str, length), delimiter)
  {
    ghost var n := EffLen(str, length);
    ghost var e := Effective(str, length);
    strs, starts := [], [];
    var cur: nat := 0;
    var splitStrNo: nat := 0;
    var idx: nat := 0;
    while splitStrNo <= delimiterNum
      invariant splitStrNo == |starts|
      invariant splitStrNo <= delimiterNum ==>
        && idx <= n && |strs| == idx
        && strs == Mask(e[..idx], delimiter)
        && starts + [cur] == DelimStarts(e[..idx], delimiter)
        && splitStrNo == Count(e[..idx], delimiter)
      invariant splitStrNo > delimiterNum ==>
        strs == Mask(e, delimiter) + [NUL] && starts == DelimStarts(e, delimiter)
      decreases delimiterNum + 1 - splitStrNo, n - idx
    {
      if idx == length || str[idx] == NUL || str[idx] == delimiter {
        if idx < n {
          PrefixStep(e, idx, delimiter);
          CountPrefix(e, idx + 1, delimiter);
        } else {
          assert e[..idx] == e;
        }
        strs := strs + [NUL];
        starts := starts + [cur];
        splitStrNo := splitStrNo + 1;
        cur := |strs|;
      } else {
        PrefixStep(e, idx, delimiter);
        strs := strs + [str[idx]];
      }
      idx := idx + 1;
    }
  }

  /** sizeof(MLibSplit_t) on an LP64 target: num, idx (padded to 8 bytes),
      ppStr and pStrs. */
  const HANDLE_BYTES: nat := 32

  /** sizeof(char *) on an LP64 target. */
  const PTR_BYTES: nat := 8

  /** The bytes a handle occupies: the header, the piece pointer array and
      the piece buffer. */
  function Footprint(h: Handle): nat
  {
    HANDLE_BYTES + PTR_BYTES * |h.starts| + |h.strs|
  }

  /** The malloc size of MLibSplitInitByDelimiter as a mathematical integer:
      header, delimiterNum + 1 pointers, length characters and one NUL per
      piece. In C the sum is a size_t and wraps modulo 2^64. */
  function Request(length: nat, delimiterNum: nat): nat
  {
    HANDLE_BYTES + PTR_BYTES * (delimiterNum + 1) + length + delimiterNum + 1
  }

  /** The handle MLibSplitInitByDelimiter builds for the effective input e. */
  function Built(e: string, d: char): (h: Handle)
    requires NUL !in e && |e| < UINT_MOD - 1
    ensures Valid(h) && h.idx == 0 && h.num == Count(e, d) + 1
    ensures Pieces(h) == SplitOn(e, d)
    ensures Footprint(h) == HANDLE_BYTES + PTR_BYTES * h.num + |e| + 1
  {
    MaskLength(e, d);
    LayoutPieces(e, d);
    SplitCount(e, d);
    var h := Handle(Count(e, d) + 1, 0, DelimStarts(e, d), Mask(e, d) + [NUL]);
    assert Pieces(h) == SplitOn(e, d);
    h
  }

  /** Result of the as-written Init: return code, the *ppHandle cell, error,
      and the size requested from malloc (0 when none was requested). */
  datatype InitResult = InitResult(ret: Ret, handle: Ptr<Ptr<Handle>>, err: Ptr<Err>, reserved: size_t)

  /** MLibSplitInitByDelimiter as written: the malloc request is the size_t
      sum, so a length close to SIZE_MAX wraps it to a small number, and the
      copy loops still write the whole handle. `mallocOk` is the answer of
      the allocation. */
  function InitAsWritten(ppHandle: Ptr<Ptr<Handle>>, pStr: Ptr<string>, length: size_t,
                         delimiter: char, pErr: Ptr<Err>, mallocOk: bool): (r: InitResult)
    requires ppHandle.Points? && pStr.Points? && length > 0 && delimiter != NUL ==>
      Readable(pStr.to, length) && EffLen(pStr.to, length) < UINT_MOD - 1
    ensures ppHandle.Null? || pStr.Null? || length == 0 || delimiter == NUL ==>
      r == InitResult(Failure, ppHandle, Set(pErr, ErrParam), 0)
    ensures r.ret == Success <==>
      ppHandle.Points? && pStr.Points? && length > 0 && delimiter != NUL && mallocOk
    ensures r.ret == Success ==>
      var e := Effective(pStr.to, length);
      && r.reserved == Request(length, Count(e, delimiter)) % SIZE_MOD
      && r.handle.Points? && r.handle.to.Points?
      && var h := r.handle.to.to;
      && Valid(h) && Pieces(h) == SplitOn(e, delimiter)
      && Footprint(h) == HANDLE_BYTES + PTR_BYTES * h.num + |e| + 1
  {
    if ppHandle.Null? || pStr.Null? || length == 0 || delimiter == NUL then
      InitResult(Failure, ppHandle, Set(pErr, ErrParam), 0)
    else
      var e := Effective(pStr.to, length);
      var reserved := Request(length, Count(e, delimiter)) % SIZE_MOD;
      if !mallocOk then InitResult(Failure, Points(Null), Set(pErr, ErrNoMemory), reserved)
      else InitResult(Success, Points(Points(Built(e, delimiter))), Set(pErr, ErrNone), reserved)
  }

  /** With pStr = "a" and length = SIZE_MAX the as-written request wraps to
      40 bytes, while the handle written into it takes 42. */
  lemma OverrunOnWrap()
    ensures var r := InitAsWritten(Points(Null), Points(['a', NUL]), SIZE_MAX, ',', Null, true);
            && r.ret == Success && r.reserved == 40
            && Footprint(r.handle.to.to) == 42
  {
    var str := ['a', NUL];
    assert EffLen(str, SIZE_MAX) == 1;
    assert Effective(str, SIZE_MAX) == ['a'];
    assert Count(['a'], ',') == 0 by { assert ['a'][..0] == []; }
  }

  /** MLibSplitInitByDelimiter(ppHandle, pStr, length, delimiter, pErr) with
      the allocation size checked: a request that does not fit in size_t
      cannot be allocated and is reported as MLIB_ERR_NOMEMORY, like a failed
      malloc. `mallocOk` is the answer of the handle allocation. The effective
      input must be shorter than 2^32 - 1 characters (see README). */
  method InitByDelimiter(ppHandle: Ptr<Ptr<Handle>>, pStr: Ptr<string>, length: size_t,
                         delimiter: char, pErr: Ptr<Err>, mallocOk: bool)
    returns (ret: Ret, handle: Ptr<Ptr<Handle>>, err: Ptr<Err>)
    requires ppHandle.Points? && pStr.Points? && length > 0 && delimiter != NUL ==>
      Readable(pStr.to, length) && EffLen(pStr.to, length) < UINT_MOD - 1
    ensures ppHandle.Null? || pStr.Null? || length == 0 || delimiter == NUL ==>
      ret == Failure && handle == ppHandle && err == Set(pErr, ErrParam)
    ensures ppHandle.Points? && pStr.Points? && length > 0 && delimiter != NUL && !mallocOk ==>
      ret == Failure && handle == Points(Null) && err == Set(pErr, ErrNoMemory)
    ensures ppHandle.Points? && pStr.Points? && length > 0 && delimiter != NUL
            && Request(length, Count(Effective(pStr.to, length), delimiter)) >= SIZE_MOD ==>
      ret == Failure && handle == Points(Null) && err == Set(pErr, ErrNoMemory)
    ensures ret == Success <==>
      && ppHandle.Points? && pStr.Points? && length > 0 && delimiter != NUL && mallocOk
      && Request(length, Count(Effective(pStr.to, length), delimiter)) < SIZE_MOD
    ensures ret == Success ==>
      var e := Effective(pStr.to, length);
      && err == Set(pErr, ErrNone)
      && handle.Points? && handle.to.Points?
      && var h := handle.to.to;
      && Valid(h) && h.idx == 0
      && h.num == Count(e, delimiter) + 1
      && Pieces(h) == SplitOn(e, delimiter)
      && |h.strs| <= length + Count(e, delimiter) + 1
      && Footprint(h) <= Request(length, Count(e, delimiter)) < SIZE_MOD
  {
    err := Set(pErr, ErrNone);
    if ppHandle.Null? || pStr.Null? || length == 0 || delimiter == NUL {
      return Failure, ppHandle, Set(pErr, ErrParam);
    }
    var str := pStr.to;
    ghost var e := Effective(str, length);
    var delimiterNum := CountDelimiters(str, length, delimiter);
    if Request(length, delimiterNum) >= SIZE_MOD || !mallocOk {
      return Failure, Points(Null), Set(pErr, ErrNoMemory);
    }
    var strs, starts := CopyPieces(str, length, delimiter, delimiterNum);
    MaskLength(e, delimiter);
    LayoutPieces(e, delimiter);
    SplitCount(e, delimiter);
    var h := Handle(delimiterNum + 1, 0, starts, strs);
    assert Pieces(h) == SplitOn(e, delimiter);
    return Success, Points(Points(h)), err;
  }

  /** Result of Get: return code, the piece pointer out-parameter, error. */
  datatype GetResult = GetResult(ret: Ret, str: Ptr<nat>, err: Ptr<Err>)

  /** MLibSplitGet(pHandle, idx, ppStr, pErr). */
  function Get(pHandle: Ptr<Handle>, idx: uint32, ppStr: Ptr<nat>, pErr: Ptr<Err>): (r: GetResult)
    requires pHandle.Points? ==> Valid(pHandle.to)
    ensures pHandle.Null? || ppStr.Null? ==> r == GetResult(Failure, ppStr, Set(pErr, ErrParam))
    ensures pHandle.Points? && ppStr.Points? ==>
      && (r.ret == Success <==> idx < pHandle.to.num)
      && (r.ret == Failure ==> r.str == ppStr && r.err == Set(pErr, ErrIndex))
      && (r.ret == Success ==>
            r.err == Set(pErr, ErrNone) && r.str.Points?
            && CStr(pHandle.to.strs, r.str.to) == Pieces(pHandle.to)[idx])
  {
    if pHandle.Null? || ppStr.Null? then GetResult(Failure, ppStr, Set(pErr, ErrParam))
    else if pHandle.to.num <= idx then GetResult(Failure, ppStr, Set(pErr, ErrIndex))
    else GetResult(Success, Points(pHandle.to.starts[idx]), Set(pErr, ErrNone))
  }

  /** Result of GetNext: also the handle, whose cursor moves. */
  datatype GetNextResult = GetNextResult(ret: Ret, handle: Ptr<Handle>, str: Ptr<nat>, err: Ptr<Err>)

  /** MLibSplitGetNext(pHandle, ppStr, pErr). */
  function GetNext(pHandle: Ptr<Handle>, ppStr: Ptr<nat>, pErr: Ptr<Err>): (r: GetNextResult)
    requires pHandle.Points? ==> Valid(pHandle.to)
    ensures pHandle.Null? || ppStr.Null? ==> r == GetNextResult(Failure, pHandle, ppStr, Set(pErr, ErrParam))
    ensures pHandle.Points? && ppStr.Points? ==>
      var h := pHandle.to;
      && (r.ret == Success <==> h.idx < h.num)
      && (r.ret == Failure ==> r.handle == pHandle && r.str == ppStr && r.err == Set(pErr, ErrIndex))
      && (r.ret == Success ==>
            && r.err == Set(pErr, ErrNone) && r.str.Points?
            && CStr(h.strs, r.str.to) == Pieces(h)[h.idx]
            && r.handle == Points(h.(idx := h.idx + 1))
            && Valid(r.handle.to))
  {
    if pHandle.Null? || ppStr.Null? then GetNextResult(Failure, pHandle, ppStr, Set(pErr, ErrParam))
    else
      var h := pHandle.to;
      if h.num <= h.idx then GetNextResult(Failure, pHandle, ppStr, Set(pErr, ErrIndex))
      else GetNextResult(Success, Points(h.(idx := h.idx + 1)), Points(h.starts[h.idx]), Set(pErr, ErrNone))
  }

  /** Result of GetNum: return code, the count out-parameter, error. */
  datatype GetNumResult = GetNumResult(ret: Ret, num: Ptr<size_t>, err: Ptr<Err>)

  /** MLibSplitGetNum(pHandle, pNum, pErr). */
  function GetNum(pHandle: Ptr<Handle>, pNum: Ptr<size_t>, pErr: Ptr<Err>): (r: GetNumResult)
    requires pHandle.Points? ==> Valid(pHandle.to)
    ensures pHandle.Null? || pNum.Null? ==> r == GetNumResult(Failure, pNum, Set(pErr, ErrParam))
    ensures pHandle.Points? && pNum.Points? ==>
      r.ret == Success && r.err == Set(pErr, ErrNone) && r.num == Points(|Pieces(pHandle.to)|)
  {
    if pHandle.Null? || pNum.Null? then GetNumResult(Failure, pNum, Set(pErr, ErrParam))
    else GetNumResult(Success, Points(pHandle.to.num), Set(pErr, ErrNone))
  }

  /** k calls of GetNext: the handle afterwards and the piece pointers the
      successful calls returned. */
  function Drain(h: Handle, k: nat): (Handle, seq<nat>)
    requires Valid(h)
    ensures Valid(Drain(h, k).0)
    decreases k
  {
    if k == 0 then (h, [])
    else
      var (h1, got) := Drain(h, k - 1);
      var r := GetNext(Points(h1), Points(0), Null);
      if r.ret == Success then (r.handle.to, got + [r.str.to]) else (h1, got)
  }

  /** From a fresh cursor, k <= num calls of GetNext hand out the first k
      piece pointers in order and leave the cursor at k. */
  lemma {:induction false} DrainPrefix(h: Handle, k: nat)
    requires Valid(h) && h.idx == 0 && k <= h.num
    ensures Drain(h, k).0 == h.(idx := k)
    ensures Drain(h, k).1 == h.starts[..k]
    decreases k
  {
    if k > 0 {
      DrainPrefix(h, k - 1);
      assert h.starts[..k] == h.starts[..k - 1] + [h.starts[k - 1]];
    }
  }

  /** From a fresh cursor, num calls of GetNext hand out every piece in
      order, after which GetNext fails with MLIB_ERR_INDEX. */
  lemma DrainAll(h: Handle)
    requires Valid(h) && h.idx == 0
    ensures |Drain(h, h.num).1| == |Pieces(h)|
    ensures forall i :: 0 <= i < |Pieces(h)| ==> CStr(h.strs, Drain(h, h.num).1[i]) == Pieces(h)[i]
    ensures GetNext(Points(Drain(h, h.num).0), Points(0), Points(ErrNone)).err == Points(ErrIndex)
  {
    DrainPrefix(h, h.num);
    assert h.starts[..h.num] == h.starts;
  }
}
