/** The allocator on its byte memory: every header is stored in band, as `next`, `size` (two
    little-endian words) and `used` (one byte) at offsets 0, 4 and 8. Each method is tied to the
    step of HeapRuns with the same name, and to the bytes it leaves alone. */
module Heap {
  import opened Options
  import opened Memory
  import opened HeapLayout
  import HeapRuns
  import HeapCalls

  // ---------------------------------------------------------------- the list in memory

  /** Address of the header of node `i`, NULL past the last node. */
  function AddressOf(base: int, ns: seq<Node>, i: nat): int
    requires i <= |ns|
  {
    if i < |ns| then base + ns[i].off else 0
  }

  /** The bytes at the header of node `i` say what the node says, and point to the next one. */
  ghost predicate HeaderAt(m: seq<byte>, base: int, ns: seq<Node>, i: nat)
    requires i < |ns|
  {
    && 0 <= ns[i].off && ns[i].Payload() <= |m|
    && WordAt(m, ns[i].off) == AddressOf(base, ns, i + 1)
    && WordAt(m, ns[i].off + 4) == ns[i].size
    && m[ns[i].off + 8] == if ns[i].used then 1 else 0
  }

  ghost predicate InBand(m: seq<byte>, base: int, ns: seq<Node>) {
    && |m| == HEAP_MAX_SIZE
    && forall i :: 0 <= i < |ns| ==> HeaderAt(m, base, ns, i)
  }

  ghost predicate SamePayload(m: seq<byte>, r: seq<byte>, n: Node)
    requires |m| == |r|
  {
    forall a :: n.Payload() <= a < n.End() && 0 <= a < |m| ==> r[a] == m[a]
  }

  /** Every block in use before and after keeps its bytes. */
  ghost predicate KeepsBlocks(m: seq<byte>, ns: seq<Node>, r: seq<byte>, nr: seq<Node>) {
    && |m| == |r| == HEAP_MAX_SIZE
    && forall n: Node :: n in ns && n in nr && n.used ==> SamePayload(m, r, n)
  }

  /** NULL is the address past the last node, and no other. */
  lemma PastTheEnd(base: int, ns: seq<Node>, i: nat)
    requires base > 0 && Tiles(ns) && i <= |ns|
    ensures AddressOf(base, ns, i) == 0 <==> i == |ns|
  {
    if i < |ns| {
      NodeInRegion(ns, i);
    }
  }

  /** Memory and list determine each other: two tilings stored in the same bytes are equal. */
  lemma InBandUnique(m: seq<byte>, base: int, ns: seq<Node>, other: seq<Node>)
    requires base > 0
    requires Tiles(ns) && InBand(m, base, ns)
    requires Tiles(other) && InBand(m, base, other)
    ensures ns == other
  {
    var i := 0;
    while i < |ns| && i < |other|
      invariant i <= |ns| && i <= |other|
      invariant ns[..i] == other[..i]
      invariant AddressOf(base, ns, i) == AddressOf(base, other, i)
    {
      assert HeaderAt(m, base, ns, i) && HeaderAt(m, base, other, i);
      i := i + 1;
    }
    PastTheEnd(base, ns, i);
    PastTheEnd(base, other, i);
  }

  /** Headers away from the written bytes still read the same. */
  lemma HeaderFrame(m: seq<byte>, r: seq<byte>, base: int, ns: seq<Node>, nr: seq<Node>, i: nat, j: nat)
    requires i < |ns| && j < |nr| && ns[i] == nr[j]
    requires HeaderAt(m, base, ns, i) && |r| == |m|
    requires forall a :: ns[i].off <= a < ns[i].Payload() ==> r[a] == m[a]
    requires AddressOf(base, nr, j + 1) == AddressOf(base, ns, i + 1)
    ensures HeaderAt(r, base, nr, j)
  {}

  /** Nothing has changed but the header at `off` and, for a split, the one at `rest`. */
  ghost predicate OnlyHeaders(m: seq<byte>, r: seq<byte>, off: int, split: bool, rest: int)
    requires |m| == |r|
  {
    forall a :: 0 <= a < |m| && !(off <= a < off + HEADER_SIZE) && !(split && rest <= a < rest + HEADER_SIZE) ==>
      r[a] == m[a]
  }

  lemma NothingStored(m: seq<byte>, off: int, split: bool, rest: int)
    ensures OnlyHeaders(m, m, off, split, rest)
  {}

  /** The flag is inside the header. */
  lemma FlagStored(m: seq<byte>, m1: seq<byte>, r: seq<byte>, off: int, split: bool, rest: int)
    requires |m| == |m1| == |r| && 0 <= off && off + 8 < |m| && OnlyHeaders(m, m1, off, split, rest)
    requires r == m1[off + 8 := 1]
    ensures OnlyHeaders(m, r, off, split, rest)
  {}

  /** Node `k` is taken but for its flag. */
  ghost predicate Pending(m: seq<byte>, m1: seq<byte>, base: int, ns: seq<Node>, k: nat, n: int)
    requires k < |ns|
  {
    var nr, off := Take(ns, k, n), ns[k].off;
    && |m| == |m1| && 0 <= off && ns[k].Payload() <= |m1|
    && WordAt(m1, off) == AddressOf(base, nr, k + 1) && WordAt(m1, off + 4) == nr[k].size
    && (Splits(ns[k], n) ==> HeaderAt(m1, base, nr, k + 1))
    && OnlyHeaders(m, m1, off, Splits(ns[k], n), ns[k].Payload() + n)
  }

  /** Without a split there is nothing else to store. */
  lemma WholePending(m: seq<byte>, base: int, ns: seq<Node>, k: nat, n: int)
    requires InBand(m, base, ns) && k < |ns| && !Splits(ns[k], n)
    ensures Pending(m, m, base, ns, k, n)
  {
    assert HeaderAt(m, base, ns, k);
    NothingStored(m, ns[k].off, false, ns[k].Payload() + n);
  }

  lemma FlagFinishes(m: seq<byte>, m1: seq<byte>, r: seq<byte>, base: int, ns: seq<Node>, k: nat, n: int)
    requires Tiles(ns) && InBand(m, base, ns) && k < |ns| && Fits(ns[k], n) && n >= 0
    requires Pending(m, m1, base, ns, k, n) && r == m1[ns[k].off + 8 := 1]
    ensures InBand(r, base, Take(ns, k, n))
    ensures KeepsBlocks(m, ns, r, Take(ns, k, n))
  {
    hide Tiles, InBand, OnlyHeaders, KeepsBlocks;
    var off, nr := ns[k].off, Take(ns, k, n);
    FlagStored(m, m1, r, off, Splits(ns[k], n), ns[k].Payload() + n);
    FlagWords(m1, r, off);
    assert HeaderAt(r, base, nr, k);
    if Splits(ns[k], n) {
      HeaderFrame(m1, r, base, nr, nr, k + 1, k + 1);
    }
    TakeInBand(m, r, base, ns, k, n);
  }

  lemma FlagWords(m: seq<byte>, r: seq<byte>, off: int)
    requires 0 <= off && off + HEADER_SIZE <= |m| && r == m[off + 8 := 1]
    ensures WordAt(r, off) == WordAt(m, off) && WordAt(r, off + 4) == WordAt(m, off + 4)
  {}

  /** What a merge of nodes `k` and `k + 1` reads, and that the sums fit. */
  lemma MergeReads(m: seq<byte>, base: int, ns: seq<Node>, k: nat)
    requires 0 < base && base + HEAP_MAX_SIZE <= SIZE_T
    requires Tiles(ns) && InBand(m, base, ns) && k + 1 < |ns|
    ensures 0 <= ns[k].off && ns[k].Payload() <= ns[k + 1].off && ns[k + 1].Payload() <= |m| == HEAP_MAX_SIZE
    ensures WordAt(m, ns[k + 1].off) == AddressOf(base, ns, k + 2)
    ensures WordAt(m, ns[k].off + 4) == ns[k].size && WordAt(m, ns[k + 1].off + 4) == ns[k + 1].size
    ensures 0 <= ns[k].size + HEADER_SIZE + ns[k + 1].size < SIZE_T
    ensures Tiles(Absorb(ns, k))
  {
    NodeInRegion(ns, k);
    NodeInRegion(ns, k + 1);
    assert Joined(ns, k);
    assert HeaderAt(m, base, ns, k) && HeaderAt(m, base, ns, k + 1);
    AbsorbKeeps(ns, k);
  }

  /** The stores of a split, or of the flag alone, turn the stored list into the taken one. */
  lemma TakeInBand(m: seq<byte>, r: seq<byte>, base: int, ns: seq<Node>, k: nat, n: int)
    requires Tiles(ns) && InBand(m, base, ns) && |r| == |m|
    requires k < |ns| && Fits(ns[k], n) && n >= 0
    requires HeaderAt(r, base, Take(ns, k, n), k)
    requires Splits(ns[k], n) ==> HeaderAt(r, base, Take(ns, k, n), k + 1)
    requires OnlyHeaders(m, r, ns[k].off, Splits(ns[k], n), ns[k].Payload() + n)
    ensures InBand(r, base, Take(ns, k, n))
    ensures KeepsBlocks(m, ns, r, Take(ns, k, n))
  {
    var nr := Take(ns, k, n);
    var d := |nr| - |ns|;
    forall j | 0 <= j < |nr| && j != k && !(j == k + 1 && Splits(ns[k], n))
      ensures HeaderAt(r, base, nr, j)
    {
      var i := if j < k then j else j - d;
      NodeInRegion(ns, i);
      PayloadsDisjoint(ns, i, k);
      assert HeaderAt(m, base, ns, i);
      HeaderFrame(m, r, base, ns, nr, i, j);
    }
    forall nd: Node | nd in ns && nd in nr && nd.used
      ensures SamePayload(m, r, nd)
    {
      var i :| 0 <= i < |ns| && ns[i] == nd;
      PayloadsDisjoint(ns, i, k);
    }
  }

  /** The stores of one merge turn the stored list into the merged one. */
  lemma AbsorbInBand(m: seq<byte>, r: seq<byte>, base: int, ns: seq<Node>, k: nat)
    requires Tiles(ns) && InBand(m, base, ns) && |r| == |m|
    requires k + 1 < |ns| && 0 <= ns[k].off && ns[k].Payload() <= |m|
    requires WordAt(r, ns[k].off) == AddressOf(base, ns, k + 2)
    requires WordAt(r, ns[k].off + 4) == ns[k].size + HEADER_SIZE + ns[k + 1].size
    requires forall a :: 0 <= a < |m| && !(ns[k].off <= a < ns[k].off + 8) ==> r[a] == m[a]
    ensures InBand(r, base, Absorb(ns, k))
  {
    var nr := Absorb(ns, k);
    assert HeaderAt(m, base, ns, k);
    forall j | 0 <= j < |nr|
      ensures HeaderAt(r, base, nr, j)
    {
      if j != k {
        var i := if j < k then j else j + 1;
        NodeInRegion(ns, i);
        PayloadsDisjoint(ns, i, k);
        assert HeaderAt(m, base, ns, i);
        HeaderFrame(m, r, base, ns, nr, i, j);
      }
    }
  }

  lemma FlagInBand(m: seq<byte>, r: seq<byte>, base: int, ns: seq<Node>, k: nat, used: bool)
    requires Tiles(ns) && InBand(m, base, ns) && |r| == |m|
    requires k < |ns| && 0 <= ns[k].off && ns[k].Payload() <= |m|
    requires r[ns[k].off + 8] == if used then 1 else 0
    requires forall a :: 0 <= a < |m| && a != ns[k].off + 8 ==> r[a] == m[a]
    ensures InBand(r, base, ns[k := ns[k].(used := used)])
  {
    var nr := ns[k := ns[k].(used := used)];
    assert HeaderAt(m, base, ns, k);
    forall j | 0 <= j < |nr|
      ensures HeaderAt(r, base, nr, j)
    {
      if j != k {
        NodeInRegion(ns, j);
        PayloadsDisjoint(ns, j, k);
        assert HeaderAt(m, base, ns, j);
        HeaderFrame(m, r, base, ns, nr, j, j);
      }
    }
  }

  /** `free` writes into two headers at most, and headers are nobody's payload. */
  lemma HeaderWritesKeepBlocks(m: seq<byte>, r: seq<byte>, ns: seq<Node>, nr: seq<Node>, k: nat)
    requires Tiles(ns) && |m| == |r| == HEAP_MAX_SIZE && k < |ns|
    requires forall a ::
               && 0 <= a < |m| && !(ns[k].off <= a < ns[k].Payload())
               && !(k > 0 && ns[k - 1].off <= a < ns[k - 1].Payload())
               ==> r[a] == m[a]
    ensures KeepsBlocks(m, ns, r, nr)
  {
    forall n: Node | n in ns && n in nr && n.used
      ensures SamePayload(m, r, n)
    {
      var i :| 0 <= i < |ns| && ns[i] == n;
      if i != k {
        PayloadsDisjoint(ns, i, k);
      }
      if k > 0 && i != k - 1 {
        PayloadsDisjoint(ns, i, k - 1);
      }
    }
  }

  /** Writing into the payload of one block leaves the list as it is. */
  lemma PayloadWriteInBand(m: seq<byte>, r: seq<byte>, base: int, ns: seq<Node>, k: nat)
    requires Tiles(ns) && InBand(m, base, ns) && |r| == |m| && k < |ns|
    requires forall a :: 0 <= a < |m| && !(ns[k].Payload() <= a < ns[k].End()) ==> r[a] == m[a]
    ensures InBand(r, base, ns)
  {
    forall j | 0 <= j < |ns|
      ensures HeaderAt(r, base, ns, j)
    {
      if j != k {
        PayloadsDisjoint(ns, j, k);
      }
      assert HeaderAt(m, base, ns, j);
      HeaderFrame(m, r, base, ns, ns, j, j);
    }
  }

  /** A block that was free before the call is not among those whose bytes are kept. */
  lemma FreshBlockKeeps(ns: seq<Node>, m: seq<byte>, m1: seq<byte>, r: seq<byte>, nr: seq<Node>, k: nat)
    requires Tiles(ns) && Tiles(nr) && KeepsBlocks(m, ns, m1, nr) && |r| == |m1|
    requires k < |ns| && k < |nr| && !ns[k].used && ns[k].off == nr[k].off
    requires forall a :: 0 <= a < |r| && !(nr[k].Payload() <= a < nr[k].End()) ==> r[a] == m1[a]
    ensures KeepsBlocks(m, ns, r, nr)
  {
    forall n: Node | n in ns && n in nr && n.used
      ensures SamePayload(m, r, n)
    {
      var i :| 0 <= i < |ns| && ns[i] == n;
      var j :| 0 <= j < |nr| && nr[j] == n;
      PayloadsDisjoint(ns, i, k);
      if j != k {
        PayloadsDisjoint(nr, j, k);
      }
    }
  }

  /** What a call leaves of the memory if only the caller's own store counts. */
  function Stored(m: seq<byte>, c: HeapRuns.Call): (r: seq<byte>)
    ensures |r| == |m|
  {
    if c.CallerStores? && 0 <= c.p + c.i < |m| then m[c.p + c.i := c.b] else m
  }

  /** The memory as the caller alone would have left it. */
  function StoredAll(m: seq<byte>, calls: seq<HeapRuns.Call>): (r: seq<byte>)
    ensures |r| == |m|
  {
    if calls == [] then m else Stored(StoredAll(m, calls[..|calls| - 1]), calls[|calls| - 1])
  }

  /** Node `n` is in use before call `i` and stays so until after call `j - 1`. */
  ghost predicate InUse(calls: seq<HeapRuns.Call>, n: Node, i: nat, j: nat)
    requires i <= j <= |calls|
  {
    n.used && forall k :: i <= k <= j ==> var s := HeapRuns.Run(calls[..k]); s.Running? && n in s.nodes
  }

  /** Call `k` of the run, from memory `m` to memory `r`, has changed no block in use but for the
      caller's store. */
  ghost predicate Kept(calls: seq<HeapRuns.Call>, k: nat, m: seq<byte>, r: seq<byte>)
    requires k < |calls|
  {
    var s, t := HeapRuns.Run(calls[..k]), HeapRuns.Run(calls[..k + 1]);
    s.Running? && t.Running? ==> KeepsBlocks(Stored(m, calls[k]), s.nodes, r, t.nodes)
  }

  /** The memories before and after each call of a run. */
  ghost predicate Trace(calls: seq<HeapRuns.Call>, ms: seq<seq<byte>>) {
    && 0 < |ms| <= |calls| + 1
    && (forall k :: 0 <= k < |ms| ==> |ms[k]| == HEAP_MAX_SIZE)
    && (forall k :: 0 <= k < |ms| - 1 ==> Kept(calls, k, ms[k], ms[k + 1]))
  }

  /** Between any two points of the run, a block in use all along holds at the second what its caller
      has stored in it since the first, and else what it held. */
  ghost predicate BlocksKept(calls: seq<HeapRuns.Call>, ms: seq<seq<byte>>) {
    && |ms| <= |calls| + 1
    && (forall k :: 0 <= k < |ms| ==> |ms[k]| == HEAP_MAX_SIZE)
    && (forall n: Node, i: nat, j: nat :: i <= j < |ms| && InUse(calls, n, i, j) ==>
          SamePayload(StoredAll(ms[i], calls[i..j]), ms[j], n))
  }

  lemma {:induction false} BlockSurvives(calls: seq<HeapRuns.Call>, ms: seq<seq<byte>>, n: Node, i: nat, j: nat)
    requires Trace(calls, ms) && i <= j < |ms| && InUse(calls, n, i, j)
    ensures SamePayload(StoredAll(ms[i], calls[i..j]), ms[j], n)
  {
    hide InUse, Kept, Stored, StoredAll, SamePayload;
    if i < j {
      UseShrinks(calls, n, i, j);
      BlockSurvives(calls, ms, n, i, j - 1);
      var c, before := calls[j - 1], StoredAll(ms[i], calls[i..j - 1]);
      StoredLast(ms[i], calls, i, j);
      assert Kept(calls, j - 1, ms[j - 1], ms[j]);
      StoreSame(before, ms[j - 1], c, n);
      SameJoins(Stored(before, c), Stored(ms[j - 1], c), ms[j], n);
    } else {
      assert calls[i..j] == [];
      StoredNothing(ms[i], n);
    }
  }

  lemma StoredNothing(m: seq<byte>, n: Node)
    ensures SamePayload(StoredAll(m, []), m, n)
  {}

  lemma UseShrinks(calls: seq<HeapRuns.Call>, n: Node, i: nat, j: nat)
    requires i < j <= |calls| && InUse(calls, n, i, j)
    ensures InUse(calls, n, i, j - 1)
    ensures forall m, r :: |m| == |r| == HEAP_MAX_SIZE && Kept(calls, j - 1, m, r) ==>
              SamePayload(Stored(m, calls[j - 1]), r, n)
  {
    hide HeapRuns.Run, HeapRuns.Step;
  }

  lemma StoredLast(m: seq<byte>, calls: seq<HeapRuns.Call>, i: nat, j: nat)
    requires i < j <= |calls|
    ensures StoredAll(m, calls[i..j]) == Stored(StoredAll(m, calls[i..j - 1]), calls[j - 1])
  {
    assert calls[i..j][..j - 1 - i] == calls[i..j - 1];
  }

  lemma StoreSame(m: seq<byte>, r: seq<byte>, c: HeapRuns.Call, n: Node)
    requires |m| == |r| && SamePayload(m, r, n)
    ensures SamePayload(Stored(m, c), Stored(r, c), n)
  {}

  lemma SameJoins(m: seq<byte>, r: seq<byte>, q: seq<byte>, n: Node)
    requires |m| == |r| == |q| && SamePayload(m, r, n) && SamePayload(r, q, n)
    ensures SamePayload(m, q, n)
  {}

  /** The `n` bytes at `p` of one memory are the `n` bytes at `q` of another. */
  ghost predicate Prefix(m: seq<byte>, p: int, r: seq<byte>, q: int, n: int) {
    && |m| == |r| && 0 <= n && 0 <= p && p + n <= |m| && 0 <= q && q + n <= |r|
    && Moved(m, r, q, p, n)
  }

  /** A copy to a place apart. */
  lemma CopiedPrefix(m: seq<byte>, r: seq<byte>, dst: nat, src: nat, n: nat)
    requires dst + n <= |m| && src + n <= |m| && r == CopyUp(m, dst, src, n)
    requires dst + n <= src || src + n <= dst
    ensures Prefix(m, src, r, dst, n)
    ensures forall a :: 0 <= a < |m| && !(dst <= a < dst + n) ==> r[a] == m[a]
  {
    hide CopyUp;
    CopyUpMoves(m, dst, src, n);
  }

  /** The bytes survive the `malloc` before the copy and the `free` after it. */
  lemma GrownPrefix(m: seq<byte>, m1: seq<byte>, m2: seq<byte>, r: seq<byte>, block: Node, grown: Node)
    requires |m| == |m1| == |m2| == |r| && block.size <= grown.size
    requires block.used ==> SamePayload(m, m1, block)
    requires SamePayload(m2, r, grown)
    requires Prefix(m1, block.Payload(), m2, grown.Payload(), block.size)
    ensures block.used ==> Prefix(m, block.Payload(), r, grown.Payload(), block.size)
  {}

  /** What `realloc` returns for a pointer that is not NULL. */
  function ReallocPtr(base: int, ns: seq<Node>, ptr: int, size: nat): int {
    var k := Find(ns, ptr - base, 0);
    if k == |ns| then 0
    else if size <= ns[k].size then ptr
    else
      var a := HeapLayout.Malloc(ns, size);
      if a.ptr.Some? then base + a.ptr.value else 0
  }

  /** Two calls keep the blocks in use throughout, when the second is a `free`. */
  lemma FreeKeeps(ns: seq<Node>, m: seq<byte>, m1: seq<byte>, r: seq<byte>, mid: seq<Node>, nr: seq<Node>, j: nat,
                  panicked: bool)
    requires Tiles(mid) && j < |mid|
    requires KeepsBlocks(m, ns, m1, mid) && KeepsBlocks(m1, mid, r, nr)
    requires nr == if panicked then mid else Release(mid, j)
    ensures KeepsBlocks(m, ns, r, nr)
  {
    forall n: Node | n in ns && n in nr && n.used
      ensures SamePayload(m, r, n)
    {
      if !panicked {
        ReleaseUsed(mid, j, n);
      }
      assert SamePayload(m, m1, n) && SamePayload(m1, r, n);
    }
  }

  /** The `free` of the old block leaves the new one alone. */
  lemma GrownKept(m: seq<byte>, m2: seq<byte>, r: seq<byte>, mid: seq<Node>, nr: seq<Node>, j: nat, f: nat,
                  panicked: bool)
    requires Tiles(mid) && j < |mid| && f < |mid| && j != f && mid[f].used && mid[j].size <= mid[f].size
    requires |m| == |m2| && KeepsBlocks(m2, mid, r, nr)
    requires mid[j].used ==> Prefix(m, mid[j].Payload(), m2, mid[f].Payload(), mid[j].size)
    requires !panicked ==> mid[j].used && nr == Release(mid, j)
    ensures !panicked ==> Prefix(m, mid[j].Payload(), r, mid[f].Payload(), mid[j].size)
  {
    if !panicked {
      PayloadsDisjoint(mid, f, j);
      ReleaseUsed(mid, j, mid[f]);
      assert mid[f] in mid && SamePayload(m2, r, mid[f]);
    }
  }

  /** A block held stays as it is if it is large enough, and else has given way to a new one. */
  ghost predicate Replaced(base: int, ns: seq<Node>, hs: set<int>, ptr: int, size: nat, r: seq<Node>, rs: set<int>,
                           newPtr: int) {
    exists b :: b in HeapCalls.Blocks(ns) && b.Payload() == ptr - base &&
      if size <= b.size then newPtr == ptr && r == ns && rs == hs
      else HeapCalls.Regrown(ns, hs, r, rs, ptr - base, newPtr - base, size)
  }

  lemma ReallocLaw(base: int, ns: seq<Node>, hs: set<int>, ptr: int, size: nat, r: seq<Node>, rs: set<int>, newPtr: int)
    requires 0 < base && size < SIZE_T
    requires HeapRuns.Sound(HeapRuns.Running(ns, hs)) && ptr - base in hs
    requires HeapRuns.Grows(ns, ptr - base, size) ==> WholeGap(ns, size)
    requires HeapRuns.Reallocated(ns, ptr - base, size, hs) == HeapRuns.Running(r, rs)
    requires newPtr == ReallocPtr(base, ns, ptr, size)
    ensures Replaced(base, ns, hs, ptr, size, r, rs, newPtr)
  {
    hide HeapRuns.Reallocated, HeapRuns.Sound, HeapLayout.Malloc, HeapCalls.Regrown, HeapCalls.Room, WholeGap;
    var i := HeldBlock(ns, hs, ptr - base);
    HeapCalls.ReallocReplaces(ns, hs, ptr - base, size, ns[i]);
  }

  lemma HeldBlock(ns: seq<Node>, hs: set<int>, p: int) returns (i: nat)
    requires HeapRuns.Sound(HeapRuns.Running(ns, hs)) && p in hs
    ensures i < |ns| && ns[i] in HeapCalls.Blocks(ns) && ns[i].Payload() == p > 0 && Find(ns, p, 0) == i
  {
    i :| 0 <= i < |ns| && ns[i].used && ns[i].Payload() == p;
    FindPayload(ns, i);
    NodeInRegion(ns, i);
  }

  lemma NullNotHeld(base: int, ns: seq<Node>, hs: set<int>)
    requires base > 0
    ensures HeapRuns.Sound(HeapRuns.Running(ns, hs)) ==> 0 - base !in hs
  {
    if HeapRuns.Sound(HeapRuns.Running(ns, hs)) && 0 - base in hs {
      var i := HeldBlock(ns, hs, 0 - base);
    }
  }

  // ---------------------------------------------------------------- the allocator

  class Allocator {
    const base: int          // address of the first byte of the region
    const mem: array<byte>   // the region
    var heapList: int        // address of the first header
    ghost var nodes: seq<Node>
    ghost var held: set<int> // payload offsets handed out and not yet given back

    ghost predicate Valid()
      reads this, mem
    {
      && 0 < base && base + HEAP_MAX_SIZE <= SIZE_T
      && mem.Length == HEAP_MAX_SIZE
      && heapList == base
      && Tiles(nodes) && Coalesced(nodes)
      && InBand(mem[..], base, nodes)
    }

    ghost function State(): HeapRuns.State
      reads this
    {
      HeapRuns.Running(nodes, held)
    }

    /** The call has come to state `s`, or stopped as `s` did. */
    ghost predicate Outcome(stopped: Option<HeapRuns.Stop>, s: HeapRuns.State)
      reads this
    {
      match stopped
      case None => State() == s
      case Some(why) => s == HeapRuns.Stopped(why)
    }

    /** heap_init */
    constructor (base: int)
      requires 0 < base && base + HEAP_MAX_SIZE <= SIZE_T
      ensures Valid() && fresh(mem) && this.base == base
      ensures State() == HeapRuns.Run([])
      ensures mem[..9] == [0, 0, 0, 0, 0xf4, 0x0f, 0, 0, 0]
    {
      this.base := base;
      mem := new byte[HEAP_MAX_SIZE];
      heapList := base;
      nodes := InitialNodes();
      held := {};
      new;
      StoreWord(mem, 0, 0);
      mem[8] := 0;
      StoreWord(mem, 4, HEAP_MAX_SIZE - HEADER_SIZE);
      assert HeaderAt(mem[..], base, nodes, 0);
    }

    /** Header fields read through a node address. */
    function Next(node: int): int
      requires base <= node && node - base + HEADER_SIZE <= mem.Length
      reads mem
    {
      WordAt(mem[..], node - base)
    }

    function Size(node: int): int
      requires base <= node && node - base + HEADER_SIZE <= mem.Length
      reads mem
    {
      WordAt(mem[..], node - base + 4)
    }

    predicate Used(node: int)
      requires base <= node && node - base + HEADER_SIZE <= mem.Length
      reads mem
    {
      mem[node - base + 8] != 0
    }

    lemma ReadNode(k: nat)
      requires Valid() && k < |nodes|
      ensures 0 <= nodes[k].off && nodes[k].End() <= HEAP_MAX_SIZE
      ensures Next(base + nodes[k].off) == AddressOf(base, nodes, k + 1)
      ensures Size(base + nodes[k].off) == nodes[k].size
      ensures Used(base + nodes[k].off) == nodes[k].used
    {
      NodeInRegion(nodes, k);
      assert HeaderAt(mem[..], base, nodes, k);
    }

    /** alloc.c:10-81 */
    method Malloc(size: nat) returns (ptr: int)
      requires Valid() && size < SIZE_T
      requires WholeGap(nodes, size)
      modifies this, mem
      ensures Valid()
      ensures State() == HeapRuns.Allocated(old(nodes), size, old(held))
      ensures var a := HeapLayout.Malloc(old(nodes), size);
              ptr == if a.ptr.Some? then base + a.ptr.value else 0
      ensures KeepsBlocks(old(mem[..]), old(nodes), mem[..], nodes)
    {
      ptr := 0;
      var current := heapList;
      ghost var k := 0;
      while current != 0
        invariant k <= |nodes| && current == AddressOf(base, nodes, k)
        invariant forall j :: 0 <= j < k ==> !Fits(nodes[j], size)
        invariant Valid() && State() == old(State())
        invariant ptr == 0 && mem[..] == old(mem[..])
        decreases |nodes| - k
      {
        ReadNode(k);
        if !Used(current) && Size(current) >= size {
          ptr := current + HEADER_SIZE;
          assert k == FirstFit(nodes, size, 0);
          TakeAt(k, current, size);
          held := held + {ptr - base};
          return;
        } else {
          current := Next(current);
          k := k + 1;
        }
      }
      PastTheEnd(base, nodes, k);
      assert k == FirstFit(nodes, size, 0);
    }

    /** alloc.c:36-62: the node found is split if that leaves more than a header, and marked. */
    method TakeAt(ghost k: nat, current: int, size: nat)
      requires Valid()
      requires k < |nodes| && Fits(nodes[k], size) && current == base + nodes[k].off
      requires k + 1 < |nodes| && Splits(nodes[k], size) ==> (nodes[k].size - size) % HEADER_SIZE == 0
      modifies this`nodes, mem
      ensures Valid()
      ensures nodes == Take(old(nodes), k, size)
      ensures KeepsBlocks(old(mem[..]), old(nodes), mem[..], nodes)
    {
      hide Tiles, Coalesced, InBand, Take, Pending, KeepsBlocks;
      ReadNode(k);
      ghost var ns, m := nodes, mem[..];
      if Size(current) > size + HEADER_SIZE {
        SplitAt(k, current, size);
      } else {
        WholePending(m, base, ns, k, size);
      }
      ghost var m1 := mem[..];
      StoreByte(mem, current - base + 8, 1);
      FlagFinishes(m, m1, mem[..], base, ns, k, size);
      TakeLayout(ns, k, size);
      nodes := Take(ns, k, size);
    }

    /** alloc.c:38-53 */
    method SplitAt(ghost k: nat, current: int, size: nat)
      requires Valid()
      requires k < |nodes| && Fits(nodes[k], size) && Splits(nodes[k], size) && current == base + nodes[k].off
      modifies mem
      ensures Pending(old(mem[..]), mem[..], base, nodes, k, size)
    {
      hide Tiles, Coalesced, InBand, OnlyHeaders;
      ReadNode(k);
      ghost var nr := Take(nodes, k, size);
      var nextNode := current + HEADER_SIZE + size;
      var nextSize := RestSize(k, current, nextNode);
      assert nr[k] == Node(nodes[k].off, size, true);
      assert nr[k + 1] == Node(nodes[k].Payload() + size, nextSize, false);
      assert AddressOf(base, nr, k + 2) == AddressOf(base, nodes, k + 1);
      LinkNode(current, size, nextNode, nextSize);
    }

    /** alloc.c:44-49 */
    method RestSize(ghost k: nat, current: int, nextNode: int) returns (nextSize: int)
      requires Valid()
      requires k < |nodes| && current == base + nodes[k].off
      requires current + HEADER_SIZE <= nextNode && nextNode - base + HEADER_SIZE < nodes[k].End()
      ensures nextSize == SplitSize(nodes, k, nextNode - base)
      ensures 0 <= nextSize < HEAP_MAX_SIZE
    {
      ReadNode(k);
      PastTheEnd(base, nodes, k + 1);
      if Next(current) == 0 {
        nextSize := base + HEAP_MAX_SIZE - (nextNode + HEADER_SIZE);
      } else {
        NodeInRegion(nodes, k + 1);
        assert Joined(nodes, k);
        nextSize := ((Next(current) - nextNode) / HEADER_SIZE - 1) * HEADER_SIZE;
      }
    }

    /** alloc.c:41-53: the header of the remainder is written, and `current` shortened to reach it. */
    method LinkNode(current: int, size: int, nextNode: int, nextSize: int)
      requires 0 < base <= current && nextNode - base + HEADER_SIZE <= mem.Length && base + mem.Length <= SIZE_T
      requires current + HEADER_SIZE <= nextNode && 0 <= size < SIZE_T && 0 <= nextSize < SIZE_T
      modifies mem
      ensures WordAt(mem[..], current - base) == nextNode
      ensures WordAt(mem[..], current - base + 4) == size
      ensures WordAt(mem[..], nextNode - base) == old(WordAt(mem[..], current - base))
      ensures WordAt(mem[..], nextNode - base + 4) == nextSize
      ensures mem[nextNode - base + 8] == 0
      ensures OnlyHeaders(old(mem[..]), mem[..], current - base, true, nextNode - base)
    {
      hide WordAt;
      StoreByte(mem, nextNode - base + 8, 0);
      StoreWord(mem, nextNode - base + 4, nextSize);
      StoreWord(mem, nextNode - base, Next(current));
      StoreWord(mem, current - base, nextNode);
      StoreWord(mem, current - base + 4, size);
    }

    /** alloc.c:83-92; the product is taken in 32 bits. */
    method Calloc(nmemb: nat, size: nat) returns (ptr: int)
      requires Valid() && WholeGap(nodes, HeapRuns.CallocSize(nmemb, size))
      modifies this, mem
      ensures Valid()
      ensures State() == HeapRuns.Allocated(old(nodes), HeapRuns.CallocSize(nmemb, size), old(held))
      ensures var a := HeapLayout.Malloc(old(nodes), HeapRuns.CallocSize(nmemb, size));
              ptr == if a.ptr.Some? then base + a.ptr.value else 0
      ensures ptr != 0 ==> && base <= ptr && ptr - base + HeapRuns.CallocSize(nmemb, size) <= HEAP_MAX_SIZE
                           && forall a :: ptr - base <= a < ptr - base + HeapRuns.CallocSize(nmemb, size) ==>
                                mem[a] == 0
      ensures KeepsBlocks(old(mem[..]), old(nodes), mem[..], nodes)
    {
      var n := HeapRuns.CallocSize(nmemb, size);
      ghost var ns, m := nodes, mem[..];
      ptr := Malloc(n);
      if ptr != 0 {
        ghost var k := FirstFit(ns, n, 0);
        ghost var m1 := mem[..];
        NodeInRegion(nodes, k);
        MemSet(mem, ptr - base, 0, n);
        PayloadWriteInBand(m1, mem[..], base, nodes, k);
        FreshBlockKeeps(ns, m, m1, mem[..], nodes, k);
      }
    }

    /** alloc.c:137-180. `panicked` tells that the pointer named a node already free. */
    method Free(ptr: int) returns (panicked: bool)
      requires Valid()
      modifies this, mem
      ensures Valid()
      ensures var s := HeapRuns.Released(old(nodes), ptr - base, old(held));
              if panicked then s == HeapRuns.Stopped(HeapRuns.DoubleFree) && State() == old(State()) else State() == s
      ensures panicked ==> mem[..] == old(mem[..])
      ensures KeepsBlocks(old(mem[..]), old(nodes), mem[..], nodes)
    {
      var current, previous;
      ghost var k;
      current, previous, k := Search(ptr);
      panicked := false;
      if current != 0 {
        ReadNode(k);
        if Used(current) {
          ReleaseAt(k, current, previous);
          held := held - {ptr - base};
        } else {
          panicked := true;
        }
      }
    }

    /** The walk of alloc.c:141-179 and 98-131: the node whose payload is at `ptr`, NULL if none, and
        the node before it. */
    method Search(ptr: int) returns (current: int, previous: int, ghost k: nat)
      requires Valid()
      ensures k == Find(nodes, ptr - base, 0)
      ensures var f := Find(nodes, ptr - base, 0);
              && current == AddressOf(base, nodes, f) && (current == 0 <==> f == |nodes|)
              && previous == if f == 0 then 0 else base + nodes[f - 1].off
    {
      current, previous, k := heapList, 0, 0;
      while current != 0 && current + HEADER_SIZE != ptr
        invariant k <= |nodes| && current == AddressOf(base, nodes, k)
        invariant previous == if k == 0 then 0 else base + nodes[k - 1].off
        invariant forall j :: 0 <= j < k ==> nodes[j].Payload() != ptr - base
        decreases |nodes| - k
      {
        ReadNode(k);
        previous := current;
        current := Next(current);
        k := k + 1;
      }
      PastTheEnd(base, nodes, k);
    }

    /** alloc.c:151-167 */
    method ReleaseAt(ghost k: nat, current: int, previous: int)
      requires Valid()
      requires k < |nodes| && nodes[k].used && current == base + nodes[k].off
      requires previous == if k == 0 then 0 else base + nodes[k - 1].off
      modifies this`nodes, mem
      ensures Valid()
      ensures nodes == Release(old(nodes), k)
      ensures KeepsBlocks(old(mem[..]), old(nodes), mem[..], nodes)
    {
      ReadNode(k);
      ghost var ns, m := nodes, mem[..];
      StoreByte(mem, current - base + 8, 0);
      FlagInBand(m, mem[..], base, ns, k, false);
      FlagKeepsTiles(ns, k, false);
      ghost var freed := ns[k := ns[k].(used := false)];
      AbsorbNext(freed, k, current);
      AbsorbPrevious(MergeNext(freed, k), k, current, previous);
      ReleaseKeeps(ns, k);
      nodes := Release(ns, k);
      HeaderWritesKeepBlocks(m, mem[..], ns, nodes, k);
    }

    /** alloc.c:156-161 */
    method AbsorbNext(ghost ns: seq<Node>, ghost k: nat, current: int)
      requires 0 < base && base + HEAP_MAX_SIZE <= SIZE_T
      requires Tiles(ns) && InBand(mem[..], base, ns)
      requires k < |ns| && current == base + ns[k].off
      modifies mem
      ensures InBand(mem[..], base, MergeNext(ns, k)) && Tiles(MergeNext(ns, k))
      ensures forall a :: 0 <= a < mem.Length && !(ns[k].off <= a < ns[k].Payload()) ==> mem[a] == old(mem[a])
    {
      NodeInRegion(ns, k);
      PastTheEnd(base, ns, k + 1);
      assert HeaderAt(mem[..], base, ns, k);
      var nextNode := Next(current);
      if nextNode != 0 {
        NodeInRegion(ns, k + 1);
        assert HeaderAt(mem[..], base, ns, k + 1);
        if !Used(nextNode) {
          Merge(ns, k, current, nextNode);
        }
      }
    }

    /** alloc.c:163-167 */
    method AbsorbPrevious(ghost ns: seq<Node>, ghost k: nat, current: int, previous: int)
      requires 0 < base && base + HEAP_MAX_SIZE <= SIZE_T
      requires Tiles(ns) && InBand(mem[..], base, ns)
      requires k < |ns| && current == base + ns[k].off
      requires previous == if k == 0 then 0 else base + ns[k - 1].off
      modifies mem
      ensures InBand(mem[..], base, MergePrevious(ns, k))
      ensures forall a ::
                0 <= a < mem.Length && !(k > 0 && ns[k - 1].off <= a < ns[k - 1].Payload()) ==> mem[a] == old(mem[a])
    {
      if k > 0 {
        NodeInRegion(ns, k - 1);
        assert HeaderAt(mem[..], base, ns, k - 1);
      }
      if previous != 0 && !Used(previous) {
        Merge(ns, k - 1, previous, current);
      }
    }

    /** alloc.c:159-160 and 165-166: `node` takes over the successor's link and bytes. */
    method Merge(ghost ns: seq<Node>, ghost k: nat, node: int, nextNode: int)
      requires 0 < base && base + HEAP_MAX_SIZE <= SIZE_T
      requires Tiles(ns) && InBand(mem[..], base, ns)
      requires k + 1 < |ns| && node == base + ns[k].off && nextNode == base + ns[k + 1].off
      modifies mem
      ensures InBand(mem[..], base, Absorb(ns, k)) && Tiles(Absorb(ns, k))
      ensures forall a :: 0 <= a < mem.Length && !(ns[k].off <= a < ns[k].Payload()) ==> mem[a] == old(mem[a])
    {
      hide Tiles, InBand, Absorb, WordAt;
      ghost var m := mem[..];
      MergeReads(m, base, ns, k);
      StoreWord(mem, node - base, Next(nextNode));
      StoreWord(mem, node - base + 4, Size(node) + HEADER_SIZE + Size(nextNode));
      AbsorbInBand(m, mem[..], base, ns, k);
    }

    /** alloc.c:94-104: `realloc` of NULL is `malloc`. A block that cannot grow is copied to NULL. */
    method Realloc(ptr: int, size: nat) returns (newPtr: int, stopped: Option<HeapRuns.Stop>)
      requires Valid() && size < SIZE_T
      requires ptr == 0 || HeapRuns.Grows(nodes, ptr - base, size) ==> WholeGap(nodes, size)
      modifies this, mem
      ensures Valid()
      ensures Outcome(stopped, if ptr == 0 then HeapRuns.Allocated(old(nodes), size, old(held))
                               else HeapRuns.Reallocated(old(nodes), ptr - base, size, old(held)))
      ensures ptr == 0 ==>
                var a := HeapLayout.Malloc(old(nodes), size);
                newPtr == if a.ptr.Some? then base + a.ptr.value else 0
      ensures ptr != 0 ==> newPtr == ReallocPtr(base, old(nodes), ptr, size)
      ensures KeepsBlocks(old(mem[..]), old(nodes), mem[..], nodes)
      ensures ptr != 0 && HeapRuns.Grows(old(nodes), ptr - base, size) && stopped.None? ==>
                Prefix(old(mem[..]), ptr - base, mem[..], newPtr - base, old(nodes[Find(nodes, ptr - base, 0)].size))
      ensures old(HeapRuns.Sound(State())) && ptr - base in old(held) && stopped.None? ==>
                Replaced(base, old(nodes), old(held), ptr, size, nodes, held, newPtr)
    {
      hide Release, Tiles, Coalesced, InBand, Take, KeepsBlocks, Prefix, HeapRuns.Sound, Replaced;
      ghost var ns, hs := nodes, held;
      if ptr == 0 {
        NullNotHeld(base, ns, hs);
        newPtr := Malloc(size);
        stopped := None;
      } else {
        newPtr, stopped := ReallocBlock(ptr, size);
        if HeapRuns.Sound(HeapRuns.Running(ns, hs)) && ptr - base in hs && stopped.None? {
          ReallocLaw(base, ns, hs, ptr, size, nodes, held, newPtr);
        }
      }
    }

    /** alloc.c:106-134 */
    method ReallocBlock(ptr: int, size: nat) returns (newPtr: int, stopped: Option<HeapRuns.Stop>)
      requires Valid() && size < SIZE_T && ptr != 0
      requires HeapRuns.Grows(nodes, ptr - base, size) ==> WholeGap(nodes, size)
      modifies this, mem
      ensures Valid()
      ensures Outcome(stopped, HeapRuns.Reallocated(old(nodes), ptr - base, size, old(held)))
      ensures newPtr == ReallocPtr(base, old(nodes), ptr, size)
      ensures KeepsBlocks(old(mem[..]), old(nodes), mem[..], nodes)
      ensures HeapRuns.Grows(old(nodes), ptr - base, size) && stopped.None? ==>
                Prefix(old(mem[..]), ptr - base, mem[..], newPtr - base, old(nodes[Find(nodes, ptr - base, 0)].size))
    {
      hide Release, Tiles, Coalesced, InBand, Take, Prefix;
      var current, previous;
      ghost var k;
      current, previous, k := Search(ptr);
      if current == 0 {
        return 0, None;
      }
      ReadNode(k);
      if size > Size(current) {
        newPtr, stopped := Grow(k, current, size);
      } else {
        newPtr, stopped := ptr, None;
      }
    }

    /** alloc.c:114-120. If `malloc` returns NULL, line 117 copies to it; that is where the model stops. */
    method Grow(ghost k: nat, current: int, size: nat) returns (newPtr: int, stopped: Option<HeapRuns.Stop>)
      requires Valid() && size < SIZE_T && WholeGap(nodes, size)
      requires k < |nodes| && current == base + nodes[k].off && size > nodes[k].size
      modifies this, mem
      ensures Valid()
      ensures Outcome(stopped, HeapRuns.Reallocated(old(nodes), current - base + HEADER_SIZE, size, old(held)))
      ensures var a := HeapLayout.Malloc(old(nodes), size);
              newPtr == if a.ptr.Some? then base + a.ptr.value else 0
      ensures KeepsBlocks(old(mem[..]), old(nodes), mem[..], nodes)
      ensures stopped.None? ==>
                Prefix(old(mem[..]), current - base + HEADER_SIZE, mem[..], newPtr - base, old(nodes[k].size))
    {
      hide Release, Tiles, Coalesced, InBand, Take, Prefix, KeepsBlocks;
      FindPayload(nodes, k);
      ghost var ns, m := nodes, mem[..];
      newPtr := Malloc(size);
      if newPtr == 0 {
        NullIsNone(ns, size);
        return 0, Some(HeapRuns.CopyToNull);
      }
      ghost var j, f := GrowCopy(ns, m, k, current, size, newPtr);
      ghost var mid, m2 := nodes, mem[..];
      var panicked := Free(current + HEADER_SIZE);
      stopped := if panicked then Some(HeapRuns.DoubleFree) else None;
      FindPayload(mid, j);
      FreeKeeps(ns, m, m2, mem[..], mid, nodes, j, panicked);
      GrownKept(m, m2, mem[..], mid, nodes, j, f, panicked);
    }

    /** NULL is nobody's payload. */
    lemma NullIsNone(ns: seq<Node>, size: nat)
      requires base > 0 && Tiles(ns)
      requires var a := HeapLayout.Malloc(ns, size); (if a.ptr.Some? then base + a.ptr.value else 0) == 0
      ensures HeapLayout.Malloc(ns, size) == Allocation(ns, None)
    {
      var k := FirstFit(ns, size, 0);
      if k < |ns| {
        NodeInRegion(ns, k);
      }
    }

    /** alloc.c:117: the new block, just taken from the list `ns`, gets the old payload at its start. */
    method GrowCopy(ghost ns: seq<Node>, ghost m: seq<byte>, ghost k: nat, current: int, size: nat, newPtr: int)
      returns (ghost j: nat, ghost f: nat)
      requires Valid() && Tiles(ns) && HeapLayout.Malloc(ns, size).ptr == Some(newPtr - base)
      requires nodes == HeapLayout.Malloc(ns, size).nodes && KeepsBlocks(m, ns, mem[..], nodes)
      requires k < |ns| && current == base + ns[k].off && size > ns[k].size
      modifies mem
      ensures Valid()
      ensures j < |nodes| && f < |nodes| && j != f && nodes[j] == ns[k]
      ensures nodes[f].used && nodes[f].Payload() == newPtr - base && nodes[j].size <= nodes[f].size
      ensures KeepsBlocks(m, ns, mem[..], nodes)
      ensures nodes[j].used ==> Prefix(m, nodes[j].Payload(), mem[..], newPtr - base, nodes[j].size)
    {
      hide Tiles, Coalesced, InBand;
      ghost var m1 := mem[..];
      f := FirstFit(ns, size, 0);
      j := if k < f then k else k + |nodes| - |ns|;
      assert nodes[j] == ns[k];
      CopyBlock(j, f, current, newPtr);
      FreshBlockKeeps(ns, m, m1, mem[..], nodes, f);
      GrownPrefix(m, m1, mem[..], mem[..], nodes[j], nodes[f]);
    }

    /** alloc.c:117: the old payload, whole, goes to the start of the new one. */
    method CopyBlock(ghost j: nat, ghost f: nat, current: int, newPtr: int)
      requires Valid()
      requires j < |nodes| && f < |nodes| && j != f && nodes[j].size <= nodes[f].size
      requires current == base + nodes[j].off && newPtr == base + nodes[f].Payload()
      modifies mem
      ensures Valid()
      ensures Prefix(old(mem[..]), nodes[j].Payload(), mem[..], nodes[f].Payload(), nodes[j].size)
      ensures forall a :: 0 <= a < HEAP_MAX_SIZE && !(nodes[f].Payload() <= a < nodes[f].End()) ==>
                mem[a] == old(mem[a])
    {
      hide Tiles, Coalesced, InBand, CopyUp, Prefix, WordAt;
      ghost var m := mem[..];
      ReadNode(j);
      NodeInRegion(nodes, f);
      PayloadsDisjoint(nodes, f, j);
      MemCpy(mem, newPtr - base, current - base + HEADER_SIZE, Size(current));
      CopiedPrefix(m, mem[..], newPtr - base, current - base + HEADER_SIZE, nodes[j].size);
      PayloadWriteInBand(m, mem[..], base, nodes, f);
    }

    /** The caller writes to a block it holds. */
    method StoreByCaller(p: int, i: nat, b: byte)
      requires Valid() && HeapRuns.StoreInside(State(), HeapRuns.CallerStores(p, i, b))
      modifies mem
      ensures Valid() && 0 <= p + i < HEAP_MAX_SIZE && mem[..] == old(mem[..])[p + i := b]
    {
      ghost var k, m := Find(nodes, p, 0), mem[..];
      NodeInRegion(nodes, k);
      StoreByte(mem, p + i, b);
      PayloadWriteInBand(m, mem[..], base, nodes, k);
    }

    // -------------------------------------------------------------- every run

    /** One call, with the pointers that the offsets stand for. */
    method Execute(c: HeapRuns.Call) returns (stopped: Option<HeapRuns.Stop>)
      requires Valid() && HeapRuns.GapWhole(State(), c) && HeapRuns.StoreInside(State(), c)
      modifies this, mem
      ensures Valid()
      ensures Outcome(stopped, HeapRuns.Step(old(State()), c))
      ensures stopped.None? ==> KeepsBlocks(Stored(old(mem[..]), c), old(nodes), mem[..], nodes)
    {
      hide Tiles, Coalesced, InBand, Prefix, Take, Release;
      var ptr := 0;
      stopped := None;
      match c {
        case CallMalloc(n) =>
          ptr := Malloc(n);
        case CallCalloc(nmemb, size) =>
          ptr := Calloc(nmemb, size);
        case CallFree(p) =>
          var panicked := Free(base + p);
          stopped := if panicked then Some(HeapRuns.DoubleFree) else None;
        case CallRealloc(None, n) =>
          ptr, stopped := Realloc(0, n);
        case CallRealloc(Some(p), n) =>
          ptr, stopped := Realloc(base + p, n);
        case CallerStores(p, i, b) =>
          StoreByCaller(p, i, b);
      }
    }

    /** Every run from heap_init, on the bytes, with `ms` the memories before each call and at the end.
        It stops exactly where the run of the lists does; a block in use holds what its caller has
        stored in it, and else what it held; and when every block has been given back, the list is the
        one heap_init built. */
    method Run(calls: seq<HeapRuns.Call>) returns (stopped: Option<HeapRuns.Stop>, ghost ms: seq<seq<byte>>)
      requires Valid() && State() == HeapRuns.Run([])
      requires HeapRuns.GapsWhole(calls) && HeapRuns.StoresInside(calls)
      modifies this, mem
      ensures Valid()
      ensures Outcome(stopped, HeapRuns.Run(calls))
      ensures 0 < |ms| <= |calls| + 1 && ms[0] == old(mem[..])
      ensures stopped.None? ==> |ms| == |calls| + 1 && ms[|calls|] == mem[..]
      ensures BlocksKept(calls, ms)
      ensures stopped.None? && held == {} ==> nodes == InitialNodes()
    {
      hide HeapRuns.GapsWhole, HeapRuns.StoresInside, HeapRuns.GapWhole, HeapRuns.StoreInside, HeapRuns.Step;
      stopped := None;
      ms := [mem[..]];
      for c := 0 to |calls|
        invariant Valid() && State() == HeapRuns.Run(calls[..c])
        invariant stopped == None && |ms| == c + 1 && ms[0] == old(mem[..]) && ms[c] == mem[..]
        invariant Trace(calls, ms)
      {
        RunStep(calls, c);
        stopped := Execute(calls[c]);
        if stopped.Some? {
          HeapRuns.StoppedStays(calls, c + 1);
          BlocksSurvive(calls, ms);
          return;
        }
        TraceGrows(calls, ms, mem[..]);
        ms := ms + [mem[..]];
      }
      assert calls[..|calls|] == calls;
      BlocksSurvive(calls, ms);
      if held == {} {
        HeapRuns.RunDrained(calls);
      }
    }
  }

  lemma TraceGrows(calls: seq<HeapRuns.Call>, ms: seq<seq<byte>>, r: seq<byte>)
    requires Trace(calls, ms) && |ms| <= |calls| && |r| == HEAP_MAX_SIZE
    requires Kept(calls, |ms| - 1, ms[|ms| - 1], r)
    ensures Trace(calls, ms + [r])
  {
    hide Kept;
  }

  lemma BlocksSurvive(calls: seq<HeapRuns.Call>, ms: seq<seq<byte>>)
    requires Trace(calls, ms)
    ensures BlocksKept(calls, ms)
  {
    forall n: Node, i: nat, j: nat | i <= j < |ms| && InUse(calls, n, i, j)
      ensures SamePayload(StoredAll(ms[i], calls[i..j]), ms[j], n)
    {
      BlockSurvives(calls, ms, n, i, j);
    }
  }

  lemma RunStep(calls: seq<HeapRuns.Call>, i: nat)
    requires i < |calls| && HeapRuns.GapsWhole(calls) && HeapRuns.StoresInside(calls)
    ensures HeapRuns.GapWhole(HeapRuns.Run(calls[..i]), calls[i])
    ensures HeapRuns.StoreInside(HeapRuns.Run(calls[..i]), calls[i])
    ensures HeapRuns.Run(calls[..i + 1]) == HeapRuns.Step(HeapRuns.Run(calls[..i]), calls[i])
  {
    hide HeapRuns.Step, HeapRuns.GapWhole, HeapRuns.StoreInside;
    assert calls[..i + 1][..i] == calls[..i];
  }
}
