/** The heap as the list of nodes that starts at `heap_list`: what one call of `malloc` or `free`
    does to that list (libc/stdlib/alloc.c), and what the list keeps over a call. */
module HeapLayout {
  import opened Options

  // sizeof(heap_node_t) on i386: two words, a bool and three bytes of padding.
  const HEADER_SIZE: int := 12
  const HEAP_MAX_SIZE: int := 4096
  const SIZE_T: int := 0x1_0000_0000

  /** A size_t. */
  type size_t = x: int | 0 <= x < SIZE_T

  /** One list node. `off` is the offset of its header from `heap_list`; its payload of `size` bytes
      follows the header. The `next` field is not kept here: it is the next node of the sequence. */
  datatype Node = Node(off: int, size: int, used: bool) {
    function Payload(): int { off + HEADER_SIZE }
    function End(): int { off + HEADER_SIZE + size }
  }

  /** The list built by `heap_init`. */
  function InitialNodes(): seq<Node> {
    [Node(0, HEAP_MAX_SIZE - HEADER_SIZE, false)]
  }

  /** Node `i + 1` starts where node `i` ends. */
  ghost predicate Joined(ns: seq<Node>, i: nat)
    requires i + 1 < |ns|
  {
    ns[i + 1].off == ns[i].End()
  }

  ghost predicate Parted(ns: seq<Node>, i: nat)
    requires i + 1 < |ns|
  {
    ns[i].used || ns[i + 1].used
  }

  /** The nodes cover the region from its first byte to its last, without gap or overlap. */
  ghost predicate Tiles(ns: seq<Node>) {
    && |ns| > 0
    && ns[0].off == 0
    && (forall i :: 0 <= i < |ns| ==> ns[i].size >= 0)
    && (forall i :: 0 <= i < |ns| - 1 ==> Joined(ns, i))
    && ns[|ns| - 1].End() == HEAP_MAX_SIZE
  }

  /** No two consecutive nodes are both free. */
  ghost predicate Coalesced(ns: seq<Node>) {
    forall i :: 0 <= i < |ns| - 1 ==> Parted(ns, i)
  }

  /** Every header lies a whole number of headers from the start of the region. */
  ghost predicate Aligned(ns: seq<Node>) {
    forall i :: 0 <= i < |ns| ==> ns[i].off % HEADER_SIZE == 0
  }

  ghost predicate WellFormed(ns: seq<Node>) {
    Tiles(ns) && Coalesced(ns) && Aligned(ns)
  }

  // ---------------------------------------------------------------- malloc

  predicate Fits(node: Node, n: int) {
    !node.used && node.size >= n
  }

  /** Index of the first node from `i` on that fits, |ns| when there is none. */
  function FirstFit(ns: seq<Node>, n: int, i: nat): (k: nat)
    requires i <= |ns|
    ensures i <= k <= |ns|
    ensures k < |ns| ==> Fits(ns[k], n)
    ensures forall j :: i <= j < k ==> !Fits(ns[j], n)
    decreases |ns| - i
  {
    if i == |ns| || Fits(ns[i], n) then i else FirstFit(ns, n, i + 1)
  }

  predicate Splits(node: Node, n: int) {
    node.size > n + HEADER_SIZE
  }

  /** The size that alloc.c:45-49 gives to the node split off node `k`, whose header is at `rest`.
      Before the last node it is a difference of `heap_node_t` pointers, which counts whole headers. */
  function SplitSize(ns: seq<Node>, k: nat, rest: int): int
    requires k < |ns|
  {
    if k + 1 == |ns| then HEAP_MAX_SIZE - (rest + HEADER_SIZE)
    else ((ns[k + 1].off - rest) / HEADER_SIZE - 1) * HEADER_SIZE
  }

  /** Node `k` is taken for `n` bytes: split when more than a header is left over. */
  function Take(ns: seq<Node>, k: nat, n: int): (r: seq<Node>)
    requires k < |ns|
    ensures |ns| <= |r| <= |ns| + 1
  {
    var node := ns[k];
    if Splits(node, n) then
      var rest := node.Payload() + n;
      ns[..k] + [Node(node.off, n, true), Node(rest, SplitSize(ns, k, rest), false)] + ns[k + 1..]
    else
      ns[k := node.(used := true)]
  }

  /** What a call leaves behind: the node list, and the payload offset handed out, if any. */
  datatype Allocation = Allocation(nodes: seq<Node>, ptr: Option<int>)

  function Malloc(ns: seq<Node>, n: int): Allocation {
    var k := FirstFit(ns, n, 0);
    if k == |ns| then Allocation(ns, None) else Allocation(Take(ns, k, n), Some(ns[k].Payload()))
  }

  /** The pointer subtraction of alloc.c:48 is over whole headers, or is not reached. */
  predicate WholeGap(ns: seq<Node>, n: int) {
    var k := FirstFit(ns, n, 0);
    k + 1 < |ns| && Splits(ns[k], n) ==> (ns[k].size - n) % HEADER_SIZE == 0
  }

  // ---------------------------------------------------------------- free

  /** Index of the node whose payload is at `p`, |ns| when there is none. */
  function Find(ns: seq<Node>, p: int, i: nat): (k: nat)
    requires i <= |ns|
    ensures i <= k <= |ns|
    ensures k < |ns| ==> ns[k].Payload() == p
    ensures forall j :: i <= j < k ==> ns[j].Payload() != p
    decreases |ns| - i
  {
    if i == |ns| || ns[i].Payload() == p then i else Find(ns, p, i + 1)
  }

  /** Node `k` absorbs its successor, header included. */
  function Absorb(ns: seq<Node>, k: nat): (r: seq<Node>)
    requires k + 1 < |ns|
  {
    ns[..k] + [ns[k].(size := ns[k].size + HEADER_SIZE + ns[k + 1].size)] + ns[k + 2..]
  }

  /** Node `k` is merged with its successor if that is free too (alloc.c:156-161). */
  function MergeNext(ns: seq<Node>, k: nat): (r: seq<Node>)
    requires k < |ns|
    ensures k < |r| && r[..k] == ns[..k] && r[k].off == ns[k].off
  {
    if k + 1 < |ns| && !ns[k + 1].used then Absorb(ns, k) else ns
  }

  /** The predecessor of node `k` is merged with it if it is free too (alloc.c:163-167). */
  function MergePrevious(ns: seq<Node>, k: nat): seq<Node>
    requires k < |ns|
  {
    if k > 0 && !ns[k - 1].used then Absorb(ns, k - 1) else ns
  }

  function Release(ns: seq<Node>, k: nat): seq<Node>
    requires k < |ns|
  {
    MergePrevious(MergeNext(ns[k := ns[k].(used := false)], k), k)
  }

  // ---------------------------------------------------------------- order of the nodes

  lemma {:induction false} NodesAscend(ns: seq<Node>, i: nat, j: nat)
    requires Tiles(ns)
    requires i < j < |ns|
    ensures ns[i].End() <= ns[j].off
    decreases j - i
  {
    assert Joined(ns, i);
    if i + 1 < j {
      NodesAscend(ns, i + 1, j);
    }
  }

  /** Every node lies inside the region. */
  lemma NodeInRegion(ns: seq<Node>, i: nat)
    requires Tiles(ns)
    requires i < |ns|
    ensures 0 <= ns[i].off && ns[i].End() <= HEAP_MAX_SIZE
  {
    if i > 0 {
      NodesAscend(ns, 0, i);
    }
    if i < |ns| - 1 {
      NodesAscend(ns, i, |ns| - 1);
    }
  }

  /** Payloads of different nodes do not overlap. */
  lemma PayloadsDisjoint(ns: seq<Node>, i: nat, j: nat)
    requires Tiles(ns)
    requires i < |ns| && j < |ns| && i != j
    ensures ns[i].End() <= ns[j].off || ns[j].End() <= ns[i].off
    ensures ns[i] != ns[j]
  {
    if i < j {
      NodesAscend(ns, i, j);
    } else {
      NodesAscend(ns, j, i);
    }
  }

  /** A payload address belongs to one node only. */
  lemma FindPayload(ns: seq<Node>, k: nat)
    requires Tiles(ns)
    requires k < |ns|
    ensures Find(ns, ns[k].Payload(), 0) == k
  {
    var f := Find(ns, ns[k].Payload(), 0);
    if f != k {
      PayloadsDisjoint(ns, f, k);
    }
  }

  /** Every byte of the region belongs to some node. */
  lemma {:induction false} ByteHasNode(ns: seq<Node>, a: int, i: nat) returns (k: nat)
    requires Tiles(ns)
    requires i < |ns| && ns[i].off <= a < HEAP_MAX_SIZE
    ensures i <= k < |ns| && ns[k].off <= a < ns[k].End()
    decreases |ns| - i
  {
    if a < ns[i].End() {
      k := i;
    } else {
      assert i + 1 < |ns| ==> Joined(ns, i);
      k := ByteHasNode(ns, a, i + 1);
    }
  }

  // ---------------------------------------------------------------- one call

  /** A split keeps the tiling exactly when line 48 subtracts over whole headers. */
  lemma TakeTilesIff(ns: seq<Node>, k: nat, n: int)
    requires Tiles(ns)
    requires k < |ns| && Fits(ns[k], n) && n >= 0
    ensures Tiles(Take(ns, k, n)) <==> (k + 1 < |ns| && Splits(ns[k], n) ==> (ns[k].size - n) % HEADER_SIZE == 0)
  {
    var r := Take(ns, k, n);
    var d := |r| - |ns|;
    assert k + 1 < |ns| ==> Joined(ns, k);
    assert d == 1 && k + 1 < |ns| ==> r[k + 2] == ns[k + 1];
    if d == 1 && k + 1 < |ns| && (ns[k].size - n) % HEADER_SIZE != 0 {
      assert !Joined(r, k + 1);
    } else {
      forall i | 0 <= i < |r| - 1
        ensures Joined(r, i)
      {
        if i + 1 < k {
          assert Joined(ns, i);
        } else if i + 1 == k {
          assert Joined(ns, i);
        } else if i > k + d {
          assert Joined(ns, i - d) && r[i] == ns[i - d] && r[i + 1] == ns[i + 1 - d];
        }
      }
    }
  }

  /** A node is split exactly when that leaves a byte besides the header; a block wastes at most a header,
      and that only if its node was too small to split. */
  lemma TakeWaste(ns: seq<Node>, k: nat, n: int)
    requires Tiles(ns)
    requires k < |ns| && Fits(ns[k], n) && n >= 0
    ensures var r := Take(ns, k, n);
      && (|r| == |ns| + 1 <==> ns[k].size >= n + HEADER_SIZE + 1)
      && n <= r[k].size <= n + HEADER_SIZE
      && (r[k].size > n ==> |r| == |ns|)
      && (|r| == |ns| + 1 && Tiles(r) ==> !r[k + 1].used && 1 <= r[k + 1].size == ns[k].size - n - HEADER_SIZE)
  {
    var r := Take(ns, k, n);
    assert k + 1 < |ns| ==> Joined(ns, k);
    if |r| == |ns| + 1 && Tiles(r) {
      assert Joined(r, k);
      if k + 1 < |ns| {
        assert Joined(r, k + 1) && r[k + 2] == ns[k + 1];
      }
    }
  }

  lemma TakeLayout(ns: seq<Node>, k: nat, n: int)
    requires Tiles(ns) && Coalesced(ns)
    requires k < |ns| && Fits(ns[k], n) && n >= 0
    requires k + 1 < |ns| && Splits(ns[k], n) ==> (ns[k].size - n) % HEADER_SIZE == 0
    ensures Tiles(Take(ns, k, n)) && Coalesced(Take(ns, k, n))
  {
    TakeTilesIff(ns, k, n);
    TakeCoalesced(ns, k, n);
  }

  /** `malloc` splits for every aligned request without breaking the layout. */
  lemma TakeKeeps(ns: seq<Node>, k: nat, n: int)
    requires WellFormed(ns)
    requires k < |ns| && Fits(ns[k], n) && n >= 0 && n % HEADER_SIZE == 0
    ensures WellFormed(Take(ns, k, n))
  {
    assert ns[k].off % HEADER_SIZE == 0;
    if k + 1 < |ns| {
      assert Joined(ns, k) && ns[k + 1].off % HEADER_SIZE == 0;
      WholeRest(ns[k].off, ns[k + 1].off, ns[k].size, n);
    }
    TakeLayout(ns, k, n);
    TakeAligned(ns, k, n);
  }

  lemma WholeRest(off: int, next: int, size: int, n: int)
    requires off % HEADER_SIZE == 0 && next % HEADER_SIZE == 0 && n % HEADER_SIZE == 0
    requires next == off + HEADER_SIZE + size
    ensures (size - n) % HEADER_SIZE == 0
  {}

  /** The only new header stands `n` bytes behind another. */
  lemma TakeAligned(ns: seq<Node>, k: nat, n: int)
    requires Aligned(ns) && k < |ns| && n % HEADER_SIZE == 0
    ensures Aligned(Take(ns, k, n))
  {
    var r := Take(ns, k, n);
    assert ns[k].off % HEADER_SIZE == 0;
    var d := |r| - |ns|;
    forall i | 0 <= i < |r|
      ensures r[i].off % HEADER_SIZE == 0
    {
      if i <= k {
        assert r[i].off == ns[i].off;
      } else if i > k + d {
        assert r[i] == ns[i - d];
      } else {
        assert r[i].off == ns[k].off + HEADER_SIZE + n;
      }
    }
  }

  lemma TakeCoalesced(ns: seq<Node>, k: nat, n: int)
    requires Coalesced(ns)
    requires k < |ns| && Fits(ns[k], n)
    ensures Coalesced(Take(ns, k, n))
  {
    var r := Take(ns, k, n);
    var d := |r| - |ns|;
    forall i | 0 <= i < |r| - 1
      ensures Parted(r, i)
    {
      if i < k {
        assert Parted(ns, i);
      } else if i >= k + d {
        assert Parted(ns, i - d) && r[i + 1] == ns[i + 1 - d];
      }
    }
  }

  lemma AbsorbKeeps(ns: seq<Node>, k: nat)
    requires Tiles(ns)
    requires k + 1 < |ns|
    ensures Tiles(Absorb(ns, k))
    ensures Aligned(ns) ==> Aligned(Absorb(ns, k))
  {
    var r := Absorb(ns, k);
    assert forall i :: k < i < |r| ==> r[i] == ns[i + 1];
    assert Joined(ns, k);
    forall i | 0 <= i < |r| - 1
      ensures Joined(r, i)
    {
      assert Joined(ns, if i < k then i else i + 1);
    }
  }

  lemma FlagKeepsTiles(ns: seq<Node>, k: nat, used: bool)
    requires Tiles(ns) && k < |ns|
    ensures Tiles(ns[k := ns[k].(used := used)])
  {
    var r := ns[k := ns[k].(used := used)];
    forall i | 0 <= i < |r| - 1
      ensures Joined(r, i)
    {
      assert Joined(ns, i);
    }
  }

  /** `free` keeps the layout, whatever the sizes of the blocks. */
  lemma ReleaseKeeps(ns: seq<Node>, k: nat)
    requires Tiles(ns) && Coalesced(ns)
    requires k < |ns| && ns[k].used
    ensures Tiles(Release(ns, k)) && Coalesced(Release(ns, k))
    ensures Aligned(ns) ==> Aligned(Release(ns, k))
  {
    var freed := ns[k := ns[k].(used := false)];
    FlagKeepsTiles(ns, k, false);
    if k + 1 < |ns| && !ns[k + 1].used {
      AbsorbKeeps(freed, k);
      if k > 0 && !ns[k - 1].used {
        AbsorbKeeps(Absorb(freed, k), k - 1);
      }
    } else if k > 0 && !ns[k - 1].used {
      AbsorbKeeps(freed, k - 1);
    }
    ReleaseCoalesced(ns, k);
  }

  /** `free` turns the nodes m..m+d, of which only `k` is in use, into the one free node `m`. */
  lemma ReleaseShape(ns: seq<Node>, k: nat) returns (m: nat, d: nat)
    requires k < |ns|
    ensures m <= k <= m + d < |ns| && d <= 2
    ensures forall i :: m <= i <= m + d && i != k ==> !ns[i].used
    ensures m + d + 1 < |ns| && m + d == k ==> ns[k + 1].used
    ensures m > 0 && m == k ==> ns[k - 1].used
    ensures var r := Release(ns, k);
      && |r| + d == |ns| && !r[m].used && r[m].off == ns[m].off
      && r == ns[..m] + [r[m]] + ns[m + d + 1..]
  {
    var freed := ns[k := ns[k].(used := false)];
    var merged := MergeNext(freed, k);
    var left := k > 0 && !ns[k - 1].used;
    var right := k + 1 < |ns| && !ns[k + 1].used;
    m := if left then k - 1 else k;
    d := (if left then 1 else 0) + (if right then 1 else 0);
    assert merged[k + 1..] == ns[if right then k + 2 else k + 1..];
    assert merged == ns[..k] + [merged[k]] + merged[k + 1..];
    assert left ==> merged[..k - 1] == ns[..k - 1];
  }

  /** The used nodes after `free` are the used nodes before it, but for the one released. */
  lemma ReleaseUsed(ns: seq<Node>, k: nat, n: Node)
    requires Tiles(ns)
    requires k < |ns| && n.used
    ensures n in Release(ns, k) <==> n in ns && n != ns[k]
  {
    var m, d := ReleaseShape(ns, k);
    MergeUsed(ns, Release(ns, k), k, m, d, n);
  }

  lemma MergeUsed(ns: seq<Node>, r: seq<Node>, k: nat, m: nat, d: nat, n: Node)
    requires Tiles(ns) && n.used
    requires m <= k <= m + d < |ns| && |r| + d == |ns|
    requires forall i :: m <= i <= m + d && i != k ==> !ns[i].used
    requires !r[m].used && r == ns[..m] + [r[m]] + ns[m + d + 1..]
    ensures n in r <==> n in ns && n != ns[k]
  {
    if n in r {
      var i :| 0 <= i < |r| && r[i] == n;
      var j := if i < m then i else i + d;
      assert ns[j] == n;
      PayloadsDisjoint(ns, j, k);
    }
    if n in ns && n != ns[k] {
      var i :| 0 <= i < |ns| && ns[i] == n;
      assert r[if i < m then i else i - d] == n;
    }
  }

  lemma ReleaseCoalesced(ns: seq<Node>, k: nat)
    requires Coalesced(ns)
    requires k < |ns| && ns[k].used
    ensures Coalesced(Release(ns, k))
  {
    hide Release;
    var r := Release(ns, k);
    var m, d := ReleaseShape(ns, k);
    forall i | 0 <= i < |r| - 1
      ensures Parted(r, i)
    {
      assert i < m ==> r[i] == ns[i];
      assert i + 1 > m ==> r[i + 1] == ns[i + 1 + d];
      if i + 1 < m {
        assert Parted(ns, i);
      } else if i > m {
        assert Parted(ns, i + d);
      } else if i == m && m + d > k {
        assert Parted(ns, m + d);
      } else if i + 1 == m && m < k {
        assert Parted(ns, i);
      }
    }
  }

  // ---------------------------------------------------------------- first fit is complete

  /** The bytes [lo, hi) lie in the region and touch no used block, header or payload. */
  ghost predicate Vacant(ns: seq<Node>, lo: int, hi: int) {
    && 0 <= lo <= hi <= HEAP_MAX_SIZE
    && forall i :: 0 <= i < |ns| && ns[i].used ==> hi <= ns[i].off || ns[i].End() <= lo
  }

  /** A vacant range that can hold a header and `n` bytes begins inside a node that fits. */
  lemma VacantInOneNode(ns: seq<Node>, n: int, lo: int, hi: int) returns (k: nat)
    requires Tiles(ns) && Coalesced(ns)
    requires n >= 0 && Vacant(ns, lo, hi) && hi - lo >= HEADER_SIZE + n
    ensures k < |ns| && Fits(ns[k], n) && ns[k].off <= lo
  {
    k := ByteHasNode(ns, lo, 0);
    if k + 1 < |ns| {
      assert Joined(ns, k) && Parted(ns, k);
      NodeInRegion(ns, k + 1);
    }
  }

  lemma FreeNodeVacant(ns: seq<Node>, k: nat)
    requires Tiles(ns)
    requires k < |ns| && !ns[k].used
    ensures Vacant(ns, ns[k].off, ns[k].End())
  {
    NodeInRegion(ns, k);
    forall i | 0 <= i < |ns| && ns[i].used
      ensures ns[k].End() <= ns[i].off || ns[i].End() <= ns[k].off
    {
      PayloadsDisjoint(ns, i, k);
    }
  }

  /** `malloc` fails exactly when every vacant range is shorter than a header and `n` bytes;
      otherwise it hands out the payload of the lowest range that is long enough. */
  lemma MallocComplete(ns: seq<Node>, n: int)
    requires Tiles(ns) && Coalesced(ns)
    requires n >= 0
    ensures Malloc(ns, n).ptr == None <==> forall lo, hi :: Vacant(ns, lo, hi) ==> hi - lo < HEADER_SIZE + n
    ensures var ptr := Malloc(ns, n).ptr; ptr.Some? ==>
        && Vacant(ns, ptr.value - HEADER_SIZE, ptr.value + n)
        && forall lo, hi :: Vacant(ns, lo, hi) && hi - lo >= HEADER_SIZE + n ==> ptr.value - HEADER_SIZE <= lo
  {
    var k := FirstFit(ns, n, 0);
    if k < |ns| {
      FreeNodeVacant(ns, k);
    }
    forall lo, hi | Vacant(ns, lo, hi) && hi - lo >= HEADER_SIZE + n
      ensures k < |ns| && ns[k].off <= lo
    {
      var v := VacantInOneNode(ns, n, lo, hi);
      if k < v {
        NodesAscend(ns, k, v);
      }
    }
  }

  // ---------------------------------------------------------------- canonical forms

  /** `free` of what `malloc` has just returned restores the node list, split or not. */
  lemma MallocThenFree(ns: seq<Node>, n: int)
    requires Tiles(ns) && Coalesced(ns)
    requires n >= 0 && WholeGap(ns, n)
    ensures var a := Malloc(ns, n); a.ptr.Some? ==>
        var k := Find(a.nodes, a.ptr.value, 0);
        k < |a.nodes| && a.nodes[k].used && Release(a.nodes, k) == ns
  {
    var a := Malloc(ns, n);
    if a.ptr.Some? {
      var k := FirstFit(ns, n, 0);
      TakeTilesIff(ns, k, n);
      assert a.nodes[k].Payload() == a.ptr.value;
      FindPayload(a.nodes, k);
      ReleaseUndoesTake(ns, k, n);
    }
  }

  lemma ReleaseUndoesTake(ns: seq<Node>, k: nat, n: int)
    requires Tiles(ns) && Coalesced(ns)
    requires k < |ns| && Fits(ns[k], n) && n >= 0
    requires k + 1 < |ns| && Splits(ns[k], n) ==> (ns[k].size - n) % HEADER_SIZE == 0
    ensures Release(Take(ns, k, n), k) == ns
  {
    var t := Take(ns, k, n);
    var freed := t[k := t[k].(used := false)];
    assert k > 0 ==> Parted(ns, k - 1);
    assert k + 1 < |ns| ==> Joined(ns, k) && Parted(ns, k);
    if Splits(ns[k], n) {
      assert t[k + 1].size == ns[k].size - n - HEADER_SIZE;
      assert Absorb(freed, k) == ns;
    } else {
      assert freed == ns;
    }
  }

  /** Without used nodes the tiling has one form only, the one `heap_init` builds. */
  lemma NoUsedNodes(ns: seq<Node>)
    requires Tiles(ns) && Coalesced(ns)
    requires forall i :: 0 <= i < |ns| ==> !ns[i].used
    ensures ns == InitialNodes()
  {
    assert |ns| > 1 ==> Parted(ns, 0);
  }
}
