/** Whole runs of `malloc`, `calloc`, `realloc` and `free` from the list that `heap_init` builds, with
    the caller's own stores into the blocks it holds in between. */
module HeapRuns {
  import opened Options
  import opened Memory
  import opened HeapLayout

  datatype Call =
    | CallMalloc(n: size_t)
    | CallCalloc(nmemb: size_t, size: size_t)
    | CallRealloc(block: Option<nat>, n: size_t)
    | CallFree(p: int)
    | CallerStores(p: int, i: nat, b: byte)  // byte `i` of the block at `p`

  /** Why a run cannot go on: `free` met a node already free, or `realloc` copied into NULL. */
  datatype Stop = DoubleFree | CopyToNull

  /** `held` is what the caller knows: the payloads handed out and not yet given back. */
  datatype State =
    | Running(nodes: seq<Node>, held: set<int>)
    | Stopped(why: Stop)

  function Released(ns: seq<Node>, p: int, held: set<int>): State {
    var k := Find(ns, p, 0);
    if k == |ns| then Running(ns, held)
    else if ns[k].used then Running(Release(ns, k), held - {p})
    else Stopped(DoubleFree)
  }

  function Allocated(ns: seq<Node>, n: nat, held: set<int>): State {
    var a := Malloc(ns, n);
    Running(a.nodes, if a.ptr.Some? then held + {a.ptr.value} else held)
  }

  /** Growth takes a new block and releases the old one; a block that is large enough stays. */
  function Reallocated(ns: seq<Node>, p: int, n: nat, held: set<int>): State {
    var k := Find(ns, p, 0);
    if k == |ns| || n <= ns[k].size then Running(ns, held)
    else if Malloc(ns, n).ptr.None? then Stopped(CopyToNull)
    else var t := Allocated(ns, n, held); Released(t.nodes, p, t.held)
  }

  /** `nmemb * size` in 32-bit arithmetic. */
  function CallocSize(nmemb: nat, size: nat): nat {
    (nmemb * size) % SIZE_T
  }

  /** `calloc` asks for room for all its members exactly when their product is a size_t. */
  lemma CallocExactIff(nmemb: nat, size: nat)
    ensures CallocSize(nmemb, size) == nmemb * size <==> nmemb * size < SIZE_T
  {
    assert nmemb * size >= 0;
  }

  /** Room for 65536 members of 65536 bytes is no room at all. */
  lemma CallocWraps()
    ensures CallocSize(65536, 65536) == 0
  {}

  function Step(s: State, c: Call): State {
    if s.Stopped? then s else
    match c
    case CallMalloc(n) => Allocated(s.nodes, n, s.held)
    case CallCalloc(nmemb, size) => Allocated(s.nodes, CallocSize(nmemb, size), s.held)
    case CallFree(p) => Released(s.nodes, p, s.held)
    case CallRealloc(None, n) => Allocated(s.nodes, n, s.held)
    case CallRealloc(Some(p), n) => Reallocated(s.nodes, p, n, s.held)
    case CallerStores(_, _, _) => s
  }

  function Run(calls: seq<Call>): State {
    if calls == [] then Running(InitialNodes(), {})
    else Step(Run(calls[..|calls| - 1]), calls[|calls| - 1])
  }

  function Requested(c: Call): nat {
    match c
    case CallMalloc(n) => n
    case CallCalloc(nmemb, size) => CallocSize(nmemb, size)
    case CallRealloc(_, n) => n
    case CallFree(_) => 0
    case CallerStores(_, _, _) => 0
  }

  /** The call gets to `malloc`. */
  predicate Allocates(ns: seq<Node>, c: Call) {
    match c
    case CallMalloc(_) => true
    case CallCalloc(_, _) => true
    case CallRealloc(None, _) => true
    case CallRealloc(Some(p), n) => Grows(ns, p, n)
    case CallFree(_) => false
    case CallerStores(_, _, _) => false
  }

  /** The node at `p` has to grow to hold `n` bytes. */
  predicate Grows(ns: seq<Node>, p: int, n: nat) {
    var k := Find(ns, p, 0);
    k < |ns| && n > ns[k].size
  }

  /** If the call splits a node, alloc.c:48 subtracts over whole headers. */
  predicate GapWhole(s: State, c: Call) {
    s.Running? && Allocates(s.nodes, c) ==> WholeGap(s.nodes, Requested(c))
  }

  ghost predicate GapsWhole(calls: seq<Call>) {
    forall i :: 0 <= i < |calls| ==> GapWhole(Run(calls[..i]), calls[i])
  }

  /** The caller stores into the payloads of the blocks it holds, and nowhere else. */
  predicate StoreInside(s: State, c: Call) {
    s.Running? && c.CallerStores? ==>
      var k := Find(s.nodes, c.p, 0);
      c.p in s.held && k < |s.nodes| && c.i < s.nodes[k].size
  }

  ghost predicate StoresInside(calls: seq<Call>) {
    forall i :: 0 <= i < |calls| ==> StoreInside(Run(calls[..i]), calls[i])
  }

  ghost function UsedPayloads(ns: seq<Node>): set<int> {
    set i | 0 <= i < |ns| && ns[i].used :: ns[i].Payload()
  }

  /** The list tiles the region, no two free neighbours are left, and the blocks in use are the ones
      the caller holds. */
  ghost predicate Sound(s: State) {
    s.Running? ==> Tiles(s.nodes) && Coalesced(s.nodes) && s.held == UsedPayloads(s.nodes)
  }

  // ---------------------------------------------------------------- one step

  lemma TakePayloads(ns: seq<Node>, k: nat, n: int)
    requires k < |ns| && !ns[k].used
    ensures UsedPayloads(Take(ns, k, n)) == UsedPayloads(ns) + {ns[k].Payload()}
  {
    var r := Take(ns, k, n);
    var d := |r| - |ns|;
    assert r[k].used && r[k].Payload() == ns[k].Payload();
    forall p | p in UsedPayloads(ns)
      ensures p in UsedPayloads(r)
    {
      var i :| 0 <= i < |ns| && ns[i].used && ns[i].Payload() == p;
      assert r[if i < k then i else i + d] == ns[i];
    }
    forall p | p in UsedPayloads(r)
      ensures p in UsedPayloads(ns) + {ns[k].Payload()}
    {
      var i :| 0 <= i < |r| && r[i].used && r[i].Payload() == p;
      assert i < k ==> r[i] == ns[i];
      assert i > k ==> r[i] == ns[i - d];
    }
  }

  lemma ReleasePayloads(ns: seq<Node>, k: nat)
    requires Tiles(ns)
    requires k < |ns| && ns[k].used
    ensures UsedPayloads(Release(ns, k)) == UsedPayloads(ns) - {ns[k].Payload()}
  {
    var r := Release(ns, k);
    forall p
      ensures p in UsedPayloads(r) <==> p in UsedPayloads(ns) - {ns[k].Payload()}
    {
      if p in UsedPayloads(r) {
        var i :| 0 <= i < |r| && r[i].used && r[i].Payload() == p;
        ReleaseUsed(ns, k, r[i]);
        var j :| 0 <= j < |ns| && ns[j] == r[i];
        PayloadsDisjoint(ns, j, k);
      }
      if p in UsedPayloads(ns) - {ns[k].Payload()} {
        var i :| 0 <= i < |ns| && ns[i].used && ns[i].Payload() == p;
        ReleaseUsed(ns, k, ns[i]);
      }
    }
  }

  lemma AllocatedSound(ns: seq<Node>, n: nat, held: set<int>)
    requires Sound(Running(ns, held)) && WholeGap(ns, n)
    ensures Sound(Allocated(ns, n, held))
  {
    var k := FirstFit(ns, n, 0);
    if k < |ns| {
      TakeLayout(ns, k, n);
      TakePayloads(ns, k, n);
    }
  }

  lemma ReleasedSound(ns: seq<Node>, p: int, held: set<int>)
    requires Sound(Running(ns, held))
    ensures Sound(Released(ns, p, held))
  {
    var k := Find(ns, p, 0);
    if k < |ns| && ns[k].used {
      ReleaseKeeps(ns, k);
      ReleasePayloads(ns, k);
    }
  }

  lemma StepSound(s: State, c: Call)
    requires Sound(s) && GapWhole(s, c)
    ensures Sound(Step(s, c))
  {
    if s.Running? {
      if Allocates(s.nodes, c) {
        AllocatedSound(s.nodes, Requested(c), s.held);
      }
      match c
      case CallFree(p) => ReleasedSound(s.nodes, p, s.held);
      case CallRealloc(Some(p), n) =>
        if Grows(s.nodes, p, n) {
          var t := Allocated(s.nodes, n, s.held);
          ReleasedSound(t.nodes, p, t.held);
        }
      case _ =>
    }
  }

  // ---------------------------------------------------------------- every run

  /** Over every run whose splits subtract whole headers, the nodes tile the region, no two
      neighbours are free, and the blocks in use are the ones held by the caller. */
  lemma {:induction false} RunSound(calls: seq<Call>)
    requires GapsWhole(calls)
    ensures Sound(Run(calls))
  {
    if calls != [] {
      var n := |calls| - 1;
      assert forall i :: 0 <= i < n ==> calls[..n][..i] == calls[..i];
      RunSound(calls[..n]);
      StepSound(Run(calls[..n]), calls[n]);
    }
  }

  /** A run that has stopped stays stopped. */
  lemma {:induction false} StoppedStays(calls: seq<Call>, i: nat)
    requires i <= |calls| && Run(calls[..i]).Stopped?
    ensures Run(calls) == Run(calls[..i])
  {
    if i < |calls| {
      var n := |calls| - 1;
      assert calls[..n][..i] == calls[..i];
      StoppedStays(calls[..n], i);
    } else {
      assert calls[..i] == calls;
    }
  }

  lemma AlignedGapWhole(ns: seq<Node>, n: nat)
    requires Tiles(ns) && Aligned(ns) && n % HEADER_SIZE == 0
    ensures WholeGap(ns, n)
  {
    var k := FirstFit(ns, n, 0);
    if k + 1 < |ns| {
      assert Joined(ns, k) && ns[k].off % HEADER_SIZE == 0 && ns[k + 1].off % HEADER_SIZE == 0;
      WholeRest(ns[k].off, ns[k + 1].off, ns[k].size, n);
    }
  }

  /** Requests for whole headers keep every header aligned, so such runs meet line 48's demand. */
  lemma {:induction false} AlignedRunWhole(calls: seq<Call>)
    requires forall c :: c in calls ==> Requested(c) % HEADER_SIZE == 0
    ensures GapsWhole(calls)
    ensures Run(calls).Running? ==> Aligned(Run(calls).nodes)
  {
    hide Step, WholeGap, GapWhole;
    if calls != [] {
      var n := |calls| - 1;
      var s := Run(calls[..n]);
      AlignedRunWhole(calls[..n]);
      RunSound(calls[..n]);
      if s.Running? {
        AlignedGap(s, calls[n]);
        AlignedStep(s, calls[n]);
      } else {
        StoppedStays(calls, n);
        NoGap(s, calls[n]);
      }
      forall i | 0 <= i < |calls|
        ensures GapWhole(Run(calls[..i]), calls[i])
      {
        if i < n {
          assert calls[..n][..i] == calls[..i];
          assert GapWhole(Run(calls[..n][..i]), calls[..n][i]);
        }
      }
    }
  }

  lemma NoGap(s: State, c: Call)
    requires s.Stopped?
    ensures GapWhole(s, c)
  {}

  lemma AlignedGap(s: State, c: Call)
    requires s.Running? && Sound(s) && Aligned(s.nodes) && Requested(c) % HEADER_SIZE == 0
    ensures GapWhole(s, c)
  {
    AlignedGapWhole(s.nodes, Requested(c));
  }

  lemma AlignedStep(s: State, c: Call)
    requires s.Running? && Sound(s) && Aligned(s.nodes)
    requires Requested(c) % HEADER_SIZE == 0
    ensures Step(s, c).Running? ==> Aligned(Step(s, c).nodes)
  {
    AllocatedAligned(s.nodes, Requested(c), s.held);
    AllocatedSound(s.nodes, Requested(c), s.held) by { AlignedGapWhole(s.nodes, Requested(c)); }
    match c
    case CallFree(p) => ReleasedAligned(s.nodes, p, s.held);
    case CallRealloc(Some(p), n) =>
      var t := Allocated(s.nodes, n, s.held);
      ReleasedAligned(t.nodes, p, t.held);
    case _ =>
  }

  /** A run meets line 48's demand exactly when every `malloc` it makes leaves a tiling behind. */
  lemma {:induction false} GapsWholeIff(calls: seq<Call>)
    ensures GapsWhole(calls) <==> forall i :: 0 <= i < |calls| ==> MallocTiles(Run(calls[..i]), calls[i])
  {
    hide GapWhole, MallocTiles, Run;
    if calls != [] {
      var n := |calls| - 1;
      var front := calls[..n];
      GapsWholeIff(front);
      forall i | 0 <= i < n
        ensures front[..i] == calls[..i] && front[i] == calls[i]
      {}
      if forall i :: 0 <= i < n ==> GapWhole(Run(calls[..i]), calls[i]) {
        assert GapsWhole(front);
        RunSound(front);
        GapTiles(Run(front), calls[n]);
      } else {
        assert !GapsWhole(front);
      }
    }
  }

  /** If the call gets to `malloc`, the list is a tiling when that returns. */
  ghost predicate MallocTiles(s: State, c: Call) {
    s.Running? && Allocates(s.nodes, c) ==> Tiles(Malloc(s.nodes, Requested(c)).nodes)
  }

  lemma GapTiles(s: State, c: Call)
    requires Sound(s)
    ensures GapWhole(s, c) <==> MallocTiles(s, c)
  {
    if s.Running? && Allocates(s.nodes, c) {
      var k := FirstFit(s.nodes, Requested(c), 0);
      if k < |s.nodes| {
        TakeTilesIff(s.nodes, k, Requested(c));
      }
    }
  }

  /** A request of 1 byte, met by 30 bytes given back before a block in use, loses five bytes: 29 less
      a header are not a whole number of headers. */
  lemma TilingLost()
    ensures var s := Run([CallMalloc(30), CallMalloc(12), CallFree(12), CallMalloc(1)]);
      s.Running? && !Tiles(s.nodes)
  {
    hide Step;
    var calls := [CallMalloc(30), CallMalloc(12), CallFree(12), CallMalloc(1)];
    var n1 := [Node(0, 30, true), Node(42, 4042, false)];
    var n2 := [Node(0, 30, true), Node(42, 12, true), Node(66, 4018, false)];
    var n3 := [Node(0, 30, false), Node(42, 12, true), Node(66, 4018, false)];
    var n4 := [Node(0, 1, true), Node(13, 12, false), Node(42, 12, true), Node(66, 4018, false)];
    var s1 := RunOne(calls, 1, InitialNodes(), {});
    MallocAt(InitialNodes(), 30, {}, 0, n1);
    var s2 := RunOne(calls, 2, n1, {12});
    MallocAt(n1, 12, {12}, 1, n2);
    var s3 := RunOne(calls, 3, n2, {12, 54});
    FreeFirst(n2, {12, 54}, n3);
    var s4 := RunOne(calls, 4, n3, {54});
    MallocAt(n3, 1, {54}, 0, n4);
    assert !Joined(n4, 1);
  }

  lemma MallocAt(ns: seq<Node>, n: size_t, held: set<int>, k: nat, r: seq<Node>)
    requires k < |ns| && Fits(ns[k], n) && forall j :: 0 <= j < k ==> !Fits(ns[j], n)
    requires r == Take(ns, k, n)
    ensures Step(Running(ns, held), CallMalloc(n)) == Running(r, held + {ns[k].Payload()})
  {}

  lemma FreeFirst(ns: seq<Node>, held: set<int>, r: seq<Node>)
    requires |ns| > 1 && ns[0].used && ns[1].used && r == ns[0 := ns[0].(used := false)]
    ensures Step(Running(ns, held), CallFree(ns[0].Payload())) == Running(r, held - {ns[0].Payload()})
  {}

  lemma RunOne(calls: seq<Call>, i: nat, ns: seq<Node>, held: set<int>) returns (s: State)
    requires 0 < i <= |calls| && Run(calls[..i - 1]) == Running(ns, held)
    ensures s == Run(calls[..i]) == Step(Running(ns, held), calls[i - 1])
    ensures i == |calls| ==> s == Run(calls)
  {
    assert calls[..i][..i - 1] == calls[..i - 1];
    assert calls[..|calls|] == calls;
    s := Run(calls[..i]);
  }

  lemma AllocatedAligned(ns: seq<Node>, n: nat, held: set<int>)
    requires WellFormed(ns) && n % HEADER_SIZE == 0
    ensures Aligned(Allocated(ns, n, held).nodes)
  {
    var k := FirstFit(ns, n, 0);
    if k < |ns| {
      TakeKeeps(ns, k, n);
    }
  }

  lemma ReleasedAligned(ns: seq<Node>, p: int, held: set<int>)
    requires WellFormed(ns)
    ensures var s := Released(ns, p, held); s.Running? ==> Aligned(s.nodes)
  {
    var k := Find(ns, p, 0);
    if k < |ns| && ns[k].used {
      ReleaseKeeps(ns, k);
    }
  }

  /** Once every block handed out has been given back, in any order and after any such history, the
      list is the single node of `heap_init`. */
  lemma RunDrained(calls: seq<Call>)
    requires GapsWhole(calls)
    requires Run(calls).Running? && Run(calls).held == {}
    ensures Run(calls).nodes == InitialNodes()
  {
    RunSound(calls);
    var ns := Run(calls).nodes;
    forall i | 0 <= i < |ns|
      ensures !ns[i].used
    {
      assert ns[i].Payload() !in UsedPayloads(ns);
    }
    NoUsedNodes(ns);
  }

  /** A caller that passes only pointers it holds is stopped exactly by a `realloc` that has to grow
      a block when no vacant range is long enough. */
  lemma HeldCallsStop(s: State, c: Call)
    requires s.Running? && Sound(s)
    requires c.CallFree? ==> c.p in s.held
    requires c.CallRealloc? && c.block.Some? ==> c.block.value in s.held
    requires GapWhole(s, c)
    ensures Step(s, c).Stopped? <==>
              && c.CallRealloc? && c.block.Some?
              && c.n > s.nodes[Find(s.nodes, c.block.value, 0)].size
              && forall lo, hi :: Vacant(s.nodes, lo, hi) ==> hi - lo < HEADER_SIZE + c.n
  {
    hide Take, Release, Tiles, Coalesced, Vacant, UsedPayloads;
    if c.CallFree? {
      HeldNode(s, c.p);
    } else if c.CallRealloc? && c.block.Some? {
      HeldNode(s, c.block.value);
      MallocComplete(s.nodes, c.n);
      if Grows(s.nodes, c.block.value, c.n) {
        AllocatedSound(s.nodes, c.n, s.held);
        var t := Allocated(s.nodes, c.n, s.held);
        HeldNode(t, c.block.value);
      }
    }
  }

  /** A block held that is to grow beyond the region. */
  lemma CopiesToNull()
    ensures Run([CallMalloc(12), CallRealloc(Some(12), 4096)]) == Stopped(CopyToNull)
  {
    var calls := [CallMalloc(12), CallRealloc(Some(12), 4096)];
    var s1 := RunOne(calls, 1, InitialNodes(), {});
    var n1 := [Node(0, 12, true), Node(24, 4060, false)];
    assert s1 == Running(n1, {12});
    var s2 := RunOne(calls, 2, n1, {12});
    assert FirstFit(n1, 4096, 0) == 2;
  }

  lemma HeldNode(s: State, p: int)
    requires s.Running? && Sound(s) && p in s.held
    ensures var k := Find(s.nodes, p, 0); k < |s.nodes| && s.nodes[k].used
  {
    var i :| 0 <= i < |s.nodes| && s.nodes[i].used && s.nodes[i].Payload() == p;
    FindPayload(s.nodes, i);
  }
}
