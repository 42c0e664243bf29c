/** What each call of the allocator does to the blocks in use, told without the node list: the blocks
    before and after, what the caller holds, and when the call stops. */
module HeapCalls {
  import opened Options
  import opened HeapLayout
  import opened HeapRuns

  /** The blocks in use. */
  ghost function Blocks(ns: seq<Node>): set<Node> {
    set n | n in ns && n.used
  }

  /** Some vacant range can hold a header and `n` bytes. */
  ghost predicate Room(ns: seq<Node>, n: int) {
    exists lo, hi :: Vacant(ns, lo, hi) && hi - lo >= HEADER_SIZE + n
  }

  /** Block `c` is new: it has at least `n` bytes and wastes at most a header of them, in a range that
      was vacant. */
  ghost predicate NewBlock(ns: seq<Node>, c: Node, n: int) {
    && c.used && c !in Blocks(ns)
    && n <= c.size <= n + HEADER_SIZE
    && Vacant(ns, c.off, c.End())
  }

  // ---------------------------------------------------------------- malloc and calloc

  lemma TakeBlocks(ns: seq<Node>, k: nat, n: int)
    requires Tiles(ns) && k < |ns| && Fits(ns[k], n) && n >= 0
    ensures var c := Take(ns, k, n)[k];
      && NewBlock(ns, c, n) && c.Payload() == ns[k].Payload()
      && Blocks(Take(ns, k, n)) == Blocks(ns) + {c}
  {
    var r := Take(ns, k, n);
    var d, c := |r| - |ns|, r[k];
    TakeWaste(ns, k, n);
    FreeNodeVacant(ns, k);
    if c in ns {
      var i :| 0 <= i < |ns| && ns[i] == c;
      assert i != k;
      PayloadsDisjoint(ns, i, k);
    }
    forall b | b in Blocks(ns)
      ensures b in r
    {
      var i :| 0 <= i < |ns| && ns[i] == b;
      assert r[if i < k then i else i + d] == b;
    }
    forall b | b in Blocks(r) && b != c
      ensures b in ns
    {
      var i :| 0 <= i < |r| && r[i] == b;
      assert b == ns[if i < k then i else i - d];
    }
  }

  /** Whatever request comes, `malloc` adds one block, or there was no room and nothing changes. */
  lemma MallocAdds(ns: seq<Node>, held: set<int>, n: size_t)
    requires Sound(Running(ns, held)) && WholeGap(ns, n)
    ensures var s := Step(Running(ns, held), CallMalloc(n));
      if Room(ns, n) then
        exists c :: NewBlock(ns, c, n) && c.Payload() !in held
                    && s.Running? && Blocks(s.nodes) == Blocks(ns) + {c} && s.held == held + {c.Payload()}
      else s == Running(ns, held)
  {
    MallocComplete(ns, n);
    var k := FirstFit(ns, n, 0);
    if k < |ns| {
      TakeBlocks(ns, k, n);
      FreeNotHeld(ns, held, k);
      assert NewBlock(ns, Take(ns, k, n)[k], n);
    }
  }

  lemma FreeNotHeld(ns: seq<Node>, held: set<int>, k: nat)
    requires Sound(Running(ns, held)) && k < |ns| && !ns[k].used
    ensures ns[k].Payload() !in held
  {
    if ns[k].Payload() in held {
      var i :| 0 <= i < |ns| && ns[i].used && ns[i].Payload() == ns[k].Payload();
      PayloadsDisjoint(ns, i, k);
    }
  }

  /** `calloc` is `malloc` of the product less whole multiples of 2^32. */
  lemma CallocIsMalloc(s: State, nmemb: size_t, size: size_t)
    ensures exists m: size_t ::
              (nmemb * size - m) % SIZE_T == 0 && Step(s, CallCalloc(nmemb, size)) == Step(s, CallMalloc(m))
  {
    var p: nat := nmemb * size;
    var m: size_t := p % SIZE_T;
    assert p - m == p / SIZE_T * SIZE_T;
    assert Step(s, CallCalloc(nmemb, size)) == Step(s, CallMalloc(m));
  }

  // ---------------------------------------------------------------- free

  /** `free` takes one block away, or names a free node and stops, or names none and changes nothing. */
  lemma FreeRemoves(ns: seq<Node>, held: set<int>, p: int)
    requires Sound(Running(ns, held))
    ensures var s := Step(Running(ns, held), CallFree(p));
      && (forall b :: b in ns && b.Payload() == p && b.used ==>
            s.Running? && Blocks(s.nodes) == Blocks(ns) - {b} && s.held == held - {p})
      && (forall b :: b in ns && b.Payload() == p && !b.used ==> s == Stopped(DoubleFree))
      && ((forall b :: b in ns ==> b.Payload() != p) ==> s == Running(ns, held))
  {
    forall b | b in ns && b.Payload() == p
      ensures var k := Find(ns, p, 0); k < |ns| && ns[k] == b
    {
      var i :| 0 <= i < |ns| && ns[i] == b;
      FindPayload(ns, i);
    }
    var k := Find(ns, p, 0);
    if k < |ns| && ns[k].used {
      ReleaseBlocks(ns, k);
    }
  }

  lemma ReleaseBlocks(ns: seq<Node>, k: nat)
    requires Tiles(ns) && k < |ns| && ns[k].used
    ensures Blocks(Release(ns, k)) == Blocks(ns) - {ns[k]}
  {
    forall b: Node
      ensures b in Blocks(Release(ns, k)) <==> b in Blocks(ns) - {ns[k]}
    {
      if b.used {
        ReleaseUsed(ns, k, b);
      }
    }
  }

  // ---------------------------------------------------------------- realloc

  /** Block `b` at `p` has been given back for a new one at `q`, and no other block has changed. */
  ghost predicate Regrown(ns: seq<Node>, held: set<int>, r: seq<Node>, held': set<int>, p: int, q: int, n: int) {
    exists b, c ::
      && b in Blocks(ns) && b.Payload() == p && b.size < n
      && NewBlock(ns, c, n) && c.Payload() == q && q !in held
      && Blocks(r) == Blocks(ns) - {b} + {c} && held' == held - {p} + {q}
  }

  /** `realloc` of a block held: one that is large enough stays as it is; a growth replaces it by a new
      block; without room for that the call stops. */
  lemma ReallocReplaces(ns: seq<Node>, held: set<int>, p: nat, n: size_t, b: Node)
    requires Sound(Running(ns, held)) && b in Blocks(ns) && b.Payload() == p
    requires n > b.size ==> WholeGap(ns, n)
    ensures var s := Step(Running(ns, held), CallRealloc(Some(p), n));
      if n <= b.size then s == Running(ns, held)
      else if !Room(ns, n) then s == Stopped(CopyToNull)
      else
        && s.Running? && Malloc(ns, n).ptr.Some?
        && Regrown(ns, held, s.nodes, s.held, p, Malloc(ns, n).ptr.value, n)
  {
    var i :| 0 <= i < |ns| && ns[i] == b;
    FindPayload(ns, i);
    MallocComplete(ns, n);
    if n > b.size && Room(ns, n) {
      GrowthReplaces(ns, held, i, n);
    }
  }

  lemma GrowthReplaces(ns: seq<Node>, held: set<int>, i: nat, n: size_t)
    requires Sound(Running(ns, held)) && WholeGap(ns, n)
    requires i < |ns| && ns[i].used && n > ns[i].size && FirstFit(ns, n, 0) < |ns|
    ensures var s := Reallocated(ns, ns[i].Payload(), n, held);
      s.Running? && Regrown(ns, held, s.nodes, s.held, ns[i].Payload(), Malloc(ns, n).ptr.value, n)
  {
    hide Take, Release, Tiles, Vacant, NewBlock;
    var k := FirstFit(ns, n, 0);
    var b, t := ns[i], Take(ns, k, n);
    var c := t[k];
    FindPayload(ns, i);
    TakeBlocks(ns, k, n);
    TakeLayout(ns, k, n);
    FreeNotHeld(ns, held, k);
    assert b in Blocks(t);
    var j :| 0 <= j < |t| && t[j] == b;
    FindPayload(t, j);
    ReleaseBlocks(t, j);
    UsedIsHeld(ns, held, i);
    var s := Reallocated(ns, b.Payload(), n, held);
    assert s == Running(Release(t, j), held + {c.Payload()} - {b.Payload()});
    assert Blocks(s.nodes) == Blocks(ns) - {b} + {c} by { assert b != c; }
    assert s.held == held - {b.Payload()} + {c.Payload()};
    assert b in Blocks(ns) && NewBlock(ns, c, n);
  }

  lemma UsedIsHeld(ns: seq<Node>, held: set<int>, i: nat)
    requires Sound(Running(ns, held)) && i < |ns| && ns[i].used
    ensures ns[i].Payload() in held
  {}

  /** `realloc` of NULL is `malloc`; of a pointer that names no node it does nothing. */
  lemma ReallocOfNone(s: State, n: size_t, p: nat)
    ensures Step(s, CallRealloc(None, n)) == Step(s, CallMalloc(n))
    ensures s.Running? && (forall b :: b in s.nodes ==> b.Payload() != p) ==> Step(s, CallRealloc(Some(p), n)) == s
  {}

  /** The caller's stores do not concern the list. */
  lemma StoresChangeNoBlock(s: State, c: Call)
    requires c.CallerStores?
    ensures Step(s, c) == s
  {}
}
