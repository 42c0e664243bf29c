/** Singly headed lists whose nodes point back to the slot that points to them
    (include/utils/list.h:617-715). */
module Hlists {
  import opened Rings
  import opened RingWorld

  class HlistHead {
    var first: HlistNode?

    /** INIT_HLIST_HEAD */
    constructor ()
      ensures first == null
    {
      first := null;
    }
  }

  /** The value of a `struct hlist_node **`: the address of a head's or of a node's only link. */
  datatype Slot = NullSlot | Poisoned | FirstOf(head: HlistHead) | NextOf(node: HlistNode)

  class HlistNode {
    var next: HlistNode?  // null stands for LIST_POISON1 as well
    var pprev: Slot

    constructor ()
      ensures next == null && pprev == NullSlot
    {
      next := null;
      pprev := NullSlot;
    }
  }

  // ---------------------------------------------------------------- one list

  function FirstNode(s: seq<HlistNode>): HlistNode? {
    if s == [] then null else s[0]
  }

  function NextNode(s: seq<HlistNode>, i: nat): HlistNode?
    requires i < |s|
  {
    if i + 1 < |s| then s[i + 1] else null
  }

  function SlotOf(h: HlistHead, s: seq<HlistNode>, i: nat): Slot
    requires i < |s|
  {
    if i == 0 then FirstOf(h) else NextOf(s[i - 1])
  }

  ghost predicate Hooked(h: HlistHead, s: seq<HlistNode>, i: nat)
    requires i < |s|
    reads s
  {
    s[i].next == NextNode(s, i) && s[i].pprev == SlotOf(h, s, i)
  }

  /** The list at `h` is `s`, and each node points back to the slot that leads to it. */
  ghost predicate Hlist(h: HlistHead, s: seq<HlistNode>)
    reads h, s
  {
    Distinct(s) && h.first == FirstNode(s) && forall i :: 0 <= i < |s| ==> Hooked(h, s, i)
  }

  predicate HlistUnhashed(n: HlistNode)
    reads n
  {
    n.pprev == NullSlot
  }

  predicate HlistEmpty(h: HlistHead)
    reads h
  {
    h.first == null
  }

  /** On a list the tests see whether it is empty, and that its nodes are on one. */
  lemma TestsOnHlist(h: HlistHead, s: seq<HlistNode>)
    requires Hlist(h, s)
    ensures HlistEmpty(h) <==> s == []
    ensures forall n :: n in s ==> !HlistUnhashed(n)
  {
    forall i | 0 <= i < |s|
      ensures !HlistUnhashed(s[i])
    {
      assert Hooked(h, s, i);
    }
  }

  method InitHlistNode(n: HlistNode)
    modifies n
    ensures n.next == null && HlistUnhashed(n)
  {
    n.next := null;
    n.pprev := NullSlot;
  }

  ghost function Owner(p: Slot): set<object> {
    match p
    case NullSlot => {}
    case Poisoned => {}
    case FirstOf(h) => {h}
    case NextOf(n) => {n}
  }

  /** The assignment through a `struct hlist_node **`. */
  method Store(p: Slot, n: HlistNode?)
    requires p.FirstOf? || p.NextOf?
    modifies Owner(p)
    ensures p.FirstOf? ==> p.head.first == n
    ensures p.NextOf? ==> p.node.next == n && p.node.pprev == old(p.node.pprev)
  {
    match p
    case FirstOf(h) => h.first := n;
    case NextOf(m) => m.next := n;
  }

  /** __hlist_del */
  method Unhook(n: HlistNode, ghost h: HlistHead, ghost s: seq<HlistNode>, ghost i: nat)
    requires Hlist(h, s) && i < |s| && n == s[i]
    modifies h, s
    ensures Hlist(h, Without(s, i))
  {
    assert Hooked(h, s, i);
    var next := n.next;
    var pprev := n.pprev;
    Store(pprev, next);
    if next != null {
      next.pprev := pprev;
    }
    ghost var r := Without(s, i);
    WithoutMembers(s, i);
    forall k | 0 <= k < |r|
      ensures Hooked(h, r, k)
    {
      assert old(Hooked(h, s, if k < i then k else k + 1));
    }
  }

  method HlistDel(n: HlistNode, ghost h: HlistHead, ghost s: seq<HlistNode>, ghost i: nat)
    requires Hlist(h, s) && i < |s| && n == s[i]
    modifies h, s
    ensures Hlist(h, Without(s, i)) && !HlistUnhashed(n)
  {
    Unhook(n, h, s, i);
    WithoutMembers(s, i);
    n.next := null;
    n.pprev := Poisoned;
  }

  /** Given the node alone: a node on a list leaves exactly that list, any other is left as it is. */
  method HlistDelInit(n: HlistNode, ghost h: HlistHead, ghost s: seq<HlistNode>, ghost i: nat)
    requires HlistUnhashed(n) || (Hlist(h, s) && i < |s| && n == s[i])
    modifies h, s
    ensures old(HlistUnhashed(n)) ==> unchanged(h) && unchanged(set x | x in s) && HlistUnhashed(n)
    ensures !old(HlistUnhashed(n)) ==> Hlist(h, Without(s, i)) && HlistUnhashed(n) && n.next == null
  {
    if !HlistUnhashed(n) {
      Unhook(n, h, s, i);
      WithoutMembers(s, i);
      InitHlistNode(n);
    }
  }

  method HlistAddHead(n: HlistNode, h: HlistHead, ghost s: seq<HlistNode>)
    requires Hlist(h, s) && n !in s
    modifies n, h, s
    ensures Hlist(h, [n] + s)
  {
    var first := h.first;
    n.next := first;
    if first != null {
      first.pprev := NextOf(n);
    }
    h.first := n;
    n.pprev := FirstOf(h);
    ghost var r := [n] + s;
    forall k | 0 <= k < |r|
      ensures Hooked(h, r, k)
    {
      assert k > 0 ==> old(Hooked(h, s, k - 1));
    }
  }

  method HlistAddBefore(n: HlistNode, next: HlistNode, ghost h: HlistHead, ghost s: seq<HlistNode>, ghost i: nat)
    requires Hlist(h, s) && i < |s| && next == s[i] && n !in s
    modifies n, h, s
    ensures Hlist(h, s[..i] + [n] + s[i..])
  {
    assert Hooked(h, s, i);
    n.pprev := next.pprev;
    n.next := next;
    next.pprev := NextOf(n);
    Store(n.pprev, n);
    ghost var r := s[..i] + [n] + s[i..];
    forall k | 0 <= k < |r|
      ensures Hooked(h, r, k)
    {
      assert k != i ==> old(Hooked(h, s, if k < i then k else k - 1));
    }
  }

  method HlistAddAfter(n: HlistNode, next: HlistNode, ghost h: HlistHead, ghost s: seq<HlistNode>, ghost i: nat)
    requires Hlist(h, s) && i < |s| && n == s[i] && next !in s
    modifies next, h, s
    ensures Hlist(h, InsertAfter(s, i, next))
  {
    assert Hooked(h, s, i);
    next.next := n.next;
    n.next := next;
    next.pprev := NextOf(n);
    if next.next != null {
      next.next.pprev := NextOf(next);
    }
    ghost var r := InsertAfter(s, i, next);
    forall k | 0 <= k < |r|
      ensures Hooked(h, r, k)
    {
      assert k != i + 1 ==> old(Hooked(h, s, if k <= i then k else k - 1));
    }
  }

  /** The node passes for one on a list, so that deleting it touches nothing else. */
  method HlistAddFake(n: HlistNode)
    modifies n
    ensures n.pprev == NextOf(n) && n.next == old(n.next)
  {
    n.pprev := NextOf(n);
  }

  method HlistMoveList(source: HlistHead, target: HlistHead, ghost s: seq<HlistNode>)
    requires Hlist(source, s) && source != target
    modifies source, target, s
    ensures Hlist(target, s) && Hlist(source, [])
  {
    target.first := source.first;
    if target.first != null {
      target.first.pprev := FirstOf(target);
    }
    source.first := null;
    forall k | 0 <= k < |s|
      ensures Hooked(target, s, k)
    {
      assert old(Hooked(source, s, k));
    }
  }

  // ---------------------------------------------------------------- many lists

  /** Lists at distinct heads with no node in common, and spare nodes on no list. */
  ghost predicate AllHlists(hs: seq<HlistHead>, ls: seq<seq<HlistNode>>, spare: set<HlistNode>)
    reads hs, Nodes(ls), spare
  {
    && |hs| == |ls| && Distinct(hs) && AllApart(ls) && spare !! Nodes(ls)
    && (forall c :: 0 <= c < |hs| ==> Hlist(hs[c], ls[c]))
    && (forall n :: n in spare ==> n.next == null && HlistUnhashed(n))
  }

  /** Of all links, the one that leads to a node on a list is the one its `pprev` names. */
  lemma UniqueSlot(hs: seq<HlistHead>, ls: seq<seq<HlistNode>>, spare: set<HlistNode>, c: nat, i: nat)
    requires AllHlists(hs, ls, spare)
    requires c < |ls| && i < |ls[c]|
    ensures var n := ls[c][i];
      && n.pprev == SlotOf(hs[c], ls[c], i)
      && (forall h :: h in hs ==> (h.first == n <==> n.pprev == FirstOf(h)))
      && (forall m :: m in Nodes(ls) || m in spare ==> (m.next == n <==> n.pprev == NextOf(m)))
  {
    var n := ls[c][i];
    assert Hooked(hs[c], ls[c], i);
    forall h | h in hs
      ensures h.first == n <==> n.pprev == FirstOf(h)
    {
      var d :| 0 <= d < |hs| && hs[d] == h;
      assert h.first == FirstNode(ls[d]);
    }
    forall m | m in Nodes(ls)
      ensures m.next == n <==> n.pprev == NextOf(m)
    {
      var d, j :| 0 <= d < |ls| && 0 <= j < |ls[d]| && ls[d][j] == m;
      assert Hooked(hs[d], ls[d], j);
    }
  }
}
