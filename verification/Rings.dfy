/** Circular doubly linked lists threaded through their nodes (include/utils/list.h:49-372). A ring is
    described by the sequence of its nodes; a list is a ring whose first node is the head. Each
    method does the pointer writes of one inline function and says which sequences are rings after it. */
module Rings {
  class ListHead {
    var next: ListHead?  // null stands for LIST_POISON1 and LIST_POISON2 as well
    var prev: ListHead?

    constructor () {
      next, prev := null, null;
    }
  }

  // ---------------------------------------------------------------- sequences

  ghost predicate Distinct<T>(s: seq<T>) {
    forall i, j :: 0 <= i < j < |s| ==> s[i] != s[j]
  }

  ghost predicate Apart<T>(s: seq<T>, t: seq<T>) {
    forall i, j :: 0 <= i < |s| && 0 <= j < |t| ==> s[i] != t[j]
  }

  function Without<T>(s: seq<T>, i: nat): (r: seq<T>)
    requires i < |s|
    ensures |r| == |s| - 1
  {
    s[..i] + s[i + 1..]
  }

  function InsertAfter<T>(s: seq<T>, i: nat, x: T): (r: seq<T>)
    requires i < |s|
    ensures |r| == |s| + 1
  {
    s[..i + 1] + [x] + s[i + 1..]
  }

  // ---------------------------------------------------------------- rings

  /** The neighbour that follows position `i` around `s`. */
  function After<T>(s: seq<T>, i: nat): T
    requires i < |s|
  {
    if i + 1 < |s| then s[i + 1] else s[0]
  }

  ghost predicate Linked(s: seq<ListHead>, i: nat)
    requires i < |s|
    reads s
  {
    s[i].next == After(s, i) && After(s, i).prev == s[i]
  }

  /** Following `next` from any node visits exactly `s`, in this order, and `prev` goes back. */
  ghost predicate Ring(s: seq<ListHead>)
    reads s
  {
    Distinct(s) && forall i :: 0 <= i < |s| ==> Linked(s, i)
  }

  // ---------------------------------------------------------------- list.h:54-75

  method InitListHead(list: ListHead)
    modifies list
    ensures Ring([list])
  {
    list.next := list;
    list.prev := list;
    assert Linked([list], 0);
  }

  /** __list_add: `node` goes between `prev` and `next`, neighbours in `s`. */
  method Insert(node: ListHead, prev: ListHead, next: ListHead, ghost s: seq<ListHead>, ghost i: nat)
    requires Ring(s) && node !in s
    requires i < |s| && prev == s[i] && next == After(s, i)
    modifies node, s
    ensures Ring(InsertAfter(s, i, node))
  {
    next.prev := node;
    node.next := next;
    node.prev := prev;
    prev.next := node;
    ghost var r := InsertAfter(s, i, node);
    forall k | 0 <= k < |r|
      ensures Linked(r, k)
    {
      assert old(Linked(s, if k <= i then k else k - 1));
    }
  }

  method ListAdd(node: ListHead, head: ListHead, ghost s: seq<ListHead>, ghost i: nat)
    requires Ring(s) && node !in s
    requires i < |s| && head == s[i]
    modifies node, s
    ensures Ring(InsertAfter(s, i, node))
  {
    assert Linked(s, i);
    Insert(node, head, head.next, s, i);
  }

  method ListAddTail(node: ListHead, head: ListHead, ghost s: seq<ListHead>)
    requires Ring(s) && node !in s
    requires 0 < |s| && head == s[0]
    modifies node, s
    ensures Ring(s + [node])
  {
    ghost var last := |s| - 1;
    assert Linked(s, last);
    Insert(node, head.prev, head, s, last);
    assert InsertAfter(s, last, node) == s + [node];
  }

  // ---------------------------------------------------------------- list.h:116-199

  /** __list_del_entry: the neighbours of `entry` are joined; `entry` keeps its own links. */
  method DelEntry(entry: ListHead, ghost s: seq<ListHead>, ghost i: nat)
    requires Ring(s) && i < |s| && entry == s[i]
    modifies s
    ensures Ring(Without(s, i))
  {
    ghost var before := if i == 0 then |s| - 1 else i - 1;
    assert Linked(s, before) && Linked(s, i);
    entry.next.prev := entry.prev;
    entry.prev.next := entry.next;
    ghost var r := Without(s, i);
    forall k | 0 <= k < |r|
      ensures Linked(r, k)
    {
      assert old(Linked(s, if k < i then k else k + 1));
    }
  }

  /** list_del: the entry is left with poisoned links. */
  method ListDel(entry: ListHead, ghost s: seq<ListHead>, ghost i: nat)
    requires Ring(s) && i < |s| && entry == s[i]
    modifies s
    ensures Ring(Without(s, i)) && entry.next == null == entry.prev
  {
    DelEntry(entry, s, i);
    WithoutMembers(s, i);
    entry.next := null;
    entry.prev := null;
  }

  method ListDelInit(entry: ListHead, ghost s: seq<ListHead>, ghost i: nat)
    requires Ring(s) && i < |s| && entry == s[i]
    modifies s
    ensures Ring(Without(s, i)) && Ring([entry])
  {
    DelEntry(entry, s, i);
    WithoutMembers(s, i);
    InitListHead(entry);
  }

  /** `entry` leaves ring `s` for the place after `head` in `t`, which may be what remains of `s`. */
  method ListMove(entry: ListHead, head: ListHead, ghost s: seq<ListHead>, ghost i: nat, ghost t: seq<ListHead>,
                  ghost j: nat)
    requires Ring(s) && i < |s| && entry == s[i]
    requires t == Without(s, i) || (Ring(t) && Apart(s, t))
    requires j < |t| && head == t[j]
    modifies s, t
    ensures Ring(InsertAfter(t, j, entry))
    ensures t != Without(s, i) ==> Ring(Without(s, i))
  {
    DelEntry(entry, s, i);
    WithoutMembers(s, i);
    ListAdd(entry, head, t, j);
  }

  method ListMoveTail(entry: ListHead, head: ListHead, ghost s: seq<ListHead>, ghost i: nat, ghost t: seq<ListHead>)
    requires Ring(s) && i < |s| && entry == s[i]
    requires t == Without(s, i) || (Ring(t) && Apart(s, t))
    requires 0 < |t| && head == t[0]
    modifies s, t
    ensures Ring(t + [entry])
    ensures t != Without(s, i) ==> Ring(Without(s, i))
  {
    DelEntry(entry, s, i);
    WithoutMembers(s, i);
    ListAddTail(entry, head, t);
  }

  lemma WithoutMembers<T>(s: seq<T>, i: nat)
    requires Distinct(s) && i < |s|
    ensures forall x :: x in Without(s, i) <==> x in s && x != s[i]
    ensures Distinct(Without(s, i))
  {
    var r := Without(s, i);
    forall x | x in s && x != s[i]
      ensures x in r
    {
      var k :| 0 <= k < |s| && s[k] == x;
      assert r[if k < i then k else k - 1] == x;
    }
  }

  /** list_replace; a lone `entry` is replaced as well. */
  method ListReplace(entry: ListHead, node: ListHead, ghost s: seq<ListHead>, ghost i: nat)
    requires Ring(s) && i < |s| && entry == s[i] && node !in s
    modifies node, s
    ensures Ring(s[i := node])
  {
    ghost var before := if i == 0 then |s| - 1 else i - 1;
    assert Linked(s, before) && Linked(s, i);
    node.next := entry.next;
    node.next.prev := node;
    node.prev := entry.prev;
    node.prev.next := node;
    ghost var r := s[i := node];
    forall k | 0 <= k < |r|
      ensures Linked(r, k)
    {
      assert old(Linked(s, k));
    }
  }

  method ListReplaceInit(entry: ListHead, node: ListHead, ghost s: seq<ListHead>, ghost i: nat)
    requires Ring(s) && i < |s| && entry == s[i] && node !in s
    modifies node, s
    ensures Ring(s[i := node]) && Ring([entry])
  {
    ListReplace(entry, node, s, i);
    InitListHead(entry);
  }

  // ---------------------------------------------------------------- list.h:206-261

  predicate ListEmpty(head: ListHead)
    reads head
  {
    head.next == head
  }

  predicate ListIsLast(list: ListHead, head: ListHead)
    reads list
  {
    list.next == head
  }

  predicate ListEmptyCareful(head: ListHead)
    reads head
  {
    head.next == head && head.next == head.prev
  }

  predicate ListIsSingular(head: ListHead)
    reads head
  {
    !ListEmpty(head) && head.next == head.prev
  }

  /** On a ring the tests see the number of entries and the place of an entry. */
  lemma TestsOnRing(s: seq<ListHead>, i: nat)
    requires Ring(s) && i < |s|
    ensures ListEmpty(s[0]) <==> |s| == 1
    ensures ListEmptyCareful(s[0]) <==> |s| == 1
    ensures ListIsSingular(s[0]) <==> |s| == 2
    ensures ListIsLast(s[i], s[0]) <==> i == |s| - 1
  {
    assert Linked(s, 0) && Linked(s, |s| - 1) && Linked(s, i);
  }

  /** The list with its first entry, if any, moved to the end. */
  function Rotated<T>(s: seq<T>): seq<T> {
    if |s| <= 1 then s else [s[0]] + s[2..] + [s[1]]
  }

  method ListRotateLeft(head: ListHead, ghost s: seq<ListHead>)
    requires Ring(s) && 0 < |s| && head == s[0]
    modifies s
    ensures Ring(Rotated(s))
  {
    TestsOnRing(s, 0);
    if !ListEmpty(head) {
      assert Linked(s, 0);
      var first := head.next;
      assert Without(s, 1) + [first] == Rotated(s);
      ListMoveTail(first, head, s, 1, Without(s, 1));
    }
  }

  // ---------------------------------------------------------------- list.h:263-301

  /** list_cut_position for an `entry` on the list, the head included, or for a list too short to cut. */
  method ListCutPosition(list: ListHead, head: ListHead, entry: ListHead, ghost s: seq<ListHead>, ghost j: nat)
    requires Ring(s) && 0 < |s| && head == s[0] && list !in s
    requires if entry in s then j < |s| && entry == s[j] else |s| <= 2
    modifies list, s
    ensures |s| == 1 || entry !in s ==> Ring(s) && list.next == old(list.next) && list.prev == old(list.prev)
    ensures |s| > 1 && entry == head ==> Ring(s) && Ring([list])
    ensures |s| > 1 && entry in s && entry != head ==> Ring([list] + s[1..j + 1]) && Ring([head] + s[j + 1..])
  {
    TestsOnRing(s, 0);
    if ListEmpty(head) {
      return;
    }
    assert Linked(s, 0) && Linked(s, |s| - 1);
    if ListIsSingular(head) && head.next != entry && head != entry {
      return;
    }
    if entry == head {
      InitListHead(list);
    } else {
      CutAt(list, head, entry, s, j);
    }
  }

  lemma CutAtParts<T>(s: seq<T>, j: nat, list: T, front: seq<T>, rest: seq<T>)
    requires 0 < j < |s| && front == [list] + s[1..j + 1] && rest == [s[0]] + s[j + 1..]
    ensures forall k :: 1 <= k < |front| ==> front[k] == s[k]
    ensures forall k :: 1 <= k < |rest| ==> rest[k] == s[k + j]
  {
    forall k | 1 <= k < |rest|
      ensures rest[k] == s[k + j]
    {
      assert rest[k] == s[j + 1..][k - 1];
    }
  }

  /** __list_cut_position */
  method CutAt(list: ListHead, head: ListHead, entry: ListHead, ghost s: seq<ListHead>, ghost j: nat)
    requires Ring(s) && 0 < j < |s| && head == s[0] && entry == s[j] && list !in s
    modifies list, s
    ensures Ring([list] + s[1..j + 1]) && Ring([head] + s[j + 1..])
  {
    assert Linked(s, 0) && Linked(s, j) && Linked(s, |s| - 1);
    var newFirst := entry.next;
    list.next := head.next;
    list.next.prev := list;
    list.prev := entry;
    entry.next := list;
    head.next := newFirst;
    newFirst.prev := head;
    ghost var front, rest := [list] + s[1..j + 1], [head] + s[j + 1..];
    CutAtParts(s, j, list, front, rest);
    forall k | 0 <= k < |front|
      ensures Linked(front, k)
    {
      assert old(Linked(s, k));
      assert k == j ==> After(front, k) == list;
    }
    forall k | 0 <= k < |rest|
      ensures Linked(rest, k)
    {
      assert k > 0 ==> old(Linked(s, k + j));
    }
  }

  // ---------------------------------------------------------------- list.h:303-372

  /** __list_splice: the entries of `t` go between positions `i` and `i + 1` of `s`; the head of `t`
      keeps its links. */
  method SpliceAt(list: ListHead, prev: ListHead, next: ListHead, ghost t: seq<ListHead>, ghost s: seq<ListHead>,
                  ghost i: nat)
    requires Ring(t) && Ring(s) && Apart(s, t)
    requires 1 < |t| && list == t[0]
    requires i < |s| && prev == s[i] && next == After(s, i)
    modifies t[1..], s
    ensures Ring(s[..i + 1] + t[1..] + s[i + 1..])
  {
    assert Linked(t, 0) && Linked(t, |t| - 1) && Linked(s, i);
    var first := list.next;
    var last := list.prev;
    first.prev := prev;
    prev.next := first;
    last.next := next;
    next.prev := last;
    ghost var r := s[..i + 1] + t[1..] + s[i + 1..];
    forall k | 0 <= k < |r|
      ensures Linked(r, k)
    {
      if k <= i {
        assert old(Linked(s, k));
      } else if k < i + |t| {
        assert old(Linked(t, k - i));
      } else {
        assert old(Linked(s, k + 1 - |t|));
      }
    }
  }

  method ListSplice(list: ListHead, head: ListHead, ghost t: seq<ListHead>, ghost s: seq<ListHead>)
    requires Ring(t) && Ring(s) && Apart(s, t)
    requires 0 < |t| && list == t[0] && 0 < |s| && head == s[0]
    modifies t, s
    ensures Ring([head] + t[1..] + s[1..])
    ensures list.next == old(list.next) && list.prev == old(list.prev)
  {
    TestsOnRing(t, 0);
    if !ListEmpty(list) {
      assert Linked(s, 0);
      assert s[..1] == [head];
      SpliceAt(list, head, head.next, t, s, 0);
    } else {
      assert [head] + t[1..] + s[1..] == s;
    }
  }

  method ListSpliceTail(list: ListHead, head: ListHead, ghost t: seq<ListHead>, ghost s: seq<ListHead>)
    requires Ring(t) && Ring(s) && Apart(s, t)
    requires 0 < |t| && list == t[0] && 0 < |s| && head == s[0]
    modifies t, s
    ensures Ring(s + t[1..])
    ensures list.next == old(list.next) && list.prev == old(list.prev)
  {
    TestsOnRing(t, 0);
    ghost var last := |s| - 1;
    if !ListEmpty(list) {
      assert Linked(s, last);
      SpliceAt(list, head.prev, head, t, s, last);
      assert s[..last + 1] + t[1..] + s[last + 1..] == s + t[1..];
    } else {
      assert s + t[1..] == s;
    }
  }

  method ListSpliceInit(list: ListHead, head: ListHead, ghost t: seq<ListHead>, ghost s: seq<ListHead>)
    requires Ring(t) && Ring(s) && Apart(s, t)
    requires 0 < |t| && list == t[0] && 0 < |s| && head == s[0]
    modifies t, s
    ensures Ring([head] + t[1..] + s[1..]) && Ring([list])
  {
    TestsOnRing(t, 0);
    if !ListEmpty(list) {
      assert Linked(s, 0);
      assert s[..1] == [head];
      SpliceAt(list, head, head.next, t, s, 0);
      InitListHead(list);
    } else {
      assert [head] + t[1..] + s[1..] == s;
      assert t == [list];
    }
  }

  method ListSpliceTailInit(list: ListHead, head: ListHead, ghost t: seq<ListHead>, ghost s: seq<ListHead>)
    requires Ring(t) && Ring(s) && Apart(s, t)
    requires 0 < |t| && list == t[0] && 0 < |s| && head == s[0]
    modifies t, s
    ensures Ring(s + t[1..]) && Ring([list])
  {
    TestsOnRing(t, 0);
    ghost var last := |s| - 1;
    if !ListEmpty(list) {
      assert Linked(s, last);
      SpliceAt(list, head.prev, head, t, s, last);
      assert s[..last + 1] + t[1..] + s[last + 1..] == s + t[1..];
      InitListHead(list);
    } else {
      assert s + t[1..] == s;
      assert t == [list];
    }
  }

  // ---------------------------------------------------------------- one operation undoes another

  lemma LoneRing(list: ListHead)
    requires list.next == list == list.prev
    ensures Ring([list])
  {
    assert Linked([list], 0);
  }

  /** Cutting a list and splicing the part back at the head restores every link of the list. */
  method CutThenSplice(list: ListHead, head: ListHead, entry: ListHead, ghost s: seq<ListHead>, ghost j: nat)
    requires Ring(s) && 0 < |s| && head == s[0] && j < |s| && entry == s[j]
    requires Ring([list]) && list !in s
    modifies list, s
    ensures Ring(s)
    ensures forall x :: x in s ==> x.next == old(x.next) && x.prev == old(x.prev)
  {
    CutAndBack(list, head, entry, s, j);
    SameLinks(s);
  }

  method CutAndBack(list: ListHead, head: ListHead, entry: ListHead, ghost s: seq<ListHead>, ghost j: nat)
    requires Ring(s) && 0 < |s| && head == s[0] && j < |s| && entry == s[j]
    requires Ring([list]) && list !in s
    modifies list, s
    ensures Ring(s)
  {
    hide Linked, Distinct, Apart;
    ghost var front, rest := CutParts(s, j, list);
    LoneLinks(list);
    ListCutPosition(list, head, entry, s, j);
    if |s| == 1 {
      LoneRing(list);
    }
    ListSplice(list, head, front, rest);
  }

  /** The two lists after a cut. */
  lemma CutParts<T>(s: seq<T>, j: nat, list: T) returns (front: seq<T>, rest: seq<T>)
    requires Distinct(s) && list !in s && j < |s|
    ensures front == (if j > 0 then [list] + s[1..j + 1] else [list])
    ensures rest == (if j > 0 then [s[0]] + s[j + 1..] else s)
    ensures Apart(rest, front) && [s[0]] + front[1..] + rest[1..] == s
    ensures (forall x :: x in front ==> x == list || x in s) && (forall x :: x in rest ==> x in s)
  {
    front := if j > 0 then [list] + s[1..j + 1] else [list];
    rest := if j > 0 then [s[0]] + s[j + 1..] else s;
    CutPieces(s, j, list);
    if j > 0 {
      CutAtParts(s, j, list, front, rest);
    }
  }

  lemma LoneLinks(list: ListHead)
    requires Ring([list])
    ensures list.next == list == list.prev
  {
    assert Linked([list], 0);
  }

  lemma CutPieces<T>(s: seq<T>, j: nat, list: T)
    requires j < |s|
    ensures [s[0]] + [list][1..] + s[1..] == s
    ensures [s[0]] + ([list] + s[1..j + 1])[1..] + ([s[0]] + s[j + 1..])[1..] == s
  {
    assert ([list] + s[1..j + 1])[1..] == s[1..j + 1];
    assert ([s[0]] + s[j + 1..])[1..] == s[j + 1..];
  }

  /** A sequence is a ring in one way only. */
  twostate lemma SameLinks(s: seq<ListHead>)
    requires old(Ring(s)) && Ring(s)
    ensures forall x :: x in s ==> x.next == old(x.next) && x.prev == old(x.prev)
  {
    forall k | 0 <= k < |s|
      ensures s[k].next == old(s[k].next) && s[k].prev == old(s[k].prev)
    {
      var before := if k == 0 then |s| - 1 else k - 1;
      assert Linked(s, k) && Linked(s, before);
      assert old(Linked(s, k)) && old(Linked(s, before));
    }
  }

  function RotatedTimes<T>(s: seq<T>, n: nat): seq<T> {
    if n == 0 then s else Rotated(RotatedTimes(s, n - 1))
  }

  lemma {:induction false} RotatedTimesShape<T>(s: seq<T>, n: nat)
    requires 0 < |s| && n < |s|
    ensures RotatedTimes(s, n) == [s[0]] + s[n + 1..] + s[1..n + 1]
  {
    if n > 0 {
      RotatedTimesShape(s, n - 1);
      RotatedOnce(s, n);
    }
  }

  lemma RotatedOnce<T>(s: seq<T>, n: nat)
    requires 0 < n < |s|
    ensures Rotated([s[0]] + s[n..] + s[1..n]) == [s[0]] + s[n + 1..] + s[1..n + 1]
  {
    hide Rotated;
    assert s[n..] == [s[n]] + s[n + 1..];
    assert s[1..n + 1] == s[1..n] + [s[n]];
    RotatedParts(s[0], s[n], s[n + 1..], s[1..n]);
  }

  lemma RotatedParts<T>(head: T, first: T, u: seq<T>, v: seq<T>)
    ensures Rotated([head] + ([first] + u) + v) == [head] + u + (v + [first])
  {
    var t := [head] + ([first] + u) + v;
    assert t == [head] + [first] + (u + v);
    assert t[2..] == u + v;
  }

  /** As many rotations as the list has entries are the identity. */
  lemma FullRotation<T>(s: seq<T>)
    requires 0 < |s|
    ensures RotatedTimes(s, |s| - 1) == s
  {
    hide RotatedTimes;
    var n := |s| - 1;
    RotatedTimesShape(s, n);
    assert s[n + 1..] == [] && s[1..n + 1] == s[1..];
  }

  /** Rotating a list once for each of its entries restores every link. */
  method RotateFully(head: ListHead, entries: nat, ghost s: seq<ListHead>)
    requires Ring(s) && |s| == entries + 1 && head == s[0]
    modifies s
    ensures Ring(s)
    ensures forall x :: x in s ==> x.next == old(x.next) && x.prev == old(x.prev)
  {
    FullRotation(s);
    ghost var r := s;
    for n := 0 to entries
      invariant r == RotatedTimes(s, n) && Ring(r)
    {
      RotatedTimesShape(s, n);
      ListRotateLeft(head, r);
      r := Rotated(r);
    }
    SameLinks(s);
  }
}
