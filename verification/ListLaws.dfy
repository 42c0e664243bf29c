/** How the list operations relate to each other and what undoes them (include/utils/list.h): with the
    place of a node just added, these determine every operation of RingWorld and HlistRuns. */
module ListLaws {
  import opened Rings
  import opened RingWorld
  import opened HlistRuns

  // ---------------------------------------------------------------- rings

  /** A node put on a list is its first entry, or its last; taking it off again restores the list. */
  lemma AddThenDel<T>(rs: seq<seq<T>>, a: nat, b: nat)
    requires AllApart(rs) && Legal(rs, Add(a, b))
    ensures var x, n := rs[a][0], |rs[b]|;
      var r, t := Apply(rs, Add(a, b)), Apply(rs, AddTail(a, b));
      && |r[b]| == |t[b]| == n + 1 && r[b][1] == x && t[b][n] == x
      && Apply(r, DelInit(b, 1)) == rs[a := []] + [[x]]
      && Apply(t, DelInit(b, n)) == rs[a := []] + [[x]]
  {
    var x, s := rs[a][0], rs[b];
    var r, t := Apply(rs, Add(a, b)), Apply(rs, AddTail(a, b));
    assert rs[a] == [x];
    assert Without(r[b], 1) == s && Without(t[b], |s|) == s;
    assert r[b := s] == rs[a := []] == t[b := s];
  }

  /** A rotation makes the first entry the last. */
  lemma RotatedAdd<T>(rs: seq<seq<T>>, a: nat, b: nat)
    requires Legal(rs, Add(a, b))
    ensures Apply(Apply(rs, Add(a, b)), RotateLeft(b)) == Apply(rs, AddTail(a, b))
  {
    var x, s := rs[a][0], rs[b];
    assert rs[a] == [x];
    var r := InsertAfter(s, 0, x);
    assert r[0] == s[0] && r[1] == x && r[2..] == s[1..];
    assert Rotated(r) == s + [x];
    assert rs[a := []][b := r][b := s + [x]] == rs[a := []][b := s + [x]];
  }

  /** A move is a deletion and an addition. */
  lemma MoveIsDelAdd<T>(rs: seq<seq<T>>, a: nat, i: nat, b: nat)
    requires Legal(rs, Move(a, i, b))
    ensures var d := Apply(rs, DelInit(a, i));
      && Legal(d, Add(|rs|, b))
      && Apply(d, Add(|rs|, b)) == Apply(rs, Move(a, i, b)) + [[]]
      && Apply(d, AddTail(|rs|, b)) == Apply(rs, MoveTail(a, i, b)) + [[]]
  {}

  lemma RotateIsMove<T>(rs: seq<seq<T>>, a: nat)
    requires Legal(rs, RotateLeft(a))
    ensures Apply(rs, RotateLeft(a)) == if |rs[a]| > 1 then Apply(rs, MoveTail(a, 1, a)) else rs
  {
    var s := rs[a];
    if |s| > 1 {
      assert Without(s, 1) + [s[1]] == Rotated(s);
    }
  }

  /** Replacing back restores both. */
  lemma ReplaceTwice<T>(rs: seq<seq<T>>, a: nat, i: nat, c: nat)
    requires Legal(rs, ReplaceInit(a, i, c))
    ensures var r := Apply(rs, ReplaceInit(a, i, c));
      && r[a][i] == rs[c][0] && r[c] == [rs[a][i]]
      && Legal(r, ReplaceInit(a, i, c)) && Apply(r, ReplaceInit(a, i, c)) == rs
  {
    var r := Apply(rs, ReplaceInit(a, i, c));
    assert r[a][i := rs[a][i]] == rs[a] && [rs[c][0]] == rs[c];
  }

  /** A splice moves the entries one after the other: to the tail the first ones first, to the front the
      last ones first. */
  lemma SpliceIsMoves<T>(rs: seq<seq<T>>, a: nat, b: nat)
    requires Legal(rs, SpliceInit(a, b))
    ensures |rs[a]| == 1 ==> Apply(rs, SpliceInit(a, b)) == rs == Apply(rs, SpliceTailInit(a, b))
    ensures |rs[a]| > 1 ==>
              && Apply(rs, SpliceTailInit(a, b)) == Apply(Apply(rs, MoveTail(a, 1, b)), SpliceTailInit(a, b))
              && Apply(rs, SpliceInit(a, b)) == Apply(Apply(rs, Move(a, |rs[a]| - 1, b)), SpliceInit(a, b))
  {
    var s, t := rs[a], rs[b];
    var n := |s| - 1;
    if n == 0 {
      assert s[..1] == s && t[..1] + s[1..] + t[1..] == t && t + s[1..] == t;
    } else {
      TailParts(s, t);
      FrontParts(s, t);
    }
  }

  lemma TailParts<T>(s: seq<T>, t: seq<T>)
    requires |s| > 1 && t != []
    ensures Without(s, 1)[..1] == s[..1]
    ensures (t + [s[1]]) + Without(s, 1)[1..] == t + s[1..]
  {
    assert Without(s, 1)[1..] == s[2..];
    assert s[1..] == [s[1]] + s[2..];
  }

  lemma FrontParts<T>(s: seq<T>, t: seq<T>)
    requires |s| > 1 && t != []
    ensures var n := |s| - 1;
      var u := InsertAfter(t, 0, s[n]);
      && Without(s, n)[..1] == s[..1]
      && u[..1] + Without(s, n)[1..] + u[1..] == t[..1] + s[1..] + t[1..]
  {
    var n := |s| - 1;
    var u := InsertAfter(t, 0, s[n]);
    assert Without(s, n) == s[..n];
    assert u[..1] == t[..1] && u[1..] == [s[n]] + t[1..];
    assert s[1..] == s[..n][1..] + [s[n]];
  }

  /** What has been cut off goes back by a splice. */
  lemma CutThenSpliced<T>(rs: seq<seq<T>>, c: nat, a: nat, i: nat)
    requires Legal(rs, Cut(c, a, i))
    ensures var r := Apply(rs, Cut(c, a, i));
      && |r[c]| == i + 1 && |r[a]| == |rs[a]| - i
      && Legal(r, SpliceInit(c, a)) && Apply(r, SpliceInit(c, a)) == rs
  {
    var s := rs[a];
    var r := Apply(rs, Cut(c, a, i));
    assert r[c][..1] == rs[c] && r[c][1..] == s[1..i + 1];
    assert r[a][..1] == s[..1] && r[a][1..] == s[i + 1..];
    assert s[..1] + s[1..i + 1] + s[i + 1..] == s;
  }

  /** list_add, then list_del_init: every link of the list is what it was. */
  method AddAndDel(node: ListHead, head: ListHead, ghost s: seq<ListHead>, ghost i: nat)
    requires Ring(s) && node !in s && i < |s| && head == s[i]
    modifies node, s
    ensures Ring(s) && Ring([node])
    ensures forall x :: x in s ==> x.next == old(x.next) && x.prev == old(x.prev)
  {
    AddDelRing(node, head, s, i);
    SameLinks(s);
  }

  method AddDelRing(node: ListHead, head: ListHead, ghost s: seq<ListHead>, ghost i: nat)
    requires Ring(s) && node !in s && i < |s| && head == s[i]
    modifies node, s
    ensures Ring(s) && Ring([node])
  {
    hide Ring;
    ListAdd(node, head, s, i);
    ghost var r := InsertAfter(s, i, node);
    assert r[i + 1] == node && Without(r, i + 1) == s;
    ListDelInit(node, r, i + 1);
  }

  // ---------------------------------------------------------------- hlists

  /** A node added stands where it was put, and deleting it restores the lists. */
  lemma HlistAddThenDel<N>(st: Placement<N>, n: N, a: nat, i: nat)
    requires AllApart(st.lists) && st.spare !! Nodes(st.lists) && LegalOp(st, HlistOp.AddBefore(n, a, i))
    ensures var r := Effect(st, HlistOp.AddBefore(n, a, i));
      && r.lists[a][i] == n && r.lists[a][i + 1] == st.lists[a][i]
      && LegalOp(r, DelNode(n)) && Effect(r, DelNode(n)) == st
  {
    var ls, op := st.lists, HlistOp.AddBefore(n, a, i);
    var r := Effect(st, op);
    EffectConserves(st, op);
    NodesAre(ls, n);
    assert r.lists[a][i] == n;
    assert n in r.lists[a];
    RemovedEverywhere(r.lists, a, i);
    assert Without(r.lists[a], i) == ls[a];
    assert r.lists[a := ls[a]] == ls;
    assert st.spare - {n} + {n} == st.spare;
  }

  /** The three additions are one, at different places; behind the last node the list is extended. */
  lemma HlistAddsAgree<N>(st: Placement<N>, n: N, a: nat, i: nat)
    requires LegalOp(st, HlistOp.AddBefore(n, a, i))
    ensures Effect(st, AddHead(n, a)) == Effect(st, HlistOp.AddBefore(n, a, 0))
    ensures i + 1 < |st.lists[a]| ==>
              Effect(st, AddAfter(a, i, n)) == Effect(st, HlistOp.AddBefore(n, a, i + 1))
    ensures i + 1 == |st.lists[a]| ==> Effect(st, AddAfter(a, i, n)).lists[a] == st.lists[a] + [n]
  {
    var s := st.lists[a];
    assert s[..0] + [n] + s[0..] == [n] + s;
    if i + 1 == |s| {
      assert s[..i + 1] == s && s[i + 1..] == [];
    }
  }

  /** An empty list gets its first node. */
  lemma HlistFirst<N>(st: Placement<N>, n: N, a: nat)
    requires LegalOp(st, AddHead(n, a))
    ensures Effect(st, AddHead(n, a)).lists[a][0] == n && Effect(st, AddHead(n, a)).lists[a][1..] == st.lists[a]
  {}

  /** Moving a list back restores both heads. */
  lemma MoveListBack<N>(st: Placement<N>, a: nat, b: nat)
    requires LegalOp(st, MoveList(a, b))
    ensures var r := Effect(st, MoveList(a, b));
      r.lists[b] == st.lists[a] && r.lists[a] == [] && Effect(r, MoveList(b, a)) == st
  {
    var ls := st.lists;
    assert ls[b := ls[a]][a := []][a := ls[a]][b := []] == ls;
  }
}
