/** Every run of list operations over many rings that share no node (include/utils/list.h). The rings
    are `rs`; the head of a list is node 0 of its ring, and an initialised node that is on no list is
    a ring by itself. A ring that has been absorbed by another is left as the empty sequence. */
module RingWorld {
  import opened Rings

  datatype Op =
    | Add(a: nat, b: nat)             // the lone node of ring a, after the head of b
    | AddTail(a: nat, b: nat)
    | DelInit(a: nat, i: nat)         // node i of ring a
    | Move(a: nat, i: nat, b: nat)    // node i of ring a, after the head of b
    | MoveTail(a: nat, i: nat, b: nat)
    | ReplaceInit(a: nat, i: nat, c: nat)  // by the lone node of ring c
    | RotateLeft(a: nat)
    | SpliceInit(a: nat, b: nat)      // the entries of list a, after the head of b
    | SpliceTailInit(a: nat, b: nat)
    | Cut(c: nat, a: nat, i: nat)     // the entries of list a up to node i, to the lone head c

  /** What list.h asks of a caller: the nodes named are there, and a node to insert is on no list. */
  predicate Legal<T(==)>(rs: seq<seq<T>>, op: Op) {
    match op
    case Add(a, b) => a < |rs| && b < |rs| && a != b && |rs[a]| == 1 && rs[b] != []
    case AddTail(a, b) => a < |rs| && b < |rs| && a != b && |rs[a]| == 1 && rs[b] != []
    case DelInit(a, i) => a < |rs| && i < |rs[a]|
    case Move(a, i, b) => a < |rs| && i < |rs[a]| && b < |rs| && rs[b] != [] && (a == b ==> i > 0)
    case MoveTail(a, i, b) => a < |rs| && i < |rs[a]| && b < |rs| && rs[b] != [] && (a == b ==> i > 0)
    case ReplaceInit(a, i, c) => a < |rs| && i < |rs[a]| && c < |rs| && a != c && |rs[c]| == 1
    case RotateLeft(a) => a < |rs| && rs[a] != []
    case SpliceInit(a, b) => a < |rs| && b < |rs| && a != b && rs[a] != [] && rs[b] != []
    case SpliceTailInit(a, b) => a < |rs| && b < |rs| && a != b && rs[a] != [] && rs[b] != []
    case Cut(c, a, i) => c < |rs| && a < |rs| && c != a && |rs[c]| == 1 && i < |rs[a]|
  }

  /** What each operation is for, on the sequences. */
  function Apply<T(==)>(rs: seq<seq<T>>, op: Op): seq<seq<T>>
    requires Legal(rs, op)
  {
    match op
    case Add(a, b) => rs[a := []][b := InsertAfter(rs[b], 0, rs[a][0])]
    case AddTail(a, b) => rs[a := []][b := rs[b] + rs[a]]
    case DelInit(a, i) => rs[a := Without(rs[a], i)] + [[rs[a][i]]]
    case Move(a, i, b) =>
      var out := rs[a := Without(rs[a], i)];
      out[b := InsertAfter(out[b], 0, rs[a][i])]
    case MoveTail(a, i, b) =>
      var out := rs[a := Without(rs[a], i)];
      out[b := out[b] + [rs[a][i]]]
    case ReplaceInit(a, i, c) => rs[a := rs[a][i := rs[c][0]]][c := [rs[a][i]]]
    case RotateLeft(a) => rs[a := Rotated(rs[a])]
    case SpliceInit(a, b) => rs[a := rs[a][..1]][b := rs[b][..1] + rs[a][1..] + rs[b][1..]]
    case SpliceTailInit(a, b) => rs[a := rs[a][..1]][b := rs[b] + rs[a][1..]]
    case Cut(c, a, i) => rs[c := rs[c] + rs[a][1..i + 1]][a := rs[a][..1] + rs[a][i + 1..]]
  }

  predicate LegalRun<T(==)>(rs: seq<seq<T>>, ops: seq<Op>)
    decreases |ops|
  {
    ops != [] ==> Legal(rs, ops[0]) && LegalRun(Apply(rs, ops[0]), ops[1..])
  }

  function ApplyAll<T(==)>(rs: seq<seq<T>>, ops: seq<Op>): seq<seq<T>>
    requires LegalRun(rs, ops)
    decreases |ops|
  {
    if ops == [] then rs else ApplyAll(Apply(rs, ops[0]), ops[1..])
  }

  // ---------------------------------------------------------------- the pointers

  ghost function Nodes<T>(rs: seq<seq<T>>): set<T> {
    set a, i | 0 <= a < |rs| && 0 <= i < |rs[a]| :: rs[a][i]
  }

  ghost predicate AllApart<T>(rs: seq<seq<T>>) {
    && (forall a :: 0 <= a < |rs| ==> Distinct(rs[a]))
    && (forall a, b :: 0 <= a < |rs| && 0 <= b < |rs| && a != b ==> Apart(rs[a], rs[b]))
  }

  /** Every sequence is a ring, and no two share a node. */
  ghost predicate AllRings(rs: seq<seq<ListHead>>)
    reads Nodes(rs)
  {
    AllApart(rs) && forall a :: 0 <= a < |rs| ==> Ring(rs[a])
  }

  // ---------------------------------------------------------------- nodes are conserved

  /** `u` and `v` hold the nodes of `s` and `t`, each once. */
  ghost predicate Reshuffled<T>(s: seq<T>, t: seq<T>, u: seq<T>, v: seq<T>) {
    && Distinct(u) && Distinct(v) && Apart(u, v)
    && (forall x :: x in u ==> x in s || x in t)
    && (forall x :: x in v ==> x in s || x in t)
    && (forall x :: x in s ==> x in u || x in v)
    && (forall x :: x in t ==> x in u || x in v)
  }

  lemma ReshuffleTwo<T>(rs: seq<seq<T>>, a: nat, b: nat, u: seq<T>, v: seq<T>)
    requires AllApart(rs) && a < |rs| && b < |rs| && a != b
    requires Reshuffled(rs[a], rs[b], u, v)
    ensures AllApart(rs[a := u][b := v]) && Nodes(rs[a := u][b := v]) == Nodes(rs)
  {
    var r := rs[a := u][b := v];
    forall c, d | 0 <= c < |r| && 0 <= d < |r| && c != d
      ensures Apart(r[c], r[d])
    {
      forall i, j | 0 <= i < |r[c]| && 0 <= j < |r[d]|
        ensures r[c][i] != r[d][j]
      {
        var x, y := r[c][i], r[d][j];
        assert c == a || c == b ==> x in rs[a] || x in rs[b];
        assert d == a || d == b ==> y in rs[a] || y in rs[b];
      }
    }
    forall x | x in Nodes(r)
      ensures x in Nodes(rs)
    {
      var c :| 0 <= c < |r| && x in r[c];
      assert x in rs[a] || x in rs[b] || x in rs[c];
      NodesAre(rs, x);
    }
    forall x | x in Nodes(rs)
      ensures x in Nodes(r)
    {
      var c :| 0 <= c < |rs| && x in rs[c];
      assert x in r[a] || x in r[b] || x in r[c];
      NodesAre(r, x);
    }
  }

  lemma NodesAre<T>(rs: seq<seq<T>>, x: T)
    ensures x in Nodes(rs) <==> exists c :: 0 <= c < |rs| && x in rs[c]
  {}

  lemma ReshuffleOne<T>(rs: seq<seq<T>>, a: nat, u: seq<T>)
    requires AllApart(rs) && a < |rs|
    requires Reshuffled(rs[a], [], u, [])
    ensures AllApart(rs[a := u]) && Nodes(rs[a := u]) == Nodes(rs)
  {
    var more := rs + [[]];
    assert AllApart(more);
    ReshuffleTwo(more, a, |rs|, u, []);
    assert more[a := u][|rs| := []] == rs[a := u] + [[]];
    DropEmpty(rs);
    DropEmpty(rs[a := u]);
  }

  lemma DropEmpty<T>(rs: seq<seq<T>>)
    ensures Nodes(rs + [[]]) == Nodes(rs)
    ensures AllApart(rs + [[]]) <==> AllApart(rs)
  {
    var more := rs + [[]];
    assert forall c :: 0 <= c < |rs| ==> more[c] == rs[c];
    assert forall x :: x in Nodes(rs) ==> x in Nodes(more);
  }

  lemma InsertReshuffles<T>(x: T, s: seq<T>)
    requires Distinct(s) && x !in s && s != []
    ensures Reshuffled([x], s, [], InsertAfter(s, 0, x)) && Reshuffled([x], s, [], s + [x])
  {
    var r := InsertAfter(s, 0, x);
    assert r[1] == x && (s + [x])[|s|] == x;
    assert forall k :: 0 < k < |s| ==> r[k + 1] == s[k];
  }

  lemma ReplaceReshuffles<T>(s: seq<T>, i: nat, x: T)
    requires Distinct(s) && i < |s| && x !in s
    ensures Reshuffled(s, [x], s[i := x], [s[i]])
  {
    var u := s[i := x];
    assert u[i] == x && [s[i]][0] == s[i];
    forall y | y in s
      ensures y in u || y in [s[i]]
    {
      var k :| 0 <= k < |s| && s[k] == y;
      assert k != i ==> u[k] == y;
    }
  }

  lemma SpliceReshuffles<T>(s: seq<T>, t: seq<T>)
    requires Distinct(s) && Distinct(t) && Apart(s, t) && s != [] && t != []
    ensures Reshuffled(s, t, s[..1], t[..1] + s[1..] + t[1..]) && Reshuffled(s, t, s[..1], t + s[1..])
  {
    var v, w := t[..1] + s[1..] + t[1..], t + s[1..];
    assert s == s[..1] + s[1..] && t == t[..1] + t[1..];
    assert forall y :: y in v <==> y in t[..1] || y in s[1..] || y in t[1..];
    assert forall y :: y in w <==> y in t || y in s[1..];
  }

  lemma RotateReshuffles<T>(s: seq<T>)
    requires Distinct(s)
    ensures Reshuffled(s, [], Rotated(s), [])
  {
    if |s| > 1 {
      assert s == [s[0]] + [s[1]] + s[2..];
    }
  }

  lemma CutReshuffles<T>(s: seq<T>, t: seq<T>, i: nat)
    requires Distinct(s) && Distinct(t) && Apart(s, t) && i < |t|
    ensures Reshuffled(s, t, s + t[1..i + 1], t[..1] + t[i + 1..])
  {
    var u, v := s + t[1..i + 1], t[..1] + t[i + 1..];
    assert t == t[..1] + t[1..i + 1] + t[i + 1..];
    assert forall y :: y in u <==> y in s || y in t[1..i + 1];
    assert forall y :: y in v <==> y in t[..1] || y in t[i + 1..];
  }

  /** No operation loses a node, or puts one on two rings. */
  lemma ApplyConserves<T>(rs: seq<seq<T>>, op: Op)
    requires AllApart(rs) && Legal(rs, op)
    ensures AllApart(Apply(rs, op)) && Nodes(Apply(rs, op)) == Nodes(rs)
  {
    hide AllApart, Nodes, Apply, Legal;
    match op
    case Add(_, _) => AddConserves(rs, op);
    case AddTail(_, _) => AddConserves(rs, op);
    case DelInit(a, i) => DelConserves(rs, a, i);
    case Move(a, i, b) => MoveConserves(rs, a, i, b);
    case MoveTail(a, i, b) => MoveTailConserves(rs, a, i, b);
    case ReplaceInit(_, _, _) => ReplaceConserves(rs, op);
    case RotateLeft(_) => RotateConserves(rs, op);
    case SpliceInit(_, _) => SpliceConserves(rs, op);
    case SpliceTailInit(_, _) => SpliceConserves(rs, op);
    case Cut(_, _, _) => CutConserves(rs, op);
  }

  lemma AddConserves<T>(rs: seq<seq<T>>, op: Op)
    requires AllApart(rs) && Legal(rs, op) && (op.Add? || op.AddTail?)
    ensures AllApart(Apply(rs, op)) && Nodes(Apply(rs, op)) == Nodes(rs)
  {
    hide Reshuffled, Nodes;
    var a := op.a;
    var x, s := rs[a][0], rs[op.b];
    assert rs[a] == [x];
    InsertReshuffles(x, s);
    ReshuffleTwo(rs, a, op.b, [], if op.Add? then InsertAfter(s, 0, x) else s + [x]);
  }

  lemma ReplaceConserves<T>(rs: seq<seq<T>>, op: Op)
    requires AllApart(rs) && Legal(rs, op) && op.ReplaceInit?
    ensures AllApart(Apply(rs, op)) && Nodes(Apply(rs, op)) == Nodes(rs)
  {
    hide Reshuffled, Nodes;
    var a := op.a;
    var x, s := rs[op.c][0], rs[a];
    assert rs[op.c] == [x];
    ReplaceReshuffles(s, op.i, x);
    ReshuffleTwo(rs, a, op.c, s[op.i := x], [s[op.i]]);
  }

  lemma RotateConserves<T>(rs: seq<seq<T>>, op: Op)
    requires AllApart(rs) && Legal(rs, op) && op.RotateLeft?
    ensures AllApart(Apply(rs, op)) && Nodes(Apply(rs, op)) == Nodes(rs)
  {
    hide Reshuffled, Nodes;
    var a := op.a;
    RotateReshuffles(rs[a]);
    ReshuffleOne(rs, a, Rotated(rs[a]));
  }

  lemma SpliceConserves<T>(rs: seq<seq<T>>, op: Op)
    requires AllApart(rs) && Legal(rs, op) && (op.SpliceInit? || op.SpliceTailInit?)
    ensures AllApart(Apply(rs, op)) && Nodes(Apply(rs, op)) == Nodes(rs)
  {
    hide Reshuffled, Nodes;
    var a := op.a;
    var s, t := rs[a], rs[op.b];
    SpliceReshuffles(s, t);
    ReshuffleTwo(rs, a, op.b, s[..1], if op.SpliceInit? then t[..1] + s[1..] + t[1..] else t + s[1..]);
  }

  lemma CutConserves<T>(rs: seq<seq<T>>, op: Op)
    requires AllApart(rs) && Legal(rs, op) && op.Cut?
    ensures AllApart(Apply(rs, op)) && Nodes(Apply(rs, op)) == Nodes(rs)
  {
    hide Reshuffled, Nodes;
    var a := op.a;
    var c, s, i := rs[op.c], rs[a], op.i;
    CutReshuffles(c, s, i);
    ReshuffleTwo(rs, op.c, a, c + s[1..i + 1], s[..1] + s[i + 1..]);
  }

  lemma DelConserves<T>(rs: seq<seq<T>>, a: nat, i: nat)
    requires AllApart(rs) && Legal(rs, DelInit(a, i))
    ensures AllApart(Apply(rs, DelInit(a, i))) && Nodes(Apply(rs, DelInit(a, i))) == Nodes(rs)
  {
    var more := rs + [[]];
    DropEmpty(rs);
    WithoutMembers(rs[a], i);
    ReshuffleTwo(more, a, |rs|, Without(rs[a], i), [rs[a][i]]);
    assert more[a := Without(rs[a], i)][|rs| := [rs[a][i]]] == Apply(rs, DelInit(a, i));
  }

  lemma MoveConserves<T>(rs: seq<seq<T>>, a: nat, i: nat, b: nat)
    requires AllApart(rs) && Legal(rs, Move(a, i, b))
    ensures AllApart(Apply(rs, Move(a, i, b))) && Nodes(Apply(rs, Move(a, i, b))) == Nodes(rs)
  {
    var s, x := Without(rs[a], i), rs[a][i];
    WithoutMembers(rs[a], i);
    if a == b {
      ReshuffleOne(rs, a, InsertAfter(s, 0, x));
      assert Apply(rs, Move(a, i, b)) == rs[a := InsertAfter(s, 0, x)];
    } else {
      ReshuffleTwo(rs, a, b, s, InsertAfter(rs[b], 0, x));
    }
  }

  lemma MoveTailConserves<T>(rs: seq<seq<T>>, a: nat, i: nat, b: nat)
    requires AllApart(rs) && Legal(rs, MoveTail(a, i, b))
    ensures AllApart(Apply(rs, MoveTail(a, i, b))) && Nodes(Apply(rs, MoveTail(a, i, b))) == Nodes(rs)
  {
    var s, x := Without(rs[a], i), rs[a][i];
    WithoutMembers(rs[a], i);
    if a == b {
      ReshuffleOne(rs, a, s + [x]);
      assert Apply(rs, MoveTail(a, i, b)) == rs[a := s + [x]];
    } else {
      ReshuffleTwo(rs, a, b, s, rs[b] + [x]);
    }
  }

  /** Over a whole run no node is lost, and none is ever on two rings. */
  lemma {:induction false} RunConserves<T>(rs: seq<seq<T>>, ops: seq<Op>)
    requires AllApart(rs) && LegalRun(rs, ops)
    ensures AllApart(ApplyAll(rs, ops)) && Nodes(ApplyAll(rs, ops)) == Nodes(rs)
    decreases |ops|
  {
    if ops != [] {
      ApplyConserves(rs, ops[0]);
      RunConserves(Apply(rs, ops[0]), ops[1..]);
    }
  }

  // ---------------------------------------------------------------- every run

  method ExecuteAdd(op: Op, rs: seq<seq<ListHead>>)
    requires AllRings(rs) && Legal(rs, op) && op.Add?
    modifies Nodes(rs)
    ensures AllRings(Apply(rs, op))
  {
    hide Linked;
    ApplyConserves(rs, op);
    ListAdd(rs[op.a][0], rs[op.b][0], rs[op.b], 0);
  }

  method ExecuteAddTail(op: Op, rs: seq<seq<ListHead>>)
    requires AllRings(rs) && Legal(rs, op) && op.AddTail?
    modifies Nodes(rs)
    ensures AllRings(Apply(rs, op))
  {
    hide Linked;
    ApplyConserves(rs, op);
    ListAddTail(rs[op.a][0], rs[op.b][0], rs[op.b]);
    assert rs[op.b] + [rs[op.a][0]] == rs[op.b] + rs[op.a];
  }

  method ExecuteReplace(op: Op, rs: seq<seq<ListHead>>)
    requires AllRings(rs) && Legal(rs, op) && op.ReplaceInit?
    modifies Nodes(rs)
    ensures AllRings(Apply(rs, op))
  {
    hide Ring, Linked;
    ApplyConserves(rs, op);
    ListReplaceInit(rs[op.a][op.i], rs[op.c][0], rs[op.a], op.i);
  }

  method ExecuteMove(op: Op, rs: seq<seq<ListHead>>)
    requires AllRings(rs) && Legal(rs, op) && op.Move?
    modifies Nodes(rs)
    ensures AllRings(Apply(rs, op))
  {
    hide Ring, Linked;
    ApplyConserves(rs, op);
    ghost var out := rs[op.a := Without(rs[op.a], op.i)];
    ListMove(rs[op.a][op.i], rs[op.b][0], rs[op.a], op.i, out[op.b], 0);
  }

  method ExecuteMoveTail(op: Op, rs: seq<seq<ListHead>>)
    requires AllRings(rs) && Legal(rs, op) && op.MoveTail?
    modifies Nodes(rs)
    ensures AllRings(Apply(rs, op))
  {
    hide Ring, Linked;
    ApplyConserves(rs, op);
    ghost var out := rs[op.a := Without(rs[op.a], op.i)];
    ListMoveTail(rs[op.a][op.i], rs[op.b][0], rs[op.a], op.i, out[op.b]);
  }

  /** Calls on one list. */
  method ExecuteOnOne(op: Op, rs: seq<seq<ListHead>>)
    requires AllRings(rs) && Legal(rs, op)
    requires op.DelInit? || op.RotateLeft?
    modifies Nodes(rs)
    ensures AllRings(Apply(rs, op))
  {
    hide Ring, Linked;
    ApplyConserves(rs, op);
    match op {
      case DelInit(a, i) =>
        ListDelInit(rs[a][i], rs[a], i);
      case RotateLeft(a) =>
        ListRotateLeft(rs[a][0], rs[a]);
    }
  }

  /** Calls that empty one list into another. */
  method ExecuteSplice(op: Op, rs: seq<seq<ListHead>>)
    requires AllRings(rs) && Legal(rs, op)
    requires op.SpliceInit? || op.SpliceTailInit?
    modifies Nodes(rs)
    ensures AllRings(Apply(rs, op))
  {
    hide Ring, Linked;
    ApplyConserves(rs, op);
    match op {
      case SpliceInit(a, b) =>
        ListSpliceInit(rs[a][0], rs[b][0], rs[a], rs[b]);
        assert rs[a][..1] == [rs[a][0]] && rs[b][..1] == [rs[b][0]];
      case SpliceTailInit(a, b) =>
        ListSpliceTailInit(rs[a][0], rs[b][0], rs[a], rs[b]);
        assert rs[a][..1] == [rs[a][0]];
    }
  }

  /** The call that makes two lists of one. */
  method ExecuteCut(op: Op, rs: seq<seq<ListHead>>)
    requires AllRings(rs) && Legal(rs, op) && op.Cut?
    modifies Nodes(rs)
    ensures AllRings(Apply(rs, op))
  {
    hide Linked, Ring;
    ApplyConserves(rs, op);
    var list, s, i := rs[op.c][0], rs[op.a], op.i;
    assert rs[op.c] == [list] && s[..1] == [s[0]];
    LoneLinks(list);
    ListCutPosition(list, s[0], s[i], s, i);
    if i == 0 {
      assert [list] + s[1..1] == [list] && s[..1] + s[1..] == s;
      if |s| == 1 {
        LoneRing(list);
      }
    }
  }

  /** One call of the function that `op` names. */
  method Execute(op: Op, rs: seq<seq<ListHead>>) returns (r: seq<seq<ListHead>>)
    requires AllRings(rs) && Legal(rs, op)
    modifies Nodes(rs)
    ensures r == Apply(rs, op) && AllRings(r)
    ensures Nodes(r) == Nodes(rs)
  {
    ApplyConserves(rs, op);
    r := Apply(rs, op);
    if op.Add? {
      ExecuteAdd(op, rs);
    } else if op.AddTail? {
      ExecuteAddTail(op, rs);
    } else if op.ReplaceInit? {
      ExecuteReplace(op, rs);
    } else if op.SpliceInit? || op.SpliceTailInit? {
      ExecuteSplice(op, rs);
    } else if op.Cut? {
      ExecuteCut(op, rs);
    } else if op.Move? {
      ExecuteMove(op, rs);
    } else if op.MoveTail? {
      ExecuteMoveTail(op, rs);
    } else {
      ExecuteOnOne(op, rs);
    }
  }

  /** Every run: each ring stays well formed, the rings stay apart, and each sequence is what the
      operations say. */
  method Run(ops: seq<Op>, rs: seq<seq<ListHead>>) returns (r: seq<seq<ListHead>>)
    requires AllRings(rs) && LegalRun(rs, ops)
    modifies Nodes(rs)
    ensures r == ApplyAll(rs, ops) && AllRings(r)
    ensures Nodes(r) == Nodes(rs)
    decreases |ops|
  {
    if ops == [] {
      r := rs;
    } else {
      r := Execute(ops[0], rs);
      r := Run(ops[1..], r);
    }
  }
}
