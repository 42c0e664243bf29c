/** Every run of hlist operations over many heads that share no node (include/utils/list.h:627-715). */
module HlistRuns {
  import opened Rings
  import opened RingWorld
  import opened Hlists

  datatype HlistOp<N> =
    | AddHead(n: N, a: nat)
    | AddBefore(n: N, a: nat, i: nat)  // before node i of list a
    | AddAfter(a: nat, i: nat, n: N)
    | DelNode(n: N)                    // wherever it is
    | MoveList(a: nat, b: nat)

  /** The lists by head, and the initialised nodes that are on none. */
  datatype Placement<N(==)> = Placement(lists: seq<seq<N>>, spare: set<N>)

  function Removed<N(==)>(s: seq<N>, n: N): seq<N> {
    if s == [] then [] else if s[0] == n then s[1..] else [s[0]] + Removed(s[1..], n)
  }

  predicate LegalOp<N(==)>(st: Placement<N>, op: HlistOp<N>) {
    match op
    case AddHead(n, a) => n in st.spare && a < |st.lists|
    case AddBefore(n, a, i) => n in st.spare && a < |st.lists| && i < |st.lists[a]|
    case AddAfter(a, i, n) => n in st.spare && a < |st.lists| && i < |st.lists[a]|
    case DelNode(n) => st.lists != [] && (n in st.spare || exists c :: 0 <= c < |st.lists| && n in st.lists[c])
    case MoveList(a, b) => a < |st.lists| && b < |st.lists| && a != b && st.lists[b] == []
  }

  function Effect<N(==)>(st: Placement<N>, op: HlistOp<N>): Placement<N>
    requires LegalOp(st, op)
  {
    var ls := st.lists;
    match op
    case AddHead(n, a) => Placement(ls[a := [n] + ls[a]], st.spare - {n})
    case AddBefore(n, a, i) => Placement(ls[a := ls[a][..i] + [n] + ls[a][i..]], st.spare - {n})
    case AddAfter(a, i, n) => Placement(ls[a := InsertAfter(ls[a], i, n)], st.spare - {n})
    case DelNode(n) => Placement(seq(|ls|, c requires 0 <= c < |ls| => Removed(ls[c], n)), st.spare + {n})
    case MoveList(a, b) => Placement(ls[b := ls[a]][a := []], st.spare)
  }

  predicate LegalOps<N(==)>(st: Placement<N>, ops: seq<HlistOp<N>>)
    decreases |ops|
  {
    ops != [] ==> LegalOp(st, ops[0]) && LegalOps(Effect(st, ops[0]), ops[1..])
  }

  function EffectOf<N(==)>(st: Placement<N>, ops: seq<HlistOp<N>>): Placement<N>
    requires LegalOps(st, ops)
    decreases |ops|
  {
    if ops == [] then st else EffectOf(Effect(st, ops[0]), ops[1..])
  }

  ghost predicate Sound(hs: seq<HlistHead>, st: Placement<HlistNode>)
    reads hs, Nodes(st.lists), st.spare
  {
    AllHlists(hs, st.lists, st.spare)
  }

  // ---------------------------------------------------------------- nodes are conserved

  lemma {:induction false} RemovedIsWithout<N>(s: seq<N>, i: nat)
    requires Distinct(s) && i < |s|
    ensures Removed(s, s[i]) == Without(s, i)
  {
    if i > 0 {
      RemovedIsWithout(s[1..], i - 1);
      assert s[1..][i - 1] == s[i];
      assert [s[0]] + Without(s[1..], i - 1) == Without(s, i);
    }
  }

  lemma {:induction false} RemovedAbsent<N>(s: seq<N>, n: N)
    requires n !in s
    ensures Removed(s, n) == s
  {
    if s != [] {
      RemovedAbsent(s[1..], n);
    }
  }

  /** Removing a node from every list removes it from the one that has it. */
  lemma RemovedEverywhere<N>(ls: seq<seq<N>>, c: nat, i: nat)
    requires AllApart(ls) && c < |ls| && i < |ls[c]|
    ensures seq(|ls|, d requires 0 <= d < |ls| => Removed(ls[d], ls[c][i])) == ls[c := Without(ls[c], i)]
  {
    RemovedIsWithout(ls[c], i);
    forall d | 0 <= d < |ls| && d != c
      ensures Removed(ls[d], ls[c][i]) == ls[d]
    {
      RemovedAbsent(ls[d], ls[c][i]);
    }
  }

  lemma RemovedNowhere<N>(ls: seq<seq<N>>, n: N)
    requires n !in Nodes(ls)
    ensures seq(|ls|, d requires 0 <= d < |ls| => Removed(ls[d], n)) == ls
  {
    forall d | 0 <= d < |ls|
      ensures Removed(ls[d], n) == ls[d]
    {
      NodesAre(ls, n);
      RemovedAbsent(ls[d], n);
    }
  }

  /** One list takes one node more. */
  lemma GrowOne<N>(ls: seq<seq<N>>, a: nat, u: seq<N>, n: N)
    requires AllApart(ls) && a < |ls| && n !in Nodes(ls)
    requires Reshuffled(ls[a], [n], u, [])
    ensures AllApart(ls[a := u]) && Nodes(ls[a := u]) == Nodes(ls) + {n}
  {
    var more := ls + [[n]];
    NodesAre(ls, n);
    assert AllApart(more);
    assert Nodes(more) == Nodes(ls) + {n} by {
      assert more[|ls|][0] == n;
      assert forall c :: 0 <= c < |ls| ==> more[c] == ls[c];
    }
    ReshuffleTwo(more, a, |ls|, u, []);
    assert more[a := u][|ls| := []] == ls[a := u] + [[]];
    DropEmpty(ls[a := u]);
  }

  lemma ShrinkOne<N>(ls: seq<seq<N>>, a: nat, i: nat)
    requires AllApart(ls) && a < |ls| && i < |ls[a]|
    ensures AllApart(ls[a := Without(ls[a], i)]) && Nodes(ls[a := Without(ls[a], i)]) == Nodes(ls) - {ls[a][i]}
  {
    var r, n := ls[a := Without(ls[a], i)], ls[a][i];
    WithoutMembers(ls[a], i);
    forall x | x in Nodes(ls) && x != n
      ensures x in Nodes(r)
    {
      var c :| 0 <= c < |ls| && x in ls[c];
      assert x in r[c];
      NodesAre(r, x);
    }
    forall x | x in Nodes(r)
      ensures x in Nodes(ls) && x != n
    {
      var c :| 0 <= c < |r| && x in r[c];
      assert x in ls[c];
      NodesAre(ls, x);
    }
  }

  /** No operation loses a node, and none puts one on two lists. */
  lemma EffectConserves<N>(st: Placement<N>, op: HlistOp<N>)
    requires AllApart(st.lists) && st.spare !! Nodes(st.lists) && LegalOp(st, op)
    ensures var r := Effect(st, op);
      && AllApart(r.lists) && r.spare !! Nodes(r.lists)
      && Nodes(r.lists) + r.spare == Nodes(st.lists) + st.spare
      && |r.lists| == |st.lists|
  {
    hide Reshuffled, AllApart, Removed;
    var ls := st.lists;
    match op
    case AddHead(n, a) =>
      assert ls[a][..0] + [n] + ls[a][0..] == [n] + ls[a];
      InsertOne(ls, a, 0, n);
    case AddBefore(n, a, i) =>
      InsertOne(ls, a, i, n);
    case AddAfter(a, i, n) =>
      InsertOne(ls, a, i + 1, n);
    case DelNode(n) =>
      if n in Nodes(ls) {
        var c, i := DelEffect(st, n);
        ShrinkOne(ls, c, i);
      } else {
        DelNothing(st, n);
      }
    case MoveList(a, b) =>
      MoveReshuffles(ls, a, b);
      ReshuffleTwo(ls, b, a, ls[a], []);
  }

  lemma InsertOne<N>(ls: seq<seq<N>>, a: nat, i: nat, n: N)
    requires AllApart(ls) && a < |ls| && i <= |ls[a]| && n !in Nodes(ls)
    ensures var r := ls[a := ls[a][..i] + [n] + ls[a][i..]]; AllApart(r) && Nodes(r) == Nodes(ls) + {n}
  {
    NodesAre(ls, n);
    InsertedMembers(ls[a], i, n);
    GrowOne(ls, a, ls[a][..i] + [n] + ls[a][i..], n);
  }

  lemma MoveReshuffles<N>(ls: seq<seq<N>>, a: nat, b: nat)
    requires AllApart(ls) && a < |ls| && b < |ls| && ls[b] == []
    ensures Reshuffled(ls[b], ls[a], ls[a], [])
  {}

  /** A deletion takes node `n` from its place. */
  lemma DelEffect<N>(st: Placement<N>, n: N) returns (c: nat, i: nat)
    requires AllApart(st.lists) && LegalOp(st, DelNode(n)) && n in Nodes(st.lists)
    ensures c < |st.lists| && i < |st.lists[c]| && st.lists[c][i] == n
    ensures Effect(st, DelNode(n)) == Placement(st.lists[c := Without(st.lists[c], i)], st.spare + {n})
  {
    c, i :| 0 <= c < |st.lists| && 0 <= i < |st.lists[c]| && st.lists[c][i] == n;
    RemovedEverywhere(st.lists, c, i);
  }

  lemma DelNothing<N>(st: Placement<N>, n: N)
    requires LegalOp(st, DelNode(n)) && n !in Nodes(st.lists)
    ensures n in st.spare && Effect(st, DelNode(n)) == Placement(st.lists, st.spare)
  {
    NodesAre(st.lists, n);
    RemovedNowhere(st.lists, n);
    assert st.spare + {n} == st.spare;
  }

  lemma InsertedMembers<N>(s: seq<N>, i: nat, n: N)
    requires Distinct(s) && n !in s && i <= |s|
    ensures Reshuffled(s, [n], s[..i] + [n] + s[i..], [])
  {
    var r := s[..i] + [n] + s[i..];
    assert r[i] == n;
    forall x | x in s
      ensures x in r
    {
      var k :| 0 <= k < |s| && s[k] == x;
      assert r[if k < i then k else k + 1] == x;
    }
  }

  // ---------------------------------------------------------------- every run

  method ExecuteAddHead(op: HlistOp<HlistNode>, hs: seq<HlistHead>, st: Placement<HlistNode>)
    requires Sound(hs, st) && LegalOp(st, op) && op.AddHead?
    modifies hs, Nodes(st.lists), st.spare
    ensures Sound(hs, Effect(st, op))
  {
    EffectConserves(st, op);
    HlistAddHead(op.n, hs[op.a], st.lists[op.a]);
  }

  method ExecuteAddBefore(op: HlistOp<HlistNode>, hs: seq<HlistHead>, st: Placement<HlistNode>)
    requires Sound(hs, st) && LegalOp(st, op) && op.AddBefore?
    modifies hs, Nodes(st.lists), st.spare
    ensures Sound(hs, Effect(st, op))
  {
    hide Hooked;
    EffectConserves(st, op);
    var ls, a := st.lists, op.a;
    HlistAddBefore(op.n, ls[a][op.i], hs[a], ls[a], op.i);
    forall d | 0 <= d < |hs| && d != a
      ensures Hlist(hs[d], ls[d])
    {
      assert old(Hlist(hs[d], ls[d]));
    }
  }

  method ExecuteAddAfter(op: HlistOp<HlistNode>, hs: seq<HlistHead>, st: Placement<HlistNode>)
    requires Sound(hs, st) && LegalOp(st, op) && op.AddAfter?
    modifies hs, Nodes(st.lists), st.spare
    ensures Sound(hs, Effect(st, op))
  {
    hide Hooked;
    EffectConserves(st, op);
    var ls, a := st.lists, op.a;
    HlistAddAfter(ls[a][op.i], op.n, hs[a], ls[a], op.i);
    forall d | 0 <= d < |hs| && d != a
      ensures Hlist(hs[d], ls[d])
    {
      assert old(Hlist(hs[d], ls[d]));
    }
  }

  /** `hlist_del_init` is given the node alone. */
  method ExecuteDel(op: HlistOp<HlistNode>, hs: seq<HlistHead>, st: Placement<HlistNode>)
    requires Sound(hs, st) && LegalOp(st, op) && op.DelNode?
    modifies hs, Nodes(st.lists), st.spare
    ensures Sound(hs, Effect(st, op))
  {
    hide Hooked, Effect, Removed;
    EffectConserves(st, op);
    var ls, n := st.lists, op.n;
    ghost var c, i := 0, 0;
    if n in Nodes(ls) {
      c, i := DelEffect(st, n);
      TestsOnHlist(hs[c], ls[c]);
    } else {
      DelNothing(st, n);
    }
    HlistDelInit(n, hs[c], ls[c], i);
    forall d | 0 <= d < |hs| && d != c
      ensures Hlist(hs[d], ls[d])
    {
      assert old(Hlist(hs[d], ls[d]));
    }
  }

  method ExecuteMoveList(op: HlistOp<HlistNode>, hs: seq<HlistHead>, st: Placement<HlistNode>)
    requires Sound(hs, st) && LegalOp(st, op) && op.MoveList?
    modifies hs, Nodes(st.lists), st.spare
    ensures Sound(hs, Effect(st, op))
  {
    EffectConserves(st, op);
    HlistMoveList(hs[op.a], hs[op.b], st.lists[op.a]);
  }

  /** One call of the function that `op` names. */
  method Execute(op: HlistOp<HlistNode>, hs: seq<HlistHead>, st: Placement<HlistNode>)
    requires Sound(hs, st) && LegalOp(st, op)
    modifies hs, Nodes(st.lists), st.spare
    ensures Sound(hs, Effect(st, op))
  {
    if op.DelNode? {
      ExecuteDel(op, hs, st);
    } else if op.MoveList? {
      ExecuteMoveList(op, hs, st);
    } else if op.AddHead? {
      ExecuteAddHead(op, hs, st);
    } else if op.AddBefore? {
      ExecuteAddBefore(op, hs, st);
    } else {
      ExecuteAddAfter(op, hs, st);
    }
  }

  /** Every run: each list is what the operations say, and each `pprev` is the slot that leads to its
      node (with UniqueSlot, the only one). */
  method Run(ops: seq<HlistOp<HlistNode>>, hs: seq<HlistHead>, st: Placement<HlistNode>)
    returns (r: Placement<HlistNode>)
    requires Sound(hs, st) && LegalOps(st, ops)
    modifies hs, Nodes(st.lists), st.spare
    ensures r == EffectOf(st, ops) && Sound(hs, r)
    decreases |ops|
  {
    if ops == [] {
      r := st;
    } else {
      Execute(ops[0], hs, st);
      EffectConserves(st, ops[0]);
      r := Run(ops[1..], hs, Effect(st, ops[0]));
    }
  }
}
