/** Bytes, little-endian words and the byte loops of libc/string/mem_operations.c. */
module Memory {
  type byte = x: int | 0 <= x < 256

  // ---------------------------------------------------------------- words

  function WordAt(m: seq<byte>, o: int): (w: int)
    requires 0 <= o && o + 4 <= |m|
    ensures 0 <= w < 0x1_0000_0000
  {
    var b0: int, b1: int, b2: int, b3: int := m[o], m[o + 1], m[o + 2], m[o + 3];
    b0 + 0x100 * b1 + 0x1_0000 * b2 + 0x100_0000 * b3
  }

  lemma WordBytes(w: int)
    requires 0 <= w < 0x1_0000_0000
    ensures 0 <= w / 0x100_0000 < 0x100
    ensures w == w % 0x100 + 0x100 * (w / 0x100 % 0x100)
               + 0x1_0000 * (w / 0x1_0000 % 0x100) + 0x100_0000 * (w / 0x100_0000)
  {
    var w1, w2 := w / 0x100, w / 0x1_0000;
    assert w == 0x100 * w1 + w % 0x100;
    assert w1 / 0x100 == w2 && w1 == 0x100 * w2 + w1 % 0x100;
    assert w2 / 0x100 == w / 0x100_0000 && w2 == 0x100 * (w / 0x100_0000) + w2 % 0x100;
  }

  /** The lowest byte comes first. */
  lemma LowByteFirst(m: seq<byte>, o: int)
    requires 0 <= o && o + 4 <= |m|
    ensures var w := WordAt(m, o);
      && m[o] == w % 0x100 && m[o + 1] == w / 0x100 % 0x100
      && m[o + 2] == w / 0x1_0000 % 0x100 && m[o + 3] == w / 0x100_0000
  {
    var b0: int, b1: int, b2: int, b3: int := m[o], m[o + 1], m[o + 2], m[o + 3];
    FourBytes(b0, b1, b2, b3);
  }

  lemma FourBytes(b0: int, b1: int, b2: int, b3: int)
    requires 0 <= b0 < 0x100 && 0 <= b1 < 0x100 && 0 <= b2 < 0x100 && 0 <= b3 < 0x100
    ensures var w := b0 + 0x100 * b1 + 0x1_0000 * b2 + 0x100_0000 * b3;
      && w % 0x100 == b0 && w / 0x100 % 0x100 == b1 && w / 0x1_0000 % 0x100 == b2 && w / 0x100_0000 == b3
  {
    var w1, w2 := b1 + 0x100 * b2 + 0x1_0000 * b3, b2 + 0x100 * b3;
    var w := b0 + 0x100 * w1;
    assert w / 0x100 == w1 && w % 0x100 == b0;
    assert w1 == b1 + 0x100 * w2 && w1 / 0x100 == w2;
    assert w == (b0 + 0x100 * b1) + 0x1_0000 * w2 && w / 0x1_0000 == w2;
    assert w == (b0 + 0x100 * b1 + 0x1_0000 * b2) + 0x100_0000 * b3;
  }

  /** A 32-bit store, lowest byte first. */
  method StoreWord(a: array<byte>, o: nat, w: int)
    requires o + 4 <= a.Length && 0 <= w < 0x1_0000_0000
    modifies a
    ensures WordAt(a[..], o) == w
    ensures forall i :: 0 <= i < a.Length && !(o <= i < o + 4) ==> a[i] == old(a[i])
    ensures forall p :: 0 <= p && p + 4 <= a.Length && (p + 4 <= o || o + 4 <= p) ==>
        WordAt(a[..], p) == WordAt(old(a[..]), p)
  {
    WordBytes(w);
    a[o] := w % 0x100;
    a[o + 1] := w / 0x100 % 0x100;
    a[o + 2] := w / 0x1_0000 % 0x100;
    a[o + 3] := w / 0x100_0000;
  }

  method StoreByte(a: array<byte>, o: nat, b: byte)
    requires o < a.Length
    modifies a
    ensures a[..] == old(a[..])[o := b]
    ensures forall p :: 0 <= p && p + 4 <= a.Length && (p + 4 <= o || o < p) ==>
        WordAt(a[..], p) == WordAt(old(a[..]), p)
  {
    a[o] := b;
  }

  // ---------------------------------------------------------------- memset

  method MemSet(a: array<byte>, mem: nat, c: byte, n: nat)
    requires mem + n <= a.Length
    modifies a
    ensures forall i :: 0 <= i < a.Length ==> a[i] == if mem <= i < mem + n then c else old(a[i])
  {
    for i := 0 to n
      invariant forall j :: 0 <= j < a.Length ==> a[j] == if mem <= j < mem + i then c else old(a[j])
    {
      a[mem + i] := c;
    }
  }

  // ---------------------------------------------------------------- memcpy and memcpyrev

  /** `n` bytes copied from `src` to `dst` inside one memory, lowest address first. */
  function CopyUp<T>(s: seq<T>, dst: nat, src: nat, n: nat): (r: seq<T>)
    requires dst + n <= |s| && src + n <= |s|
    ensures |r| == |s|
    ensures forall i :: 0 <= i < |s| && !(dst <= i < dst + n) ==> r[i] == s[i]
  {
    if n == 0 then s
    else
      var t := CopyUp(s, dst, src, n - 1);
      t[dst + n - 1 := t[src + n - 1]]
  }

  /** `n` bytes copied from `src` to `dst` inside one memory, highest address first. */
  function CopyDown<T>(s: seq<T>, dst: nat, src: nat, n: nat): (r: seq<T>)
    requires dst + n <= |s| && src + n <= |s|
    ensures |r| == |s|
    ensures forall i :: 0 <= i < |s| && !(dst <= i < dst + n) ==> r[i] == s[i]
    decreases n
  {
    if n == 0 then s else CopyDown(s[dst + n - 1 := s[src + n - 1]], dst, src, n - 1)
  }

  /** The destination holds what the source held. */
  ghost predicate Moved<T>(s: seq<T>, r: seq<T>, dst: nat, src: nat, n: nat)
    requires dst + n <= |s| == |r| && src + n <= |s|
  {
    forall i :: dst <= i < dst + n ==> r[i] == s[i - dst + src]
  }

  method MemCpy(a: array<byte>, dst: nat, src: nat, n: nat)
    requires dst + n <= a.Length && src + n <= a.Length
    modifies a
    ensures a[..] == CopyUp(old(a[..]), dst, src, n)
  {
    for i := 0 to n
      invariant a[..] == CopyUp(old(a[..]), dst, src, i)
    {
      a[dst + i] := a[src + i];
    }
  }

  method MemCpyRev(a: array<byte>, dst: nat, src: nat, n: nat)
    requires dst + n <= a.Length && src + n <= a.Length
    modifies a
    ensures a[..] == CopyDown(old(a[..]), dst, src, n)
  {
    for i := n downto 0
      invariant CopyDown(a[..], dst, src, i) == CopyDown(old(a[..]), dst, src, n)
    {
      a[dst + i] := a[src + i];
    }
  }

  /** `i` reduced below `d` by steps of `d`; `i` itself when there is no period. */
  function Wrap(i: nat, d: int): (r: nat)
    ensures r <= i
  {
    if 0 < d <= i then Wrap(i - d, d) else i
  }

  /** An ascending copy moves the bytes unless its destination starts inside its source; then it
      repeats the first dst - src of them. */
  lemma {:induction false} CopyUpBytes<T>(s: seq<T>, dst: nat, src: nat, n: nat)
    requires dst + n <= |s| && src + n <= |s|
    ensures forall i :: dst <= i < dst + n ==> CopyUp(s, dst, src, n)[i] == s[src + Wrap(i - dst, dst - src)]
  {
    if n > 0 {
      CopyUpBytes(s, dst, src, n - 1);
    }
  }

  lemma CopyUpMoves<T>(s: seq<T>, dst: nat, src: nat, n: nat)
    requires dst + n <= |s| && src + n <= |s|
    requires !(src < dst < src + n)
    ensures Moved(s, CopyUp(s, dst, src, n), dst, src, n)
  {
    CopyUpBytes(s, dst, src, n);
    NoWrap(n, dst - src);
  }

  lemma CopyUpOverlap(s: seq<byte>, dst: nat, src: nat, n: nat)
    requires dst + n <= |s| && src + n <= |s|
    requires src < dst < src + n
    requires s[src] == 0 && s[dst] == 1
    ensures !Moved(s, CopyUp(s, dst, src, n), dst, src, n)
  {
    CopyUpBytes(s, dst, src, n);
    var i := dst + (dst - src);
    assert Wrap(i - dst, dst - src) == 0;
    assert CopyUp(s, dst, src, n)[i] == 0;
  }

  /** `memcpy` moves every content correctly exactly when its destination does not start strictly
      inside its source. */
  lemma MemCpyMovesIff(len: nat, dst: nat, src: nat, n: nat)
    requires dst + n <= len && src + n <= len
    ensures (forall s: seq<byte> :: |s| == len ==> Moved(s, CopyUp(s, dst, src, n), dst, src, n))
        <==> !(src < dst < src + n)
  {
    if src < dst < src + n {
      var s: seq<byte> := Marked(len, dst);
      CopyUpOverlap(s, dst, src, n);
    } else {
      forall s: seq<byte> | |s| == len
        ensures Moved(s, CopyUp(s, dst, src, n), dst, src, n)
      {
        CopyUpMoves(s, dst, src, n);
      }
    }
  }

  /** Zeros but for a one at `at`. */
  ghost function Marked(len: nat, at: nat): (s: seq<byte>)
    requires at < len
    ensures |s| == len && s[at] == 1 && forall i :: 0 <= i < len && i != at ==> s[i] == 0
  {
    seq(len, i => if i == at then 1 else 0)
  }

  lemma NoWrap(n: nat, d: int)
    requires d <= 0 || n <= d
    ensures forall i: nat :: i < n ==> Wrap(i, d) == i
  {}

  lemma {:induction false} CopyDownMoves<T>(s: seq<T>, dst: nat, src: nat, n: nat)
    requires dst + n <= |s| && src + n <= |s|
    requires !(dst < src < dst + n)
    ensures Moved(s, CopyDown(s, dst, src, n), dst, src, n)
    decreases n
  {
    if n > 0 {
      CopyDownMoves(s[dst + n - 1 := s[src + n - 1]], dst, src, n - 1);
    }
  }

  lemma CopyDownOverlap(s: seq<byte>, dst: nat, src: nat, n: nat)
    requires dst + n <= |s| && src + n <= |s|
    requires dst < src < dst + n
    requires s[dst + n - 1] == 0 && s[src + n - 1] == 1
    ensures !Moved(s, CopyDown(s, dst, src, n), dst, src, n)
  {
    var i := dst + n - 1 - src;
    CopyDownUntil(s[dst + n - 1 := s[src + n - 1]], dst, src, n - 1, i, n - 1);
    assert CopyDown(s, dst, src, n)[dst + i] == 1;
    assert s[dst + i - dst + src] == 0;
  }

  /** `memcpyrev` moves every content correctly exactly when its source does not start strictly
      inside its destination. */
  lemma MemCpyRevMovesIff(len: nat, dst: nat, src: nat, n: nat)
    requires dst + n <= len && src + n <= len
    ensures (forall s: seq<byte> :: |s| == len ==> Moved(s, CopyDown(s, dst, src, n), dst, src, n))
        <==> !(dst < src < dst + n)
  {
    if dst < src < dst + n {
      CopyDownOverlap(Marked(len, src + n - 1), dst, src, n);
    } else {
      forall s: seq<byte> | |s| == len
        ensures Moved(s, CopyDown(s, dst, src, n), dst, src, n)
      {
        CopyDownMoves(s, dst, src, n);
      }
    }
  }

  /** An overlapping descending copy reads back, at src - dst below its top, what it put there. */
  lemma {:induction false} CopyDownUntil<T>(s: seq<T>, dst: nat, src: nat, n: nat, i: nat, top: nat)
    requires dst + n <= |s| && src + n <= |s| && dst < src
    requires i < n <= top && src + i == dst + top < |s|
    ensures CopyDown(s, dst, src, n)[dst + i] == s[dst + top]
    decreases n
  {
    if n - 1 > i {
      CopyDownUntil(s[dst + n - 1 := s[src + n - 1]], dst, src, n - 1, i, top);
    }
  }
}
