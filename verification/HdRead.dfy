/** The real-mode chunking loop of hd_read (common/hd_drv.c:85-161) over BIOS calls that may fail. */
module HdRead {
  import opened Division
  import opened Memory
  import opened Chs

  const SECTOR_SIZE: int := 512
  const SEGMENT_SIZE: int := 0x1_0000
  const TRIES: int := 5

  // ---------------------------------------------------------------- which transfers work

  /** The sectors asked for in one turn: to the end of the track while more than a track is left, and
      else as many as in the turn before (hd_drv.c:108-126). */
  function Request(NS: int, lba: nat, count: nat, nb: int): int
    requires NS > 0
  {
    if count > NS then NS - lba % NS else nb
  }

  /** Every turn from here on asks for sectors of one track, at least one and no more than are left. */
  predicate PlanWorks(NS: int, lba: nat, count: nat, nb: int)
    requires NS > 0
    decreases count
  {
    count == 0 ||
    var n := Request(NS, lba, count, nb);
    0 < n <= count && lba % NS + n <= NS && PlanWorks(NS, lba + n, count - n, n)
  }

  lemma PlanUnfolds(NS: int, lba: nat, count: nat, nb: int)
    requires NS > 0
    ensures PlanWorks(NS, lba, count, nb) <==>
      count == 0 ||
      var n := Request(NS, lba, count, nb);
      0 < n <= count && lba % NS + n <= NS && PlanWorks(NS, lba + n, count - n, n)
  {}

  lemma PlanStep(NS: int, lba: nat, count: nat, nb: int)
    requires NS > 0 && count > 0 && PlanWorks(NS, lba, count, nb)
    ensures var n := Request(NS, lba, count, nb);
      0 < n <= count && lba % NS + n <= NS && PlanWorks(NS, lba + n, count - n, n)
  {}

  /** What a caller can check: the transfer stays in its track; or, with `a` sectors to the end of the
      first track and `rest` beyond, `rest` is made of pieces of `a` within one track or of whole
      tracks. */
  predicate Transferable(NS: int, lba: nat, count: nat)
    requires NS > 0
  {
    var a := NS - lba % NS;
    if count <= NS then count <= a
    else
      var rest := count - a;
      if rest <= NS then rest % a == 0 else rest % NS == 0
  }

  lemma {:induction false} WholeTracks(NS: int, lba: nat, count: nat)
    requires NS > 0 && lba % NS == 0
    ensures PlanWorks(NS, lba, count, NS) <==> count % NS == 0
    decreases count
  {
    if count >= NS {
      WholeDivisors(lba, 1, NS);
      WholeDivisors(count - NS, 1, NS);
      WholeTracks(NS, lba + NS, count - NS);
    } else {
      QuotientRemainder(0, count, NS);
    }
  }

  lemma {:induction false} EqualPieces(NS: int, lba: nat, count: nat, a: int)
    requires NS > 0 && 0 < a <= NS && count <= NS
    requires count > 0 ==> lba % NS + count <= NS
    ensures PlanWorks(NS, lba, count, a) <==> count % a == 0
    decreases count
  {
    if count > a {
      SameTrack(NS, lba, a);
      WholeDivisors(count - a, 1, a);
      EqualPieces(NS, lba + a, count - a, a);
    } else if count < a {
      QuotientRemainder(0, count, a);
    } else {
      QuotientRemainder(1, 0, a);
    }
  }

  lemma SameTrack(NS: int, lba: nat, a: int)
    requires NS > 0 && 0 <= a && lba % NS + a < NS
    ensures (lba + a) % NS == lba % NS + a
  {
    var q, r := lba / NS, lba % NS;
    EuclidFacts(lba, NS);
    assert lba + a == q * NS + (r + a);
    QuotientRemainder(q, r + a, NS);
  }

  lemma NextTrack(NS: int, lba: nat)
    requires NS > 0
    ensures (lba + (NS - lba % NS)) % NS == 0
  {
    var q := lba / NS;
    EuclidFacts(lba, NS);
    assert lba + (NS - lba % NS) == (q + 1) * NS + 0;
    QuotientRemainder(q + 1, 0, NS);
  }

  /** The loop reads the sectors asked for, no more, and never across the end of a track, exactly for
      the transferable requests. */
  lemma PlanWorksIff(NS: int, lba: nat, count: nat)
    requires 0 < NS <= 63
    ensures PlanWorks(NS, lba, count, count % 0x100) <==> Transferable(NS, lba, count)
  {
    hide PlanWorks;
    var a := NS - lba % NS;
    EuclidFacts(lba, NS);
    PlanUnfolds(NS, lba, count, count % 0x100);
    if count <= NS {
      PlanUnfolds(NS, lba + count, 0, count);
    } else {
      var rest := count - a;
      NextTrack(NS, lba);
      if rest <= NS {
        EqualPieces(NS, lba + a, rest, a);
      } else {
        LongRest(NS, lba + a, rest, a);
      }
    }
  }

  lemma LongRest(NS: int, lba: nat, rest: nat, nb: int)
    requires 0 < NS && lba % NS == 0 && rest > NS
    ensures PlanWorks(NS, lba, rest, nb) <==> rest % NS == 0
  {
    NextTrack(NS, lba);
    WholeTracks(NS, lba + NS, rest - NS);
    WholeDivisors(rest - NS, 1, NS);
  }

  /** Ten sectors from the 61st of a track of 63 would be read across its end. */
  lemma AcrossTheEnd()
    ensures !PlanWorks(63, 60, 10, 10)
  {
    PlanWorksIff(63, 60, 10);
  }

  /** Inside one track, or whole tracks from the start of one. */
  lemma UsualTransfers(NS: int, lba: nat, count: nat)
    requires 0 < NS <= 63
    ensures lba % NS + count <= NS ==> Transferable(NS, lba, count)
    ensures lba % NS == 0 && count % NS == 0 ==> Transferable(NS, lba, count)
  {
    if lba % NS == 0 && count % NS == 0 && count > NS {
      WholeDivisors(count - NS, 1, NS);
    }
  }

  /** From `was` to `now`, `n` bytes of the disk have come to `buffer`, and nothing else has changed. */
  ghost predicate Placed(was: seq<byte>, now: seq<byte>, content: seq<byte>, buffer: nat, n: nat, from: nat) {
    && |was| == |now| && buffer + n <= |now| && from + n <= |content|
    && now[buffer..buffer + n] == content[from..from + n]
    && forall i :: 0 <= i < |now| && !(buffer <= i < buffer + n) ==> now[i] == was[i]
  }

  lemma NothingPlaced(m: seq<byte>, content: seq<byte>, buffer: nat, from: nat)
    requires buffer <= |m| && from <= |content|
    ensures Placed(m, m, content, buffer, 0, from)
  {}

  /** A chunk behind those read makes one longer run of the disk. */
  lemma ChunkAppends(was: seq<byte>, m: seq<byte>, r: seq<byte>, content: seq<byte>, buffer: nat, read: nat, n: nat,
                     from: nat)
    requires Placed(was, m, content, buffer, read, from)
    requires Placed(m, r, content, buffer + read, n, from + read)
    ensures Placed(was, r, content, buffer, read + n, from)
  {
    assert r[buffer..buffer + read] == m[buffer..buffer + read];
    assert r[buffer..buffer + (read + n)] == r[buffer..buffer + read] + r[buffer + read..buffer + read + n];
    assert content[from..from + (read + n)] == content[from..from + read] + content[from + read..from + read + n];
  }

  /** The request of one turn, for the address of its first sector. */
  lemma RequestFits(g: Geometry, lba: nat, count: nat, nb: nat)
    requires g.Valid() && 0 < count && lba + count <= g.Nlba() && PlanWorks(g.NS, lba, count, nb)
    ensures var chs, n := ChsOf(g, lba), Request(g.NS, lba, count, nb);
      && OnDisk(g, chs) && LbaOf(g, chs) == lba
      && 0 < n <= count && chs.S - 1 + n <= g.NS
      && n == if count > g.NS then (g.NS - chs.S + 1) % 0x100 else nb
  {
    LbaRoundTrip(g, lba);
    PlanStep(g.NS, lba, count, nb);
  }

  lemma NoWrap16(offset: nat)
    ensures offset < SEGMENT_SIZE ==> offset % SEGMENT_SIZE == offset
  {}

  // ---------------------------------------------------------------- the BIOS

  /** Service 2 of interrupt 0x13: the `tries`-th try of the current request fails until
      `failures(request)` tries have; a failed try transfers what it says, which is not what was asked. */
  class Bios {
    const geometry: Geometry
    const content: seq<byte>
    const segment: array<byte>
    const failures: nat -> nat
    const reported: (nat, nat) -> byte
    var request: nat
    var tries: nat

    ghost predicate Valid() {
      && geometry.Valid()
      && |content| == geometry.Nlba() * SECTOR_SIZE
      && segment.Length == SEGMENT_SIZE
    }

    constructor (geometry: Geometry, content: seq<byte>, failures: nat -> nat, reported: (nat, nat) -> byte)
      requires geometry.Valid() && |content| == geometry.Nlba() * SECTOR_SIZE
      ensures Valid() && this.geometry == geometry && this.content == content && fresh(segment)
    {
      this.geometry, this.content, this.failures, this.reported := geometry, content, failures, reported;
      segment := new byte[SEGMENT_SIZE];
      request, tries := 0, 0;
    }

    /** disk_read_sectors, disk.c:99-143, with the reply of the BIOS. The registers name a place on the
        disk, and the request stays in its track. */
    method ReadSectors(offset: nat, chs: Address, nb: nat) returns (al: byte)
      requires Valid() && OnDisk(geometry, chs)
      requires 0 < nb && chs.S - 1 + nb <= geometry.NS
      requires offset + nb * SECTOR_SIZE <= SEGMENT_SIZE
      requires (LbaOf(geometry, chs) + nb) * SECTOR_SIZE <= |content|
      modifies this`request, this`tries, segment
      ensures forall i :: 0 <= i < SEGMENT_SIZE && !(offset <= i < offset + nb * SECTOR_SIZE) ==>
          segment[i] == old(segment[i])
      ensures if old(tries) < failures(old(request)) then al != nb && request == old(request) && tries == old(tries) + 1
              else al == nb && request == old(request) + 1 && tries == 0
      ensures al == nb ==>
                var from := LbaOf(geometry, chs) * SECTOR_SIZE;
                0 <= from && from + nb * SECTOR_SIZE <= |content| &&
                segment[offset..offset + nb * SECTOR_SIZE] == content[from..from + nb * SECTOR_SIZE]
    {
      hide PackCX, CylinderField, SectorField, CH, CL, LbaOf, ChsOf;
      var cx := PackCX(chs.C, chs.S);
      PackFields(chs.C, chs.S);
      ChsRoundTrip(geometry, chs);
      // what the BIOS finds in CX and DH
      var from := LbaOf(geometry, Address(CylinderField(CH(cx), CL(cx)), chs.H, SectorField(CL(cx)))) * SECTOR_SIZE;
      if tries < failures(request) {
        al := reported(request, tries);
        if al == nb {
          al := 0;
        }
        tries := tries + 1;
        Transfer(offset, from, if al < nb then al * SECTOR_SIZE else 0);
      } else {
        al := nb;
        request, tries := request + 1, 0;
        Transfer(offset, from, nb * SECTOR_SIZE);
      }
    }

    method Transfer(offset: nat, from: nat, n: nat)
      requires offset + n <= segment.Length && from + n <= |content|
      modifies segment
      ensures segment[offset..offset + n] == content[from..from + n]
      ensures forall i :: 0 <= i < segment.Length && !(offset <= i < offset + n) ==> segment[i] == old(segment[i])
    {
      for i := 0 to n
        invariant segment[offset..offset + i] == content[from..from + i]
        invariant forall j :: 0 <= j < segment.Length && !(offset <= j < offset + i) ==> segment[j] == old(segment[j])
      {
        segment[offset + i] := content[from + i];
      }
    }

    /** hd_drv.c:132-135: up to five tries. */
    method ReadWithin5(offset: nat, chs: Address, nb: nat) returns (al: int)
      requires Valid() && OnDisk(geometry, chs) && tries == 0 && failures(request) < TRIES
      requires 0 < nb && chs.S - 1 + nb <= geometry.NS
      requires offset + nb * SECTOR_SIZE <= SEGMENT_SIZE
      requires 0 <= LbaOf(geometry, chs) && (LbaOf(geometry, chs) + nb) * SECTOR_SIZE <= |content|
      modifies this`request, this`tries, segment
      ensures al == nb && tries == 0 && request == old(request) + 1
      ensures var from := LbaOf(geometry, chs) * SECTOR_SIZE;
        segment[offset..offset + nb * SECTOR_SIZE] == content[from..from + nb * SECTOR_SIZE]
      ensures forall i :: 0 <= i < SEGMENT_SIZE && !(offset <= i < offset + nb * SECTOR_SIZE) ==>
          segment[i] == old(segment[i])
    {
      al := 0;
      var i := 0;
      ghost var first := request;
      while i < TRIES && al != nb
        invariant 0 <= i <= TRIES
        invariant al != nb ==> request == first && tries == i <= failures(first)
        invariant al == nb ==> request == first + 1 && tries == 0
        invariant al == nb ==>
            var from := LbaOf(geometry, chs) * SECTOR_SIZE;
            segment[offset..offset + nb * SECTOR_SIZE] == content[from..from + nb * SECTOR_SIZE]
        invariant forall i :: 0 <= i < SEGMENT_SIZE && !(offset <= i < offset + nb * SECTOR_SIZE) ==>
            segment[i] == old(segment[i])
      {
        al := ReadSectors(offset, chs, nb);
        i := i + 1;
      }
    }

    /** hd_drv.c:110-135: one turn, which reads the sectors of one request. */
    method ReadChunk(lba: nat, count: nat, offset: nat, nb: nat) returns (readSectors: nat)
      requires Valid() && tries == 0 && failures(request) < TRIES
      requires 0 < count && lba + count <= geometry.Nlba()
      requires PlanWorks(geometry.NS, lba, count, nb)
      requires offset + Request(geometry.NS, lba, count, nb) * SECTOR_SIZE <= SEGMENT_SIZE
      modifies this`request, this`tries, segment
      ensures tries == 0 && readSectors == Request(geometry.NS, lba, count, nb)
      ensures Placed(old(segment[..]), segment[..], content, offset, readSectors * SECTOR_SIZE, lba * SECTOR_SIZE)
    {
      hide PlanWorks, ChsOf, LbaOf, OnDisk, Geometry.Nlba, Geometry.Valid, Request;
      RequestFits(geometry, lba, count, nb);
      var nbSectorsToRead := nb;
      var chs := LbaToChs(geometry, lba);
      if count > geometry.NS {
        nbSectorsToRead := (geometry.NS - chs.S + 1) % 0x100;
      }
      readSectors := ReadWithin5(offset, chs, nbSectorsToRead);
    }

    /** hd_read in real mode: the sectors, in order and nothing else, at the buffer. */
    method HdRead(lbaStart: nat, sectors: nat, buffer: nat) returns (read: int)
      requires Valid() && tries == 0
      requires lbaStart < geometry.Nlba() && lbaStart + sectors <= geometry.Nlba()
      requires Transferable(geometry.NS, lbaStart, sectors)
      requires buffer + sectors * SECTOR_SIZE <= SEGMENT_SIZE
      requires forall k :: failures(k) < 5
      modifies this`request, this`tries, segment
      ensures read == 512 * sectors
      ensures Placed(old(segment[..]), segment[..], content, buffer, sectors * SECTOR_SIZE, lbaStart * SECTOR_SIZE)
    {
      hide PlanWorks, Transferable, Placed, Geometry.Nlba, Request;
      read := 0;
      var lba: nat, count: nat, offset: nat := lbaStart, sectors, buffer;
      ghost var was, from := segment[..], lbaStart * SECTOR_SIZE;
      var nb: nat := count % 0x100;
      PlanWorksIff(geometry.NS, lba, count);
      NothingPlaced(was, content, buffer, from);
      while count > 0
        invariant lba + count == lbaStart + sectors
        invariant PlanWorks(geometry.NS, lba, count, nb)
        invariant read == (lba - lbaStart) * SECTOR_SIZE && lbaStart <= lba
        invariant count > 0 ==> offset == buffer + read
        invariant tries == 0
        invariant Placed(was, segment[..], content, buffer, read, from)
        decreases count
      {
        PlanStep(geometry.NS, lba, count, nb);
        ghost var m := segment[..];
        nb := ReadChunk(lba, count, offset, nb);
        var bytes := nb * SECTOR_SIZE;
        assert offset + bytes == buffer + (lba + nb - lbaStart) * SECTOR_SIZE <= SEGMENT_SIZE;
        NoWrap16(offset + bytes);
        ChunkAppends(was, m, segment[..], content, buffer, read, bytes, from);
        offset := (offset + bytes) % SEGMENT_SIZE;
        read := read + bytes;
        count := count - nb;
        lba := lba + nb;
      }
    }
  }
}
