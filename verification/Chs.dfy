/** Disk addresses (common/block_dev.c:29-45) and their layout in the BIOS registers
    (arch/x86/lib/disk.c:86-94 and 106). */
module Chs {
  import opened Division
  import opened Bits

  datatype Geometry = Geometry(NC: int, NH: int, NS: int) {
    function Nlba(): int {
      NC * NH * NS
    }

    /** What the BIOS fields can say, but for the divisors that are zero. */
    predicate Valid() {
      1 <= NC <= 1024 && 1 <= NH <= 255 && 1 <= NS <= 63
    }
  }

  datatype Address = Address(C: int, H: int, S: int)

  predicate OnDisk(g: Geometry, a: Address) {
    0 <= a.C < g.NC && 0 <= a.H < g.NH && 1 <= a.S <= g.NS
  }

  /** The mixed-radix digits of a block number. */
  function ChsOf(g: Geometry, lba: nat): Address
    requires g.Valid()
  {
    Address(lba / g.NS / g.NH, lba / g.NS % g.NH, lba % g.NS + 1)
  }

  /** chstolba */
  function LbaOf(g: Geometry, a: Address): int {
    a.C * g.NS * g.NH + a.H * g.NS + (a.S - 1)
  }

  /** lbatochs, with each field cut to its width in CHS_t. */
  method LbaToChs(desc: Geometry, lba: nat) returns (chs: Address)
    requires desc.Valid() && lba < desc.Nlba()
    ensures chs == ChsOf(desc, lba) && OnDisk(desc, chs)
  {
    LbaRoundTrip(desc, lba);
    EuclidFacts(lba, desc.NS);
    var S := (lba % desc.NS + 1) % 0x100;
    var H := (lba - (S - 1)) / desc.NS % desc.NH % 0x100;
    var C := (lba - (S - 1)) / desc.NS / desc.NH % 0x1_0000;
    chs := Address(C, H, S);
  }

  // ---------------------------------------------------------------- both ways

  lemma Regroup(c: int, h: int, s: int, NS: int, NH: int)
    ensures c * NS * NH + h * NS + s == (c * NH + h) * NS + s
  {}

  /** Every block number has an address on the disk, and comes back from it. */
  lemma LbaRoundTrip(g: Geometry, lba: nat)
    requires g.Valid() && lba < g.Nlba()
    ensures OnDisk(g, ChsOf(g, lba)) && LbaOf(g, ChsOf(g, lba)) == lba
  {
    var track, s := lba / g.NS, lba % g.NS;
    EuclidFacts(lba, g.NS);
    EuclidFacts(track, g.NH);
    var c, h := track / g.NH, track % g.NH;
    Regroup(c, h, s, g.NS, g.NH);
    BelowProduct(track, s, g.NS, g.NC * g.NH);
    BelowProduct(c, h, g.NH, g.NC);
  }

  lemma BelowProduct(q: nat, r: nat, d: int, n: int)
    requires d > 0 && q * d + r < n * d
    ensures q < n
  {
    assert q >= n ==> q * d >= n * d;
  }

  lemma AboveProduct(q: nat, r: nat, d: int, n: int)
    requires 0 <= r < d && q < n
    ensures 0 <= q * d + r < n * d
  {
    assert (q + 1) * d <= n * d;
    assert 0 <= q * d;
  }

  /** Every address on the disk has a block number, and comes back from it. */
  lemma ChsRoundTrip(g: Geometry, a: Address)
    requires g.Valid() && OnDisk(g, a)
    ensures 0 <= LbaOf(g, a) < g.Nlba() && ChsOf(g, LbaOf(g, a)) == a
  {
    var track := a.C * g.NH + a.H;
    Regroup(a.C, a.H, a.S - 1, g.NS, g.NH);
    AboveProduct(a.C, a.H, g.NH, g.NC);
    AboveProduct(track, a.S - 1, g.NS, g.NC * g.NH);
    QuotientRemainder(track, a.S - 1, g.NS);
    QuotientRemainder(a.C, a.H, g.NH);
  }

  /** Addresses ordered by cylinder, then head, then sector. */
  predicate Before(a: Address, b: Address) {
    a.C < b.C || (a.C == b.C && (a.H < b.H || (a.H == b.H && a.S < b.S)))
  }

  /** The numbering follows the order of the addresses. */
  lemma SameOrder(g: Geometry, a: Address, b: Address)
    requires g.Valid() && OnDisk(g, a) && OnDisk(g, b)
    ensures LbaOf(g, a) < LbaOf(g, b) <==> Before(a, b)
  {
    BeforeIsLess(g, a, b);
    BeforeIsLess(g, b, a);
  }

  lemma BeforeIsLess(g: Geometry, a: Address, b: Address)
    requires g.Valid() && OnDisk(g, a) && OnDisk(g, b)
    ensures Before(a, b) ==> LbaOf(g, a) < LbaOf(g, b)
  {
    var t, u := a.C * g.NH + a.H, b.C * g.NH + b.H;
    Regroup(a.C, a.H, a.S - 1, g.NS, g.NH);
    Regroup(b.C, b.H, b.S - 1, g.NS, g.NH);
    AboveProduct(a.C, a.H, g.NH, g.NC);
    AboveProduct(b.C, b.H, g.NH, g.NC);
    assert a.C < b.C ==> t < u by {
      if a.C < b.C {
        AboveProduct(a.C, a.H, g.NH, b.C);
      }
    }
    if t < u {
      AboveProduct(t, a.S - 1, g.NS, u);
    }
  }

  // ---------------------------------------------------------------- registers

  /** CX for a read, disk.c:106: the low eight bits of the cylinder in CH, the two high ones above the
      sector in CL. */
  function PackCX(C: int, S: int): int {
    C % 0x100 * 0x100 + C / 0x100 % 4 * 0x40 + S
  }

  /** disk.c:106 with the operators of the source: the three fields do not overlap. */
  lemma PackCXBits(C: nat, S: nat)
    requires S < 0x40
    ensures PackCX(C, S) == Or(Or(Shl(And(C, 0xff), 8), Shr(And(C, 0x300), 2)), S)
  {
    hide And, Or, Shl, Shr, Mask, PackCX;
    var low, high := C % 0x100, C / 0x100 % 4;
    LowBits(C);
    HighBits(C);
    OrSums(low, high, S);
    assert PackCX(C, S) == low * 0x100 + high * 0x40 + S by { PackCXSum(C, S); }
  }

  lemma PackCXSum(C: int, S: int)
    ensures PackCX(C, S) == C % 0x100 * 0x100 + C / 0x100 % 4 * 0x40 + S
  {}

  lemma HighBits(C: nat)
    ensures Shr(And(C, 0x300), 2) == 0x40 * (C / 0x100 % 4)
  {
    hide And, Shl, Shr, Mask;
    var high := C / 0x100 % 4;
    Shifts(3);
    Shifts(C);
    AndShifted(C, 3, 8);
    LowBits(C / 0x100);
    Shifts(high);
    Shifts(0x100 * high);
  }

  lemma OrSums(low: nat, high: nat, S: nat)
    requires low < 0x100 && high < 4 && S < 0x40
    ensures Or(Or(Shl(low, 8), 0x40 * high), S) == low * 0x100 + high * 0x40 + S
  {
    hide Or, Shl, Shr, Mask;
    Shifts(low);
    Shifts(0x40 * high);
    OrApart(low, 0x40 * high, 8);
    Shifts(4 * low + high);
    Shifts(S);
    OrApart(4 * low + high, S, 6);
  }

  function CH(cx: int): int { cx / 0x100 % 0x100 }

  function CL(cx: int): int { cx % 0x100 }

  /** disk.c:86: CH | ((CL & 0xc0) << 2) */
  function CylinderField(ch: int, cl: int): int {
    ch + cl / 0x40 % 4 * 0x100
  }

  lemma CylinderFieldBits(ch: nat, cl: nat)
    requires ch < 0x100 && cl < 0x100
    ensures CylinderField(ch, cl) == Or(ch, Shl(And(cl, 0xc0), 2))
  {
    hide And, Or, Shl, Shr, Mask;
    HighTwo(cl);
    Shifts(cl / 0x40);
    Shifts(ch);
    OrApart(cl / 0x40, ch, 8);
    OrSwaps(ch, Shl(cl / 0x40, 8));
  }

  lemma HighTwo(cl: nat)
    requires cl < 0x100
    ensures Shl(And(cl, 0xc0), 2) == 0x100 * (cl / 0x40)
  {
    hide And, Shl, Shr, Mask;
    var high := cl / 0x40;
    Shifts(3);
    Shifts(cl);
    AndShifted(cl, 3, 6);
    LowBits(high);
    Shifts(high);
    Shifts(0x40 * high);
  }

  /** disk.c:87: CL & ~0xc0 */
  function SectorField(cl: int): int {
    cl % 0x40
  }

  /** In a byte, ~0xc0 is 0x3f. */
  lemma SectorFieldBits(cl: nat)
    requires cl < 0x100
    ensures SectorField(cl) == And(cl, 0xff - 0xc0)
  {
    hide And;
    LowBits(cl);
  }

  /** An address comes through the registers unchanged, and so does its block number. */
  lemma RegistersRoundTrip(g: Geometry, lba: nat)
    requires g.Valid() && lba < g.Nlba()
    ensures var a := ChsOf(g, lba);
      var cx := PackCX(a.C, a.S);
      && 0 <= cx < 0x1_0000
      && CylinderField(CH(cx), CL(cx)) == a.C && SectorField(CL(cx)) == a.S
      && LbaOf(g, Address(CylinderField(CH(cx), CL(cx)), a.H, SectorField(CL(cx)))) == lba
  {
    LbaRoundTrip(g, lba);
    var a := ChsOf(g, lba);
    PackFields(a.C, a.S);
  }

  lemma PackFields(C: int, S: int)
    requires 0 <= C < 1024 && 0 <= S < 64
    ensures var cx := PackCX(C, S);
      0 <= cx < 0x1_0000 && CylinderField(CH(cx), CL(cx)) == C && SectorField(CL(cx)) == S
  {
    hide PackCX, CylinderField, SectorField, CH, CL;
    var low, high := C % 0x100, C / 0x100;
    assert C == high * 0x100 + low && 0 <= high < 4;
    PackCXSum(C, S);
    FieldsOfCX(low, high, S);
  }

  lemma FieldsOfCX(low: int, high: int, S: int)
    requires 0 <= low < 0x100 && 0 <= high < 4 && 0 <= S < 0x40
    ensures var cx := low * 0x100 + high * 0x40 + S;
      && 0 <= cx < 0x1_0000
      && CylinderField(CH(cx), CL(cx)) == high * 0x100 + low && SectorField(CL(cx)) == S
  {
    var t := high * 0x40 + S;
    var cx := low * 0x100 + t;
    assert 0 <= t < 0x100;
    assert cx / 0x100 == low && cx % 0x100 == t;
    assert t / 0x40 == high && t % 0x40 == S;
  }

  /** disk_geometry, disk.c:86-88, with the number of heads in a byte. */
  function ReadGeometry(ch: int, cl: int, dh: int): Geometry {
    Geometry(CylinderField(ch, cl) + 1, (dh + 1) % 0x100, SectorField(cl))
  }

  /** The BIOS reply is a geometry that lbatochs can divide by exactly when it names a sector and at
      most 255 heads. */
  lemma GeometryUsableIff(ch: int, cl: int, dh: int)
    requires 0 <= ch < 0x100 && 0 <= cl < 0x100 && 0 <= dh < 0x100
    ensures ReadGeometry(ch, cl, dh).Valid() <==> cl % 0x40 != 0 && dh != 0xff
  {}

  /** The BIOS reports the last address of the disk; what is made of that is the disk. */
  lemma GeometryRoundTrip(g: Geometry)
    requires g.Valid()
    ensures var cx := PackCX(g.NC - 1, g.NS); ReadGeometry(CH(cx), CL(cx), g.NH - 1) == g
  {
    hide PackCX, CylinderField, SectorField, CH, CL;
    PackFields(g.NC - 1, g.NS);
  }

  /** 256 heads come to none. */
  lemma HeadsWrap()
    ensures !ReadGeometry(0xff, 0x3f, 0xff).Valid() && ReadGeometry(0xff, 0x3f, 0xff).NH == 0
  {}
}
