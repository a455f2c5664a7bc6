/** Page-table entries (include/page.h) and the functions that put addresses into them and
    read them back (src/page.c:50-92).  The fields here are the common refinement of the
    layouts `pml4e`, `pdpte` and `pde` of the same 64 bits. */
module Entries {

  datatype Entry = Entry(
    present: bool, rw: bool, isuser: bool, writeThrough: bool, nocache: bool, isaccessed: bool,
    bit6: bool,       // is_krnl_pg, or dirty in a pde
    bit7: bool,       // rsvd, or ps
    custom: nat,      // bits 8 to 11
    attr: bool,       // bit 12: attr_tab_or_rsvd of a pde, the lowest address bit of the others
    rsvd8: nat,       // bits 13 to 20
    addr: nat,        // bits 21 to 39
    addrU: nat,       // bits 40 to 47
    rsvd4: nat,
    avl6: nat,        // bits 52 to 57
    bit58: bool,
    pkey: nat,        // bits 59 to 62
    noexec: bool)

  const ZERO: Entry := Entry(false, false, false, false, false, false, false, false, 0, false, 0, 0, 0, 0, 0, false, 0, false)

  const PAGE: nat := 4096
  const FRAME: nat := 0x20_0000       // 2 MiB
  const EXACT: nat := 0x800_0000_0000 // 2^43

  /** Fields are within their widths. */
  predicate EntryOk(e: Entry) {
    e.rsvd8 < 0x100 && e.addr < 0x8_0000 && e.addrU < 0x100
  }

  /** `paddr` of a pml4e: bits 12 to 39. */
  function Low28(e: Entry): nat { (if e.attr then 1 else 0) + 2 * e.rsvd8 + 0x200 * e.addr }

  /** `paddrU << 28` is computed as an int: the top four bits are lost and bit 31 is the sign. */
  function High(e: Entry): nat {
    var x := e.addrU % 16 * 0x1000_0000;
    if x >= 0x8000_0000 then x + 0xFFFF_FFFF_0000_0000 else x
  }

  /** `get_paddr` */
  function GetPaddr(e: Entry): nat { (Low28(e) + High(e)) * 0x1000 % 0x1_0000_0000_0000_0000 }

  /** `set_paddr`, which also clears noexec, rsvd4 and bit 7 */
  function SetPaddr(e: Entry, a: nat): Entry {
    var x := a / 0x1000;
    e.(attr := x % 2 == 1, rsvd8 := x / 2 % 0x100, addr := x / 0x200 % 0x8_0000, addrU := x / 0x1000_0000 % 0x100,
       noexec := false, rsvd4 := 0, bit7 := false)
  }

  /** `set_paddr_pde` */
  function SetPaddrPde(e: Entry, a: nat): Entry {
    var x := a / 0x20_0000;
    e.(addr := x % 0x8_0000, addrU := x / 0x8_0000 % 0x100, noexec := false, rsvd4 := 0, rsvd8 := 0, pkey := 0)
  }

  lemma Digits(x: nat)
    ensures x == x % 2 + 2 * (x / 2 % 0x100) + 0x200 * (x / 0x200)
  {
    assert x / 0x200 == x / 2 / 0x100;
  }

  /** What `get_paddr` makes of the fields below 2^43. */
  lemma ExactFields(e: Entry)
    requires EntryOk(e)
    ensures e.addrU < 8 ==> GetPaddr(e) == (Low28(e) + 0x1000_0000 * e.addrU) * 0x1000 < EXACT
    ensures Low28(e) < 0x1000_0000
  {
  }

  /** A table address is read back exactly if and only if it lies below 2^43. */
  lemma PaddrBack(e: Entry, a: nat)
    requires a % PAGE == 0 && a < 0x1_0000_0000_0000
    ensures EntryOk(SetPaddr(e, a)) && SetPaddr(e, a).present == e.present
    ensures GetPaddr(SetPaddr(e, a)) == a <==> a < EXACT
  {
    var x := a / 0x1000;
    var e' := SetPaddr(e, a);
    Digits(x);
    AddressParts(x);
    assert Low28(e') == x % 0x1000_0000 && e'.addrU == x / 0x1000_0000;
    Shifted(x, e');
  }

  lemma AddressParts(x: nat)
    requires x < 0x10_0000_0000
    ensures x % 2 + 2 * (x / 2 % 0x100) + 0x200 * (x / 0x200 % 0x8_0000) == x % 0x1000_0000
    ensures x / 0x1000_0000 % 0x100 == x / 0x1000_0000 < 0x100
  {
    var h, y := x / 0x1000_0000, x % 0x1000_0000;
    Digits(y);
    UpperDigits(x, h, y);
    LowerDigits(x, h, y);
  }

  lemma UpperDigits(x: nat, h: nat, y: nat)
    requires x == 0x1000_0000 * h + y && y < 0x1000_0000
    ensures x / 0x200 % 0x8_0000 == y / 0x200
  {
    var q := y / 0x200;
    assert x / 0x200 == 0x8_0000 * h + q;
    assert q < 0x8_0000;
  }

  lemma LowerDigits(x: nat, h: nat, y: nat)
    requires x == 0x1000_0000 * h + y && y < 0x1000_0000
    ensures x % 2 == y % 2 && x / 2 % 0x100 == y / 2 % 0x100
  {
    var q := y / 2;
    assert x / 2 == 0x800_0000 * h + q;
    assert x / 2 == 0x100 * (0x8_0000 * h + q / 0x100) + q % 0x100;
  }

  lemma Shifted(x: nat, e: Entry)
    requires EntryOk(e) && Low28(e) == x % 0x1000_0000 && e.addrU == x / 0x1000_0000 && x < 0x10_0000_0000
    ensures GetPaddr(e) == x * 0x1000 <==> x < 0x8000_0000
  {
    var l, u := Low28(e), e.addrU;
    hide Low28;
    assert x == l + 0x1000_0000 * u;
    if u < 8 {
      ExactFields(e);
    } else {
      LostBits(l, u, High(e));
    }
  }

  lemma LostBits(l: nat, u: nat, high: nat)
    requires l < 0x1000_0000 && 8 <= u < 0x100
    requires var x := u % 16 * 0x1000_0000; high == if x >= 0x8000_0000 then x + 0xFFFF_FFFF_0000_0000 else x
    ensures (l + high) * 0x1000 % 0x1_0000_0000_0000_0000 != (l + 0x1000_0000 * u) * 0x1000
  {
    var x := u % 16 * 0x1000_0000;
    if x >= 0x8000_0000 {
      var y := l + x;
      assert (y + 0xFFFF_FFFF_0000_0000) * 0x1000 == y * 0x1000 + 0xFFFF_FFFF_0000_0000 * 0x1000;
      assert 0xFFFF_FFFF_0000_0000 * 0x1000 == 0xFFF * 0x1_0000_0000_0000_0000 + 0xFFFF_F000_0000_0000;
      assert y * 0x1000 + 0xFFFF_F000_0000_0000 < 0x1_0000_0000_0000_0000;
      SmallMod(y * 0x1000 + 0xFFFF_F000_0000_0000, 0xFFF);
    }
  }

  lemma SmallMod(r: nat, q: nat)
    requires r < 0x1_0000_0000_0000_0000
    ensures (q * 0x1_0000_0000_0000_0000 + r) % 0x1_0000_0000_0000_0000 == r
  {
  }

  /** A leaf written by `set_paddr_pde` with bit 12 clear is read back exactly by `get_paddr`,
      although that reads it in another layout, if and only if the frame lies below 2^43. */
  lemma FrameBack(e: Entry, a: nat)
    requires a % FRAME == 0 && a < 0x1_0000_0000_0000
    ensures var e' := SetPaddrPde(e, a).(attr := false);
            EntryOk(e') && (GetPaddr(e') == a <==> a < EXACT)
  {
    var e' := SetPaddrPde(e, a).(attr := false);
    var x := a / 0x20_0000;
    FrameParts(a, x);
    assert Low28(e') == 0x200 * (x % 0x8_0000);
    Shifted(a / 0x1000, e');
  }

  lemma FrameParts(a: nat, x: nat)
    requires a == 0x20_0000 * x && a < 0x1_0000_0000_0000
    ensures a / 0x1000 == 0x200 * x && x < 0x800_0000
    ensures 0x200 * (x % 0x8_0000) == (0x200 * x) % 0x1000_0000 && x / 0x8_0000 == (0x200 * x) / 0x1000_0000
    ensures x / 0x8_0000 % 0x100 == x / 0x8_0000
  {
  }
}
