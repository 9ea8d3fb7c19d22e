/** One 64-bit page-table entry.  The processor's view of it is given by bit fields (Intel SDM volume
    3A, section 4.5); the kernel reads and writes it with masks.  The lemmas relate the two. */
module PageEntry {
  import opened Bits

  type Word = w: nat | w < W64

  const PT_PRESENT: Word := 0x1

  const WORDS_PER_TABLE: nat := 512
  const PAGE_SIZE: nat := 4096

  function SetFlag(e: Word, flag: Word): Word {
    OrWord(e, flag);
    Or(e, flag)
  }

  predicate GetFlag(e: Word, flag: Word) {
    And(e, flag) != 0
  }

  function SetAdr(e: Word, adr: Word): Word {
    OrWord(And(e, 0xfff0_0000_0000_0fff), And(0x000f_ffff_ffff_f000, adr));
    Or(And(e, 0xfff0_0000_0000_0fff), And(0x000f_ffff_ffff_f000, adr))
  }

  /** The kernel's read-back: its mask is one digit shorter than the one `SetAdr` writes with. */
  function GetAdr(e: Word): Word {
    And(e, 0x000_ffff_ffff_ff00)
  }

  /** The kernel's index into the level-k table for virtual address v, k = 4 being the root. */
  function KernelOffset(v: nat, k: nat): nat
    requires 1 <= k <= 4
  {
    match k
    case 4 => And(v / 0x80_0000_0000, 0x1ff)
    case 3 => And(v / 0x4000_0000, 0x1ff)
    case 2 => And(v / 0x20_0000, 0x1ff)
    case _ => And(v / 0x1000, 0x1ff)
  }

  /** The processor's reading of an entry: bits 0 to 2, bit 7, and the frame number in bits 12 to 51. */
  predicate Present(e: Word) {
    e % 2 == 1
  }

  predicate Writable(e: Word) {
    e / 2 % 2 == 1
  }

  predicate User(e: Word) {
    e / 4 % 2 == 1
  }

  predicate LargePage(e: Word) {
    e / 0x80 % 2 == 1
  }

  function Target(e: Word): nat {
    e / 0x1000 % 0x100_0000_0000
  }

  /** Bits 7 to 11 are clear: no large page, no global bit, no bit the kernel misreads. */
  predicate Plain(e: Word) {
    e / 0x80 % 0x20 == 0
  }

  /** The processor's index into the level-k table: nine bits of the address for each level. */
  function Offset(v: nat, k: nat): (o: nat)
    requires 1 <= k <= 4
    ensures o < WORDS_PER_TABLE
  {
    match k
    case 4 => v / 0x80_0000_0000 % 0x200
    case 3 => v / 0x4000_0000 % 0x200
    case 2 => v / 0x20_0000 % 0x200
    case _ => v / 0x1000 % 0x200
  }

  /** The page of a virtual address: bits 12 to 47, all that the four levels look at. */
  function Page(v: nat): nat {
    v / 0x1000 % 0x10_0000_0000
  }

  lemma OrWord(a: nat, b: nat)
    requires a < W64 && b < W64
    ensures Or(a, b) < W64
  {
    hide And, Or, Shl;
    Shl52(1);
    ShlTwice(1, 52, 12);
    Shl12(0x10_0000_0000_0000);
    OrBound(64, a, b);
  }

  /** Masks of 40 ones, at bit 8 and at bit 12. */
  lemma MaskAt8(h: nat, f: nat, r: nat)
    requires f < 0x100_0000_0000 && r < 0x100
    ensures And((h * 0x100_0000_0000 + f) * 0x100 + r, 0x000_ffff_ffff_ff00) == f * 0x100
  {
    hide And, Or, Shl;
    Shl8(1);
    Shl40(1);
    Shl40(h);
    Shl8(0xff_ffff_ffff);
    Shl8(0x100_0000_0000 * h + f);
    Shl8(f);
    AndField(8, 40, h, f, r);
  }

  lemma MaskAt12(h: nat, f: nat, r: nat)
    requires f < 0x100_0000_0000 && r < 0x1000
    ensures And((h * 0x100_0000_0000 + f) * 0x1000 + r, 0x000f_ffff_ffff_f000) == f * 0x1000
  {
    hide And, Or, Shl;
    Shl12(1);
    Shl40(1);
    Shl40(h);
    Shl12(0xff_ffff_ffff);
    Shl12(0x100_0000_0000 * h + f);
    Shl12(f);
    AndField(12, 40, h, f, r);
  }

  lemma GetAdrField(e: Word)
    ensures GetAdr(e) == e / 0x100 % 0x100_0000_0000 * 0x100
  {
    hide And, Or, Shl;
    MaskAt8(e / 0x1_0000_0000_0000, e / 0x100 % 0x100_0000_0000, e % 0x100);
  }

  lemma AdrMaskField(e: Word)
    ensures And(e, 0x000f_ffff_ffff_f000) == Target(e) * 0x1000
  {
    hide And, Or, Shl;
    AdrParts(e);
    MaskAt12(e / 0x10_0000_0000_0000, Target(e), e % 0x1000);
  }

  lemma AdrParts(e: nat)
    ensures e == (e / 0x10_0000_0000_0000 * 0x100_0000_0000 + e / 0x1000 % 0x100_0000_0000) * 0x1000 + e % 0x1000
  {}

  /** Clearing the address field keeps the twelve bits at each end. */
  lemma ClearAdr(hi: nat, mid: nat, lo: nat)
    requires hi < 0x1000 && mid < 0x100_0000_0000 && lo < 0x1000
    ensures And(hi * 0x10_0000_0000_0000 + (mid * 0x1000 + lo), 0xfff0_0000_0000_0fff)
         == hi * 0x10_0000_0000_0000 + lo
  {
    hide And, Or, Shl;
    Shl52(1);
    Shl52(hi);
    Shl52(0xfff);
    Shl12(1);
    Shl12(mid);
    assert And(mid * 0x1000 + lo, 0xfff) == lo by {
      ShlZero(12);
      AndSplit(12, mid, lo, 0, 0xfff);
      AndZero(mid);
      AndOnes(lo, 12);
    }
    AndOnes(hi, 12);
    AndSplit(52, hi, mid * 0x1000 + lo, 0xfff, 0xfff);
  }

  /** Writing a field into cleared bits is addition. */
  lemma FillAdr(hi: nat, mid: nat, lo: nat)
    requires hi < 0x1000 && mid < 0x100_0000_0000 && lo < 0x1000
    ensures Or(hi * 0x10_0000_0000_0000 + lo, mid * 0x1000)
         == hi * 0x10_0000_0000_0000 + mid * 0x1000 + lo
  {
    hide And, Or, Shl;
    Shl52(1);
    Shl52(hi);
    Shl12(1);
    Shl12(mid);
    ShlZero(12);
    ShlZero(52);
    assert Or(lo, mid * 0x1000) == mid * 0x1000 + lo by {
      OrSplit(12, 0, lo, mid, 0);
      OrZero(mid);
      OrZero(lo);
    }
    OrSplit(52, hi, lo, 0, mid * 0x1000);
    OrZero(hi);
  }

  lemma Fields(e: Word)
    ensures e / 0x10_0000_0000_0000 < 0x1000
    ensures e == e / 0x10_0000_0000_0000 * 0x10_0000_0000_0000 + (e / 0x1000 % 0x100_0000_0000 * 0x1000 + e % 0x1000)
  {}

  lemma ClearAdrField(e: Word)
    ensures And(e, 0xfff0_0000_0000_0fff) == e / 0x10_0000_0000_0000 * 0x10_0000_0000_0000 + e % 0x1000
  {
    hide And, Or, Shl;
    var hi, mid, lo := e / 0x10_0000_0000_0000, e / 0x1000 % 0x100_0000_0000, e % 0x1000;
    Fields(e);
    ClearAdr(hi, mid, lo);
  }

  lemma FillAdrField(e: Word, adr: Word)
    ensures Or(e / 0x10_0000_0000_0000 * 0x10_0000_0000_0000 + e % 0x1000, adr / 0x1000 % 0x100_0000_0000 * 0x1000)
         == e / 0x10_0000_0000_0000 * 0x10_0000_0000_0000 + adr / 0x1000 % 0x100_0000_0000 * 0x1000 + e % 0x1000
  {
    hide And, Or, Shl;
    FillAdr(e / 0x10_0000_0000_0000, adr / 0x1000 % 0x100_0000_0000, e % 0x1000);
  }

  /** `SetAdr` replaces bits 12 to 51 by those of the address and keeps every other bit. */
  lemma SetAdrField(e: Word, adr: Word)
    ensures SetAdr(e, adr)
         == e / 0x10_0000_0000_0000 * 0x10_0000_0000_0000 + adr / 0x1000 % 0x100_0000_0000 * 0x1000 + e % 0x1000
  {
    hide And, Or, Shl;
    var kept, field := And(e, 0xfff0_0000_0000_0fff), And(0x000f_ffff_ffff_f000, adr);
    assert field == adr / 0x1000 % 0x100_0000_0000 * 0x1000 by {
      AdrMaskField(adr);
      AndCommutes(adr, 0x000f_ffff_ffff_f000);
    }
    ClearAdrField(e);
    FillAdrField(e, adr);
    assert SetAdr(e, adr) == Or(kept, field);
  }

  lemma PresentFlag(e: Word)
    ensures GetFlag(e, PT_PRESENT) <==> Present(e)
  {
    hide And, Or, Shl;
    AndStep(e, 1);
    AndZero(e / 2);
  }

  /** Marking an entry present, writable and user sets its low three bits and no other. */
  lemma SetTableFlags(e: Word)
    ensures SetFlag(e, 7) == e / 8 * 8 + 7
  {
    hide And, Or, Shl;
    var e1, e2, e3 := e / 2, e / 4, e / 8;
    assert Or(e2, 1) == 2 * e3 + 1 by {
      OrStep(e2, 1);
      OrZero(e3);
      assert e2 / 2 == e3;
    }
    assert Or(e1, 3) == 4 * e3 + 3 by {
      OrStep(e1, 3);
      assert e1 / 2 == e2;
    }
    OrStep(e, 7);
  }

  lemma KernelOffsetField(v: nat, k: nat)
    requires 1 <= k <= 4
    ensures KernelOffset(v, k) == Offset(v, k)
  {
    Mask9(v / 0x80_0000_0000);
    Mask9(v / 0x4000_0000);
    Mask9(v / 0x20_0000);
    Mask9(v / 0x1000);
  }

  lemma Mask9(q: nat)
    ensures And(q, 0x1ff) == q % 0x200
  {
    hide And, Or, Shl;
    Shl9(1);
    Shl9(q / 0x200);
    ShlZero(9);
    AndSplit(9, q / 0x200, q % 0x200, 0, 0x1ff);
    AndZero(q / 0x200);
    AndOnes(q % 0x200, 9);
  }

  lemma Shl9(a: nat)
    ensures Shl(a, 9) == 0x200 * a
  {
    hide And, Or;
    Shl8(a);
    assert Shl(a, 9) == 2 * Shl(a, 8);
  }

  /** `|` on bits 8 and up, and then on the four bits from bit 8. */
  lemma OrAbove8(x: nat, a: nat, y: nat, b: nat)
    requires a < 0x100 && b < 0x100
    ensures Or(x * 0x100 + a, y * 0x100 + b) / 0x100 == Or(x, y)
  {
    hide And, Or, Shl;
    Shl8(1);
    Shl8(x);
    Shl8(y);
    Shl8(Or(x, y));
    OrSplit(8, x, a, y, b);
    OrBound(8, a, b);
  }

  lemma OrBy16(x: nat, a: nat, y: nat, b: nat)
    requires a < 0x10 && b < 0x10
    ensures Or(0x10 * x + a, 0x10 * y + b) == Shl(Or(x, y), 4) + Or(a, b)
  {
    hide And, Or, Shl;
    Shl4(1);
    Shl4(x);
    Shl4(y);
    OrSplit(4, x, a, y, b);
  }

  lemma OrLow4(x: nat, a: nat, y: nat, b: nat)
    requires a < 0x10 && b < 0x10
    ensures Or(0x10 * x + a, 0x10 * y + b) % 0x10 == Or(a, b)
  {
    hide And, Or, Shl;
    var high := Or(x, y);
    OrBy16(x, a, y, b);
    assert Or(a, b) < 0x10 by {
      Shl4(1);
      OrBound(4, a, b);
    }
    Shl4(high);
  }

  lemma FlagBits(e: nat, f: nat)
    ensures Or(e, f) / 0x100 % 0x10 == Or(e / 0x100 % 0x10, f / 0x100 % 0x10)
  {
    hide And, Or, Shl;
    var x, y := e / 0x100, f / 0x100;
    assert Or(e, f) / 0x100 == Or(x, y) by {
      OrAbove8(x, e % 0x100, y, f % 0x100);
    }
    assert Or(x, y) % 0x10 == Or(x % 0x10, y % 0x10) by {
      OrLow4(x / 0x10, x % 0x10, y / 0x10, y % 0x10);
    }
  }

  /** Reading the parts of an assembled entry. */
  lemma Parts(hi: nat, field: nat, lo: nat)
    requires field < 0x100_0000_0000 && lo < 0x1000
    ensures var r := hi * 0x10_0000_0000_0000 + field * 0x1000 + lo;
            && r % 0x1000 == lo
            && r / 0x1000 % 0x100_0000_0000 == field
            && r / 0x100 % 0x100_0000_0000 == field % 0x10_0000_0000 * 0x10 + lo / 0x100
  {
    var r := hi * 0x10_0000_0000_0000 + field * 0x1000 + lo;
    assert r / 0x1000 == hi * 0x100_0000_0000 + field;
    assert r / 0x100 == hi * 0x1000_0000_0000 + field * 0x10 + lo / 0x100;
    var top, low := field / 0x10_0000_0000, field % 0x10_0000_0000;
    assert field == top * 0x10_0000_0000 + low;
    assert r / 0x100 == (hi * 0x10 + top) * 0x100_0000_0000 + (low * 0x10 + lo / 0x100);
  }

  /** The processor sees bits 12 to 51 of whatever address is stored, and the low twelve bits stay. */
  lemma ProcessorSees(e: Word, adr: Word)
    ensures Target(SetAdr(e, adr)) == adr / 0x1000 % 0x100_0000_0000
    ensures SetAdr(e, adr) % 0x1000 == e % 0x1000
  {
    hide And, Or, Shl;
    SetAdrField(e, adr);
    Parts(e / 0x10_0000_0000_0000, adr / 0x1000 % 0x100_0000_0000, e % 0x1000);
  }

  lemma GetAdrParts(r: Word, hi: nat, field: nat, lo: nat)
    requires field < 0x100_0000_0000 && lo < 0x1000
    requires r == hi * 0x10_0000_0000_0000 + field * 0x1000 + lo
    ensures GetAdr(r) == (field % 0x10_0000_0000 * 0x10 + lo / 0x100) * 0x100
  {
    hide And, Or, Shl;
    Parts(hi, field, lo);
    GetAdrField(r);
  }

  lemma KernelReads(e: Word, adr: Word)
    ensures GetAdr(SetAdr(e, adr)) == (adr / 0x1000 % 0x10_0000_0000 * 0x10 + e % 0x1000 / 0x100) * 0x100
  {
    hide And, Or, Shl;
    SetAdrField(e, adr);
    GetAdrParts(SetAdr(e, adr), e / 0x10_0000_0000_0000, adr / 0x1000 % 0x100_0000_0000, e % 0x1000);
    FieldMod(adr);
  }

  lemma FieldMod(adr: nat)
    ensures adr / 0x1000 % 0x100_0000_0000 % 0x10_0000_0000 == adr / 0x1000 % 0x10_0000_0000
  {}

  lemma LowBits(w: nat)
    ensures w % 0x1000 / 0x100 == w / 0x100 % 0x10
  {
    var q, r := w / 0x1000, w % 0x1000;
    assert w / 0x100 == q * 0x10 + r / 0x100;
  }

  lemma ReadBackParts(adr: Word, lo: nat)
    requires adr % PAGE_SIZE == 0 && lo < 0x10
    ensures (adr / 0x1000 % 0x10_0000_0000 * 0x10 + lo) * 0x100 == adr <==> adr < 0x1_0000_0000_0000 && lo == 0
  {}

  /** Exactly when the kernel reads back the page-aligned address it stored in an entry: the address
      lies below 2^48 and none of the flag bits 8 to 11 is set, before or by the update. */
  lemma ReadBackExact(e: Word, flags: Word, adr: Word)
    requires adr % PAGE_SIZE == 0
    ensures GetAdr(SetAdr(SetFlag(e, flags), adr)) == adr
       <==> adr < 0x1_0000_0000_0000 && e / 0x100 % 0x10 == 0 && flags / 0x100 % 0x10 == 0
  {
    hide And, Or, Shl;
    var w := SetFlag(e, flags);
    assert w / 0x100 % 0x10 == 0 <==> e / 0x100 % 0x10 == 0 && flags / 0x100 % 0x10 == 0 by {
      FlagBits(e, flags);
      OrNone(e / 0x100 % 0x10, flags / 0x100 % 0x10);
    }
    LowBits(w);
    KernelReads(w, adr);
    ReadBackParts(adr, w % 0x1000 / 0x100);
  }

  lemma OrNone(a: nat, b: nat)
    ensures Or(a, b) == 0 <==> a == 0 && b == 0
  {}

  /** Global is bit 8: an entry marked global is read back by the kernel at a wrong address. */
  lemma GlobalBreaksReadBack()
    ensures GetAdr(SetAdr(SetFlag(0, 0x101), 0x1000)) != 0x1000
  {
    hide And, Or, Shl;
    var e, flags, adr: Word := 0, 0x101, 0x1000;
    assert flags / 0x100 % 0x10 == 1;
    ReadBackExact(e, flags, adr);
  }

  /** The entry the kernel writes for a new table in frame c. */
  function TableEntry(e: Word, c: nat): Word
    requires c * PAGE_SIZE < W64
  {
    SetAdr(SetFlag(e, 7), c * PAGE_SIZE)
  }

  /** Entry e naming the frame of adr, with bits 0 to 2 set and every other bit as it was. */
  function Opened(e: nat, adr: nat): nat {
    e / 0x10_0000_0000_0000 * 0x10_0000_0000_0000 + adr / 0x1000 % 0x100_0000_0000 * 0x1000 + e % 0x1000 / 8 * 8 + 7
  }

  /** What the kernel's masks make of an entry it stores with the flags 7, for a table or a page. */
  lemma StoredEntry(e: Word, adr: Word)
    ensures SetAdr(SetFlag(e, 7), adr) == Opened(e, adr)
  {
    hide SetFlag, SetAdr;
    SetTableFlags(e);
    SetAdrField(SetFlag(e, 7), adr);
    FlagsKeep(e);
  }

  lemma FlagsKeep(e: Word)
    ensures var w := e / 8 * 8 + 7;
            w / 0x10_0000_0000_0000 == e / 0x10_0000_0000_0000 && w % 0x1000 == e % 0x1000 / 8 * 8 + 7
  {
    var u, w := e % 0x1000 / 8, e % 0x1000 % 8;
    Fields(e);
    assert e % 0x1000 == u * 8 + w;
    FlagsLow(e / 0x10_0000_0000_0000, e / 0x1000 % 0x100_0000_0000, u, w);
  }

  lemma FlagsLow(hi: nat, mid: nat, u: nat, w: nat)
    requires mid < 0x100_0000_0000 && u < 0x200 && w < 8
    ensures var e := hi * 0x10_0000_0000_0000 + (mid * 0x1000 + (u * 8 + w));
            && e % 8 == w && e % 0x1000 / 8 == u
            && (e / 8 * 8 + 7) / 0x10_0000_0000_0000 == hi && (e / 8 * 8 + 7) % 0x1000 == u * 8 + 7
  {
    var e, m := hi * 0x10_0000_0000_0000 + (mid * 0x1000 + (u * 8 + w)), hi * 0x100_0000_0000 + mid;
    Divides(e, 8, m * 0x200 + u, w);
    Divides(e, 0x1000, m, u * 8 + w);
    Divides(e / 8 * 8 + 7, 0x1000, m, u * 8 + 7);
    Divides(e / 8 * 8 + 7, 0x10_0000_0000_0000, hi, mid * 0x1000 + (u * 8 + 7));
  }

  lemma TableEntryExact(e: Word, c: nat)
    requires c < 0x10_0000_0000
    ensures TableEntry(e, c) == Opened(e, c * PAGE_SIZE)
  {
    hide And, Or, Shl;
    StoredEntry(e, c * PAGE_SIZE);
  }

  lemma TableEntryFields(e: Word, c: nat)
    requires Plain(e) && c < 0x10_0000_0000
    ensures var w := TableEntry(e, c); Present(w) && Writable(w) && User(w) && Plain(w) && Target(w) == c
  {
    hide And, Or, Shl;
    StoreFrame(SetFlag(e, 7), c);
    TableFlagsPlain(e);
    PlainLow(TableEntry(e, c), SetFlag(e, 7));
  }

  lemma StoreFrame(f: Word, c: nat)
    requires c < 0x10_0000_0000
    ensures Target(SetAdr(f, c * PAGE_SIZE)) == c
    ensures SetAdr(f, c * PAGE_SIZE) % 0x1000 == f % 0x1000
  {
    hide And, Or, Shl;
    var adr := c * PAGE_SIZE;
    assert adr / 0x1000 % 0x100_0000_0000 == c;
    ProcessorSees(f, adr);
  }

  lemma TableFlagsPlain(e: Word)
    requires Plain(e)
    ensures Present(SetFlag(e, 7)) && Writable(SetFlag(e, 7)) && User(SetFlag(e, 7)) && Plain(SetFlag(e, 7))
  {
    hide And, Or, Shl;
    SetTableFlags(e);
    var q, r := e / 0x80, e % 0x80;
    assert e == q * 0x80 + r / 8 * 8 + r % 8;
    PlainFlags(q, r / 8, r % 8);
  }

  lemma PlainFlags(q: nat, u: nat, w: nat)
    requires u < 0x10 && w < 8
    ensures ((q * 0x80 + u * 8 + w) / 8 * 8 + 7) / 0x80 == q
    ensures ((q * 0x80 + u * 8 + w) / 8 * 8 + 7) % 2 == 1
    ensures ((q * 0x80 + u * 8 + w) / 8 * 8 + 7) / 2 % 2 == 1
    ensures ((q * 0x80 + u * 8 + w) / 8 * 8 + 7) / 4 % 2 == 1
  {
    var e := q * 0x80 + u * 8 + w;
    var v := q * 0x10 + u;
    Divides(e, 8, v, w);
    Divides(v * 8 + 7, 0x80, q, u * 8 + 7);
    Divides(v * 8 + 7, 2, v * 4 + 3, 1);
    Divides(v * 4 + 3, 2, v * 2 + 1, 1);
    Divides(v * 8 + 7, 4, v * 2 + 1, 3);
  }

  /** Two words with the same low twelve bits agree on bits 0 to 2 and on bits 7 to 11. */
  lemma PlainLow(a: nat, b: nat)
    requires a % 0x1000 == b % 0x1000
    ensures a % 2 == b % 2 && a / 2 % 2 == b / 2 % 2 && a / 4 % 2 == b / 4 % 2
    ensures a / 0x80 % 0x20 == b / 0x80 % 0x20
  {
    LowTwelve(a / 0x1000, a % 0x1000);
    LowTwelve(b / 0x1000, b % 0x1000);
  }

  lemma LowTwelve(q: nat, r: nat)
    requires r < 0x1000
    ensures (q * 0x1000 + r) % 2 == r % 2
    ensures (q * 0x1000 + r) / 2 % 2 == r / 2 % 2 && (q * 0x1000 + r) / 4 % 2 == r / 4 % 2
    ensures (q * 0x1000 + r) / 0x80 % 0x20 == r / 0x80
  {
    var w := q * 0x1000 + r;
    var high, low := r / 0x80, r % 0x80;
    Divides(w, 2, q * 0x800 + r / 2, r % 2);
    Divides(q * 0x800 + r / 2, 2, q * 0x400 + r / 4, r / 2 % 2);
    Divides(w, 4, q * 0x400 + r / 4, r % 4);
    Divides(q * 0x400 + r / 4, 2, q * 0x200 + r / 8, r / 4 % 2);
    Divides(w, 0x80, q * 0x20 + high, low);
    Divides(q * 0x20 + high, 0x20, q, high);
  }

  lemma PlainNotLarge(e: Word)
    requires Plain(e)
    ensures !LargePage(e)
  {
    var q := e / 0x80;
    assert q == 2 * (q / 0x20 * 0x10);
  }

  /** On plain entries naming memory below 2^48 the kernel reads the address the processor reads. */
  lemma KernelAgrees(e: Word)
    requires Plain(e) && Target(e) < 0x10_0000_0000
    ensures GetAdr(e) == Target(e) * PAGE_SIZE
  {
    hide And, Or, Shl;
    var lo := e % 0x1000;
    Fields(e);
    GetAdrParts(e, e / 0x10_0000_0000_0000, Target(e), lo);
    PlainLowBits(e);
  }

  lemma PlainLowBits(e: Word)
    requires Plain(e)
    ensures e % 0x1000 / 0x100 == 0
  {
    LowTwelve(e / 0x1000, e % 0x1000);
  }

  /** The leaf entry for a mapping: its target, when it is present, and what it allows. */
  lemma LeafEntry(e: Word, flags: Word, adr: Word)
    ensures var w := SetAdr(SetFlag(e, flags), adr);
            && (Present(w) <==> Present(e) || Present(flags))
            && (Writable(w) <==> Writable(e) || Writable(flags))
            && (User(w) <==> User(e) || User(flags))
            && Target(w) == adr / PAGE_SIZE % 0x100_0000_0000
  {
    hide And, Or, Shl;
    var w := SetAdr(SetFlag(e, flags), adr);
    ProcessorSees(SetFlag(e, flags), adr);
    OrOdd(e, flags);
    OrFlags(e, flags);
    PlainLow(w, SetFlag(e, flags));
  }

  /** Unmapping a page or-s in no flag and stores address 0: the page does not become non-present.  It
      still translates, to frame 0, exactly when it translated before. */
  lemma UnmapStaysPresent(e: Word)
    ensures var w := SetAdr(SetFlag(e, 0), 0);
            && (Present(w) <==> Present(e))
            && Target(w) == 0
  {
    hide SetAdr, SetFlag;
    LeafEntry(e, 0, 0);
  }

  lemma OrOdd(a: nat, b: nat)
    ensures Or(a, b) % 2 == 1 <==> a % 2 == 1 || b % 2 == 1
    ensures Or(a, b) / 2 == Or(a / 2, b / 2)
  {
    hide Or;
    OrStep(a, b);
    Divides(Or(a, b), 2, Or(a / 2, b / 2), Bit(a % 2 == 1 || b % 2 == 1));
  }

  lemma OrFlags(a: nat, b: nat)
    ensures Or(a, b) / 2 % 2 == 1 <==> a / 2 % 2 == 1 || b / 2 % 2 == 1
    ensures Or(a, b) / 4 % 2 == 1 <==> a / 4 % 2 == 1 || b / 4 % 2 == 1
  {
    hide Or;
    OrOdd(a, b);
    OrOdd(a / 2, b / 2);
    OrOdd(a / 2 / 2, b / 2 / 2);
    Quarter(a);
    Quarter(b);
    Quarter(Or(a, b));
  }

  lemma Quarter(a: nat)
    ensures a / 4 == a / 2 / 2
  {}

  /** Which level-j table an address falls in: everything above the offsets of levels 1 to j. */
  function Prefix(v: nat, j: nat): nat
    requires j <= 4
  {
    match j
    case 0 => Page(v)
    case 1 => v / 0x20_0000 % 0x800_0000
    case 2 => v / 0x4000_0000 % 0x4_0000
    case 3 => v / 0x80_0000_0000 % 0x200
    case _ => 0
  }

  lemma PrefixStep(v: nat, j: nat)
    requires j < 4
    ensures Prefix(v, j) == Prefix(v, j + 1) * WORDS_PER_TABLE + Offset(v, j + 1)
  {
    match j
    case 0 =>
      DigitStep(v / 0x1000, 0x800_0000);
      DivTwice(v, 0x1000);
    case 1 =>
      DigitStep(v / 0x20_0000, 0x4_0000);
      DivTwice(v, 0x20_0000);
    case 2 =>
      DigitStep(v / 0x4000_0000, 0x200);
      DivTwice(v, 0x4000_0000);
    case 3 =>
  }

  lemma DivTwice(v: nat, n: nat)
    requires n == 0x1000 || n == 0x20_0000 || n == 0x4000_0000
    ensures v / n / 0x200 == v / (n * 0x200)
  {
    var q, r := v / n, v % n;
    var h, d := q / 0x200, q % 0x200;
    Divides(v, n * 0x200, h, d * n + r);
  }

  lemma DigitStep(q: nat, n: nat)
    requires n > 0
    ensures q % (n * 0x200) == q / 0x200 % n * 0x200 + q % 0x200
  {
    var p, r := q / 0x200, q % 0x200;
    var h, d := p / n, p % n;
    assert q == (h * n + d) * 0x200 + r;
    assert d * 0x200 + r < n * 0x200 by { assert d + 1 <= n; }
    assert q == h * (n * 0x200) + (d * 0x200 + r);
    Divides(q, n * 0x200, h, d * 0x200 + r);
  }

  lemma SamePrefix(v: nat, w: nat, j: nat)
    requires j < 4
    ensures Prefix(v, j) == Prefix(w, j)
       <==> Prefix(v, j + 1) == Prefix(w, j + 1) && Offset(v, j + 1) == Offset(w, j + 1)
  {
    PrefixStep(v, j);
    PrefixStep(w, j);
  }
}
