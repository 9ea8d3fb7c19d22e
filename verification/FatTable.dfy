/** The FAT12 allocation table: 12-bit entries packed two to three bytes (section 4.1 of the
    Microsoft FAT Specification). */
module FatTable {
  import opened Bits

  const END_OF_CHAIN: nat := 4095

  /** How many whole entries a table of this many bytes has. */
  function EntryCount(bytes: nat): nat {
    2 * bytes / 3
  }

  lemma EntryFits(bytes: nat, cluster: nat)
    ensures cluster < EntryCount(bytes) <==> cluster * 3 / 2 + 1 < bytes
  {}

  function Word(lo: nat, hi: nat): nat { lo + 0x100 * hi }

  /** A 16-bit little-endian load. */
  function Load16(table: seq<Byte>, offset: nat): nat
    requires offset + 1 < |table|
  {
    Word(table[offset], table[offset + 1])
  }

  function Low(w: nat): Byte { w % 0x100 }

  function High(w: nat): Byte { w / 0x100 % 0x100 }

  /** A 16-bit little-endian store; what does not fit in 16 bits is lost. */
  function Store16(table: seq<Byte>, offset: nat, w: nat): seq<Byte>
    requires offset + 1 < |table|
  {
    table[offset := Low(w)][offset + 1 := High(w)]
  }

  function GetNextCluster(table: seq<Byte>, cluster: nat): nat
    requires cluster < EntryCount(|table|)
  {
    var w := Load16(table, cluster * 3 / 2);
    if cluster % 2 != 0 then w / 0x10 else And(w, 0xfff)
  }

  function SetNextCluster(table: seq<Byte>, cluster: nat, next: nat): (table': seq<Byte>)
    requires cluster < EntryCount(|table|)
    ensures |table'| == |table|
  {
    var offset := cluster * 3 / 2;
    var w := Load16(table, offset);
    if cluster % 2 != 0 then Store16(table, offset, Or(And(w, 0x000f), next * 0x10))
    else Store16(table, offset, Or(And(w, 0xf000), And(0xfff, next)))
  }

  // ----- the masks as arithmetic

  lemma LowBits12(w: nat)
    ensures And(w, 0xfff) == w % 0x1000 == And(0xfff, w)
  {
    hide And;
    Shl12(1);
    Shl12(w / 0x1000);
    ShlZero(12);
    AndSplit(12, w / 0x1000, w % 0x1000, 0, 0xfff);
    AndZero(w / 0x1000);
    AndOnes(w % 0x1000, 12);
    AndCommutes(w, 0xfff);
  }

  lemma LowBits4(w: nat)
    ensures And(w, 0xf) == w % 0x10
  {
    hide And;
    Shl4(1);
    Shl4(w / 0x10);
    ShlZero(4);
    AndSplit(4, w / 0x10, w % 0x10, 0, 0xf);
    AndZero(w / 0x10);
    AndOnes(w % 0x10, 4);
  }

  lemma HighBits(w: nat)
    requires w < 0x1_0000
    ensures And(w, 0xf000) == w / 0x1000 * 0x1000
  {
    hide And;
    Shl12(1);
    Shl12(w / 0x1000);
    Shl12(0xf);
    Shl4(1);
    AndSplit(12, w / 0x1000, w % 0x1000, 0xf, 0);
    AndZero(w % 0x1000);
    AndOnes(w / 0x1000, 4);
  }

  lemma OddWord(w: nat, next: nat)
    ensures Or(And(w, 0x000f), next * 0x10) == next * 0x10 + w % 0x10
  {
    hide And, Or;
    LowBits4(w);
    Shl4(1);
    Shl4(next);
    ShlZero(4);
    OrSplit(4, 0, w % 0x10, next, 0);
    OrZero(next);
    OrZero(w % 0x10);
  }

  lemma EvenWord(w: nat, next: nat)
    requires w < 0x1_0000
    ensures Or(And(w, 0xf000), And(0xfff, next)) == w / 0x1000 * 0x1000 + next % 0x1000
  {
    hide And, Or;
    HighBits(w);
    LowBits12(next);
    Shl12(1);
    Shl12(w / 0x1000);
    ShlZero(12);
    OrSplit(12, w / 0x1000, 0, 0, next % 0x1000);
    OrZero(w / 0x1000);
    OrZero(next % 0x1000);
  }

  /** The 12-bit value in two bytes, for an odd and an even cluster. */
  function Unpack(odd: bool, lo: nat, hi: nat): nat {
    if odd then lo / 0x10 + 0x10 * hi else lo + 0x100 * (hi % 0x10)
  }

  /** The bytes after storing v. */
  function PackLow(odd: bool, lo: nat, v: nat): nat {
    if odd then v % 0x10 * 0x10 + lo % 0x10 else v % 0x100
  }

  function PackHigh(odd: bool, hi: nat, v: nat): nat {
    if odd then v / 0x10 % 0x100 else hi / 0x10 * 0x10 + v / 0x100 % 0x10
  }

  lemma OddStore(lo: nat, hi: nat, v: nat)
    requires lo < 0x100
    ensures Low(v * 0x10 + Word(lo, hi) % 0x10) == PackLow(true, lo, v)
    ensures High(v * 0x10 + Word(lo, hi) % 0x10) == PackHigh(true, hi, v)
  {
    var w := Word(lo, hi);
    Divides(w, 0x10, hi * 0x10 + lo / 0x10, lo % 0x10);
    var x := v * 0x10 + lo % 0x10;
    Divides(x, 0x100, v / 0x10, v % 0x10 * 0x10 + lo % 0x10);
  }

  lemma EvenStore(lo: nat, hi: nat, v: nat)
    requires lo < 0x100 && hi < 0x100
    ensures Low(Word(lo, hi) / 0x1000 * 0x1000 + v % 0x1000) == PackLow(false, lo, v)
    ensures High(Word(lo, hi) / 0x1000 * 0x1000 + v % 0x1000) == PackHigh(false, hi, v)
  {
    var w, u := Word(lo, hi), v % 0x1000;
    Divides(w, 0x1000, hi / 0x10, hi % 0x10 * 0x100 + lo);
    var x := hi / 0x10 * 0x1000 + u;
    Divides(x, 0x100, hi / 0x10 * 0x10 + u / 0x100, u % 0x100);
    Divides(v, 0x100, v / 0x1000 * 0x10 + u / 0x100, u % 0x100);
    Divides(v / 0x100, 0x10, v / 0x1000, u / 0x100);
  }

  lemma LoadValue(odd: bool, lo: nat, hi: nat)
    requires lo < 0x100 && hi < 0x100
    ensures (if odd then Word(lo, hi) / 0x10 else Word(lo, hi) % 0x1000) == Unpack(odd, lo, hi)
  {
    Divides(Word(lo, hi), 0x10, hi * 0x10 + lo / 0x10, lo % 0x10);
    Divides(Word(lo, hi), 0x1000, hi / 0x10, hi % 0x10 * 0x100 + lo);
  }

  /** An entry in terms of its bytes. */
  lemma GetBytes(table: seq<Byte>, c: nat)
    requires c < EntryCount(|table|)
    ensures var o := c * 3 / 2; GetNextCluster(table, c) == Unpack(c % 2 != 0, table[o], table[o + 1])
  {
    hide And, Unpack, Word;
    var o := c * 3 / 2;
    LowBits12(Load16(table, o));
    LoadValue(c % 2 != 0, table[o], table[o + 1]);
  }

  /** A store in terms of the bytes it leaves. */
  lemma SetBytes(table: seq<Byte>, c: nat, v: nat)
    requires c < EntryCount(|table|)
    ensures var o, odd := c * 3 / 2, c % 2 != 0;
            && PackLow(odd, table[o], v) < 0x100 && PackHigh(odd, table[o + 1], v) < 0x100
            && SetNextCluster(table, c, v) ==
               table[o := PackLow(odd, table[o], v)][o + 1 := PackHigh(odd, table[o + 1], v)]
  {
    hide And, Or, PackLow, PackHigh, Low, High;
    var o := c * 3 / 2;
    var w := Load16(table, o);
    if c % 2 != 0 {
      OddWord(w, v);
      OddStore(table[o], table[o + 1], v);
    } else {
      EvenWord(w, v);
      EvenStore(table[o], table[o + 1], v);
    }
  }

  /** Three bytes, read as one little-endian number, are two entries, the even cluster's in the lower half. */
  lemma PairIsTriple(table: seq<Byte>, k: nat)
    requires 2 * k + 1 < EntryCount(|table|)
    ensures var b0: nat, b1: nat, b2: nat := table[3 * k], table[3 * k + 1], table[3 * k + 2];
            var even, odd := GetNextCluster(table, 2 * k), GetNextCluster(table, 2 * k + 1);
            even < 0x1000 && odd < 0x1000 && even + 0x1000 * odd == b0 + 0x100 * b1 + 0x1_0000 * b2
  {
    hide GetNextCluster;
    GetBytes(table, 2 * k);
    GetBytes(table, 2 * k + 1);
    var mid: nat := table[3 * k + 1];
    assert mid == mid / 0x10 * 0x10 + mid % 0x10;
  }

  /** Reading back a store. */
  lemma UnpackPacked(odd: bool, lo: nat, hi: nat, v: nat)
    requires lo < 0x100 && hi < 0x100
    ensures Unpack(odd, PackLow(odd, lo, v), PackHigh(odd, hi, v)) == v % 0x1000
  {
    var u := v % 0x1000;
    if odd {
      Divides(v % 0x10 * 0x10 + lo % 0x10, 0x10, v % 0x10, lo % 0x10);
      Divides(v, 0x10, v / 0x1000 * 0x100 + u / 0x10, u % 0x10);
      Divides(v / 0x10, 0x100, v / 0x1000, u / 0x10);
    } else {
      Divides(v, 0x100, v / 0x1000 * 0x10 + u / 0x100, u % 0x100);
      Divides(v / 0x100, 0x10, v / 0x1000, u / 0x100);
      Divides(hi / 0x10 * 0x10 + v / 0x100 % 0x10, 0x10, hi / 0x10, v / 0x100 % 0x10);
    }
  }

  /** A neighbour that shares the middle byte reads what it read before. */
  lemma UnpackShared(lo: nat, mid: nat, hi: nat, v: nat)
    requires lo < 0x100 && mid < 0x100 && hi < 0x100
    ensures Unpack(true, PackHigh(false, mid, v), hi) == Unpack(true, mid, hi)
    ensures Unpack(false, lo, PackLow(true, mid, v)) == Unpack(false, lo, mid)
  {
    Divides(mid / 0x10 * 0x10 + v / 0x100 % 0x10, 0x10, mid / 0x10, v / 0x100 % 0x10);
    Divides(v % 0x10 * 0x10 + mid % 0x10, 0x10, v % 0x10, mid % 0x10);
  }

  /** The packed table is an array of 12-bit entries: a store changes its own entry, to the value
      modulo 4096, and no other, whichever bytes they share. */
  lemma GetSet(table: seq<Byte>, c: nat, v: nat, d: nat)
    requires c < EntryCount(|table|) && d < EntryCount(|table|)
    ensures GetNextCluster(SetNextCluster(table, c, v), d) == if d == c then v % 0x1000 else GetNextCluster(table, d)
  {
    hide GetNextCluster, SetNextCluster, Unpack, PackLow, PackHigh;
    SetBytes(table, c, v);
    GetBytes(table, d);
    GetBytes(SetNextCluster(table, c, v), d);
    var o, p := c * 3 / 2, d * 3 / 2;
    UnpackPacked(c % 2 != 0, table[o], table[o + 1], v);
    Neighbours(c, d);
    if d == c + 1 && c % 2 == 0 { UnpackShared(table[o], table[o + 1], table[p + 1], v); }
    if c == d + 1 && d % 2 == 0 { UnpackShared(table[p], table[o], table[o + 1], v); }
  }

  /** Two entries share a byte only as an even cluster and its odd successor. */
  lemma Neighbours(c: nat, d: nat)
    ensures c < d ==> d * 3 / 2 >= c * 3 / 2 + 1
    ensures c < d && !(d == c + 1 && c % 2 == 0) ==> d * 3 / 2 >= c * 3 / 2 + 2
    ensures d == c + 1 && c % 2 == 0 ==> d * 3 / 2 == c * 3 / 2 + 1 && d % 2 != 0
    ensures d < c ==> c * 3 / 2 >= d * 3 / 2 + 1
    ensures d < c && !(c == d + 1 && d % 2 == 0) ==> c * 3 / 2 >= d * 3 / 2 + 2
    ensures c == d + 1 && d % 2 == 0 ==> c * 3 / 2 == d * 3 / 2 + 1 && c % 2 != 0
  {}

  /** The table as the array it packs. */
  function Entries(table: seq<Byte>): (e: seq<nat>)
    ensures |e| == EntryCount(|table|)
  {
    seq(EntryCount(|table|), c requires 0 <= c < EntryCount(|table|) => GetNextCluster(table, c))
  }

  lemma EntriesSet(table: seq<Byte>, c: nat, v: nat)
    requires c < EntryCount(|table|)
    ensures Entries(SetNextCluster(table, c, v)) == Entries(table)[c := v % 0x1000]
  {
    hide GetNextCluster, SetNextCluster;
    forall d | 0 <= d < EntryCount(|table|)
      ensures Entries(SetNextCluster(table, c, v))[d] == Entries(table)[c := v % 0x1000][d]
    {
      GetSet(table, c, v, d);
    }
  }
}
