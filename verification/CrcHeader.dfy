/** Checksums of firmware table headers: setting, checking, and what a check detects. */
module CrcHeader {
  import opened Crc

  // ----- the register loses nothing

  lemma ShiftInjective(x: bv32, y: bv32)
    requires Shift(x) == Shift(y)
    ensures x == y
  {}

  lemma Shift8Injective(x: bv32, y: bv32)
    requires Shift8(x) == Shift8(y)
    ensures x == y
  {
    hide Shift;
    var x1, y1 := Shift(x), Shift(y);
    var x2, y2 := Shift(x1), Shift(y1);
    var x3, y3 := Shift(x2), Shift(y2);
    var x4, y4 := Shift(x3), Shift(y3);
    var x5, y5 := Shift(x4), Shift(y4);
    var x6, y6 := Shift(x5), Shift(y5);
    var x7, y7 := Shift(x6), Shift(y6);
    ShiftInjective(x7, y7);
    ShiftInjective(x6, y6);
    ShiftInjective(x5, y5);
    ShiftInjective(x4, y4);
    ShiftInjective(x3, y3);
    ShiftInjective(x2, y2);
    ShiftInjective(x1, y1);
    ShiftInjective(x, y);
  }

  lemma XorInjective(x: bv32, y: bv32, b: bv32)
    requires Xor(x, b) == Xor(y, b)
    ensures x == y
  {}

  /** Different registers stay different, whatever bytes follow. */
  lemma {:induction false} FeedInjective(x: bv32, y: bv32, data: seq<bv8>)
    requires Feed(x, data) == Feed(y, data)
    ensures x == y
    decreases |data|
  {
    hide Shift8, Xor;
    if data != [] {
      FeedInjective(Shift8(Xor(x, Widen(data[0]))), Shift8(Xor(y, Widen(data[0]))), data[1..]);
      Shift8Injective(Xor(x, Widen(data[0])), Xor(y, Widen(data[0])));
      XorInjective(x, y, Widen(data[0]));
    }
  }

  lemma {:induction false} FeedAppend(crc: bv32, a: seq<bv8>, b: seq<bv8>)
    ensures Feed(crc, a + b) == Feed(Feed(crc, a), b)
    decreases |a|
  {
    hide Shift8, Xor;
    if a == [] {
      assert a + b == b;
    } else {
      assert (a + b)[1..] == a[1..] + b;
      FeedAppend(Shift8(Xor(crc, Widen(a[0]))), a[1..], b);
    }
  }

  // ----- four bytes at a time

  function Up8(x: bv32): bv32 { x << 8 }

  lemma UpDown(x: bv32)
    requires x & 0xff000000 == 0
    ensures High(Up8(x)) == Up8(x) && Down8(Up8(x)) == x
  {}

  /** A byte may be xored in eight bits higher, one step earlier. */
  lemma Earlier(x: bv32, w: bv32)
    requires w & 0xff000000 == 0
    ensures Xor(Shift8(x), w) == Shift8(Xor(x, Up8(w)))
  {
    hide Shift8, Xor, High, Down8, Up8;
    UpDown(w);
    Shift8High(Up8(w));
    Shift8Linear(x, Up8(w));
  }

  function Four(b0: bv8, b1: bv8, b2: bv8, b3: bv8): bv32 {
    Xor(Xor(Xor(Widen(b0), Up8(Widen(b1))), Up8(Up8(Widen(b2)))), Up8(Up8(Up8(Widen(b3)))))
  }

  lemma SmallBytes(b: bv8)
    ensures Widen(b) & 0xff000000 == 0 && Up8(Widen(b)) & 0xff000000 == 0 && Up8(Up8(Widen(b))) & 0xff000000 == 0
  {}

  lemma XorAssociates(x: bv32, y: bv32, z: bv32)
    ensures Xor(Xor(x, y), z) == Xor(x, Xor(y, z))
  {}

  /** Four bytes fed one by one are one word fed before all the steps. */
  lemma FeedFour(crc: bv32, b0: bv8, b1: bv8, b2: bv8, b3: bv8)
    ensures Feed(crc, [b0, b1, b2, b3]) == Shift8(Shift8(Shift8(Shift8(Xor(crc, Four(b0, b1, b2, b3))))))
  {
    hide Shift8, Xor, Up8, Widen, Feed;
    SmallBytes(b1);
    SmallBytes(b2);
    SmallBytes(b3);
    var x0 := Xor(crc, Widen(b0));
    var x1 := Xor(x0, Up8(Widen(b1)));
    var x2 := Xor(x1, Up8(Up8(Widen(b2))));
    Earlier(x0, Widen(b1));
    Earlier(Shift8(x1), Widen(b2));
    Earlier(x1, Up8(Widen(b2)));
    Earlier(Shift8(Shift8(x2)), Widen(b3));
    Earlier(Shift8(x2), Up8(Widen(b3)));
    Earlier(x2, Up8(Up8(Widen(b3))));
    FeedUnfold(crc, b0, b1, b2, b3);
    var y1 := Xor(Widen(b0), Up8(Widen(b1)));
    XorAssociates(crc, Widen(b0), Up8(Widen(b1)));
    XorAssociates(crc, y1, Up8(Up8(Widen(b2))));
    XorAssociates(crc, Xor(y1, Up8(Up8(Widen(b2)))), Up8(Up8(Up8(Widen(b3)))));
  }

  lemma FeedOne(crc: bv32, b: bv8, rest: seq<bv8>)
    ensures Feed(crc, [b] + rest) == Feed(Shift8(Xor(crc, Widen(b))), rest)
  {
    hide Shift8, Xor, Widen;
    assert ([b] + rest)[1..] == rest;
  }

  lemma FeedUnfold(crc: bv32, b0: bv8, b1: bv8, b2: bv8, b3: bv8)
    ensures Feed(crc, [b0, b1, b2, b3])
         == Shift8(Xor(Shift8(Xor(Shift8(Xor(Shift8(Xor(crc, Widen(b0))), Widen(b1))), Widen(b2))), Widen(b3)))
  {
    hide Shift8, Xor, Widen, Feed;
    var c1 := Shift8(Xor(crc, Widen(b0)));
    var c2 := Shift8(Xor(c1, Widen(b1)));
    var c3 := Shift8(Xor(c2, Widen(b2)));
    FeedOne(crc, b0, [b1, b2, b3]);
    FeedOne(c1, b1, [b2, b3]);
    FeedOne(c2, b2, [b3]);
    FeedOne(c3, b3, []);
    FeedNothing(Shift8(Xor(c3, Widen(b3))), []);
    assert [b0] + [b1, b2, b3] == [b0, b1, b2, b3];
    assert [b1] + [b2, b3] == [b1, b2, b3];
    assert [b2] + [b3] == [b2, b3];
    assert [b3] + [] == [b3];
  }

  lemma XorCancels(crc: bv32, x: bv32, y: bv32)
    requires Xor(crc, x) == Xor(crc, y)
    ensures x == y
  {}

  lemma FourBytes(b0: bv8, b1: bv8, b2: bv8, b3: bv8)
    ensures var w := Four(b0, b1, b2, b3);
            && (w & 0xff) as bv8 == b0 && ((w >> 8) & 0xff) as bv8 == b1
            && ((w >> 16) & 0xff) as bv8 == b2 && ((w >> 24) & 0xff) as bv8 == b3
  {}

  lemma FeedFourInjective(crc: bv32, a: seq<bv8>, b: seq<bv8>)
    requires |a| == |b| == 4 && Feed(crc, a) == Feed(crc, b)
    ensures a == b
  {
    hide Shift8, Xor, Feed, Four;
    assert a == [a[0], a[1], a[2], a[3]] && b == [b[0], b[1], b[2], b[3]];
    FeedFour(crc, a[0], a[1], a[2], a[3]);
    FeedFour(crc, b[0], b[1], b[2], b[3]);
    var x, y := Xor(crc, Four(a[0], a[1], a[2], a[3])), Xor(crc, Four(b[0], b[1], b[2], b[3]));
    Shift8Injective(Shift8(Shift8(Shift8(x))), Shift8(Shift8(Shift8(y))));
    Shift8Injective(Shift8(Shift8(x)), Shift8(Shift8(y)));
    Shift8Injective(Shift8(x), Shift8(y));
    Shift8Injective(x, y);
    XorCancels(crc, Four(a[0], a[1], a[2], a[3]), Four(b[0], b[1], b[2], b[3]));
    FourBytes(a[0], a[1], a[2], a[3]);
    FourBytes(b[0], b[1], b[2], b[3]);
  }

  lemma SameRegister(x: seq<bv8>, y: seq<bv8>)
    requires Crc32(x) == Crc32(y)
    ensures Feed(INIT, x) == Feed(INIT, y)
  {
    hide Feed;
  }

  const INIT: bv32 := 0xFFFFFFFF

  lemma PadToFour(reg: bv32, a: seq<bv8>, b: seq<bv8>)
    requires |a| == |b| <= 4 && Feed(reg, a) == Feed(reg, b)
    ensures a == b
  {
    hide Feed;
    var pad: seq<bv8> := seq(4 - |a|, _ => 0);
    FeedAppend(reg, a, pad);
    FeedAppend(reg, b, pad);
    FeedFourInjective(reg, a + pad, b + pad);
    assert a == (a + pad)[..|a|] && b == (b + pad)[..|b|];
  }

  lemma SameCrc(front: seq<bv8>, a: seq<bv8>, b: seq<bv8>, back: seq<bv8>)
    requires |a| == |b| <= 4 && Crc32(front + a + back) == Crc32(front + b + back)
    ensures a == b
  {
    hide Feed, Crc32, INIT;
    var reg := Feed(INIT, front);
    SameRegister(front + a + back, front + b + back);
    FeedAppend(INIT, front + a, back);
    FeedAppend(INIT, front, a);
    FeedAppend(INIT, front + b, back);
    FeedAppend(INIT, front, b);
    FeedInjective(Feed(reg, a), Feed(reg, b), back);
    PadToFour(reg, a, b);
  }

  /** Any change confined to at most four consecutive bytes changes the CRC. */
  lemma BurstDetected(front: seq<bv8>, a: seq<bv8>, b: seq<bv8>, back: seq<bv8>)
    requires |a| == |b| <= 4 && a != b
    ensures Crc32(front + a + back) != Crc32(front + b + back)
  {
    if Crc32(front + a + back) == Crc32(front + b + back) { SameCrc(front, a, b, back); }
  }

  // ----- table headers: the CRC32 field lies at bytes 16 to 19

  const CRC_FIELD: nat := 16

  type Header = h: seq<bv8> | |h| >= CRC_FIELD + 4 witness seq(CRC_FIELD + 4, _ => 0)

  function StoredCrc(h: Header): bv32 {
    Four(h[CRC_FIELD], h[CRC_FIELD + 1], h[CRC_FIELD + 2], h[CRC_FIELD + 3])
  }

  /** The four bytes of c, little end first. */
  function Bytes(c: bv32): (s: seq<bv8>)
    ensures |s| == 4
  {
    [(c & 0xff) as bv8, ((c >> 8) & 0xff) as bv8, ((c >> 16) & 0xff) as bv8, ((c >> 24) & 0xff) as bv8]
  }

  function WithCrc(h: Header, c: bv32): (r: Header)
    ensures |r| == |h|
    ensures forall j :: 0 <= j < |h| ==>
              r[j] == if CRC_FIELD <= j < CRC_FIELD + 4 then Bytes(c)[j - CRC_FIELD] else h[j]
  {
    h[..CRC_FIELD] + Bytes(c) + h[CRC_FIELD + 4..]
  }

  /** The checksum a header of this size should carry: its CRC with the field itself zero. */
  function HeaderCrc(h: Header, size: nat): bv32
    requires size <= |h|
  {
    Crc32(WithCrc(h, 0)[..size])
  }

  /** What a check accepts. */
  predicate Accepts(h: Header, maxSize: nat, size: nat)
    requires size <= |h|
  {
    size != 0 && (maxSize == 0 || size <= maxSize) && StoredCrc(h) == HeaderCrc(h, size)
  }

  lemma BytesFour(c: bv32)
    ensures Four(Bytes(c)[0], Bytes(c)[1], Bytes(c)[2], Bytes(c)[3]) == c
  {}

  /** The checksum of no bytes at all is 0. */
  lemma EmptyCrc()
    ensures Crc32([]) == 0
  {}

  /** Bytes followed by their own checksum, low byte first, always have the same checksum: the residue of
      this CRC. */
  lemma Residue(data: seq<bv8>)
    ensures Crc32(data + Bytes(Crc32(data))) == 0x2144DF1C
  {
    hide Feed, Bytes;
    FeedAppend(0xFFFFFFFF, data, Bytes(Crc32(data)));
    FeedOwn(Feed(0xFFFFFFFF, data), Crc32(data));
  }

  lemma FeedOwn(reg: bv32, c: bv32)
    requires c == reg ^ 0xFFFFFFFF
    ensures Feed(reg, Bytes(c)) == 0xDEBB20E3
  {
    hide Shift8, Xor, Four, Feed, Bytes;
    var b := Bytes(c);
    assert b == [b[0], b[1], b[2], b[3]];
    FeedFour(reg, b[0], b[1], b[2], b[3]);
    BytesFour(c);
    Complement(reg, c);
    AllOnes();
  }

  lemma Complement(reg: bv32, c: bv32)
    requires c == reg ^ 0xFFFFFFFF
    ensures Xor(reg, c) == 0xFFFFFFFF
  {}

  lemma AllOnes()
    ensures Shift8(Shift8(Shift8(Shift8(0xFFFFFFFF)))) == 0xDEBB20E3
  {
    assert Shift8(0xFFFFFFFF) == 0x2DFD1072;
    assert Shift8(0x2DFD1072) == 0xBE26ED00;
    assert Shift8(0xBE26ED00) == 0xBE26ED;
    assert Shift8(0xBE26ED) == 0xDEBB20E3;
  }

  lemma StoredWith(h: Header, c: bv32)
    ensures StoredCrc(WithCrc(h, c)) == c && WithCrc(WithCrc(h, c), 0) == WithCrc(h, 0)
  {
    hide Four, Bytes;
    BytesFour(c);
  }

  /** The checksum of a header is that of its bytes when the field in it is zero, and the field itself
      does not count. */
  lemma HeaderCrcIs(h: Header, h': Header, size: nat)
    requires size <= |h| == |h'| && h[..CRC_FIELD] == h'[..CRC_FIELD] && h[CRC_FIELD + 4..] == h'[CRC_FIELD + 4..]
    requires h'[CRC_FIELD..CRC_FIELD + 4] == [0, 0, 0, 0]
    ensures HeaderCrc(h, size) == Crc32(h'[..size])
  {
    hide Crc32;
    assert h' == h'[..CRC_FIELD] + h'[CRC_FIELD..CRC_FIELD + 4] + h'[CRC_FIELD + 4..];
    assert WithCrc(h, 0) == h';
  }

  /** A header whose checksum was just set passes the check, if the size limits allow it at all. */
  lemma SetThenCheck(h: Header, maxSize: nat, size: nat)
    requires size <= |h|
    ensures Accepts(WithCrc(h, HeaderCrc(h, size)), maxSize, size) <==> size != 0 && (maxSize == 0 || size <= maxSize)
  {
    hide WithCrc, StoredCrc, Crc32;
    StoredWith(h, HeaderCrc(h, size));
  }

  /** No damage to at most four consecutive bytes of a valid header goes unnoticed, whether it lies
      outside the checksum field or inside it. */
  lemma DamageDetected(h: Header, h': Header, maxSize: nat, size: nat, i: nat, n: nat)
    requires |h| == |h'| && size <= |h| && n <= 4 && i + n <= size
    requires i + n <= CRC_FIELD || CRC_FIELD + 4 <= i || CRC_FIELD <= i <= i + n <= CRC_FIELD + 4
    requires h[..i] == h'[..i] && h[i + n..] == h'[i + n..] && h[i..i + n] != h'[i..i + n]
    requires Accepts(h, maxSize, size)
    ensures !Accepts(h', maxSize, size)
  {
    if CRC_FIELD <= i && i + n <= CRC_FIELD + 4 {
      FieldDamage(h, h', size, i, n);
    } else {
      DataDamage(h, h', size, i, n);
    }
  }

  lemma FieldDamage(h: Header, h': Header, size: nat, i: nat, n: nat)
    requires |h| == |h'| && size <= |h| && CRC_FIELD <= i <= i + n <= CRC_FIELD + 4
    requires h[..i] == h'[..i] && h[i + n..] == h'[i + n..] && h[i..i + n] != h'[i..i + n]
    ensures StoredCrc(h) != StoredCrc(h') && HeaderCrc(h, size) == HeaderCrc(h', size)
  {
    hide Crc32, StoredCrc, Bytes;
    Agree(h, h', i, n);
    assert WithCrc(h, 0) == WithCrc(h', 0);
    if StoredCrc(h) == StoredCrc(h') { FieldSame(h, h', i, n); }
  }

  lemma FieldSame(h: Header, h': Header, i: nat, n: nat)
    requires CRC_FIELD <= i <= i + n <= CRC_FIELD + 4 && StoredCrc(h) == StoredCrc(h')
    ensures h[i..i + n] == h'[i..i + n]
  {
    hide StoredCrc, Bytes;
    FieldBytes(h);
    FieldBytes(h');
    Inner(h, CRC_FIELD, CRC_FIELD + 4, i, i + n);
    Inner(h', CRC_FIELD, CRC_FIELD + 4, i, i + n);
  }

  lemma Inner(s: seq<bv8>, a: nat, b: nat, c: nat, d: nat)
    requires a <= c <= d <= b <= |s|
    ensures s[a..b][c - a..d - a] == s[c..d]
  {
    var t, u := s[a..b][c - a..d - a], s[c..d];
    forall k | 0 <= k < d - c
      ensures t[k] == u[k]
    {
      assert t[k] == s[a..b][c - a + k] == s[c + k];
    }
  }

  lemma DataDamage(h: Header, h': Header, size: nat, i: nat, n: nat)
    requires |h| == |h'| && size <= |h| && n <= 4 && i + n <= size
    requires i + n <= CRC_FIELD || CRC_FIELD + 4 <= i
    requires h[..i] == h'[..i] && h[i + n..] == h'[i + n..] && h[i..i + n] != h'[i..i + n]
    ensures StoredCrc(h) == StoredCrc(h') && HeaderCrc(h, size) != HeaderCrc(h', size)
  {
    hide Crc32, Four, Bytes;
    var z, z' := WithCrc(h, 0)[..size], WithCrc(h', 0)[..size];
    assert z == z[..i] + z[i..i + n] + z[i + n..] && z' == z'[..i] + z'[i..i + n] + z'[i + n..];
    OutsideField(h, h', size, i, n);
    BurstDetected(z[..i], z[i..i + n], z'[i..i + n], z[i + n..]);
  }

  lemma OutsideField(h: Header, h': Header, size: nat, i: nat, n: nat)
    requires |h| == |h'| && size <= |h| && i + n <= size
    requires i + n <= CRC_FIELD || CRC_FIELD + 4 <= i
    requires h[..i] == h'[..i] && h[i + n..] == h'[i + n..] && h[i..i + n] != h'[i..i + n]
    ensures StoredCrc(h) == StoredCrc(h')
    ensures var z, z' := WithCrc(h, 0)[..size], WithCrc(h', 0)[..size];
            z[..i] == z'[..i] && z[i + n..] == z'[i + n..] && z[i..i + n] != z'[i..i + n]
  {
    hide Four, Bytes;
    var w, w' := WithCrc(h, 0), WithCrc(h', 0);
    Agree(h, h', i, n);
    assert w[i..i + n] == h[i..i + n] && w'[i..i + n] == h'[i..i + n];
    assert w[..size][i..i + n] == w[i..i + n] && w'[..size][i..i + n] == w'[i..i + n];
  }

  lemma Agree(h: seq<bv8>, h': seq<bv8>, i: nat, n: nat)
    requires |h| == |h'| && i + n <= |h| && h[..i] == h'[..i] && h[i + n..] == h'[i + n..]
    ensures forall j :: 0 <= j < |h| && (j < i || i + n <= j) ==> h[j] == h'[j]
  {
    forall j | 0 <= j < |h| && (j < i || i + n <= j)
      ensures h[j] == h'[j]
    {
      if j < i { assert h[j] == h[..i][j]; } else { assert h[j] == h[i + n..][j - (i + n)]; }
    }
  }

  /** Writes the checksum of the first `size` bytes into the header. */
  method SetCrcAltSize(size: nat, hdr: array<bv8>)
    requires CRC_FIELD + 4 <= hdr.Length && size <= hdr.Length
    modifies hdr
    ensures hdr[..] == WithCrc(old(hdr[..]), HeaderCrc(old(hdr[..]), size))
  {
    hide Crc32, Bytes;
    ghost var h := hdr[..];
    StoreField(hdr, 0);
    var crc := CalculateCrc(hdr[..size]);
    assert hdr[..size] == WithCrc(h, 0)[..size];
    StoreField(hdr, crc);
    assert WithCrc(WithCrc(h, 0), crc) == WithCrc(h, crc);
  }

  method StoreField(hdr: array<bv8>, c: bv32)
    requires CRC_FIELD + 4 <= hdr.Length
    modifies hdr
    ensures hdr[..] == WithCrc(old(hdr[..]), c)
  {
    hdr[CRC_FIELD] := (c & 0xff) as bv8;
    hdr[CRC_FIELD + 1] := ((c >> 8) & 0xff) as bv8;
    hdr[CRC_FIELD + 2] := ((c >> 16) & 0xff) as bv8;
    hdr[CRC_FIELD + 3] := ((c >> 24) & 0xff) as bv8;
  }

  /** Checks the header.  The field is cleared for the computation and then put back. */
  method CheckCrcAltSize(maxSize: nat, size: nat, hdr: array<bv8>) returns (ok: bool)
    requires CRC_FIELD + 4 <= hdr.Length && size <= hdr.Length
    modifies hdr
    ensures hdr[..] == old(hdr[..])
    ensures ok <==> Accepts(hdr[..], maxSize, size)
  {
    hide Crc32, Bytes, Four;
    if size == 0 {
      return false;
    }
    if maxSize != 0 && size > maxSize {
      return false;
    }
    ghost var h := hdr[..];
    var orgCrc := Four(hdr[CRC_FIELD], hdr[CRC_FIELD + 1], hdr[CRC_FIELD + 2], hdr[CRC_FIELD + 3]);
    StoreField(hdr, 0);
    var crc := CalculateCrc(hdr[..size]);
    assert hdr[..size] == WithCrc(h, 0)[..size];
    StoreField(hdr, orgCrc);
    PutBack(h);
    ok := orgCrc == crc;
  }

  lemma PutBack(h: Header)
    ensures WithCrc(WithCrc(h, 0), StoredCrc(h)) == h
  {
    hide Four, Bytes;
    FourBytes(h[CRC_FIELD], h[CRC_FIELD + 1], h[CRC_FIELD + 2], h[CRC_FIELD + 3]);
    FieldBytes(h);
  }

  lemma FieldBytes(h: Header)
    ensures Bytes(StoredCrc(h)) == h[CRC_FIELD..CRC_FIELD + 4]
  {
    hide Four;
    FourBytes(h[CRC_FIELD], h[CRC_FIELD + 1], h[CRC_FIELD + 2], h[CRC_FIELD + 3]);
  }
}
