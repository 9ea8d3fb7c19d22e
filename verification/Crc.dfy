/** The CRC-32 of the firmware tables (section 4.2 of the UEFI Specification), computed byte by byte
    with a table in the boot library and bit by bit in the kernel. */
module Crc {

  const POLYNOMIAL: bv32 := 0xEDB88320

  /** One bit of the reflected CRC register. */
  function Shift(x: bv32): bv32 {
    if x & 1 == 1 then (x >> 1) ^ POLYNOMIAL else x >> 1
  }

  function Shift8(x: bv32): bv32 {
    Shift(Shift(Shift(Shift(Shift(Shift(Shift(Shift(x))))))))
  }

  function ShiftN(x: bv32, n: nat): bv32 {
    if n == 0 then x else Shift(ShiftN(x, n - 1))
  }

  lemma Shift8IsShiftN(x: bv32)
    ensures Shift8(x) == ShiftN(x, 8)
  {
    hide Shift;
    assert ShiftN(x, 1) == Shift(x);
    assert ShiftN(x, 2) == Shift(ShiftN(x, 1));
    assert ShiftN(x, 3) == Shift(ShiftN(x, 2));
    assert ShiftN(x, 4) == Shift(ShiftN(x, 3));
    assert ShiftN(x, 5) == Shift(ShiftN(x, 4));
    assert ShiftN(x, 6) == Shift(ShiftN(x, 5));
    assert ShiftN(x, 7) == Shift(ShiftN(x, 6));
  }

  /** The register after the bytes of data. */
  function Feed(crc: bv32, data: seq<bv8>): bv32
    decreases |data|
  {
    if data == [] then crc else Feed(Shift8(Xor(crc, Widen(data[0]))), data[1..])
  }

  function Crc32(data: seq<bv8>): bv32 {
    Feed(0xFFFFFFFF, data) ^ 0xFFFFFFFF
  }

  // ----- the lookup table, sixteen entries a row

  function Row0(low: bv8): bv32 {
    match low
    case 0x0 => 0x00000000 case 0x1 => 0x77073096 case 0x2 => 0xEE0E612C case 0x3 => 0x990951BA
    case 0x4 => 0x076DC419 case 0x5 => 0x706AF48F case 0x6 => 0xE963A535 case 0x7 => 0x9E6495A3
    case 0x8 => 0x0EDB8832 case 0x9 => 0x79DCB8A4 case 0xA => 0xE0D5E91E case 0xB => 0x97D2D988
    case 0xC => 0x09B64C2B case 0xD => 0x7EB17CBD case 0xE => 0xE7B82D07 case _ => 0x90BF1D91
  }

  function Row1(low: bv8): bv32 {
    match low
    case 0x0 => 0x1DB71064 case 0x1 => 0x6AB020F2 case 0x2 => 0xF3B97148 case 0x3 => 0x84BE41DE
    case 0x4 => 0x1ADAD47D case 0x5 => 0x6DDDE4EB case 0x6 => 0xF4D4B551 case 0x7 => 0x83D385C7
    case 0x8 => 0x136C9856 case 0x9 => 0x646BA8C0 case 0xA => 0xFD62F97A case 0xB => 0x8A65C9EC
    case 0xC => 0x14015C4F case 0xD => 0x63066CD9 case 0xE => 0xFA0F3D63 case _ => 0x8D080DF5
  }

  function Row2(low: bv8): bv32 {
    match low
    case 0x0 => 0x3B6E20C8 case 0x1 => 0x4C69105E case 0x2 => 0xD56041E4 case 0x3 => 0xA2677172
    case 0x4 => 0x3C03E4D1 case 0x5 => 0x4B04D447 case 0x6 => 0xD20D85FD case 0x7 => 0xA50AB56B
    case 0x8 => 0x35B5A8FA case 0x9 => 0x42B2986C case 0xA => 0xDBBBC9D6 case 0xB => 0xACBCF940
    case 0xC => 0x32D86CE3 case 0xD => 0x45DF5C75 case 0xE => 0xDCD60DCF case _ => 0xABD13D59
  }

  function Row3(low: bv8): bv32 {
    match low
    case 0x0 => 0x26D930AC case 0x1 => 0x51DE003A case 0x2 => 0xC8D75180 case 0x3 => 0xBFD06116
    case 0x4 => 0x21B4F4B5 case 0x5 => 0x56B3C423 case 0x6 => 0xCFBA9599 case 0x7 => 0xB8BDA50F
    case 0x8 => 0x2802B89E case 0x9 => 0x5F058808 case 0xA => 0xC60CD9B2 case 0xB => 0xB10BE924
    case 0xC => 0x2F6F7C87 case 0xD => 0x58684C11 case 0xE => 0xC1611DAB case _ => 0xB6662D3D
  }

  function Row4(low: bv8): bv32 {
    match low
    case 0x0 => 0x76DC4190 case 0x1 => 0x01DB7106 case 0x2 => 0x98D220BC case 0x3 => 0xEFD5102A
    case 0x4 => 0x71B18589 case 0x5 => 0x06B6B51F case 0x6 => 0x9FBFE4A5 case 0x7 => 0xE8B8D433
    case 0x8 => 0x7807C9A2 case 0x9 => 0x0F00F934 case 0xA => 0x9609A88E case 0xB => 0xE10E9818
    case 0xC => 0x7F6A0DBB case 0xD => 0x086D3D2D case 0xE => 0x91646C97 case _ => 0xE6635C01
  }

  function Row5(low: bv8): bv32 {
    match low
    case 0x0 => 0x6B6B51F4 case 0x1 => 0x1C6C6162 case 0x2 => 0x856530D8 case 0x3 => 0xF262004E
    case 0x4 => 0x6C0695ED case 0x5 => 0x1B01A57B case 0x6 => 0x8208F4C1 case 0x7 => 0xF50FC457
    case 0x8 => 0x65B0D9C6 case 0x9 => 0x12B7E950 case 0xA => 0x8BBEB8EA case 0xB => 0xFCB9887C
    case 0xC => 0x62DD1DDF case 0xD => 0x15DA2D49 case 0xE => 0x8CD37CF3 case _ => 0xFBD44C65
  }

  function Row6(low: bv8): bv32 {
    match low
    case 0x0 => 0x4DB26158 case 0x1 => 0x3AB551CE case 0x2 => 0xA3BC0074 case 0x3 => 0xD4BB30E2
    case 0x4 => 0x4ADFA541 case 0x5 => 0x3DD895D7 case 0x6 => 0xA4D1C46D case 0x7 => 0xD3D6F4FB
    case 0x8 => 0x4369E96A case 0x9 => 0x346ED9FC case 0xA => 0xAD678846 case 0xB => 0xDA60B8D0
    case 0xC => 0x44042D73 case 0xD => 0x33031DE5 case 0xE => 0xAA0A4C5F case _ => 0xDD0D7CC9
  }

  function Row7(low: bv8): bv32 {
    match low
    case 0x0 => 0x5005713C case 0x1 => 0x270241AA case 0x2 => 0xBE0B1010 case 0x3 => 0xC90C2086
    case 0x4 => 0x5768B525 case 0x5 => 0x206F85B3 case 0x6 => 0xB966D409 case 0x7 => 0xCE61E49F
    case 0x8 => 0x5EDEF90E case 0x9 => 0x29D9C998 case 0xA => 0xB0D09822 case 0xB => 0xC7D7A8B4
    case 0xC => 0x59B33D17 case 0xD => 0x2EB40D81 case 0xE => 0xB7BD5C3B case _ => 0xC0BA6CAD
  }

  function Row8(low: bv8): bv32 {
    match low
    case 0x0 => 0xEDB88320 case 0x1 => 0x9ABFB3B6 case 0x2 => 0x03B6E20C case 0x3 => 0x74B1D29A
    case 0x4 => 0xEAD54739 case 0x5 => 0x9DD277AF case 0x6 => 0x04DB2615 case 0x7 => 0x73DC1683
    case 0x8 => 0xE3630B12 case 0x9 => 0x94643B84 case 0xA => 0x0D6D6A3E case 0xB => 0x7A6A5AA8
    case 0xC => 0xE40ECF0B case 0xD => 0x9309FF9D case 0xE => 0x0A00AE27 case _ => 0x7D079EB1
  }

  function Row9(low: bv8): bv32 {
    match low
    case 0x0 => 0xF00F9344 case 0x1 => 0x8708A3D2 case 0x2 => 0x1E01F268 case 0x3 => 0x6906C2FE
    case 0x4 => 0xF762575D case 0x5 => 0x806567CB case 0x6 => 0x196C3671 case 0x7 => 0x6E6B06E7
    case 0x8 => 0xFED41B76 case 0x9 => 0x89D32BE0 case 0xA => 0x10DA7A5A case 0xB => 0x67DD4ACC
    case 0xC => 0xF9B9DF6F case 0xD => 0x8EBEEFF9 case 0xE => 0x17B7BE43 case _ => 0x60B08ED5
  }

  function RowA(low: bv8): bv32 {
    match low
    case 0x0 => 0xD6D6A3E8 case 0x1 => 0xA1D1937E case 0x2 => 0x38D8C2C4 case 0x3 => 0x4FDFF252
    case 0x4 => 0xD1BB67F1 case 0x5 => 0xA6BC5767 case 0x6 => 0x3FB506DD case 0x7 => 0x48B2364B
    case 0x8 => 0xD80D2BDA case 0x9 => 0xAF0A1B4C case 0xA => 0x36034AF6 case 0xB => 0x41047A60
    case 0xC => 0xDF60EFC3 case 0xD => 0xA867DF55 case 0xE => 0x316E8EEF case _ => 0x4669BE79
  }

  function RowB(low: bv8): bv32 {
    match low
    case 0x0 => 0xCB61B38C case 0x1 => 0xBC66831A case 0x2 => 0x256FD2A0 case 0x3 => 0x5268E236
    case 0x4 => 0xCC0C7795 case 0x5 => 0xBB0B4703 case 0x6 => 0x220216B9 case 0x7 => 0x5505262F
    case 0x8 => 0xC5BA3BBE case 0x9 => 0xB2BD0B28 case 0xA => 0x2BB45A92 case 0xB => 0x5CB36A04
    case 0xC => 0xC2D7FFA7 case 0xD => 0xB5D0CF31 case 0xE => 0x2CD99E8B case _ => 0x5BDEAE1D
  }

  function RowC(low: bv8): bv32 {
    match low
    case 0x0 => 0x9B64C2B0 case 0x1 => 0xEC63F226 case 0x2 => 0x756AA39C case 0x3 => 0x026D930A
    case 0x4 => 0x9C0906A9 case 0x5 => 0xEB0E363F case 0x6 => 0x72076785 case 0x7 => 0x05005713
    case 0x8 => 0x95BF4A82 case 0x9 => 0xE2B87A14 case 0xA => 0x7BB12BAE case 0xB => 0x0CB61B38
    case 0xC => 0x92D28E9B case 0xD => 0xE5D5BE0D case 0xE => 0x7CDCEFB7 case _ => 0x0BDBDF21
  }

  function RowD(low: bv8): bv32 {
    match low
    case 0x0 => 0x86D3D2D4 case 0x1 => 0xF1D4E242 case 0x2 => 0x68DDB3F8 case 0x3 => 0x1FDA836E
    case 0x4 => 0x81BE16CD case 0x5 => 0xF6B9265B case 0x6 => 0x6FB077E1 case 0x7 => 0x18B74777
    case 0x8 => 0x88085AE6 case 0x9 => 0xFF0F6A70 case 0xA => 0x66063BCA case 0xB => 0x11010B5C
    case 0xC => 0x8F659EFF case 0xD => 0xF862AE69 case 0xE => 0x616BFFD3 case _ => 0x166CCF45
  }

  function RowE(low: bv8): bv32 {
    match low
    case 0x0 => 0xA00AE278 case 0x1 => 0xD70DD2EE case 0x2 => 0x4E048354 case 0x3 => 0x3903B3C2
    case 0x4 => 0xA7672661 case 0x5 => 0xD06016F7 case 0x6 => 0x4969474D case 0x7 => 0x3E6E77DB
    case 0x8 => 0xAED16A4A case 0x9 => 0xD9D65ADC case 0xA => 0x40DF0B66 case 0xB => 0x37D83BF0
    case 0xC => 0xA9BCAE53 case 0xD => 0xDEBB9EC5 case 0xE => 0x47B2CF7F case _ => 0x30B5FFE9
  }

  function RowF(low: bv8): bv32 {
    match low
    case 0x0 => 0xBDBDF21C case 0x1 => 0xCABAC28A case 0x2 => 0x53B39330 case 0x3 => 0x24B4A3A6
    case 0x4 => 0xBAD03605 case 0x5 => 0xCDD70693 case 0x6 => 0x54DE5729 case 0x7 => 0x23D967BF
    case 0x8 => 0xB3667A2E case 0x9 => 0xC4614AB8 case 0xA => 0x5D681B02 case 0xB => 0x2A6F2B94
    case 0xC => 0xB40BBE37 case 0xD => 0xC30C8EA1 case 0xE => 0x5A05DF1B case _ => 0x2D02EF8D
  }

  function CrcTable(i: bv8): bv32 {
    var low := i & 0xF;
    match i >> 4
    case 0x0 => Row0(low) case 0x1 => Row1(low) case 0x2 => Row2(low) case 0x3 => Row3(low)
    case 0x4 => Row4(low) case 0x5 => Row5(low) case 0x6 => Row6(low) case 0x7 => Row7(low)
    case 0x8 => Row8(low) case 0x9 => Row9(low) case 0xA => RowA(low) case 0xB => RowB(low)
    case 0xC => RowC(low) case 0xD => RowD(low) case 0xE => RowE(low) case _ => RowF(low)
  }

  // ----- the table holds the bitwise remainders

  lemma Row0Entries(low: bv8)
    requires low < 16
    ensures Row0(low) == Shift8(0x00 ^ (low as bv32))
  {}

  lemma Row1Entries(low: bv8)
    requires low < 16
    ensures Row1(low) == Shift8(0x10 ^ (low as bv32))
  {}

  lemma Row2Entries(low: bv8)
    requires low < 16
    ensures Row2(low) == Shift8(0x20 ^ (low as bv32))
  {}

  lemma Row3Entries(low: bv8)
    requires low < 16
    ensures Row3(low) == Shift8(0x30 ^ (low as bv32))
  {}

  lemma Row4Entries(low: bv8)
    requires low < 16
    ensures Row4(low) == Shift8(0x40 ^ (low as bv32))
  {}

  lemma Row5Entries(low: bv8)
    requires low < 16
    ensures Row5(low) == Shift8(0x50 ^ (low as bv32))
  {}

  lemma Row6Entries(low: bv8)
    requires low < 16
    ensures Row6(low) == Shift8(0x60 ^ (low as bv32))
  {}

  lemma Row7Entries(low: bv8)
    requires low < 16
    ensures Row7(low) == Shift8(0x70 ^ (low as bv32))
  {}

  lemma Row8Entries(low: bv8)
    requires low < 16
    ensures Row8(low) == Shift8(0x80 ^ (low as bv32))
  {}

  lemma Row9Entries(low: bv8)
    requires low < 16
    ensures Row9(low) == Shift8(0x90 ^ (low as bv32))
  {}

  lemma RowAEntries(low: bv8)
    requires low < 16
    ensures RowA(low) == Shift8(0xA0 ^ (low as bv32))
  {}

  lemma RowBEntries(low: bv8)
    requires low < 16
    ensures RowB(low) == Shift8(0xB0 ^ (low as bv32))
  {}

  lemma RowCEntries(low: bv8)
    requires low < 16
    ensures RowC(low) == Shift8(0xC0 ^ (low as bv32))
  {}

  lemma RowDEntries(low: bv8)
    requires low < 16
    ensures RowD(low) == Shift8(0xD0 ^ (low as bv32))
  {}

  lemma RowEEntries(low: bv8)
    requires low < 16
    ensures RowE(low) == Shift8(0xE0 ^ (low as bv32))
  {}

  lemma RowFEntries(low: bv8)
    requires low < 16
    ensures RowF(low) == Shift8(0xF0 ^ (low as bv32))
  {}

  lemma TableEntry(i: bv8)
    ensures CrcTable(i) == Shift8(i as bv32)
  {
    hide Shift8;
    var low := i & 0xF;
    assert low < 16;
    match i >> 4
    case 0x0 => Row0Entries(low); assert 0x00 ^ (low as bv32) == i as bv32;
    case 0x1 => Row1Entries(low); assert 0x10 ^ (low as bv32) == i as bv32;
    case 0x2 => Row2Entries(low); assert 0x20 ^ (low as bv32) == i as bv32;
    case 0x3 => Row3Entries(low); assert 0x30 ^ (low as bv32) == i as bv32;
    case 0x4 => Row4Entries(low); assert 0x40 ^ (low as bv32) == i as bv32;
    case 0x5 => Row5Entries(low); assert 0x50 ^ (low as bv32) == i as bv32;
    case 0x6 => Row6Entries(low); assert 0x60 ^ (low as bv32) == i as bv32;
    case 0x7 => Row7Entries(low); assert 0x70 ^ (low as bv32) == i as bv32;
    case 0x8 => Row8Entries(low); assert 0x80 ^ (low as bv32) == i as bv32;
    case 0x9 => Row9Entries(low); assert 0x90 ^ (low as bv32) == i as bv32;
    case 0xA => RowAEntries(low); assert 0xA0 ^ (low as bv32) == i as bv32;
    case 0xB => RowBEntries(low); assert 0xB0 ^ (low as bv32) == i as bv32;
    case 0xC => RowCEntries(low); assert 0xC0 ^ (low as bv32) == i as bv32;
    case 0xD => RowDEntries(low); assert 0xD0 ^ (low as bv32) == i as bv32;
    case 0xE => RowEEntries(low); assert 0xE0 ^ (low as bv32) == i as bv32;
    case _ => RowFEntries(low); assert 0xF0 ^ (low as bv32) == i as bv32;
  }

  // ----- the step is linear over xor

  lemma ShiftParts(x: bv32, y: bv32)
    ensures (x ^ y) >> 1 == (x >> 1) ^ (y >> 1)
    ensures (x ^ y) & 1 == (x & 1) ^ (y & 1)
    ensures x & 1 == 0 || x & 1 == 1
  {}

  lemma ShiftXor(x: bv32, y: bv32)
    ensures Shift(x ^ y) == Shift(x) ^ Shift(y)
  {
    ShiftParts(x, y);
    ShiftParts(y, x);
    if x & 1 == 1 {
      if y & 1 == 1 {} else {}
    } else {
      if y & 1 == 1 {} else {}
    }
  }

  function Xor(x: bv32, y: bv32): bv32 { x ^ y }

  lemma ShiftLinear(x: bv32, y: bv32)
    ensures Shift(Xor(x, y)) == Xor(Shift(x), Shift(y))
  {
    hide Shift;
    ShiftXor(x, y);
  }

  lemma Shift8Linear(x: bv32, y: bv32)
    ensures Shift8(Xor(x, y)) == Xor(Shift8(x), Shift8(y))
  {
    hide Xor, Shift;
    var x1, y1 := Shift(x), Shift(y);
    var x2, y2 := Shift(x1), Shift(y1);
    var x3, y3 := Shift(x2), Shift(y2);
    var x4, y4 := Shift(x3), Shift(y3);
    var x5, y5 := Shift(x4), Shift(y4);
    var x6, y6 := Shift(x5), Shift(y5);
    var x7, y7 := Shift(x6), Shift(y6);
    ShiftLinear(x, y);
    ShiftLinear(x1, y1);
    ShiftLinear(x2, y2);
    ShiftLinear(x3, y3);
    ShiftLinear(x4, y4);
    ShiftLinear(x5, y5);
    ShiftLinear(x6, y6);
    ShiftLinear(x7, y7);
  }

  function High(x: bv32): bv32 { x & 0xffffff00 }

  function Low(x: bv32): bv32 { x & 0xff }

  function Down8(x: bv32): bv32 { x >> 8 }

  lemma Halves(x: bv32)
    ensures Xor(High(x), Low(x)) == x
  {}

  /** Bits above the low byte are only moved down. */
  lemma Shift8High(x: bv32)
    ensures Shift8(High(x)) == Down8(x)
  {}

  lemma Shift8Split(x: bv32)
    ensures Shift8(x) == Xor(Down8(x), Shift8(Low(x)))
  {
    hide Shift8, Xor, High, Low, Down8;
    Halves(x);
    Shift8Linear(High(x), Low(x));
    Shift8High(x);
  }

  /** The table index for a register and a byte. */
  function Index(crc: bv32, b: bv8): bv8 {
    (crc & 0xff) as bv8 ^ b
  }

  function Widen(b: bv8): bv32 { b as bv32 }

  lemma IndexParts(crc: bv32, b: bv8)
    ensures Down8(Xor(crc, Widen(b))) == Down8(crc)
    ensures Low(Xor(crc, Widen(b))) == Widen(Index(crc, b))
  {}

  /** One table lookup does the work of eight single-bit steps. */
  lemma TableStep(crc: bv32, b: bv8)
    ensures Shift8(Xor(crc, Widen(b))) == Xor(Down8(crc), CrcTable(Index(crc, b)))
  {
    hide Shift8, CrcTable, Xor, Low, Down8, Index;
    IndexParts(crc, b);
    Shift8Split(Xor(crc, Widen(b)));
    TableEntry(Index(crc, b));
  }

  // ----- the two programs

  /** The kernel's bitwise CRC. */
  method Crc32b(data: seq<bv8>) returns (r: bv32)
    ensures r == Crc32(data)
  {
    hide Shift8, Xor, Feed, ShiftN;
    var crc: bv32 := 0xFFFFFFFF;
    var i := 0;
    while i < |data|
      invariant 0 <= i <= |data| && Feed(crc, data[i..]) == Feed(0xFFFFFFFF, data)
    {
      FeedStep(crc, data, i);
      crc := Xor(crc, Widen(data[i]));
      ghost var x := crc;
      ShiftNStart(x);
      Shift8IsShiftN(x);
      for j := 0 to 8
        invariant crc == ShiftN(x, j)
      {
        ShiftNStep(x, j);
        if crc & 1 == 1 {
          crc := (crc >> 1) ^ POLYNOMIAL;
        } else {
          crc := crc >> 1;
        }
      }
      i := i + 1;
    }
    FeedNothing(crc, data[i..]);
    r := crc ^ 0xFFFFFFFF;
  }

  lemma ShiftNStart(x: bv32)
    ensures ShiftN(x, 0) == x
  {}

  lemma ShiftNStep(x: bv32, j: nat)
    ensures ShiftN(x, j + 1) == Shift(ShiftN(x, j))
  {}

  lemma FeedStep(crc: bv32, data: seq<bv8>, i: nat)
    requires i < |data|
    ensures Feed(crc, data[i..]) == Feed(Shift8(Xor(crc, Widen(data[i]))), data[i + 1..])
  {
    hide Shift8, Xor;
    assert data[i..][1..] == data[i + 1..];
  }

  lemma FeedNothing(crc: bv32, data: seq<bv8>)
    requires data == []
    ensures Feed(crc, data) == crc
  {}

  /** The boot library's table-driven CRC, in a 64-bit register of which the upper half stays zero. */
  method CalculateCrc(data: seq<bv8>) returns (r: bv32)
    ensures r == Crc32(data)
  {
    hide Shift8, CrcTable, Feed, Xor, Index, Down8, Widen, Wide;
    var crc: bv64 := 0xFFFFFFFF;
    var i := 0;
    ghost var reg: bv32 := 0xFFFFFFFF;
    WideStart();
    while i < |data|
      invariant 0 <= i <= |data| && crc == Wide(reg)
      invariant Feed(reg, data[i..]) == Feed(0xFFFFFFFF, data)
    {
      TableStep(reg, data[i]);
      FeedStep(reg, data, i);
      crc := Lookup(crc, data[i], reg);
      reg := Xor(Down8(reg), CrcTable(Index(reg, data[i])));
      i := i + 1;
    }
    FeedNothing(reg, data[i..]);
    WideEnd(crc, reg);
    r := ((crc ^ 0xFFFFFFFF) & 0xFFFFFFFF) as bv32;
  }

  /** The body of the loop; reg is the register without its zero upper half. */
  method Lookup(crc: bv64, b: bv8, ghost reg: bv32) returns (next: bv64)
    requires crc == Wide(reg)
    ensures next == Wide(Xor(Down8(reg), CrcTable(Index(reg, b))))
  {
    hide CrcTable;
    WideIndex(crc, reg, b);
    var t := CrcTable((crc & 0xff) as bv8 ^ b);
    WideStep(crc, reg, t);
    next := (crc >> 8) ^ (t as bv64);
  }

  function Wide(reg: bv32): bv64 { reg as bv64 }

  lemma WideStart()
    ensures Wide(0xFFFFFFFF) == 0xFFFFFFFF
  {}

  lemma WideIndex(crc: bv64, reg: bv32, b: bv8)
    requires crc == Wide(reg)
    ensures (crc & 0xff) as bv8 ^ b == Index(reg, b)
  {}

  lemma WideStep(crc: bv64, reg: bv32, t: bv32)
    requires crc == Wide(reg)
    ensures (crc >> 8) ^ (t as bv64) == Wide(Xor(Down8(reg), t))
  {}

  lemma WideEnd(crc: bv64, reg: bv32)
    requires crc == Wide(reg)
    ensures ((crc ^ 0xFFFFFFFF) & 0xFFFFFFFF) as bv32 == reg ^ 0xFFFFFFFF
  {}
}
