/** Cluster chains over the allocation table, and what writing a file does to them and to the disk. */
module FatChains {
  import opened Bits
  import opened Counting
  import opened FatTable
  import opened Wrappers

  const SECTOR_SIZE: nat := 512

  type Sector = s: seq<Byte> | |s| == SECTOR_SIZE witness seq(SECTOR_SIZE, _ => 0)

  /** The fields of the boot sector that fix the layout of the volume. */
  datatype BootSector = BootSector(
    bytesPerSector: nat, sectorsPerCluster: nat, reservedSectorCount: nat, tableCount: nat,
    rootEntryCount: nat, totalSectors16: nat, totalSectors32: nat, tableSize16: nat)
  {
    function TotalSectors(): (n: nat)
      ensures totalSectors16 == 0 || totalSectors32 == 0 ==> n == totalSectors16 + totalSectors32
    {
      if totalSectors16 == 0 then totalSectors32 else totalSectors16
    }

    function RootDirSectors(): nat
      requires bytesPerSector > 0
    {
      (rootEntryCount * 32 + (bytesPerSector - 1)) / bytesPerSector
    }

    function FirstDataSector(): nat
      requires bytesPerSector > 0
    {
      reservedSectorCount + tableCount * tableSize16 + RootDirSectors()
    }

    function FirstFatSector(): nat { reservedSectorCount }

    function FirstRootDirSector(): nat
      requires bytesPerSector > 0
    {
      FirstDataSector() - RootDirSectors()
    }

    /** In 64-bit unsigned arithmetic; a volume too small for its own tables would wrap. */
    function DataSectors(): nat
      requires bytesPerSector > 0 && FirstDataSector() <= TotalSectors()
    {
      TotalSectors() - FirstDataSector()
    }

    function TotalClusters(): nat
      requires bytesPerSector > 0 && FirstDataSector() <= TotalSectors() && sectorsPerCluster > 0
    {
      DataSectors() / sectorsPerCluster
    }

    function FirstSectorOfCluster(cluster: nat): nat
      requires bytesPerSector > 0 && cluster >= 2
    {
      (cluster - 2) * sectorsPerCluster + FirstDataSector()
    }

    /** Sector k is reserved, belongs to an allocation table, or holds entries of the root directory, 32
        bytes each. */
    predicate BeforeData(k: nat) {
      var tables := reservedSectorCount + tableCount * tableSize16;
      k < tables || (k - tables) * bytesPerSector < rootEntryCount * 32
    }

    /** A boot sector the geometry functions are defined on. */
    predicate Sound() {
      bytesPerSector > 0 && sectorsPerCluster > 0 && FirstDataSector() <= TotalSectors()
    }

    /** Cluster numbers are 2 .. Limit() - 1. */
    function Limit(): nat
      requires Sound()
    {
      TotalClusters() + 2
    }

    /** section 3.5 of the FAT Specification: the cluster count alone fixes the type. */
    function Ident(): FatType
      requires bytesPerSector > 0 ==> Sound()
    {
      if bytesPerSector == 0 then ExFAT
      else if TotalClusters() < 4085 then FAT12
      else if TotalClusters() < 65525 then FAT16
      else FAT32
    }
  }

  datatype FatType = FAT12 | FAT16 | FAT32 | ExFAT

  /** The table, the sectors, and the layout. */
  datatype Volume = Volume(entries: seq<nat>, disk: seq<Sector>, bs: BootSector)

  /** A FAT12 volume the table and the disk have room for.  Entries 0 and 1 are reserved, not free. */
  ghost predicate Formatted(v: Volume) {
    && v.bs.Sound() && v.bs.Ident() == FAT12
    && v.bs.TotalSectors() <= |v.disk|
    && v.bs.Limit() <= |v.entries|
    && v.entries[0] != 0 && v.entries[1] != 0
  }

  /** Every cluster lies inside the volume, and different clusters have different sectors.  On a FAT12
      volume no cluster number collides with the end-of-chain mark. */
  lemma ClusterSectors(v: Volume, c: nat, d: nat)
    requires Formatted(v) && 2 <= c < v.bs.Limit() && 2 <= d < v.bs.Limit()
    ensures v.bs.FirstSectorOfCluster(c) + v.bs.sectorsPerCluster <= v.bs.TotalSectors()
    ensures c < d ==> v.bs.FirstSectorOfCluster(c) + v.bs.sectorsPerCluster <= v.bs.FirstSectorOfCluster(d)
    ensures c < END_OF_CHAIN
  {
    var n, s := v.bs.TotalClusters(), v.bs.sectorsPerCluster;
    assert n * s <= v.bs.DataSectors();
    MulMonotone(c - 1, n, s);
    if c < d { MulMonotone(c - 1, d - 2, s); }
    assert (c - 2) * s + s == (c - 1) * s;
  }

  /** Rounding up: n units are too few for x exactly when n is below the quotient. */
  lemma Ceiling(x: nat, unit: nat, n: nat)
    requires unit > 0
    ensures n * unit < x <==> n < (x + (unit - 1)) / unit
  {
    var q := (x + (unit - 1)) / unit;
    assert q * unit <= x + (unit - 1) < q * unit + unit;
    if n < q { MulMonotone(n + 1, q, unit); } else { MulMonotone(q, n, unit); }
  }

  /** j units fit into d exactly up to the quotient. */
  lemma Units(d: nat, unit: nat, j: nat)
    requires unit > 0
    ensures j * unit <= d <==> j <= d / unit
  {
    var q := d / unit;
    assert q * unit <= d < q * unit + unit;
    if j <= q { MulMonotone(j, q, unit); } else { MulMonotone(q + 1, j, unit); }
  }

  /** The data area is all that follows the reserved sectors, the tables and the root directory. */
  lemma DataStarts(bs: BootSector, k: nat)
    requires bs.Sound()
    ensures bs.BeforeData(k) <==> k < bs.FirstDataSector()
  {
    var tables := bs.reservedSectorCount + bs.tableCount * bs.tableSize16;
    if k >= tables { Ceiling(bs.rootEntryCount * 32, bs.bytesPerSector, k - tables); }
  }

  /** Reserved sectors, tables, root directory and data area follow one another: what the kernel reads as
      the first table and as the root directory lies before the data area, the one behind the reserved
      sectors and the other behind all tables, and no sector is in both. */
  lemma AreasFollow(bs: BootSector, k: nat)
    requires bs.Sound()
    ensures bs.tableCount > 0 && bs.FirstFatSector() <= k < bs.FirstFatSector() + bs.tableSize16
            ==> bs.reservedSectorCount <= k < bs.FirstRootDirSector()
    ensures bs.FirstRootDirSector() == bs.reservedSectorCount + bs.tableCount * bs.tableSize16
    ensures bs.FirstRootDirSector() <= k < bs.FirstRootDirSector() + bs.RootDirSectors()
       <==> bs.FirstRootDirSector() <= k && bs.BeforeData(k)
  {
    DataStarts(bs, k);
    if bs.tableCount > 0 { MulMonotone(1, bs.tableCount, bs.tableSize16); }
  }

  /** It starts with cluster 2, the clusters follow one another without gaps, and there are as many as
      fit. */
  lemma DataArea(bs: BootSector, k: nat, c: nat)
    requires bs.Sound() && c >= 2
    ensures bs.BeforeData(k) <==> k < bs.FirstSectorOfCluster(2)
    ensures bs.FirstSectorOfCluster(c + 1) == bs.FirstSectorOfCluster(c) + bs.sectorsPerCluster
    ensures c < bs.Limit() <==> bs.FirstSectorOfCluster(c) + bs.sectorsPerCluster <= bs.TotalSectors()
  {
    hide BootSector.FirstDataSector, BootSector.BeforeData;
    var s := bs.sectorsPerCluster;
    DataStarts(bs, k);
    NextMultiple(c - 2, s);
    Units(bs.DataSectors(), s, c - 1);
  }

  lemma NextMultiple(j: nat, s: nat)
    ensures (j + 1) * s == j * s + s && 0 * s == 0
  {}

  /** Every sector from there on lies in exactly one cluster, counting those that do not fit. */
  lemma ClusterOfSector(bs: BootSector, k: nat, c: nat)
    requires bs.Sound() && !bs.BeforeData(k) && c >= 2
    ensures k >= bs.FirstSectorOfCluster(2)
    ensures bs.FirstSectorOfCluster(c) <= k < bs.FirstSectorOfCluster(c) + bs.sectorsPerCluster
       <==> c == 2 + (k - bs.FirstSectorOfCluster(2)) / bs.sectorsPerCluster
  {
    hide BootSector.FirstDataSector, BootSector.BeforeData;
    var s := bs.sectorsPerCluster;
    DataStarts(bs, k);
    NextMultiple(c - 2, s);
    Units(k - bs.FirstDataSector(), s, c - 2);
    Units(k - bs.FirstDataSector(), s, c - 1);
  }

  /** The type is the narrowest one in which all cluster numbers lie below the reserved marks, which start
      at 0xFF6 in 12 bits and at 0xFFF6 in 16. */
  lemma IdentExact(bs: BootSector)
    requires bs.Sound()
    ensures bs.Ident() == FAT12 <==> bs.Limit() <= 0xFF6
    ensures bs.Ident() == FAT16 <==> 0xFF6 < bs.Limit() <= 0xFFF6
  {}

  lemma MulMonotone(a: nat, b: nat, s: nat)
    requires a <= b
    ensures a * s <= b * s
  {
    assert b * s == a * s + (b - a) * s;
  }

  // ----- chains

  /** cs is the chain that starts at c: each entry names the next cluster, the last holds 4095. */
  ghost predicate IsChain(e: seq<nat>, c: nat, cs: seq<nat>)
    decreases |cs|
  {
    if cs == [] then c == END_OF_CHAIN
    else cs[0] == c && 2 <= c < |e| && c != END_OF_CHAIN && IsChain(e, e[c], cs[1..])
  }

  /** A cluster starts at most one chain. */
  lemma {:induction false} ChainUnique(e: seq<nat>, c: nat, cs: seq<nat>, ds: seq<nat>)
    requires IsChain(e, c, cs) && IsChain(e, c, ds)
    ensures cs == ds
    decreases |cs|
  {
    if cs != [] { ChainUnique(e, e[c], cs[1..], ds[1..]); }
  }

  lemma {:induction false} ChainSuffix(e: seq<nat>, c: nat, cs: seq<nat>, i: nat)
    requires IsChain(e, c, cs) && i < |cs|
    ensures IsChain(e, cs[i], cs[i..]) && 2 <= cs[i] < |e| && cs[i] != END_OF_CHAIN && e[cs[i]] != 0
    decreases i
  {
    if i > 0 {
      ChainSuffix(e, e[c], cs[1..], i - 1);
      assert cs[1..][i - 1..] == cs[i..];
    } else if |cs| > 1 {
      assert cs[1..][0] == e[c];
    }
  }

  /** Terminated chains are acyclic. */
  lemma ChainAcyclic(e: seq<nat>, c: nat, cs: seq<nat>, i: nat, j: nat)
    requires IsChain(e, c, cs) && i < j < |cs|
    ensures cs[i] != cs[j]
  {
    ChainSuffix(e, c, cs, i);
    ChainSuffix(e, c, cs, j);
    if cs[i] == cs[j] { ChainUnique(e, cs[i], cs[i..], cs[j..]); }
  }

  /** A chain depends on the entries of its own clusters only. */
  lemma {:induction false} ChainKept(e: seq<nat>, e': seq<nat>, c: nat, cs: seq<nat>)
    requires IsChain(e, c, cs) && |e'| == |e|
    requires forall x :: x in cs ==> x >= |e| || e'[x] == e[x]
    ensures IsChain(e', c, cs)
    decreases |cs|
  {
    if cs != [] {
      assert c in cs;
      ChainKept(e, e', e[c], cs[1..]);
    }
  }

  /** Where cluster c's data lies, if it lies on the disk. */
  predicate OnDisk(v: Volume, c: nat) {
    v.bs.bytesPerSector > 0 && 2 <= c && v.bs.FirstSectorOfCluster(c) < |v.disk|
  }

  function SectorAt(v: Volume, c: nat): seq<Byte> {
    if OnDisk(v, c) then v.disk[v.bs.FirstSectorOfCluster(c)] else []
  }

  /** The contents of a chain, one sector per cluster. */
  function Data(v: Volume, cs: seq<nat>): seq<Byte> {
    if cs == [] then [] else SectorAt(v, cs[0]) + Data(v, cs[1..])
  }

  /** The lowest free cluster at or after `from`. */
  function FirstFree(e: seq<nat>, from: nat): (c: Option<nat>)
    requires from <= |e|
    ensures c.None? ==> forall x :: from <= x < |e| ==> e[x] != 0
    ensures c.Some? ==> from <= c.value < |e| && e[c.value] == 0
    ensures c.Some? ==> forall x :: from <= x < c.value ==> e[x] != 0
    decreases |e| - from
  {
    if from == |e| then None else if e[from] == 0 then Some(from) else FirstFree(e, from + 1)
  }

  /** How many clusters below `limit` are free. */
  function FreeBelow(e: seq<nat>, limit: nat): (n: nat)
    requires limit <= |e|
  {
    if limit == 0 then 0 else FreeBelow(e, limit - 1) + (if e[limit - 1] == 0 then 1 else 0)
  }

  lemma {:induction false} FreeUpdate(e: seq<nat>, limit: nat, x: nat, y: nat)
    requires limit <= |e| && x < |e|
    ensures FreeBelow(e[x := y], limit)
         == FreeBelow(e, limit) - (if x < limit && e[x] == 0 then 1 else 0) + (if x < limit && y == 0 then 1 else 0)
    decreases limit
  {
    if limit > 0 { FreeUpdate(e, limit - 1, x, y); }
  }

  lemma {:induction false} FreeExists(e: seq<nat>, limit: nat)
    requires limit <= |e| && FreeBelow(e, limit) > 0
    ensures FirstFree(e, 0).Some? && FirstFree(e, 0).value < limit
    decreases limit
  {
    if e[limit - 1] != 0 { FreeExists(e, limit - 1); }
    else if FirstFree(e, 0).Some? { assert FirstFree(e, 0).value <= limit - 1; }
  }

  /** Sectors a file of this size takes: at least one. */
  function SectorCount(size: nat): nat {
    if size == 0 then 1 else (size + SECTOR_SIZE - 1) / SECTOR_SIZE
  }

  lemma SectorCountStep(size: nat)
    ensures size <= SECTOR_SIZE ==> SectorCount(size) == 1
    ensures size > SECTOR_SIZE ==> SectorCount(size) == 1 + SectorCount(size - SECTOR_SIZE)
  {}

  function PutSector(v: Volume, c: nat, data: seq<Byte>): Volume {
    if OnDisk(v, c) && |data| >= SECTOR_SIZE
    then v.(disk := v.disk[v.bs.FirstSectorOfCluster(c) := data[..SECTOR_SIZE]])
    else v
  }

  function Drop(data: seq<Byte>): seq<Byte> {
    if |data| >= SECTOR_SIZE then data[SECTOR_SIZE..] else []
  }

  /** The outcome of a write: the volume, and the clusters written in order. */
  datatype Written = Written(v: Volume, cs: seq<nat>)

  /** The loop of write_fat_cluster_chain from a state with `size` bytes to go. */
  function WriteLoop(v: Volume, c: nat, data: seq<Byte>, size: nat): Written
    decreases size
  {
    if size <= SECTOR_SIZE || c >= |v.entries| then Written(PutSector(v, c, data), [c])
    else match FirstFree(v.entries, 0)
         case None => Written(v, [c])
         case Some(n) =>
           var linked := v.(entries := v.entries[n := END_OF_CHAIN][c := n % 0x1000]);
           var w := WriteLoop(PutSector(linked, c, data), n, Drop(data), size - SECTOR_SIZE);
           Written(w.v, [c] + w.cs)
  }

  function WriteChain(v: Volume, c: nat, data: seq<Byte>, size: nat): Written {
    if size <= SECTOR_SIZE && c < |v.entries|
    then Written(PutSector(v.(entries := v.entries[c := END_OF_CHAIN]), c, data), [c])
    else WriteLoop(v, c, data, size)
  }

  /** A write that can be carried out: a legal start cluster, enough other free clusters of legal
      number, and a whole number of sectors of readable data. */
  ghost predicate CanWrite(v: Volume, c: nat, data: seq<Byte>, size: nat) {
    && Formatted(v)
    && 2 <= c < v.bs.Limit()
    && FreeBelow(v.entries, v.bs.Limit()) >= SectorCount(size) - 1 + (if v.entries[c] == 0 then 1 else 0)
    && |data| >= SectorCount(size) * SECTOR_SIZE
  }

  /** A good outcome: the clusters form the chain of c, hold the data sector by sector, all but the
      first were free, and nothing else on the volume changed. */
  ghost predicate Stored(v: Volume, c: nat, data: seq<Byte>, n: nat, w: Written)
    requires Formatted(v)
  {
    && w.v.bs == v.bs && |w.v.entries| == |v.entries| && |w.v.disk| == |v.disk|
    && |w.cs| == n && n > 0 && w.cs[0] == c
    && IsChain(w.v.entries, c, w.cs)
    && (forall x :: x in w.cs ==> x < v.bs.Limit())
    && (forall i :: 0 < i < n ==> w.cs[i] < |v.entries| && v.entries[w.cs[i]] == 0)
    && |data| >= n * SECTOR_SIZE && Data(w.v, w.cs) == data[..n * SECTOR_SIZE]
    && SameOutside(v, w.v, w.cs)
  }

  /** Entries and sectors of all clusters outside cs are the same. */
  ghost predicate SameOutside(v: Volume, v': Volume, cs: seq<nat>)
    requires v.bs == v'.bs && v.bs.Sound() && v.bs.Limit() <= |v.entries| == |v'.entries|
  {
    && (forall x :: 0 <= x < |v.entries| && x !in cs ==> v'.entries[x] == v.entries[x])
    && (forall x :: 2 <= x < v.bs.Limit() && x !in cs ==> SectorAt(v', x) == SectorAt(v, x))
  }

  lemma PutSectorReads(v: Volume, c: nat, data: seq<Byte>, x: nat)
    requires Formatted(v) && 2 <= c < v.bs.Limit() && |data| >= SECTOR_SIZE && 2 <= x < v.bs.Limit()
    ensures SectorAt(PutSector(v, c, data), x) == if x == c then data[..SECTOR_SIZE] else SectorAt(v, x)
  {
    hide Formatted;
    ClusterSectors(v, c, x);
    ClusterSectors(v, x, c);
    RoomOnDisk(v);
  }

  lemma RoomOnDisk(v: Volume)
    requires Formatted(v)
    ensures v.bs.Limit() <= |v.entries|
    ensures v.bs.bytesPerSector > 0 && v.bs.sectorsPerCluster > 0 && v.bs.TotalSectors() <= |v.disk|
  {}

  /** Data depends on the sectors of its own clusters only. */
  lemma {:induction false} DataKept(v: Volume, v': Volume, cs: seq<nat>)
    requires forall x :: x in cs ==> SectorAt(v', x) == SectorAt(v, x)
    ensures Data(v', cs) == Data(v, cs)
  {
    if cs != [] { DataKept(v, v', cs[1..]); }
  }

  /** One round of the write loop keeps its own preconditions. */
  lemma LinkNext(v: Volume, c: nat, data: seq<Byte>, size: nat)
    requires CanWrite(v, c, data, size) && size > SECTOR_SIZE
    ensures FirstFree(v.entries, 0).Some?
    ensures var n := FirstFree(v.entries, 0).value;
            var v1 := PutSector(v.(entries := v.entries[n := END_OF_CHAIN][c := n % 0x1000]), c, data);
            && 2 <= n < v.bs.Limit() && n % 0x1000 == n && n != END_OF_CHAIN && v.entries[n] == 0
            && v1.bs == v.bs && |v1.disk| == |v.disk|
            && v1.entries == v.entries[n := END_OF_CHAIN][c := n]
            && CanWrite(v1, n, Drop(data), size - SECTOR_SIZE) && FirstFree(v1.entries, 0) != Some(n)
            && (forall x :: 2 <= x < v.bs.Limit() ==>
                  SectorAt(v1, x) == if x == c then data[..SECTOR_SIZE] else SectorAt(v, x))
  {
    hide BootSector.RootDirSectors, BootSector.TotalSectors, BootSector.FirstDataSector;
    var e, limit := v.entries, v.bs.Limit();
    SectorCountStep(size);
    FreeExists(e, limit);
    var n := FirstFree(e, 0).value;
    ClusterSectors(v, n, n);
    FreeUpdate(e, limit, n, END_OF_CHAIN);
    FreeUpdate(e[n := END_OF_CHAIN], limit, c, n);
    var linked := v.(entries := e[n := END_OF_CHAIN][c := n]);
    forall x | 2 <= x < limit
      ensures SectorAt(PutSector(linked, c, data), x) == if x == c then data[..SECTOR_SIZE] else SectorAt(v, x)
    {
      PutSectorReads(linked, c, data, x);
    }
  }

  lemma LoopEnd(v: Volume, c: nat, data: seq<Byte>, size: nat)
    requires CanWrite(v, c, data, size) && size <= SECTOR_SIZE && v.entries[c] == END_OF_CHAIN
    ensures Stored(v, c, data, 1, Written(PutSector(v, c, data), [c]))
  {
    var v' := PutSector(v, c, data);
    SectorCountStep(size);
    ClusterSectors(v, c, c);
    forall x | 2 <= x < v.bs.Limit()
      ensures SectorAt(v', x) == if x == c then data[..SECTOR_SIZE] else SectorAt(v, x)
    {
      PutSectorReads(v, c, data, x);
    }
    assert Data(v', [c]) == SectorAt(v', c) + Data(v', []);
    assert IsChain(v'.entries, END_OF_CHAIN, [c][1..]);
  }

  lemma {:induction false} LoopStores(v: Volume, c: nat, data: seq<Byte>, size: nat)
    requires CanWrite(v, c, data, size) && FirstFree(v.entries, 0) != Some(c)
    requires size <= SECTOR_SIZE ==> v.entries[c] == END_OF_CHAIN
    ensures Stored(v, c, data, SectorCount(size), WriteLoop(v, c, data, size))
    decreases size
  {
    hide Stored, SectorAt, Data, IsChain, FreeBelow, SectorCount, Formatted;
    hide BootSector.Limit, BootSector.RootDirSectors, BootSector.FirstDataSector, BootSector.TotalSectors, OnDisk;
    RoomOnDisk(v);
    SectorCountStep(size);
    if size <= SECTOR_SIZE {
      LoopEnd(v, c, data, size);
    } else {
      LinkNext(v, c, data, size);
      var n := FirstFree(v.entries, 0).value;
      var v1 := PutSector(v.(entries := v.entries[n := END_OF_CHAIN][c := n % 0x1000]), c, data);
      LoopStores(v1, n, Drop(data), size - SECTOR_SIZE);
      Prepend(v, c, data, v1, n, SectorCount(size - SECTOR_SIZE), WriteLoop(v1, n, Drop(data), size - SECTOR_SIZE));
    }
  }

  lemma Prepend(v: Volume, c: nat, data: seq<Byte>, v1: Volume, n: nat, k: nat, w: Written)
    requires Formatted(v) && 2 <= c < v.bs.Limit()
    requires 2 <= n < v.bs.Limit() && n != c && n != END_OF_CHAIN && v.entries[n] == 0
    requires v1.bs == v.bs && |v1.disk| == |v.disk| && v1.entries == v.entries[n := END_OF_CHAIN][c := n]
    requires |data| >= SECTOR_SIZE
    requires forall x :: 2 <= x < v.bs.Limit() ==>
               SectorAt(v1, x) == if x == c then data[..SECTOR_SIZE] else SectorAt(v, x)
    requires Formatted(v1) && Stored(v1, n, Drop(data), k, w)
    ensures Stored(v, c, data, k + 1, Written(w.v, [c] + w.cs))
  {
    ClusterSectors(v, c, n);
    assert c < |v.entries| && n < |v.entries|;
    hide Formatted, Data, IsChain, SectorAt, OnDisk;
    assert v1.entries[c] == n && v1.entries[n] == END_OF_CHAIN;
    var cs := [c] + w.cs;
    assert c !in w.cs by {
      forall i | 0 <= i < |w.cs|
        ensures w.cs[i] != c
      {
        if i > 0 { assert v1.entries[w.cs[i]] == 0; }
      }
    }
    assert SectorAt(w.v, c) == data[..SECTOR_SIZE];
    PrependData(w.v, c, w.cs, data, k);
    PrependChain(w.v.entries, c, w.cs);
    forall i | 0 < i < k + 1
      ensures cs[i] < |v.entries| && v.entries[cs[i]] == 0
    {
      assert cs[i] == w.cs[i - 1];
      if i > 1 { assert v1.entries[cs[i]] == 0; }
    }
  }

  lemma PrependChain(e: seq<nat>, c: nat, cs: seq<nat>)
    requires 2 <= c < |e| && c != END_OF_CHAIN && IsChain(e, e[c], cs)
    ensures IsChain(e, c, [c] + cs)
  {
    assert ([c] + cs)[1..] == cs;
  }

  lemma PrependData(v: Volume, c: nat, cs: seq<nat>, data: seq<Byte>, k: nat)
    requires |data| >= SECTOR_SIZE && |Drop(data)| >= k * SECTOR_SIZE
    requires SectorAt(v, c) == data[..SECTOR_SIZE] && Data(v, cs) == Drop(data)[..k * SECTOR_SIZE]
    ensures |data| >= (k + 1) * SECTOR_SIZE && Data(v, [c] + cs) == data[..(k + 1) * SECTOR_SIZE]
  {
    assert ([c] + cs)[1..] == cs;
  }

  /** Only the first sectors of the clusters written change. */
  lemma {:induction false} LoopTouches(v: Volume, c: nat, data: seq<Byte>, size: nat, k: nat)
    requires k < |v.disk| && v.bs.bytesPerSector > 0
    requires forall x :: x in WriteLoop(v, c, data, size).cs && x >= 2 ==> v.bs.FirstSectorOfCluster(x) != k
    ensures var w := WriteLoop(v, c, data, size).v; w.bs == v.bs && |w.disk| == |v.disk| && w.disk[k] == v.disk[k]
    decreases size
  {
    assert c in WriteLoop(v, c, data, size).cs by { LoopHead(v, c, data, size); }
    if size > SECTOR_SIZE && c < |v.entries| && FirstFree(v.entries, 0).Some? {
      var n := FirstFree(v.entries, 0).value;
      var v1 := PutSector(v.(entries := v.entries[n := END_OF_CHAIN][c := n % 0x1000]), c, data);
      LoopTouches(v1, n, Drop(data), size - SECTOR_SIZE, k);
    }
  }

  lemma WriteTouches(v: Volume, c: nat, data: seq<Byte>, size: nat, k: nat)
    requires k < |v.disk| && v.bs.bytesPerSector > 0
    requires forall x :: x in WriteChain(v, c, data, size).cs && x >= 2 ==> v.bs.FirstSectorOfCluster(x) != k
    ensures var w := WriteChain(v, c, data, size).v; w.bs == v.bs && |w.disk| == |v.disk| && w.disk[k] == v.disk[k]
  {
    hide BootSector.FirstDataSector;
    if size <= SECTOR_SIZE && c < |v.entries| {
      assert c in WriteChain(v, c, data, size).cs;
    } else {
      LoopTouches(v, c, data, size, k);
    }
  }

  /** No sector of the reserved area, the tables or the root directory is one of them. */
  ghost predicate SameBeforeData(v: Volume, v': Volume) {
    && v'.bs == v.bs && |v'.disk| == |v.disk|
    && forall k :: 0 <= k < |v.disk| && v.bs.BeforeData(k) ==> v'.disk[k] == v.disk[k]
  }

  lemma WriteKeepsLayout(v: Volume, c: nat, data: seq<Byte>, size: nat)
    requires Formatted(v)
    ensures SameBeforeData(v, WriteChain(v, c, data, size).v)
  {
    var w := WriteChain(v, c, data, size);
    hide WriteChain, BootSector.BeforeData, BootSector.FirstDataSector;
    WriteShape(v, c, data, size);
    forall k | 0 <= k < |v.disk| && v.bs.BeforeData(k)
      ensures w.v.disk[k] == v.disk[k]
    {
      forall x | x in w.cs && x >= 2
        ensures v.bs.FirstSectorOfCluster(x) != k
      {
        DataStarts(v.bs, k);
      }
      WriteTouches(v, c, data, size, k);
    }
  }

  lemma SameTwice(v: Volume, v': Volume, v'': Volume)
    requires SameBeforeData(v, v') && SameBeforeData(v', v'')
    ensures SameBeforeData(v, v'')
  {}

  lemma CreateKeepsLayout(v: Volume, f: File)
    requires Formatted(v)
    ensures SameBeforeData(v, Create(v, f).v)
  {
    hide WriteChain, BootSector.BeforeData;
    match FirstFree(v.entries, 0)
    case None =>
    case Some(c) => WriteKeepsLayout(v.(entries := v.entries[c := END_OF_CHAIN]), c, f.data, f.size);
  }

  /** The contents of consecutive sectors. */
  function Sectors(disk: seq<Sector>, first: nat, count: nat): (s: seq<Byte>)
    requires first + count <= |disk|
    ensures |s| == count * SECTOR_SIZE
  {
    if count == 0 then [] else Sectors(disk, first, count - 1) + disk[first + count - 1]
  }

  lemma {:induction false} SectorsKept(disk: seq<Sector>, disk': seq<Sector>, first: nat, count: nat)
    requires first + count <= |disk| == |disk'|
    requires forall k :: first <= k < first + count ==> disk'[k] == disk[k]
    ensures Sectors(disk', first, count) == Sectors(disk, first, count)
    decreases count
  {
    if count > 0 { SectorsKept(disk, disk', first, count - 1); }
  }

  /** What the disk holds of the root directory. */
  ghost function RootOnDisk(v: Volume): seq<Byte>
    requires Formatted(v)
  {
    Sectors(v.disk, v.bs.FirstRootDirSector(), v.bs.RootDirSectors())
  }

  lemma RootKept(v: Volume, v': Volume)
    requires Formatted(v) && Formatted(v') && SameBeforeData(v, v')
    ensures RootOnDisk(v') == RootOnDisk(v)
  {
    hide BootSector.BeforeData;
    var first, count := v.bs.FirstRootDirSector(), v.bs.RootDirSectors();
    forall k | first <= k < first + count ensures v'.disk[k] == v.disk[k] { DataStarts(v.bs, k); }
    SectorsKept(v.disk, v'.disk, first, count);
  }

  lemma {:induction false} LoopShape(v: Volume, c: nat, data: seq<Byte>, size: nat)
    ensures var w := WriteLoop(v, c, data, size).v; w.bs == v.bs && |w.disk| == |v.disk|
    decreases size
  {
    if size > SECTOR_SIZE && c < |v.entries| && FirstFree(v.entries, 0).Some? {
      var n := FirstFree(v.entries, 0).value;
      var v1 := PutSector(v.(entries := v.entries[n := END_OF_CHAIN][c := n % 0x1000]), c, data);
      LoopShape(v1, n, Drop(data), size - SECTOR_SIZE);
    }
  }

  lemma WriteShape(v: Volume, c: nat, data: seq<Byte>, size: nat)
    ensures var w := WriteChain(v, c, data, size).v; w.bs == v.bs && |w.disk| == |v.disk|
  {
    LoopShape(v, c, data, size);
  }

  /** With room, exactly when a write succeeds: always for one sector, and for more if the start cluster
      is not itself the lowest free one, as a start cluster marked used never is. */
  lemma WriteWithRoom(v: Volume, c: nat, data: seq<Byte>, size: nat)
    requires CanWrite(v, c, data, size)
    ensures Stored(v, c, data, SectorCount(size), WriteChain(v, c, data, size))
       <==> size <= SECTOR_SIZE || FirstFree(v.entries, 0) != Some(c)
  {
    var w := WriteChain(v, c, data, size);
    if size <= SECTOR_SIZE {
      SectorCountStep(size);
      var marked := v.(entries := v.entries[c := END_OF_CHAIN]);
      FreeUpdate(v.entries, v.bs.Limit(), c, END_OF_CHAIN);
      LoopEnd(marked, c, data, size);
    } else if FirstFree(v.entries, 0) != Some(c) {
      LoopStores(v, c, data, size);
    } else {
      LoopHead(PutSector(v.(entries := v.entries[c := END_OF_CHAIN][c := c % 0x1000]), c, data),
               c, Drop(data), size - SECTOR_SIZE);
      assert w.cs[0] == c == w.cs[1];
      if IsChain(w.v.entries, c, w.cs) { ChainAcyclic(w.v.entries, c, w.cs, 0, 1); }
    }
  }

  ghost function FreeClusters(e: seq<nat>, limit: nat): set<nat>
    requires limit <= |e|
  {
    set x | 0 <= x < limit && e[x] == 0
  }

  lemma {:induction false} FreeClusterCount(e: seq<nat>, limit: nat)
    requires limit <= |e|
    ensures |FreeClusters(e, limit)| == FreeBelow(e, limit)
  {
    if limit == 0 {
      assert FreeClusters(e, limit) == {};
    } else {
      var last := limit - 1;
      FreeClusterCount(e, last);
      assert FreeClusters(e, limit) == FreeClusters(e, last) + if e[last] == 0 then {last} else {};
      assert last !in FreeClusters(e, last);
    }
  }

  /** The free clusters a write of this size takes: one for each further sector, and the start cluster if
      it was free. */
  function Room(v: Volume, c: nat, size: nat): nat
    requires c < |v.entries|
  {
    SectorCount(size) - 1 + if v.entries[c] == 0 then 1 else 0
  }

  /** No outcome whatever stores a file in fewer free clusters than that. */
  lemma StoredNeedsRoom(v: Volume, c: nat, data: seq<Byte>, size: nat, w: Written)
    requires Formatted(v) && 2 <= c < v.bs.Limit()
    requires Stored(v, c, data, SectorCount(size), w)
    ensures FreeBelow(v.entries, v.bs.Limit()) >= Room(v, c, size)
  {
    hide Data, SectorAt, FreeBelow, BootSector.Limit;
    var e, limit := v.entries, v.bs.Limit();
    var taken := if e[c] == 0 then w.cs else w.cs[1..];
    forall i, j | 0 <= i < j < |w.cs| ensures w.cs[i] != w.cs[j] {
      ChainAcyclic(w.v.entries, c, w.cs, i, j);
    }
    assert NoRepeats(taken);
    forall x | x in taken ensures x in FreeClusters(e, limit) {
      if e[c] == 0 && x == c {
      } else {
        assert x in w.cs && x < limit;
        var i :| 0 < i < |w.cs| && w.cs[i] == x;
        assert e[w.cs[i]] == 0;
      }
    }
    DistinctCount(taken);
    SubsetSize(Elements(taken), FreeClusters(e, limit));
    FreeClusterCount(e, limit);
  }

  /** Exactly when a write succeeds, on any formatted volume, full ones included: there must be enough
      free clusters, and a file of more than one sector must not start at the lowest free cluster. */
  lemma WriteExact(v: Volume, c: nat, data: seq<Byte>, size: nat)
    requires Formatted(v) && 2 <= c < v.bs.Limit() && |data| >= SectorCount(size) * SECTOR_SIZE
    ensures Stored(v, c, data, SectorCount(size), WriteChain(v, c, data, size))
       <==> && (size <= SECTOR_SIZE || FirstFree(v.entries, 0) != Some(c))
            && FreeBelow(v.entries, v.bs.Limit()) >= Room(v, c, size)
  {
    hide Stored, WriteChain, Formatted, FirstFree, FreeBelow, SectorCount;
    RoomOnDisk(v);
    if FreeBelow(v.entries, v.bs.Limit()) >= Room(v, c, size) {
      WriteWithRoom(v, c, data, size);
    } else if Stored(v, c, data, SectorCount(size), WriteChain(v, c, data, size)) {
      StoredNeedsRoom(v, c, data, size, WriteChain(v, c, data, size));
    }
  }

  /** On a full volume nothing of more than one sector can be stored, even from a marked cluster. */
  lemma FullVolumeFails(v: Volume, c: nat, data: seq<Byte>, size: nat, w: Written)
    requires Formatted(v) && 2 <= c < v.bs.Limit() && size > SECTOR_SIZE
    requires forall x :: 2 <= x < v.bs.Limit() ==> v.entries[x] != 0
    ensures !Stored(v, c, data, SectorCount(size), w)
  {
    SectorCountStep(size);
    FreeClusterCount(v.entries, v.bs.Limit());
    assert FreeClusters(v.entries, v.bs.Limit()) == {};
    if Stored(v, c, data, SectorCount(size), w) { StoredNeedsRoom(v, c, data, size, w); }
  }

  lemma LoopHead(v: Volume, c: nat, data: seq<Byte>, size: nat)
    ensures var cs := WriteLoop(v, c, data, size).cs; cs != [] && cs[0] == c
  {}

  /** With an unmarked start cluster that happens to be the lowest free one, a two-sector file becomes
      a cluster that follows itself: no chain starts there and loading it never ends. */
  lemma FreeStartCycles(v: Volume, c: nat, data: seq<Byte>, size: nat, cs: seq<nat>)
    requires CanWrite(v, c, data, size) && SECTOR_SIZE < size <= 2 * SECTOR_SIZE
    requires FirstFree(v.entries, 0) == Some(c)
    ensures WriteChain(v, c, data, size).v.entries == v.entries[c := c]
    ensures !IsChain(v.entries[c := c], c, cs)
  {
    ClusterSectors(v, c, c);
    var linked := v.(entries := v.entries[c := END_OF_CHAIN][c := c % 0x1000]);
    assert linked.entries == v.entries[c := c];
    LastSector(PutSector(linked, c, data), c, Drop(data), size - SECTOR_SIZE);
    SelfLoop(v.entries[c := c], c, cs);
  }

  lemma LastSector(v: Volume, c: nat, data: seq<Byte>, size: nat)
    requires size <= SECTOR_SIZE
    ensures WriteLoop(v, c, data, size).v.entries == v.entries
  {}

  lemma SelfLoop(e: seq<nat>, c: nat, cs: seq<nat>)
    requires c < |e| && e[c] == c && c != END_OF_CHAIN
    ensures !IsChain(e, c, cs)
  {
    if IsChain(e, c, cs) { ChainUnique(e, c, cs, cs[1..]); }
  }

  /** Chains that do not contain the start cluster keep their clusters and their contents. */
  lemma OtherChainsKept(v: Volume, c: nat, data: seq<Byte>, n: nat, w: Written, d: nat, ds: seq<nat>)
    requires Formatted(v) && Stored(v, c, data, n, w)
    requires IsChain(v.entries, d, ds) && c !in ds && forall x :: x in ds ==> x < v.bs.Limit()
    ensures IsChain(w.v.entries, d, ds) && Data(w.v, ds) == Data(v, ds)
    ensures forall x :: x in ds ==> x !in w.cs
  {
    hide SectorAt, Data;
    forall x | x in ds
      ensures x !in w.cs && 2 <= x
    {
      var i :| 0 <= i < |ds| && ds[i] == x;
      ChainSuffix(v.entries, d, ds, i);
    }
    ChainKept(v.entries, w.v.entries, d, ds);
    DataKept(v, w.v, ds);
  }

  // ----- a directory of files

  /** The chains of the files, by start cluster: all terminated, and no two share a cluster. */
  ghost predicate Files(v: Volume, files: map<nat, seq<nat>>)
    requires Formatted(v)
  {
    && (forall d :: d in files ==> IsChain(v.entries, d, files[d]))
    && (forall d, x :: d in files && x in files[d] ==> x < v.bs.Limit())
    && (forall d, d', x :: d in files && d' in files && x in files[d] && x in files[d'] ==> d == d')
  }

  /** Writing a file keeps every chain well formed and the chains pairwise disjoint. */
  lemma FilesKept(v: Volume, c: nat, data: seq<Byte>, n: nat, w: Written, files: map<nat, seq<nat>>)
    requires Formatted(v) && Files(v, files) && Stored(v, c, data, n, w)
    requires forall d :: d in files && c in files[d] ==> d == c
    ensures Formatted(w.v) && Files(w.v, files[c := w.cs])
  {
    StillFormatted(v, c, data, n, w);
    hide Data, SectorAt, Formatted;
    forall d | d in files && d != c
      ensures IsChain(w.v.entries, d, files[d]) && forall x :: x in files[d] ==> x !in w.cs
    {
      OtherChainsKept(v, c, data, n, w, d, files[d]);
    }
  }

  lemma StillFormatted(v: Volume, c: nat, data: seq<Byte>, n: nat, w: Written)
    requires Formatted(v) && Stored(v, c, data, n, w)
    ensures Formatted(w.v)
  {
    forall x | x in w.cs
      ensures 2 <= x
    {
      var i :| 0 <= i < |w.cs| && w.cs[i] == x;
      ChainSuffix(w.v.entries, c, w.cs, i);
    }
  }

  /** Round trip: whatever chain is found at the start cluster after a write that succeeds, loading it
      gives back the data, padded to whole sectors, and its length is the file's sector count. */
  lemma RoundTrip(v: Volume, c: nat, data: seq<Byte>, size: nat, cs: seq<nat>)
    requires CanWrite(v, c, data, size) && v.entries[c] != 0
    requires IsChain(WriteChain(v, c, data, size).v.entries, c, cs)
    ensures Data(WriteChain(v, c, data, size).v, cs) == data[..SectorCount(size) * SECTOR_SIZE]
    ensures |cs| == SectorCount(size)
  {
    var w := WriteChain(v, c, data, size);
    WriteWithRoom(v, c, data, size);
    ChainUnique(w.v.entries, c, cs, w.cs);
  }

  // ----- creating files, one after another

  datatype File = File(data: seq<Byte>, size: nat)

  /** What write_file does below the directory level: take the lowest free cluster and write there. */
  function Create(v: Volume, f: File): Written {
    match FirstFree(v.entries, 0)
    case None => Written(v, [])
    case Some(c) => WriteChain(v.(entries := v.entries[c := END_OF_CHAIN]), c, f.data, f.size)
  }

  function CreateAll(v: Volume, fs: seq<File>): Volume
    decreases |fs|
  {
    if fs == [] then v else CreateAll(Create(v, fs[0]).v, fs[1..])
  }

  /** Where the files of a run start. */
  function Starts(v: Volume, fs: seq<File>): (s: seq<seq<nat>>)
    ensures |s| == |fs|
    decreases |fs|
  {
    if fs == [] then [] else [Create(v, fs[0]).cs] + Starts(Create(v, fs[0]).v, fs[1..])
  }

  function Demand(fs: seq<File>): nat {
    if fs == [] then 0 else SectorCount(fs[0].size) + Demand(fs[1..])
  }

  ghost predicate Fits(v: Volume, fs: seq<File>) {
    && Formatted(v)
    && FreeBelow(v.entries, v.bs.Limit()) >= Demand(fs)
    && forall f :: f in fs ==> |f.data| >= SectorCount(f.size) * SECTOR_SIZE
  }

  /** Creating a file stores it in clusters that were all free. */
  lemma CreateStores(v: Volume, f: File)
    requires Formatted(v) && FreeBelow(v.entries, v.bs.Limit()) >= SectorCount(f.size)
    requires |f.data| >= SectorCount(f.size) * SECTOR_SIZE
    ensures FirstFree(v.entries, 0).Some? && FirstFree(v.entries, 0).value < v.bs.Limit()
    ensures var c := FirstFree(v.entries, 0).value;
            var marked := v.(entries := v.entries[c := END_OF_CHAIN]);
            && 2 <= c && Formatted(marked)
            && Stored(marked, c, f.data, SectorCount(f.size), Create(v, f))
  {
    FreeExists(v.entries, v.bs.Limit());
    var c := FirstFree(v.entries, 0).value;
    FreeUpdate(v.entries, v.bs.Limit(), c, END_OF_CHAIN);
    SectorCountStep(f.size);
    WriteWithRoom(v.(entries := v.entries[c := END_OF_CHAIN]), c, f.data, f.size);
  }

  /** A write uses up one free cluster for every sector but the first. */
  lemma {:induction false} LoopFree(v: Volume, c: nat, data: seq<Byte>, size: nat)
    requires CanWrite(v, c, data, size) && v.entries[c] != 0
    ensures var e := WriteLoop(v, c, data, size).v.entries;
            |e| == |v.entries|
            && FreeBelow(e, v.bs.Limit()) == FreeBelow(v.entries, v.bs.Limit()) - (SectorCount(size) - 1)
    decreases size
  {
    SectorCountStep(size);
    if size > SECTOR_SIZE {
      LinkNext(v, c, data, size);
      var n := FirstFree(v.entries, 0).value;
      FreeUpdate(v.entries, v.bs.Limit(), n, END_OF_CHAIN);
      FreeUpdate(v.entries[n := END_OF_CHAIN], v.bs.Limit(), c, n);
      LoopFree(PutSector(v.(entries := v.entries[n := END_OF_CHAIN][c := n % 0x1000]), c, data),
               n, Drop(data), size - SECTOR_SIZE);
    }
  }

  /** Creating a file uses exactly as many free clusters as it has sectors. */
  lemma CreateFree(v: Volume, f: File)
    requires Formatted(v) && FreeBelow(v.entries, v.bs.Limit()) >= SectorCount(f.size)
    requires |f.data| >= SectorCount(f.size) * SECTOR_SIZE
    ensures var w := Create(v, f);
            && Formatted(w.v) && w.v.bs == v.bs
            && FreeBelow(w.v.entries, v.bs.Limit()) == FreeBelow(v.entries, v.bs.Limit()) - SectorCount(f.size)
  {
    CreateStores(v, f);
    var c := FirstFree(v.entries, 0).value;
    var marked := v.(entries := v.entries[c := END_OF_CHAIN]);
    StillFormatted(marked, c, f.data, SectorCount(f.size), Create(v, f));
    FreeUpdate(v.entries, v.bs.Limit(), c, END_OF_CHAIN);
    SectorCountStep(f.size);
    if f.size <= SECTOR_SIZE {
      FreeUpdate(marked.entries, v.bs.Limit(), c, END_OF_CHAIN);
    } else {
      LoopFree(marked, c, f.data, f.size);
    }
  }

  /** Creating a file disturbs no existing chain. */
  lemma CreateKeepsChain(v: Volume, f: File, d: nat, ds: seq<nat>)
    requires Formatted(v) && FreeBelow(v.entries, v.bs.Limit()) >= SectorCount(f.size)
    requires |f.data| >= SectorCount(f.size) * SECTOR_SIZE
    requires IsChain(v.entries, d, ds) && forall x :: x in ds ==> x < v.bs.Limit()
    ensures var w := Create(v, f); IsChain(w.v.entries, d, ds) && Data(w.v, ds) == Data(v, ds)
  {
    CreateStores(v, f);
    var c := FirstFree(v.entries, 0).value;
    var marked := v.(entries := v.entries[c := END_OF_CHAIN]);
    hide Formatted, SectorAt, Data;
    assert c !in ds by {
      if c in ds {
        var i :| 0 <= i < |ds| && ds[i] == c;
        ChainSuffix(v.entries, d, ds, i);
      }
    }
    ChainKept(v.entries, marked.entries, d, ds);
    SameDisk(v, marked);
    DataKept(v, marked, ds);
    OtherChainsKept(marked, c, f.data, SectorCount(f.size), Create(v, f), d, ds);
  }

  lemma SameDisk(v: Volume, v': Volume)
    requires v'.disk == v.disk && v'.bs == v.bs
    ensures forall x :: SectorAt(v', x) == SectorAt(v, x)
  {}

  lemma {:induction false} RunKeepsChain(v: Volume, fs: seq<File>, d: nat, ds: seq<nat>)
    requires Fits(v, fs)
    requires IsChain(v.entries, d, ds) && forall x :: x in ds ==> x < v.bs.Limit()
    ensures var v' := CreateAll(v, fs); IsChain(v'.entries, d, ds) && Data(v', ds) == Data(v, ds)
    ensures forall i, x :: 0 <= i < |fs| && x in Starts(v, fs)[i] ==> x !in ds
    decreases |fs|
  {
    if fs != [] {
      var w := Create(v, fs[0]);
      CreateFree(v, fs[0]);
      CreateKeepsChain(v, fs[0], d, ds);
      CreateApart(v, fs[0], d, ds);
      RunKeepsChain(w.v, fs[1..], d, ds);
      forall i, x | 0 <= i < |fs| && x in Starts(v, fs)[i] ensures x !in ds {
        assert i > 0 ==> x in Starts(w.v, fs[1..])[i - 1];
      }
    }
  }

  /** The clusters of a new file belong to no chain that was there. */
  lemma CreateApart(v: Volume, f: File, d: nat, ds: seq<nat>)
    requires Formatted(v) && FreeBelow(v.entries, v.bs.Limit()) >= SectorCount(f.size)
    requires |f.data| >= SectorCount(f.size) * SECTOR_SIZE
    requires IsChain(v.entries, d, ds)
    ensures forall x :: x in Create(v, f).cs ==> x !in ds
  {
    hide Formatted, Data, SectorAt, Create, FreeBelow;
    CreateClusters(v, f);
    forall x | x in Create(v, f).cs ensures x !in ds {
      if x in ds {
        var i :| 0 <= i < |ds| && ds[i] == x;
        ChainSuffix(v.entries, d, ds, i);
      }
    }
  }

  /** They were free, and are clusters of the volume. */
  lemma CreateClusters(v: Volume, f: File)
    requires Formatted(v) && FreeBelow(v.entries, v.bs.Limit()) >= SectorCount(f.size)
    requires |f.data| >= SectorCount(f.size) * SECTOR_SIZE
    ensures forall x :: x in Create(v, f).cs ==> x < v.bs.Limit() && x < |v.entries| && v.entries[x] == 0
  {
    hide Formatted, Data, SectorAt, FreeBelow, Create;
    CreateStores(v, f);
    var c := FirstFree(v.entries, 0).value;
    var w := Create(v, f);
    forall x | x in w.cs ensures x < v.bs.Limit() && x < |v.entries| && v.entries[x] == 0 {
      var i :| 0 <= i < |w.cs| && w.cs[i] == x;
      assert i == 0 ==> x == c;
    }
  }

  /** The run keeps the volume formatted and of the same geometry. */
  lemma {:induction false} RunFormatted(v: Volume, fs: seq<File>)
    requires Fits(v, fs)
    ensures Formatted(CreateAll(v, fs)) && CreateAll(v, fs).bs == v.bs
    ensures FreeBelow(CreateAll(v, fs).entries, v.bs.Limit()) == FreeBelow(v.entries, v.bs.Limit()) - Demand(fs)
    decreases |fs|
  {
    if fs != [] {
      CreateFree(v, fs[0]);
      RunFormatted(Create(v, fs[0]).v, fs[1..]);
    }
  }

  /** The first file of a run, and the others. */
  lemma RunUnfold(v: Volume, fs: seq<File>)
    requires Fits(v, fs) && fs != []
    ensures Formatted(v) && FreeBelow(v.entries, v.bs.Limit()) >= SectorCount(fs[0].size)
    ensures |fs[0].data| >= SectorCount(fs[0].size) * SECTOR_SIZE
    ensures fs[0] == File(fs[0].data, fs[0].size)
    ensures var w := Create(v, fs[0]);
            && w.v.bs == v.bs && Fits(w.v, fs[1..]) && CreateAll(v, fs) == CreateAll(w.v, fs[1..])
            && Starts(v, fs) == [w.cs] + Starts(w.v, fs[1..])
  {
    CreateFree(v, fs[0]);
  }

  /** After any run of file creations that fits the volume, every file of the run loads back as it was
      written, whatever was created after it: its clusters are clusters of the volume, form a chain and
      hold its data. */
  lemma {:induction false} RunStores(v: Volume, fs: seq<File>, i: nat)
    requires Fits(v, fs) && i < |fs|
    ensures var v', cs := CreateAll(v, fs), Starts(v, fs)[i];
            && Formatted(v') && v'.bs == v.bs
            && |cs| == SectorCount(fs[i].size) > 0
            && IsChain(v'.entries, cs[0], cs)
            && (forall x :: x in cs ==> x < v'.bs.Limit())
            && SectorCount(fs[i].size) * SECTOR_SIZE <= |fs[i].data|
            && Data(v', cs) == fs[i].data[..SectorCount(fs[i].size) * SECTOR_SIZE]
    decreases |fs|
  {
    hide Formatted, Data, SectorAt, FreeBelow, CreateAll, Starts, Create, Fits, IsChain, SectorCount;
    RunFormatted(v, fs);
    RunUnfold(v, fs);
    var w := Create(v, fs[0]);
    if i == 0 {
      CreateLegal(v, fs[0]);
      RunKeepsChain(w.v, fs[1..], w.cs[0], w.cs);
    } else {
      RunStores(w.v, fs[1..], i - 1);
      assert fs[1..][i - 1] == fs[i];
    }
  }

  /** A new file, by itself. */
  lemma CreateLegal(v: Volume, f: File)
    requires Formatted(v) && FreeBelow(v.entries, v.bs.Limit()) >= SectorCount(f.size)
    requires |f.data| >= SectorCount(f.size) * SECTOR_SIZE
    ensures var w := Create(v, f);
            && |w.cs| == SectorCount(f.size) > 0 && IsChain(w.v.entries, w.cs[0], w.cs)
            && (forall x :: x in w.cs ==> x < v.bs.Limit())
            && Data(w.v, w.cs) == f.data[..SectorCount(f.size) * SECTOR_SIZE]
  {
    hide Data, SectorAt, FreeBelow, Create, SectorCount;
    CreateStores(v, f);
    CreateFree(v, f);
  }

  /** No two files of a run share a cluster. */
  lemma {:induction false} RunDisjoint(v: Volume, fs: seq<File>, i: nat, j: nat)
    requires Fits(v, fs) && i < j < |fs|
    ensures forall x :: x in Starts(v, fs)[i] ==> x !in Starts(v, fs)[j]
    decreases |fs|
  {
    hide Formatted, Data, SectorAt, FreeBelow;
    CreateFree(v, fs[0]);
    var w := Create(v, fs[0]);
    var rest := Starts(w.v, fs[1..]);
    if i == 0 {
      CreateStores(v, fs[0]);
      RunKeepsChain(w.v, fs[1..], w.cs[0], w.cs);
      forall x | x in w.cs ensures x !in rest[j - 1] {}
    } else {
      RunDisjoint(w.v, fs[1..], i - 1, j - 1);
    }
  }
}
