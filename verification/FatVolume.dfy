/** The mounted FAT12 volume: the allocation table in memory, the root directory, and the disk. */
module FatVolume {
  import opened Bits
  import opened Wrappers
  import opened FatTable
  import opened FatChains
  import opened FatDisk

  /** Number of sectors a windowed read transfers: as many as asked for, or up to the end of the file. */
  function Window(length: nat, base: nat, sectors: nat): (m: nat)
    requires base <= length
    ensures m <= sectors && base + m <= length && (m == sectors || base + m == length)
  {
    if sectors < length - base then sectors else length - base
  }

  lemma {:induction false} DataLength(v: Volume, cs: seq<nat>)
    requires forall x :: x in cs ==> OnDisk(v, x)
    ensures |Data(v, cs)| == |cs| * SECTOR_SIZE
  {
    if cs != [] { DataLength(v, cs[1..]); }
  }

  lemma {:induction false} DataSplit(v: Volume, cs: seq<nat>, i: nat)
    requires i <= |cs|
    ensures Data(v, cs) == Data(v, cs[..i]) + Data(v, cs[i..])
  {
    if i == 0 {
      assert cs[..0] == [] && cs[0..] == cs;
    } else {
      DataSplit(v, cs[1..], i - 1);
      assert cs[1..][..i - 1] == cs[..i][1..] && cs[1..][i - 1..] == cs[i..];
    }
  }

  lemma DataSnoc(v: Volume, cs: seq<nat>, i: nat)
    requires i < |cs|
    ensures Data(v, cs[..i + 1]) == Data(v, cs[..i]) + SectorAt(v, cs[i])
  {
    DataSplit(v, cs[..i + 1], i);
    assert cs[..i + 1][..i] == cs[..i] && cs[..i + 1][i..] == [cs[i]];
    assert Data(v, [cs[i]]) == SectorAt(v, cs[i]) + Data(v, []);
  }

  /** A window of the chain holds that slice of the whole file. */
  lemma WindowIsSlice(v: Volume, cs: seq<nat>, base: nat, m: nat)
    requires base + m <= |cs| && forall x :: x in cs ==> OnDisk(v, x)
    ensures |Data(v, cs)| == |cs| * SECTOR_SIZE
    ensures Data(v, cs[base..base + m]) == Data(v, cs)[base * SECTOR_SIZE..(base + m) * SECTOR_SIZE]
  {
    DataLength(v, cs);
    DataSplit(v, cs, base + m);
    DataSplit(v, cs[..base + m], base);
    assert cs[..base + m][..base] == cs[..base] && cs[..base + m][base..] == cs[base..base + m];
    DataLength(v, cs[..base]);
    DataLength(v, cs[base..base + m]);
    DataLength(v, cs[base + m..]);
  }

  /** A chain all of whose clusters are cluster numbers of the volume. */
  ghost predicate LegalChain(v: Volume, c: nat, cs: seq<nat>)
    requires Formatted(v)
  {
    IsChain(v.entries, c, cs) && forall x :: x in cs ==> x < v.bs.Limit()
  }

  lemma LegalOnDisk(v: Volume, c: nat, cs: seq<nat>)
    requires Formatted(v) && LegalChain(v, c, cs)
    ensures forall x :: x in cs ==> OnDisk(v, x)
  {
    forall x | x in cs
      ensures OnDisk(v, x)
    {
      var i :| 0 <= i < |cs| && cs[i] == x;
      ChainSuffix(v.entries, c, cs, i);
      ClusterSectors(v, x, x);
    }
  }

  /** The cursor of a walk along a chain. */
  lemma Cursor(e: seq<nat>, c: nat, cs: seq<nat>, i: nat)
    requires IsChain(e, c, cs) && i <= |cs|
    ensures IsChain(e, if i == |cs| then END_OF_CHAIN else cs[i], cs[i..])
    ensures i < |cs| ==> cs[i] < |e| && 2 <= cs[i] && cs[i] != END_OF_CHAIN
                         && e[cs[i]] == (if i + 1 == |cs| then END_OF_CHAIN else cs[i + 1])
  {
    if i < |cs| {
      ChainSuffix(e, c, cs, i);
      assert cs[i..][1..] == cs[i + 1..];
    }
  }

  lemma StartsAt(e: seq<nat>, c: nat, cs: seq<nat>)
    requires IsChain(e, c, cs)
    ensures c == if |cs| == 0 then END_OF_CHAIN else cs[0]
  {}

  lemma EndsHere(e: seq<nat>, c: nat, cs: seq<nat>, i: nat)
    requires IsChain(e, c, cs) && i <= |cs| && (i < |cs| ==> cs[i] == END_OF_CHAIN)
    ensures i == |cs|
  {
    if i < |cs| { Cursor(e, c, cs, i); }
  }

  lemma FreeStep(e: seq<nat>, from: nat)
    requires from <= |e|
    ensures FirstFree(e, from) ==
            if from == |e| then None else if e[from] == 0 then Some(from) else FirstFree(e, from + 1)
  {}

  lemma NoData(v: Volume, cs: seq<nat>)
    ensures Data(v, cs[..0]) == []
  {}

  lemma Reads(v: Volume, c: nat)
    requires OnDisk(v, c)
    ensures v.bs.bytesPerSector > 0 && 2 <= c && v.bs.FirstSectorOfCluster(c) < |v.disk|
    ensures SectorAt(v, c) == v.disk[v.bs.FirstSectorOfCluster(c)]
  {}

  lemma TailChain(e: seq<nat>, c: nat, cs: seq<nat>, base: nat)
    requires IsChain(e, c, cs) && base <= |cs|
    ensures IsChain(e, if base == |cs| then END_OF_CHAIN else cs[base], cs[base..])
    ensures forall x :: x in cs[base..] ==> x in cs
  {
    Cursor(e, c, cs, base);
  }

  lemma FrontGrows(was: seq<Byte>, now: seq<Byte>, sector: seq<Byte>, at: nat)
    requires |sector| == SECTOR_SIZE && at + SECTOR_SIZE <= |was|
    requires now == was[..at] + sector + was[at + SECTOR_SIZE..]
    ensures |now| == |was| && now[..at + SECTOR_SIZE] == was[..at] + sector
    ensures now[at + SECTOR_SIZE..] == was[at + SECTOR_SIZE..]
  {}

  lemma BackKept(now: seq<Byte>, was: seq<Byte>, at: nat)
    requires |now| == |was| && at + SECTOR_SIZE <= |was| && now[at..] == was[at..]
    ensures now[at + SECTOR_SIZE..] == was[at + SECTOR_SIZE..]
  {
    assert now[at..][SECTOR_SIZE..] == was[at..][SECTOR_SIZE..];
  }

  lemma NotLowest(v: Volume, c: nat)
    requires c < |v.entries|
    ensures v.entries[c] != 0 ==> FirstFree(v.entries, 0) != Some(c)
  {}

  lemma StartLegal(v: Volume, c: nat, data: seq<Byte>, size: nat)
    requires CanWrite(v, c, data, size)
    ensures 2 <= c < |v.entries| && OnDisk(v, c) && v.bs.bytesPerSector > 0
    ensures v.bs.FirstSectorOfCluster(c) < |v.disk| && |data| >= SECTOR_SIZE
            && |data| >= SectorCount(size) * SECTOR_SIZE
  {
    ClusterSectors(v, c, c);
  }

  lemma Unfold(v: Volume, c: nat, data: seq<Byte>, size: nat)
    requires size > SECTOR_SIZE && c < |v.entries| && FirstFree(v.entries, 0).Some?
    ensures var n := FirstFree(v.entries, 0).value;
            var linked := v.(entries := v.entries[n := END_OF_CHAIN][c := n % 0x1000]);
            WriteLoop(v, c, data, size).v == WriteLoop(PutSector(linked, c, data), n, Drop(data), size - SECTOR_SIZE).v
  {}

  /** One round leads to a state from which the rest of the write can go on, with the same outcome. */
  lemma RoundKeeps(v: Volume, c: nat, data: seq<Byte>, size: nat)
    requires CanWrite(v, c, data, size) && size > SECTOR_SIZE
    ensures FirstFree(v.entries, 0).Some? && c < |v.entries| && OnDisk(v, c)
    ensures |data| >= SECTOR_SIZE && Drop(data) == data[SECTOR_SIZE..]
    ensures var n := FirstFree(v.entries, 0).value;
            var v' := PutSector(v.(entries := v.entries[n := END_OF_CHAIN][c := n % 0x1000]), c, data);
            && v'.bs == v.bs && Formatted(v')
            && CanWrite(v', n, Drop(data), size - SECTOR_SIZE)
            && WriteLoop(v', n, Drop(data), size - SECTOR_SIZE).v == WriteLoop(v, c, data, size).v
  {
    hide Formatted, FreeBelow, FirstFree, OnDisk, SectorCount, BootSector.Limit;
    LinkNext(v, c, data, size);
    StartLegal(v, c, data, size);
    Unfold(v, c, data, size);
  }

  lemma SameGeometry(v: Volume, v': Volume, c: nat)
    requires v'.bs == v.bs && v'.disk == v.disk
    ensures OnDisk(v', c) <==> OnDisk(v, c)
  {}

  lemma LastRound(v: Volume, c: nat, data: seq<Byte>, size: nat)
    requires size <= SECTOR_SIZE
    ensures WriteLoop(v, c, data, size).v == PutSector(v, c, data)
  {}

  lemma EntryAt(table: seq<Byte>, c: nat)
    requires c < EntryCount(|table|)
    ensures c < |Entries(table)| && Entries(table)[c] == GetNextCluster(table, c) < 0x1000
  {
    hide GetNextCluster, Word;
    GetBytes(table, c);
    UnpackBound(c % 2 != 0, table[c * 3 / 2], table[c * 3 / 2 + 1]);
  }

  lemma UnpackBound(odd: bool, lo: Byte, hi: Byte)
    ensures Unpack(odd, lo, hi) < 0x1000
  {}

  lemma Writable(v: Volume, c: nat, data: seq<Byte>, size: nat)
    requires CanWrite(v, c, data, size)
    ensures Formatted(v) && 2 <= c
  {}

  /** The lowest free cluster, once marked, can be written to. */
  lemma CreateWritable(v: Volume, f: File)
    requires Formatted(v) && FreeBelow(v.entries, v.bs.Limit()) >= SectorCount(f.size)
    requires |f.data| >= SectorCount(f.size) * SECTOR_SIZE
    ensures FirstFree(v.entries, 0).Some?
    ensures var c := FirstFree(v.entries, 0).value;
            var marked := v.(entries := v.entries[c := END_OF_CHAIN]);
            CanWrite(marked, c, f.data, f.size) && marked.entries[c] != 0
  {
    CreateStores(v, f);
    FreeUpdate(v.entries, v.bs.Limit(), FirstFree(v.entries, 0).value, END_OF_CHAIN);
    SectorCountStep(f.size);
  }

  lemma SameAlready(v: Volume)
    ensures SameBeforeData(v, v)
  {}

  lemma RunDone(v: Volume, fs: seq<File>)
    requires fs == []
    ensures CreateAll(v, fs) == v && Starts(v, fs) == []
  {}

  class FatFilesystem {
    const bs: BootSector
    const fatTable: array<Byte>
    const rootDirectory: array<Byte>
    const disk: array<Sector>

    constructor (bs: BootSector, fatTable: array<Byte>, rootDirectory: array<Byte>, disk: array<Sector>)
      requires Formatted(Volume(Entries(fatTable[..]), disk[..], bs))
      requires rootDirectory.Length == SECTOR_SIZE * bs.RootDirSectors()
      ensures Valid() && Vol() == Volume(Entries(fatTable[..]), disk[..], bs)
    {
      this.bs, this.fatTable, this.rootDirectory, this.disk := bs, fatTable, rootDirectory, disk;
    }

    /** INIT_FILESYSTEM behind the boot sector: the first table and the root directory are read from where
        the boot sector says they are. */
    constructor Mount(bs: BootSector, disk: array<Sector>)
      requires bs.Sound() && bs.TotalSectors() <= disk.Length && bs.tableCount > 0
      requires bs.tableSize16 <= MAX_TRANSFER && bs.RootDirSectors() <= MAX_TRANSFER
      requires Formatted(Volume(Entries(TableOnDisk(disk[..], bs)), disk[..], bs))
      ensures Valid() && Mounted() && fatTable[..] == TableOnDisk(disk[..], bs)
      ensures this.bs == bs && this.disk == disk && fresh(fatTable) && fresh(rootDirectory)
    {
      this.bs, this.disk := bs, disk;
      fatTable := new Byte[SECTOR_SIZE * bs.tableSize16];
      rootDirectory := new Byte[SECTOR_SIZE * bs.RootDirSectors()];
      new;
      TableFits(bs, disk.Length);
      ReadSectors(bs.FirstFatSector(), bs.tableSize16, fatTable);
      ReadSectors(bs.FirstRootDirSector(), bs.RootDirSectors(), rootDirectory);
    }

    /** The copy of the root directory is what the disk holds of it. */
    ghost predicate Mounted()
      reads fatTable, rootDirectory, disk
    {
      Valid() && rootDirectory != fatTable && fatTable.Length == SECTOR_SIZE * bs.tableSize16 &&
      rootDirectory[..] == RootOnDisk(Vol())
    }

    /** Writes that keep what lies before the data keep the copy what it is. */
    lemma StillMounted(v: Volume)
      requires Valid() && Formatted(v) && SameBeforeData(v, Vol())
      requires rootDirectory != fatTable && fatTable.Length == SECTOR_SIZE * bs.tableSize16
      ensures rootDirectory[..] == RootOnDisk(v) ==> Mounted()
    {
      RootKept(v, Vol());
    }

    /** The volume as chains and sectors. */
    ghost function Vol(): Volume
      reads fatTable, disk
    {
      Volume(Entries(fatTable[..]), disk[..], bs)
    }

    ghost predicate Valid()
      reads fatTable, disk
    {
      Formatted(Vol()) && rootDirectory.Length == SECTOR_SIZE * bs.RootDirSectors()
    }

    /** The 16-bit load of the two bytes that hold the entry. */
    method GetFatNextCluster(cluster: nat) returns (next: nat)
      requires cluster < EntryCount(fatTable.Length)
      ensures next == Vol().entries[cluster] < 0x1000
      ensures cluster * 3 / 2 + 1 < fatTable.Length
      ensures next == Unpack(cluster % 2 != 0, fatTable[cluster * 3 / 2], fatTable[cluster * 3 / 2 + 1])
    {
      hide And, Entries, Unpack;
      EntryFits(fatTable.Length, cluster);
      EntryAt(fatTable[..], cluster);
      GetBytes(fatTable[..], cluster);
      var offset := cluster * 3 / 2;
      var w := Word(fatTable[offset], fatTable[offset + 1]);
      next := if cluster % 2 != 0 then w / 0x10 else And(w, 0xfff);
    }

    /** The 16-bit read-modify-write of the two bytes that hold the entry. */
    method SetFatNextCluster(cluster: nat, next: nat)
      requires cluster < EntryCount(fatTable.Length)
      modifies fatTable
      ensures fatTable[..] == SetNextCluster(old(fatTable[..]), cluster, next)
      ensures Vol() == old(Vol()).(entries := old(Vol()).entries[cluster := next % 0x1000])
    {
      hide GetNextCluster, And, Or, Entries;
      EntryFits(fatTable.Length, cluster);
      ghost var t := fatTable[..];
      EntriesSet(t, cluster, next);
      var offset := cluster * 3 / 2;
      var w := Word(fatTable[offset], fatTable[offset + 1]);
      var w' := if cluster % 2 != 0 then Or(And(w, 0x000f), next * 0x10) else Or(And(w, 0xf000), And(0xfff, next));
      fatTable[offset] := Low(w');
      fatTable[offset + 1] := High(w');
      assert fatTable[..] == Store16(t, offset, w');
    }

    /** The search of get_first_free_cluster: it stops at the first zero entry. */
    method FindFree() returns (cluster: nat)
      requires FirstFree(Vol().entries, 0).Some?
      ensures Some(cluster) == FirstFree(Vol().entries, 0)
    {
      hide Entries, FirstFree, EntryCount, GetNextCluster, SetNextCluster, Unpack;
      ghost var e := Vol().entries;
      cluster := 0;
      FreeStep(e, 0);
      var next := GetFatNextCluster(cluster);
      while next != 0
        invariant cluster < |e| && next == e[cluster]
        invariant FirstFree(e, cluster) == FirstFree(e, 0)
        decreases |e| - cluster
      {
        FreeStep(e, cluster);
        FreeStep(e, cluster + 1);
        cluster := cluster + 1;
        next := GetFatNextCluster(cluster);
      }
      FreeStep(e, cluster);
    }

    /** Finds the lowest free cluster and marks it taken. */
    method GetFirstFreeCluster() returns (cluster: nat)
      requires FirstFree(Vol().entries, 0).Some?
      modifies fatTable
      ensures Some(cluster) == FirstFree(old(Vol()).entries, 0)
      ensures Vol() == old(Vol()).(entries := old(Vol()).entries[cluster := END_OF_CHAIN])
    {
      hide Entries, FirstFree, EntryCount, GetNextCluster, SetNextCluster, Unpack;
      cluster := FindFree();
      assert cluster < |Vol().entries|;
      SetFatNextCluster(cluster, END_OF_CHAIN);
    }

    method ReadSector(sector: nat, buf: array<Byte>, at: nat)
      requires sector < disk.Length && at + SECTOR_SIZE <= buf.Length
      modifies buf
      ensures buf[..] == old(buf[..at]) + disk[sector] + old(buf[at + SECTOR_SIZE..])
    {
      forall i | 0 <= i < SECTOR_SIZE {
        buf[at + i] := disk[sector][i];
      }
      assert buf[..at] == old(buf[..at]) && buf[at..at + SECTOR_SIZE] == disk[sector];
      assert buf[at + SECTOR_SIZE..] == old(buf[at + SECTOR_SIZE..]);
      assert buf[..] == buf[..at] + buf[at..at + SECTOR_SIZE] + buf[at + SECTOR_SIZE..];
    }

    /** atapio_read_sectors for several sectors. */
    method ReadSectors(first: nat, count: nat, buf: array<Byte>)
      requires first + count <= disk.Length && buf.Length == SECTOR_SIZE * count && count <= MAX_TRANSFER
      modifies buf
      ensures buf[..] == Sectors(disk[..], first, count)
    {
      for i := 0 to count
        invariant buf[..SECTOR_SIZE * i] == Sectors(disk[..], first, i)
      {
        ghost var was := buf[..];
        ReadSector(first + i, buf, SECTOR_SIZE * i);
        FrontGrows(was, buf[..], disk[first + i], SECTOR_SIZE * i);
        assert buf[..][..SECTOR_SIZE * (i + 1)] == buf[..SECTOR_SIZE * (i + 1)];
      }
      assert buf[..] == buf[..SECTOR_SIZE * count];
    }

    method WriteSector(sector: nat, data: seq<Byte>)
      requires sector < disk.Length && |data| >= SECTOR_SIZE
      modifies disk
      ensures disk[..] == old(disk[..])[sector := data[..SECTOR_SIZE]]
    {
      disk[sector] := data[..SECTOR_SIZE];
    }

    /** The number of clusters of a file, or of sectors of the root directory.  The loop ends because
        the chain does. */
    method GetClusterChainLength(first: nat, ghost cs: seq<nat>) returns (length: nat)
      requires Valid() && (first == 0 || LegalChain(Vol(), first, cs))
      ensures length == if first == 0 then bs.RootDirSectors() else |cs|
    {
      if first == 0 {
        return bs.RootDirSectors();
      }
      hide Entries, IsChain, GetNextCluster, SetNextCluster, Unpack;
      var next := first;
      length := 0;
      Cursor(Vol().entries, first, cs, 0);
      StartsAt(Vol().entries, first, cs);
      while next != END_OF_CHAIN
        invariant length <= |cs| && next == if length == |cs| then END_OF_CHAIN else cs[length]
        decreases |cs| - length
      {
        Cursor(Vol().entries, first, cs, length);
        next := GetFatNextCluster(next);
        length := length + 1;
      }
      EndsHere(Vol().entries, first, cs, length);
    }

    method CopyRootDirectory() returns (file: array<Byte>)
      ensures fresh(file) && file[..] == rootDirectory[..]
    {
      file := new Byte[rootDirectory.Length];
      forall i | 0 <= i < rootDirectory.Length {
        file[i] := rootDirectory[i];
      }
    }

    /** The loop of load_fat_cluster_chain, into a buffer of the right size. */
    method LoadSectors(first: nat, file: array<Byte>, ghost cs: seq<nat>)
      requires Valid() && LegalChain(Vol(), first, cs)
      requires file.Length == SECTOR_SIZE * |cs| && file != fatTable
      modifies file
      ensures file[..] == Data(Vol(), cs)
    {
      hide Entries, IsChain, Data, SectorAt, Formatted, OnDisk, EntryCount, GetNextCluster, SetNextCluster, Unpack;
      hide BootSector.FirstSectorOfCluster, BootSector.RootDirSectors, BootSector.Limit;
      ghost var v := Vol();
      LegalOnDisk(v, first, cs);
      StartsAt(v.entries, first, cs);
      NoData(v, cs);
      var next, i := first, 0;
      while next != END_OF_CHAIN
        invariant 0 <= i <= |cs| && next == if i == |cs| then END_OF_CHAIN else cs[i]
        invariant Vol() == v
        invariant file[..][..SECTOR_SIZE * i] == Data(v, cs[..i])
        decreases |cs| - i
      {
        Cursor(v.entries, first, cs, i);
        Reads(v, cs[i]);
        DataSnoc(v, cs, i);
        ghost var was := file[..];
        ReadSector(bs.FirstSectorOfCluster(next), file, SECTOR_SIZE * i);
        FrontGrows(was, file[..], SectorAt(v, cs[i]), SECTOR_SIZE * i);
        next := GetFatNextCluster(next);
        i := i + 1;
      }
      EndsHere(v.entries, first, cs, i);
      assert cs[..i] == cs && file[..][..SECTOR_SIZE * i] == file[..];
    }

    /** A copy of a file's sectors, or of the root directory. */
    method LoadFatClusterChain(first: nat, ghost cs: seq<nat>) returns (file: array<Byte>)
      requires Valid() && (first == 0 || LegalChain(Vol(), first, cs))
      ensures fresh(file)
      ensures file[..] == if first == 0 then rootDirectory[..] else Data(Vol(), cs)
    {
      hide Entries, IsChain, Data, Formatted, GetNextCluster, SetNextCluster, Unpack;
      if first == 0 {
        file := CopyRootDirectory();
      } else {
        var length := GetClusterChainLength(first, cs);
        file := new Byte[SECTOR_SIZE * length];
        LoadSectors(first, file, cs);
      }
    }

    /** The first loop of the windowed read: follow the chain past `base` clusters. */
    method SkipClusters(first: nat, base: nat, ghost cs: seq<nat>) returns (cluster: nat)
      requires Valid() && LegalChain(Vol(), first, cs) && base <= |cs|
      ensures cluster == if base == |cs| then END_OF_CHAIN else cs[base]
    {
      hide Entries, IsChain, GetNextCluster, SetNextCluster, Unpack;
      StartsAt(Vol().entries, first, cs);
      cluster := first;
      for i := 0 to base
        invariant cluster == if i == |cs| then END_OF_CHAIN else cs[i]
      {
        Cursor(Vol().entries, first, cs, i);
        cluster := GetFatNextCluster(cluster);
      }
    }

    /** The second loop of the windowed read, along the rest of the chain. */
    method ReadRun(first: nat, buf: array<Byte>, sectors: nat, ghost cs: seq<nat>)
      requires Valid() && LegalChain(Vol(), first, cs)
      requires SECTOR_SIZE * Window(|cs|, 0, sectors) <= buf.Length && buf != fatTable
      modifies buf
      ensures var m := Window(|cs|, 0, sectors);
              buf[..] == Data(Vol(), cs[..m]) + old(buf[m * SECTOR_SIZE..])
    {
      hide Entries, IsChain, Data, SectorAt, Formatted, OnDisk, EntryCount, GetNextCluster, SetNextCluster, Unpack;
      hide BootSector.FirstSectorOfCluster, BootSector.RootDirSectors, BootSector.Limit;
      ghost var v, was, m := Vol(), buf[..], Window(|cs|, 0, sectors);
      LegalOnDisk(v, first, cs);
      StartsAt(v.entries, first, cs);
      NoData(v, cs);
      var cluster, i := first, 0;
      while i < sectors && cluster != END_OF_CHAIN
        invariant 0 <= i <= m && cluster == if i == |cs| then END_OF_CHAIN else cs[i]
        invariant Vol() == v && buf.Length == |was|
        invariant buf[..][..SECTOR_SIZE * i] == Data(v, cs[..i])
        invariant buf[..][SECTOR_SIZE * i..] == was[SECTOR_SIZE * i..]
        decreases m - i
      {
        Cursor(v.entries, first, cs, i);
        Reads(v, cs[i]);
        DataSnoc(v, cs, i);
        ghost var before := buf[..];
        ReadSector(bs.FirstSectorOfCluster(cluster), buf, SECTOR_SIZE * i);
        FrontGrows(before, buf[..], SectorAt(v, cs[i]), SECTOR_SIZE * i);
        BackKept(before, was, SECTOR_SIZE * i);
        cluster := GetFatNextCluster(cluster);
        i := i + 1;
      }
      if i < sectors { EndsHere(v.entries, first, cs, i); }
      assert buf[..] == buf[..][..SECTOR_SIZE * i] + buf[..][SECTOR_SIZE * i..];
    }

    /** Reads up to `sectors` sectors of a file from sector `base` on, into the front of buf. */
    method ReadClusterChainFromOffset(first: nat, buf: array<Byte>, base: nat, sectors: nat, ghost cs: seq<nat>)
      requires Valid() && LegalChain(Vol(), first, cs) && base <= |cs|
      requires SECTOR_SIZE * Window(|cs|, base, sectors) <= buf.Length && buf != fatTable
      modifies buf
      ensures var m := Window(|cs|, base, sectors);
              && |Data(Vol(), cs)| == |cs| * SECTOR_SIZE
              && buf[..] == Data(Vol(), cs)[base * SECTOR_SIZE..(base + m) * SECTOR_SIZE] + old(buf[m * SECTOR_SIZE..])
    {
      hide Entries, IsChain, Data, Formatted, OnDisk, GetNextCluster, SetNextCluster, Unpack;
      ghost var m := Window(|cs|, base, sectors);
      LegalOnDisk(Vol(), first, cs);
      TailChain(Vol().entries, first, cs, base);
      WindowIsSlice(Vol(), cs, base, m);
      assert cs[base..][..m] == cs[base..base + m];
      var cluster := SkipClusters(first, base, cs);
      ReadRun(cluster, buf, sectors, cs[base..]);
    }

    /** One round of the write loop: take a free cluster, link it, and write this one's sector. */
    method WriteRound(cluster: nat, data: seq<Byte>) returns (next: nat)
      requires FirstFree(Vol().entries, 0).Some? && cluster < |Vol().entries|
      requires OnDisk(Vol(), cluster) && |data| >= SECTOR_SIZE
      modifies fatTable, disk
      ensures Some(next) == FirstFree(old(Vol()).entries, 0)
      ensures var e := old(Vol()).entries[next := END_OF_CHAIN][cluster := next % 0x1000];
              Vol() == PutSector(old(Vol()).(entries := e), cluster, data)
    {
      hide Entries, FirstFree, EntryCount, GetNextCluster, SetNextCluster, Unpack;
      hide BootSector.FirstSectorOfCluster, BootSector.RootDirSectors;
      next := GetFirstFreeCluster();
      assert next < |Vol().entries|;
      SetFatNextCluster(next, END_OF_CHAIN);
      SetFatNextCluster(cluster, next);
      WriteSector(bs.FirstSectorOfCluster(cluster), data);
    }

    /** The loop of the write, for more than one sector. */
    method WriteRounds(first: nat, data: seq<Byte>, length: nat)
      requires Valid() && CanWrite(Vol(), first, data, length) && length > SECTOR_SIZE
      modifies fatTable, disk
      ensures Vol() == WriteLoop(old(Vol()), first, data, length).v
    {
      hide Entries, CanWrite, Formatted, WriteLoop, FirstFree, EntryCount, OnDisk, PutSector;
      hide GetNextCluster, SetNextCluster, Unpack;
      hide BootSector.FirstSectorOfCluster, BootSector.RootDirSectors, SectorCount;
      var cluster, size, next, written := first, length, 0, 0;
      ghost var rest := data;
      ghost var goal := WriteLoop(Vol(), first, data, length).v;
      while size > SECTOR_SIZE
        invariant 0 <= SECTOR_SIZE * written <= |data| && rest == data[SECTOR_SIZE * written..]
        invariant 0 <= size && (size > SECTOR_SIZE || next == cluster)
        invariant Valid() && CanWrite(Vol(), cluster, rest, size)
        invariant WriteLoop(Vol(), cluster, rest, size).v == goal
      {
        RoundKeeps(Vol(), cluster, rest, size);
        next := WriteRound(cluster, data[SECTOR_SIZE * written..]);
        rest := Drop(rest);
        written := written + 1;
        cluster := next;
        size := size - SECTOR_SIZE;
      }
      StartLegal(Vol(), cluster, rest, size);
      LastRound(Vol(), cluster, rest, size);
      WriteLast(next, data[SECTOR_SIZE * written..]);
    }

    method WriteLast(cluster: nat, data: seq<Byte>)
      requires OnDisk(Vol(), cluster) && |data| >= SECTOR_SIZE
      modifies disk
      ensures Vol() == PutSector(old(Vol()), cluster, data)
    {
      hide Entries, GetNextCluster, SetNextCluster, Unpack;
      WriteSector(bs.FirstSectorOfCluster(cluster), data);
    }

    /** Stores data as the chain of `first`, taking free clusters as needed. */
    lemma SameSectors(v: Volume)
      requires SameBeforeData(v, Vol())
      ensures forall k :: 0 <= k < disk.Length && bs.BeforeData(k) ==> k < |v.disk| && disk[k] == v.disk[k]
    {
      hide BootSector.BeforeData, Entries;
    }

    method WriteFatClusterChain(first: nat, data: seq<Byte>, size: nat)
      requires Valid() && CanWrite(Vol(), first, data, size)
      modifies fatTable, disk
      ensures Vol() == WriteChain(old(Vol()), first, data, size).v
      ensures old(Vol()).entries[first] != 0 ==>
                Stored(old(Vol()), first, data, SectorCount(size), WriteChain(old(Vol()), first, data, size))
      ensures forall k :: 0 <= k < disk.Length && bs.BeforeData(k) ==> disk[k] == old(disk[k])
    {
      hide Entries, CanWrite, Formatted, WriteLoop, FirstFree, EntryCount, OnDisk, PutSector;
      hide Stored, SectorCount, GetNextCluster, SetNextCluster, Unpack;
      hide BootSector.FirstSectorOfCluster, BootSector.RootDirSectors;
      hide BootSector.BeforeData, SameBeforeData;
      ghost var v := Vol();
      Writable(v, first, data, size);
      WriteKeepsLayout(v, first, data, size);
      StartLegal(v, first, data, size);
      NotLowest(v, first);
      WriteWithRoom(v, first, data, size);
      if size <= SECTOR_SIZE {
        SetFatNextCluster(first, END_OF_CHAIN);
        SameGeometry(v, Vol(), first);
        WriteLast(first, data);
      } else {
        WriteRounds(first, data, size);
      }
      SameSectors(v);
    }

    /** What write_file does with the table and the data: take the lowest free cluster, write there. */
    method CreateFile(data: seq<Byte>, size: nat) returns (first: nat)
      requires Valid() && FreeBelow(Vol().entries, bs.Limit()) >= SectorCount(size)
      requires |data| >= SectorCount(size) * SECTOR_SIZE
      modifies fatTable, disk
      ensures Valid()
      ensures var w := Create(old(Vol()), File(data, size));
              Vol() == w.v && w.cs != [] && first == w.cs[0] && LegalChain(Vol(), first, w.cs)
      ensures SameBeforeData(old(Vol()), Vol())
      ensures old(Mounted()) ==> Mounted()
    {
      hide Entries, GetNextCluster, SetNextCluster, Unpack;
      hide FreeBelow, SectorCount, Formatted, WriteChain, Data, SectorAt;
      hide BootSector.Limit, BootSector.RootDirSectors;
      hide BootSector.BeforeData, SameBeforeData, RootOnDisk;
      ghost var v := Vol();
      CreateKeepsLayout(v, File(data, size));
      CreateStores(v, File(data, size));
      CreateFree(v, File(data, size));
      CreateWritable(v, File(data, size));
      first := GetFirstFreeCluster();
      WriteFatClusterChain(first, data, size);
      if old(Mounted()) { StillMounted(v); }
    }

    /** The whole round trip: a file written to a marked cluster loads back, padded to whole sectors. */
    method WriteThenLoad(first: nat, data: seq<Byte>, size: nat) returns (file: array<Byte>)
      requires Valid() && CanWrite(Vol(), first, data, size) && Vol().entries[first] != 0
      modifies fatTable, disk
      ensures Valid() && fresh(file) && file[..] == data[..SectorCount(size) * SECTOR_SIZE]
      ensures SameBeforeData(old(Vol()), Vol())
      ensures old(Mounted()) ==> Mounted()
    {
      hide Entries, GetNextCluster, SetNextCluster, Unpack, FreeBelow, Formatted, WriteChain, Data, SectorAt, IsChain;
      hide BootSector.Limit, BootSector.RootDirSectors, CanWrite;
      hide BootSector.BeforeData, SameBeforeData, RootOnDisk;
      ghost var v := Vol();
      ghost var w := WriteChain(v, first, data, size);
      Writable(v, first, data, size);
      WriteKeepsLayout(v, first, data, size);
      WriteFatClusterChain(first, data, size);
      StillFormatted(v, first, data, SectorCount(size), w);
      file := LoadFatClusterChain(first, w.cs);
      if old(Mounted()) { StillMounted(v); }
    }

    /** The last step of write_file: the table goes to the disk, twice. */
    method FlushTables()
      requires Flushable(disk[..], bs, fatTable[..]) && bs.tableSize16 <= MAX_TRANSFER
      modifies disk
      ensures disk[..] == Flush(old(disk[..]), bs, fatTable[..])
      ensures old(Mounted()) && Floppy(bs) ==>
                && Mounted() && TableOnDisk(disk[..], bs) == fatTable[..] && Vol().entries == old(Vol()).entries
                && forall c :: 2 <= c < bs.Limit() ==> SectorAt(Vol(), c) == SectorAt(old(Vol()), c)
    {
      hide Entries, Formatted;
      ghost var v := Vol();
      WriteSectors(bs.FirstFatSector(), bs.tableSize16, fatTable[..]);
      WriteSectors(bs.FirstFatSector() + SECOND_TABLE, bs.tableSize16, fatTable[..]);
      if old(Mounted()) && Floppy(bs) { Remount(v, fatTable[..]); }
    }

    /** atapio_write_sectors for several sectors. */
    method WriteSectors(first: nat, count: nat, data: seq<Byte>)
      requires first + count <= disk.Length && count * SECTOR_SIZE <= |data| && count <= MAX_TRANSFER
      modifies disk
      ensures disk[..] == StoreSectors(old(disk[..]), first, data, count)
    {
      for i := 0 to count
        invariant disk[..] == StoreSectors(old(disk[..]), first, data, i)
      {
        WriteSector(first + i, data[i * SECTOR_SIZE..]);
        assert data[i * SECTOR_SIZE..][..SECTOR_SIZE] == Piece(data, i);
      }
    }

    /** Many files, one after another: each is stored where its first cluster says, and loading it from
        there gives it back, whatever was stored after it. */
    method CreateFiles(files: seq<File>) returns (firsts: seq<nat>)
      requires Valid() && Fits(Vol(), files)
      modifies fatTable, disk
      ensures Valid() && Vol() == CreateAll(old(Vol()), files) && |firsts| == |files|
      ensures SameBeforeData(old(Vol()), Vol())
      ensures old(Mounted()) ==> Mounted()
      ensures forall i :: 0 <= i < |files| ==>
                var cs := Starts(old(Vol()), files)[i];
                && LegalChain(Vol(), firsts[i], cs)
                && SectorCount(files[i].size) * SECTOR_SIZE <= |files[i].data|
                && Data(Vol(), cs) == files[i].data[..SectorCount(files[i].size) * SECTOR_SIZE]
    {
      hide Entries, GetNextCluster, SetNextCluster, Unpack, FreeBelow, SectorCount, Formatted, Create, Data, SectorAt;
      hide IsChain, BootSector.Limit, BootSector.RootDirSectors, Fits, Starts, CreateAll;
      hide BootSector.BeforeData, SameBeforeData, RootOnDisk;
      ghost var v := Vol();
      ghost var done: seq<seq<nat>> := [];
      firsts := [];
      assert files[0..] == files;
      SameAlready(v);
      for i := 0 to |files|
        invariant SameBeforeData(v, Vol())
        invariant Valid() && |firsts| == |done| == i && Fits(Vol(), files[i..])
        invariant CreateAll(Vol(), files[i..]) == CreateAll(v, files)
        invariant Starts(v, files) == done + Starts(Vol(), files[i..])
        invariant forall j :: 0 <= j < i ==> done[j] != [] && firsts[j] == done[j][0]
      {
        RunUnfold(Vol(), files[i..]);
        assert files[i..][1..] == files[i + 1..];
        ghost var before := Vol();
        var first := CreateFile(files[i].data, files[i].size);
        SameTwice(v, before, Vol());
        done := done + [Starts(v, files)[i]];
        firsts := firsts + [first];
      }
      if old(Mounted()) { StillMounted(v); }
      RunDone(Vol(), files[|files|..]);
      forall i | 0 <= i < |files|
        ensures var cs := Starts(v, files)[i];
                && LegalChain(Vol(), firsts[i], cs)
                && SectorCount(files[i].size) * SECTOR_SIZE <= |files[i].data|
                && Data(Vol(), cs) == files[i].data[..SectorCount(files[i].size) * SECTOR_SIZE]
      {
        RunStores(v, files, i);
      }
    }
  }
}
