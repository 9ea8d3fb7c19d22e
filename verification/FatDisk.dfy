/** The allocation tables on the disk: reading the first one when the volume is mounted, and writing both
    back after a file was created. */
module FatDisk {
  import opened Bits
  import opened FatTable
  import opened FatChains

  /** The write of the second table goes to this many sectors behind the first, whatever the tables' size. */
  const SECOND_TABLE: nat := 9

  /** The drivers' sector count is a signed `char`. */
  const MAX_TRANSFER: nat := 127

  function Piece(data: seq<Byte>, i: nat): Sector
    requires (i + 1) * SECTOR_SIZE <= |data|
  {
    data[i * SECTOR_SIZE..(i + 1) * SECTOR_SIZE]
  }

  /** atapio_write_sectors. */
  function StoreSectors(disk: seq<Sector>, first: nat, data: seq<Byte>, count: nat): (d: seq<Sector>)
    requires first + count <= |disk| && count * SECTOR_SIZE <= |data|
    ensures |d| == |disk|
    ensures forall k :: 0 <= k < |disk| ==>
              d[k] == if first <= k < first + count then Piece(data, k - first) else disk[k]
  {
    if count == 0 then disk
    else StoreSectors(disk, first, data, count - 1)[first + count - 1 := Piece(data, count - 1)]
  }

  /** What consecutive sectors hold, piece by piece. */
  lemma {:induction false} SectorsAre(disk: seq<Sector>, first: nat, count: nat, data: seq<Byte>)
    requires first + count <= |disk| && |data| >= count * SECTOR_SIZE
    requires forall i :: 0 <= i < count ==> disk[first + i] == Piece(data, i)
    ensures Sectors(disk, first, count) == data[..count * SECTOR_SIZE]
    decreases count
  {
    if count > 0 {
      SectorsAre(disk, first, count - 1, data);
      assert disk[first + (count - 1)] == Piece(data, count - 1);
      assert data[..count * SECTOR_SIZE] == data[..(count - 1) * SECTOR_SIZE] + Piece(data, count - 1);
    }
  }

  lemma {:induction false} SectorPiece(disk: seq<Sector>, first: nat, count: nat, i: nat)
    requires i < count && first + count <= |disk|
    ensures Piece(Sectors(disk, first, count), i) == disk[first + i]
    decreases count
  {
    var less := Sectors(disk, first, count - 1);
    if i < count - 1 {
      SectorPiece(disk, first, count - 1, i);
      assert Piece(less + disk[first + count - 1], i) == Piece(less, i);
    }
  }

  function TableCopy(disk: seq<Sector>, bs: BootSector, i: nat): seq<Byte>
    requires bs.FirstFatSector() + i * bs.tableSize16 + bs.tableSize16 <= |disk|
  {
    Sectors(disk, bs.FirstFatSector() + i * bs.tableSize16, bs.tableSize16)
  }

  /** The disk has room for what is written, and the table is as long as the boot sector says. */
  ghost predicate Flushable(disk: seq<Sector>, bs: BootSector, table: seq<Byte>) {
    && bs.FirstFatSector() + SECOND_TABLE + bs.tableSize16 <= |disk|
    && bs.FirstFatSector() + 2 * bs.tableSize16 <= |disk|
    && |table| == bs.tableSize16 * SECTOR_SIZE
  }

  /** The end of write_file: the table is written to the disk twice. */
  function Flush(disk: seq<Sector>, bs: BootSector, table: seq<Byte>): seq<Sector>
    requires Flushable(disk, bs, table)
  {
    var first, n := bs.FirstFatSector(), bs.tableSize16;
    StoreSectors(StoreSectors(disk, first, table, n), first + SECOND_TABLE, table, n)
  }

  /** Only sectors of the two tables differ. */
  ghost predicate SameRest(disk: seq<Sector>, disk': seq<Sector>, bs: BootSector) {
    && |disk'| == |disk|
    && forall k :: 0 <= k < |disk| && !(bs.FirstFatSector() <= k < bs.FirstFatSector() + 2 * bs.tableSize16)
         ==> disk'[k] == disk[k]
  }

  /** Both tables on the disk hold the table, and no other sector has changed. */
  ghost predicate Flushed(disk: seq<Sector>, disk': seq<Sector>, bs: BootSector, table: seq<Byte>)
    requires Flushable(disk, bs, table)
  {
    SameRest(disk, disk', bs) && TableCopy(disk', bs, 0) == table == TableCopy(disk', bs, 1)
  }

  lemma FlushNine(disk: seq<Sector>, bs: BootSector, table: seq<Byte>)
    requires Flushable(disk, bs, table) && bs.tableSize16 == SECOND_TABLE
    ensures Flushed(disk, Flush(disk, bs, table), bs, table)
  {
    var disk', first := Flush(disk, bs, table), bs.FirstFatSector();
    SectorsAre(disk', first, 9, table);
    SectorsAre(disk', first + 9, 9, table);
  }

  /** Tables of another size do not survive: smaller ones are written over what lies behind them, and
      larger ones end up mixed. */
  lemma FlushOther(disk: seq<Sector>, bs: BootSector, table: seq<Byte>)
    requires Flushable(disk, bs, table) && 0 < bs.tableSize16 != SECOND_TABLE
    requires forall k :: 0 <= k < |disk| ==> disk[k] == seq(SECTOR_SIZE, _ => 0)
    requires table == seq(bs.tableSize16 * SECTOR_SIZE, _ => 1)
    ensures !Flushed(disk, Flush(disk, bs, table), bs, table)
  {
    var disk', first, n := Flush(disk, bs, table), bs.FirstFatSector(), bs.tableSize16;
    if n < SECOND_TABLE {
      var k := first + SECOND_TABLE + n - 1;
      assert disk'[k] == Piece(table, n - 1);
      assert disk'[k][0] == 1 && disk[k][0] == 0;
    } else {
      SectorPiece(disk', first + n, n, n - 1);
      assert disk'[first + n + (n - 1)] == disk[first + n + (n - 1)];
      assert Piece(TableCopy(disk', bs, 1), n - 1)[0] == 0;
      assert Piece(table, n - 1)[0] == 1;
    }
  }

  /** Writing the tables back works, whatever disk and table hold, exactly if tables have nine sectors, as
      on a 1.44 megabyte floppy disk. */
  lemma FlushExact(bs: BootSector, size: nat)
    requires bs.tableSize16 > 0 && bs.FirstFatSector() + SECOND_TABLE + bs.tableSize16 <= size
    requires bs.FirstFatSector() + 2 * bs.tableSize16 <= size
    ensures (forall disk, table :: |disk| == size && Flushable(disk, bs, table) ==>
               Flushed(disk, Flush(disk, bs, table), bs, table))
       <==> bs.tableSize16 == 9
  {
    if bs.tableSize16 == 9 {
      forall disk, table | |disk| == size && Flushable(disk, bs, table)
        ensures Flushed(disk, Flush(disk, bs, table), bs, table)
      {
        FlushNine(disk, bs, table);
      }
    } else {
      var zeros: Sector := seq(SECTOR_SIZE, _ => 0);
      var disk: seq<Sector>, table: seq<Byte> := seq(size, _ => zeros), seq(bs.tableSize16 * SECTOR_SIZE, _ => 1);
      FlushOther(disk, bs, table);
    }
  }

  /** What the kernel reads as the table. */
  function TableOnDisk(disk: seq<Sector>, bs: BootSector): seq<Byte>
    requires bs.Sound() && bs.TotalSectors() <= |disk| && bs.tableCount > 0
  {
    TableFits(bs, |disk|);
    TableCopy(disk, bs, 0)
  }

  lemma TableFits(bs: BootSector, n: nat)
    requires bs.Sound() && bs.TotalSectors() <= n && bs.tableCount > 0
    ensures bs.FirstFatSector() + bs.tableSize16 <= n && bs.FirstRootDirSector() + bs.RootDirSectors() <= n
  {
    MulMonotone(1, bs.tableCount, bs.tableSize16);
  }

  /** Two tables of nine sectors. */
  predicate Floppy(bs: BootSector) { bs.tableCount == 2 && bs.tableSize16 == SECOND_TABLE }

  /** Root directory and clusters lie behind both tables. */
  lemma BehindTables(bs: BootSector, c: nat)
    requires bs.Sound() && bs.tableCount == 2 && c >= 2
    ensures bs.FirstRootDirSector() >= bs.FirstFatSector() + 2 * bs.tableSize16
    ensures bs.FirstSectorOfCluster(c) >= bs.FirstFatSector() + 2 * bs.tableSize16
  {
    hide BootSector.RootDirSectors, BootSector.TotalSectors;
  }

  lemma SameVolume(v: Volume, disk': seq<Sector>)
    requires Formatted(v) && v.bs.tableCount == 2 && SameRest(v.disk, disk', v.bs)
    ensures var v' := v.(disk := disk');
            && Formatted(v') && RootOnDisk(v') == RootOnDisk(v)
            && forall c :: 2 <= c < v.bs.Limit() ==> SectorAt(v', c) == SectorAt(v, c)
  {
    TableFits(v.bs, |v.disk|);
    BehindTables(v.bs, 2);
    assert v.bs.Sound();
    hide BootSector.RootDirSectors, BootSector.TotalSectors, BootSector.FirstDataSector, BootSector.FirstRootDirSector;
    SectorsKept(v.disk, disk', v.bs.FirstRootDirSector(), v.bs.RootDirSectors());
    hide BootSector.FirstSectorOfCluster, BootSector.Sound;
    forall c | 2 <= c < v.bs.Limit()
      ensures SectorAt(v.(disk := disk'), c) == SectorAt(v, c)
    {
      BehindTables(v.bs, c);
    }
  }

  /** Mounting the disk after both tables were written back gives the volume in memory: the same entries,
      the same root directory, the same data in every cluster. */
  lemma Remount(v: Volume, table: seq<Byte>)
    requires Formatted(v) && Floppy(v.bs) && |table| == v.bs.tableSize16 * SECTOR_SIZE && Entries(table) == v.entries
    ensures Flushable(v.disk, v.bs, table)
    ensures var disk' := Flush(v.disk, v.bs, table);
            && |disk'| == |v.disk| && TableOnDisk(disk', v.bs) == table
            && var v' := Volume(Entries(TableOnDisk(disk', v.bs)), disk', v.bs);
               && Formatted(v') && v'.entries == v.entries && RootOnDisk(v') == RootOnDisk(v)
               && (forall c :: 2 <= c < v.bs.Limit() ==> SectorAt(v', c) == SectorAt(v, c))
  {
    FloppyFits(v);
    FlushNine(v.disk, v.bs, table);
    var disk' := Flush(v.disk, v.bs, table);
    hide Flush, Entries, Formatted, RootOnDisk, SectorAt, BootSector.TotalSectors, BootSector.FirstDataSector;
    SameVolume(v, disk');
    assert v.(disk := disk') == Volume(v.entries, disk', v.bs);
  }

  lemma FloppyFits(v: Volume)
    requires Formatted(v) && Floppy(v.bs)
    ensures v.bs.FirstFatSector() + 2 * v.bs.tableSize16 <= |v.disk|
    ensures v.bs.Sound() && v.bs.TotalSectors() <= |v.disk|
  {}
}
