/**
  What the cache index means. The table keeps a file count, a byte total and a lower
  bound on the modification times for every static range; the disk holds the files.
 */
module CacheIndex {
  import opened Common
  import opened FileId
  import opened Sums

  /** A file on disk: its bytes, the space it occupies, and its modification time. */
  datatype StoredFile = StoredFile(content: seq<Byte>, usage: nat, mtime: int)

  type Disk = map<Path, StoredFile>

  datatype CacheState = CacheState(fileCount: nat, size: nat, oldest: int)

  type Table = map<string, CacheState>

  /** `FileTime::unix_seconds`: rounds down, also before the epoch. */
  function UnixSeconds(time: int): (secs: int)
    ensures secs * SECOND <= time < (secs + 1) * SECOND
  {
    time / SECOND
  }

  function RangeOf(p: Path): string {
    p.l1 + p.l2
  }

  /** Directory `r` of the cache: two levels of two characters. */
  predicate InDir(p: Path, r: string) {
    |p.l1| == 2 && |p.l2| == 2 && RangeOf(p) == r
  }

  /**
    Files whose name parses carry the name the cache itself would write; the other files,
    of which only the modification time matters, are strays.
   */
  ghost predicate NamesOk(disk: Disk, strays: map<Path, int>) {
    && (forall p :: p in disk ==> WellNamed(p))
    && (forall p :: p in strays ==> FromFileId(p.name).None?)
  }

  ghost function SizesIn(disk: Disk, ranges: set<string>): map<Path, nat> {
    map p | p in disk && RangeOf(p) in ranges :: disk[p].usage
  }

  ghost function Sizes(disk: Disk, r: string): map<Path, nat> {
    map p | p in disk && RangeOf(p) == r :: disk[p].usage
  }

  ghost function AllSizes(disk: Disk): map<Path, nat> {
    map p | p in disk :: disk[p].usage
  }

  /** The table's count and size of range `r` are those of the files of `r`. */
  ghost predicate AgreesAt(disk: Disk, table: Table, r: string) {
    if r in table then
      table[r].fileCount == |Sizes(disk, r)| && table[r].size == Total(Sizes(disk, r))
    else
      Sizes(disk, r) == map[]
  }

  ghost predicate Agrees(disk: Disk, table: Table) {
    forall r: string :: AgreesAt(disk, table, r)
  }

  /** `oldest` is a lower bound on the modification times of its range. */
  ghost predicate Bounds(disk: Disk, oldest: map<string, int>) {
    forall p :: p in disk && RangeOf(p) in oldest ==> oldest[RangeOf(p)] <= UnixSeconds(disk[p].mtime)
  }

  function OldestOf(table: Table): map<string, int> {
    map r | r in table :: table[r].oldest
  }

  lemma OldestOfAt(table: Table, r: string)
    ensures OldestOf(table).Keys == table.Keys
    ensures r in table ==> OldestOf(table)[r] == table[r].oldest
  {
  }

  lemma OldestOfUpdate(table: Table, r: string, entry: CacheState)
    ensures OldestOf(table[r := entry]) == OldestOf(table)[r := entry.oldest]
    ensures r in table && entry.oldest == table[r].oldest ==> OldestOf(table[r := entry]) == OldestOf(table)
  {
  }

  /** A written path lies in the directory of its static range and reads back. */
  lemma Placed(info: CacheFileInfo)
    requires Storable(info.fileType)
    ensures WellNamed(ToPath(info))
    ensures RangeOf(ToPath(info)) == StaticRange(info) && InDir(ToPath(info), StaticRange(info))
  {
    WrittenPathsAreWellNamed(info);
    PathInStaticRange(info);
  }

  /** The file a listed name stands for is the listed file. */
  lemma ListedName(disk: Disk, strays: map<Path, int>, p: Path)
    requires NamesOk(disk, strays) && (p in disk || p in strays)
    ensures p in disk <==> FromFileId(p.name).Some?
    ensures p in disk ==> ToPath(FromFileId(p.name).value) == p && Storable(FromFileId(p.name).value.fileType)
    ensures p in disk ==> InDir(p, RangeOf(p))
  {
    if p in disk {
      assert WellNamed(p);
      ParsedStorable(p);
      Placed(FromFileId(p.name).value);
    }
  }

  // -------------------------------------------------------- effect of removal

  lemma SizesAfterRemove(disk: Disk, p: Path, r: string)
    requires p in disk
    ensures Sizes(disk - {p}, r) == if r == RangeOf(p) then Sizes(disk, r) - {p} else Sizes(disk, r)
  {
  }

  lemma AllSizesAfterRemove(disk: Disk, p: Path)
    requires p in disk
    ensures p in AllSizes(disk)
    ensures |AllSizes(disk - {p})| == |AllSizes(disk)| - 1
    ensures Total(AllSizes(disk - {p})) == Total(AllSizes(disk)) - disk[p].usage
  {
    assert AllSizes(disk - {p}) == AllSizes(disk) - {p};
    TotalRemove(AllSizes(disk), p);
  }

  /** The entry of a removed file never goes below zero. */
  lemma EntryCovers(disk: Disk, table: Table, p: Path)
    requires Agrees(disk, table) && p in disk
    ensures var r := RangeOf(p);
            r in table && table[r].fileCount >= 1 && table[r].size >= disk[p].usage
  {
    var r := RangeOf(p);
    assert AgreesAt(disk, table, r);
    assert p in Sizes(disk, r);
    TotalRemove(Sizes(disk, r), p);
  }

  lemma RemoveAgrees(disk: Disk, table: Table, p: Path, entry: CacheState)
    requires Agrees(disk, table) && p in disk
    requires var r := RangeOf(p);
             r in table && entry.fileCount == table[r].fileCount - 1 && entry.size == table[r].size - disk[p].usage
    ensures Agrees(disk - {p}, table[RangeOf(p) := entry])
  {
    var disk', table' := disk - {p}, table[RangeOf(p) := entry];
    forall r: string
      ensures AgreesAt(disk', table', r)
    {
      assert AgreesAt(disk, table, r);
      SizesAfterRemove(disk, p, r);
      if r == RangeOf(p) {
        TotalRemove(Sizes(disk, r), p);
      }
    }
  }

  // ------------------------------------------------------- effect of addition

  lemma SizesAfterAdd(disk: Disk, p: Path, file: StoredFile, r: string)
    requires p !in disk
    ensures Sizes(disk[p := file], r) == if r == RangeOf(p) then Sizes(disk, r)[p := file.usage] else Sizes(disk, r)
  {
  }

  lemma AllSizesAdded(disk: Disk, p: Path, file: StoredFile)
    requires p !in disk
    ensures p !in AllSizes(disk)
    ensures AllSizes(disk[p := file]) == AllSizes(disk)[p := file.usage]
  {
  }

  lemma AllSizesAfterAdd(disk: Disk, p: Path, file: StoredFile)
    requires p !in disk
    ensures |AllSizes(disk[p := file])| == |AllSizes(disk)| + 1
    ensures Total(AllSizes(disk[p := file])) == Total(AllSizes(disk)) + file.usage
  {
    AllSizesAdded(disk, p, file);
    TotalInsert(AllSizes(disk), p, file.usage);
  }

  lemma AddAgrees(disk: Disk, table: Table, p: Path, file: StoredFile, entry: CacheState)
    requires Agrees(disk, table) && p !in disk
    requires var r := RangeOf(p);
             && entry.fileCount == (if r in table then table[r].fileCount else 0) + 1
             && entry.size == (if r in table then table[r].size else 0) + file.usage
    ensures Agrees(disk[p := file], table[RangeOf(p) := entry])
  {
    var disk', table' := disk[p := file], table[RangeOf(p) := entry];
    forall r: string
      ensures AgreesAt(disk', table', r)
    {
      assert AgreesAt(disk, table, r);
      SizesAfterAdd(disk, p, file, r);
      if r == RangeOf(p) {
        TotalInsert(Sizes(disk, r), p, file.usage);
      }
    }
  }

  // ---------------------------------------------------------- frame and totals

  lemma SizesTouched(disk: Disk, p: Path, time: int, r: string)
    requires p in disk
    ensures Sizes(disk[p := disk[p].(mtime := time)], r) == Sizes(disk, r)
  {
  }

  /** Sizes do not depend on modification times. */
  lemma TouchAgrees(disk: Disk, table: Table, p: Path, time: int)
    requires p in disk
    ensures AllSizes(disk[p := disk[p].(mtime := time)]) == AllSizes(disk)
    ensures Agrees(disk, table) ==> Agrees(disk[p := disk[p].(mtime := time)], table)
  {
    var after := disk[p := disk[p].(mtime := time)];
    if Agrees(disk, table) {
      forall r: string
        ensures AgreesAt(after, table, r)
      {
        assert AgreesAt(disk, table, r);
        SizesTouched(disk, p, time, r);
      }
    }
  }

  /** Agreement does not depend on `oldest`. */
  lemma OldestAgrees(disk: Disk, table: Table, r: string, oldest: int)
    requires Agrees(disk, table) && r in table
    ensures Agrees(disk, table[r := table[r].(oldest := oldest)])
  {
    var table' := table[r := table[r].(oldest := oldest)];
    forall s: string
      ensures AgreesAt(disk, table', s)
    {
      assert AgreesAt(disk, table, s);
    }
  }

  lemma NoSizes(disk: Disk)
    ensures Total(SizesIn(disk, {})) == 0 && |SizesIn(disk, {})| == 0
  {
  }

  lemma SizesInSplit(disk: Disk, done: set<string>, r: string)
    requires r !in done
    ensures SizesIn(disk, done).Keys !! Sizes(disk, r).Keys
    ensures SizesIn(disk, done + {r}) == SizesIn(disk, done) + Sizes(disk, r)
  {
  }

  /** Adding one more range of the table adds the bytes and files of that range. */
  lemma SizesInGrows(disk: Disk, table: Table, done: set<string>, r: string)
    requires Agrees(disk, table) && r in table && r !in done
    ensures Total(SizesIn(disk, done + {r})) == Total(SizesIn(disk, done)) + table[r].size
    ensures |SizesIn(disk, done + {r})| == |SizesIn(disk, done)| + table[r].fileCount
  {
    assert AgreesAt(disk, table, r);
    SizesInSplit(disk, done, r);
    TotalUnion(SizesIn(disk, done), Sizes(disk, r));
  }

  /** The table's ranges together hold every file. */
  lemma SizesInAll(disk: Disk, table: Table)
    requires Agrees(disk, table)
    ensures SizesIn(disk, table.Keys) == AllSizes(disk)
  {
    forall p | p in disk
      ensures RangeOf(p) in table
    {
      assert AgreesAt(disk, table, RangeOf(p));
      assert p in Sizes(disk, RangeOf(p));
    }
  }

  /** The sizes and file counts the table holds for some of its ranges. */
  ghost function SizeColumn(table: Table, ranges: set<string>): map<string, nat>
    requires ranges <= table.Keys
  {
    map r | r in ranges :: table[r].size
  }

  ghost function CountColumn(table: Table, ranges: set<string>): map<string, nat>
    requires ranges <= table.Keys
  {
    map r | r in ranges :: table[r].fileCount
  }

  lemma ColumnsGrow(table: Table, done: set<string>, r: string)
    requires done <= table.Keys && r in table && r !in done
    ensures Total(SizeColumn(table, done + {r})) == Total(SizeColumn(table, done)) + table[r].size
    ensures Total(CountColumn(table, done + {r})) == Total(CountColumn(table, done)) + table[r].fileCount
  {
    hide Total;
    assert SizeColumn(table, done + {r}) == SizeColumn(table, done)[r := table[r].size];
    assert CountColumn(table, done + {r}) == CountColumn(table, done)[r := table[r].fileCount];
    TotalInsert(SizeColumn(table, done), r, table[r].size);
    TotalInsert(CountColumn(table, done), r, table[r].fileCount);
  }

  lemma NoColumns(table: Table)
    ensures Total(SizeColumn(table, {})) == 0 && Total(CountColumn(table, {})) == 0
  {
  }

  lemma OneEntryColumns(r: string, entry: CacheState)
    ensures var table := map[r := entry];
            && Total(SizeColumn(table, table.Keys)) == entry.size
            && Total(CountColumn(table, table.Keys)) == entry.fileCount
  {
    hide Total, SizeColumn, CountColumn;
    var table := map[r := entry];
    NoColumns(table);
    ColumnsGrow(table, {}, r);
    assert table.Keys == {} + {r};
  }

  /** Where the table is right about every range, its columns add up to the bytes and files of the ranges. */
  lemma {:induction false} ColumnsAddUp(disk: Disk, table: Table, ranges: set<string>)
    requires Agrees(disk, table) && ranges <= table.Keys
    ensures Total(SizeColumn(table, ranges)) == Total(SizesIn(disk, ranges))
    ensures Total(CountColumn(table, ranges)) == |SizesIn(disk, ranges)|
  {
    hide Total, SizesIn, SizeColumn, CountColumn, Agrees;
    if ranges == {} {
      NoSizes(disk);
      NoColumns(table);
    } else {
      var r :| r in ranges;
      ColumnsAddUp(disk, table, ranges - {r});
      SizesInGrows(disk, table, ranges - {r}, r);
      ColumnsGrow(table, ranges - {r}, r);
      assert ranges - {r} + {r} == ranges;
    }
  }

  lemma TableAddsUp(disk: Disk, table: Table)
    requires Agrees(disk, table)
    ensures Total(SizeColumn(table, table.Keys)) == Total(AllSizes(disk))
    ensures Total(CountColumn(table, table.Keys)) == |AllSizes(disk)|
  {
    ColumnsAddUp(disk, table, table.Keys);
    SizesInAll(disk, table);
  }

  // ------------------------------------------------------------- the invariant

  /**
    Index and gauges tell the truth about the disk: every range's count and size are those
    of its files, and the gauges are the totals.
   */
  ghost predicate Consistent(disk: Disk, table: Table, count: nat, size: nat) {
    && Agrees(disk, table)
    && count == |AllSizes(disk)|
    && size == Total(AllSizes(disk))
  }

  lemma ConsistentParts(disk: Disk, table: Table, count: nat, size: nat)
    ensures Consistent(disk, table, count, size) <==>
            Agrees(disk, table) && count == |AllSizes(disk)| && size == Total(AllSizes(disk))
  {
  }

  lemma EmptyConsistent()
    ensures NamesOk(map[], map[]) && Consistent(map[], map[], 0, 0) && Bounds(map[], OldestOf(map[]))
  {
    assert AllSizes(map[]) == map[];
    TotalEmpty<Path>();
    forall r: string
      ensures AgreesAt(map[], map[], r)
    {
      assert Sizes(map[], r) == map[];
    }
  }

  lemma NotEmpty(disk: Disk, table: Table, count: nat, size: nat)
    requires Consistent(disk, table, count, size) && Total(AllSizes(disk)) > 0
    ensures table != map[]
  {
    var p := TotalPositive(AllSizes(disk));
    Indexed(disk, table, p);
  }

  lemma RemoveConsistent(disk: Disk, table: Table, count: nat, size: nat, p: Path)
    requires Consistent(disk, table, count, size) && p in disk
    ensures var r := RangeOf(p);
            && r in table && table[r].fileCount >= 1 && table[r].size >= disk[p].usage
            && count >= 1 && size >= disk[p].usage
            && Consistent(disk - {p},
                          table[r := CacheState(table[r].fileCount - 1, table[r].size - disk[p].usage,
                                                table[r].oldest)],
                          count - 1, size - disk[p].usage)
  {
    EntryCovers(disk, table, p);
    AllSizesAfterRemove(disk, p);
    var e := table[RangeOf(p)];
    RemoveAgrees(disk, table, p, CacheState(e.fileCount - 1, e.size - disk[p].usage, e.oldest));
  }

  lemma AddConsistent(disk: Disk, table: Table, count: nat, size: nat, p: Path, file: StoredFile, entry: CacheState)
    requires Consistent(disk, table, count, size) && p !in disk
    requires var r := RangeOf(p);
             && entry.fileCount == (if r in table then table[r].fileCount else 0) + 1
             && entry.size == (if r in table then table[r].size else 0) + file.usage
    ensures Consistent(disk[p := file], table[RangeOf(p) := entry], count + 1, size + file.usage)
  {
    AllSizesAfterAdd(disk, p, file);
    AddAgrees(disk, table, p, file, entry);
  }

  lemma TouchConsistent(disk: Disk, table: Table, count: nat, size: nat, p: Path, time: int)
    requires Consistent(disk, table, count, size) && p in disk
    ensures Consistent(disk[p := disk[p].(mtime := time)], table, count, size)
  {
    TouchAgrees(disk, table, p, time);
  }

  lemma TouchNames(disk: Disk, strays: map<Path, int>, p: Path, time: int)
    requires NamesOk(disk, strays) && p in disk
    ensures NamesOk(disk[p := disk[p].(mtime := time)], strays)
  {
    hide WellNamed, FromFileId;
  }

  lemma OldestConsistent(disk: Disk, table: Table, count: nat, size: nat, r: string, oldest: int)
    requires Consistent(disk, table, count, size) && r in table
    ensures Consistent(disk, table[r := table[r].(oldest := oldest)], count, size)
  {
    OldestAgrees(disk, table, r, oldest);
  }

  // -------------------------------------------------- the bound on mtimes

  /** Every file's range is in the table. */
  lemma Indexed(disk: Disk, table: Table, p: Path)
    requires Agrees(disk, table) && p in disk
    ensures RangeOf(p) in table && RangeOf(p) in OldestOf(table)
  {
    assert AgreesAt(disk, table, RangeOf(p));
    assert p in Sizes(disk, RangeOf(p));
  }

  lemma AllIndexed(disk: Disk, table: Table, count: nat, size: nat)
    requires Consistent(disk, table, count, size)
    ensures forall p :: p in disk ==> RangeOf(p) in OldestOf(table)
  {
    forall p | p in disk
      ensures RangeOf(p) in OldestOf(table)
    {
      Indexed(disk, table, p);
    }
  }

  /** Removing a file keeps the bound. */
  lemma BoundsShrink(disk: Disk, oldest: map<string, int>, p: Path)
    requires Bounds(disk, oldest)
    ensures Bounds(disk - {p}, oldest)
  {
  }

  /** Putting a file in place keeps the bound exactly when the file is not older than it. */
  lemma AddBounds(disk: Disk, oldest: map<string, int>, p: Path, file: StoredFile, bound: int)
    requires Bounds(disk, oldest) && p !in disk
    requires RangeOf(p) in oldest ==> bound == oldest[RangeOf(p)]
    requires RangeOf(p) !in oldest ==> forall q :: q in disk ==> RangeOf(q) != RangeOf(p)
    ensures Bounds(disk[p := file], oldest[RangeOf(p) := bound]) <==> bound <= UnixSeconds(file.mtime)
  {
  }

  /** Marking a file as accessed keeps the bound exactly when the clock is not behind it. */
  lemma TouchBounds(disk: Disk, oldest: map<string, int>, p: Path, time: int)
    requires Bounds(disk, oldest) && p in disk && RangeOf(p) in oldest
    ensures Bounds(disk[p := disk[p].(mtime := time)], oldest) <==> oldest[RangeOf(p)] <= UnixSeconds(time)
  {
  }
}
