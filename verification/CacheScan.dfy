/**
  What a directory scan leaves behind, stated without any order: the parallel file tasks
  may complete in any sequence, and the result depends only on the files.
 */
module CacheScan {
  import opened Common
  import opened FileId
  import opened Sums
  import opened CacheIndex
  import opened CacheCleaner

  /** What a scan does with one entry: leave it, delete it, or count it towards a range. */
  datatype Verdict = Skip | Delete | Keep(range: string)

  /** The bytes are those the description promises. */
  predicate Intact(info: CacheFileInfo, content: seq<Byte>, sha1: Sha1) {
    |content| == info.size && sha1(content) == info.hash
  }

  function Judge(p: Path, file: StoredFile, verify: bool, sha1: Sha1): Verdict {
    var info := FromFileId(p.name);
    if info.None? then Skip
    else if |file.content| != info.value.size then Delete
    else if verify && sha1(file.content) != info.value.hash then Delete
    else Keep(StaticRange(info.value))
  }

  /**
    Among `entries`, exactly the corrupt files are gone: those whose size is not the one in their name and, when
    digests are verified, those with another digest. Everything else is as it was.
   */
  ghost predicate Purged(before: Disk, after: Disk, entries: set<Path>, verify: bool, sha1: Sha1) {
    && Subdisk(after, before)
    && forall p :: p in before ==>
         var info, content := FromFileId(p.name), before[p].content;
         p !in after <==>
           && p in entries && info.Some?
           && (|content| != info.value.size || (verify && sha1(content) != info.value.hash))
  }

  function Doomed(disk: Disk, done: set<Path>, verify: bool, sha1: Sha1): set<Path> {
    set p | p in done && p in disk && Judge(p, disk[p], verify, sha1) == Delete
  }

  /** The entries among `done` that count towards range `r`, with the space they occupy. */
  ghost function Kept(disk: Disk, done: set<Path>, verify: bool, sha1: Sha1, r: string): (kept: map<Path, nat>)
    ensures kept.Keys <= disk.Keys
  {
    map p | p in disk && p in done && Judge(p, disk[p], verify, sha1) == Keep(r) :: disk[p].usage
  }

  /** Range `r` after the entries `done` were counted on top of `base`. */
  ghost predicate ScannedAt(disk: Disk, base: Table, table: Table, kept: map<Path, nat>, r: string, past: bool)
    requires kept.Keys <= disk.Keys
  {
    if kept == map[] then
      (r in table <==> r in base) && (r in base ==> table[r] == base[r])
    else
      && r in table
      && table[r].fileCount == (if r in base then base[r].fileCount else 0) + |kept|
      && table[r].size == (if r in base then base[r].size else 0) + Total(kept)
      && (r in base ==> table[r].oldest <= base[r].oldest)
      && (forall p :: p in kept ==> table[r].oldest <= UnixSeconds(disk[p].mtime))
      && (past ==> (r in base && table[r].oldest == base[r].oldest)
                   || exists p :: p in kept && table[r].oldest == UnixSeconds(disk[p].mtime))
  }

  ghost predicate Scanned(disk: Disk, base: Table, table: Table, done: set<Path>, verify: bool, sha1: Sha1,
                          past: bool) {
    forall r: string :: ScannedAt(disk, base, table, Kept(disk, done, verify, sha1, r), r, past)
  }

  /** The table after one more kept entry; a range without an entry starts at the current time. */
  function Counted(table: Table, r: string, file: StoredFile, now: int): Table {
    var state := if r in table then table[r] else CacheState(0, 0, UnixSeconds(now));
    var mtime := UnixSeconds(file.mtime);
    table[r := CacheState(state.fileCount + 1, state.size + file.usage,
                          if state.oldest > mtime then mtime else state.oldest)]
  }

  lemma DoomedArePurged(disk: Disk, entries: set<Path>, verify: bool, sha1: Sha1)
    ensures Purged(disk, disk - Doomed(disk, entries, verify, sha1), entries, verify, sha1)
  {
    hide FromFileId, StaticRange;
  }

  lemma NothingScanned(disk: Disk, base: Table, order: seq<Path>, verify: bool, sha1: Sha1, past: bool)
    ensures Scanned(disk, base, base, Elements(order[..0]), verify, sha1, past)
    ensures disk == disk - Doomed(disk, Elements(order[..0]), verify, sha1)
  {
  }

  lemma KeptGrows(disk: Disk, done: set<Path>, verify: bool, sha1: Sha1, r: string, p: Path)
    requires p !in done
    ensures Kept(disk, done + {p}, verify, sha1, r) ==
            if p in disk && Judge(p, disk[p], verify, sha1) == Keep(r)
            then Kept(disk, done, verify, sha1, r)[p := disk[p].usage] else Kept(disk, done, verify, sha1, r)
  {
    hide Judge;
  }

  lemma CountedAt(disk: Disk, base: Table, table: Table, kept: map<Path, nat>, r: string, past: bool, p: Path, now: int)
    requires kept.Keys <= disk.Keys && p in disk && p !in kept
    requires ScannedAt(disk, base, table, kept, r, past)
    requires past ==> UnixSeconds(disk[p].mtime) <= UnixSeconds(now)
    ensures ScannedAt(disk, base, Counted(table, r, disk[p], now), kept[p := disk[p].usage], r, past)
  {
    TotalInsert(kept, p, disk[p].usage);
    var more := kept[p := disk[p].usage];
    assert p in more;
    if past && kept != map[] && !(r in base && table[r].oldest == base[r].oldest) {
      var q :| q in kept && table[r].oldest == UnixSeconds(disk[q].mtime);
      assert q in more;
    }
  }

  /** Handling one more entry, in whatever order, extends the account to it. */
  lemma ScanStep(disk: Disk, base: Table, table: Table, done: set<Path>, verify: bool, sha1: Sha1, past: bool,
                 p: Path, now: int)
    requires Scanned(disk, base, table, done, verify, sha1, past) && p !in done
    requires past && p in disk ==> UnixSeconds(disk[p].mtime) <= UnixSeconds(now)
    ensures Scanned(disk, base,
                    if p in disk && Judge(p, disk[p], verify, sha1).Keep?
                    then Counted(table, Judge(p, disk[p], verify, sha1).range, disk[p], now) else table,
                    done + {p}, verify, sha1, past)
  {
    hide Judge, ScannedAt, Kept;
    var keep := p in disk && Judge(p, disk[p], verify, sha1).Keep?;
    var range := if keep then Judge(p, disk[p], verify, sha1).range else "";
    var table' := if keep then Counted(table, range, disk[p], now) else table;
    forall r: string
      ensures ScannedAt(disk, base, table', Kept(disk, done + {p}, verify, sha1, r), r, past)
    {
      ScanStepAt(disk, base, table, table', done, verify, sha1, past, p, now, r);
    }
  }

  lemma ScanStepAt(disk: Disk, base: Table, table: Table, table': Table, done: set<Path>, verify: bool, sha1: Sha1,
                   past: bool, p: Path, now: int, r: string)
    requires ScannedAt(disk, base, table, Kept(disk, done, verify, sha1, r), r, past) && p !in done
    requires past && p in disk ==> UnixSeconds(disk[p].mtime) <= UnixSeconds(now)
    requires table' == if p in disk && Judge(p, disk[p], verify, sha1).Keep?
                       then Counted(table, Judge(p, disk[p], verify, sha1).range, disk[p], now) else table
    ensures ScannedAt(disk, base, table', Kept(disk, done + {p}, verify, sha1, r), r, past)
  {
    hide Judge;
    KeptGrows(disk, done, verify, sha1, r, p);
    if p in disk && Judge(p, disk[p], verify, sha1) == Keep(r) {
      CountedAt(disk, base, table, Kept(disk, done, verify, sha1, r), r, past, p, now);
    } else {
      assert r in table' <==> r in table;
      assert r in table ==> table'[r] == table[r];
    }
  }

  // ------------------------------------------------------------ consequences

  /** The account fixes the table: every completion order ends in the same one. */
  lemma ScanOrderIrrelevant(disk: Disk, base: Table, a: Table, b: Table, done: set<Path>, verify: bool, sha1: Sha1)
    requires Scanned(disk, base, a, done, verify, sha1, true) && Scanned(disk, base, b, done, verify, sha1, true)
    ensures a == b
  {
    hide Judge;
    forall r: string
      ensures (r in a <==> r in b) && (r in a ==> a[r] == b[r])
    {
      var kept := Kept(disk, done, verify, sha1, r);
      assert ScannedAt(disk, base, a, kept, r, true) && ScannedAt(disk, base, b, kept, r, true);
    }
  }

  lemma JudgeWellNamed(p: Path, file: StoredFile, verify: bool, sha1: Sha1)
    requires WellNamed(p)
    ensures Judge(p, file, verify, sha1) == Delete || Judge(p, file, verify, sha1) == Keep(RangeOf(p))
    ensures InDir(p, RangeOf(p))
  {
    ParsedStorable(p);
    Placed(FromFileId(p.name).value);
  }

  /** With names the cache writes, a scan of directory `sr` counts exactly the files it leaves there. */
  lemma KeptAreThoseLeft(disk: Disk, strays: map<Path, int>, sr: string, done: set<Path>, verify: bool, sha1: Sha1,
                         r: string)
    requires NamesOk(disk, strays)
    requires forall p :: p in done <==> (p in disk || p in strays) && InDir(p, sr)
    ensures var left := disk - Doomed(disk, done, verify, sha1);
            if r == sr then Kept(disk, done, verify, sha1, r) == Sizes(left, r)
            else Kept(disk, done, verify, sha1, r) == map[] && Sizes(left, r) == Sizes(disk, r)
  {
    hide FromFileId, WellNamed, Judge;
    forall p | p in disk
      ensures Judge(p, disk[p], verify, sha1) == Delete || Judge(p, disk[p], verify, sha1) == Keep(RangeOf(p))
      ensures InDir(p, RangeOf(p))
    {
      JudgeWellNamed(p, disk[p], verify, sha1);
    }
    var left := disk - Doomed(disk, done, verify, sha1);
    if r == sr {
      KeptIsLeft(disk, done, verify, sha1, r);
    } else {
      assert Kept(disk, done, verify, sha1, r) == map[];
      assert Sizes(left, r) == Sizes(disk, r);
    }
  }

  lemma KeptIsLeft(disk: Disk, done: set<Path>, verify: bool, sha1: Sha1, r: string)
    requires forall p :: p in disk ==>
               Judge(p, disk[p], verify, sha1) == Delete || Judge(p, disk[p], verify, sha1) == Keep(RangeOf(p))
    requires forall p :: p in disk && RangeOf(p) == r ==> p in done
    ensures Kept(disk, done, verify, sha1, r) == Sizes(disk - Doomed(disk, done, verify, sha1), r)
  {
  }

  // ------------------------------------------------------------ rescanning

  /** Directory `sr` holds as many entries as the table says, so a scan takes it as it is. */
  ghost predicate Settled(entries: set<Path>, table: Table, sr: string) {
    |entries| == if sr in table then table[sr].fileCount else 0
  }

  ghost function DirEntries(disk: Disk, strays: map<Path, int>, sr: string): set<Path> {
    set p | p in disk.Keys + strays.Keys && InDir(p, sr)
  }

  ghost predicate Lists(order: seq<Path>, entries: set<Path>) {
    Elements(order) == entries && forall i, j :: 0 <= i < j < |order| ==> order[i] != order[j]
  }

  lemma {:induction false} ListsLength(order: seq<Path>, entries: set<Path>)
    requires Lists(order, entries)
    ensures |order| == |entries|
  {
    if order != [] {
      var last := order[|order| - 1];
      assert Elements(order[..|order| - 1]) == entries - {last};
      ListsLength(order[..|order| - 1], entries - {last});
    }
  }

  lemma NextEntry(disk: Disk, order: seq<Path>, i: nat, verify: bool, sha1: Sha1)
    requires i < |order| && forall i, j :: 0 <= i < j < |order| ==> order[i] != order[j]
    ensures order[i] !in Elements(order[..i])
    ensures Elements(order[..i + 1]) == Elements(order[..i]) + {order[i]}
    ensures var p := order[i];
            && (p in disk ==> p in disk - Doomed(disk, Elements(order[..i]), verify, sha1))
            && disk - Doomed(disk, Elements(order[..i + 1]), verify, sha1) ==
               if p in disk && Judge(p, disk[p], verify, sha1) == Delete
               then disk - Doomed(disk, Elements(order[..i]), verify, sha1) - {p}
               else disk - Doomed(disk, Elements(order[..i]), verify, sha1)
  {
    hide Judge;
    assert order[..i + 1] == order[..i] + [order[i]];
    assert order[i] !in order[..i];
  }

  lemma EntriesLeft(disk: Disk, strays: map<Path, int>, sr: string, verify: bool, sha1: Sha1)
    requires disk.Keys !! strays.Keys
    ensures var entries := DirEntries(disk, strays, sr);
            DirEntries(disk - Doomed(disk, entries, verify, sha1), strays, sr) ==
            entries - Doomed(disk, entries, verify, sha1)
  {
  }

  /** Every entry is a file whose name parses and, if valid, belongs to `sr`. */
  ghost predicate AllBelong(disk: Disk, entries: set<Path>, sr: string, verify: bool, sha1: Sha1) {
    forall p :: p in entries ==>
      p in disk && (Judge(p, disk[p], verify, sha1) == Delete || Judge(p, disk[p], verify, sha1) == Keep(sr))
  }

  /** After a scan of a directory without foreign entries, a second scan has nothing to do. */
  lemma RescanSettles(disk: Disk, base: Table, table: Table, entries: set<Path>, sr: string, verify: bool, sha1: Sha1,
                      past: bool)
    requires Scanned(disk, base, table, entries, verify, sha1, past) && sr !in base
    requires AllBelong(disk, entries, sr, verify, sha1)
    ensures Settled(entries - Doomed(disk, entries, verify, sha1), table, sr)
  {
    hide Judge;
    var kept := Kept(disk, entries, verify, sha1, sr);
    assert ScannedAt(disk, base, table, kept, sr, past);
    assert kept.Keys == entries - Doomed(disk, entries, verify, sha1);
    assert |kept| == |kept.Keys|;
  }

  // ------------------------------------------- from trusted ranges to the whole

  /** The table is right about range `r`, including its bound on modification times. */
  ghost predicate RightAt(disk: Disk, table: Table, r: string) {
    AgreesAt(disk, table, r) &&
    forall p :: p in disk && RangeOf(p) == r && r in table ==> table[r].oldest <= UnixSeconds(disk[p].mtime)
  }

  /** A rescanned range is right, and a range not looked at stays as it was. */
  lemma ScanMakesRight(disk: Disk, strays: map<Path, int>, table: Table, table': Table, sr: string, verify: bool,
                       sha1: Sha1, past: bool, r: string)
    requires NamesOk(disk, strays)
    requires var entries := DirEntries(disk, strays, sr);
             Scanned(disk, table - {sr}, table', entries, verify, sha1, past)
    ensures var disk' := disk - Doomed(disk, DirEntries(disk, strays, sr), verify, sha1);
            if r == sr then RightAt(disk', table', r)
            else
              && (r in table' <==> r in table) && (r in table ==> table'[r] == table[r])
              && (RightAt(disk, table, r) <==> RightAt(disk', table', r))
  {
    hide Judge, FromFileId, WellNamed, NamesOk;
    var entries := DirEntries(disk, strays, sr);
    var kept := Kept(disk, entries, verify, sha1, r);
    var disk' := disk - Doomed(disk, entries, verify, sha1);
    KeptAreThoseLeft(disk, strays, sr, entries, verify, sha1, r);
    assert ScannedAt(disk, table - {sr}, table', kept, r, past);
    if r == sr {
      assert kept == Sizes(disk', r);
    }
  }

  /** If the entry count matches, the saved state of the range is right. */
  ghost predicate Trusted(disk: Disk, strays: map<Path, int>, table: Table, r: string) {
    Settled(DirEntries(disk, strays, r), table, r) ==> RightAt(disk, table, r)
  }

  lemma NamesDisjoint(disk: Disk, strays: map<Path, int>)
    requires NamesOk(disk, strays)
    ensures disk.Keys !! strays.Keys
  {
  }

  /**
    What a scan does to the files of range `r`: nothing if the directory holds as many entries as the table says;
    otherwise exactly the corrupt ones go.
   */
  ghost predicate ScannedFiles(before: Disk, table: Table, after: Disk, strays: map<Path, int>, r: string, verify: bool,
                               sha1: Sha1) {
    forall p :: p in before && RangeOf(p) == r ==>
      var info, content := FromFileId(p.name), before[p].content;
      p !in after <==>
        && |DirEntries(before, strays, r)| != (if r in table then table[r].fileCount else 0)
        && info.Some? && (|content| != info.value.size || (verify && sha1(content) != info.value.hash))
  }

  /** Range `r` is as it was: its files, its entry, and whether the two counts match. */
  ghost predicate Untouched(before: Disk, table: Table, after: Disk, table': Table, strays: map<Path, int>, r: string) {
    && SameEntry(table, table', r)
    && (forall p :: p in before && RangeOf(p) == r ==> p in after)
    && DirEntries(after, strays, r) == DirEntries(before, strays, r)
  }

  /**
    Scanning range `sr` makes the table right about it, unless a wrong saved state is taken as it is; of the other
    ranges nothing changes.
   */
  ghost predicate ScanEffect(disk: Disk, table: Table, disk': Disk, table': Table, strays: map<Path, int>, sr: string,
                             verify: bool, sha1: Sha1) {
    && NamesOk(disk', strays) && Subdisk(disk', disk) && ScannedFiles(disk, table, disk', strays, sr, verify, sha1)
    && (RightAt(disk', table', sr) <==> Trusted(disk, strays, table, sr))
    && (forall r: string :: r != sr ==>
          && Untouched(disk, table, disk', table', strays, r)
          && (RightAt(disk, table, r) <==> RightAt(disk', table', r))
          && (Trusted(disk, strays, table, r) <==> Trusted(disk', strays, table', r)))
  }

  ghost predicate SameEntry(table: Table, table': Table, r: string) {
    (r in table' <==> r in table) && (r in table ==> table'[r] == table[r])
  }

  lemma ScanSkipped(disk: Disk, table: Table, strays: map<Path, int>, sr: string, verify: bool, sha1: Sha1)
    requires NamesOk(disk, strays) && Settled(DirEntries(disk, strays, sr), table, sr)
    ensures ScanEffect(disk, table, disk, table, strays, sr, verify, sha1) && Subdisk(disk, disk)
  {
    hide RightAt, NamesOk, DirEntries, FromFileId;
  }

  lemma ScanDone(disk: Disk, table: Table, table': Table, strays: map<Path, int>, sr: string, verify: bool, sha1: Sha1)
    requires NamesOk(disk, strays) && !Settled(DirEntries(disk, strays, sr), table, sr)
    requires Scanned(disk, table - {sr}, table', DirEntries(disk, strays, sr), verify, sha1, false)
    ensures var disk' := disk - Doomed(disk, DirEntries(disk, strays, sr), verify, sha1);
            && ScanEffect(disk, table, disk', table', strays, sr, verify, sha1)
            && NamesOk(disk', strays) && Subdisk(disk', disk)
  {
    hide Judge, WellNamed, FromFileId, Scanned, RightAt, Settled, DirEntries, Untouched, ScannedFiles;
    var disk' := disk - Doomed(disk, DirEntries(disk, strays, sr), verify, sha1);
    PurgedRange(disk, table, strays, sr, verify, sha1);
    forall r: string
      ensures r == sr ==> RightAt(disk', table', r)
      ensures r != sr ==> Untouched(disk, table, disk', table', strays, r)
      ensures r != sr ==> (RightAt(disk, table, r) <==> RightAt(disk', table', r))
      ensures r != sr ==> (Trusted(disk, strays, table, r) <==> Trusted(disk', strays, table', r))
    {
      ScanMakesRight(disk, strays, table, table', sr, verify, sha1, false, r);
      if r != sr {
        OtherEntries(disk, table, table', strays, sr, verify, sha1, r);
        assert DirEntries(disk', strays, r) == DirEntries(disk, strays, r) by {
          UntouchedEntries(disk, table, disk', table', strays, r);
        }
        SettledSame(DirEntries(disk, strays, r), table, table', r);
      }
    }
  }

  lemma PurgedRange(disk: Disk, table: Table, strays: map<Path, int>, sr: string, verify: bool, sha1: Sha1)
    requires NamesOk(disk, strays) && !Settled(DirEntries(disk, strays, sr), table, sr)
    ensures var disk' := disk - Doomed(disk, DirEntries(disk, strays, sr), verify, sha1);
            ScannedFiles(disk, table, disk', strays, sr, verify, sha1)
  {
    hide Judge, WellNamed, FromFileId, NamesOk, Doomed;
    var entries := DirEntries(disk, strays, sr);
    DoomedArePurged(disk, entries, verify, sha1);
    forall p | p in disk && RangeOf(p) == sr
      ensures p in entries
    {
      ListedName(disk, strays, p);
    }
  }

  lemma OtherEntries(disk: Disk, table: Table, table': Table, strays: map<Path, int>, sr: string, verify: bool,
                     sha1: Sha1, r: string)
    requires r != sr && SameEntry(table, table', r)
    ensures var disk' := disk - Doomed(disk, DirEntries(disk, strays, sr), verify, sha1);
            Untouched(disk, table, disk', table', strays, r)
  {
    hide Judge;
  }

  /** The start-up scan after `j` of the directories `found`. */
  ghost predicate ScanProgress(first: Disk, firstTable: Table, disk: Disk, table: Table, strays: map<Path, int>,
                               dirs: set<string>, found: seq<string>, j: nat, verify: bool, sha1: Sha1)
    requires j <= |found|
  {
    && NamesOk(disk, strays) && Subdisk(disk, first)
    && (j == 0 ==> disk == first && table == firstTable)
    && (forall r :: r !in dirs ==> SameEntry(firstTable, table, r))
    && (forall i :: 0 <= i < j ==> ScannedFiles(first, firstTable, disk, strays, found[i], verify, sha1))
    && (forall i :: 0 <= i < j ==>
          (RightAt(disk, table, found[i]) <==> Trusted(first, strays, firstTable, found[i])))
    && (forall i :: j <= i < |found| ==> Untouched(first, firstTable, disk, table, strays, found[i]))
    && (forall i :: j <= i < |found| ==>
          (Trusted(disk, strays, table, found[i]) <==> Trusted(first, strays, firstTable, found[i])))
  }

  lemma ScanStarts(disk: Disk, table: Table, strays: map<Path, int>, dirs: set<string>, found: seq<string>,
                   verify: bool, sha1: Sha1)
    requires NamesOk(disk, strays)
    ensures ScanProgress(disk, table, disk, table, strays, dirs, found, 0, verify, sha1)
  {
    hide NamesOk, Trusted, DirEntries, RangeOf;
  }

  lemma ScanProgresses(first: Disk, firstTable: Table, before: Disk, table: Table, after: Disk, table': Table,
                       strays: map<Path, int>, dirs: set<string>, found: seq<string>, j: nat, verify: bool, sha1: Sha1)
    requires j < |found| && (forall i, k :: 0 <= i < k < |found| ==> found[i] != found[k])
    requires forall i :: 0 <= i < |found| ==> found[i] in dirs
    requires ScanProgress(first, firstTable, before, table, strays, dirs, found, j, verify, sha1)
    requires ScanEffect(before, table, after, table', strays, found[j], verify, sha1)
    requires NamesOk(after, strays) && Subdisk(after, before)
    ensures ScanProgress(first, firstTable, after, table', strays, dirs, found, j + 1, verify, sha1)
  {
    hide NamesOk, RightAt, Trusted, RangeOf, DirEntries, ScannedFiles, Untouched, SameEntry, Subdisk, ScanEffect;
    ScanFilesStep(first, firstTable, before, table, after, table', strays, found, j, verify, sha1);
    SubdiskChain(first, before, after);
    forall r: string
      ensures r !in dirs ==> SameEntry(firstTable, table', r)
      ensures r == found[j] ==> (RightAt(after, table', r) <==> Trusted(before, strays, table, r))
      ensures r != found[j] ==> (RightAt(before, table, r) <==> RightAt(after, table', r))
      ensures r != found[j] ==> (Trusted(before, strays, table, r) <==> Trusted(after, strays, table', r))
    {
      EffectAt(first, firstTable, before, table, after, table', strays, found[j], verify, sha1, r);
    }
  }

  /** What scanning `sr` means for range `r`. */
  lemma EffectAt(first: Disk, firstTable: Table, before: Disk, table: Table, after: Disk, table': Table,
                 strays: map<Path, int>, sr: string, verify: bool, sha1: Sha1, r: string)
    requires ScanEffect(before, table, after, table', strays, sr, verify, sha1)
    ensures r == sr ==> (RightAt(after, table', r) <==> Trusted(before, strays, table, r))
    ensures r != sr && SameEntry(firstTable, table, r) ==> SameEntry(firstTable, table', r)
    ensures r != sr ==> (RightAt(before, table, r) <==> RightAt(after, table', r))
    ensures r != sr ==> (Trusted(before, strays, table, r) <==> Trusted(after, strays, table', r))
  {
    hide NamesOk, RightAt, Trusted, DirEntries, ScannedFiles;
    if r != sr {
      assert Untouched(before, table, after, table', strays, r);
    }
  }

  lemma SubdiskChain(first: Disk, before: Disk, after: Disk)
    requires Subdisk(before, first) && Subdisk(after, before)
    ensures Subdisk(after, first)
  {
  }

  lemma StillInDirs(before: Disk, after: Disk, dirs: set<string>)
    requires Subdisk(after, before) && forall p :: p in before ==> RangeOf(p) in dirs
    ensures forall p :: p in after ==> RangeOf(p) in dirs
  {
  }

  /** When all directories are done, every one of them has been judged. */
  lemma ScanEnds(first: Disk, firstTable: Table, disk: Disk, table: Table, strays: map<Path, int>, dirs: set<string>,
                 found: seq<string>, verify: bool, sha1: Sha1)
    requires ScanProgress(first, firstTable, disk, table, strays, dirs, found, |found|, verify, sha1)
    requires forall r :: r in dirs ==> r in found
    ensures forall r :: r in dirs ==> ScannedFiles(first, firstTable, disk, strays, r, verify, sha1)
    ensures forall r :: r in dirs ==> (RightAt(disk, table, r) <==> Trusted(first, strays, firstTable, r))
    ensures forall r :: r !in dirs ==> SameEntry(firstTable, table, r)
    ensures NothingStale(firstTable, dirs) <==> NothingStale(table, dirs)
    ensures firstTable.Keys <= dirs <==> table.Keys <= dirs
    ensures NamesOk(disk, strays) && Subdisk(disk, first)
    ensures found == [] ==> disk == first && table == firstTable
  {
    hide NamesOk, RightAt, Trusted, ScannedFiles, Subdisk;
  }

  lemma UntouchedEntries(before: Disk, table: Table, after: Disk, table': Table, strays: map<Path, int>, r: string)
    requires Untouched(before, table, after, table', strays, r)
    ensures DirEntries(after, strays, r) == DirEntries(before, strays, r) && SameEntry(table, table', r)
  {
  }

  /** One more range of a scan: its files are judged as they were at the start, since nothing touched them. */
  lemma ScanFilesStep(first: Disk, firstTable: Table, before: Disk, table: Table, after: Disk, table': Table,
                      strays: map<Path, int>, found: seq<string>, j: nat, verify: bool, sha1: Sha1)
    requires j < |found| && forall i, k :: 0 <= i < k < |found| ==> found[i] != found[k]
    requires Subdisk(before, first) && ScanEffect(before, table, after, table', strays, found[j], verify, sha1)
    requires forall i :: 0 <= i < j ==> ScannedFiles(first, firstTable, before, strays, found[i], verify, sha1)
    requires forall i :: j <= i < |found| ==> Untouched(first, firstTable, before, table, strays, found[i])
    ensures forall i :: 0 <= i <= j ==> ScannedFiles(first, firstTable, after, strays, found[i], verify, sha1)
    ensures forall i :: j < i < |found| ==> Untouched(first, firstTable, after, table', strays, found[i])
  {
    hide NamesOk, RightAt, Trusted, FromFileId, RangeOf, DirEntries;
    forall i | 0 <= i <= j
      ensures ScannedFiles(first, firstTable, after, strays, found[i], verify, sha1)
    {
      if i < j {
        assert ScannedFiles(first, firstTable, before, strays, found[i], verify, sha1);
        assert Untouched(before, table, after, table', strays, found[i]);
      } else {
        assert Untouched(first, firstTable, before, table, strays, found[j]);
      }
    }
    forall i | j < i < |found|
      ensures Untouched(first, firstTable, after, table', strays, found[i])
    {
      assert Untouched(first, firstTable, before, table, strays, found[i]);
      assert Untouched(before, table, after, table', strays, found[i]);
    }
  }

  lemma SettledSame(entries: set<Path>, table: Table, table': Table, r: string)
    requires (r in table' <==> r in table) && (r in table ==> table'[r] == table[r])
    ensures Settled(entries, table, r) == Settled(entries, table', r)
  {
  }

  /** A verifying scan leaves only intact files in the directories it looked into. */
  lemma LeftAreIntact(before: Disk, table: Table, after: Disk, strays: map<Path, int>, dirs: set<string>, verify: bool,
                      sha1: Sha1)
    requires NamesOk(before, strays) && Subdisk(after, before) && forall p :: p in before ==> RangeOf(p) in dirs
    requires forall r :: r in dirs ==> ScannedFiles(before, table, after, strays, r, verify, sha1)
    ensures verify ==> forall p :: p in after ==>
              || Settled(DirEntries(before, strays, RangeOf(p)), table, RangeOf(p))
              || (FromFileId(p.name).Some? && Intact(FromFileId(p.name).value, after[p].content, sha1))
  {
    hide FromFileId, DirEntries, RangeOf, NamesOk;
    forall p | p in after
      ensures FromFileId(p.name).Some? && ScannedFiles(before, table, after, strays, RangeOf(p), verify, sha1)
    {
      ListedName(before, strays, p);
    }
  }

  /** Entries of ranges whose directory does not exist claim no files. */
  ghost predicate NothingStale(table: Table, dirs: set<string>) {
    forall r :: r in table && r !in dirs ==> table[r].fileCount == 0 && table[r].size == 0
  }

  lemma SameEverywhere(table: Table, table': Table)
    requires forall r: string :: SameEntry(table, table', r)
    ensures table' == table
  {
    forall r: string
      ensures (r in table' <==> r in table) && (r in table ==> table'[r] == table[r])
    {
      assert SameEntry(table, table', r);
    }
  }

  lemma StaleIsWrong(table: Table, r: string)
    requires r in table && table[r].fileCount > 0
    ensures !Agrees(map[], table)
  {
    assert Sizes(map[], r) == map[];
    assert !AgreesAt(map[], table, r);
  }

  lemma EmptyRange(disk: Disk, table: Table, r: string)
    requires forall p :: p in disk ==> RangeOf(p) != r
    ensures RightAt(disk, table, r) <==> (r in table ==> table[r].fileCount == 0 && table[r].size == 0)
  {
    assert Sizes(disk, r) == map[];
    TotalEmpty<Path>();
  }

  /** The table is right about everything exactly when it is right about every directory and holds nothing stale. */
  lemma RightEverywhereIff(disk: Disk, table: Table, dirs: set<string>)
    requires forall p :: p in disk ==> RangeOf(p) in dirs
    ensures Agrees(disk, table) && Bounds(disk, OldestOf(table)) <==>
            NothingStale(table, dirs) && forall r :: r in dirs ==> RightAt(disk, table, r)
  {
    RightParts(disk, table);
    hide RightAt, Agrees, Bounds, OldestOf, RangeOf;
    forall r: string | r !in dirs
      ensures RightAt(disk, table, r) <==> (r in table ==> table[r].fileCount == 0 && table[r].size == 0)
    {
      EmptyRange(disk, table, r);
    }
    if forall r: string :: RightAt(disk, table, r) {
      assert NothingStale(table, dirs);
    } else if NothingStale(table, dirs) {
      var r: string :| !RightAt(disk, table, r);
      assert r in dirs;
    }
  }

  lemma RightParts(disk: Disk, table: Table)
    ensures Agrees(disk, table) && Bounds(disk, OldestOf(table)) <==> forall r: string :: RightAt(disk, table, r)
  {
    if forall r: string :: RightAt(disk, table, r) {
      forall p | p in disk && RangeOf(p) in table
        ensures table[RangeOf(p)].oldest <= UnixSeconds(disk[p].mtime)
      {
        assert RightAt(disk, table, RangeOf(p));
      }
      forall r: string
        ensures AgreesAt(disk, table, r)
      {
        assert RightAt(disk, table, r);
      }
    }
  }
}
