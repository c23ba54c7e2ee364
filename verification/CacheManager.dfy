/**
  The cache manager: import, removal, access marking and the cleaner, acting on a disk,
  a per-range table and two gauges.
 */
module CacheManager {
  import opened Common
  import opened FileId
  import opened Sums
  import opened CacheIndex
  import opened CacheCleaner
  import opened CacheScan

  class CacheManager {
    /** The files below the cache directory, and the range directories that exist there. */
    var disk: Disk
    var strays: map<Path, int>
    var dirs: set<string>

    var cacheState: Table
    var cacheCount: nat
    var cacheSize: nat
    var sizeLimit: nat

    ghost predicate Valid()
      reads this
    {
      NamesOk(disk, strays) && Consistent(disk, cacheState, cacheCount, cacheSize)
    }

    /** `oldest` of every range is a lower bound on the modification times of its files. */
    ghost predicate Bounded()
      reads this
    {
      Bounds(disk, OldestOf(cacheState))
    }

    /** An empty cache. */
    constructor (sizeLimit: nat)
      ensures disk == map[] && strays == map[] && dirs == {} && cacheState == map[]
      ensures this.sizeLimit == sizeLimit && Valid() && Bounded()
    {
      this.sizeLimit := sizeLimit;
      disk, strays, dirs := map[], map[], {};
      cacheState, cacheCount, cacheSize := map[], 0, 0;
      new;
      EmptyConsistent();
    }

    /** Deletes the file of `info`; the subtractions are on unsigned counters. */
    method RemoveCache(info: CacheFileInfo) returns (found: bool)
      requires Valid() && Storable(info.fileType)
      modifies this`disk, this`cacheState, this`cacheCount, this`cacheSize
      ensures Valid()
      ensures found <==> ToPath(info) in old(disk)
      ensures disk == old(disk) - {ToPath(info)}
      ensures OldestOf(cacheState) == old(OldestOf(cacheState))
    {
      hide Consistent, WellNamed, FromFileId, ToPath, StaticRange, Storable;
      var path := ToPath(info);
      Placed(info);
      if path !in disk {
        assert disk - {path} == disk;
        return false;
      }
      RemoveConsistent(disk, cacheState, cacheCount, cacheSize, path);
      var size := disk[path].usage;
      disk := disk - {path};
      var range := StaticRange(info);
      if range in cacheState {
        var state := cacheState[range];
        cacheState := cacheState[range := CacheState(state.fileCount - 1, state.size - size, state.oldest)];
      }
      cacheCount := cacheCount - 1;
      cacheSize := cacheSize - size;
      return true;
    }

    /**
      Moves a finished download into the cache, over any file already there. The lower bound
      on modification times survives exactly when the file is not older than the range's bound.
     */
    method ImportCache(info: CacheFileInfo, file: StoredFile, now: int)
      requires Valid() && Storable(info.fileType)
      modifies this`disk, this`dirs, this`cacheState, this`cacheCount, this`cacheSize
      ensures Valid()
      ensures disk == old(disk)[ToPath(info) := file]
      ensures dirs == old(dirs) + {StaticRange(info)}
      ensures OldestOf(cacheState) ==
              if StaticRange(info) in old(cacheState) then old(OldestOf(cacheState))
              else old(OldestOf(cacheState))[StaticRange(info) := UnixSeconds(now)]
      ensures old(Bounded()) ==>
                (Bounded() <==> OldestOf(cacheState)[StaticRange(info)] <= UnixSeconds(file.mtime))
    {
      hide Consistent, WellNamed, FromFileId, ToPath, StaticRange, Storable, Bounds, OldestOf;
      var path, range := ToPath(info), StaticRange(info);
      Placed(info);
      dirs := dirs + {range};
      var _ := RemoveCache(info);
      var state := if range in cacheState then cacheState[range] else CacheState(0, 0, UnixSeconds(now));
      var entry := CacheState(state.fileCount + 1, state.size + file.usage, state.oldest);
      AddConsistent(disk, cacheState, cacheCount, cacheSize, path, file, entry);
      OldestOfUpdate(cacheState, range, entry);
      OldestOfAt(cacheState, range);
      OldestOfAt(old(cacheState), range);
      if old(Bounded()) {
        BoundsShrink(old(disk), OldestOf(cacheState), path);
        AllIndexed(disk, cacheState, cacheCount, cacheSize);
        AddBounds(disk, OldestOf(cacheState), path, file, entry.oldest);
      }
      disk := disk[path := file];
      cacheState := cacheState[range := entry];
      cacheCount := cacheCount + 1;
      cacheSize := cacheSize + file.usage;
    }

    /**
      A download that was written before its range's first import breaks the bound at once: the range is entered
      with the time of the import, the file keeps the time of its last write.
     */
    static method OldImportBreaksBound(info: CacheFileInfo) returns (m: CacheManager)
      requires Storable(info.fileType)
      ensures m.disk == map[ToPath(info) := StoredFile([], 0, 99 * SECOND)]
      ensures OldestOf(m.cacheState) == map[StaticRange(info) := 100]
      ensures m.Valid() && !m.Bounded()
    {
      hide Consistent, WellNamed, FromFileId, ToPath, StaticRange, Storable, Bounds, NamesOk;
      m := new CacheManager(0);
      m.ImportCache(info, StoredFile([], 0, 99 * SECOND), 100 * SECOND);
    }

    /** Sets the modification time of an accessed file to the current time. */
    method MarkRecentlyAccessed(info: CacheFileInfo, now: int)
      requires Valid() && Storable(info.fileType)
      modifies this`disk
      ensures Valid()
      ensures disk == if ToPath(info) in old(disk)
                      then old(disk)[ToPath(info) := old(disk)[ToPath(info)].(mtime := now)] else old(disk)
      ensures old(Bounded()) && ToPath(info) in disk ==>
                && StaticRange(info) in cacheState
                && (Bounded() <==> cacheState[StaticRange(info)].oldest <= UnixSeconds(now))
    {
      hide Consistent, NamesOk, WellNamed, FromFileId, ToPath, StaticRange, Storable, Bounds, Agrees, RangeOf;
      var path := ToPath(info);
      if path in disk {
        Placed(info);
        TouchNames(disk, strays, path, now);
        TouchConsistent(disk, cacheState, cacheCount, cacheSize, path, now);
        ConsistentParts(disk, cacheState, cacheCount, cacheSize);
        Indexed(disk, cacheState, path);
        if Bounded() {
          TouchBounds(disk, OldestOf(cacheState), path, now);
        }
        disk := disk[path := disk[path].(mtime := now)];
      }
    }

    // ----------------------------------------------------------------- scan

    /** One file task: skips, deletes or counts the entry. */
    method ScanEntry(p: Path, verify: bool, sha1: Sha1, now: int)
      modifies this`disk, this`cacheState
      ensures disk == if p in old(disk) && Judge(p, old(disk)[p], verify, sha1) == Delete
                      then old(disk) - {p} else old(disk)
      ensures Purged(old(disk), disk, {p}, verify, sha1)
      ensures cacheState == if p in old(disk) && Judge(p, old(disk)[p], verify, sha1).Keep?
                            then Counted(old(cacheState), Judge(p, old(disk)[p], verify, sha1).range, old(disk)[p], now)
                            else old(cacheState)
    {
      hide FromFileId, StaticRange;
      if p !in disk {
        return;
      }
      var file := disk[p];
      var info := FromFileId(p.name);
      if info.None? {
        return;
      }
      if |file.content| != info.value.size {
        disk := disk - {p};
        return;
      }
      if verify && sha1(file.content) != info.value.hash {
        disk := disk - {p};
        return;
      }
      var range, mtime := StaticRange(info.value), UnixSeconds(file.mtime);
      var state := if range in cacheState then cacheState[range] else CacheState(0, 0, UnixSeconds(now));
      state := CacheState(state.fileCount + 1, state.size + file.usage, state.oldest);
      if state.oldest > mtime {
        state := state.(oldest := mtime);
      }
      cacheState := cacheState[range := state];
    }

    /**
      Scans one range directory; `order` is the sequence in which the parallel file tasks reach
      the table. A directory with as many entries as the table says is taken as it is. Otherwise
      the outcome is the order-free account of the entries.
     */
    method ScanRange(sr: string, order: seq<Path>, verify: bool, sha1: Sha1, clock: nat -> int, ghost past: bool)
      requires disk.Keys !! strays.Keys && Lists(order, DirEntries(disk, strays, sr))
      requires past ==> forall i, p :: p in disk ==> UnixSeconds(disk[p].mtime) <= UnixSeconds(clock(i))
      modifies this`disk, this`cacheState
      ensures Settled(Elements(order), old(cacheState), sr) ==> disk == old(disk) && cacheState == old(cacheState)
      ensures !Settled(Elements(order), old(cacheState), sr) ==>
                && disk == old(disk) - Doomed(old(disk), Elements(order), verify, sha1)
                && Purged(old(disk), disk, Elements(order), verify, sha1)
                && Scanned(old(disk), old(cacheState) - {sr}, cacheState, Elements(order), verify, sha1, past)
                && (AllBelong(old(disk), Elements(order), sr, verify, sha1) ==>
                      Settled(DirEntries(disk, strays, sr), cacheState, sr))
    {
      hide Judge, Scanned, AllBelong, Elements, DirEntries, Doomed, Counted, Purged;
      ListsLength(order, DirEntries(disk, strays, sr));
      if |order| == (if sr in cacheState then cacheState[sr].fileCount else 0) {
        return;
      }
      cacheState := cacheState - {sr};
      ghost var base := cacheState;
      NothingScanned(disk, base, order, verify, sha1, past);
      var i := 0;
      while i < |order|
        invariant i <= |order|
        invariant disk == old(disk) - Doomed(old(disk), Elements(order[..i]), verify, sha1)
        invariant Scanned(old(disk), base, cacheState, Elements(order[..i]), verify, sha1, past)
      {
        var p := order[i];
        NextEntry(old(disk), order, i, verify, sha1);
        ScanStep(old(disk), base, cacheState, Elements(order[..i]), verify, sha1, past, p, clock(i));
        ScanEntry(p, verify, sha1, clock(i));
        i := i + 1;
      }
      assert order[..|order|] == order;
      DoomedArePurged(old(disk), Elements(order), verify, sha1);
      if AllBelong(old(disk), Elements(order), sr, verify, sha1) {
        RescanSettles(old(disk), base, cacheState, Elements(order), sr, verify, sha1, past);
        EntriesLeft(old(disk), strays, sr, verify, sha1);
      }
    }

    /** The space and the number of files of all ranges together, added up over the table. */
    method Totals() returns (size: nat, count: nat)
      ensures size == Total(SizeColumn(cacheState, cacheState.Keys))
      ensures count == Total(CountColumn(cacheState, cacheState.Keys))
    {
      hide Total, SizeColumn, CountColumn;
      size, count := 0, 0;
      var todo := cacheState.Keys;
      NoColumns(cacheState);
      assert cacheState.Keys - todo == {};
      while todo != {}
        invariant todo <= cacheState.Keys
        invariant size == Total(SizeColumn(cacheState, cacheState.Keys - todo))
        invariant count == Total(CountColumn(cacheState, cacheState.Keys - todo))
        decreases |todo|
      {
        var r :| r in todo;
        ColumnsGrow(cacheState, cacheState.Keys - todo, r);
        assert cacheState.Keys - (todo - {r}) == cacheState.Keys - todo + {r};
        size, count := size + cacheState[r].size, count + cacheState[r].fileCount;
        todo := todo - {r};
      }
      assert cacheState.Keys - todo == cacheState.Keys;
    }

    /** A directory listing; the entries come in any order. */
    method ListFiles(sr: string) returns (order: seq<Path>)
      ensures Lists(order, DirEntries(disk, strays, sr))
    {
      var todo := set p | p in disk.Keys + strays.Keys && InDir(p, sr);
      order := [];
      while todo != {}
        invariant todo <= DirEntries(disk, strays, sr)
        invariant Elements(order) == DirEntries(disk, strays, sr) - todo
        invariant forall i, j :: 0 <= i < j < |order| ==> order[i] != order[j]
        decreases |todo|
      {
        var p :| p in todo;
        assert forall i :: 0 <= i < |order| ==> order[i] in Elements(order);
        assert Elements(order + [p]) == Elements(order) + {p};
        order := order + [p];
        todo := todo - {p};
      }
    }

    /** Lists and scans one range; the other ranges keep what was right or wrong about them. */
    method ScanListed(sr: string, verify: bool, sha1: Sha1, clock: nat -> int)
      requires NamesOk(disk, strays)
      modifies this`disk, this`cacheState
      ensures ScanEffect(old(disk), old(cacheState), disk, cacheState, strays, sr, verify, sha1)
      ensures NamesOk(disk, strays) && Subdisk(disk, old(disk))
    {
      hide NamesOk, Scanned, Judge, RightAt, Settled, ScanEffect, Doomed, DirEntries, AllBelong, Subdisk, Purged;
      NamesDisjoint(disk, strays);
      var order := ListFiles(sr);
      ghost var disk0, table0 := disk, cacheState;
      ScanRange(sr, order, verify, sha1, clock, false);
      if Settled(DirEntries(disk0, strays, sr), table0, sr) {
        ScanSkipped(disk, cacheState, strays, sr, verify, sha1);
      } else {
        ScanDone(disk0, table0, cacheState, strays, sr, verify, sha1);
      }
    }

    /**
      The start-up scan of the range directories that exist; `rangeCount` is the number of static ranges. A range
      without a directory keeps its saved entry. So afterwards the table, its bounds and the gauges are right about
      the whole disk exactly when no entry without a directory claims files and every saved state that was taken
      as it is was right. Without any directory it fails, if more than twenty ranges are assigned.
     */
    method ScanCache(found: seq<string>, rangeCount: nat, verify: bool, sha1: Sha1, clock: nat -> int)
      returns (ok: bool)
      requires NamesOk(disk, strays) && forall i, j :: 0 <= i < j < |found| ==> found[i] != found[j]
      requires (forall r :: r in found <==> r in dirs) && (forall p :: p in disk ==> RangeOf(p) in dirs)
      modifies this`disk, this`cacheState, this`cacheCount, this`cacheSize
      ensures ok <==> !(dirs == {} && rangeCount > 20)
      ensures !ok ==> disk == old(disk) && cacheState == old(cacheState)
                      && cacheSize == old(cacheSize) && cacheCount == old(cacheCount)
      ensures ok ==> (Valid() && Bounded() <==>
                        && NothingStale(old(cacheState), dirs)
                        && forall r :: r in dirs ==> Trusted(old(disk), strays, old(cacheState), r))
      ensures ok ==> cacheSize == Total(SizeColumn(cacheState, cacheState.Keys))
                     && cacheCount == Total(CountColumn(cacheState, cacheState.Keys))
      ensures NamesOk(disk, strays) && Subdisk(disk, old(disk))
      ensures forall r :: r in dirs ==> ScannedFiles(old(disk), old(cacheState), disk, strays, r, verify, sha1)
      ensures verify ==> forall p :: p in disk ==>
                || Settled(DirEntries(old(disk), strays, RangeOf(p)), old(cacheState), RangeOf(p))
                || (FromFileId(p.name).Some? && Intact(FromFileId(p.name).value, disk[p].content, sha1))
      ensures forall r :: r in dirs ==>
                (RightAt(disk, cacheState, r) <==> Trusted(old(disk), strays, old(cacheState), r))
      ensures forall r :: r !in dirs ==> SameEntry(old(cacheState), cacheState, r)
      ensures cacheState.Keys <= dirs <==> old(cacheState.Keys) <= dirs
    {
      hide NamesOk, Judge, RightAt, Trusted, RangeOf, Settled, Consistent, Bounds, OldestOf, Agrees, Total, AllSizes;
      hide SizeColumn, CountColumn, ScanProgress, ScanEffect, ScannedFiles, SameEntry, Subdisk, NothingStale, Intact;
      var j := 0;
      ScanStarts(disk, cacheState, strays, dirs, found, verify, sha1);
      assert forall i :: 0 <= i < |found| ==> found[i] in found;
      while j < |found|
        invariant j <= |found| && NamesOk(disk, strays)
        invariant cacheSize == old(cacheSize) && cacheCount == old(cacheCount)
        invariant ScanProgress(old(disk), old(cacheState), disk, cacheState, strays, dirs, found, j, verify, sha1)
      {
        ghost var before, table := disk, cacheState;
        ScanListed(found[j], verify, sha1, clock);
        ScanProgresses(old(disk), old(cacheState), before, table, disk, cacheState, strays, dirs, found, j,
                       verify, sha1);
        j := j + 1;
      }
      ScanEnds(old(disk), old(cacheState), disk, cacheState, strays, dirs, found, verify, sha1);
      LeftAreIntact(old(disk), old(cacheState), disk, strays, dirs, verify, sha1);
      ok := !(|found| == 0 && rangeCount > 20);
      assert dirs == {} <==> |found| == 0 by {
        assert |found| > 0 ==> found[0] in found;
      }
      if !ok {
        return;
      }
      StillInDirs(old(disk), disk, dirs);
      RightEverywhereIff(disk, cacheState, dirs);
      cacheSize, cacheCount := Totals();
      ConsistentParts(disk, cacheState, cacheCount, cacheSize);
      if Agrees(disk, cacheState) {
        TableAddsUp(disk, cacheState);
      }
    }

    /** The saved entry of a range whose directory is gone stays, and is counted in the gauges. */
    static method StaleEntryStays(verify: bool, sha1: Sha1, clock: nat -> int) returns (m: CacheManager)
      ensures m.disk == map[] && m.dirs == {} && m.cacheState == map["aabb" := CacheState(5, 1000, 0)]
      ensures m.cacheSize == 1000 && m.cacheCount == 5 && !m.Valid()
    {
      hide NamesOk, Judge, Trusted, RangeOf, RightAt, Bounds, OldestOf, Agrees, Consistent, Total, SizeColumn;
      hide CountColumn;
      hide SameEntry, NothingStale, Subdisk, ScannedFiles, Settled;
      m := new CacheManager(0);
      ghost var table := map["aabb" := CacheState(5, 1000, 0)];
      m.cacheState := map["aabb" := CacheState(5, 1000, 0)];
      var ok := m.ScanCache([], 1, verify, sha1, clock);
      SameEverywhere(table, m.cacheState);
      assert m.disk == map[] by {
        SubdiskOfNothing(m.disk);
      }
      OneEntryColumns("aabb", CacheState(5, 1000, 0));
      StaleIsWrong(table, "aabb");
      ConsistentParts(m.disk, m.cacheState, m.cacheCount, m.cacheSize);
    }

    // -------------------------------------------------------------- cleaner

    /** A range with the smallest `oldest`; ties go to any of them. */
    method SelectOldest() returns (range: string)
      requires cacheState != map[]
      ensures OldestFirst(OldestOf(cacheState), range)
    {
      range :| range in cacheState;
      var todo := cacheState.Keys - {range};
      while todo != {}
        invariant todo <= cacheState.Keys && range in cacheState
        invariant forall s :: s in cacheState && s !in todo ==> cacheState[range].oldest <= cacheState[s].oldest
        decreases |todo|
      {
        var s :| s in todo;
        if cacheState[s].oldest < cacheState[range].oldest {
          range := s;
        }
        todo := todo - {s};
      }
    }

    /** Lists a directory in order of modification time; files of equal time come in any order. */
    method SortedFiles(range: string, times: map<Path, int>) returns (files: seq<Path>)
      ensures Listing(files, times, range)
    {
      var todo := set p | p in times && InDir(p, range);
      files := [];
      while todo != {}
        invariant forall p :: p in todo ==> p in times && InDir(p, range)
        invariant forall p :: p in times && InDir(p, range) ==> p in todo || p in files
        invariant forall p :: p in files ==> p in times && InDir(p, range) && p !in todo
        invariant forall i, j :: 0 <= i < j < |files| ==> files[i] != files[j]
        invariant forall i, j :: 0 <= i < j < |files| ==> times[files[i]] <= times[files[j]]
        invariant forall p, q :: p in files && q in todo ==> times[p] <= times[q]
        decreases |todo|
      {
        var first := Earliest(todo, times);
        assert forall i :: 0 <= i < |files| ==> files[i] in files;
        files := files + [first];
        todo := todo - {first};
      }
    }

    static method Earliest(paths: set<Path>, times: map<Path, int>) returns (first: Path)
      requires paths != {} && paths <= times.Keys
      ensures first in paths && forall p :: p in paths ==> times[first] <= times[p]
    {
      first :| first in paths;
      var todo := paths - {first};
      while todo != {}
        invariant todo <= paths && first in paths
        invariant forall p :: p in paths && p !in todo ==> times[first] <= times[p]
        decreases |todo|
      {
        var p :| p in todo;
        if times[p] < times[first] {
          first := p;
        }
        todo := todo - {p};
      }
    }

    /** Deletes one listed file, unless its name does not parse. */
    method DeleteListed(p: Path, need: nat) returns (left: nat, found: bool)
      requires Valid() && (p in disk || p in strays)
      modifies this`disk, this`cacheState, this`cacheCount, this`cacheSize
      ensures Valid()
      ensures found <==> p in old(disk)
      ensures disk == old(disk) - {p}
      ensures OldestOf(cacheState) == old(OldestOf(cacheState))
      ensures found ==> left == SaturatingSub(need, old(disk)[p].usage) && Freed(old(disk), disk) == old(disk)[p].usage
      ensures !found ==> left == need && disk == old(disk)
    {
      hide Consistent, WellNamed, FromFileId, ToPath, Storable, Total;
      ListedName(disk, strays, p);
      var info := FromFileId(p.name);
      if info.None? {
        assert disk - {p} == disk;
        return need, false;
      }
      AllSizesAfterRemove(disk, p);
      var size := disk[p].usage;
      found := RemoveCache(info.value);
      left := SaturatingSub(need, size);
    }

    /**
      Deletes listed files until one is newer than the cut-off or enough is free. The deleted
      files are a prefix of the listing, and without the last of them too little was free.
     */
    method DeleteFiles(files: seq<Path>, times: map<Path, int>, range: string, cut: int, need: nat, fallback: int)
      returns (left: nat, newOldest: int, k: nat, last: Option<Path>)
      requires Valid() && times == Times(disk, strays) && Listing(files, times, range)
      modifies this`disk, this`cacheState, this`cacheCount, this`cacheSize
      ensures Valid()
      ensures DeletedPrefix(old(disk), disk, files, times, k, cut, left)
      ensures newOldest == NewOldest(files, times, k, fallback)
      ensures OldestOf(cacheState) == old(OldestOf(cacheState))
      ensures LeftAfter(old(disk), disk, need, left)
      ensures LastNeeded(old(disk), disk, need, last)
    {
      hide Consistent, NamesOk, OldestOf, LastNeeded, LeftAfter, InDir, Elements, Freed;
      left, k, last := need, 0, None;
      newOldest := if files == [] then fallback else times[files[|files| - 1]];
      NothingDeleted(disk, files, need);
      while k < |files|
        invariant k <= |files| && Valid()
        invariant disk == old(disk) - Elements(files[..k])
        invariant forall i :: 0 <= i < k ==> times[files[i]] <= cut
        invariant OldestOf(cacheState) == old(OldestOf(cacheState))
        invariant LeftAfter(old(disk), disk, need, left)
        invariant LastNeeded(old(disk), disk, need, last)
      {
        var p := files[k];
        if times[p] > cut || left == 0 {
          newOldest := times[p];
          break;
        }
        PrefixRemoves(old(disk), files, k);
        ghost var before, leftBefore, lastBefore := disk, left, last;
        var found;
        assert p in disk || p in strays;
        left, found := DeleteListed(p, left);
        last := if found then Some(p) else last;
        OneMoreDeleted(old(disk), before, disk, need, leftBefore, left, lastBefore, p);
        k := k + 1;
      }
    }

    /**
      One round of the cleaner: picks the range with the smallest `oldest`, deletes a prefix of
      its files, and records the new `oldest`. Stops only without ranges or without the directory.
     */
    method CleanOnce(need: nat, utcNow: int, fileNow: int, ghost start: int)
      returns (left: nat, stop: bool, last: Option<Path>)
      requires Valid() && need > 0
      modifies this`disk, this`cacheState, this`cacheCount, this`cacheSize
      ensures Valid() && cacheState.Keys == old(cacheState.Keys)
      ensures stop ==> old(cacheState) == map[] || exists r :: OldestFirst(old(OldestOf(cacheState)), r) && r !in dirs
      ensures !stop ==>
                && RoundEffect(old(disk), strays, old(OldestOf(cacheState)), disk, OldestOf(cacheState),
                               utcNow, fileNow, left)
                && RoundLaw(old(disk), strays, old(OldestOf(cacheState)), disk, OldestOf(cacheState),
                            utcNow, fileNow, left)
      ensures stop ==> left == need && last == None && disk == old(disk) && cacheState == old(cacheState)
      ensures Subdisk(disk, old(disk))
      ensures LeftAfter(old(disk), disk, need, left) && LastNeeded(old(disk), disk, need, last)
      ensures old(Bounded()) ==>
                && Bounded() && LruByAgeAt(old(disk), disk, old(OldestOf(cacheState)), utcNow)
                && NearlyLru(old(disk), disk, RoundSlack(old(OldestOf(cacheState)), utcNow))
      ensures NotAfter(old(disk), strays, old(OldestOf(cacheState)), fileNow) ==>
                NotAfter(disk, strays, OldestOf(cacheState), fileNow)
      ensures !stop && old(Bounded()) && strays == map[] && Total(AllSizes(old(disk))) > 0
              && Precedes(old(disk), start) && start <= UnixSeconds(fileNow) ==>
                && Raised(old(OldestOf(cacheState)), OldestOf(cacheState))
                && Progress(old(disk), old(OldestOf(cacheState)), disk, OldestOf(cacheState), start)
    {
      hide Consistent, NamesOk, LastNeeded, LeftAfter, NearlyLru, Progress, Total, AllSizes, Listing, DeletedPrefix;
      hide Bounds, Timed, Times, Raised, Offset, OldestOf, NewOldest, NotAfter, Subdisk, RoundSlack, Precedes, RoundLaw;
      hide LruByAgeAt;
      NothingDeleted(disk, [], need);
      SlackByAge(disk, disk, OldestOf(cacheState), utcNow);
      if cacheState == map[] {
        return need, true, None;
      }
      var range := SelectOldest();
      OldestOfAt(cacheState, range);
      if range !in dirs {
        return need, true, None;
      }
      stop := false;
      ghost var before, oldest := disk, OldestOf(cacheState);
      var offset := Offset(cacheState[range].oldest, utcNow);
      var cut := (cacheState[range].oldest + offset) * SECOND;
      var times := Times(disk, strays);
      TimedDisk(disk, strays, cacheState, cacheCount, cacheSize);
      var files := SortedFiles(range, times);
      var newOldest, k;
      left, newOldest, k, last := DeleteFiles(files, times, range, cut, need, fileNow);
      OldestOfAt(cacheState, range);
      OldestConsistent(disk, cacheState, cacheCount, cacheSize, range, UnixSeconds(newOldest));
      OldestOfUpdate(cacheState, range, cacheState[range].(oldest := UnixSeconds(newOldest)));
      cacheState := cacheState[range := cacheState[range].(oldest := UnixSeconds(newOldest))];

      PrefixSubdisk(before, disk, files, times, k, cut, left);
      assert RoundOn(before, strays, oldest, disk, OldestOf(cacheState), utcNow, fileNow, left, range, files, k);
      RoundIsLawful(before, strays, oldest, disk, OldestOf(cacheState), utcNow, fileNow, left, range, files, k);
      if NotAfter(before, strays, oldest, fileNow) {
        PassNotAfter(before, strays, disk, oldest, range, files, k, fileNow);
      }
      if Bounds(before, oldest) {
        PassBounds(before, disk, oldest, range, files, times, k, cut, left, fileNow);
        PassNearlyLru(before, disk, oldest, range, files, times, k, utcNow, left);
        SlackByAge(before, disk, oldest, utcNow);
        if strays == map[] && Total(AllSizes(before)) > 0 && Precedes(before, start) && start <= UnixSeconds(fileNow) {
          OldestBeforeStart(before, times, oldest, range, start);
          PassRaises(before, oldest, range, files, times, k, fileNow);
          PassProgress(before, disk, oldest, range, files, times, k, offset, need, left, fileNow, start);
        }
      }
    }

    /** The cleaner's loop: rounds until the wanted bytes are free. */
    method Clean(wanted: nat, clock: nat -> int) returns (last: Option<Path>)
      requires Valid() && Bounded() && strays == map[] && cacheState.Keys <= dirs
      requires wanted <= Total(AllSizes(disk))
      requires Steady(clock) && Precedes(disk, UnixSeconds(clock(0)))
      modifies this`disk, this`cacheState, this`cacheCount, this`cacheSize
      ensures Valid() && Bounded() && cacheState.Keys == old(cacheState.Keys)
      ensures Cleaned(old(disk), disk, wanted, 0, last, 30 * DAY * SECOND)
      ensures LruByAge(old(disk), disk, old(OldestOf(cacheState)), clock)
    {
      hide Consistent, NamesOk, Total, AllSizes, Bounds, OldestOf, Cleaned, Subdisk, LeftAfter, LastNeeded, NearlyLru;
      hide Unsettled, Precedes, Raised, LruByAge, RoundSlack, RoundEffect, RoundLaw, Steady;
      var limit := sizeLimit;
      var need := wanted;
      var tick := 0;
      ghost var start, first := UnixSeconds(clock(0)), OldestOf(cacheState);
      last := None;
      CleanedNothing(disk, wanted, first, clock);
      while need > 0 && limit == sizeLimit
        invariant Valid() && Bounded() && cacheState.Keys == old(cacheState.Keys)
        invariant Precedes(disk, start) && Raised(first, OldestOf(cacheState))
        invariant Cleaned(old(disk), disk, wanted, need, last, 30 * DAY * SECOND)
        invariant LruByAge(old(disk), disk, first, clock)
        decreases disk.Keys, Unsettled(disk, OldestOf(cacheState), start)
      {
        ghost var before, oldest, lastBefore, needBefore := disk, OldestOf(cacheState), last, need;
        StillReclaimable(old(disk), disk, wanted, need, last, 30 * DAY * SECOND);
        NotEmpty(disk, cacheState, cacheCount, cacheSize);
        OldestOfAt(cacheState, "");
        SteadyAt(clock, tick + 1);
        var stop, latest;
        need, stop, latest := CleanOnce(need, clock(tick), clock(tick + 1), start);
        if stop {
          break;
        }
        last := if latest.Some? then latest else last;
        NearlyLruWeaken(before, disk, RoundSlack(oldest, clock(tick)), 30 * DAY * SECOND);
        CleanedMore(old(disk), before, disk, wanted, needBefore, need, lastBefore, latest, 30 * DAY * SECOND);
        LruByAgeMore(old(disk), before, disk, first, oldest, clock, tick);
        RunGoesOn(before, disk, start, first, oldest, OldestOf(cacheState));
        tick := tick + 2;
      }
    }

    /** Refreshes the size gauge and decides how many bytes to free; zero means nothing to do. */
    method WantedBytes(diskFree: Option<nat>) returns (need: nat)
      requires Valid()
      modifies this`cacheSize
      ensures Valid() && cacheSize == old(cacheSize)
      ensures need == RaisedNeed(Total(AllSizes(disk)), sizeLimit, diskFree)
    {
      hide Consistent, NamesOk, Total, AllSizes, Agrees;
      ConsistentParts(disk, cacheState, cacheCount, cacheSize);
      TableAddsUp(disk, cacheState);
      var total, count := Totals();
      need := SaturatingSub(total, sizeLimit);
      cacheSize := total;
      if diskFree.Some? && diskFree.value < SIZE_100MB {
        need := need + SaturatingSub(SIZE_100MB, diskFree.value);
      }
      if 0 < need < SIZE_100MB {
        need := SIZE_100MB;
      }
    }

    /**
      The periodic cleaning run. When the files hold the bytes it sets out to free, it ends with
      that much freed and the total within the limit; it deletes no file beyond the one that met
      the need; and what survives is older than what was deleted by at most thirty days, and by one, three or
      seven days if no range is more than 30, 90 or 180 days old during the run.
     */
    method CheckCacheUsage(diskFree: Option<nat>, clock: nat -> int) returns (last: Option<Path>)
      requires Valid() && Bounded() && strays == map[] && cacheState.Keys <= dirs
      requires RaisedNeed(Total(AllSizes(disk)), sizeLimit, diskFree) <= Total(AllSizes(disk))
      requires Steady(clock) && Precedes(disk, UnixSeconds(clock(0)))
      modifies this`disk, this`cacheState, this`cacheCount, this`cacheSize
      ensures Valid() && Bounded() && cacheState.Keys == old(cacheState.Keys)
      ensures Total(AllSizes(disk)) <= sizeLimit
      ensures diskFree.Some? && diskFree.value < 104_857_600 ==>
                Freed(old(disk), disk) >= 104_857_600 - diskFree.value
      ensures Total(AllSizes(old(disk))) <= sizeLimit && (diskFree.None? || diskFree.value >= 104_857_600) ==>
                disk == old(disk) && cacheState == old(cacheState)
      ensures var need := RaisedNeed(Total(AllSizes(old(disk))), sizeLimit, diskFree);
              Cleaned(old(disk), disk, need, 0, last, 30 * DAY * SECOND)
      ensures LruByAge(old(disk), disk, old(OldestOf(cacheState)), clock)
    {
      hide Consistent, NamesOk, Total, AllSizes, Bounds, OldestOf, Agrees, Cleaned, LruByAge, Precedes, Steady;
      var need := WantedBytes(diskFree);
      if need == 0 {
        last := None;
        CleanedNothing(disk, 0, OldestOf(cacheState), clock);
        return;
      }
      last := Clean(need, clock);
      WithinLimit(old(disk), disk, need, sizeLimit, last, 30 * DAY * SECOND);
      EnoughFreed(old(disk), disk, need, last, 30 * DAY * SECOND);
    }

    /**
      The condition on reclaimable bytes is exact: when the files hold less than a cleaning run sets out to free,
      its loop takes one round after the other, for any number of rounds, and still wants more.
     */
    method CleanerNeverEnds(diskFree: Option<nat>, rounds: nat, clock: nat -> int)
      returns (ghost disks: seq<Disk>, ghost oldests: seq<map<string, int>>, needs: seq<nat>)
      requires Valid() && cacheState != map[] && cacheState.Keys <= dirs
      requires Total(AllSizes(disk)) < RaisedNeed(Total(AllSizes(disk)), sizeLimit, diskFree)
      modifies this`disk, this`cacheState, this`cacheCount, this`cacheSize
      ensures Valid() && |needs| == rounds + 1
      ensures Rounds(disks, strays, oldests, needs, clock)
      ensures disks[0] == old(disk) && oldests[0] == old(OldestOf(cacheState))
      ensures disks[rounds] == disk && oldests[rounds] == OldestOf(cacheState)
      ensures needs[0] == RaisedNeed(Total(AllSizes(old(disk))), sizeLimit, diskFree)
      ensures forall i :: 0 <= i <= rounds ==> needs[i] > 0
    {
      hide Consistent, NamesOk, Total, AllSizes, LastNeeded, LeftAfter, NearlyLru, Bounds, OldestOf, Progress, Raised;
      hide RoundEffect, RoundLaw, RoundSlack, Rounds, Agrees, Subdisk;
      var need := WantedBytes(diskFree);
      needs := [need];
      disks, oldests := [disk], [OldestOf(cacheState)];
      RoundsStart(disk, strays, OldestOf(cacheState), need, clock);
      var i := 0;
      while i < rounds
        invariant i <= rounds && Valid() && cacheState != map[] && cacheState.Keys <= dirs
        invariant |disks| == |oldests| == |needs| == i + 1 && Rounds(disks, strays, oldests, needs, clock)
        invariant disks[0] == old(disk) && oldests[0] == old(OldestOf(cacheState)) && needs[0] == need
        invariant disks[i] == disk && oldests[i] == OldestOf(cacheState)
      {
        ShortForever(disks, strays, oldests, needs, clock, i);
        OldestOfAt(cacheState, "");
        var left, stop, last := CleanOnce(needs[i], clock(2 * i), clock(2 * i + 1), 0);
        RoundsGrow(disks, strays, oldests, needs, clock, disk, OldestOf(cacheState), left);
        disks, oldests, needs := disks + [disk], oldests + [OldestOf(cacheState)], needs + [left];
        i := i + 1;
      }
      forall i | 0 <= i <= rounds
        ensures needs[i] > 0
      {
        ShortForever(disks, strays, oldests, needs, clock, i);
      }
    }
  }
}
