/**
  The arithmetic and the order arguments behind the cleaner: how much to free, which
  cut-off to use, what one pass may delete, and why passes make progress.
 */
module CacheCleaner {
  import opened Common
  import opened FileId
  import opened Sums
  import opened CacheIndex

  const SIZE_100MB: nat := 100 * 1024 * 1024

  /** One day, in seconds. */
  const DAY: nat := 86400

  function SaturatingSub(a: nat, b: nat): nat {
    if b <= a then a - b else 0
  }

  /** The timestamps `DateTime::from_timestamp_secs` can represent. */
  predicate Representable(secs: int) {
    -8_334_601_228_800 <= secs <= 8_210_266_876_799
  }

  /** How far past the oldest time a pass may delete, in seconds, by the age of that time. */
  function Offset(oldest: int, now: int): (offset: nat)
    ensures 86400 <= offset <= 30 * 86400
  {
    var age := now - oldest * SECOND;
    if !Representable(oldest) then DAY
    else if age > 180 * DAY * SECOND then 30 * DAY
    else if age > 90 * DAY * SECOND then 7 * DAY
    else if age > 30 * DAY * SECOND then 3 * DAY
    else DAY
  }

  /** The bytes a cleaning run sets out to free: the excess, the disk shortage, at least 100 MiB. */
  function RaisedNeed(total: nat, limit: nat, free: Option<nat>): (need: nat)
    ensures total > limit ==> need >= total - limit
    ensures need == 0 <==> total <= limit && (free.None? || free.value >= 104_857_600)
    ensures need > 0 ==>
              var excess := if total > limit then total - limit else 0;
              var shortage := if free.Some? && free.value < 104_857_600 then 104_857_600 - free.value else 0;
              need == if excess + shortage < 104_857_600 then 104_857_600 else excess + shortage
  {
    var shortage := if free.Some? && free.value < SIZE_100MB then SIZE_100MB - free.value else 0;
    var need := SaturatingSub(total, limit) + shortage;
    if need == 0 then 0 else if need < SIZE_100MB then SIZE_100MB else need
  }

  // ----------------------------------------------------------------- listings

  function Times(disk: Disk, strays: map<Path, int>): map<Path, int> {
    (map p | p in disk :: disk[p].mtime) + strays
  }

  /** The files of directory `r`, each once, by modification time. */
  ghost predicate Listing(files: seq<Path>, times: map<Path, int>, r: string) {
    && (forall p :: p in files <==> p in times && InDir(p, r))
    && (forall i, j :: 0 <= i < j < |files| ==> files[i] != files[j])
    && (forall i, j :: 0 <= i < j < |files| ==> times[files[i]] <= times[files[j]])
  }

  function Elements(files: seq<Path>): set<Path> {
    set p | p in files
  }

  /**
    One pass over a listing deleted exactly its first `k` files, none newer than the cut-off,
    and stopped only at a newer file or with nothing left to free.
   */
  ghost predicate DeletedPrefix(before: Disk, after: Disk, files: seq<Path>, times: map<Path, int>, k: nat, cut: int,
                                left: nat) {
    && k <= |files|
    && after == before - Elements(files[..k])
    && (forall i :: 0 <= i < k ==> files[i] in times && times[files[i]] <= cut)
    && (k < |files| ==> files[k] in times && (times[files[k]] > cut || left == 0))
  }

  /** Taking the next listed file off the disk extends the deleted prefix by one. */
  lemma PrefixRemoves(disk: Disk, files: seq<Path>, k: nat)
    requires k < |files| && forall i, j :: 0 <= i < j < |files| ==> files[i] != files[j]
    ensures disk - Elements(files[..k + 1]) == disk - Elements(files[..k]) - {files[k]}
    ensures files[k] in disk ==> files[k] in disk - Elements(files[..k])
    ensures files[k] !in disk ==> disk - Elements(files[..k + 1]) == disk - Elements(files[..k])
  {
  }

  /** The time recorded as the range's new `oldest`. */
  function NewOldest(files: seq<Path>, times: map<Path, int>, k: nat, fallback: int): int
    requires k <= |files| && forall p :: p in files ==> p in times
  {
    if files == [] then fallback else times[files[if k < |files| then k else |files| - 1]]
  }

  ghost function Freed(before: Disk, after: Disk): int {
    Total(AllSizes(before)) - Total(AllSizes(after))
  }

  /** What is still to be freed is the need less the bytes freed so far. */
  ghost predicate LeftAfter(before: Disk, after: Disk, need: nat, left: nat) {
    Freed(before, after) >= 0 && left == SaturatingSub(need, Freed(before, after))
  }

  /** Nothing was deleted, or without the last deleted file the need was not met. */
  ghost predicate LastNeeded(before: Disk, after: Disk, need: nat, last: Option<Path>) {
    match last
    case None => after == before
    case Some(p) => p in before && p !in after && Freed(before, after) < need + before[p].usage
  }

  lemma NothingDeleted(disk: Disk, files: seq<Path>, need: nat)
    ensures disk == disk - Elements(files[..0])
    ensures LeftAfter(disk, disk, need, need) && LastNeeded(disk, disk, need, None)
    ensures Subdisk(disk, disk) && forall slack: nat :: NearlyLru(disk, disk, slack)
  {
  }

  lemma OneMoreDeleted(start: Disk, before: Disk, after: Disk, need: nat, leftBefore: nat, left: nat,
                       lastBefore: Option<Path>, p: Path)
    requires LeftAfter(start, before, need, leftBefore) && LastNeeded(start, before, need, lastBefore)
    requires leftBefore > 0 && after == before - {p}
    requires p in before ==> p in start && before[p] == start[p] && left == SaturatingSub(leftBefore, before[p].usage)
    requires p !in before ==> left == leftBefore
    ensures LeftAfter(start, after, need, left)
    ensures LastNeeded(start, after, need, if p in before then Some(p) else lastBefore)
  {
    if p in before {
      AllSizesAfterRemove(before, p);
    } else {
      assert after == before;
    }
  }

  ghost predicate OldestFirst(oldest: map<string, int>, r: string) {
    r in oldest && forall s :: s in oldest ==> oldest[r] <= oldest[s]
  }

  /**
    What one round does: in a range with the smallest `oldest` it deletes the first `k` files by
    modification time, up to the age-dependent cut-off, and records the time of the next file.
   */
  ghost predicate RoundOn(before: Disk, strays: map<Path, int>, oldest: map<string, int>, after: Disk,
                          oldest': map<string, int>, utcNow: int, fileNow: int, left: nat, r: string, files: seq<Path>,
                          k: nat) {
    var times := Times(before, strays);
    && OldestFirst(oldest, r) && Listing(files, times, r)
    && DeletedPrefix(before, after, files, times, k, (oldest[r] + Offset(oldest[r], utcNow)) * SECOND, left)
    && oldest' == oldest[r := UnixSeconds(NewOldest(files, times, k, fileNow))]
  }

  ghost predicate RoundEffect(before: Disk, strays: map<Path, int>, oldest: map<string, int>, after: Disk,
                              oldest': map<string, int>, utcNow: int, fileNow: int, left: nat) {
    exists r, files, k :: RoundOn(before, strays, oldest, after, oldest', utcNow, fileNow, left, r, files, k)
  }

  // ------------------------------------------------------------ approximate LRU

  /** No survivor is older than a deleted file by more than `slack` nanoseconds. */
  ghost predicate NearlyLru(before: Disk, after: Disk, slack: int) {
    forall d, f :: d in before && d !in after && f in after ==> before[d].mtime <= after[f].mtime + slack
  }

  /** `times` gives the modification time of every file of the disk, all of them in indexed directories. */
  ghost predicate Timed(disk: Disk, times: map<Path, int>, oldest: map<string, int>) {
    forall p :: p in disk ==>
      p in times && times[p] == disk[p].mtime && RangeOf(p) in oldest && InDir(p, RangeOf(p))
  }

  /** No range's `oldest` is more than so many days back. */
  ghost predicate Younger(oldest: map<string, int>, now: int, days: nat) {
    forall r :: r in oldest ==> now - oldest[r] * SECOND <= days * 86400 * SECOND
  }

  /**
    How much older than a victim a survivor of a round may be, in nanoseconds: the offset of the round. That is one
    day while no range is more than thirty days old, three days up to ninety, seven up to half a year, else thirty.
   */
  ghost function RoundSlack(oldest: map<string, int>, now: int): (slack: int)
    ensures 0 <= slack <= 30 * 86400 * SECOND
    ensures Younger(oldest, now, 180) ==> slack <= 7 * 86400 * SECOND
    ensures Younger(oldest, now, 90) ==> slack <= 3 * 86400 * SECOND
    ensures Younger(oldest, now, 30) ==> slack <= 86400 * SECOND
  {
    if exists r :: OldestFirst(oldest, r) then
      var r :| OldestFirst(oldest, r);
      Offset(oldest[r], now) * SECOND
    else 0
  }

  lemma RoundSlackAt(oldest: map<string, int>, now: int, r: string)
    requires OldestFirst(oldest, r)
    ensures RoundSlack(oldest, now) == Offset(oldest[r], now) * SECOND
  {
    hide Offset;
  }

  /**
    The bound `oldest`, taken over all ranges, turns a per-range deletion into a cache-wide one:
    survivors anywhere are older than the victims by at most the offset of this very round.
   */
  lemma PassNearlyLru(before: Disk, after: Disk, oldest: map<string, int>, r: string, files: seq<Path>,
                      times: map<Path, int>, k: nat, now: int, left: nat)
    requires Bounds(before, oldest) && OldestFirst(oldest, r) && Timed(before, times, oldest)
    requires DeletedPrefix(before, after, files, times, k, (oldest[r] + Offset(oldest[r], now)) * SECOND, left)
    ensures NearlyLru(before, after, RoundSlack(oldest, now))
  {
    RoundSlackAt(oldest, now, r);
    hide Offset, RoundSlack;
  }

  /** How old the survivors of one round may be, by the age of the cache. */
  ghost predicate LruByAgeAt(before: Disk, after: Disk, oldest: map<string, int>, now: int) {
    && NearlyLru(before, after, 30 * 86400 * SECOND)
    && (Younger(oldest, now, 180) ==> NearlyLru(before, after, 7 * 86400 * SECOND))
    && (Younger(oldest, now, 90) ==> NearlyLru(before, after, 3 * 86400 * SECOND))
    && (Younger(oldest, now, 30) ==> NearlyLru(before, after, 86400 * SECOND))
  }

  lemma SlackByAge(before: Disk, after: Disk, oldest: map<string, int>, now: int)
    requires NearlyLru(before, after, RoundSlack(oldest, now))
    ensures LruByAgeAt(before, after, oldest, now)
  {
    hide RoundSlack, Younger;
  }

  lemma NearlyLruWeaken(before: Disk, after: Disk, slack: int, more: int)
    requires NearlyLru(before, after, slack) && slack <= more
    ensures NearlyLru(before, after, more)
  {
  }

  lemma TimedDisk(disk: Disk, strays: map<Path, int>, table: Table, count: nat, size: nat)
    requires NamesOk(disk, strays) && Consistent(disk, table, count, size)
    ensures Timed(disk, Times(disk, strays), OldestOf(table))
    ensures strays == map[] ==> Times(disk, strays).Keys == disk.Keys
  {
    hide FromFileId, WellNamed, ToPath, Storable, Consistent, RangeOf, InDir;
    AllIndexed(disk, table, count, size);
    forall p | p in disk
      ensures p !in strays && InDir(p, RangeOf(p))
    {
      ListedName(disk, strays, p);
    }
  }

  lemma PrefixSubdisk(before: Disk, after: Disk, files: seq<Path>, times: map<Path, int>, k: nat, cut: int, left: nat)
    requires DeletedPrefix(before, after, files, times, k, cut, left)
    ensures Subdisk(after, before) && k <= |files|
  {
  }

  /** Slack over two consecutive deletions is the larger of the two. */
  lemma NearlyLruChain(a: Disk, b: Disk, c: Disk, slack: int)
    requires Subdisk(b, a) && Subdisk(c, b)
    requires NearlyLru(a, b, slack) && NearlyLru(b, c, slack)
    ensures NearlyLru(a, c, slack)
  {
  }

  /** Survivors of the cleaned directory come at or after the recorded time. */
  lemma PassBounds(before: Disk, after: Disk, oldest: map<string, int>, r: string, files: seq<Path>,
                   times: map<Path, int>, k: nat, cut: int, left: nat, fallback: int)
    requires Bounds(before, oldest) && r in oldest && Timed(before, times, oldest)
    requires Listing(files, times, r) && DeletedPrefix(before, after, files, times, k, cut, left)
    ensures Bounds(after, oldest[r := UnixSeconds(NewOldest(files, times, k, fallback))])
  {
  }

  // -------------------------------------------------- a round, told by the files

  /** Deleted are files of `r` up to the cut-off only, and all of them unless enough was free before. */
  ghost predicate SweptTo(before: Disk, after: Disk, r: string, cut: int, left: nat) {
    forall p :: p in before ==>
      && (p !in after ==> RangeOf(p) == r && before[p].mtime <= cut)
      && (left > 0 && RangeOf(p) == r && before[p].mtime <= cut ==> p !in after)
  }

  /** The cut-off by the age of the range's `oldest`; a time without a date counts as recent. */
  ghost predicate SweptByAge(before: Disk, after: Disk, r: string, oldest: int, now: int, left: nat) {
    var age, day := now - oldest * SECOND, 86400 * SECOND;
    var dated := -8_334_601_228_800 <= oldest <= 8_210_266_876_799;
    && (dated && 180 * day < age ==> SweptTo(before, after, r, oldest * SECOND + 30 * day, left))
    && (dated && 90 * day < age <= 180 * day ==> SweptTo(before, after, r, oldest * SECOND + 7 * day, left))
    && (dated && 30 * day < age <= 90 * day ==> SweptTo(before, after, r, oldest * SECOND + 3 * day, left))
    && (!dated || age <= 30 * day ==> SweptTo(before, after, r, oldest * SECOND + day, left))
  }

  ghost predicate Earliest(disk: Disk, r: string, second: int) {
    && (exists p :: p in disk && RangeOf(p) == r && UnixSeconds(disk[p].mtime) == second)
    && forall p :: p in disk && RangeOf(p) == r ==> second <= UnixSeconds(disk[p].mtime)
  }

  ghost predicate Latest(disk: Disk, r: string, second: int) {
    && (exists p :: p in disk && RangeOf(p) == r && UnixSeconds(disk[p].mtime) == second)
    && forall p :: p in disk && RangeOf(p) == r ==> UnixSeconds(disk[p].mtime) <= second
  }

  ghost predicate NoFilesIn(disk: Disk, r: string) {
    forall p :: p in disk ==> RangeOf(p) != r
  }

  /** The recorded second: that of the first file left, of the last one there was, or of the clock. */
  ghost predicate RecordsTime(before: Disk, after: Disk, r: string, second: int, fileNow: int) {
    && (!NoFilesIn(after, r) ==> Earliest(after, r, second))
    && (NoFilesIn(after, r) && !NoFilesIn(before, r) ==> Latest(before, r, second))
    && (NoFilesIn(before, r) ==> second == UnixSeconds(fileNow))
  }

  /**
    What one round does, told without listings: it works on one range with the smallest `oldest`, sweeps it up to
    the cut-off of its age, and records the new `oldest` of that range alone.
   */
  ghost predicate RoundLaw(before: Disk, strays: map<Path, int>, oldest: map<string, int>, after: Disk,
                           oldest': map<string, int>, utcNow: int, fileNow: int, left: nat) {
    exists r :: OldestFirst(oldest, r) && RoundLawOn(before, strays, oldest, after, oldest', utcNow, fileNow, left, r)
  }

  ghost predicate RoundLawOn(before: Disk, strays: map<Path, int>, oldest: map<string, int>, after: Disk,
                             oldest': map<string, int>, utcNow: int, fileNow: int, left: nat, r: string)
    requires r in oldest
  {
    && SweptByAge(before, after, r, oldest[r], utcNow, left)
    && oldest'.Keys == oldest.Keys && (forall s :: s in oldest && s != r ==> oldest'[s] == oldest[s])
    && (strays == map[] ==> RecordsTime(before, after, r, oldest'[r], fileNow))
  }

  lemma InPrefix(files: seq<Path>, k: nat, i: nat)
    requires k <= |files| && i < |files|
    ensures i < k ==> files[i] in files[..k]
  {
    if i < k {
      assert files[..k][i] == files[i];
    }
  }

  /** A listed prefix is swept: the files up to the cut-off come first. */
  lemma PrefixSwept(before: Disk, after: Disk, oldest: map<string, int>, r: string, files: seq<Path>,
                    times: map<Path, int>, k: nat, cut: int, left: nat)
    requires Timed(before, times, oldest) && Listing(files, times, r)
    requires DeletedPrefix(before, after, files, times, k, cut, left)
    ensures SweptTo(before, after, r, cut, left)
  {
    forall p | p in before
      ensures p !in after ==> RangeOf(p) == r && before[p].mtime <= cut
      ensures left > 0 && RangeOf(p) == r && before[p].mtime <= cut ==> p !in after
    {
      if p !in after {
        var i :| 0 <= i < k && files[i] == p;
        assert p in files;
      } else if RangeOf(p) == r {
        assert p in files;
        var i :| 0 <= i < |files| && files[i] == p;
        InPrefix(files, k, i);
        assert k < i ==> times[files[k]] <= times[files[i]];
      }
    }
  }

  lemma SweepFollowsAge(before: Disk, after: Disk, r: string, oldest: int, now: int, left: nat)
    requires SweptTo(before, after, r, (oldest + Offset(oldest, now)) * SECOND, left)
    ensures SweptByAge(before, after, r, oldest, now, left)
  {
    hide SweptTo;
  }

  /** Without strays the recorded time is that of a file left, of the last file, or of the clock. */
  lemma PrefixRecords(before: Disk, after: Disk, oldest: map<string, int>, r: string, files: seq<Path>,
                      times: map<Path, int>, k: nat, cut: int, left: nat, fileNow: int)
    requires Timed(before, times, oldest) && Listing(files, times, r) && times.Keys == before.Keys
    requires DeletedPrefix(before, after, files, times, k, cut, left)
    ensures RecordsTime(before, after, r, UnixSeconds(NewOldest(files, times, k, fileNow)), fileNow)
  {
    forall p | p in before && RangeOf(p) == r
      ensures p in files
    {
      assert InDir(p, r);
    }
    if files != [] {
      var last := files[|files| - 1];
      assert last in files && last in before && RangeOf(last) == r;
      if k < |files| {
        FirstLeft(before, after, r, files, times, k);
      } else {
        assert files[..k] == files;
        assert NoFilesIn(after, r);
        forall p | p in before && RangeOf(p) == r
          ensures UnixSeconds(before[p].mtime) <= UnixSeconds(before[last].mtime)
        {
          var i :| 0 <= i < |files| && files[i] == p;
          assert times[files[i]] <= times[last];
        }
        assert Latest(before, r, UnixSeconds(before[last].mtime));
      }
    } else {
      assert NoFilesIn(before, r);
    }
  }

  lemma FirstLeft(before: Disk, after: Disk, r: string, files: seq<Path>, times: map<Path, int>, k: nat)
    requires k < |files| && after == before - Elements(files[..k]) && Listing(files, times, r)
    requires forall p :: p in files ==> p in before && times[p] == before[p].mtime
    requires forall p :: p in before && RangeOf(p) == r ==> p in files
    ensures Earliest(after, r, UnixSeconds(times[files[k]]))
  {
    assert files[k] in files && files[k] !in files[..k];
    forall p | p in after && RangeOf(p) == r
      ensures times[files[k]] <= times[p]
    {
      var i :| 0 <= i < |files| && files[i] == p;
      InPrefix(files, k, i);
    }
    assert files[k] in after && RangeOf(files[k]) == r;
  }

  /** Every round is one by the files. */
  lemma RoundIsLawful(before: Disk, strays: map<Path, int>, oldest: map<string, int>, after: Disk,
                      oldest': map<string, int>, utcNow: int, fileNow: int, left: nat, r: string, files: seq<Path>,
                      k: nat)
    requires RoundOn(before, strays, oldest, after, oldest', utcNow, fileNow, left, r, files, k)
    requires Timed(before, Times(before, strays), oldest)
    ensures RoundLaw(before, strays, oldest, after, oldest', utcNow, fileNow, left)
  {
    hide Timed, Listing, DeletedPrefix, SweptTo, SweptByAge, RecordsTime, NewOldest, Offset;
    var times, cut := Times(before, strays), (oldest[r] + Offset(oldest[r], utcNow)) * SECOND;
    PrefixSwept(before, after, oldest, r, files, times, k, cut, left);
    SweepFollowsAge(before, after, r, oldest[r], utcNow, left);
    if strays == map[] {
      assert times.Keys == before.Keys;
      PrefixRecords(before, after, oldest, r, files, times, k, cut, left, fileNow);
    }
    assert RoundLawOn(before, strays, oldest, after, oldest', utcNow, fileNow, left, r);
  }

  // ----------------------------------------------------------------- progress

  /**
    A settled range needs no second look before it yields a deletion: its `oldest` has
    reached its first file, or it is empty and `oldest` has reached the start of the run.
   */
  ghost predicate SettledRange(disk: Disk, oldest: int, r: string, start: int) {
    if forall p :: p in disk ==> RangeOf(p) != r then start <= oldest
    else exists p :: p in disk && RangeOf(p) == r && UnixSeconds(disk[p].mtime) <= oldest
  }

  ghost function Unsettled(disk: Disk, oldest: map<string, int>, start: int): set<string> {
    set r | r in oldest && !SettledRange(disk, oldest[r], r, start)
  }

  /** Every file was last modified before second `start`. */
  ghost predicate Precedes(disk: Disk, start: int) {
    forall p :: p in disk ==> UnixSeconds(disk[p].mtime) < start
  }

  /** Fewer files, or as many and fewer ranges to settle. */
  ghost predicate Progress(before: Disk, oldest: map<string, int>, after: Disk, oldest': map<string, int>, start: int) {
    after.Keys < before.Keys || (after == before && Unsettled(after, oldest', start) < Unsettled(before, oldest, start))
  }

  ghost predicate Raised(oldest: map<string, int>, oldest': map<string, int>) {
    oldest.Keys == oldest'.Keys && forall r :: r in oldest ==> oldest[r] <= oldest'[r]
  }

  /** While files of some size remain, the smallest `oldest` lies before the start of the run. */
  lemma OldestBeforeStart(disk: Disk, times: map<Path, int>, oldest: map<string, int>, r: string, start: int)
    requires Timed(disk, times, oldest) && Bounds(disk, oldest) && OldestFirst(oldest, r) && Precedes(disk, start)
    requires Total(AllSizes(disk)) > 0
    ensures oldest[r] < start
  {
  }

  /** A pass that deletes nothing settles the range it looked at. */
  lemma PassSettles(disk: Disk, oldest: map<string, int>, r: string, files: seq<Path>, times: map<Path, int>,
                    offset: nat, fallback: int, start: int)
    requires r in oldest && oldest[r] < start <= UnixSeconds(fallback) && DAY <= offset
    requires Timed(disk, times, oldest) && times.Keys == disk.Keys && Listing(files, times, r)
    requires files != [] ==> times[files[0]] > (oldest[r] + offset) * SECOND
    ensures var oldest' := oldest[r := UnixSeconds(NewOldest(files, times, 0, fallback))];
            Unsettled(disk, oldest', start) < Unsettled(disk, oldest, start)
  {
    var reached := UnixSeconds(NewOldest(files, times, 0, fallback));
    var oldest' := oldest[r := reached];
    if files == [] {
      forall p | p in disk
        ensures RangeOf(p) != r
      {
        assert p !in files;
      }
    } else {
      assert files[0] in files;
      assert RangeOf(files[0]) == r && UnixSeconds(disk[files[0]].mtime) <= reached;
      forall p | p in disk && RangeOf(p) == r
        ensures UnixSeconds(disk[p].mtime) > oldest[r]
      {
        assert p in files;
        var i :| 0 <= i < |files| && files[i] == p;
        assert times[files[0]] <= times[files[i]];
      }
    }
    assert SettledRange(disk, reached, r, start);
    assert !SettledRange(disk, oldest[r], r, start);
    assert r in Unsettled(disk, oldest, start) && r !in Unsettled(disk, oldest', start);
  }

  /** A pass over a disk without strays deletes a file or settles a range. */
  lemma PassProgress(before: Disk, after: Disk, oldest: map<string, int>, r: string, files: seq<Path>,
                     times: map<Path, int>, k: nat, offset: nat, need: nat, left: nat, fallback: int, start: int)
    requires r in oldest && oldest[r] < start <= UnixSeconds(fallback) && DAY <= offset
    requires Timed(before, times, oldest) && times.Keys == before.Keys && Listing(files, times, r)
    requires need > 0 && LeftAfter(before, after, need, left)
    requires DeletedPrefix(before, after, files, times, k, (oldest[r] + offset) * SECOND, left)
    ensures Progress(before, oldest, after, oldest[r := UnixSeconds(NewOldest(files, times, k, fallback))], start)
  {
    if k == 0 {
      assert after == before;
      PassSettles(before, oldest, r, files, times, offset, fallback, start);
    } else {
      assert files[0] in files[..k] && files[0] in files;
      assert files[0] in before && files[0] !in after;
    }
  }

  /** The recorded time is not before the bound it replaces. */
  lemma PassRaises(before: Disk, oldest: map<string, int>, r: string, files: seq<Path>, times: map<Path, int>,
                   k: nat, fallback: int)
    requires r in oldest && oldest[r] <= UnixSeconds(fallback) && k <= |files|
    requires Bounds(before, oldest) && Timed(before, times, oldest)
    requires times.Keys == before.Keys && Listing(files, times, r)
    ensures Raised(oldest, oldest[r := UnixSeconds(NewOldest(files, times, k, fallback))])
  {
  }

  /** `after` is `before` with some files deleted. */
  ghost predicate Subdisk(after: Disk, before: Disk) {
    forall p :: p in after ==> p in before && after[p] == before[p]
  }

  lemma SubdiskOfNothing(disk: Disk)
    requires Subdisk(disk, map[])
    ensures disk == map[]
  {
  }

  /** Nothing recorded lies after the clock. */
  ghost predicate NotAfter(disk: Disk, strays: map<Path, int>, oldest: map<string, int>, clock: int) {
    && (forall p :: p in disk ==> disk[p].mtime <= clock)
    && (forall p :: p in strays ==> strays[p] <= clock)
    && (forall r :: r in oldest ==> oldest[r] <= UnixSeconds(clock))
  }

  /** The recorded time is that of a listed file, or the fallback. */
  lemma PassNotAfter(before: Disk, strays: map<Path, int>, after: Disk, oldest: map<string, int>, r: string,
                     files: seq<Path>, k: nat, fallback: int)
    requires NotAfter(before, strays, oldest, fallback) && Subdisk(after, before) && k <= |files|
    requires Listing(files, Times(before, strays), r)
    ensures var reached := UnixSeconds(NewOldest(files, Times(before, strays), k, fallback));
            NotAfter(after, strays, oldest[r := reached], fallback)
  {
    if files != [] {
      assert files[if k < |files| then k else |files| - 1] in files;
    }
  }

  // --------------------------------------------------------------- whole runs

  /** A clock that does not go back. */
  ghost predicate Steady(clock: nat -> int) {
    forall i, j :: i <= j ==> clock(i) <= clock(j)
  }

  lemma SteadyAt(clock: nat -> int, i: nat)
    requires Steady(clock)
    ensures UnixSeconds(clock(0)) <= UnixSeconds(clock(i))
  {
  }

  /** At no reading of the clock is a range's `oldest` more than so many days back. */
  ghost predicate AlwaysYounger(oldest: map<string, int>, clock: nat -> int, days: nat) {
    forall i :: Younger(oldest, clock(i), days)
  }

  /** How old the survivors of a whole run may be, by the age the cache had at most. */
  ghost predicate LruByAge(before: Disk, after: Disk, first: map<string, int>, clock: nat -> int) {
    && NearlyLru(before, after, 30 * 86400 * SECOND)
    && (AlwaysYounger(first, clock, 180) ==> NearlyLru(before, after, 7 * 86400 * SECOND))
    && (AlwaysYounger(first, clock, 90) ==> NearlyLru(before, after, 3 * 86400 * SECOND))
    && (AlwaysYounger(first, clock, 30) ==> NearlyLru(before, after, 86400 * SECOND))
  }

  lemma StillYounger(first: map<string, int>, oldest: map<string, int>, clock: nat -> int, i: nat, days: nat)
    requires Raised(first, oldest) && AlwaysYounger(first, clock, days)
    ensures Younger(oldest, clock(i), days)
  {
    assert Younger(first, clock(i), days);
  }

  /** One more round within a slack keeps a run within it. */
  lemma OneMoreRound(a: Disk, b: Disk, c: Disk, slack: int, limit: int)
    requires Subdisk(b, a) && Subdisk(c, b)
    requires NearlyLru(a, b, limit) && NearlyLru(b, c, slack) && slack <= limit
    ensures NearlyLru(a, c, limit)
  {
    NearlyLruWeaken(b, c, slack, limit);
    NearlyLruChain(a, b, c, limit);
  }

  lemma LruByAgeMore(a: Disk, b: Disk, c: Disk, first: map<string, int>, oldest: map<string, int>,
                     clock: nat -> int, i: nat)
    requires LruByAge(a, b, first, clock) && Raised(first, oldest)
    requires Subdisk(b, a) && Subdisk(c, b) && NearlyLru(b, c, RoundSlack(oldest, clock(i)))
    ensures LruByAge(a, c, first, clock)
  {
    hide NearlyLru, Subdisk, RoundSlack, Raised, AlwaysYounger, Younger;
    var slack := RoundSlack(oldest, clock(i));
    OneMoreRound(a, b, c, slack, 30 * 86400 * SECOND);
    if AlwaysYounger(first, clock, 180) {
      StillYounger(first, oldest, clock, i, 180);
      OneMoreRound(a, b, c, slack, 7 * 86400 * SECOND);
    }
    if AlwaysYounger(first, clock, 90) {
      StillYounger(first, oldest, clock, i, 90);
      OneMoreRound(a, b, c, slack, 3 * 86400 * SECOND);
    }
    if AlwaysYounger(first, clock, 30) {
      StillYounger(first, oldest, clock, i, 30);
      OneMoreRound(a, b, c, slack, 86400 * SECOND);
    }
  }

  /** What a round needs of the files and the bounds is still there after it. */
  lemma RunGoesOn(before: Disk, after: Disk, start: int, first: map<string, int>, oldest: map<string, int>,
                  oldest': map<string, int>)
    requires Precedes(before, start) && Subdisk(after, before)
    requires Raised(first, oldest) && Raised(oldest, oldest')
    ensures Precedes(after, start) && Raised(first, oldest')
  {
  }

  /**
    A run that set out to free `wanted` bytes: what it deleted, what is still wanted, the file
    without which the need was not met, and how old the survivors may be.
   */
  ghost predicate Cleaned(before: Disk, after: Disk, wanted: nat, left: nat, last: Option<Path>, slack: int) {
    && Subdisk(after, before)
    && LeftAfter(before, after, wanted, left)
    && LastNeeded(before, after, wanted, last)
    && NearlyLru(before, after, slack)
  }

  lemma CleanedNothing(disk: Disk, wanted: nat, oldest: map<string, int>, clock: nat -> int)
    ensures Cleaned(disk, disk, wanted, wanted, None, 30 * DAY * SECOND)
    ensures LruByAge(disk, disk, oldest, clock) && Raised(oldest, oldest)
  {
  }

  /** Rounds add up: the bytes still wanted, the last needed file and the age bound carry over. */
  lemma CleanedMore(a: Disk, b: Disk, c: Disk, wanted: nat, mid: nat, left: nat, lastMid: Option<Path>,
                    last: Option<Path>, slack: int)
    requires Cleaned(a, b, wanted, mid, lastMid, slack) && mid > 0
    requires Subdisk(c, b) && LeftAfter(b, c, mid, left) && LastNeeded(b, c, mid, last) && NearlyLru(b, c, slack)
    ensures Cleaned(a, c, wanted, left, if last.Some? then last else lastMid, slack)
    ensures Subdisk(b, a) && Subdisk(c, b)
  {
  }

  /** Enough bytes at the start leave enough for what is still wanted. */
  lemma StillReclaimable(before: Disk, after: Disk, wanted: nat, left: nat, last: Option<Path>, slack: int)
    requires Cleaned(before, after, wanted, left, last, slack) && left > 0 && wanted <= Total(AllSizes(before))
    ensures Total(AllSizes(after)) >= left
  {
  }

  lemma EnoughFreed(before: Disk, after: Disk, wanted: nat, last: Option<Path>, slack: int)
    requires Cleaned(before, after, wanted, 0, last, slack)
    ensures Freed(before, after) >= wanted
  {
  }

  lemma WithinLimit(before: Disk, after: Disk, wanted: nat, limit: nat, last: Option<Path>, slack: int)
    requires Cleaned(before, after, wanted, 0, last, slack) && Total(AllSizes(before)) <= limit + wanted
    ensures Total(AllSizes(after)) <= limit
  {
  }

  // ------------------------------------------------------- runs that never end

  /** Round `i` of a history of the cleaner's loop: one round, and the bytes still wanted after it. */
  ghost predicate RoundAt(disks: seq<Disk>, strays: map<Path, int>, oldests: seq<map<string, int>>, needs: seq<nat>,
                          clock: nat -> int, i: nat)
    requires |disks| == |oldests| == |needs| && i + 1 < |disks|
  {
    && RoundEffect(disks[i], strays, oldests[i], disks[i + 1], oldests[i + 1], clock(2 * i), clock(2 * i + 1),
                   needs[i + 1])
    && LeftAfter(disks[i], disks[i + 1], needs[i], needs[i + 1])
  }

  /** Consecutive rounds of the cleaner's loop, whatever ties and listings they met. */
  ghost predicate Rounds(disks: seq<Disk>, strays: map<Path, int>, oldests: seq<map<string, int>>, needs: seq<nat>,
                         clock: nat -> int) {
    && |disks| == |oldests| == |needs| && |disks| > 0
    && forall i :: 0 <= i < |disks| - 1 ==> RoundAt(disks, strays, oldests, needs, clock, i)
  }

  lemma RoundsStart(disk: Disk, strays: map<Path, int>, oldest: map<string, int>, need: nat, clock: nat -> int)
    ensures Rounds([disk], strays, [oldest], [need], clock)
  {
  }

  lemma RoundsGrow(disks: seq<Disk>, strays: map<Path, int>, oldests: seq<map<string, int>>, needs: seq<nat>,
                   clock: nat -> int, disk: Disk, oldest: map<string, int>, need: nat)
    requires Rounds(disks, strays, oldests, needs, clock)
    requires RoundAt(disks + [disk], strays, oldests + [oldest], needs + [need], clock, |disks| - 1)
    ensures Rounds(disks + [disk], strays, oldests + [oldest], needs + [need], clock)
  {
    hide RoundEffect, LeftAfter;
    forall i | 0 <= i < |disks|
      ensures RoundAt(disks + [disk], strays, oldests + [oldest], needs + [need], clock, i)
    {
      assert i < |disks| - 1 ==> RoundAt(disks, strays, oldests, needs, clock, i);
    }
  }

  /** When the files hold less than is wanted, every history of rounds still wants more. */
  lemma {:induction false} ShortForever(disks: seq<Disk>, strays: map<Path, int>, oldests: seq<map<string, int>>,
                                        needs: seq<nat>, clock: nat -> int, i: nat)
    requires Rounds(disks, strays, oldests, needs, clock) && i < |disks|
    requires Total(AllSizes(disks[0])) < needs[0]
    ensures Total(AllSizes(disks[i])) < needs[i]
  {
    hide RoundEffect, Total, AllSizes;
    if i > 0 {
      ShortForever(disks, strays, oldests, needs, clock, i - 1);
      assert RoundAt(disks, strays, oldests, needs, clock, i - 1);
    }
  }

  /**
    Range `r` is stuck: its directory holds no file of the cache, and its `oldest` is already the second the round
    would record, that of the newest stray or, in an empty directory, of the clock.
   */
  ghost predicate Stuck(disk: Disk, strays: map<Path, int>, oldest: map<string, int>, r: string, fileNow: int) {
    && r in oldest
    && (forall p :: p in disk ==> !InDir(p, r))
    && if forall p :: p in strays ==> !InDir(p, r) then oldest[r] == UnixSeconds(fileNow)
       else exists s :: NewestStray(strays, r, s) && oldest[r] == UnixSeconds(strays[s])
  }

  ghost predicate NewestStray(strays: map<Path, int>, r: string, s: Path) {
    s in strays && InDir(s, r) && forall p :: p in strays && InDir(p, r) ==> strays[p] <= strays[s]
  }

  /** A round changes nothing at all exactly when the range it picks is stuck. */
  lemma FixpointIff(before: Disk, strays: map<Path, int>, oldest: map<string, int>, after: Disk, oldest': map<string,
                    int>,
                    utcNow: int, fileNow: int, need: nat, left: nat, r: string, files: seq<Path>, k: nat)
    requires before.Keys !! strays.Keys && need > 0 && LeftAfter(before, after, need, left)
    requires RoundOn(before, strays, oldest, after, oldest', utcNow, fileNow, left, r, files, k)
    ensures after == before && oldest' == oldest <==> Stuck(before, strays, oldest, r, fileNow)
  {
    if after == before && oldest' == oldest {
      FixpointIsStuck(before, strays, oldest, utcNow, fileNow, need, r, files, k);
    }
    if Stuck(before, strays, oldest, r, fileNow) {
      StuckIsFixpoint(before, strays, oldest, after, oldest', utcNow, fileNow, need, left, r, files, k);
    }
  }

  lemma FixpointIsStuck(disk: Disk, strays: map<Path, int>, oldest: map<string, int>, utcNow: int, fileNow: int,
                        need: nat, r: string, files: seq<Path>, k: nat)
    requires disk.Keys !! strays.Keys && need > 0
    requires RoundOn(disk, strays, oldest, disk, oldest, utcNow, fileNow, need, r, files, k)
    ensures Stuck(disk, strays, oldest, r, fileNow)
  {
    var times := Times(disk, strays);
    assert oldest[r] == UnixSeconds(NewOldest(files, times, k, fileNow));
    assert k == |files|;
    forall p | p in disk
      ensures !InDir(p, r)
    {
      assert p in Elements(files[..k]) <==> p in files;
    }
    if files != [] {
      var s := files[|files| - 1];
      assert s in files && s in strays && InDir(s, r);
      forall p | p in strays && InDir(p, r)
        ensures strays[p] <= strays[s]
      {
        assert p in files;
        var i :| 0 <= i < |files| && files[i] == p;
      }
      assert NewestStray(strays, r, s);
    }
  }

  lemma StuckIsFixpoint(before: Disk, strays: map<Path, int>, oldest: map<string, int>, after: Disk,
                        oldest': map<string, int>,
                        utcNow: int, fileNow: int, need: nat, left: nat, r: string, files: seq<Path>, k: nat)
    requires before.Keys !! strays.Keys && need > 0 && LeftAfter(before, after, need, left)
    requires RoundOn(before, strays, oldest, after, oldest', utcNow, fileNow, left, r, files, k)
    requires Stuck(before, strays, oldest, r, fileNow)
    ensures after == before && oldest' == oldest && left == need
  {
    hide Offset, Times, Elements;
    var times := Times(before, strays);
    OnlyStraysListed(before, strays, files, r);
    assert after == before by {
      ListedStraysStay(before, strays, files, k);
    }
    if files != [] {
      var last := files[|files| - 1];
      assert last in files;
      var s :| NewestStray(strays, r, s) && oldest[r] == UnixSeconds(strays[s]);
      NewestIsLast(before, strays, files, r, s);
    }
  }

  lemma OnlyStraysListed(disk: Disk, strays: map<Path, int>, files: seq<Path>, r: string)
    requires Listing(files, Times(disk, strays), r) && forall p :: p in disk ==> !InDir(p, r)
    ensures forall p :: p in files <==> p in strays && InDir(p, r)
  {
  }

  lemma ListedStraysStay(disk: Disk, strays: map<Path, int>, files: seq<Path>, k: nat)
    requires disk.Keys !! strays.Keys && k <= |files| && forall p :: p in files ==> p in strays
    ensures disk - Elements(files[..k]) == disk
  {
  }

  /** The listing ends at the newest stray's time. */
  lemma NewestIsLast(disk: Disk, strays: map<Path, int>, files: seq<Path>, r: string, s: Path)
    requires Listing(files, Times(disk, strays), r) && NewestStray(strays, r, s) && files != []
    requires forall p :: p in files <==> p in strays && InDir(p, r)
    ensures var times := Times(disk, strays);
            && times[files[|files| - 1]] == strays[s]
            && forall i :: 0 <= i < |files| ==> times[files[i]] <= strays[s]
  {
    hide InDir;
    var times := Times(disk, strays);
    assert forall i :: 0 <= i < |files| ==> files[i] in files && times[files[i]] == strays[files[i]];
    var i :| 0 <= i < |files| && files[i] == s;
    assert times[files[i]] <= times[files[|files| - 1]];
  }

  /** `r` is the only range with the smallest `oldest`. */
  ghost predicate OnlyOldest(oldest: map<string, int>, r: string) {
    r in oldest && forall s :: s in oldest && s != r ==> oldest[r] < oldest[s]
  }

  /** The loop never leaves a range that is stuck on a stray: no history frees a byte or touches another range. */
  lemma {:induction false} StuckForever(disks: seq<Disk>, strays: map<Path, int>, oldests: seq<map<string, int>>,
                                        needs: seq<nat>, clock: nat -> int, r: string, s: Path, i: nat)
    requires Rounds(disks, strays, oldests, needs, clock) && i < |disks| && disks[0].Keys !! strays.Keys
    requires needs[0] > 0 && OnlyOldest(oldests[0], r) && NewestStray(strays, r, s)
    requires oldests[0][r] == UnixSeconds(strays[s]) && forall p :: p in disks[0] ==> !InDir(p, r)
    ensures disks[i] == disks[0] && oldests[i] == oldests[0] && needs[i] == needs[0]
  {
    hide RoundEffect, LeftAfter, InDir;
    if i > 0 {
      var j := i - 1;
      StuckForever(disks, strays, oldests, needs, clock, r, s, j);
      assert RoundAt(disks, strays, oldests, needs, clock, j);
      StuckRound(disks[j], strays, oldests[j], disks[i], oldests[i], clock(2 * j), clock(2 * j + 1),
                 needs[j], needs[i], r, s);
    }
  }

  /** No round gets past a stray that is the newest file of the only oldest range. */
  lemma StuckRound(before: Disk, strays: map<Path, int>, oldest: map<string, int>, after: Disk, oldest': map<string,
                   int>,
                   utcNow: int, fileNow: int, need: nat, left: nat, r: string, s: Path)
    requires before.Keys !! strays.Keys && need > 0 && LeftAfter(before, after, need, left)
    requires RoundEffect(before, strays, oldest, after, oldest', utcNow, fileNow, left)
    requires OnlyOldest(oldest, r) && NewestStray(strays, r, s)
    requires oldest[r] == UnixSeconds(strays[s]) && forall p :: p in before ==> !InDir(p, r)
    ensures after == before && oldest' == oldest && left == need
  {
    var q, files, k :| RoundOn(before, strays, oldest, after, oldest', utcNow, fileNow, left, q, files, k);
    hide DeletedPrefix, Listing, NewOldest, Offset, LeftAfter, InDir, Times;
    assert q == r;
    assert Stuck(before, strays, oldest, r, fileNow);
    StuckIsFixpoint(before, strays, oldest, after, oldest', utcNow, fileNow, need, left, r, files, k);
  }

  /** Such histories exist, of every length: one stray alone in the oldest range is enough. */
  lemma OneStrayIsEnough(disk: Disk, strays: map<Path, int>, oldest: map<string, int>, r: string, s: Path, need: nat,
                         clock: nat -> int, rounds: nat)
    requires OldestFirst(oldest, r) && s in strays && InDir(s, r) && oldest[r] == UnixSeconds(strays[s])
    requires forall p :: (p in disk || p in strays) && InDir(p, r) ==> p == s
    requires s !in disk
    ensures Rounds(seq(rounds + 1, _ => disk), strays, seq(rounds + 1, _ => oldest), seq(rounds + 1, _ => need), clock)
  {
    var times := Times(disk, strays);
    assert [s][..1] == [s];
    assert disk - Elements([s]) == disk;
    assert times[s] == strays[s];
    assert oldest[r := UnixSeconds(strays[s])] == oldest;
    forall i | 0 <= i < rounds
      ensures RoundEffect(disk, strays, oldest, disk, oldest, clock(2 * i), clock(2 * i + 1), need)
    {
      assert RoundOn(disk, strays, oldest, disk, oldest, clock(2 * i), clock(2 * i + 1), need, r, [s], 1);
    }
  }
}
