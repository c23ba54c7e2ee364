/**
  One cleaner round cut at its awaits. The range is chosen under the lock; the directory is then listed, every entry's
  time read, the entries sorted, and one file after the other deleted, while imports, accesses and removals go on
  between any two of these steps. Every file here carries a name of the cache, and an import brings the current time.
 */
module CacheInterleaving {
  import opened Common
  import opened FileId
  import opened CacheIndex
  import opened CacheCleaner
  import opened CacheRuns

  /** Where the cleaner stands in the round on range `r`, whose `oldest` was `base`. */
  datatype Cleaner =
    | Idle
    | Chosen(r: string, base: int, offset: nat)                                               // lock released
    | Listed(r: string, base: int, offset: nat, todo: set<Path>, times: map<Path, int>)       // reading times
    | Deleting(r: string, base: int, offset: nat, files: seq<Path>, times: map<Path, int>, k: nat, fallback: int)

  /** `evicted` remembers what was deleted: the time the cleaner had seen, and the offset. */
  datatype State = State(disk: Disk, oldest: map<string, int>, clock: int, cleaner: Cleaner, evicted: set<Eviction>)

  datatype Step =
    | Tick(now: int)
    | Import(p: Path, content: seq<Byte>, usage: nat) | Access(p: Path) | Remove(p: Path)
    | Choose(r: string) | ListDir | ReadTime(p: Path) | Sort(files: seq<Path>) | Delete | Finish

  ghost predicate SortedBy(files: seq<Path>, times: map<Path, int>) {
    && (forall p :: p in files <==> p in times)
    && (forall i, j :: 0 <= i < j < |files| ==> files[i] != files[j])
    && (forall i, j :: 0 <= i < j < |files| ==> times[files[i]] <= times[files[j]])
  }

  ghost predicate Enabled(s: State, step: Step) {
    match step
    case Tick(now) => s.clock <= now
    case Import(_, _, _) => true
    case Access(p) => p in s.disk
    case Remove(p) => true
    case Choose(r) => s.cleaner.Idle? && OldestFirst(s.oldest, r)
    case ListDir => s.cleaner.Chosen?
    case ReadTime(p) => s.cleaner.Listed? && p in s.cleaner.todo
    case Sort(files) => s.cleaner.Listed? && s.cleaner.todo == {} && SortedBy(files, s.cleaner.times)
    case Delete =>
      && s.cleaner.Deleting? && s.cleaner.k < |s.cleaner.files| && s.cleaner.files[s.cleaner.k] in s.cleaner.times
      && s.cleaner.times[s.cleaner.files[s.cleaner.k]] <= (s.cleaner.base + s.cleaner.offset) * SECOND
    case Finish =>
      && s.cleaner.Deleting? && s.cleaner.k <= |s.cleaner.files|
      && forall p :: p in s.cleaner.files ==> p in s.cleaner.times
  }

  /** The second a finishing round records as its range's `oldest`. */
  ghost function Recorded(c: Cleaner): int
    requires c.Deleting? && c.k <= |c.files| && forall p :: p in c.files ==> p in c.times
  {
    UnixSeconds(NewOldest(c.files, c.times, c.k, c.fallback))
  }

  ghost function Do(s: State, step: Step): State
    requires Enabled(s, step)
  {
    var c := s.cleaner;
    match step
    case Tick(now) => s.(clock := now)
    case Import(p, content, usage) =>
      s.(disk := s.disk[p := StoredFile(content, usage, s.clock)],
         oldest := if RangeOf(p) in s.oldest then s.oldest else s.oldest[RangeOf(p) := UnixSeconds(s.clock)])
    case Access(p) => s.(disk := s.disk[p := s.disk[p].(mtime := s.clock)])
    case Remove(p) => s.(disk := s.disk - {p})
    case Choose(r) => s.(cleaner := Chosen(r, s.oldest[r], Offset(s.oldest[r], s.clock)))
    case ListDir =>
      s.(cleaner := Listed(c.r, c.base, c.offset, set p | p in s.disk && RangeOf(p) == c.r, map[]))
    case ReadTime(p) =>
      s.(cleaner := c.(todo := c.todo - {p}, times := if p in s.disk then c.times[p := s.disk[p].mtime] else c.times))
    case Sort(files) => s.(cleaner := Deleting(c.r, c.base, c.offset, files, c.times, 0, s.clock))
    case Delete =>
      var p := c.files[c.k];
      s.(disk := s.disk - {p}, cleaner := c.(k := c.k + 1),
         evicted := if p in s.disk then s.evicted + {Eviction(c.times[p], c.offset * SECOND)} else s.evicted)
    case Finish => s.(oldest := s.oldest[c.r := Recorded(c)], cleaner := Idle)
  }

  // ----------------------------------------------------------------- invariant

  /** The bound and the clock: true between the steps of any round that finishes well. */
  ghost predicate Core(s: State) {
    && Bounds(s.disk, s.oldest)
    && (forall p :: p in s.disk ==> RangeOf(p) in s.oldest && s.disk[p].mtime <= s.clock)
    && (forall r :: r in s.oldest ==> s.oldest[r] <= UnixSeconds(s.clock))
    && EvictedLru(s.disk, s.evicted, s.clock)
    && CleanerOk(s)
  }

  /** Every file is at least as new as the `base` of the round, and as the time the round has seen of it. */
  ghost predicate CleanerOk(s: State) {
    var c := s.cleaner;
    && (!c.Idle? ==>
          && c.r in s.oldest && c.base <= UnixSeconds(s.clock)
          && forall p :: p in s.disk ==> c.base * SECOND <= s.disk[p].mtime)
    && (c.Listed? || c.Deleting? ==>
          forall p :: p in c.times ==> c.times[p] <= s.clock && (p in s.disk ==> c.times[p] <= s.disk[p].mtime))
    && (c.Deleting? ==>
          && c.k <= |c.files| && SortedBy(c.files, c.times) && c.fallback <= s.clock
          && forall p :: p in c.times ==> c.times[p] <= c.fallback)
  }

  /** A file of the range that the rest of the round does not know of. */
  ghost predicate Stranger(s: State, p: Path)
    requires s.cleaner.Deleting? && s.cleaner.k <= |s.cleaner.files|
  {
    p in s.disk && RangeOf(p) == s.cleaner.r && p !in s.cleaner.files[s.cleaner.k..]
  }

  lemma ClockKeepsCore(s: State, now: int)
    requires Core(s) && s.clock <= now
    ensures Core(Do(s, Tick(now)))
  {
  }

  /** A file that carries the current time never falls behind anything. */
  lemma FreshFileKeepsCore(s: State, p: Path, file: StoredFile)
    requires Core(s) && file.mtime == s.clock
    ensures var oldest := if RangeOf(p) in s.oldest then s.oldest else s.oldest[RangeOf(p) := UnixSeconds(s.clock)];
            Core(s.(disk := s.disk[p := file], oldest := oldest))
  {
  }

  lemma FewerFilesKeepCore(s: State, p: Path)
    requires Core(s)
    ensures Core(s.(disk := s.disk - {p}))
  {
  }

  lemma ChooseKeepsCore(s: State, r: string)
    requires Core(s) && Enabled(s, Choose(r))
    ensures Core(Do(s, Choose(r)))
  {
    hide Offset, EvictedLru;
  }

  lemma ReadingKeepsCore(s: State, step: Step)
    requires Core(s) && Enabled(s, step) && (step.ListDir? || step.ReadTime? || step.Sort?)
    ensures Core(Do(s, step))
  {
    hide EvictedLru, Bounds, RangeOf;
  }

  /** What is deleted had, when its time was read, been within the offset of every file that is or will be there. */
  lemma DeleteKeepsCore(s: State)
    requires Core(s) && Enabled(s, Delete)
    ensures Core(Do(s, Delete))
  {
    hide SortedBy, RangeOf;
    FewerFilesKeepCore(s, s.cleaner.files[s.cleaner.k]);
  }

  /** Every step but the last of a round keeps the invariant, in every interleaving. */
  lemma StepKeepsCore(s: State, step: Step)
    requires Core(s) && Enabled(s, step) && !step.Finish?
    ensures Core(Do(s, step))
  {
    hide Core;
    match step
    case Tick(now) => ClockKeepsCore(s, now);
    case Import(p, content, usage) => FreshFileKeepsCore(s, p, StoredFile(content, usage, s.clock));
    case Access(p) => AccessKeepsCore(s, p);
    case Remove(p) => FewerFilesKeepCore(s, p);
    case Choose(r) => ChooseKeepsCore(s, r);
    case ListDir => ReadingKeepsCore(s, step);
    case ReadTime(p) => ReadingKeepsCore(s, step);
    case Sort(files) => ReadingKeepsCore(s, step);
    case Delete => DeleteKeepsCore(s);
  }

  lemma AccessKeepsCore(s: State, p: Path)
    requires Core(s) && p in s.disk
    ensures Core(Do(s, Access(p)))
  {
    FreshFileKeepsCore(s, p, s.disk[p].(mtime := s.clock));
  }

  /**
    The last step keeps the invariant exactly when the recorded second is not after the time of a file that came
    into the range behind the round's back.
   */
  lemma FinishKeepsCoreIff(s: State)
    requires Core(s) && Enabled(s, Finish)
    ensures Core(Do(s, Finish)) <==>
            forall p :: Stranger(s, p) ==> Recorded(s.cleaner) <= UnixSeconds(s.disk[p].mtime)
  {
    hide EvictedLru;
    var c, end := s.cleaner, Do(s, Finish);
    RecordedInPast(s);
    forall p | p in s.disk && p in c.files[c.k..]
      ensures Recorded(c) <= UnixSeconds(s.disk[p].mtime)
    {
      KnownFile(s, p);
    }
    assert forall p :: Stranger(s, p) ==>
      p in end.disk && RangeOf(p) in end.oldest && end.oldest[RangeOf(p)] == Recorded(c);
  }

  lemma RecordedInPast(s: State)
    requires Core(s) && Enabled(s, Finish)
    ensures Recorded(s.cleaner) <= UnixSeconds(s.clock)
  {
    var c := s.cleaner;
    if c.files != [] {
      assert c.files[if c.k < |c.files| then c.k else |c.files| - 1] in c.files;
    }
  }

  lemma KnownFile(s: State, p: Path)
    requires Core(s) && s.cleaner.Deleting? && p in s.disk && p in s.cleaner.files[s.cleaner.k..]
    ensures Recorded(s.cleaner) <= UnixSeconds(s.disk[p].mtime)
  {
    var c := s.cleaner;
    var i :| 0 <= i < |c.files[c.k..]| && c.files[c.k..][i] == p;
    assert c.files[c.k + i] == p && c.files[c.k + i] in c.files;
    assert c.times[c.files[c.k]] <= c.times[c.files[c.k + i]];
  }

  // -------------------------------------------------------------- timely runs

  /** A new file comes into the range while its directory is being read: neither still to be read nor read already. */
  ghost predicate Untimely(s: State, step: Step) {
    && step.Import? && s.cleaner.Listed? && RangeOf(step.p) == s.cleaner.r
    && step.p !in s.cleaner.todo && step.p !in s.cleaner.times
  }

  /** The round knows every file of its range, or the file is newer than everything the round has seen. */
  ghost predicate AllKnown(s: State) {
    var c := s.cleaner;
    && (c.Listed? ==> forall p :: p in s.disk && RangeOf(p) == c.r ==> p in c.todo || p in c.times)
    && (c.Deleting? ==>
          c.k <= |c.files| && forall p :: Stranger(s, p) ==> c.fallback <= s.disk[p].mtime)
  }

  lemma StepKeepsKnown(s: State, step: Step)
    requires Core(s) && AllKnown(s) && Enabled(s, step) && !Untimely(s, step)
    ensures AllKnown(Do(s, step))
  {
    hide EvictedLru, Bounds, RangeOf, Offset;
    var c, end := s.cleaner, Do(s, step);
    if step.Delete? {
      assert c.files[c.k..] == [c.files[c.k]] + c.files[c.k + 1..];
    }
    if step.Sort? {
      assert step.files[0..] == step.files;
    }
  }

  lemma KnownFinishes(s: State)
    requires Core(s) && AllKnown(s) && Enabled(s, Finish)
    ensures Core(Do(s, Finish))
  {
    hide Core;
    FinishKeepsCoreIff(s);
    assert Recorded(s.cleaner) <= UnixSeconds(s.cleaner.fallback) by {
      RecordedBeforeFallback(s);
    }
  }

  lemma RecordedBeforeFallback(s: State)
    requires Core(s) && Enabled(s, Finish)
    ensures Recorded(s.cleaner) <= UnixSeconds(s.cleaner.fallback)
  {
    var c := s.cleaner;
    if c.files != [] {
      assert c.files[if c.k < |c.files| then c.k else |c.files| - 1] in c.files;
    }
  }

  ghost predicate Possible(s: State, steps: seq<Step>)
    decreases |steps|
  {
    steps != [] ==> Enabled(s, steps[0]) && Possible(Do(s, steps[0]), steps[1..])
  }

  ghost function After(s: State, steps: seq<Step>): State
    requires Possible(s, steps)
    decreases |steps|
  {
    if steps == [] then s else After(Do(s, steps[0]), steps[1..])
  }

  ghost predicate Timely(s: State, steps: seq<Step>)
    requires Possible(s, steps)
    decreases |steps|
  {
    steps != [] ==> !Untimely(s, steps[0]) && Timely(Do(s, steps[0]), steps[1..])
  }

  /**
    However imports, accesses and removals interleave with rounds of the cleaner: as long as no new file comes into a
    range while its directory is being read, `oldest` stays a lower bound, and no file that is left is older, by more
    than the offset of the round, than the time the cleaner had seen of any file it deleted.
   */
  lemma {:induction false} TimelyRunKeepsCore(s: State, steps: seq<Step>)
    requires Core(s) && AllKnown(s) && Possible(s, steps) && Timely(s, steps)
    ensures Core(After(s, steps)) && AllKnown(After(s, steps))
    decreases |steps|
  {
    hide Core, AllKnown, Enabled, Do, Untimely;
    if steps != [] {
      StepKeepsKnown(s, steps[0]);
      if steps[0].Finish? {
        KnownFinishes(s);
      } else {
        StepKeepsCore(s, steps[0]);
      }
      TimelyRunKeepsCore(Do(s, steps[0]), steps[1..]);
    }
  }

  /**
    The condition is needed: a file that comes into an empty range after the directory was read, in a second before
    the cleaner looks at the clock, is older than the `oldest` the round records.
   */
  lemma UntimelyImportBreaksBound(s: State, p: Path, content: seq<Byte>, usage: nat, now: int)
    requires Core(s) && s.cleaner.Listed? && s.cleaner.todo == {} && s.cleaner.times == map[]
    requires RangeOf(p) == s.cleaner.r && UnixSeconds(s.clock) < UnixSeconds(now)
    ensures var steps := [Import(p, content, usage), Tick(now), Sort([]), Finish];
            Untimely(s, steps[0]) && Possible(s, steps) && !Bounds(After(s, steps).disk, After(s, steps).oldest)
  {
    hide RangeOf;
    var s1 := Do(s, Import(p, content, usage));
    var s2 := Do(s1, Tick(now));
    assert Enabled(s2, Sort([]));
    var s3 := Do(s2, Sort([]));
    assert Enabled(s3, Finish);
    var end := Do(s3, Finish);
    FourSteps(s, Import(p, content, usage), Tick(now), Sort([]), Finish);
    assert p in end.disk && end.oldest[RangeOf(p)] == UnixSeconds(now) && end.disk[p].mtime == s.clock;
  }

  lemma FourSteps(s: State, a: Step, b: Step, c: Step, d: Step)
    requires Enabled(s, a) && Enabled(Do(s, a), b) && Enabled(Do(Do(s, a), b), c) && Enabled(Do(Do(Do(s, a), b), c), d)
    ensures Possible(s, [a, b, c, d]) && After(s, [a, b, c, d]) == Do(Do(Do(Do(s, a), b), c), d)
  {
    hide Do, Enabled;
    FirstStep(Do(Do(Do(s, a), b), c), d, []);
    FirstStep(Do(Do(s, a), b), c, [d]);
    FirstStep(Do(s, a), b, [c, d]);
    FirstStep(s, a, [b, c, d]);
    assert [c] + ([d] + []) == [c, d] && [b] + [c, d] == [b, c, d] && [a] + [b, c, d] == [a, b, c, d];
  }

  lemma FirstStep(s: State, first: Step, rest: seq<Step>)
    requires Enabled(s, first) && Possible(Do(s, first), rest)
    ensures Possible(s, [first] + rest) && After(s, [first] + rest) == After(Do(s, first), rest)
  {
    hide Do, Enabled;
    assert ([first] + rest)[1..] == rest;
  }

  /**
    By the time a file has when it is deleted, a round is approximately LRU as long as that time is within the
    cut-off. An access after the time was read can take it past the cut-off, and with a file left at the round's
    `base` the deletion is then not LRU: the condition is exact.
   */
  lemma DeleteIsLruIff(s: State)
    requires Core(s) && Enabled(s, Delete) && s.cleaner.files[s.cleaner.k] in s.disk
    ensures var c, p := s.cleaner, s.cleaner.files[s.cleaner.k];
            var lru := NearlyLru(s.disk, s.disk - {p}, c.offset * SECOND);
            && (s.disk[p].mtime <= (c.base + c.offset) * SECOND ==> lru)
            && ((exists f :: f in s.disk && f != p && s.disk[f].mtime == c.base * SECOND) ==>
                  (lru <==> s.disk[p].mtime <= (c.base + c.offset) * SECOND))
            && (s.disk[p].mtime == c.times[p] ==> lru)
  {
    hide EvictedLru, Bounds, SortedBy;
    var c, p := s.cleaner, s.cleaner.files[s.cleaner.k];
    if f :| f in s.disk && f != p && s.disk[f].mtime == c.base * SECOND {
      assert f in s.disk - {p} && p !in s.disk - {p};
    }
  }

  /** Such an access exists: the file is deleted although it was used after everything that is left. */
  lemma AccessedFileIsDeleted(s: State, f: Path, now: int)
    requires Core(s) && Enabled(s, Delete) && s.cleaner.files[s.cleaner.k] in s.disk
    requires f in s.disk && f != s.cleaner.files[s.cleaner.k] && s.disk[f].mtime == s.cleaner.base * SECOND
    requires s.clock <= now && (s.cleaner.base + s.cleaner.offset) * SECOND < now
    ensures var p, steps := s.cleaner.files[s.cleaner.k], [Tick(now), Access(s.cleaner.files[s.cleaner.k])];
            && Possible(s, steps) && Enabled(After(s, steps), Delete)
            && !NearlyLru(After(s, steps).disk, After(s, steps).disk - {p}, s.cleaner.offset * SECOND)
  {
    var p := s.cleaner.files[s.cleaner.k];
    var end := Do(Do(s, Tick(now)), Access(p));
    FirstStep(Do(s, Tick(now)), Access(p), []);
    FirstStep(s, Tick(now), [Access(p)]);
    assert [Tick(now)] + ([Access(p)] + []) == [Tick(now), Access(p)];
    assert p in end.disk && end.disk[p].mtime == now;
    assert f in end.disk - {p} && (end.disk - {p})[f].mtime == s.disk[f].mtime;
  }

  /** A file that was removed first is not deleted again: the cleaner passes over it and evicts nothing. */
  lemma RemovedFirst(s: State)
    requires Enabled(s, Delete)
    ensures var p := s.cleaner.files[s.cleaner.k];
            var removed := Do(s, Remove(p));
            && p !in removed.disk && Enabled(removed, Delete)
            && Do(removed, Delete) == s.(disk := s.disk - {p}, cleaner := s.cleaner.(k := s.cleaner.k + 1))
  {
    var p := s.cleaner.files[s.cleaner.k];
    assert s.disk - {p} - {p} == s.disk - {p};
  }

  // --------------------------------------------------- rounds without interference

  lemma {:induction false} Chained(s: State, a: seq<Step>, b: seq<Step>)
    requires Possible(s, a) && Possible(After(s, a), b)
    ensures Possible(s, a + b) && After(s, a + b) == After(After(s, a), b)
    decreases |a|
  {
    hide Do, Enabled;
    if a == [] {
      assert a + b == b;
    } else {
      Chained(Do(s, a[0]), a[1..], b);
      assert a + b == [a[0]] + (a[1..] + b);
      FirstStep(s, a[0], a[1..] + b);
    }
  }

  /** The times of some files of the disk. */
  ghost function TimesOn(disk: Disk, files: set<Path>): map<Path, int> {
    map p | p in files && p in disk :: disk[p].mtime
  }

  /** Reading the listed times one after the other. */
  lemma {:induction false} ReadsAll(s: State, files: set<Path>, todo: set<Path>) returns (steps: seq<Step>)
    requires s.cleaner.Listed? && todo <= files <= s.disk.Keys
    requires s.cleaner.todo == todo && s.cleaner.times == TimesOn(s.disk, files - todo)
    ensures Possible(s, steps)
    ensures After(s, steps) == s.(cleaner := s.cleaner.(todo := {}, times := TimesOn(s.disk, files)))
    decreases todo
  {
    if todo == {} {
      steps := [];
      assert files - todo == files;
    } else {
      var p :| p in todo;
      var next := Do(s, ReadTime(p));
      assert TimesOn(s.disk, files - (todo - {p})) == TimesOn(s.disk, files - todo)[p := s.disk[p].mtime];
      var rest := ReadsAll(next, files, todo - {p});
      FirstStep(s, ReadTime(p), rest);
      steps := [ReadTime(p)] + rest;
    }
  }

  /** Deleting the next files up to position `k`, all within the cut-off. */
  lemma {:induction false} DeletesUpTo(s: State, k: nat) returns (steps: seq<Step>)
    requires s.cleaner.Deleting? && s.cleaner.k <= k <= |s.cleaner.files|
    requires forall i :: 0 <= i < k ==>
               && s.cleaner.files[i] in s.cleaner.times
               && s.cleaner.times[s.cleaner.files[i]] <= (s.cleaner.base + s.cleaner.offset) * SECOND
    ensures Possible(s, steps)
    ensures var end, c := After(s, steps), s.cleaner;
            && end.disk == s.disk - Elements(c.files[c.k..k]) && end.cleaner == c.(k := k)
            && end.oldest == s.oldest && end.clock == s.clock
    decreases k - s.cleaner.k
  {
    var c := s.cleaner;
    if c.k == k {
      steps := [];
      assert Elements(c.files[c.k..k]) == {};
    } else {
      var next := Do(s, Delete);
      var rest := DeletesUpTo(next, k);
      FirstStep(s, Delete, rest);
      steps := [Delete] + rest;
      assert c.files[c.k..k] == [c.files[c.k]] + c.files[c.k + 1..k];
      assert Elements(c.files[c.k..k]) == {c.files[c.k]} + Elements(c.files[c.k + 1..k]);
    }
  }

  /** The round's listing, told in terms of the steps. */
  lemma RoundListing(s: State, r: string, files: seq<Path>, k: nat, times: map<Path, int>)
    requires (forall p :: p in s.disk ==> InDir(p, RangeOf(p))) && k <= |files|
    requires Listing(files, Times(s.disk, map[]), r) && times == TimesOn(s.disk, Elements(files))
    ensures Elements(files) == (set p | p in s.disk && RangeOf(p) == r)
    ensures SortedBy(files, times) && TimesOn(s.disk, Elements(files) - Elements(files)) == map[]
    ensures forall p :: p in files ==> p in times && times[p] == Times(s.disk, map[])[p]
    ensures NewOldest(files, times, k, s.clock) == NewOldest(files, Times(s.disk, map[]), k, s.clock)
  {
    assert forall p :: p in files ==> p in s.disk && InDir(p, r);
    assert forall i :: 0 <= i < |files| ==> files[i] in files;
  }

  /** From the choice of a range to its sorted listing. */
  lemma ReachesListing(s: State, r: string, files: seq<Path>) returns (steps: seq<Step>)
    requires s.cleaner.Idle? && OldestFirst(s.oldest, r) && SortedBy(files, TimesOn(s.disk, Elements(files)))
    requires Elements(files) == set p | p in s.disk && RangeOf(p) == r
    ensures Possible(s, steps)
    ensures After(s, steps) == s.(cleaner := Deleting(r, s.oldest[r], Offset(s.oldest[r], s.clock), files,
                                                      TimesOn(s.disk, Elements(files)), 0, s.clock))
  {
    hide Possible, After, OldestFirst, SortedBy, Elements, RangeOf, Offset;
    var listed := Do(Do(s, Choose(r)), ListDir);
    assert TimesOn(s.disk, Elements(files) - Elements(files)) == map[];
    var reading := ReadsAll(listed, Elements(files), Elements(files));
    var read := After(listed, reading);
    Alone(read, Sort(files));
    Chained(listed, reading, [Sort(files)]);
    FirstStep(Do(s, Choose(r)), ListDir, reading + [Sort(files)]);
    FirstStep(s, Choose(r), [ListDir] + (reading + [Sort(files)]));
    steps := [Choose(r)] + ([ListDir] + (reading + [Sort(files)]));
  }

  lemma Alone(s: State, step: Step)
    requires Enabled(s, step)
    ensures Possible(s, [step]) && After(s, [step]) == Do(s, step)
  {
    hide Do, Enabled;
    assert [step][1..] == [];
  }

  /** From a sorted listing to the end of the round. */
  lemma ReachesEnd(s: State, k: nat) returns (steps: seq<Step>)
    requires s.cleaner.Deleting? && s.cleaner.k == 0 && k <= |s.cleaner.files|
    requires forall p :: p in s.cleaner.files ==> p in s.cleaner.times
    requires forall i :: 0 <= i < k ==>
               s.cleaner.times[s.cleaner.files[i]] <= (s.cleaner.base + s.cleaner.offset) * SECOND
    ensures Possible(s, steps)
    ensures var end, c := After(s, steps), s.cleaner;
            && end.disk == s.disk - Elements(c.files[..k]) && end.clock == s.clock && end.cleaner.Idle?
            && end.oldest == s.oldest[c.r := Recorded(c.(k := k))]
  {
    hide Possible, After, Elements;
    var deleting := DeletesUpTo(s, k);
    assert s.cleaner.files[0..k] == s.cleaner.files[..k];
    Alone(After(s, deleting), Finish);
    Chained(s, deleting, [Finish]);
    steps := deleting + [Finish];
  }

  /** Every round of the undivided cleaner is a run of these steps with nothing in between. */
  lemma UndividedRoundIsARun(s: State, after: Disk, oldest': map<string, int>, left: nat, r: string, files: seq<Path>,
                             k: nat) returns (steps: seq<Step>)
    requires s.cleaner.Idle? && forall p :: p in s.disk ==> InDir(p, RangeOf(p))
    requires RoundOn(s.disk, map[], s.oldest, after, oldest', s.clock, s.clock, left, r, files, k)
    ensures Possible(s, steps)
    ensures var end := After(s, steps);
            end.disk == after && end.oldest == oldest' && end.clock == s.clock && end.cleaner.Idle?
  {
    hide Possible, After, Elements, Listing, SortedBy, OldestFirst, Offset, NewOldest, Times, TimesOn, InDir, RangeOf;
    RoundListing(s, r, files, k, TimesOn(s.disk, Elements(files)));
    var listing := ReachesListing(s, r, files);
    var ending := ReachesEnd(After(s, listing), k);
    Chained(s, listing, ending);
    steps := listing + ending;
  }
}
