/**
  Whole runs of the cache: any sequence of imports, accesses, removals and cleaner rounds.
  The index stays right about the disk, `oldest` stays a lower bound, and nothing left in the
  cache is older than anything a round deleted by more than the offset of that round.
 */
module CacheRuns {
  import opened Common
  import opened FileId
  import opened CacheIndex
  import opened CacheCleaner
  import opened CacheManager

  /** One operation, with the clock reading `now` it ends at; a round reads the clock once before that. */
  datatype Op =
    | Put(info: CacheFileInfo, content: seq<Byte>, usage: nat, now: int)
    | Touch(info: CacheFileInfo, now: int)
    | Drop(info: CacheFileInfo, now: int)
    | Clean(need: nat, utcNow: int, now: int)

  /** What the operations change: the files, the bound of every range, and the range directories. */
  datatype Snapshot = Snapshot(disk: Disk, oldest: map<string, int>, dirs: set<string>)

  function Now(m: CacheManager): Snapshot
    reads m
  {
    Snapshot(m.disk, OldestOf(m.cacheState), m.dirs)
  }

  /** The clock does not go back, and descriptions come from parsed names. */
  ghost predicate WellTimed(ops: seq<Op>, clock: int) {
    ops != [] ==>
      && clock <= ops[0].now
      && (!ops[0].Clean? ==> Storable(ops[0].info.fileType))
      && (ops[0].Clean? ==> ops[0].need > 0)
      && WellTimed(ops[1..], ops[0].now)
  }

  // ---------------------------------------------------------------- evictions

  /** A deleted file: its modification time, and the offset of the round that deleted it. */
  datatype Eviction = Eviction(mtime: int, slack: int)

  ghost predicate EvictedLru(disk: Disk, evicted: set<Eviction>, clock: int) {
    forall e :: e in evicted ==>
      e.mtime <= clock && 0 <= e.slack && forall f :: f in disk ==> e.mtime <= disk[f].mtime + e.slack
  }

  ghost function Evicted(before: Disk, after: Disk, slack: int): set<Eviction> {
    set d | d in before && d !in after :: Eviction(before[d].mtime, slack)
  }

  lemma EvictedGrows(before: Disk, after: Disk, evicted: set<Eviction>, clock: int, slack: int)
    requires EvictedLru(before, evicted, clock) && Subdisk(after, before)
    requires NearlyLru(before, after, slack) && 0 <= slack
    requires forall p :: p in before ==> before[p].mtime <= clock
    ensures EvictedLru(after, evicted + Evicted(before, after, slack), clock)
  {
  }

  /** What holds between operations. */
  ghost predicate Invariant(m: CacheManager, evicted: set<Eviction>, clock: int)
    reads m
  {
    && m.Valid() && m.Bounded()
    && NotAfter(m.disk, m.strays, OldestOf(m.cacheState), clock)
    && EvictedLru(m.disk, evicted, clock)
  }

  /** Only files at `p` change, and a new one carries the current time. */
  lemma PutKeeps(disk: Disk, strays: map<Path, int>, evicted: set<Eviction>, oldest: map<string, int>, clock: int,
                 p: Path, file: StoredFile, r: string)
    requires NotAfter(disk, strays, oldest, clock) && EvictedLru(disk, evicted, clock) && clock <= file.mtime
    ensures NotAfter(disk[p := file], strays, oldest, file.mtime)
    ensures NotAfter(disk[p := file], strays, oldest[r := UnixSeconds(file.mtime)], file.mtime)
    ensures EvictedLru(disk[p := file], evicted, file.mtime)
  {
  }

  lemma LaterKeeps(disk: Disk, after: Disk, strays: map<Path, int>, evicted: set<Eviction>, oldest: map<string, int>,
                   clock: int, later: int)
    requires NotAfter(disk, strays, oldest, clock) && EvictedLru(disk, evicted, clock)
    requires Subdisk(after, disk) && clock <= later
    ensures NotAfter(after, strays, oldest, later) && EvictedLru(after, evicted, later)
    ensures Bounds(disk, oldest) ==> Bounds(after, oldest)
  {
  }

  // --------------------------------------------------------------- operations

  function Touched(disk: Disk, p: Path, now: int): Disk {
    if p in disk then disk[p := disk[p].(mtime := now)] else disk
  }

  /** A round either took place or stopped at once, without ranges or at a range without a directory. */
  ghost predicate RoundOrStop(before: Snapshot, strays: map<Path, int>, after: Snapshot, need: nat, utcNow: int,
                              now: int) {
    || (after == before && (before.oldest == map[] || exists r :: OldestFirst(before.oldest, r) && r !in before.dirs))
    || (&& after.dirs == before.dirs
        && exists left: nat ::
             && RoundEffect(before.disk, strays, before.oldest, after.disk, after.oldest, utcNow, now, left)
             && RoundLaw(before.disk, strays, before.oldest, after.disk, after.oldest, utcNow, now, left)
             && LeftAfter(before.disk, after.disk, need, left))
  }

  /** What an operation does. */
  ghost predicate Effect(before: Snapshot, strays: map<Path, int>, op: Op, after: Snapshot) {
    match op
    case Put(info, content, usage, now) =>
      var r := StaticRange(info);
      && after.disk == before.disk[ToPath(info) := StoredFile(content, usage, now)]
      && after.oldest == (if r in before.oldest then before.oldest else before.oldest[r := UnixSeconds(now)])
      && after.dirs == before.dirs + {r}
    case Touch(info, now) => after == before.(disk := Touched(before.disk, ToPath(info), now))
    case Drop(info, now) => after == before.(disk := before.disk - {ToPath(info)})
    case Clean(need, utcNow, now) => RoundOrStop(before, strays, after, need, utcNow, now)
  }

  method Import(m: CacheManager, info: CacheFileInfo, content: seq<Byte>, usage: nat, now: int,
                ghost evicted: set<Eviction>, ghost clock: int)
    requires Invariant(m, evicted, clock) && clock <= now && Storable(info.fileType)
    modifies m
    ensures Invariant(m, evicted, now) && m.strays == old(m.strays)
    ensures Effect(old(Now(m)), m.strays, Put(info, content, usage, now), Now(m))
  {
    hide Consistent, NamesOk, Storable, ToPath, StaticRange, Bounds, EvictedLru;
    var file := StoredFile(content, usage, now);
    PutKeeps(m.disk, m.strays, evicted, OldestOf(m.cacheState), clock, ToPath(info), file, StaticRange(info));
    OldestOfAt(m.cacheState, StaticRange(info));
    m.ImportCache(info, file, now);
  }

  method Access(m: CacheManager, info: CacheFileInfo, now: int, ghost evicted: set<Eviction>, ghost clock: int)
    requires Invariant(m, evicted, clock) && clock <= now && Storable(info.fileType)
    modifies m
    ensures Invariant(m, evicted, now) && m.strays == old(m.strays)
    ensures Effect(old(Now(m)), m.strays, Touch(info, now), Now(m))
  {
    hide Consistent, NamesOk, Storable, ToPath, StaticRange, Bounds, EvictedLru, Subdisk;
    var p := ToPath(info);
    LaterKeeps(m.disk, m.disk, m.strays, evicted, OldestOf(m.cacheState), clock, now);
    if p in m.disk {
      var file := m.disk[p].(mtime := now);
      PutKeeps(m.disk, m.strays, evicted, OldestOf(m.cacheState), clock, p, file, StaticRange(info));
    }
    OldestOfAt(m.cacheState, StaticRange(info));
    m.MarkRecentlyAccessed(info, now);
  }

  method Remove(m: CacheManager, info: CacheFileInfo, now: int, ghost evicted: set<Eviction>, ghost clock: int)
    requires Invariant(m, evicted, clock) && clock <= now && Storable(info.fileType)
    modifies m
    ensures Invariant(m, evicted, now) && m.strays == old(m.strays)
    ensures Effect(old(Now(m)), m.strays, Drop(info, now), Now(m))
  {
    hide Consistent, NamesOk, Storable, ToPath, StaticRange, Bounds, EvictedLru, NotAfter, OldestOf;
    LaterKeeps(m.disk, m.disk - {ToPath(info)}, m.strays, evicted, OldestOf(m.cacheState), clock, now);
    var _ := m.RemoveCache(info);
  }

  method Round(m: CacheManager, need: nat, utcNow: int, now: int, ghost evicted: set<Eviction>, ghost clock: int)
    returns (ghost more: set<Eviction>)
    requires Invariant(m, evicted, clock) && clock <= now && need > 0
    modifies m
    ensures Invariant(m, more, now) && m.strays == old(m.strays)
    ensures Effect(old(Now(m)), m.strays, Clean(need, utcNow, now), Now(m))
    ensures more == evicted + Evicted(old(m.disk), m.disk, RoundSlack(old(OldestOf(m.cacheState)), utcNow))
  {
    hide Consistent, NamesOk, Bounds, NearlyLru, OldestOf, LeftAfter, LastNeeded, Evicted, EvictedLru, Subdisk;
    hide RoundEffect, RoundLaw, RoundSlack, OldestFirst;
    LaterKeeps(m.disk, m.disk, m.strays, evicted, OldestOf(m.cacheState), clock, now);
    OldestOfAt(m.cacheState, "");
    ghost var before, slack := m.disk, RoundSlack(OldestOf(m.cacheState), utcNow);
    var left, stop, last := m.CleanOnce(need, utcNow, now, 0);
    EvictedGrows(before, m.disk, evicted, now, slack);
    more := evicted + Evicted(before, m.disk, slack);
  }

  // ------------------------------------------------------------------ histories

  /** `states` are the states before, between and after the operations. */
  ghost predicate History(states: seq<Snapshot>, strays: map<Path, int>, ops: seq<Op>) {
    |states| == |ops| + 1 && forall i :: 0 <= i < |ops| ==> Effect(states[i], strays, ops[i], states[i + 1])
  }

  ghost function Slack(states: seq<Snapshot>, ops: seq<Op>, i: nat): int
    requires i < |ops| && i < |states| && ops[i].Clean?
  {
    RoundSlack(states[i].oldest, ops[i].utcNow)
  }

  /** No file present at point `j` is older than a file round `i` deleted by more than that round's offset. */
  ghost predicate LruAt(states: seq<Snapshot>, ops: seq<Op>, i: nat, j: nat)
    requires |states| == |ops| + 1 && i < j < |states| && ops[i].Clean?
  {
    forall d, f :: d in states[i].disk && d !in states[i + 1].disk && f in states[j].disk ==>
      states[i].disk[d].mtime <= states[j].disk[f].mtime + Slack(states, ops, i)
  }

  ghost predicate LruThroughout(states: seq<Snapshot>, ops: seq<Op>)
    requires |states| == |ops| + 1
  {
    forall i, j :: 0 <= i < j < |states| && ops[i].Clean? ==> LruAt(states, ops, i, j)
  }

  /** The evictions of the history are all recorded. */
  ghost predicate Recorded(states: seq<Snapshot>, ops: seq<Op>, evicted: set<Eviction>)
    requires |states| == |ops| + 1
  {
    forall i :: 0 <= i < |ops| && ops[i].Clean? ==>
      Evicted(states[i].disk, states[i + 1].disk, Slack(states, ops, i)) <= evicted
  }

  lemma HistoryGrows(states: seq<Snapshot>, strays: map<Path, int>, ops: seq<Op>, evicted: set<Eviction>, op: Op,
                     next: Snapshot, evicted': set<Eviction>, clock: int)
    requires History(states, strays, ops) && LruThroughout(states, ops) && Recorded(states, ops, evicted)
    requires Effect(states[|ops|], strays, op, next) && EvictedLru(next.disk, evicted', clock)
    requires evicted <= evicted'
    requires op.Clean? ==>
               Evicted(states[|ops|].disk, next.disk, RoundSlack(states[|ops|].oldest, op.utcNow)) <= evicted'
    ensures History(states + [next], strays, ops + [op])
    ensures Recorded(states + [next], ops + [op], evicted')
    ensures LruThroughout(states + [next], ops + [op])
  {
    hide Effect, RoundSlack;
    var states', ops' := states + [next], ops + [op];
    forall i, j | 0 <= i < j < |states'| && ops'[i].Clean?
      ensures LruAt(states', ops', i, j)
    {
      if j < |states| {
        assert LruAt(states, ops, i, j);
      } else {
        var before, after, slack := states'[i].disk, states'[i + 1].disk, Slack(states', ops', i);
        assert Evicted(before, after, slack) <= evicted';
        forall d, f | d in before && d !in after && f in next.disk
          ensures before[d].mtime <= next.disk[f].mtime + slack
        {
          assert Eviction(before[d].mtime, slack) in Evicted(before, after, slack);
        }
      }
    }
  }

  lemma HistoryStarts(state: Snapshot, strays: map<Path, int>)
    ensures History([state], strays, []) && LruThroughout([state], []) && Recorded([state], [], {})
  {
  }

  /**
    Every run keeps the index right and `oldest` a lower bound, and no file present at any later point of it is
    older than a file some earlier round deleted by more than the offset of that round.
   */
  method Run(m: CacheManager, ops: seq<Op>, clock: int) returns (ghost states: seq<Snapshot>)
    requires Invariant(m, {}, clock) && WellTimed(ops, clock)
    modifies m
    ensures m.Valid() && m.Bounded() && m.strays == old(m.strays)
    ensures History(states, m.strays, ops) && states[0] == old(Now(m)) && states[|ops|] == Now(m)
    ensures LruThroughout(states, ops)
  {
    hide Consistent, NamesOk, Storable, Bounds, NotAfter, EvictedLru, Evicted, History, LruThroughout, Recorded, ToPath;
    hide Effect, RoundSlack, OldestOf;
    ghost var evicted := {};
    states := [Now(m)];
    HistoryStarts(Now(m), m.strays);
    var rest, at := ops, clock;
    ghost var done: seq<Op> := [];
    while rest != []
      invariant WellTimed(rest, at) && Invariant(m, evicted, at) && m.strays == old(m.strays)
      invariant done + rest == ops && |states| == |done| + 1
      invariant states[0] == old(Now(m)) && states[|done|] == Now(m)
      invariant History(states, m.strays, done) && LruThroughout(states, done) && Recorded(states, done, evicted)
      decreases |rest|
    {
      ghost var before := evicted;
      match rest[0] {
        case Put(info, content, usage, now) =>
          Import(m, info, content, usage, now, evicted, at);
        case Touch(info, now) =>
          Access(m, info, now, evicted, at);
        case Drop(info, now) =>
          Remove(m, info, now, evicted, at);
        case Clean(need, utcNow, now) =>
          evicted := Round(m, need, utcNow, now, evicted, at);
      }
      HistoryGrows(states, m.strays, done, before, rest[0], Now(m), evicted, rest[0].now);
      states, done := states + [Now(m)], done + [rest[0]];
      rest, at := rest[1..], rest[0].now;
    }
    assert done == ops;
  }
}
