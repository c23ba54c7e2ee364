/**
  The per-address connection limiter. A table of leaky counters and a block list,
  both swept lazily, is shown to answer exactly like one never-swept leaky bucket
  per address. The rate law, the spacing law and the block law are then proved of
  that bucket, so they hold of the table.
 */
module FloodControl {
  import opened Common

  datatype IpAddr = V4(bits: nat) | V6(bits: nat)

  const WINDOW: nat := 10 * SECOND
  const BLOCK: nat := 60 * SECOND
  const LIMIT: nat := 10

  /** `Duration::as_secs`: whole seconds, rounded down. */
  function Secs(d: nat): nat {
    d / SECOND
  }

  /** `now - earlier` on instants, which saturates at zero. */
  function Since(now: nat, earlier: nat): nat {
    if earlier <= now then now - earlier else 0
  }

  // ---------------------------------------------------------------- reference

  /** What one address is owed: a counter that leaks one per whole second. */
  datatype Bucket = Fresh | Bucket(hits: nat, time: nat, until: nat)

  predicate Blocked(b: Bucket, now: nat) {
    b.Bucket? && now < b.until
  }

  function Level(b: Bucket, now: nat): nat {
    if b.Fresh? || b.hits <= Secs(Since(now, b.time)) then 0 else b.hits - Secs(Since(now, b.time))
  }

  predicate Refuses(b: Bucket, now: nat) {
    Blocked(b, now) || LIMIT <= Level(b, now) + 1
  }

  function After(b: Bucket, now: nat): Bucket {
    if Blocked(b, now) then b
    else Bucket(Level(b, now) + 1, now,
                if LIMIT <= Level(b, now) + 1 then now + BLOCK else if b.Fresh? then 0 else b.until)
  }

  /** Answers of one bucket to hits at the given instants (`true` is a refusal). */
  function Refusals(b: Bucket, times: seq<nat>): (answers: seq<bool>)
    ensures |answers| == |times|
    decreases |times|
  {
    if times == [] then []
    else [Refuses(b, times[0])] + Refusals(After(b, times[0]), times[1..])
  }

  /** The bucket after all of `times`. */
  function Replayed(b: Bucket, times: seq<nat>): Bucket
    decreases |times|
  {
    if times == [] then b else Replayed(After(b, times[0]), times[1..])
  }

  /** One bucket for every address that was ever seen; nothing is swept. */
  type Ledger = map<IpAddr, Bucket>

  function Of(ledger: Ledger, ip: IpAddr): Bucket {
    if ip in ledger then ledger[ip] else Fresh
  }

  // ------------------------------------------------------------------- calls

  /**
    One call of `hit`: the address, the first clock reading `now`, and the later readings
    made by `elapsed()`: `cleanAt` for the sweep test, `entryAt(a)` for the entry of address `a`.
   */
  datatype Call = Call(ip: IpAddr, now: nat, cleanAt: nat, entryAt: IpAddr -> nat)

  /** The clock does not go back, and the readings of one call are taken within one second. */
  ghost predicate WellTimed(c: Call, latest: nat) {
    && latest <= c.now <= c.cleanAt
    && forall ip :: c.now <= c.entryAt(ip) <= c.now + SECOND
  }

  ghost predicate WellTimedRun(calls: seq<Call>, latest: nat) {
    calls != [] ==> WellTimed(calls[0], latest) && WellTimedRun(calls[1..], calls[0].now)
  }

  /** Answers of the never-swept ledger to a whole interleaved run. */
  function Answers(ledger: Ledger, calls: seq<Call>): (answers: seq<bool>)
    ensures |answers| == |calls|
    decreases |calls|
  {
    if calls == [] then []
    else
      var b := Of(ledger, calls[0].ip);
      [Refuses(b, calls[0].now)] + Answers(ledger[calls[0].ip := After(b, calls[0].now)], calls[1..])
  }

  // -------------------------------------------------------------- the table

  newtype U8 = x: int | 0 <= x < 256

  datatype Entry = Entry(hits: U8, time: nat)

  function Get<V>(m: map<IpAddr, V>, ip: IpAddr): Option<V> {
    if ip in m then Some(m[ip]) else None
  }

  /**
    What the table remembers about an address is enough to answer like bucket `b` at
    any instant from `at` on. The counter is at most ten, and it is ten only while the
    address is blocked or sixty seconds after its last counted hit.
   */
  ghost predicate Mirrors(e: Option<Entry>, blocked: Option<nat>, b: Bucket, at: nat) {
    match b
    case Fresh => e.None? && blocked.None?
    case Bucket(hits, time, until) =>
      && time <= at
      && 1 <= hits <= LIMIT
      && (hits == LIMIT ==> until == time + BLOCK)
      && (hits < LIMIT ==> until <= time)
      && (at < until ==> blocked == Some(until))
      && (until <= at ==> blocked.None? || blocked.value <= at)
      && (e.Some? ==> e.value.hits as nat == hits && e.value.time == time)
      && (e.None? ==> hits == LIMIT || hits <= Secs(at - time))
  }

  ghost predicate MirrorsAll(hitMap: map<IpAddr, Entry>, blockList: map<IpAddr, nat>, ledger: Ledger, at: nat) {
    forall ip :: Mirrors(Get(hitMap, ip), Get(blockList, ip), Of(ledger, ip), at)
  }

  /**
    Forgetting a ten-second-old entry is invisible exactly when the clock re-read by
    `elapsed()` lags the call's own reading by at most one second.
   */
  lemma SweepLagIsExact(lag: nat)
    ensures lag <= SECOND <==>
            forall hits: nat, age: nat :: hits < 10 && 10 * SECOND <= age + lag ==> Level(Bucket(hits, 0, 0), age) == 0
  {
    if SECOND < lag {
      var age := if lag <= WINDOW then WINDOW - lag else 0;
      assert WINDOW <= age + lag;
      assert Secs(age) < 9;
      assert Level(Bucket(9, 0, 0), age) != 0;
    } else {
      forall hits: nat, age: nat | hits < LIMIT && WINDOW <= age + lag
        ensures Level(Bucket(hits, 0, 0), age) == 0
      {
        assert 9 * SECOND <= age;
      }
    }
  }

  lemma MirrorsBlocked(e: Option<Entry>, blocked: Option<nat>, b: Bucket, now: nat)
    requires Mirrors(e, blocked, b, now) && blocked.Some? && now < blocked.value
    ensures Blocked(b, now) && After(b, now) == b
  {
  }

  /** Counting a hit on the table's entry is counting it on the bucket, within a `u8`. */
  lemma MirrorsCount(e: Option<Entry>, blocked: Option<nat>, b: Bucket, now: nat)
    requires Mirrors(e, blocked, b, now)
    requires !(blocked.Some? && now < blocked.value)
    ensures !Blocked(b, now) && (b.Bucket? ==> b.until <= now)
    ensures e.None? ==> Level(b, now) == 0
    ensures e.Some? ==>
              Level(b, now) == var diff := Min(10, Secs(Since(now, e.value.time)));
                               if e.value.hits as nat <= diff then 0 else e.value.hits as nat - diff
    ensures Level(b, now) < LIMIT
  {
  }

  lemma MirrorsAllAges(hitMap: map<IpAddr, Entry>, blockList: map<IpAddr, nat>, ledger: Ledger, at: nat, later: nat)
    requires MirrorsAll(hitMap, blockList, ledger, at) && at <= later
    ensures MirrorsAll(hitMap, blockList, ledger, later)
  {
  }

  lemma MirrorsAllSweep(hitMap: map<IpAddr, Entry>, blockList: map<IpAddr, nat>, ledger: Ledger, c: Call,
                        swept: map<IpAddr, Entry>, blocks: map<IpAddr, nat>)
    requires MirrorsAll(hitMap, blockList, ledger, c.now)
    requires forall ip :: c.now <= c.entryAt(ip) <= c.now + SECOND
    requires swept == map ip | ip in hitMap && Since(c.entryAt(ip), hitMap[ip].time) < WINDOW :: hitMap[ip]
    requires blocks == map ip | ip in blockList && c.now < blockList[ip] :: blockList[ip]
    ensures MirrorsAll(swept, blocks, ledger, c.now)
  {
  }

  lemma MirrorsAllUpdated(hitMap: map<IpAddr, Entry>, blockList: map<IpAddr, nat>, ledger: Ledger, at: nat,
                          ip: IpAddr, e: Entry, blocked: Option<nat>, b: Bucket)
    requires MirrorsAll(hitMap, blockList, ledger, at)
    requires blocked.None? ==> ip !in blockList
    requires Mirrors(Some(e), blocked, b, at)
    ensures MirrorsAll(hitMap[ip := e], if blocked.Some? then blockList[ip := blocked.value] else blockList,
                       ledger[ip := b], at)
  {
    hide Mirrors;
    var hits, blocks := hitMap[ip := e], if blocked.Some? then blockList[ip := blocked.value] else blockList;
    forall a
      ensures Mirrors(Get(hits, a), Get(blocks, a), Of(ledger[ip := b], a), at)
    {
      if a != ip {
        assert Get(hits, a) == Get(hitMap, a) && Get(blocks, a) == Get(blockList, a);
        assert Mirrors(Get(hitMap, a), Get(blockList, a), Of(ledger, a), at);
      }
    }
  }

  lemma MirrorsCounted(b: Bucket, blocked: Option<nat>, now: nat)
    requires !Blocked(b, now) && Level(b, now) < LIMIT
    requires blocked.None? || blocked.value <= now
    requires b.Bucket? ==> b.until <= now
    ensures var level := Level(b, now) + 1;
            Mirrors(Some(Entry(level as U8, now)), if LIMIT <= level then Some(now + BLOCK) else blocked,
                    After(b, now), now)
  {
  }

  class FloodControl {
    var lastClean: nat
    var hitMap: map<IpAddr, Entry>
    var blockList: map<IpAddr, nat>

    /** The never-swept ledger this table stands for, and the latest clock reading. */
    ghost var ledger: Ledger
    ghost var latest: nat

    ghost predicate Valid()
      reads this
    {
      MirrorsAll(hitMap, blockList, ledger, latest)
    }

    /** No counter passes ten; a counter at ten is blocked, or its last hit is sixty seconds old. */
    ghost predicate CounterBounded()
      reads this
    {
      forall ip :: ip in hitMap ==>
        && hitMap[ip].hits <= 10
        && (hitMap[ip].hits == 10 ==>
              (ip in blockList && latest < blockList[ip]) || hitMap[ip].time + 60 * SECOND <= latest)
    }

    constructor (now: nat)
      ensures Valid() && ledger == map[] && latest == now
    {
      lastClean := now;
      hitMap := map[];
      blockList := map[];
      ledger := map[];
      latest := now;
    }

    lemma ValidBoundsCounter()
      requires Valid()
      ensures CounterBounded()
    {
      forall ip | ip in hitMap
        ensures hitMap[ip].hits <= 10
        ensures hitMap[ip].hits == 10 ==>
                  (ip in blockList && latest < blockList[ip]) || hitMap[ip].time + BLOCK <= latest
      {
        assert Mirrors(Get(hitMap, ip), Get(blockList, ip), Of(ledger, ip), latest);
      }
    }

    /** Drops expired blocks and old entries once every ten seconds; the ledger is untouched. */
    method Sweep(c: Call)
      requires Valid() && WellTimed(c, latest)
      modifies this
      ensures Valid() && ledger == old(ledger) && latest == c.now
    {
      hide MirrorsAll;
      MirrorsAllAges(hitMap, blockList, ledger, latest, c.now);
      latest := c.now;
      if Since(c.cleanAt, lastClean) > WINDOW {
        ghost var hits, blocks := hitMap, blockList;
        blockList := map ip | ip in blockList && c.now < blockList[ip] :: blockList[ip];
        hitMap := map ip | ip in hitMap && Since(c.entryAt(ip), hitMap[ip].time) < WINDOW :: hitMap[ip];
        lastClean := c.now;
        MirrorsAllSweep(hits, blocks, ledger, c, hitMap, blockList);
      }
    }

    /** One connection attempt: answers and counts exactly like the never-swept ledger. */
    method Hit(c: Call) returns (refused: bool)
      requires Valid() && WellTimed(c, latest)
      modifies this
      ensures Valid() && CounterBounded() && latest == c.now
      ensures refused == Refuses(Of(old(ledger), c.ip), c.now)
      ensures ledger == old(ledger)[c.ip := After(Of(old(ledger), c.ip), c.now)]
    {
      hide Mirrors, Level, After, Blocked;
      Sweep(c);
      var ip, now := c.ip, c.now;
      ghost var b := Of(ledger, ip);
      assert Mirrors(Get(hitMap, ip), Get(blockList, ip), b, now);

      if ip in blockList && now < blockList[ip] {
        MirrorsBlocked(Get(hitMap, ip), Get(blockList, ip), b, now);
        ledger := ledger[ip := b];
        ValidBoundsCounter();
        return true;
      }

      MirrorsCount(Get(hitMap, ip), Get(blockList, ip), b, now);
      var entry := if ip in hitMap then hitMap[ip] else Entry(0, now);
      var diff := Min(10, Secs(Since(now, entry.time))) as U8;
      var hit := (if entry.hits <= diff then 0 else entry.hits - diff) + 1;
      MirrorsCounted(b, Get(blockList, ip), now);
      refused := hit as nat >= LIMIT;
      MirrorsAllUpdated(hitMap, blockList, ledger, now, ip, Entry(hit, now),
                        if refused then Some(now + BLOCK) else Get(blockList, ip), After(b, now));
      hitMap := hitMap[ip := Entry(hit, now)];
      ledger := ledger[ip := After(b, now)];
      if refused {
        blockList := blockList[ip := now + BLOCK];
      } else {
        assert ip in blockList ==> blockList[ip := blockList[ip]] == blockList;
      }
      ValidBoundsCounter();
    }
  }

  /**
    Over every well-timed run of hits from every address, the swept table answers like
    the ledger that never forgets anything.
   */
  method Serve(start: nat, calls: seq<Call>) returns (answers: seq<bool>)
    requires WellTimedRun(calls, start)
    ensures answers == Answers(map[], calls)
  {
    var control := new FloodControl(start);
    answers := [];
    var rest := calls;
    while rest != []
      invariant control.Valid() && fresh(control)
      invariant WellTimedRun(rest, control.latest)
      invariant answers + Answers(control.ledger, rest) == Answers(map[], calls)
      decreases |rest|
    {
      ghost var before := control.ledger;
      var refused := control.Hit(rest[0]);
      assert Answers(before, rest) == [refused] + Answers(control.ledger, rest[1..]);
      answers, rest := answers + [refused], rest[1..];
    }
  }

  // ------------------------------------------------- addresses do not interact

  /** The instants at which `ip` called. */
  function TimesOf(ip: IpAddr, calls: seq<Call>): seq<nat> {
    if calls == [] then []
    else (if calls[0].ip == ip then [calls[0].now] else []) + TimesOf(ip, calls[1..])
  }

  /** The answers given to `ip` in a run. */
  function AnswersTo(ip: IpAddr, calls: seq<Call>, answers: seq<bool>): (own: seq<bool>)
    requires |calls| == |answers|
    ensures |own| == |TimesOf(ip, calls)|
  {
    if calls == [] then []
    else (if calls[0].ip == ip then [answers[0]] else []) + AnswersTo(ip, calls[1..], answers[1..])
  }

  lemma {:induction false} AddressesAreIndependent(ledger: Ledger, calls: seq<Call>, ip: IpAddr)
    ensures AnswersTo(ip, calls, Answers(ledger, calls)) == Refusals(Of(ledger, ip), TimesOf(ip, calls))
    decreases |calls|
  {
    if calls != [] {
      var c := calls[0];
      var next := ledger[c.ip := After(Of(ledger, c.ip), c.now)];
      AddressesAreIndependent(next, calls[1..], ip);
      assert Answers(ledger, calls)[1..] == Answers(next, calls[1..]);
      if c.ip == ip {
        assert TimesOf(ip, calls)[1..] == TimesOf(ip, calls[1..]);
      } else {
        assert TimesOf(ip, calls) == TimesOf(ip, calls[1..]);
      }
    }
  }

  ghost predicate Sorted(times: seq<nat>) {
    forall i, j :: 0 <= i <= j < |times| ==> times[i] <= times[j]
  }

  lemma {:induction false} TimesOfSorted(ip: IpAddr, calls: seq<Call>, latest: nat)
    requires WellTimedRun(calls, latest)
    ensures Sorted([latest] + TimesOf(ip, calls))
  {
    if calls != [] {
      TimesOfSorted(ip, calls[1..], calls[0].now);
      var tail := TimesOf(ip, calls[1..]);
      forall i | 0 <= i < |tail|
        ensures calls[0].now <= tail[i]
      {
        assert ([calls[0].now] + tail)[0] <= ([calls[0].now] + tail)[i + 1];
      }
      forall i, j | 0 <= i <= j < |tail|
        ensures tail[i] <= tail[j]
      {
        assert ([calls[0].now] + tail)[i + 1] == tail[i] && ([calls[0].now] + tail)[j + 1] == tail[j];
      }
    }
  }

  // ------------------------------------------------------- laws of one bucket

  /** Reachable buckets: at most ten, and ten exactly when a sixty-second block was set. */
  ghost predicate Sound(b: Bucket) {
    b.Bucket? ==>
      && 1 <= b.hits <= LIMIT
      && (b.hits == LIMIT ==> b.until == b.time + BLOCK)
      && (b.hits < LIMIT ==> b.until <= b.time)
  }

  ghost predicate Due(b: Bucket, times: seq<nat>) {
    Sound(b) && Sorted(times) && (b.Bucket? && times != [] ==> b.time <= times[0])
  }

  lemma DueTail(b: Bucket, times: seq<nat>)
    requires Due(b, times) && times != []
    ensures Due(After(b, times[0]), times[1..])
  {
  }

  /** The answers from position `i` on are those of the bucket reached there. */
  lemma {:induction false} RefusalsFrom(b: Bucket, times: seq<nat>, i: nat)
    requires Due(b, times) && i <= |times|
    ensures Due(Replayed(b, times[..i]), times[i..])
    ensures Refusals(b, times)[i..] == Refusals(Replayed(b, times[..i]), times[i..])
    decreases i
  {
    if i == 0 {
      assert times[..0] == [] && times[0..] == times;
    } else {
      DueTail(b, times);
      RefusalsFrom(After(b, times[0]), times[1..], i - 1);
      assert times[..i][1..] == times[1..][..i - 1];
      assert times[1..][i - 1..] == times[i..];
    }
  }

  /** How many of the answers accept the hit. */
  function Accepted(answers: seq<bool>): nat {
    if answers == [] then 0 else (if answers[0] then 0 else 1) + Accepted(answers[1..])
  }

  lemma SecsAdd(a: nat, b: nat)
    ensures Secs(a) + Secs(b) <= Secs(a + b)
  {
  }

  lemma {:induction false} ReplayedSnoc(b: Bucket, times: seq<nat>, last: nat)
    ensures Replayed(b, times + [last]) == After(Replayed(b, times), last)
    decreases |times|
  {
    if times == [] {
      assert times + [last] == [last];
      assert Replayed(b, [last]) == Replayed(After(b, last), [last][1..]);
    } else {
      ReplayedSnoc(After(b, times[0]), times[1..], last);
      assert (times + [last])[1..] == times[1..] + [last];
    }
  }

  lemma {:induction false} RefusalsPrefix(b: Bucket, times: seq<nat>, i: nat)
    requires Due(b, times) && i <= |times|
    ensures Due(b, times[..i])
    ensures Refusals(b, times[..i]) == Refusals(b, times)[..i]
    decreases i
  {
    if i > 0 {
      DueTail(b, times);
      RefusalsPrefix(After(b, times[0]), times[1..], i - 1);
      assert times[..i][1..] == times[1..][..i - 1];
    }
  }

  function Room(b: Bucket, until: nat): int
    requires b.Bucket? && b.time <= until
  {
    LIMIT - 1 - b.hits + Secs(until - b.time)
  }

  /** One hit never makes more room than there was: an accepted one uses one place, a refused one none. */
  lemma RoomShrinks(b: Bucket, now: nat, until: nat)
    requires Sound(b) && b.Bucket? && b.time <= now <= until
    ensures var end := After(b, now);
            if Refuses(b, now) then Room(end, until) <= Room(b, until) || Room(end, until) <= 0
            else 0 <= Room(end, until) && 1 + Room(end, until) <= Room(b, until)
  {
    SecsAdd(until - now, now - b.time);
  }

  /** From any bucket, blocked or not, at most `Room` later hits are accepted, however many are refused. */
  lemma {:induction false} AcceptedFitsRoom(b: Bucket, times: seq<nat>, until: nat)
    requires Due(b, times) && b.Bucket? && b.time <= until
    requires forall k :: 0 <= k < |times| ==> times[k] <= until
    ensures Accepted(Refusals(b, times)) <= if Room(b, until) < 0 then 0 else Room(b, until)
    decreases |times|
  {
    if times != [] {
      DueTail(b, times);
      RoomShrinks(b, times[0], until);
      AcceptedFitsRoom(After(b, times[0]), times[1..], until);
    }
  }

  /** The count over a window is bounded from its first accepted hit on. */
  lemma {:induction false} AcceptedInWindow(b: Bucket, times: seq<nat>)
    requires Due(b, times) && times != []
    ensures Accepted(Refusals(b, times)) <= 9 + Secs(times[|times| - 1] - times[0])
    decreases |times|
  {
    var until := times[|times| - 1];
    DueTail(b, times);
    if Refuses(b, times[0]) {
      if |times| > 1 {
        AcceptedInWindow(After(b, times[0]), times[1..]);
        SecsAdd(until - times[1], times[1] - times[0]);
      }
    } else {
      AcceptedFitsRoom(After(b, times[0]), times[1..], until);
    }
  }

  /**
    Rate law: of the hits `i..j` of one address, blocks and refusals among them included, at most nine plus
    the whole seconds between the first and the last are accepted.
   */
  lemma RateBound(times: seq<nat>, i: nat, j: nat)
    requires Sorted(times) && i < j <= |times|
    ensures Accepted(Refusals(Fresh, times)[i..j]) <= 9 + (times[j - 1] - times[i]) / SECOND
  {
    RefusalsPrefix(Fresh, times, j);
    RefusalsFrom(Fresh, times[..j], i);
    assert Refusals(Fresh, times)[i..j] == Refusals(Fresh, times)[..j][i..];
    AcceptedInWindow(Replayed(Fresh, times[..j][..i]), times[..j][i..]);
  }

  /** The bound is reached: nine hits at one instant are accepted, the tenth is refused. */
  lemma NineAtOnce(t: nat)
    ensures Refusals(Fresh, seq(10, _ => t)) == seq(10, i => i == 9)
  {
    var b := Fresh;
    var n := 0;
    var all := seq(10, _ => t);
    while n < 9
      invariant 0 <= n <= 9
      invariant n == 0 ==> b == Fresh
      invariant n > 0 ==> b == Bucket(n, t, 0)
      invariant Refusals(Fresh, all)[..n] == seq(n, _ => false)
      invariant Refusals(Fresh, all)[n..] == Refusals(b, all[n..])
    {
      assert !Refuses(b, all[n]);
      assert all[n..][1..] == all[n + 1..];
      assert Refusals(Fresh, all)[n] == Refusals(Fresh, all)[n..][0];
      assert Refusals(Fresh, all)[n + 1..] == Refusals(Fresh, all)[n..][1..];
      b := After(b, all[n]);
      n := n + 1;
    }
    assert Refuses(b, all[9]);
    assert Refusals(Fresh, all)[9] == Refusals(Fresh, all)[9..][0];
  }

  /** Spacing law: an address whose hits are at least one second apart is never refused. */
  lemma {:induction false} SpacedNeverRefused(b: Bucket, times: seq<nat>)
    requires b.Fresh? || (b.hits == 1 && b.until <= b.time && (times != [] ==> b.time + SECOND <= times[0]))
    requires forall i :: 0 < i < |times| ==> times[i - 1] + SECOND <= times[i]
    ensures Refusals(b, times) == seq(|times|, _ => false)
    decreases |times|
  {
    if times != [] {
      assert Level(b, times[0]) == 0;
      forall i | 0 < i < |times[1..]|
        ensures times[1..][i - 1] + SECOND <= times[1..][i]
      {
        assert times[i] + SECOND <= times[i + 1];
      }
      SpacedNeverRefused(After(b, times[0]), times[1..]);
    }
  }

  /** Inside a block every hit is refused; the first hit after it is accepted. */
  lemma {:induction false} BlockedRun(b: Bucket, times: seq<nat>, k: nat)
    requires Due(b, times) && k < |times|
    requires b.Bucket? && b.hits == LIMIT
    requires forall i :: 0 <= i < k ==> times[i] < b.until
    ensures Refusals(b, times)[k] <==> times[k] < b.until
  {
    if k == 0 {
      if b.until <= times[0] {
        assert 60 * SECOND <= times[0] - b.time;
      }
    } else {
      assert times[0] < b.until;
      DueTail(b, times);
      BlockedRun(b, times[1..], k - 1);
    }
  }

  lemma RefusalsHead(b: Bucket, times: seq<nat>)
    requires times != []
    ensures Refusals(b, times)[0] == Refuses(b, times[0])
  {
  }

  /** The answer at position `i`, and the bucket before and after it. */
  lemma AnswerAt(times: seq<nat>, i: nat)
    requires Sorted(times) && i < |times|
    ensures Refusals(Fresh, times)[i] == Refuses(Replayed(Fresh, times[..i]), times[i])
    ensures Replayed(Fresh, times[..i + 1]) == After(Replayed(Fresh, times[..i]), times[i])
    ensures Due(Replayed(Fresh, times[..i]), times[i..])
  {
    hide Refusals, Replayed, After, Refuses;
    RefusalsFrom(Fresh, times, i);
    RefusalsHead(Replayed(Fresh, times[..i]), times[i..]);
    assert Refusals(Fresh, times)[i] == Refusals(Fresh, times)[i..][0];
    assert times[..i] + [times[i]] == times[..i + 1];
    ReplayedSnoc(Fresh, times[..i], times[i]);
  }

  /** A refusal right after an accepted hit sets a block of sixty seconds. */
  lemma BlockStarts(b: Bucket, accepted: nat, refused: nat)
    requires Sound(b) && (b.Bucket? ==> b.time <= accepted) && accepted <= refused
    requires !Refuses(b, accepted) && Refuses(After(b, accepted), refused)
    ensures var end := After(After(b, accepted), refused);
            end.Bucket? && end.hits == LIMIT && end.until == refused + BLOCK
  {
  }

  /** A refusal never comes first: some accepted hit precedes every run of refusals. */
  lemma FirstHitAccepted(times: seq<nat>)
    requires times != []
    ensures !Refusals(Fresh, times)[0]
  {
  }

  /** The bucket in the block that position `i` sets. */
  lemma BlockAt(times: seq<nat>, i: nat) returns (b: Bucket)
    requires Sorted(times) && i < |times| && Refusals(Fresh, times)[i]
    requires i > 0 ==> !Refusals(Fresh, times)[i - 1]
    ensures b == Replayed(Fresh, times[..i + 1])
    ensures b.Bucket? && b.hits == LIMIT && b.until == times[i] + BLOCK
  {
    hide Refusals, Replayed, After, Refuses, Sound;
    FirstHitAccepted(times);
    AnswerAt(times, i - 1);
    AnswerAt(times, i);
    assert times[i - 1..][0] == times[i - 1];
    BlockStarts(Replayed(Fresh, times[..i - 1]), times[i - 1], times[i]);
    b := Replayed(Fresh, times[..i + 1]);
  }

  /**
    Block law: when position `i` starts a run of refusals (the very first hit never does), every
    later hit less than sixty seconds after it is refused, and the first one that is not
    less than sixty seconds after it is accepted.
   */
  lemma BlockLastsSixtySeconds(times: seq<nat>, i: nat, k: nat)
    requires Sorted(times) && i < k < |times| && Refusals(Fresh, times)[i]
    requires i > 0 ==> !Refusals(Fresh, times)[i - 1]
    requires forall n :: i < n < k ==> times[n] < times[i] + 60 * SECOND
    ensures Refusals(Fresh, times)[k] <==> times[k] < times[i] + 60 * SECOND
  {
    hide Refusals, Replayed, After, Due, Sorted;
    var b := BlockAt(times, i);
    RefusalsFrom(Fresh, times, i + 1);
    var later := times[i + 1..];
    forall n | 0 <= n < k - i - 1
      ensures later[n] < b.until
    {
      assert later[n] == times[i + 1 + n];
    }
    BlockedRun(b, later, k - i - 1);
    assert Refusals(Fresh, times)[i + 1..][k - i - 1] == Refusals(Fresh, times)[k];
  }

  /** What the table tells one address, whatever the others do, is what its own bucket says. */
  lemma TableFollowsBucket(start: nat, calls: seq<Call>, ip: IpAddr)
    requires WellTimedRun(calls, start)
    ensures Sorted(TimesOf(ip, calls))
    ensures AnswersTo(ip, calls, Answers(map[], calls)) == Refusals(Fresh, TimesOf(ip, calls))
  {
    AddressesAreIndependent(map[], calls, ip);
    TimesOfSorted(ip, calls, start);
    var times := TimesOf(ip, calls);
    assert forall k :: 0 <= k < |times| ==> times[k] == ([start] + times)[k + 1];
  }

  /** The rate law, stated of the answers one address gets in an interleaved run. */
  lemma TableRateBound(start: nat, calls: seq<Call>, ip: IpAddr, i: nat, j: nat)
    requires WellTimedRun(calls, start)
    requires i < j <= |TimesOf(ip, calls)|
    ensures |AnswersTo(ip, calls, Answers(map[], calls))| == |TimesOf(ip, calls)|
    ensures Accepted(AnswersTo(ip, calls, Answers(map[], calls))[i..j]) <=
            9 + Secs(Since(TimesOf(ip, calls)[j - 1], TimesOf(ip, calls)[i]))
  {
    TableFollowsBucket(start, calls, ip);
    RateBound(TimesOf(ip, calls), i, j);
  }
}
