/**
  The shared map of running downloads. An entry is inserted together with a scope guard that
  removes it by hash when the owner ends in any way; entries never outlive their guards.
 */
module DownloadRegistry {
  import opened Common
  import opened FileId
  import opened CacheIndex
  import opened CacheScan
  import opened D = Download
  import Ending = DownloadEnding

  type Id = nat

  /** The map from hashes to downloads, all downloads ever begun, and the guards still alive. */
  datatype Registry = Registry(entries: map<Hash, Id>, downloads: map<Id, Download>, guards: set<Id>)

  datatype Event =
    | Begins(id: Id, hash: Hash, fileSize: nat)    // no entry found: insert one and arm the guard
    | Proceeds(id: Id, step: Step)                 // the download, its file or a reader takes a step
    | GuardDrops(id: Id)                           // the owner or worker has ended
    | WaiterFails(hash: Hash)                      // a request gives up waiting for the temp file

  const EMPTY := Registry(map[], map[], {})

  /** Steps only the task that holds the guard can take. */
  predicate OwnStep(s: Step) {
    !ReaderStep(s) && !s.Lands?
  }

  predicate CanHappen(r: Registry, e: Event, sha1: Sha1) {
    match e
    case Begins(id, hash, _) => hash !in r.entries && id !in r.downloads
    case Proceeds(id, step) =>
      id in r.downloads && Enabled(r.downloads[id], step, sha1) && (OwnStep(step) ==> id in r.guards)
    case GuardDrops(id) =>
      id in r.guards && id in r.downloads
      && (r.downloads[id].phase.Stopped? || r.downloads[id].phase.Imported? || r.downloads[id].phase.Panicked?)
    case WaiterFails(_) => true
  }

  /** Entries are removed by hash, whoever owns them by then. */
  function Handle(r: Registry, e: Event, sha1: Sha1): Registry
    requires CanHappen(r, e, sha1)
  {
    match e
    case Begins(id, hash, fileSize) =>
      Registry(r.entries[hash := id], r.downloads[id := Fresh(hash, fileSize)], r.guards + {id})
    case Proceeds(id, step) =>
      var d := r.downloads[id];
      Registry(if step.RemovesEntry? then r.entries - {d.hash} else r.entries,
               r.downloads[id := Do(d, step, sha1)], r.guards)
    case GuardDrops(id) =>
      Registry(r.entries - {r.downloads[id].hash}, r.downloads, r.guards - {id})
    case WaiterFails(hash) =>
      r.(entries := r.entries - {hash})
  }

  /** Every entry belongs to a download of its hash whose guard is alive and which has not removed it. */
  ghost predicate NoLeak(r: Registry) {
    && (forall hash :: hash in r.entries ==>
          && r.entries[hash] in r.guards && r.entries[hash] in r.downloads
          && r.downloads[r.entries[hash]].hash == hash && !r.downloads[r.entries[hash]].removed)
    && r.guards <= r.downloads.Keys
  }

  ghost predicate AllOk(r: Registry, sha1: Sha1) {
    forall id :: id in r.downloads ==> Ok(r.downloads[id], sha1)
  }

  lemma EventKeepsNoLeak(r: Registry, e: Event, sha1: Sha1)
    requires NoLeak(r) && CanHappen(r, e, sha1)
    ensures NoLeak(Handle(r, e, sha1))
  {
    if e.Proceeds? {
      StepKeepsIdentity(r.downloads[e.id], e.step, sha1);
    }
    hide Do, Enabled;
  }

  lemma StepKeepsIdentity(d: Download, s: Step, sha1: Sha1)
    requires Enabled(d, s, sha1)
    ensures Do(d, s, sha1).hash == d.hash
    ensures !s.RemovesEntry? ==> Do(d, s, sha1).removed == d.removed
  {
  }

  lemma EventKeepsAllOk(r: Registry, e: Event, sha1: Sha1)
    requires AllOk(r, sha1) && CanHappen(r, e, sha1)
    ensures AllOk(Handle(r, e, sha1), sha1)
  {
    hide Do, Enabled, Ok;
    match e {
      case Begins(id, hash, fileSize) => FreshOk(hash, fileSize, sha1);
      case Proceeds(id, step) => StepKeepsOk(r.downloads[id], step, sha1);
      case _ =>
    }
  }

  ghost predicate Happens(r: Registry, events: seq<Event>, sha1: Sha1)
    decreases |events|
  {
    events != [] ==> CanHappen(r, events[0], sha1) && Happens(Handle(r, events[0], sha1), events[1..], sha1)
  }

  ghost function After(r: Registry, events: seq<Event>, sha1: Sha1): Registry
    requires Happens(r, events, sha1)
    decreases |events|
  {
    if events == [] then r else After(Handle(r, events[0], sha1), events[1..], sha1)
  }

  /**
    In every interleaving of any number of requests and downloads, with cancellation and failure
    at any point, each entry has an owner whose guard is alive, and every download keeps its own
    invariant.
   */
  lemma {:induction false} EntriesNeverLeak(r: Registry, events: seq<Event>, sha1: Sha1)
    requires NoLeak(r) && AllOk(r, sha1) && Happens(r, events, sha1)
    ensures NoLeak(After(r, events, sha1)) && AllOk(After(r, events, sha1), sha1)
    decreases |events|
  {
    hide NoLeak, AllOk, CanHappen, Handle;
    if events != [] {
      EventKeepsNoLeak(r, events[0], sha1);
      EventKeepsAllOk(r, events[0], sha1);
      EntriesNeverLeak(Handle(r, events[0], sha1), events[1..], sha1);
    }
  }

  // ------------------------------------------------------------- while an entry is there

  /** The events that take the entry of `hash` out of the map. */
  predicate Releases(r: Registry, e: Event, hash: Hash) {
    match e
    case Begins(_, _, _) => false
    case Proceeds(id, step) => step.RemovesEntry? && id in r.downloads && r.downloads[id].hash == hash
    case GuardDrops(id) => id in r.downloads && r.downloads[id].hash == hash
    case WaiterFails(h) => h == hash
  }

  /** An entry is put in by the request that finds none, and stays, with its owner, until an event releases it. */
  lemma EntryAfter(r: Registry, e: Event, sha1: Sha1, hash: Hash)
    requires CanHappen(r, e, sha1)
    ensures var r' := Handle(r, e, sha1);
            && (hash in r'.entries <==> (e.Begins? && e.hash == hash) || (hash in r.entries && !Releases(r, e, hash)))
            && (e.Begins? && e.hash == hash ==> hash !in r.entries && r'.entries[hash] == e.id)
            && (hash in r.entries && hash in r'.entries ==> r'.entries[hash] == r.entries[hash])
    ensures CanHappen(r, WaiterFails(hash), sha1)
    ensures forall id, fileSize :: CanHappen(r, Begins(id, hash, fileSize), sha1) <==>
                                   hash !in r.entries && id !in r.downloads
  {
    hide Do, Enabled;
  }

  ghost predicate NeverReleased(r: Registry, events: seq<Event>, sha1: Sha1, hash: Hash)
    requires Happens(r, events, sha1)
    decreases |events|
  {
    events != [] ==> !Releases(r, events[0], hash) && NeverReleased(Handle(r, events[0], sha1), events[1..], sha1, hash)
  }

  /** While nothing releases an entry it keeps its owner, and no second download of its hash begins. */
  lemma {:induction false} EntryHolds(r: Registry, events: seq<Event>, sha1: Sha1, hash: Hash)
    requires hash in r.entries && Happens(r, events, sha1) && NeverReleased(r, events, sha1, hash)
    ensures hash in After(r, events, sha1).entries && After(r, events, sha1).entries[hash] == r.entries[hash]
    ensures forall i :: 0 <= i < |events| ==> !(events[i].Begins? && events[i].hash == hash)
    decreases |events|
  {
    hide CanHappen, Handle, Releases;
    if events != [] {
      EntryAfter(r, events[0], sha1, hash);
      EntryHolds(Handle(r, events[0], sha1), events[1..], sha1, hash);
    }
  }

  /** Between two downloads of one hash something has released the entry of the first. */
  lemma SecondDownloadNeedsRelease(r: Registry, id: Id, hash: Hash, fileSize: nat, events: seq<Event>, sha1: Sha1,
                                   id2: Id, fileSize2: nat)
    requires CanHappen(r, Begins(id, hash, fileSize), sha1)
    requires Happens(Handle(r, Begins(id, hash, fileSize), sha1), events, sha1)
    requires var begun := Handle(r, Begins(id, hash, fileSize), sha1);
             CanHappen(After(begun, events, sha1), Begins(id2, hash, fileSize2), sha1)
    ensures !NeverReleased(Handle(r, Begins(id, hash, fileSize), sha1), events, sha1, hash)
  {
    var begun := Handle(r, Begins(id, hash, fileSize), sha1);
    EntryAfter(r, Begins(id, hash, fileSize), sha1, hash);
    if NeverReleased(begun, events, sha1, hash) {
      EntryHolds(begun, events, sha1, hash);
      assert false;
    }
  }

  // --------------------------------------------------- runs of one download in the map

  function Steps(id: Id, steps: seq<Step>): seq<Event> {
    if steps == [] then [] else [Proceeds(id, steps[0])] + Steps(id, steps[1..])
  }

  lemma FirstEvent(r: Registry, first: Event, rest: seq<Event>, sha1: Sha1)
    requires CanHappen(r, first, sha1) && Happens(Handle(r, first, sha1), rest, sha1)
    ensures Happens(r, [first] + rest, sha1)
    ensures After(r, [first] + rest, sha1) == After(Handle(r, first, sha1), rest, sha1)
  {
    hide CanHappen, Handle;
    assert ([first] + rest)[1..] == rest;
  }

  lemma {:induction false} EventsChained(r: Registry, a: seq<Event>, b: seq<Event>, sha1: Sha1)
    requires Happens(r, a, sha1) && Happens(After(r, a, sha1), b, sha1)
    ensures Happens(r, a + b, sha1) && After(r, a + b, sha1) == After(After(r, a, sha1), b, sha1)
    decreases |a|
  {
    hide CanHappen, Handle;
    if a == [] {
      assert a + b == b;
    } else {
      EventsChained(Handle(r, a[0], sha1), a[1..], b, sha1);
      assert a + b == [a[0]] + (a[1..] + b);
      FirstEvent(r, a[0], a[1..] + b, sha1);
    }
  }

  /** While its guard is alive, every run of a download can take place in the map, and is what happens to it there. */
  lemma {:induction false} DownloadProceeds(r: Registry, id: Id, steps: seq<Step>, sha1: Sha1)
    requires id in r.downloads && id in r.guards && Possible(r.downloads[id], steps, sha1)
    ensures Happens(r, Steps(id, steps), sha1)
    ensures var end := After(r, Steps(id, steps), sha1);
            && end.guards == r.guards
            && end.downloads == r.downloads[id := D.After(r.downloads[id], steps, sha1)]
    decreases |steps|
  {
    hide Do, Enabled;
    if steps == [] {
      assert r.downloads[id := r.downloads[id]] == r.downloads;
    } else {
      var next := Handle(r, Proceeds(id, steps[0]), sha1);
      DownloadProceeds(next, id, steps[1..], sha1);
      FirstEvent(r, Proceeds(id, steps[0]), Steps(id, steps[1..]), sha1);
    }
  }

  /**
    Whenever no download of its hash is listed, any content can be downloaded: the run ends with exactly the content
    imported, and with neither entry nor guard left of it.
   */
  lemma ContentCanBeImported(r: Registry, id: Id, content: seq<Byte>, sha1: Sha1) returns (events: seq<Event>)
    requires sha1(content) !in r.entries && id !in r.downloads && id !in r.guards
    ensures Happens(r, events, sha1)
    ensures var end := After(r, events, sha1);
            && id in end.downloads && end.downloads[id].phase.Imported? && end.downloads[id].file == content
            && sha1(content) !in end.entries && end.guards == r.guards
  {
    hide Do, Enabled, Happens, After, Possible, D.After;
    var hash := sha1(content);
    var begin := Begins(id, hash, |content|);
    var begun := Handle(r, begin, sha1);
    var steps := Ending.ImportingRun(content, sha1);
    DownloadProceeds(begun, id, steps, sha1);
    var done := After(begun, Steps(id, steps), sha1);
    var dropped := Handle(done, GuardDrops(id), sha1);
    FileSizeFixed(Fresh(hash, |content|), steps, sha1);
    assert done.downloads[id].hash == hash;
    NoEvents(dropped, sha1);
    FirstEvent(done, GuardDrops(id), [], sha1);
    EventsChained(begun, Steps(id, steps), [GuardDrops(id)] + [], sha1);
    FirstEvent(r, begin, Steps(id, steps) + ([GuardDrops(id)] + []), sha1);
    events := [begin] + (Steps(id, steps) + ([GuardDrops(id)] + []));
    assert r.guards + {id} - {id} == r.guards;
  }

  lemma NoEvents(r: Registry, sha1: Sha1)
    ensures Happens(r, [], sha1) && After(r, [], sha1) == r
  {
  }

  /** From every reachable state all downloads can end, their guards can go, and the map is then empty. */
  lemma {:induction false} MapCanEmpty(r: Registry, sha1: Sha1) returns (events: seq<Event>)
    requires NoLeak(r) && AllOk(r, sha1)
    ensures Happens(r, events, sha1)
    ensures After(r, events, sha1).guards == {} && After(r, events, sha1).entries == map[]
    decreases r.guards
  {
    if r.guards == {} {
      events := [];
      assert r.entries == map[];
    } else {
      var id :| id in r.guards;
      var steps := Ending.WorkerCanEnd(r.downloads[id], sha1);
      DownloadProceeds(r, id, steps, sha1);
      var ended := After(r, Steps(id, steps), sha1);
      EntriesNeverLeak(r, Steps(id, steps), sha1);
      assert CanHappen(ended, GuardDrops(id), sha1);
      var dropped := Handle(ended, GuardDrops(id), sha1);
      EventKeepsNoLeak(ended, GuardDrops(id), sha1);
      EventKeepsAllOk(ended, GuardDrops(id), sha1);
      var rest := MapCanEmpty(dropped, sha1);
      FirstEvent(ended, GuardDrops(id), rest, sha1);
      EventsChained(r, Steps(id, steps), [GuardDrops(id)] + rest, sha1);
      events := Steps(id, steps) + ([GuardDrops(id)] + rest);
    }
  }

  /** Once every guard is gone, so is every entry. */
  lemma NothingLeftWithoutGuards(events: seq<Event>, sha1: Sha1)
    requires Happens(EMPTY, events, sha1) && After(EMPTY, events, sha1).guards == {}
    ensures After(EMPTY, events, sha1).entries == map[]
  {
    hide CanHappen, Handle;
    EntriesNeverLeak(EMPTY, events, sha1);
    var r := After(EMPTY, events, sha1);
    assert forall hash :: hash !in r.entries;
  }

  /**
    A file imported in any run is intact: a later scan counts it, with and without hash
    verification, and its size and digest pass the checks made when it is served.
   */
  lemma ImportedFilePasses(events: seq<Event>, sha1: Sha1, id: Id, info: CacheFileInfo, usage: nat, mtime: int,
                           verify: bool)
    requires Happens(EMPTY, events, sha1) && id in After(EMPTY, events, sha1).downloads
    requires After(EMPTY, events, sha1).downloads[id].phase.Importing?
    requires After(EMPTY, events, sha1).downloads[id].hash == info.hash
    requires After(EMPTY, events, sha1).downloads[id].fileSize == info.size && Storable(info.fileType)
    ensures var file := After(EMPTY, events, sha1).downloads[id].file;
            && Intact(info, file, sha1)
            && Judge(ToPath(info), StoredFile(file, usage, mtime), verify, sha1) == Keep(StaticRange(info))
  {
    hide CanHappen, Handle, Ok, FromFileId;
    EntriesNeverLeak(EMPTY, events, sha1);
    var d := After(EMPTY, events, sha1).downloads[id];
    ImportGate(d, sha1);
    ParseOfPrint(info);
  }
}
