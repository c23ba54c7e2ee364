/**
  How a download ends. A complete file with the right digest can always be imported, whoever is still reading; one with
  another digest never is; every worker can end; and a client that subscribed in time is served before the import.
 */
module DownloadEnding {
  import opened Common
  import opened FileId
  import opened Download

  lemma {:induction false} Chained(d: Download, a: seq<Step>, b: seq<Step>, sha1: Sha1)
    requires Possible(d, a, sha1) && Possible(After(d, a, sha1), b, sha1)
    ensures Possible(d, a + b, sha1) && After(d, a + b, sha1) == After(After(d, a, sha1), b, sha1)
    decreases |a|
  {
    hide Do, Enabled;
    if a == [] {
      assert a + b == b;
    } else {
      Chained(Do(d, a[0], sha1), a[1..], b, sha1);
      assert a + b == [a[0]] + (a[1..] + b);
      FirstStep(d, a[0], a[1..] + b, sha1);
    }
  }

  lemma Alone(d: Download, s: Step, sha1: Sha1)
    requires Enabled(d, s, sha1)
    ensures Possible(d, [s], sha1) && After(d, [s], sha1) == Do(d, s, sha1)
  {
    hide Do, Enabled;
    assert [s] + [] == [s];
    FirstStep(d, s, [], sha1);
  }

  // ---------------------------------------------------------------- the import

  lemma InClosing(d: Download, sha1: Sha1)
    requires (d.phase.Closing? || d.phase.ClosingAgain?) && NoReceivers(d)
    ensures Enabled(d, ReceiversGone, sha1)
    ensures Do(d, ReceiversGone, sha1) == d.(phase := if d.phase.Closing? then Removing else Importing)
  {
  }

  lemma InRemoving(d: Download, sha1: Sha1)
    requires d.phase.Removing?
    ensures var ok := sha1(d.hashed) == d.hash;
            && Enabled(d, RemovesEntry(ok), sha1)
            && Do(d, RemovesEntry(ok), sha1) == d.(phase := if ok then ClosingAgain else Stopped([]), removed := true)
  {
  }

  lemma InImporting(d: Download, sha1: Sha1)
    requires d.phase.Importing?
    ensures Enabled(d, Imports, sha1) && Do(d, Imports, sha1) == d.(phase := Imported)
  {
  }

  const LAST_STEPS: seq<Step> := [ReceiversGone, RemovesEntry(true), ReceiversGone, Imports]

  lemma SameReceivers(d: Download, d': Download)
    requires NoReceivers(d) && d'.readers == d.readers
    ensures NoReceivers(d')
  {
  }

  /** With all receivers gone and the right digest, the worker's last steps lead to the import of the file. */
  lemma LastStepsImport(d: Download, sha1: Sha1)
    requires d.phase == Closing && NoReceivers(d) && sha1(d.hashed) == d.hash
    ensures Possible(d, LAST_STEPS, sha1)
    ensures After(d, LAST_STEPS, sha1) == d.(phase := Imported, removed := true)
  {
    hide Do, Enabled, NoReceivers, Possible, After;
    var d1, d2 := d.(phase := Removing), d.(phase := ClosingAgain, removed := true);
    var d3 := d2.(phase := Importing);
    SameReceivers(d, d2);
    InClosing(d, sha1);
    InRemoving(d1, sha1);
    InClosing(d2, sha1);
    InImporting(d3, sha1);
    Alone(d3, Imports, sha1);
    assert [ReceiversGone] + [Imports] == [ReceiversGone, Imports];
    assert [RemovesEntry(true)] + [ReceiversGone, Imports] == [RemovesEntry(true), ReceiversGone, Imports];
    assert [ReceiversGone] + [RemovesEntry(true), ReceiversGone, Imports] == LAST_STEPS;
    FirstStep(d2, ReceiversGone, [Imports], sha1);
    FirstStep(d1, RemovesEntry(true), [ReceiversGone, Imports], sha1);
    FirstStep(d, ReceiversGone, [RemovesEntry(true), ReceiversGone, Imports], sha1);
  }

  function LiveReaders(d: Download): set<nat> {
    set id | id in d.readers && Live(d.readers[id])
  }

  /** The receivers can all go, one after the other, each with what it has sent. */
  lemma {:induction false} ReceiversCanGo(d: Download, sha1: Sha1) returns (steps: seq<Step>)
    ensures Possible(d, steps, sha1)
    ensures var end := After(d, steps, sha1);
            && end == d.(readers := end.readers) && NoReceivers(end) && end.readers.Keys == d.readers.Keys
            && forall id :: id in d.readers ==> Out(end.readers[id]) == Out(d.readers[id])
    decreases LiveReaders(d)
  {
    if LiveReaders(d) == {} {
      steps := [];
      assert forall id :: id in d.readers ==> id !in LiveReaders(d);
    } else {
      var id :| id in LiveReaders(d);
      var next := Do(d, Leaves(id), sha1);
      assert LiveReaders(next) == LiveReaders(d) - {id};
      var rest := ReceiversCanGo(next, sha1);
      FirstStep(d, Leaves(id), rest, sha1);
      steps := [Leaves(id)] + rest;
    }
  }

  /** The file has been received and will not change: waiting for receivers, past it, or given up. */
  ghost predicate Over(d: Download) {
    (Complete(d.phase) || d.phase.Stopped?) && d.pending == []
  }

  /** After the last byte neither the file nor what was hashed changes, whatever anybody does. */
  lemma {:induction false} OverStaysOver(d: Download, steps: seq<Step>, sha1: Sha1)
    requires Over(d) && Possible(d, steps, sha1)
    ensures var end := After(d, steps, sha1);
            Over(end) && end.file == d.file && end.hashed == d.hashed && end.hash == d.hash
    decreases |steps|
  {
    if steps != [] {
      OverStaysOver(Do(d, steps[0], sha1), steps[1..], sha1);
    }
  }

  /**
    A complete download, with any receivers still reading, can be imported if and only if what was hashed has the
    expected digest; the imported file is then the file as it is.
   */
  lemma ImportPossibleIff(d: Download, sha1: Sha1)
    requires Ok(d, sha1) && d.phase == Closing
    ensures (exists steps :: Possible(d, steps, sha1) && After(d, steps, sha1).phase.Imported?) <==>
            sha1(d.hashed) == d.hash
    ensures forall steps :: Possible(d, steps, sha1) && After(d, steps, sha1).phase.Imported? ==>
              After(d, steps, sha1).file == d.file
  {
    forall steps | Possible(d, steps, sha1) && After(d, steps, sha1).phase.Imported?
      ensures sha1(d.hashed) == d.hash && After(d, steps, sha1).file == d.file
    {
      OverStaysOver(d, steps, sha1);
      RunKeepsOk(d, steps, sha1);
      ImportGate(After(d, steps, sha1), sha1);
    }
    if sha1(d.hashed) == d.hash {
      var leaving := ReceiversCanGo(d, sha1);
      var alone := After(d, leaving, sha1);
      LastStepsImport(alone, sha1);
      Chained(d, leaving, LAST_STEPS, sha1);
      assert After(d, leaving + LAST_STEPS, sha1).phase.Imported?;
    }
  }

  /** The shortest way to a complete file: one attempt, and the content in one chunk that lands as a whole. */
  function ReceivingSteps(content: seq<Byte>): seq<Step> {
    if content == [] then [] else [Receives(content), Lands(|content|), WriteSucceeds]
  }

  lemma ReceivesAll(d: Download, content: seq<Byte>, sha1: Sha1)
    requires d.phase == Streaming(0) && d.progress == 0 && d.pending == [] && d.filePos == 0
    requires d.file == [] && d.hashed == []
    ensures Possible(d, ReceivingSteps(content), sha1)
    ensures var n := |content|;
            After(d, ReceivingSteps(content), sha1) ==
            d.(phase := Streaming(n), progress := n, hashed := content, file := content, filePos := n,
               published := if n == 0 then d.published else n)
  {
    hide Do, Enabled;
    if content != [] {
      var n := |content|;
      ReceivesChunk(d, content, sha1);
      var d1 := Do(d, Receives(content), sha1);
      var d2 := Do(d1, Lands(n), sha1);
      Alone(d2, WriteSucceeds, sha1);
      FirstStep(d1, Lands(n), [WriteSucceeds], sha1);
      FirstStep(d, Receives(content), [Lands(n)] + [WriteSucceeds], sha1);
      assert [Receives(content)] + ([Lands(n)] + [WriteSucceeds]) == ReceivingSteps(content);
    }
  }

  lemma ReceivesChunk(d: Download, content: seq<Byte>, sha1: Sha1)
    requires d.phase == Streaming(0) && d.progress == 0 && d.pending == [] && d.filePos == 0
    requires d.file == [] && d.hashed == [] && content != []
    ensures Enabled(d, Receives(content), sha1)
    ensures var n, d1 := |content|, Do(d, Receives(content), sha1);
            && Enabled(d1, Lands(n), sha1)
            && Enabled(Do(d1, Lands(n), sha1), WriteSucceeds, sha1)
            && Do(Do(d1, Lands(n), sha1), WriteSucceeds, sha1) ==
               d.(phase := Streaming(n), progress := n, hashed := content, file := content, filePos := n,
                  published := n)
  {
    var n, d1 := |content|, Do(d, Receives(content), sha1);
    assert content[0..] == content && content[..n] == content && [] + content == content;
    assert d1 == d.(phase := Writing(content, n), pending := [Write(0, content)], filePos := n);
    WriteAtEnd([], content);
    assert Do(d1, Lands(n), sha1) == d1.(file := content, pending := []);
  }

  /** From a new download to a running response. */
  lemma Connects(hash: Hash, fileSize: nat, sha1: Sha1)
    ensures var d, steps := Fresh(hash, fileSize), [Spawn, Opens, RequestSucceeds];
            Possible(d, steps, sha1) && After(d, steps, sha1) == d.(phase := Streaming(0))
  {
    var d := Fresh(hash, fileSize);
    var d1 := Do(d, Spawn, sha1);
    var d2 := Do(d1, Opens, sha1);
    assert Enabled(d2, RequestSucceeds, sha1);
    hide Do, Enabled;
    Alone(d2, RequestSucceeds, sha1);
    FirstStep(d1, Opens, [RequestSucceeds], sha1);
    FirstStep(d, Spawn, [Opens] + [RequestSucceeds], sha1);
    assert [Spawn] + ([Opens] + [RequestSucceeds]) == [Spawn, Opens, RequestSucceeds];
  }

  /** From the end of the response to the import. */
  lemma Finishes(d: Download, sha1: Sha1)
    requires d.phase.Streaming? && d.progress == d.fileSize && d.pending == [] && NoReceivers(d)
    requires sha1(d.hashed) == d.hash
    ensures var steps := [StreamEnds, FlushSucceeds] + LAST_STEPS;
            && Possible(d, steps, sha1)
            && After(d, steps, sha1) == d.(phase := Imported, removed := true, published := d.progress)
  {
    var d1 := Do(d, StreamEnds, sha1);
    var d2 := Do(d1, FlushSucceeds, sha1);
    assert d2 == d.(phase := Closing, published := d.progress);
    hide Do, Enabled, Possible, After;
    SameReceivers(d, d2);
    LastStepsImport(d2, sha1);
    FirstStep(d1, FlushSucceeds, LAST_STEPS, sha1);
    FirstStep(d, StreamEnds, [FlushSucceeds] + LAST_STEPS, sha1);
    assert [StreamEnds] + ([FlushSucceeds] + LAST_STEPS) == [StreamEnds, FlushSucceeds] + LAST_STEPS;
  }

  /** Every content can be downloaded under its digest and size, and is then imported as it is. */
  lemma ImportingRun(content: seq<Byte>, sha1: Sha1) returns (steps: seq<Step>)
    ensures Possible(Fresh(sha1(content), |content|), steps, sha1)
    ensures var end := After(Fresh(sha1(content), |content|), steps, sha1);
            end.phase.Imported? && end.file == content
  {
    hide Possible, After;
    var d, connecting := Fresh(sha1(content), |content|), [Spawn, Opens, RequestSucceeds];
    var receiving, finishing := ReceivingSteps(content), [StreamEnds, FlushSucceeds] + LAST_STEPS;
    Connects(sha1(content), |content|, sha1);
    var d1 := After(d, connecting, sha1);
    ReceivesAll(d1, content, sha1);
    Finishes(After(d1, receiving, sha1), sha1);
    Chained(d1, receiving, finishing, sha1);
    Chained(d, connecting, receiving + finishing, sha1);
    steps := connecting + (receiving + finishing);
  }

  // ------------------------------------------------------------- every worker ends

  /** How far a worker is from its end, by a way that is always open to it. */
  function Distance(d: Download): nat
    requires d.retry <= ATTEMPTS
  {
    match d.phase
    case Opening => 1 + ATTEMPTS - d.retry
    case Requesting => 2 + ATTEMPTS - d.retry
    case Streaming(_) => 2 + ATTEMPTS - d.retry
    case Closing => 4
    case Removing => 3
    case ClosingAgain => 2
    case Imported => 0
    case Stopped(_) => 0
    case _ => 1
  }

  /** A step of the worker that brings it closer to its end, once no receiver is left. */
  lemma StepTowardsEnd(d: Download, sha1: Sha1) returns (s: Step)
    requires Ok(d, sha1) && NoReceivers(d) && !d.phase.Imported? && !d.phase.Stopped?
    ensures Enabled(d, s, sha1) && NoReceivers(Do(d, s, sha1))
    ensures Do(d, s, sha1).retry <= ATTEMPTS && Distance(Do(d, s, sha1)) < Distance(d)
  {
    hide ReadersOk, Flat, Abutting;
    match d.phase
    case Preparing => s := Abort;
    case Opening => s := OpenFails;
    case Requesting => s := RequestFails;
    case Streaming(_) => s := ReceiveFails;
    case Writing(_, _) => s := WriteFails;
    case Flushing => s := FlushFails;
    case Closing => s := ReceiversGone;
    case Removing => s := RemovesEntry(sha1(d.hashed) == d.hash);
    case ClosingAgain => s := ReceiversGone;
    case Importing => s := Imports;
  }

  lemma {:induction false} EndsAlone(d: Download, sha1: Sha1) returns (steps: seq<Step>)
    requires Ok(d, sha1) && NoReceivers(d) && d.retry <= ATTEMPTS
    ensures Possible(d, steps, sha1)
    ensures After(d, steps, sha1).phase.Imported? || After(d, steps, sha1).phase.Stopped?
    decreases Distance(d)
  {
    hide Ok, NoReceivers, Do, Enabled, Distance;
    if d.phase.Imported? || d.phase.Stopped? {
      steps := [];
    } else {
      var s := StepTowardsEnd(d, sha1);
      StepKeepsOk(d, s, sha1);
      var rest := EndsAlone(Do(d, s, sha1), sha1);
      FirstStep(d, s, rest, sha1);
      steps := [s] + rest;
    }
  }

  /** From every reachable state the worker can come to its end, imported or given up. */
  lemma WorkerCanEnd(d: Download, sha1: Sha1) returns (steps: seq<Step>)
    requires Ok(d, sha1)
    ensures Possible(d, steps, sha1)
    ensures After(d, steps, sha1).phase.Imported? || After(d, steps, sha1).phase.Stopped?
  {
    var leaving := ReceiversCanGo(d, sha1);
    RunKeepsOk(d, leaving, sha1);
    var ending := EndsAlone(After(d, leaving, sha1), sha1);
    Chained(d, leaving, ending, sha1);
    steps := leaving + ending;
  }

  // ----------------------------------------------------------------- the readers

  lemma StepKeepsReader(d: Download, s: Step, sha1: Sha1, id: nat)
    requires Enabled(d, s, sha1) && id in d.readers
    ensures id in Do(d, s, sha1).readers && Out(d.readers[id]) <= Out(Do(d, s, sha1).readers[id])
    ensures Live(Do(d, s, sha1).readers[id]) ==>
              Live(d.readers[id]) && Do(d, s, sha1).readers[id].early == d.readers[id].early
  {
  }

  /** A reader never takes back what it has sent, and never comes back once it is gone. */
  lemma {:induction false} ReaderGoesOn(d: Download, steps: seq<Step>, sha1: Sha1, id: nat)
    requires Possible(d, steps, sha1) && id in d.readers
    ensures var end := After(d, steps, sha1);
            && id in end.readers && Out(d.readers[id]) <= Out(end.readers[id])
            && (Live(end.readers[id]) ==> Live(d.readers[id]) && end.readers[id].early == d.readers[id].early)
    decreases |steps|
  {
    hide Do, Enabled;
    if steps != [] {
      StepKeepsReader(d, steps[0], sha1, id);
      ReaderGoesOn(Do(d, steps[0], sha1), steps[1..], sha1, id);
    }
  }

  /** A client that subscribed before the entry was removed is gone by the time of the import. */
  lemma SubscriberServedBeforeImport(d: Download, id: nat, steps: seq<Step>, sha1: Sha1)
    requires Ok(d, sha1) && id !in d.readers && !d.removed && Possible(d, [Subscribes(id)] + steps, sha1)
    ensures var end := After(d, [Subscribes(id)] + steps, sha1);
            && id in end.readers
            && (end.phase.Importing? || end.phase.Imported? ==> !Live(end.readers[id]))
  {
    var all, next := [Subscribes(id)] + steps, Do(d, Subscribes(id), sha1);
    assert all[1..] == steps && next.readers[id] == Waiting(true);
    hide Ok, Do, Enabled;
    assert Possible(next, steps, sha1) && After(d, all, sha1) == After(next, steps, sha1);
    ReaderGoesOn(next, steps, sha1, id);
    RunKeepsOk(d, all, sha1);
    if After(d, all, sha1).phase.Importing? || After(d, all, sha1).phase.Imported? {
      ImportGate(After(d, all, sha1), sha1);
    }
  }

  /** A new client can always join before the import, and read everything that was published when it did. */
  lemma NewReaderCanFollow(d: Download, id: nat, sizes: seq<nat>, sha1: Sha1) returns (steps: seq<Step>)
    requires Ok(d, sha1) && d.pending == [] && id !in d.readers && !d.phase.Imported? && 0 < d.published
    requires (forall i :: 0 <= i < |sizes| ==> sizes[i] > 0) && Sum(sizes) == Target(0, d.fileSize, d.published)
    ensures steps == [Subscribes(id), StartsReading(id), Refreshes(id)] + ReadSteps(id, sizes)
    ensures Possible(d, steps, sha1) && id in After(d, steps, sha1).readers && Sum(sizes) <= |d.hashed|
    ensures Out(After(d, steps, sha1).readers[id]) == d.hashed[..Sum(sizes)]
  {
    var d1 := Do(d, Subscribes(id), sha1);
    var d2 := Do(d1, StartsReading(id), sha1);
    assert d2.readers[id].Reading? && d2.readers[id].readOff == 0;
    assert d2.pending == [] && d2.published == d.published && d2.fileSize == d.fileSize && d2.hashed == d.hashed;
    StepKeepsOk(d, Subscribes(id), sha1);
    StepKeepsOk(d1, StartsReading(id), sha1);
    hide Ok, Do, Enabled, Possible, After;
    ReaderCanCatchUp(d2, id, sizes, sha1);
    var rest := [Refreshes(id)] + ReadSteps(id, sizes);
    FirstStep(d1, StartsReading(id), rest, sha1);
    FirstStep(d, Subscribes(id), [StartsReading(id)] + rest, sha1);
    steps := [Subscribes(id)] + ([StartsReading(id)] + rest);
    assert steps == [Subscribes(id), StartsReading(id), Refreshes(id)] + ReadSteps(id, sizes);
  }
}
