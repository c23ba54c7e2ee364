/**
  One cache-miss download: a worker that fetches a file with up to three attempts and
  writes it to a temp file, and any number of readers that stream the growing file to
  clients. Every step is the code between two awaits; steps interleave freely.
 */
module Download {
  import opened Common
  import opened FileId

  /** A write handed to the file system, not yet (fully) visible. */
  datatype Write = Write(pos: nat, data: seq<Byte>)

  /** Where the worker stands. */
  datatype Phase =
    | Preparing                                      // the owner still creates the temp file and asks for sources
    | Opening                                        // at the top of the retry loop
    | Requesting                                     // temp file open, waiting for the response
    | Streaming(download: nat)                       // waiting for the next chunk
    | Writing(data: seq<Byte>, download: nat)        // waiting for the write
    | Flushing                                       // everything received
    | Closing                                        // waiting for all receivers to go
    | Removing                                       // about to remove the entry
    | ClosingAgain                                   // waiting once more
    | Importing                                      // about to import
    | Imported
    | Stopped(lost: seq<Byte>)                       // gave up; `lost` may be partly written
    | Panicked                                       // a slice index went below zero

  /** A client of the temp file; `early` tells that it subscribed before the entry's removal. */
  datatype Reader =
    | Waiting(early: bool)
    | Reading(early: bool, readOff: nat, writeOff: nat, out: seq<Byte>)
    | Finished(out: seq<Byte>)                       // left by the end-of-file break
    | Left(out: seq<Byte>)                           // timeout, cancellation or a closed channel

  datatype Download = Download(
    hash: Hash, fileSize: nat,
    phase: Phase, retry: nat, progress: nat, hashed: seq<Byte>,
    file: seq<Byte>, pending: seq<Write>, filePos: nat,
    published: nat, removed: bool, readers: map<nat, Reader>)

  datatype Step =
    | Spawn | Abort
    | OpenFails | Opens | RequestFails | RequestSucceeds
    | Receives(bytes: seq<Byte>) | ReceiveFails | StreamEnds
    | WriteSucceeds | WriteFails | Lands(n: nat)
    | FlushSucceeds | FlushFails | ReceiversGone | RemovesEntry(sha1Matches: bool) | Imports
    | Subscribes(id: nat) | StartsReading(id: nat) | Refreshes(id: nat) | Reads(id: nat, n: nat) | Leaves(id: nat)

  const ATTEMPTS: nat := 3

  function Fresh(hash: Hash, fileSize: nat): Download {
    Download(hash, fileSize, Preparing, 0, 0, [], [], [], 0, 0, false, map[])
  }

  predicate Live(r: Reader) {
    r.Waiting? || r.Reading?
  }

  predicate NoReceivers(d: Download) {
    forall id :: id in d.readers ==> !Live(d.readers[id])
  }

  /** Writing at a position: overwrites, extends, and fills a gap with zeros. */
  function WriteAt(file: seq<Byte>, pos: nat, data: seq<Byte>): seq<Byte> {
    var padded := if pos <= |file| then file else file + seq(pos - |file|, _ => 0);
    padded[..pos] + data + (if pos + |data| < |file| then file[pos + |data|..] else [])
  }

  predicate Enabled(d: Download, s: Step, sha1: Sha1) {
    match s
    case Spawn => d.phase.Preparing?
    case Abort => d.phase.Preparing?
    case OpenFails => d.phase.Opening? && d.retry < ATTEMPTS
    case Opens => d.phase.Opening? && d.retry < ATTEMPTS
    case RequestFails => d.phase.Requesting?
    case RequestSucceeds => d.phase.Requesting?
    case Receives(bytes) => d.phase.Streaming?
    case ReceiveFails => d.phase.Streaming?
    case StreamEnds => d.phase.Streaming?
    case WriteSucceeds => d.phase.Writing?
    case WriteFails => d.phase.Writing?
    case Lands(n) => d.pending != [] && n <= |d.pending[0].data|
    case FlushSucceeds => d.phase.Flushing? && d.pending == []
    case FlushFails => d.phase.Flushing?
    case ReceiversGone => (d.phase.Closing? || d.phase.ClosingAgain?) && NoReceivers(d)
    case RemovesEntry(ok) => d.phase.Removing? && ok == (sha1(d.hashed) == d.hash)
    case Imports => d.phase.Importing?
    case Subscribes(id) => id !in d.readers
    case StartsReading(id) => id in d.readers && d.readers[id].Waiting? && !d.phase.Imported?
    case Refreshes(id) => id in d.readers && d.readers[id].Reading?
    case Reads(id, n) =>
      && id in d.readers && d.readers[id].Reading? && d.readers[id].writeOff > d.readers[id].readOff
      && 0 < n && d.readers[id].readOff + n <= |d.file|
    case Leaves(id) => id in d.readers && Live(d.readers[id])
  }

  /** The next attempt, or the end of the retry loop. */
  function NextAttempt(d: Download): Download {
    d.(phase := if d.retry + 1 < ATTEMPTS then Opening else Stopped([]), retry := d.retry + 1)
  }

  /**
    A chunk arrives: what was downloaded before is skipped, the rest is written. The slice starts
    at `len - writeSize`, which must not go below zero.
   */
  function Received(d: Download, bytes: seq<Byte>): Download
    requires d.phase.Streaming?
  {
    var download := d.phase.download + |bytes|;
    if download <= d.progress then d.(phase := Streaming(download))
    else
      var writeSize := download - d.progress;
      if writeSize > |bytes| then d.(phase := Panicked)
      else
        var data := bytes[|bytes| - writeSize..];
        d.(phase := Writing(data, download), pending := d.pending + [Write(d.filePos, data)],
           filePos := d.filePos + |data|)
  }

  function Landed(d: Download, n: nat): Download
    requires d.pending != [] && n <= |d.pending[0].data|
  {
    var w := d.pending[0];
    d.(file := WriteAt(d.file, w.pos, w.data[..n]),
       pending := if n == |w.data| then d.pending[1..] else [Write(w.pos + n, w.data[n..])] + d.pending[1..])
  }

  /** A reader takes what the file system gives, also past the published progress. */
  function ReadMore(d: Download, r: Reader, n: nat): Reader
    requires r.Reading? && r.readOff + n <= |d.file|
  {
    var out := r.out + d.file[r.readOff..r.readOff + n];
    if r.readOff + n == d.fileSize then Finished(out) else r.(readOff := r.readOff + n, out := out)
  }

  function Out(r: Reader): seq<Byte> {
    match r
    case Waiting(_) => []
    case Reading(_, _, _, out) => out
    case Finished(out) => out
    case Left(out) => out
  }

  function Do(d: Download, s: Step, sha1: Sha1): Download
    requires Enabled(d, s, sha1)
  {
    match s
    case Spawn => d.(phase := Opening)
    case Abort => d.(phase := Stopped([]))
    case OpenFails => NextAttempt(d)
    case Opens => d.(phase := Requesting, filePos := d.progress)
    case RequestFails => NextAttempt(d)
    case RequestSucceeds => d.(phase := Streaming(0))
    case Receives(bytes) => Received(d, bytes)
    case ReceiveFails => NextAttempt(d)
    case StreamEnds => if d.progress == d.fileSize then d.(phase := Flushing) else NextAttempt(d)
    case WriteSucceeds =>
      var progress := d.progress + |d.phase.data|;
      d.(phase := Streaming(d.phase.download), hashed := d.hashed + d.phase.data,
         progress := progress, published := progress)
    case WriteFails => d.(phase := Stopped(d.phase.data))
    case Lands(n) => Landed(d, n)
    case FlushSucceeds => d.(phase := Closing, published := d.progress)
    case FlushFails => d.(phase := Stopped([]))
    case ReceiversGone => d.(phase := if d.phase.Closing? then Removing else Importing)
    case RemovesEntry(ok) => d.(phase := if ok then ClosingAgain else Stopped([]), removed := true)
    case Imports => d.(phase := Imported)
    case Subscribes(id) => d.(readers := d.readers[id := Waiting(!d.removed)])
    case StartsReading(id) => d.(readers := d.readers[id := Reading(d.readers[id].early, 0, d.published, [])])
    case Refreshes(id) => d.(readers := d.readers[id := d.readers[id].(writeOff := d.published)])
    case Reads(id, n) => d.(readers := d.readers[id := ReadMore(d, d.readers[id], n)])
    case Leaves(id) => d.(readers := d.readers[id := Left(Out(d.readers[id]))])
  }

  // -------------------------------------------------------------- invariants

  /** Bytes accepted for writing but not yet counted. */
  function InFlight(p: Phase): seq<Byte> {
    match p
    case Writing(data, _) => data
    case Stopped(lost) => lost
    case _ => []
  }

  /** The data of pending writes, in order. */
  function Flat(pending: seq<Write>): seq<Byte> {
    if pending == [] then [] else pending[0].data + Flat(pending[1..])
  }

  /** Pending writes are back to back, the first one at the end of the file. */
  predicate Abutting(pending: seq<Write>, at: nat) {
    pending != [] ==> pending[0].pos == at && Abutting(pending[1..], at + |pending[0].data|)
  }

  /** The file has been received in full and its digest taken. */
  predicate Complete(p: Phase) {
    p.Closing? || p.Removing? || p.ClosingAgain? || p.Importing? || p.Imported?
  }

  predicate InLoop(p: Phase) {
    p.Preparing? || p.Opening? || p.Requesting? || p.Streaming? || p.Writing?
  }

  ghost predicate WorkerOk(d: Download, sha1: Sha1) {
    && !d.phase.Panicked?
    && d.progress == |d.hashed|
    && d.published == d.progress
    && d.file + Flat(d.pending) == d.hashed + InFlight(d.phase)
    && Abutting(d.pending, |d.file|)
    && d.retry <= ATTEMPTS && (InLoop(d.phase) ==> d.retry < ATTEMPTS)
    && (d.phase.Requesting? || d.phase.Streaming? ==> d.filePos == d.progress)
    && (d.phase.Streaming? ==> d.phase.download <= d.progress)
    && (d.phase.Writing? ==> d.phase.download == d.progress + |d.phase.data|)
    && (d.phase.Writing? ==> d.filePos == d.progress + |d.phase.data|)
    && (d.phase.Flushing? || Complete(d.phase) ==> d.progress == d.fileSize)
    && (Complete(d.phase) ==> d.pending == [])
    && (d.phase.ClosingAgain? || d.phase.Importing? || d.phase.Imported? ==> sha1(d.hashed) == d.hash && d.removed)
    && (d.removed ==> d.phase.ClosingAgain? || d.phase.Importing? || d.phase.Imported? || d.phase.Stopped?)
  }

  /** What a reader has sent is the beginning of the temp file. */
  ghost predicate ReaderOk(r: Reader, file: seq<Byte>, fileSize: nat) {
    && Out(r) <= file
    && (r.Reading? ==> |r.out| == r.readOff)
    && (r.Finished? ==> |r.out| == fileSize)
  }

  ghost predicate ReadersOk(d: Download) {
    && (forall id :: id in d.readers ==> ReaderOk(d.readers[id], d.file, d.fileSize))
    && (d.phase.Importing? || d.phase.Imported? ==>
          forall id :: id in d.readers && Live(d.readers[id]) ==> !d.readers[id].early)
  }

  ghost predicate Ok(d: Download, sha1: Sha1) {
    WorkerOk(d, sha1) && ReadersOk(d)
  }

  lemma {:induction false} FlatSnoc(pending: seq<Write>, w: Write)
    ensures Flat(pending + [w]) == Flat(pending) + w.data
  {
    if pending == [] {
      assert pending + [w] == [w];
      assert Flat([w][1..]) == [];
    } else {
      FlatSnoc(pending[1..], w);
      assert (pending + [w])[1..] == pending[1..] + [w];
    }
  }

  lemma {:induction false} AbuttingSnoc(pending: seq<Write>, at: nat, w: Write)
    requires Abutting(pending, at) && w.pos == at + |Flat(pending)|
    ensures Abutting(pending + [w], at)
  {
    if pending == [] {
      assert (pending + [w])[1..] == [];
    } else {
      AbuttingSnoc(pending[1..], at + |pending[0].data|, w);
      assert (pending + [w])[1..] == pending[1..] + [w];
    }
  }

  lemma WriteAtEnd(file: seq<Byte>, data: seq<Byte>)
    ensures WriteAt(file, |file|, data) == file + data
  {
  }

  lemma FirstWrite(pending: seq<Write>, at: nat)
    requires pending != []
    ensures Flat(pending) == pending[0].data + Flat(pending[1..])
    ensures Abutting(pending, at) <==> pending[0].pos == at && Abutting(pending[1..], at + |pending[0].data|)
  {
  }

  /** A write that lands extends the file by exactly its bytes. */
  lemma LandingAppends(d: Download, n: nat)
    requires d.pending != [] && n <= |d.pending[0].data| && Abutting(d.pending, |d.file|)
    ensures Landed(d, n).file == d.file + d.pending[0].data[..n]
    ensures Landed(d, n).file + Flat(Landed(d, n).pending) == d.file + Flat(d.pending)
    ensures Abutting(Landed(d, n).pending, |Landed(d, n).file|)
  {
    hide WriteAt, Flat, Abutting;
    var w, rest := d.pending[0], d.pending[1..];
    FirstWrite(d.pending, |d.file|);
    WriteAtEnd(d.file, w.data[..n]);
    if n < |w.data| {
      var short := [Write(w.pos + n, w.data[n..])] + rest;
      assert short[1..] == rest;
      assert w.data[..n] + (w.data[n..] + Flat(rest)) == w.data + Flat(rest);
      FirstWrite(short, |d.file| + n);
    } else {
      assert w.data[..n] == w.data;
    }
  }

  lemma ReceivingKeepsWorker(d: Download, bytes: seq<Byte>, sha1: Sha1)
    requires WorkerOk(d, sha1) && d.phase.Streaming?
    ensures WorkerOk(Received(d, bytes), sha1)
  {
    var download := d.phase.download + |bytes|;
    if download > d.progress {
      var data := bytes[|bytes| - (download - d.progress)..];
      FlatSnoc(d.pending, Write(d.filePos, data));
      AbuttingSnoc(d.pending, |d.file|, Write(d.filePos, data));
      assert |d.file + Flat(d.pending)| == |d.hashed|;
      assert d.file + (Flat(d.pending) + data) == d.file + Flat(d.pending) + data;
    }
  }

  lemma LandingKeepsWorker(d: Download, n: nat, sha1: Sha1)
    requires WorkerOk(d, sha1) && d.pending != [] && n <= |d.pending[0].data|
    ensures WorkerOk(Landed(d, n), sha1) && d.file <= Landed(d, n).file
  {
    hide Flat, Abutting, WriteAt;
    LandingAppends(d, n);
  }

  lemma WritingKeepsWorker(d: Download, sha1: Sha1)
    requires WorkerOk(d, sha1) && d.phase.Writing?
    ensures WorkerOk(Do(d, WriteSucceeds, sha1), sha1)
  {
  }

  /** The other steps move between phases, or change readers only. */
  lemma OtherStepsKeepWorker(d: Download, s: Step, sha1: Sha1)
    requires WorkerOk(d, sha1) && Enabled(d, s, sha1) && !s.Receives? && !s.Lands? && !s.WriteSucceeds?
    ensures WorkerOk(Do(d, s, sha1), sha1)
    ensures Do(d, s, sha1).file == d.file && Do(d, s, sha1).hashed == d.hashed
  {
    hide Flat, Abutting;
  }

  lemma StepKeepsWorker(d: Download, s: Step, sha1: Sha1)
    requires WorkerOk(d, sha1) && Enabled(d, s, sha1)
    ensures WorkerOk(Do(d, s, sha1), sha1)
    ensures d.file <= Do(d, s, sha1).file && d.hashed <= Do(d, s, sha1).hashed
  {
    match s {
      case Receives(bytes) => ReceivingKeepsWorker(d, bytes, sha1);
      case Lands(n) => LandingKeepsWorker(d, n, sha1);
      case WriteSucceeds => WritingKeepsWorker(d, sha1);
      case _ => OtherStepsKeepWorker(d, s, sha1);
    }
  }

  predicate ReaderStep(s: Step) {
    s.Subscribes? || s.StartsReading? || s.Refreshes? || s.Reads? || s.Leaves?
  }

  /** What a reader has sent stays a beginning of the file, because the file only grows at its end. */
  lemma WorkerStepKeepsReaders(d: Download, s: Step, sha1: Sha1)
    requires Ok(d, sha1) && Enabled(d, s, sha1) && !ReaderStep(s)
    ensures ReadersOk(Do(d, s, sha1))
  {
    StepKeepsWorker(d, s, sha1);
    hide WorkerOk;
    var d' := Do(d, s, sha1);
    assert d'.readers == d.readers && d'.fileSize == d.fileSize && d.file <= d'.file;
    assert d'.phase.Importing? || d'.phase.Imported? ==> d.phase.Importing? || d.phase.Imported? || NoReceivers(d);
  }

  /** Replacing one reader by a correct one. */
  lemma ReaderReplaced(d: Download, id: nat, r: Reader)
    requires ReadersOk(d) && ReaderOk(r, d.file, d.fileSize)
    requires (d.phase.Importing? || d.phase.Imported?) && Live(r) ==> !r.early
    ensures ReadersOk(d.(readers := d.readers[id := r]))
  {
  }

  lemma ReadMoreOk(d: Download, r: Reader, n: nat)
    requires ReaderOk(r, d.file, d.fileSize) && r.Reading? && r.readOff + n <= |d.file|
    ensures ReaderOk(ReadMore(d, r, n), d.file, d.fileSize)
  {
  }

  /** A reader step changes one reader, which still holds a beginning of the file. */
  lemma ReaderStepKeepsReaders(d: Download, s: Step, sha1: Sha1)
    requires Ok(d, sha1) && Enabled(d, s, sha1) && ReaderStep(s)
    ensures ReadersOk(Do(d, s, sha1))
  {
    var id := s.id;
    if !s.Subscribes? {
      assert ReaderOk(d.readers[id], d.file, d.fileSize);
    }
    match s {
      case Subscribes(_) =>
        assert d.phase.Importing? || d.phase.Imported? ==> d.removed;
        ReaderReplaced(d, id, Waiting(!d.removed));
      case StartsReading(_) => ReaderReplaced(d, id, Reading(d.readers[id].early, 0, d.published, []));
      case Refreshes(_) => ReaderReplaced(d, id, d.readers[id].(writeOff := d.published));
      case Reads(_, n) =>
        ReadMoreOk(d, d.readers[id], n);
        ReaderReplaced(d, id, ReadMore(d, d.readers[id], n));
      case Leaves(_) => ReaderReplaced(d, id, Left(Out(d.readers[id])));
    }
  }

  lemma StepKeepsOk(d: Download, s: Step, sha1: Sha1)
    requires Ok(d, sha1) && Enabled(d, s, sha1)
    ensures Ok(Do(d, s, sha1), sha1)
    ensures d.file <= Do(d, s, sha1).file && d.hashed <= Do(d, s, sha1).hashed
  {
    hide WorkerOk, ReadersOk;
    StepKeepsWorker(d, s, sha1);
    if ReaderStep(s) {
      ReaderStepKeepsReaders(d, s, sha1);
    } else {
      WorkerStepKeepsReaders(d, s, sha1);
    }
  }

  lemma FreshOk(hash: Hash, fileSize: nat, sha1: Sha1)
    ensures Ok(Fresh(hash, fileSize), sha1)
  {
  }

  // -------------------------------------------------------------------- runs

  ghost predicate Possible(d: Download, steps: seq<Step>, sha1: Sha1)
    decreases |steps|
  {
    steps != [] ==> Enabled(d, steps[0], sha1) && Possible(Do(d, steps[0], sha1), steps[1..], sha1)
  }

  ghost function After(d: Download, steps: seq<Step>, sha1: Sha1): Download
    requires Possible(d, steps, sha1)
    decreases |steps|
  {
    if steps == [] then d else After(Do(d, steps[0], sha1), steps[1..], sha1)
  }

  /**
    Every interleaving of the worker, the file system and the readers keeps the invariant: no
    slice index goes below zero, the temp file is append-only, and nothing hashed is unhashed.
   */
  lemma {:induction false} RunKeepsOk(d: Download, steps: seq<Step>, sha1: Sha1)
    requires Ok(d, sha1) && Possible(d, steps, sha1)
    ensures Ok(After(d, steps, sha1), sha1) && !After(d, steps, sha1).phase.Panicked?
    ensures d.file <= After(d, steps, sha1).file && d.hashed <= After(d, steps, sha1).hashed
    decreases |steps|
  {
    hide Ok, Do, Enabled;
    if steps != [] {
      StepKeepsOk(d, steps[0], sha1);
      RunKeepsOk(Do(d, steps[0], sha1), steps[1..], sha1);
    }
    OkNotPanicked(After(d, steps, sha1), sha1);
  }

  lemma OkNotPanicked(d: Download, sha1: Sha1)
    requires Ok(d, sha1)
    ensures !d.phase.Panicked?
  {
  }

  /** A chunk continues the source's content where the previous chunk of the attempt ended. */
  predicate Serves(d: Download, s: Step, content: seq<Byte>) {
    s.Receives? && d.phase.Streaming? ==>
      d.phase.download + |s.bytes| <= |content| && s.bytes == content[d.phase.download..d.phase.download + |s.bytes|]
  }

  ghost predicate ServesAll(d: Download, steps: seq<Step>, sha1: Sha1, content: seq<Byte>)
    requires Possible(d, steps, sha1)
    decreases |steps|
  {
    steps != [] ==> Serves(d, steps[0], content) && ServesAll(Do(d, steps[0], sha1), steps[1..], sha1, content)
  }

  /** Everything accepted so far is a beginning of the content. */
  ghost predicate Prefix(d: Download, content: seq<Byte>) {
    d.hashed + InFlight(d.phase) <= content
  }

  lemma ReceivingKeepsPrefix(d: Download, bytes: seq<Byte>, sha1: Sha1, content: seq<Byte>)
    requires WorkerOk(d, sha1) && d.phase.Streaming? && Serves(d, Receives(bytes), content) && Prefix(d, content)
    ensures Prefix(Received(d, bytes), content)
  {
    hide Flat, Abutting;
    var download := d.phase.download + |bytes|;
    if download > d.progress {
      var data := bytes[|bytes| - (download - d.progress)..];
      assert data == content[d.progress..download];
      assert d.hashed == content[..d.progress];
      assert d.hashed + data == content[..download];
    }
  }

  lemma OtherStepsKeepPrefix(d: Download, s: Step, sha1: Sha1, content: seq<Byte>)
    requires Enabled(d, s, sha1) && !s.Receives? && !s.WriteSucceeds? && Prefix(d, content)
    ensures Prefix(Do(d, s, sha1), content)
  {
    var end := Do(d, s, sha1);
    assert end.hashed == d.hashed;
    assert InFlight(end.phase) == InFlight(d.phase) || InFlight(end.phase) == [];
  }

  lemma StepKeepsPrefix(d: Download, s: Step, sha1: Sha1, content: seq<Byte>)
    requires Ok(d, sha1) && Enabled(d, s, sha1) && Serves(d, s, content) && Prefix(d, content)
    ensures Prefix(Do(d, s, sha1), content)
  {
    hide ReadersOk, Flat, Abutting;
    if s.Receives? {
      ReceivingKeepsPrefix(d, s.bytes, sha1, content);
    } else if s.WriteSucceeds? {
      assert d.hashed + d.phase.data + [] == d.hashed + d.phase.data;
    } else {
      OtherStepsKeepPrefix(d, s, sha1, content);
    }
  }

  /**
    Resumption is seamless: over any attempts, chunk sizes and failures, if all sources serve the
    same content then the hashed bytes and the temp file are beginnings of it, with nothing
    skipped or repeated.
   */
  lemma {:induction false} ResumedDownloadIsSeamless(d: Download, steps: seq<Step>, sha1: Sha1,
                                                     content: seq<Byte>)
    requires Ok(d, sha1) && Possible(d, steps, sha1) && ServesAll(d, steps, sha1, content) && Prefix(d, content)
    ensures var end := After(d, steps, sha1);
            && end.progress <= |content| && end.hashed == content[..end.progress]
            && end.file <= content
            && Prefix(end, content)
    decreases |steps|
  {
    if steps == [] {
      FileWithin(d, sha1, content);
    } else {
      hide Ok, Do, Enabled, Prefix;
      StepKeepsOk(d, steps[0], sha1);
      StepKeepsPrefix(d, steps[0], sha1, content);
      ResumedDownloadIsSeamless(Do(d, steps[0], sha1), steps[1..], sha1, content);
    }
  }

  lemma FileWithin(d: Download, sha1: Sha1, content: seq<Byte>)
    requires Ok(d, sha1) && Prefix(d, content)
    ensures d.progress <= |content| && d.hashed == content[..d.progress] && d.file <= content
  {
  }

  // ------------------------------------------------------- readers and import

  /**
    Whatever the interleaving, and however far a reader raced ahead of the published progress, it
    has sent exactly the first `readOff` bytes of the temp file; one that left by the end-of-file
    break has sent exactly the first `fileSize` bytes.
   */
  lemma ReadersSendTheFile(d: Download, steps: seq<Step>, sha1: Sha1, id: nat)
    requires Ok(d, sha1) && Possible(d, steps, sha1) && id in After(d, steps, sha1).readers
    ensures var end := After(d, steps, sha1);
            var r := end.readers[id];
            && Out(r) <= end.file
            && (r.Reading? ==> r.readOff <= |end.file| && r.out == end.file[..r.readOff])
            && (r.Finished? ==> d.fileSize <= |end.file| && r.out == end.file[..d.fileSize])
  {
    hide Do, Enabled, WorkerOk;
    RunKeepsOk(d, steps, sha1);
    FileSizeFixed(d, steps, sha1);
    var end := After(d, steps, sha1);
    assert ReaderOk(end.readers[id], end.file, end.fileSize);
  }

  /** If the sources serve a content of the promised size, a finished reader sent the content. */
  lemma FinishedReaderSentTheContent(d: Download, steps: seq<Step>, sha1: Sha1, content: seq<Byte>,
                                     id: nat)
    requires Ok(d, sha1) && Possible(d, steps, sha1)
    requires ServesAll(d, steps, sha1, content) && Prefix(d, content) && |content| == d.fileSize
    requires id in After(d, steps, sha1).readers && After(d, steps, sha1).readers[id].Finished?
    ensures After(d, steps, sha1).readers[id].out == content
  {
    hide Do, Enabled, Ok;
    ReadersSendTheFile(d, steps, sha1, id);
    ResumedDownloadIsSeamless(d, steps, sha1, content);
  }

  lemma {:induction false} FileSizeFixed(d: Download, steps: seq<Step>, sha1: Sha1)
    requires Possible(d, steps, sha1)
    ensures After(d, steps, sha1).fileSize == d.fileSize && After(d, steps, sha1).hash == d.hash
    decreases |steps|
  {
    if steps != [] {
      FileSizeFixed(Do(d, steps[0], sha1), steps[1..], sha1);
    }
  }

  lemma VisibleProgress(d: Download, sha1: Sha1)
    requires WorkerOk(d, sha1) && d.pending == []
    ensures d.published == |d.hashed| <= |d.file| && d.file[..d.published] == d.hashed
  {
    assert d.file + Flat(d.pending) == d.file;
  }

  /** Reads of the given sizes, one after the other. */
  function ReadSteps(id: nat, sizes: seq<nat>): seq<Step> {
    if sizes == [] then [] else [Reads(id, sizes[0])] + ReadSteps(id, sizes[1..])
  }

  function Sum(sizes: seq<nat>): nat {
    if sizes == [] then 0 else sizes[0] + Sum(sizes[1..])
  }

  /** Where a reader that has seen progress `published` goes: to the end of the file if that is still ahead. */
  function Target(readOff: nat, fileSize: nat, published: nat): nat {
    if readOff < fileSize < published then fileSize else published
  }

  lemma FirstStep(d: Download, first: Step, rest: seq<Step>, sha1: Sha1)
    requires Enabled(d, first, sha1) && Possible(Do(d, first, sha1), rest, sha1)
    ensures Possible(d, [first] + rest, sha1)
    ensures After(d, [first] + rest, sha1) == After(Do(d, first, sha1), rest, sha1)
  {
    hide Do, Enabled;
    assert ([first] + rest)[1..] == rest;
  }

  /** One read leaves the reader that many bytes further on in the same file. */
  lemma OneRead(d: Download, id: nat, n: nat, sha1: Sha1)
    requires id in d.readers && d.readers[id].Reading? && ReaderOk(d.readers[id], d.file, d.fileSize)
    requires d.readers[id].readOff < d.readers[id].writeOff && 0 < n && d.readers[id].readOff + n <= |d.file|
    ensures Enabled(d, Reads(id, n), sha1)
    ensures var r, end := d.readers[id], Do(d, Reads(id, n), sha1);
            && end.file == d.file && end.fileSize == d.fileSize && id in end.readers
            && var r' := end.readers[id];
            && Out(r') == d.file[..r.readOff + n]
            && (if r.readOff + n == d.fileSize then r'.Finished?
                else r'.Reading? && r'.readOff == r.readOff + n && r'.writeOff == r.writeOff)
  {
    var r := d.readers[id];
    assert r.out + d.file[r.readOff..r.readOff + n] == d.file[..r.readOff + n];
  }

  lemma OneRefresh(d: Download, id: nat, sha1: Sha1)
    requires id in d.readers && d.readers[id].Reading? && ReadersOk(d)
    ensures Enabled(d, Refreshes(id), sha1)
    ensures var end := Do(d, Refreshes(id), sha1);
            && end.file == d.file && end.fileSize == d.fileSize
            && id in end.readers && end.readers[id] == d.readers[id].(writeOff := d.published)
            && ReaderOk(end.readers[id], d.file, d.fileSize)
  {
    assert ReaderOk(d.readers[id], d.file, d.fileSize);
  }

  lemma {:induction false} ReadsInChunks(d: Download, id: nat, sizes: seq<nat>, target: nat, sha1: Sha1)
    requires id in d.readers && d.readers[id].Reading? && ReaderOk(d.readers[id], d.file, d.fileSize)
    requires sizes != [] && (forall i :: 0 <= i < |sizes| ==> sizes[i] > 0)
    requires d.readers[id].readOff + Sum(sizes) == target <= |d.file| && target <= d.readers[id].writeOff
    requires d.fileSize <= d.readers[id].readOff || target <= d.fileSize
    ensures Possible(d, ReadSteps(id, sizes), sha1)
    ensures var end := After(d, ReadSteps(id, sizes), sha1);
            && id in end.readers && Out(end.readers[id]) == d.file[..target]
            && (end.readers[id].Finished? <==> target == d.fileSize)
    decreases |sizes|
  {
    hide Do, Enabled;
    var n, rest := sizes[0], sizes[1..];
    OneRead(d, id, n, sha1);
    var next := Do(d, Reads(id, n), sha1);
    if rest == [] {
      assert ReadSteps(id, rest) == [];
    } else {
      assert rest[0] > 0;
      ReadsInChunks(next, id, rest, target, sha1);
    }
    FirstStep(d, Reads(id, n), ReadSteps(id, rest), sha1);
  }

  /**
    Readers never get stuck: once the written bytes are visible, a reader that looks at the published progress
    can read up to it, or to the end of the file before it, in pieces of any sizes; it then has sent everything
    up to there, and has left by the end-of-file break exactly if that is the promised size.
   */
  lemma ReaderCanCatchUp(d: Download, id: nat, sizes: seq<nat>, sha1: Sha1)
    requires Ok(d, sha1) && d.pending == [] && id in d.readers && d.readers[id].Reading?
    requires d.readers[id].readOff < d.published && (forall i :: 0 <= i < |sizes| ==> sizes[i] > 0)
    requires d.readers[id].readOff + Sum(sizes) == Target(d.readers[id].readOff, d.fileSize, d.published)
    ensures var steps := [Refreshes(id)] + ReadSteps(id, sizes);
            var target := Target(d.readers[id].readOff, d.fileSize, d.published);
            && Possible(d, steps, sha1) && id in After(d, steps, sha1).readers && target <= |d.hashed|
            && var r := After(d, steps, sha1).readers[id];
            && Out(r) == d.hashed[..target]
            && (r.Finished? <==> target == d.fileSize)
  {
    hide WorkerOk, Possible, After, Do, Enabled, ReaderOk;
    VisibleProgress(d, sha1);
    OneRefresh(d, id, sha1);
    var r, next := d.readers[id], Do(d, Refreshes(id), sha1);
    var target := Target(r.readOff, d.fileSize, d.published);
    assert Sum(sizes) > 0;
    ReadsInChunks(next, id, sizes, target, sha1);
    FirstStep(d, Refreshes(id), ReadSteps(id, sizes), sha1);
    assert d.file[..target] == d.file[..d.published][..target];
  }

  /** How often the worker tried to open the temp file for an attempt. */
  function Tries(steps: seq<Step>): nat {
    if steps == [] then 0 else (if steps[0].Opens? || steps[0].OpenFails? then 1 else 0) + Tries(steps[1..])
  }

  /** The attempts that can still begin. */
  function AttemptsLeft(d: Download): nat
    requires d.retry <= ATTEMPTS && (InLoop(d.phase) ==> d.retry < ATTEMPTS)
  {
    match d.phase
    case Preparing => ATTEMPTS - d.retry
    case Opening => ATTEMPTS - d.retry
    case Requesting => ATTEMPTS - d.retry - 1
    case Streaming(_) => ATTEMPTS - d.retry - 1
    case Writing(_, _) => ATTEMPTS - d.retry - 1
    case _ => 0
  }

  lemma StepSpendsAttempts(d: Download, s: Step, sha1: Sha1)
    requires WorkerOk(d, sha1) && Enabled(d, s, sha1) && WorkerOk(Do(d, s, sha1), sha1)
    ensures Tries([s]) + AttemptsLeft(Do(d, s, sha1)) <= AttemptsLeft(d)
  {
    hide Flat, Abutting;
    assert [s][1..] == [];
  }

  /** No run from a new download makes more than three attempts. */
  lemma {:induction false} AtMostThreeAttempts(d: Download, steps: seq<Step>, sha1: Sha1)
    requires WorkerOk(d, sha1) && Possible(d, steps, sha1)
    ensures Tries(steps) <= AttemptsLeft(d) <= 3
    decreases |steps|
  {
    if steps != [] {
      hide WorkerOk, Do, Enabled;
      StepKeepsWorker(d, steps[0], sha1);
      StepSpendsAttempts(d, steps[0], sha1);
      AtMostThreeAttempts(Do(d, steps[0], sha1), steps[1..], sha1);
      assert Tries(steps) == Tries([steps[0]]) + Tries(steps[1..]);
    }
  }

  /**
    The import gate: what is imported is exactly `fileSize` bytes with the expected digest, every
    byte of it went through the hasher, every reader that finished sent these very bytes, and no
    receiver that subscribed before the entry's removal is left.
   */
  lemma ImportGate(d: Download, sha1: Sha1)
    requires Ok(d, sha1) && (d.phase.Importing? || d.phase.Imported?)
    ensures |d.file| == d.fileSize && sha1(d.file) == d.hash && d.file == d.hashed
    ensures forall id :: id in d.readers && Live(d.readers[id]) ==> !d.readers[id].early
    ensures forall id :: id in d.readers && d.readers[id].Finished? ==> d.readers[id].out == d.file
  {
    assert d.file + Flat(d.pending) == d.file && d.hashed + InFlight(d.phase) == d.hashed;
    forall id | id in d.readers && d.readers[id].Finished?
      ensures d.readers[id].out == d.file
    {
      assert ReaderOk(d.readers[id], d.file, d.fileSize);
    }
  }
}
