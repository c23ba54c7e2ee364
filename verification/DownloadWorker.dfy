/**
  The download worker as the loop it is: up to three attempts, each skipping what was
  already received. Every iteration is shown to be a run of the download machine, so the
  machine's guarantees are the loop's.
 */
module DownloadWorker {
  import opened Common
  import opened FileId
  import opened D = Download
  import Ending = DownloadEnding

  /** What a source does in one attempt. */
  datatype Chunk = Bytes(bytes: seq<Byte>) | Broken

  /** How a write ends: in full, or with an error after at most `n` bytes. */
  datatype WriteEnd = Written | Short(n: nat)

  /** The environment of one attempt: does the file open, does the source respond, how do writes end. */
  datatype Attempt = Attempt(opens: bool, responds: bool, chunks: seq<Chunk>, writes: nat -> WriteEnd, flushes: bool)

  datatype Verdict = Retry | Complete | GaveUp

  /** The bytes an attempt hands over before its connection breaks. */
  function Delivered(chunks: seq<Chunk>): seq<Byte> {
    if chunks == [] || chunks[0].Broken? then [] else chunks[0].bytes + Delivered(chunks[1..])
  }

  /** Disk operations of the attempt succeed. */
  ghost predicate Smooth(a: Attempt) {
    a.flushes && forall i :: a.writes(i) == Written
  }

  /** The attempt delivers all of `content`. */
  predicate Delivers(a: Attempt, content: seq<Byte>) {
    a.opens && a.responds && Broken !in a.chunks && Delivered(a.chunks) == content
  }

  function Max(a: nat, b: nat): nat {
    if a <= b then b else a
  }

  class Worker {
    const hash: Hash
    const fileSize: nat
    const sha1: Sha1
    var progress: nat
    var hashed: seq<Byte>
    var file: seq<Byte>
    var published: nat

    ghost const start: Download
    ghost const content: seq<Byte>
    ghost var machine: Download
    ghost var steps: seq<Step>

    /** The variables are those of the machine after `steps`. */
    ghost predicate Synced()
      reads this
    {
      && Possible(start, steps, sha1) && machine == After(start, steps, sha1) && Ok(machine, sha1)
      && machine.fileSize == fileSize && machine.progress == progress && machine.hashed == hashed
      && machine.file == file && machine.published == published
      && start.hash == hash && machine.readers == map[]
    }

    /** Between steps every write has landed, unless one failed. */
    ghost predicate Valid()
      reads this
    {
      Synced() && (machine.phase.Stopped? || machine.pending == [])
    }

    constructor (hash: Hash, fileSize: nat, sha1: Sha1, ghost content: seq<Byte>)
      ensures Valid() && this.hash == hash && this.fileSize == fileSize && this.sha1 == sha1
      ensures start == Fresh(hash, fileSize)
      ensures this.content == content && Prefix(machine, content)
      ensures machine.phase == Opening && machine.retry == 0
    {
      this.hash := hash;
      this.fileSize := fileSize;
      this.sha1 := sha1;
      this.content := content;
      progress, hashed, file, published := 0, [], [], 0;
      start := Fresh(hash, fileSize);
      machine := Do(Fresh(hash, fileSize), Spawn, sha1);
      steps := [Spawn];
      new;
      FreshOk(hash, fileSize, sha1);
      StepKeepsOk(start, Spawn, sha1);
      assert After(Do(start, Spawn, sha1), [Spawn][1..], sha1) == machine;
    }

    /** Lets the machine follow with one step. */
    ghost method Take(s: Step)
      requires Possible(start, steps, sha1) && machine == After(start, steps, sha1) && Ok(machine, sha1)
      requires Enabled(machine, s, sha1)
      modifies this`machine, this`steps
      ensures Possible(start, steps, sha1) && machine == After(start, steps, sha1) && Ok(machine, sha1)
      ensures machine == Do(old(machine), s, sha1) && steps == old(steps) + [s]
      ensures Prefix(old(machine), content) && Serves(old(machine), s, content) ==> Prefix(machine, content)
    {
      hide Ok, Do, Enabled, Prefix, Serves;
      if Prefix(machine, content) && Serves(machine, s, content) {
        StepKeepsPrefix(machine, s, sha1, content);
      }
      RunSnoc(start, steps, s, sha1);
      StepKeepsOk(machine, s, sha1);
      machine := Do(machine, s, sha1);
      steps := steps + [s];
    }

    /** One chunk: skips the bytes received before, writes and hashes the rest, publishes. */
    method Receive(bytes: seq<Byte>, download: nat, filePos: nat, end: WriteEnd)
      returns (total: nat, pos: nat, ok: bool)
      requires Valid() && machine.phase == Streaming(download) && machine.filePos == filePos
      modifies this
      ensures Valid() && total == download + |bytes| && machine.retry == old(machine.retry)
      ensures ok ==> machine.phase == Streaming(total) && machine.filePos == pos
      ensures ok ==> progress == Max(old(progress), total)
      ensures !ok ==> machine.phase.Stopped? && end.Short?
      ensures Prefix(old(machine), content) && total <= |content| && bytes == content[download..total] ==>
                Prefix(machine, content)
    {
      hide Ok, Possible, After, WriteAt, Do, Enabled, Prefix;
      total, pos, ok := download + |bytes|, filePos, true;
      StreamingFacts(machine, sha1);
      InStreaming(machine, bytes, sha1);
      Take(Receives(bytes));
      if total <= progress {
        return;
      }
      var writeSize := total - progress;
      var first := |bytes| - writeSize;
      var data := bytes[first..];
      ok := WriteAll(data, total, pos, end);
      pos := if ok then pos + writeSize else pos;
    }

    /** Writes the new bytes; only a full write is hashed, counted and published. */
    method WriteAll(data: seq<Byte>, download: nat, pos: nat, end: WriteEnd) returns (ok: bool)
      requires Synced() && machine.phase == Writing(data, download) && machine.pending == [Write(pos, data)]
      modifies this
      ensures Valid() && machine.retry == old(machine.retry)
      ensures ok <==> end.Written?
      ensures ok ==> machine.phase == Streaming(download) && machine.filePos == old(machine.filePos)
                     && progress == old(progress) + |data|
      ensures !ok ==> machine.phase.Stopped?
      ensures Prefix(old(machine), content) ==> Prefix(machine, content)
    {
      hide Ok, Possible, After, WriteAt, Do, Enabled, Prefix;
      var n := if end.Written? then |data| else Min(end.n, |data|);
      assert data[..|data|] == data;
      InLanding(machine, n, sha1);
      Take(Lands(n));
      file := WriteAt(file, pos, data[..n]);
      InWriting(machine, sha1);
      if end.Short? {
        Take(WriteFails);
        return false;
      }
      Take(WriteSucceeds);
      hashed := hashed + data;
      progress := progress + |data|;
      published := progress;
      return true;
    }

    /** Consumes the response: to its end, to a broken connection, or to a failed write. */
    method ReceiveAll(a: Attempt, filePos: nat) returns (verdict: Verdict)
      requires Valid() && machine.phase == Streaming(0) && machine.filePos == filePos
      modifies this
      ensures Valid() && machine.retry == old(machine.retry)
      ensures if verdict == GaveUp then machine.phase.Stopped? && !Smooth(a) else machine.phase.Streaming?
      ensures verdict == Retry ==> Broken in a.chunks
      ensures verdict == Complete ==> progress == Max(old(progress), |Delivered(a.chunks)|)
      ensures Prefix(old(machine), content) && Delivered(a.chunks) <= content ==> Prefix(machine, content)
    {
      hide Ok, Possible, After, Do, Enabled, Prefix, Delivered;
      var download: nat, pos: nat := 0, filePos;
      var i := 0;
      ghost var all := Delivered(a.chunks);
      assert a.chunks[0..] == a.chunks;
      while i < |a.chunks|
        invariant Valid() && machine.phase == Streaming(download) && machine.filePos == pos
        invariant machine.retry == old(machine.retry) && i <= |a.chunks|
        invariant download <= |all| && all[download..] == Delivered(a.chunks[i..])
        invariant progress == Max(old(progress), download)
        invariant Prefix(old(machine), content) && all <= content ==> Prefix(machine, content)
      {
        DeliveredStep(a.chunks, i);
        if a.chunks[i].Broken? {
          return Retry;
        }
        var ok;
        ghost var from, bytes := download, a.chunks[i].bytes;
        assert all[from..from + |bytes|] == bytes && all[from..][|bytes|..] == all[from + |bytes|..];
        assert all <= content ==> all[from..from + |bytes|] == content[from..from + |bytes|];
        download, pos, ok := Receive(a.chunks[i].bytes, download, pos, a.writes(i));
        if !ok {
          return GaveUp;
        }
        i := i + 1;
      }
      NothingMore(a.chunks);
      return Complete;
    }

    /** Opens the temp file at the progress made so far and asks a source. */
    method Connect(a: Attempt) returns (ok: bool)
      requires Valid() && machine.phase == Opening && machine.retry < ATTEMPTS
      modifies this
      ensures Valid()
      ensures ok ==> machine.phase == Streaming(0) && machine.filePos == progress && machine.retry == old(machine.retry)
      ensures !ok ==> machine.retry == old(machine.retry) + 1
                      && machine.phase == if machine.retry < ATTEMPTS then Opening else Stopped([])
      ensures ok <==> a.opens && a.responds
      ensures progress == old(progress) && (Prefix(old(machine), content) ==> Prefix(machine, content))
    {
      hide Ok, Possible, After, WriteAt, Do, Enabled, Prefix;
      InOpening(machine, sha1);
      if !a.opens {
        Take(OpenFails);
        return false;
      }
      Take(Opens);
      InRequesting(machine, sha1);
      if !a.responds {
        Take(RequestFails);
        return false;
      }
      Take(RequestSucceeds);
      return true;
    }

    /** One pass of the retry loop. */
    method TryOnce(a: Attempt) returns (verdict: Verdict)
      requires Valid() && machine.phase == Opening && machine.retry < ATTEMPTS
      modifies this
      ensures Valid()
      ensures verdict == Retry ==> machine.retry == old(machine.retry) + 1
                                   && machine.phase == if machine.retry < ATTEMPTS then Opening else Stopped([])
      ensures verdict == Complete ==> machine.phase == Closing
      ensures verdict == GaveUp ==> machine.phase.Stopped? && !Smooth(a)
      ensures Prefix(old(machine), content) && Delivered(a.chunks) <= content ==> Prefix(machine, content)
      ensures a.opens && a.responds && Broken !in a.chunks && Smooth(a)
              && Max(old(progress), |Delivered(a.chunks)|) == fileSize ==>
                verdict == Complete
    {
      hide Ok, Possible, After, WriteAt, Do, Enabled, Prefix, Delivered;
      var ok := Connect(a);
      if !ok {
        return Retry;
      }
      verdict := ReceiveAll(a, progress);
      if verdict == GaveUp {
        return;
      }
      InStreaming(machine, [], sha1);
      if verdict == Retry {
        Take(ReceiveFails);
        return;
      }
      Take(StreamEnds);
      if progress != fileSize {
        return Retry;
      }
      InFlushing(machine, sha1);
      if !a.flushes {
        Take(FlushFails);
        return GaveUp;
      }
      Take(FlushSucceeds);
      published := progress;
      return Complete;
    }

    /**
      The whole loop. Its variables are those of a run of the download machine. If every source
      serves a beginning of the content, so does the file; and if moreover the disk works and one
      of the three attempts delivers the content, the loop ends with exactly the content.
     */
    method Run(attempts: nat -> Attempt) returns (complete: bool)
      requires Valid() && machine.phase == Opening && machine.retry == 0 && Prefix(machine, content)
      modifies this
      ensures Valid()
      ensures Honest(attempts, content) ==> file <= content && progress <= |content| && hashed == content[..progress]
      ensures Honest(attempts, content) && AllSmooth(attempts) && SomeDelivers(attempts, content)
              && |content| == fileSize ==>
                complete && file == content
      ensures complete ==> machine.phase == Closing && |file| == fileSize && file == hashed
      ensures !complete ==> machine.phase.Stopped?
    {
      hide Ok, Possible, After, Prefix;
      var retry := 0;
      while retry < ATTEMPTS
        invariant Valid() && machine.retry == retry <= ATTEMPTS
        invariant machine.phase == if retry < ATTEMPTS then Opening else Stopped([])
        invariant Honest(attempts, content) ==> Prefix(machine, content)
        invariant Honest(attempts, content) && AllSmooth(attempts) && |content| == fileSize ==>
                    forall i :: 0 <= i < retry ==> !Delivers(attempts(i), content)
      {
        if Honest(attempts, content) {
          FileWithin(machine, sha1, content);
        }
        var verdict := TryOnce(attempts(retry));
        if verdict != Retry {
          complete := verdict == Complete;
          if complete {
            CompleteFile(machine, sha1);
          }
          if Honest(attempts, content) {
            FileWithin(machine, sha1, content);
          }
          return;
        }
        retry := retry + 1;
      }
      if Honest(attempts, content) {
        FileWithin(machine, sha1, content);
      }
      return false;
    }

    /**
      The whole task: the loop, and after a complete file the waits, the digest check and the import. What is
      imported has the promised size and digest; and if one of the three attempts delivers the content and the disk
      works, the content is imported exactly when it has the expected digest.
     */
    method Fetch(attempts: nat -> Attempt) returns (imported: bool)
      requires Valid() && machine.phase == Opening && machine.retry == 0 && Prefix(machine, content)
      modifies this
      ensures Valid()
      ensures if imported then machine.phase.Imported? else machine.phase.Stopped?
      ensures imported ==> |file| == fileSize && sha1(file) == hash && machine.removed
      ensures Honest(attempts, content) && AllSmooth(attempts) && SomeDelivers(attempts, content)
              && |content| == fileSize ==>
                file == content && (imported <==> sha1(content) == hash)
    {
      hide Ok, Possible, After, Prefix, Do, Enabled, Honest, AllSmooth, SomeDelivers;
      var complete := Run(attempts);
      if !complete {
        return false;
      }
      FileSizeFixed(start, steps, sha1);
      Ending.InClosing(machine, sha1);
      Take(ReceiversGone);
      imported := sha1(hashed) == hash;
      Ending.InRemoving(machine, sha1);
      Take(RemovesEntry(imported));
      if imported {
        Ending.InClosing(machine, sha1);
        Take(ReceiversGone);
        Ending.InImporting(machine, sha1);
        Take(Imports);
      }
    }
  }

  /** Every attempt serves a beginning of the content. */
  ghost predicate Honest(attempts: nat -> Attempt, content: seq<Byte>) {
    forall i :: 0 <= i < 3 ==> Delivered(attempts(i).chunks) <= content
  }

  ghost predicate SomeDelivers(attempts: nat -> Attempt, content: seq<Byte>) {
    exists i :: 0 <= i < 3 && Delivers(attempts(i), content)
  }

  ghost predicate AllSmooth(attempts: nat -> Attempt) {
    forall i :: 0 <= i < 3 ==> Smooth(attempts(i))
  }

  lemma DeliveredStep(chunks: seq<Chunk>, i: nat)
    requires i < |chunks|
    ensures Delivered(chunks[i..]) == if chunks[i].Broken? then [] else chunks[i].bytes + Delivered(chunks[i + 1..])
  {
  }

  lemma NothingMore(chunks: seq<Chunk>)
    ensures Delivered(chunks[|chunks|..]) == []
  {
  }

  // The steps of each phase, one phase at a time.

  lemma InOpening(d: Download, sha1: Sha1)
    requires d.phase.Opening? && d.retry < ATTEMPTS
    ensures Enabled(d, OpenFails, sha1) && Do(d, OpenFails, sha1) == NextAttempt(d)
    ensures Enabled(d, Opens, sha1) && Do(d, Opens, sha1) == d.(phase := Requesting, filePos := d.progress)
  {
  }

  lemma InRequesting(d: Download, sha1: Sha1)
    requires d.phase.Requesting?
    ensures Enabled(d, RequestFails, sha1) && Do(d, RequestFails, sha1) == NextAttempt(d)
    ensures Enabled(d, RequestSucceeds, sha1) && Do(d, RequestSucceeds, sha1) == d.(phase := Streaming(0))
  {
  }

  lemma InStreaming(d: Download, bytes: seq<Byte>, sha1: Sha1)
    requires d.phase.Streaming?
    ensures Enabled(d, Receives(bytes), sha1) && Do(d, Receives(bytes), sha1) == Received(d, bytes)
    ensures Enabled(d, ReceiveFails, sha1) && Do(d, ReceiveFails, sha1) == NextAttempt(d)
    ensures Enabled(d, StreamEnds, sha1)
    ensures Do(d, StreamEnds, sha1) == if d.progress == d.fileSize then d.(phase := Flushing) else NextAttempt(d)
  {
  }

  lemma InLanding(d: Download, n: nat, sha1: Sha1)
    requires d.pending != [] && n <= |d.pending[0].data|
    ensures Enabled(d, Lands(n), sha1) && Do(d, Lands(n), sha1) == Landed(d, n)
  {
  }

  lemma InWriting(d: Download, sha1: Sha1)
    requires d.phase.Writing?
    ensures Enabled(d, WriteFails, sha1) && Do(d, WriteFails, sha1) == d.(phase := Stopped(d.phase.data))
    ensures Enabled(d, WriteSucceeds, sha1)
    ensures Do(d, WriteSucceeds, sha1) ==
            d.(phase := Streaming(d.phase.download), hashed := d.hashed + d.phase.data,
               progress := d.progress + |d.phase.data|, published := d.progress + |d.phase.data|)
  {
  }

  lemma InFlushing(d: Download, sha1: Sha1)
    requires d.phase.Flushing? && d.pending == []
    ensures Enabled(d, FlushFails, sha1) && Do(d, FlushFails, sha1) == d.(phase := Stopped([]))
    ensures Enabled(d, FlushSucceeds, sha1)
    ensures Do(d, FlushSucceeds, sha1) == d.(phase := Closing, published := d.progress)
  {
  }

  lemma StreamingFacts(d: Download, sha1: Sha1)
    requires Ok(d, sha1) && d.phase.Streaming?
    ensures d.phase.download <= d.progress && d.filePos == d.progress
  {
  }

  lemma CompleteFile(d: Download, sha1: Sha1)
    requires Ok(d, sha1) && d.phase == Closing
    ensures d.file == d.hashed && |d.file| == d.fileSize
  {
    assert d.file + Flat(d.pending) == d.file && d.hashed + InFlight(d.phase) == d.hashed;
  }

  lemma {:induction false} RunSnoc(d: Download, steps: seq<Step>, s: Step, sha1: Sha1)
    requires Possible(d, steps, sha1) && Enabled(After(d, steps, sha1), s, sha1)
    ensures Possible(d, steps + [s], sha1)
    ensures After(d, steps + [s], sha1) == Do(After(d, steps, sha1), s, sha1)
    decreases |steps|
  {
    hide Do, Enabled;
    if steps == [] {
      assert steps + [s] == [s] && [s][1..] == [];
    } else {
      RunSnoc(Do(d, steps[0], sha1), steps[1..], s, sha1);
      assert (steps + [s])[1..] == steps[1..] + [s];
    }
  }
}
