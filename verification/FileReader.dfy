/**
  The asynchronous file reader: its file travels into a background task and back, so the
  state is taken and replaced around every read.
 */
module FileReader {
  import opened Common

  /** What polling a stream or body can give. */
  datatype Poll = Pending | Done | Data(bytes: seq<Byte>) | Trailers | Failed

  /** The payload of a run of polls; nothing counts after the end. */
  function Payload(polls: seq<Poll>): seq<Byte> {
    if polls == [] || polls[0].Done? then []
    else (if polls[0].Data? then polls[0].bytes else []) + Payload(polls[1..])
  }

  /** Nothing is polled after the end. */
  predicate Ended(polls: seq<Poll>) {
    forall i :: 0 <= i < |polls| - 1 ==> !polls[i].Done?
  }

  lemma {:induction false} PayloadAppend(polls: seq<Poll>, last: Poll)
    requires Done !in polls
    ensures Payload(polls + [last]) == Payload(polls) + (if last.Data? then last.bytes else [])
  {
    if polls == [] {
      assert polls + [last] == [last];
      assert Payload([last][1..]) == [];
    } else {
      PayloadAppend(polls[1..], last);
      assert (polls + [last])[1..] == polls[1..] + [last];
    }
  }

  /** One more poll of a stream that has given `content[start..pos]` so far. */
  lemma StreamStep(content: seq<Byte>, start: nat, pos: nat, next: nat, polls: seq<Poll>, poll: Poll)
    requires start <= pos <= next <= |content| && Done !in polls && Payload(polls) == content[start..pos]
    requires if poll.Data? then poll.bytes == content[pos..next] else next == pos
    ensures Payload(polls + [poll]) == content[start..next]
    ensures Ended(polls + [poll])
  {
    PayloadAppend(polls, poll);
  }

  lemma StreamStart(content: seq<Byte>, start: nat)
    requires start <= |content|
    ensures Payload([]) == content[start..start] && Ended([])
  {
  }

  lemma StreamPrefix(content: seq<Byte>, start: nat, pos: nat)
    requires start <= pos <= |content|
    ensures content[start..pos] <= content[start..]
    ensures pos == |content| ==> content[start..pos] == content[start..]
  {
  }

  /** How a background task ends: it asks for up to `wish` bytes, fails, or is lost with its file. */
  datatype Outcome = Ok(wish: nat) | IoError | JoinError

  /**
    `Idle` holds the file, `Taken` lost it inside an awaited read or seek, `Future` is a running task, and
    `Finished` a task that was lost while it was polled: its handle has given its answer.
   */
  datatype ReaderState = Idle(pos: nat) | Taken | Future(pos: nat) | Finished

  datatype Result<T> = Success(value: T) | Failure

  /** A read gives at most the capacity and what is left, and nothing only at the end of the file. */
  function Served(wish: nat, capacity: nat, left: nat): (n: nat)
    ensures n <= left && (capacity > 0 ==> n <= capacity)
    ensures n == 0 ==> left == 0 || capacity == 0
    ensures 1 <= wish <= Min(capacity, left) ==> n == wish
  {
    var most := Min(capacity, left);
    if wish == 0 then Min(1, most) else Min(wish, most)
  }

  /** No background task fails. */
  ghost predicate Healthy(io: nat -> (bool, Outcome)) {
    forall i :: io(i).1.Ok?
  }

  lemma HealthyAt(io: nat -> (bool, Outcome), i: nat)
    ensures Healthy(io) ==> io(i).1.Ok?
  {
  }

  /** How many of the first `n` polls find their task finished. */
  function ReadyPolls(io: nat -> (bool, Outcome), n: nat): nat {
    if n == 0 then 0 else ReadyPolls(io, n - 1) + if io(n - 1).0 then 1 else 0
  }

  class FileReader {
    const content: seq<Byte>
    const capacity: nat
    var state: ReaderState

    constructor (content: seq<Byte>, capacity: nat)
      ensures this.content == content && this.capacity == capacity && state == Idle(0)
    {
      this.content := content;
      this.capacity := capacity;
      state := Idle(0);
    }

    /** The bytes a read at `pos` gives. */
    function Chunk(pos: nat, wish: nat): (bytes: seq<Byte>)
      ensures pos < |content| && capacity > 0 ==> bytes != []
      ensures pos <= |content| ==> pos + |bytes| <= |content| && bytes == content[pos..pos + |bytes|]
    {
      var left := if pos < |content| then |content| - pos else 0;
      if left == 0 then [] else content[pos..pos + Served(wish, capacity, left)]
    }

    /** One awaited read; the file comes back even after an I/O error. */
    method Read(outcome: Outcome) returns (r: Result<seq<Byte>>)
      modifies this
      ensures !old(state).Idle? ==> r.Failure? && state == old(state)
      ensures old(state).Idle? && outcome.Ok? ==>
                r == Success(Chunk(old(state).pos, outcome.wish)) && state == Idle(old(state).pos + |r.value|)
      ensures old(state).Idle? && outcome.IoError? ==> r.Failure? && state == old(state)
      ensures old(state).Idle? && outcome.JoinError? ==> r.Failure? && state == Taken
    {
      if !state.Idle? {
        return Failure;
      }
      var pos := state.pos;
      state := Taken;
      match outcome {
        case Ok(wish) =>
          var bytes := Chunk(pos, wish);
          state := Idle(pos + |bytes|);
          return Success(bytes);
        case IoError =>
          state := Idle(pos);
          return Failure;
        case JoinError =>
          return Failure;
      }
    }

    method Seek(offset: nat, outcome: Outcome) returns (ok: bool)
      modifies this
      ensures ok <==> old(state).Idle? && outcome.Ok?
      ensures ok ==> state == Idle(offset)
      ensures !ok ==> state == old(state) || state == Taken
      ensures old(state).Idle? && outcome.IoError? ==> state == old(state)
    {
      if !state.Idle? {
        return false;
      }
      var pos := state.pos;
      state := Taken;
      match outcome {
        case Ok(_) => state := Idle(offset); return true;
        case IoError => state := Idle(pos); return false;
        case JoinError => return false;
      }
    }

    /**
      One poll of the stream; `ready` tells whether the background task has finished. A task handle panics when
      it is polled again after its answer, so a reader whose task was lost must not be polled.
     */
    method PollNext(ready: bool, outcome: Outcome) returns (r: Poll)
      requires !state.Finished?
      modifies this
      ensures old(state).Taken? ==> r == Failed && state == Taken
      ensures !old(state).Taken? ==>
                var pos := old(state).pos;
                if !ready then r == Pending && state == Future(pos)
                else match outcome
                case Ok(wish) =>
                  && state == Idle(pos + |Chunk(pos, wish)|)
                  && r == if Chunk(pos, wish) == [] then Done else Data(Chunk(pos, wish))
                case IoError => r == Failed && state == Idle(pos)
                case JoinError => r == Failed && state == Finished
    {
      while true
        invariant !state.Finished? && (state.Taken? <==> old(state).Taken?)
        invariant !state.Taken? ==> state.pos == old(state).pos
        decreases if state.Future? then 0 else 1
      {
        match state {
          case Idle(pos) =>
            state := Future(pos);
          case Taken =>
            return Failed;
          case Future(pos) =>
            if !ready {
              return Pending;
            }
            match outcome {
              case Ok(wish) =>
                var bytes := Chunk(pos, wish);
                state := Idle(pos + |bytes|);
                return if bytes == [] then Done else Data(bytes);
              case IoError =>
                state := Idle(pos);
                return Failed;
              case JoinError =>
                state := Finished;
                return Failed;
            }
        }
      }
    }

    /** Where the next byte comes from; a reader that lost its file gives none. */
    function Position(): nat
      reads this
    {
      if state.Idle? || state.Future? then state.pos else 0
    }

    /** One poll, told by what it does to the position: data comes from there on, and a sound read moves it. */
    method PollAt(ready: bool, outcome: Outcome) returns (r: Poll)
      requires Position() <= |content| && capacity > 0 && !state.Finished?
      modifies this
      ensures state.Finished? ==> r == Failed && !outcome.Ok?
      ensures !state.Finished? ==> old(Position()) <= Position() <= |content|
      ensures if r.Data? then !state.Finished? && r.bytes == content[old(Position())..Position()]
              else state.Finished? || Position() == old(Position())
      ensures r.Done? ==> old(Position()) == |content| && !state.Finished?
      ensures !old(state).Taken? && outcome.Ok? ==>
                !state.Taken? && r != Failed && (ready ==> r.Done? || old(Position()) < Position())
    {
      hide Served;
      r := PollNext(ready, outcome);
    }

    /**
      Any run of polls yields a contiguous stretch of the file from where the reader stood; a run that reaches
      the end yields all the rest, whatever the chunks were. The reader makes progress: without errors nothing
      fails, and more ready polls than bytes left reach the end.
     */
    method Drain(io: nat -> (bool, Outcome), count: nat) returns (polls: seq<Poll>)
      requires Position() <= |content| && capacity > 0 && !state.Finished?
      modifies this
      ensures Payload(polls) <= content[old(Position())..]
      ensures Ended(polls) && (Done in polls ==> Payload(polls) == content[old(Position())..])
      ensures |polls| == count || Done in polls || (Failed in polls && state.Finished?)
      ensures Healthy(io) && !old(state).Taken? ==> Failed !in polls
      ensures Healthy(io) && !old(state).Taken? && ReadyPolls(io, count) > |content| - old(Position()) ==> Done in polls
    {
      hide Payload, Healthy, Ended;
      ghost var start, pos, good := Position(), Position(), Healthy(io) && !state.Taken?;
      polls := [];
      StreamStart(content, start);
      StreamPrefix(content, start, start);
      var i := 0;
      while i < count
        invariant pos == Position() && start <= pos <= |content| && !state.Finished?
        invariant |polls| == i <= count && Ended(polls) && Payload(polls) <= content[start..]
        invariant Done !in polls && Payload(polls) == content[start..pos]
        invariant good ==> Failed !in polls && !state.Taken? && start + ReadyPolls(io, i) <= pos
      {
        HealthyAt(io, i);
        var poll := PollAt(io(i).0, io(i).1);
        ghost var next := if poll.Data? then Position() else pos;
        StreamStep(content, start, pos, next, polls, poll);
        StreamPrefix(content, start, next);
        polls, pos := polls + [poll], next;
        assert polls[i] == poll;
        if poll.Done? || state.Finished? {
          return;
        }
        i := i + 1;
      }
    }
  }
}
