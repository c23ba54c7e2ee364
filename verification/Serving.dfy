/**
  Serving a cached file: the two read paths of the cache, the range decision and the
  response. Status, headers and body of a range response are shown to fit together.
 */
module Serving {
  import opened Common
  import opened FileId
  import opened CacheIndex
  import opened CacheScan
  import opened CacheManager
  import opened FileReader
  import opened TruncateBody

  datatype CacheFileResult = Full(polls: seq<Poll>) | Partial(polls: seq<Poll>) | NotFound

  /** What the operating system and the client decide: clock, seek, read sizes and polls. */
  datatype Env = Env(now: int, seek: Outcome, io: nat -> (bool, Outcome), count: nat)

  const WEEK: int := 7 * 24 * 60 * 60 * SECOND
  const BUFFER: nat := 64 * 1024

  /** A stream of a file from `from` on: never anything else, and all of it unless it failed. */
  ghost predicate Streams(polls: seq<Poll>, content: seq<Byte>, from: nat)
    requires from <= |content|
  {
    && Ended(polls)
    && Payload(polls) <= content[from..]
    && (Done in polls && Failed !in polls ==> Payload(polls) == content[from..])
  }

  /** Nothing fails, a seek does not lose the file, and the client polls often enough for `size` bytes. */
  ghost predicate Fluent(env: Env, size: nat) {
    Healthy(env.io) && !env.seek.JoinError? && ReadyPolls(env.io, env.count) > size
  }

  /** The part of a buffer read up to `readOff` that lies at or after `offset`. */
  function Cut(buffer: seq<Byte>, readOff: nat, offset: nat): (rest: seq<Byte>)
    requires |buffer| <= readOff && offset < readOff
    ensures |rest| == Min(|buffer|, readOff - offset) && rest == buffer[|buffer| - |rest|..]
  {
    if offset > readOff - |buffer| then buffer[|buffer| - (readOff - offset)..] else buffer
  }

  /**
    The hashing read loop. Whatever the offset and the sizes of the reads, the hash is taken over
    the whole file while the bytes sent are the file from the offset on.
   */
  method ReadAndHash(reader: FileReader, offset: Option<nat>, io: nat -> (bool, Outcome))
    returns (polls: seq<Poll>, hashed: seq<Byte>)
    requires reader.state == Idle(0) && reader.capacity > 0
    requires offset.Some? ==> offset.value <= |reader.content|
    modifies reader
    ensures Done in polls && Streams(polls, reader.content, if offset.Some? then offset.value else 0)
    ensures hashed <= reader.content && (Failed !in polls ==> hashed == reader.content)
    ensures Healthy(io) ==> Failed !in polls
  {
    hide Payload, Streams, Cut, Served, Sent;
    var fileSize := |reader.content|;
    ghost var content, from := reader.content, if offset.Some? then offset.value else 0;
    var readOff, i := 0, 0;
    polls, hashed := [], [];
    NothingSent(content, from);
    while readOff < fileSize
      invariant reader.state == Idle(readOff) && readOff <= fileSize
      invariant hashed == content[..readOff]
      invariant Done !in polls && Failed !in polls && Payload(polls) == Sent(content, from, readOff)
      decreases fileSize - readOff
    {
      var result := reader.Read(io(i).1);
      if result.Failure? {
        SendFailure(content, from, readOff, polls);
        polls := polls + [Failed] + [Done];
        return;
      }
      var buffer := result.value;
      readOff := readOff + |buffer|;
      hashed := hashed + buffer;
      SkipStep(content, from, readOff - |buffer|, readOff);
      if offset.None? || offset.value < readOff {
        var sent := if offset.None? then buffer else Cut(buffer, readOff, offset.value);
        SendStep(content, from, readOff, buffer, polls, sent);
        polls := polls + [Data(sent)];
      }
      i := i + 1;
    }
    SendEnd(content, from, polls);
    polls := polls + [Done];
  }

  /** What has been sent when the file has been read up to `readOff`. */
  function Sent(content: seq<Byte>, from: nat, readOff: nat): seq<Byte>
    requires readOff <= |content|
  {
    content[Min(from, readOff)..readOff]
  }

  lemma {:induction false} NothingSent(content: seq<Byte>, from: nat)
    ensures Payload([]) == Sent(content, from, 0)
  {
    assert Sent(content, from, 0) == content[0..0] == [];
  }

  /** Buffers before the offset add nothing. */
  lemma SkipStep(content: seq<Byte>, from: nat, readOff: nat, next: nat)
    requires readOff <= next <= |content|
    ensures next <= from ==> Sent(content, from, next) == Sent(content, from, readOff)
  {
  }

  /** Sending the cut buffer extends what was sent to the new offset. */
  lemma SendStep(content: seq<Byte>, from: nat, readOff: nat, buffer: seq<Byte>, polls: seq<Poll>, sent: seq<Byte>)
    requires |buffer| <= readOff <= |content| && from < readOff && buffer == content[readOff - |buffer|..readOff]
    requires Done !in polls && Payload(polls) == Sent(content, from, readOff - |buffer|)
    requires sent == Cut(buffer, readOff, from)
    ensures Payload(polls + [Data(sent)]) == Sent(content, from, readOff)
  {
    hide Payload;
    PayloadAppend(polls, Data(sent));
    var last := readOff - |buffer|;
    if from <= last {
      assert sent == buffer;
      assert content[from..last] + content[last..readOff] == content[from..readOff];
    } else {
      assert sent == content[from..readOff];
      assert content[last..last] == [];
    }
  }

  lemma SendFailure(content: seq<Byte>, from: nat, readOff: nat, polls: seq<Poll>)
    requires from <= |content| && readOff <= |content| && Done !in polls
    requires Payload(polls) == Sent(content, from, readOff)
    ensures Failed in polls + [Failed] + [Done] && Done in polls + [Failed] + [Done]
    ensures Streams(polls + [Failed] + [Done], content, from)
  {
    PayloadAppend(polls, Failed);
    PayloadAppend(polls + [Failed], Done);
    assert (polls + [Failed] + [Done])[|polls|] == Failed;
    assert (polls + [Failed] + [Done])[|polls| + 1] == Done;
    if from <= readOff {
      StreamPrefix(content, from, readOff);
    } else {
      StreamPrefix(content, from, from);
    }
  }

  lemma SendEnd(content: seq<Byte>, from: nat, polls: seq<Poll>)
    requires from <= |content| && Done !in polls && Payload(polls) == Sent(content, from, |content|)
    ensures Streams(polls + [Done], content, from)
    ensures (polls + [Done])[|polls|] == Done
  {
    PayloadAppend(polls, Done);
    StreamPrefix(content, from, |content|);
  }

  /** The unchecked read path: one seek, unless the offset is absent or zero, and then the file as a stream. */
  method ServeUnchecked(content: seq<Byte>, offset: Option<nat>, env: Env) returns (r: CacheFileResult)
    requires offset.Some? ==> offset.value <= |content|
    ensures !r.NotFound? && (r.Partial? <==> offset.Some? && offset.value != 0 && env.seek.Ok?)
    ensures var from := if r.Partial? then offset.value else 0;
            && Streams(r.polls, content, from)
            && (Fluent(env, |content|) ==> Payload(r.polls) == content[from..])
  {
    hide Payload, Ended;
    var reader := new FileReader(content, BUFFER);
    var ok := false;
    if offset.Some? && offset.value != 0 {
      ok := reader.Seek(offset.value, env.seek);
    }
    var polls := reader.Drain(env.io, env.count);
    r := if ok then Partial(polls) else Full(polls);
  }

  /**
    Opens a cached file. A recently modified file is served without a hash check, from the offset
    if the seek succeeds; any other file is hashed in full while it is served, and deleted exactly
    when the hash is wrong.
   */
  method GetFile(m: CacheManager, info: CacheFileInfo, offset: Option<nat>, sha1: Sha1, env: Env)
    returns (r: CacheFileResult)
    requires m.Valid() && Storable(info.fileType)
    requires offset.Some? ==> offset.value <= info.size
    modifies m
    ensures m.Valid()
    ensures r.NotFound? <==> !(ToPath(info) in old(m.disk) && |old(m.disk)[ToPath(info)].content| == info.size)
    ensures r.NotFound? ==> m.disk == old(m.disk)
    ensures !r.NotFound? ==>
              var file := old(m.disk)[ToPath(info)];
              var fast := file.mtime >= env.now - 7 * 86400 * SECOND;
              && (r.Partial? <==> offset.Some? && (fast ==> offset.value != 0 && env.seek.Ok?))
              && var from := if r.Partial? then offset.value else 0;
              && Streams(r.polls, file.content, from)
              && (Fluent(env, info.size) ==> Payload(r.polls) == file.content[from..])
              && m.disk == if fast then old(m.disk)
                           else if Failed !in r.polls && sha1(file.content) != info.hash
                           then old(m.disk) - {ToPath(info)}
                           else old(m.disk)[ToPath(info) := file.(mtime := env.now)]
  {
    hide Consistent, NamesOk, Storable, ToPath, StaticRange, Bounds, OldestOf, Payload, Ended, ReadyPolls;
    var path := ToPath(info);
    if path !in m.disk || |m.disk[path].content| != info.size {
      return NotFound;
    }
    var file := m.disk[path];
    if file.mtime >= env.now - WEEK {
      r := ServeUnchecked(file.content, offset, env);
      return;
    }
    var reader := new FileReader(file.content, BUFFER);
    m.MarkRecentlyAccessed(info, env.now);
    var polls, hashed := ReadAndHash(reader, offset, env.io);
    if Failed !in polls && sha1(hashed) != info.hash {
      var _ := m.RemoveCache(info);
      assert old(m.disk)[path := file.(mtime := env.now)] - {path} == old(m.disk) - {path};
    }
    r := if offset.Some? then Partial(polls) else Full(polls);
  }

  // ---------------------------------------------------------------- response

  /** An inclusive byte range, as validated against the file size. */
  datatype Range = Range(start: nat, end: nat)

  datatype Response = Response(status: nat, contentLength: nat, contentRange: Option<string>, body: seq<Poll>) | Miss

  function ContentRange(r: Range, size: nat): string {
    "bytes " + (Decimal(r.start) + "-" + Decimal(r.end) + "/" + Decimal(size))
  }

  /** The digits of a number. */
  function ReadNumber(s: string): Option<nat> {
    if s != [] && (forall c :: c in s ==> IsDigit(c)) then Some(Value(s)) else None
  }

  /** How a client reads a Content-Range header: the first and last position, and the complete length. */
  function ReadContentRange(s: string): Option<(nat, nat, nat)> {
    if |s| < 6 || s[..6] != "bytes " then None
    else
      var parts := Split(s[6..], '/');
      var ends := Split(parts[0], '-');
      if |parts| != 2 || |ends| != 2 then None
      else
        var first, last, size := ReadNumber(ends[0]), ReadNumber(ends[1]), ReadNumber(parts[1]);
        if first.None? || last.None? || size.None? then None else Some((first.value, last.value, size.value))
  }

  lemma DecimalReads(n: nat)
    ensures ReadNumber(Decimal(n)) == Some(n)
    ensures '-' !in Decimal(n) && '/' !in Decimal(n)
  {
    ValueOfDecimal(n);
  }

  /** What is sent as Content-Range is read as the range and the size. */
  lemma ContentRangeReads(r: Range, size: nat)
    ensures ReadContentRange(ContentRange(r, size)) == Some((r.start, r.end, size))
  {
    hide Split, ReadNumber, Decimal;
    var a, b, n := Decimal(r.start), Decimal(r.end), Decimal(size);
    DecimalReads(r.start);
    DecimalReads(r.end);
    DecimalReads(size);
    var ends := a + "-" + b;
    assert '/' !in ends;
    SplitConcat(ends, '/', n);
    SplitWhole(ends, '/');
    SplitWhole(n, '/');
    SplitConcat(a, '-', b);
    SplitWhole(a, '-');
    SplitWhole(b, '-');
    assert ("bytes " + (ends + "/" + n))[6..] == ends + "/" + n;
    assert ("bytes " + (ends + "/" + n))[..6] == "bytes ";
  }

  /** The bytes a response is about. */
  ghost function Selected(content: seq<Byte>, range: Option<Range>): seq<Byte>
    requires range.Some? ==> range.value.start <= range.value.end < |content|
  {
    if range.Some? then content[range.value.start..range.value.end + 1] else content
  }

  /** Status, headers and body describe the same bytes (RFC 9110, sections 14.4 and 15.3.7). */
  ghost predicate Describes(resp: Response, content: seq<Byte>, range: Option<Range>) {
    && resp.Response?
    && (range.Some? ==> range.value.start <= range.value.end < |content|)
    && resp.status == (if range.Some? then 206 else 200)
    && (resp.contentRange.Some? <==> range.Some?)
    && (range.Some? ==>
          ReadContentRange(resp.contentRange.value) == Some((range.value.start, range.value.end, |content|)))
    && var bytes := Selected(content, range);
       && resp.contentLength == |bytes|
       && Payload(resp.body) <= bytes
       && (Done in resp.body && Failed !in resp.body ==> Payload(resp.body) == bytes)
  }

  lemma RangeDescribed(polls: seq<Poll>, body: seq<Poll>, content: seq<Byte>, r: Range)
    requires r.start <= r.end < |content| && Streams(polls, content, r.start)
    requires Payload(body) == Take(Payload(polls), r.end - r.start + 1)
    requires Done in body && Failed !in body ==>
               |Payload(body)| == r.end - r.start + 1 || (Done in polls && Failed !in polls)
    ensures Describes(Response(206, r.end - r.start + 1, Some(ContentRange(r, |content|)), body), content, Some(r))
    ensures Payload(polls) == content[r.start..] ==> Payload(body) == Selected(content, Some(r))
  {
    ContentRangeReads(r, |content|);
    hide ReadContentRange, ContentRange;
  }

  lemma WholeDescribed(polls: seq<Poll>, content: seq<Byte>)
    requires Streams(polls, content, 0)
    ensures Describes(Response(200, |content|, None, polls), content, None)
    ensures Payload(polls) == content[0..] ==> Payload(polls) == Selected(content, None)
  {
  }

  /**
    The cache-hit part of a request. A range is honoured on either read path, for every chunking;
    only a failed seek to a non-zero start turns the answer into the whole file.
   */
  method Respond(m: CacheManager, info: CacheFileInfo, ranges: Option<seq<Range>>, ifRange: Option<string>,
                 etag: string,
                 sha1: Sha1, env: Env) returns (resp: Response)
    requires m.Valid() && Storable(info.fileType)
    requires ranges.Some? ==> forall r :: r in ranges.value ==> r.start <= r.end < info.size
    modifies m
    ensures m.Valid()
    ensures resp.Miss? <==> !(ToPath(info) in old(m.disk) && |old(m.disk)[ToPath(info)].content| == info.size)
    ensures !resp.Miss? ==>
              var file := old(m.disk)[ToPath(info)];
              var single := ranges.Some? && |ranges.value| == 1 && (ifRange.None? || ifRange.value == etag);
              var fast := file.mtime >= env.now - 7 * 86400 * SECOND;
              var partial := single && !(fast && ranges.value[0].start != 0 && !env.seek.Ok?);
              var range := if partial then Some(ranges.value[0]) else None;
              && resp.status == (if partial then 206 else 200)
              && Describes(resp, file.content, range)
              && (Fluent(env, info.size) ==> Payload(resp.body) == Selected(file.content, range))
  {
    hide Consistent, NamesOk, Storable, ToPath, Payload, Take, ContentRange, Describes, HintSound, Ended, Fluent;
    hide Selected, StaticRange, Decimal, Bounds, OldestOf, Agrees;
    var range := if ranges.Some? && |ranges.value| == 1 then Some(ranges.value[0]) else None;
    if ifRange.Some? && ifRange.value != etag {
      range := None;
    }
    ghost var content := if ToPath(info) in m.disk then m.disk[ToPath(info)].content else [];
    var found := GetFile(m, info, if range.Some? then Some(range.value.start) else None, sha1, env);
    match found {
      case NotFound =>
        return Miss;
      case Full(polls) =>
        if range.Some? && range.value.start != 0 {
          range := None;
        }
      case Partial(polls) =>
    }
    if range.Some? {
      var length := range.value.end - range.value.start + 1;
      var body, limits := Pump(found.polls, length);
      RangeDescribed(found.polls, body, content, range.value);
      resp := Response(206, length, Some(ContentRange(range.value, info.size)), body);
    } else {
      WholeDescribed(found.polls, content);
      resp := Response(200, info.size, None, found.polls);
    }
  }
}
