/** The body wrapper that cuts a response after a fixed number of bytes. */
module TruncateBody {
  import opened Common
  import opened FileReader

  /** Bounds on the bytes still to come. */
  datatype SizeHint = SizeHint(lower: nat, upper: Option<nat>) {
    ghost predicate Brackets(bytes: nat) {
      lower <= bytes && (upper.Some? ==> bytes <= upper.value)
    }
  }

  /** The first `limit` bytes, or all of them. */
  function Take(bytes: seq<Byte>, limit: nat): seq<Byte> {
    bytes[..Min(limit, |bytes|)]
  }

  /** The wrapper's hint; `set_upper` panics below the lower bound, so a bound stays above it. */
  function Truncated(hint: SizeHint, limit: nat): (r: SizeHint)
    requires hint.upper.Some? ==> hint.lower <= hint.upper.value
    ensures r.upper.Some? && r.lower <= r.upper.value <= limit
    ensures forall bytes: nat :: hint.Brackets(bytes) ==> r.Brackets(Min(limit, bytes))
  {
    if hint.lower >= limit then SizeHint(limit, Some(limit))
    else if hint.upper.Some? then hint.(upper := Some(Min(limit, hint.upper.value)))
    else hint.(upper := Some(limit))
  }

  /** The bounds are tight: they admit exactly the cut lengths of the lengths the inner bounds admit. */
  lemma TruncatedIsTight(hint: SizeHint, limit: nat, n: nat)
    requires hint.upper.Some? ==> hint.lower <= hint.upper.value
    ensures Truncated(hint, limit).Brackets(n) <==> exists bytes: nat :: hint.Brackets(bytes) && Min(limit, bytes) == n
    ensures hint.upper == Some(hint.lower) ==>
              Truncated(hint, limit) == SizeHint(Min(limit, hint.lower), Some(Min(limit, hint.lower)))
  {
    if Truncated(hint, limit).Brackets(n) {
      var bytes := if n < limit || hint.lower <= limit then n else hint.lower;
      assert hint.Brackets(bytes) && Min(limit, bytes) == n;
    }
  }

  class TruncateBody {
    var limit: nat

    constructor (limit: nat)
      ensures this.limit == limit
    {
      this.limit := limit;
    }

    /** Passes one poll of the inner body on, cutting the data that crosses the limit. */
    method PollFrame(inner: Poll) returns (outer: Poll)
      modifies this
      ensures outer.Data? <==> inner.Data? && old(limit) > 0
      ensures outer.Data? ==> outer.bytes == Take(inner.bytes, old(limit)) && limit == old(limit) - |outer.bytes|
      ensures !outer.Data? ==> limit == old(limit)
      ensures outer.Done? <==> inner.Done? || (old(limit) == 0 && (inner.Data? || inner.Trailers?))
      ensures !outer.Data? && !outer.Done? ==> outer == inner
    {
      match inner {
        case Pending => return Pending;
        case Done => return Done;
        case Failed => return Failed;
        case Trailers =>
          return if limit == 0 then Done else Trailers;
        case Data(bytes) =>
          if limit == 0 {
            return Done;
          }
          var len := |bytes|;
          if len > limit {
            outer := Data(bytes[..limit]);
            limit := 0;
          } else {
            outer := Data(bytes);
            limit := limit - len;
          }
      }
    }
  }

  lemma PayloadStep(polls: seq<Poll>, i: nat)
    requires i < |polls|
    ensures Payload(polls[i..]) == if polls[i].Done? then []
                                   else (if polls[i].Data? then polls[i].bytes else []) + Payload(polls[i + 1..])
  {
  }

  /** Cutting chunk by chunk is cutting the whole. */
  lemma TakeSplit(head: seq<Byte>, tail: seq<Byte>, limit: nat)
    ensures Take(head + tail, limit) == Take(head, limit) + Take(tail, limit - |Take(head, limit)|)
  {
  }

  /** One poll through a wrapper whose limit went from `before` to `after`. */
  ghost predicate Passed(inner: Poll, outer: Poll, before: nat, after: nat) {
    && (outer.Data? <==> inner.Data? && before > 0)
    && (outer.Data? ==> outer.bytes == Take(inner.bytes, before) && after == before - |outer.bytes|)
    && (!outer.Data? ==> after == before)
    && (outer.Done? <==> inner.Done? || (before == 0 && (inner.Data? || inner.Trailers?)))
  }

  /** The polls of a whole run, up to the end of the inner polls or of the wrapper. */
  ghost predicate Pumped(inner: seq<Poll>, outer: seq<Poll>, limits: seq<nat>) {
    && |outer| <= |inner| && |limits| == |outer| + 1
    && (forall k :: 0 <= k < |outer| ==> Passed(inner[k], outer[k], limits[k], limits[k + 1]))
    && (forall k :: 0 <= k < |outer| - 1 ==> !outer[k].Done?)
    && (|outer| < |inner| ==> outer != [] && outer[|outer| - 1].Done?)
  }

  /** From any point on, the wrapper emits what its remaining limit allows of what is to come. */
  lemma {:induction false} PumpedFrom(inner: seq<Poll>, outer: seq<Poll>, limits: seq<nat>, k: nat)
    requires Pumped(inner, outer, limits) && k <= |outer|
    requires k > 0 ==> !outer[k - 1].Done?
    ensures Payload(outer[k..]) == Take(Payload(inner[k..]), limits[k])
    decreases |outer| - k
  {
    if k < |outer| {
      PayloadStep(inner, k);
      PayloadStep(outer, k);
      assert Passed(inner[k], outer[k], limits[k], limits[k + 1]);
      if !outer[k].Done? {
        PumpedFrom(inner, outer, limits, k + 1);
        var head := if inner[k].Data? then inner[k].bytes else [];
        TakeSplit(head, Payload(inner[k + 1..]), limits[k]);
      }
    }
  }

  /** A hint given before poll `k` brackets what polls from `k` on will emit. */
  ghost predicate HintSound(inner: seq<Poll>, outer: seq<Poll>, limits: seq<nat>, k: nat, hint: SizeHint)
    requires k <= |inner| && k <= |outer| && |limits| == |outer| + 1
  {
    (hint.upper.Some? ==> hint.lower <= hint.upper.value) && hint.Brackets(|Payload(inner[k..])|) ==>
      Truncated(hint, limits[k]).Brackets(|Payload(outer[k..])|)
  }

  /**
    Over any run of inner polls the wrapper emits exactly the first `limit` payload bytes, or all
    of them; and before every poll, whatever sound hint the inner body gives, the wrapper's hint
    brackets the bytes still to be emitted.
   */
  method Pump(inner: seq<Poll>, limit: nat) returns (outer: seq<Poll>, limits: seq<nat>)
    ensures Payload(outer) == Take(Payload(inner), limit)
    ensures |outer| <= |inner| && |limits| == |outer| + 1 && limits[0] == limit
    ensures forall k, hint :: 0 <= k <= |outer| && (k > 0 ==> !outer[k - 1].Done?) ==>
              HintSound(inner, outer, limits, k, hint)
    ensures Ended(inner) && Done in outer && Failed !in outer ==>
              |Payload(outer)| == limit || (Done in inner && Failed !in inner)
  {
    var body := new TruncateBody(limit);
    outer, limits := [], [limit];
    var i := 0;
    while i < |inner|
      invariant i == |outer| <= |inner| && fresh(body) && Done !in outer
      invariant |limits| == i + 1 && limits[0] == limit && limits[i] == body.limit
      invariant forall k :: 0 <= k < i ==> Passed(inner[k], outer[k], limits[k], limits[k + 1])
      invariant Done !in inner[..i] && body.limit + |Payload(outer)| == limit
      invariant Failed in inner[..i] ==> Failed in outer
    {
      var poll := body.PollFrame(inner[i]);
      PayloadAppend(outer, poll);
      outer, limits := outer + [poll], limits + [body.limit];
      assert inner[..i + 1] == inner[..i] + [inner[i]];
      if poll.Done? {
        break;
      }
      i := i + 1;
    }
    assert inner[..|inner|] == inner;
    assert Pumped(inner, outer, limits);
    PumpedFrom(inner, outer, limits, 0);
    assert inner[0..] == inner && outer[0..] == outer;
    forall k, hint | 0 <= k <= |outer| && (k > 0 ==> !outer[k - 1].Done?)
      ensures HintSound(inner, outer, limits, k, hint)
    {
      PumpedFrom(inner, outer, limits, k);
    }
  }
}
