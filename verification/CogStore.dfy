/** The remote object store: a transcript of requested ranges, and replies that may be anything. */
module CogStore {
  import opened Bytes
  import opened Results
  import opened CogModel

  /** Total length of a list of ranges. */
  function TotalLength(ranges: seq<ByteRange>): int {
    if ranges == [] then 0 else TotalLength(ranges[..|ranges| - 1]) + ranges[|ranges| - 1].Length()
  }

  lemma {:induction false} TotalLengthConcat(a: seq<ByteRange>, b: seq<ByteRange>)
    ensures TotalLength(a + b) == TotalLength(a) + TotalLength(b)
  {
    if b == [] {
      assert a + b == a;
    } else {
      TotalLengthConcat(a, b[..|b| - 1]);
      assert (a + b)[..|a + b| - 1] == a + b[..|b| - 1];
    }
  }

  /** Total bytes of a list of responses. */
  function TotalBytes(responses: seq<seq<byte>>): nat {
    if responses == [] then 0 else TotalBytes(responses[..|responses| - 1]) + |responses[|responses| - 1]|
  }

  /** Responses with the requested lengths add up to the requested lengths. */
  lemma {:induction false} TotalBytesOf(ranges: seq<ByteRange>, responses: seq<seq<byte>>)
    requires |ranges| == |responses|
    requires forall i :: 0 <= i < |ranges| ==> |responses[i]| == ranges[i].Length()
    ensures TotalBytes(responses) == TotalLength(ranges)
  {
    if ranges == [] {
    } else {
      TotalBytesOf(ranges[..|ranges| - 1], responses[..|responses| - 1]);
    }
  }

  predicate AllInside(ranges: seq<ByteRange>, size: nat) {
    forall r :: r in ranges ==> r.Inside(size)
  }

  /** The part of the object a range names. */
  function Slice(content: seq<byte>, r: ByteRange): seq<byte>
    requires r.Inside(|content|)
  {
    content[r.start..r.end]
  }

  function Slices(content: seq<byte>, ranges: seq<ByteRange>): (s: seq<seq<byte>>)
    requires AllInside(ranges, |content|)
    ensures |s| == |ranges|
  {
    seq(|ranges|, i requires 0 <= i < |ranges| => Slice(content, ranges[i]))
  }

  /** One remote object. The n-th request gets whatever `reply` or `replies` says: a failure (`None`), the
      wrong number of bytes, or the bytes asked for. */
  class ObjectStore {
    const size: u64
    const reply: (nat, ByteRange) -> Option<seq<byte>>
    const replies: (nat, seq<ByteRange>) -> Option<seq<seq<byte>>>
    var trace: seq<ByteRange>

    constructor (size: u64, reply: (nat, ByteRange) -> Option<seq<byte>>, replies: (nat, seq<ByteRange>) -> Option<seq<seq<byte>>>)
      ensures this.size == size && this.reply == reply && this.replies == replies && trace == []
    {
      this.size, this.reply, this.replies, this.trace := size, reply, replies, [];
    }

    /** Every in-range request is answered with the bytes of `content`. */
    ghost predicate Serves(content: seq<byte>) {
      && |content| == size
      && (forall n: nat, r: ByteRange :: r.Inside(size) ==> reply(n, r) == Some(Slice(content, r)))
      && (forall n: nat, rs: seq<ByteRange> :: AllInside(rs, size) ==> replies(n, rs) == Some(Slices(content, rs)))
    }

    method GetRange(range: ByteRange) returns (r: Option<seq<byte>>)
      modifies this`trace
      ensures trace == old(trace) + [range]
      ensures r == reply(|old(trace)|, range)
    {
      r := reply(|trace|, range);
      trace := trace + [range];
    }

    method GetRanges(ranges: seq<ByteRange>) returns (r: Option<seq<seq<byte>>>)
      modifies this`trace
      ensures trace == old(trace) + ranges
      ensures r == replies(|old(trace)|, ranges)
    {
      r := replies(|trace|, ranges);
      trace := trace + ranges;
    }
  }
}
