/** The byte-range cache in front of a Parquet reader. */
module ParquetCache {
  import opened Bytes
  import opened Results

  datatype Ident = Ident(fabric: string, artifact: string, fileSize: u64, etag: Option<string>, lastModified: int)
  datatype Range = Range(start: u64, end: u64)
  datatype ChunkKey = ChunkKey(ident: Ident, offset: u64, length: u64)

  datatype ReadError = Inner(code: int) | WrongCount(returned: nat, requested: nat) | Omitted

  /** The key of a range; the length is a 64-bit difference. */
  function KeyOf(ident: Ident, r: Range): ChunkKey {
    ChunkKey(ident, r.start, if r.start <= r.end then r.end - r.start else r.end - r.start + U64_LIMIT)
  }

  function RangeOf(key: ChunkKey): Range {
    Range(key.offset, if key.offset + key.length < U64_LIMIT then key.offset + key.length else key.offset + key.length - U64_LIMIT)
  }

  /** A key names one range of one artifact. */
  lemma KeyNamesRange(ident: Ident, r: Range)
    ensures RangeOf(KeyOf(ident, r)) == r && KeyOf(ident, r).ident == ident
  {
  }

  type Chunks = map<ChunkKey, seq<byte>>

  /** Every cached chunk holds the bytes of its range, as `truth` has them. */
  ghost predicate Coherent(truth: (Ident, Range) -> seq<byte>, chunks: Chunks) {
    forall key :: key in chunks ==> chunks[key] == truth(key.ident, RangeOf(key))
  }

  /** The shared cache. Between any two operations of one reader, evictions and other readers leave it in some
      other state: the n-th such state is `others(n)`, and their own lookups move the counters by `counted(n)`. */
  class ParquetRowGroupCache {
    ghost const truth: (Ident, Range) -> seq<byte>
    const others: nat -> Chunks
    const counted: nat -> (nat, nat)
    var chunks: Chunks
    var hits: nat
    var misses: nat
    var moment: nat
    ghost var foreign: nat

    constructor (ghost truth: (Ident, Range) -> seq<byte>, others: nat -> Chunks, counted: nat -> (nat, nat))
      requires forall n :: Coherent(truth, others(n))
      ensures this.truth == truth && this.others == others && this.counted == counted
      ensures Valid() && chunks == map[] && hits == misses == 0
    {
      this.truth, this.others, this.counted := truth, others, counted;
      chunks, hits, misses, moment, foreign := map[], 0, 0, 0, 0;
    }

    ghost predicate Valid()
      reads this
    {
      Coherent(truth, chunks) && forall n :: Coherent(truth, others(n))
    }

    /** Lookups counted on behalf of readers other than the one under discussion are set aside. */
    ghost function Own(): int
      reads this
    {
      hits + misses - foreign
    }

    /** Whatever happens to a shared cache while nobody looks. */
    method Interfere()
      requires Valid()
      modifies this
      ensures Valid() && Own() == old(Own())
      ensures chunks == others(old(moment)) && moment == old(moment) + 1
    {
      chunks := others(moment);
      hits, misses := hits + counted(moment).0, misses + counted(moment).1;
      foreign := foreign + counted(moment).0 + counted(moment).1;
      moment := moment + 1;
    }

    /** A hit counts itself; a miss is counted by the caller. */
    method Get(key: ChunkKey) returns (r: Option<seq<byte>>)
      requires Valid()
      modifies this
      ensures Valid()
      ensures r.Some? ==> r.value == truth(key.ident, RangeOf(key))
      ensures Own() == old(Own()) + if r.Some? then 1 else 0
    {
      Interfere();
      if key in chunks {
        hits := hits + 1;
        return Some(chunks[key]);
      }
      return None;
    }

    method Insert(key: ChunkKey, bytes: seq<byte>)
      requires Valid() && bytes == truth(key.ident, RangeOf(key))
      modifies this
      ensures Valid() && Own() == old(Own())
      ensures key in chunks && chunks[key] == bytes
    {
      Interfere();
      chunks := chunks[key := bytes];
    }

    method Miss(count: nat)
      requires Valid()
      modifies this`misses
      ensures Valid() && Own() == old(Own()) + count
    {
      misses := misses + count;
    }
  }

  /** The bytes of each range, in order. */
  function Truths(truth: (Ident, Range) -> seq<byte>, ident: Ident, ranges: seq<Range>): (s: seq<seq<byte>>)
    ensures |s| == |ranges|
  {
    seq(|ranges|, i requires 0 <= i < |ranges| => truth(ident, ranges[i]))
  }

  /** The reader underneath: the n-th request may fail, or answer with any number of chunks. */
  datatype InnerReader = InnerReader(
    one: (nat, Range) -> Result<seq<byte>, ReadError>,
    many: (nat, seq<Range>) -> Result<seq<seq<byte>>, ReadError>)
  {
    /** An answer of the right size has the right bytes. */
    ghost predicate Honest(truth: (Ident, Range) -> seq<byte>, ident: Ident) {
      && (forall n, r :: one(n, r).Ok? ==> one(n, r).value == truth(ident, r))
      && (forall n, rs :: many(n, rs).Ok? && |many(n, rs).value| == |rs| ==> many(n, rs).value == Truths(truth, ident, rs))
    }
  }

  /** `ordered.into_iter().map(ok_or)`: the first gap is an error. */
  function Collect(ordered: seq<Option<seq<byte>>>): (r: Result<seq<seq<byte>>, ReadError>)
    ensures r.Ok? <==> forall i :: 0 <= i < |ordered| ==> ordered[i].Some?
    ensures r.Ok? ==> |r.value| == |ordered| && forall i :: 0 <= i < |ordered| ==> r.value[i] == ordered[i].value
  {
    if ordered == [] then Ok([])
    else if ordered[0].None? then Err(Omitted)
    else
      match Collect(ordered[1..])
      case Err(e) =>
        assert exists i :: 0 <= i < |ordered[1..]| && ordered[1..][i].None?;
        Err(e)
      case Ok(rest) => Ok([ordered[0].value] + rest)
  }

  /** The positions, keys and ranges that missed, gathered while looking up the first `n` ranges. */
  ghost predicate Gathered(ident: Ident, ranges: seq<Range>, n: nat, indexes: seq<nat>, keys: seq<ChunkKey>, asked: seq<Range>) {
    && n <= |ranges| && |indexes| == |keys| == |asked|
    && (forall k :: 0 <= k < |indexes| ==> indexes[k] < n && asked[k] == ranges[indexes[k]] && keys[k] == KeyOf(ident, asked[k]))
    && (forall j, k :: 0 <= j < k < |indexes| ==> indexes[j] < indexes[k])
  }

  /** What is filled in is right, and what is not is still to come: a position among `indexes` from `k` on. */
  ghost predicate Filled(truth: (Ident, Range) -> seq<byte>, ident: Ident, ranges: seq<Range>, ordered: seq<Option<seq<byte>>>,
                         n: nat, indexes: seq<nat>, k: nat) {
    && |ordered| == |ranges| && n <= |ranges| && k <= |indexes|
    && (forall j :: 0 <= j < n && ordered[j].Some? ==> ordered[j].value == truth(ident, ranges[j]))
    && (forall j :: 0 <= j < n && ordered[j].None? ==> j in indexes[k..])
  }

  type Ordered = seq<Option<seq<byte>>>

  lemma NothingYet(truth: (Ident, Range) -> seq<byte>, ident: Ident, ranges: seq<Range>, ordered: Ordered)
    requires |ordered| == |ranges|
    ensures Gathered(ident, ranges, 0, [], [], []) && Filled(truth, ident, ranges, ordered, 0, [], 0)
  {
  }

  /** One more range looked up, and found. */
  lemma FoundStep(truth: (Ident, Range) -> seq<byte>, ident: Ident, ranges: seq<Range>, ordered: Ordered, n: nat,
                  indexes: seq<nat>, keys: seq<ChunkKey>, asked: seq<Range>, cached: seq<byte>)
    requires n < |ranges| && Gathered(ident, ranges, n, indexes, keys, asked) && Filled(truth, ident, ranges, ordered, n, indexes, 0)
    requires cached == truth(ident, ranges[n])
    ensures Gathered(ident, ranges, n + 1, indexes, keys, asked)
    ensures Filled(truth, ident, ranges, ordered[n := Some(cached)], n + 1, indexes, 0)
  {
  }

  /** One more range looked up, and missing. */
  lemma MissingStep(truth: (Ident, Range) -> seq<byte>, ident: Ident, ranges: seq<Range>, ordered: Ordered, n: nat,
                    indexes: seq<nat>, keys: seq<ChunkKey>, asked: seq<Range>)
    requires n < |ranges| && Gathered(ident, ranges, n, indexes, keys, asked) && Filled(truth, ident, ranges, ordered, n, indexes, 0)
    requires ordered[n].None?
    ensures Gathered(ident, ranges, n + 1, indexes + [n], keys + [KeyOf(ident, ranges[n])], asked + [ranges[n]])
    ensures Filled(truth, ident, ranges, ordered, n + 1, indexes + [n], 0)
  {
    hide KeyOf;
    forall j | 0 <= j < n + 1 && ordered[j].None?
      ensures j in (indexes + [n])[0..]
    {
      assert (indexes + [n])[0..] == indexes[0..] + [n];
    }
  }

  /** With no gap left, collecting gives the bytes of every range in order. */
  lemma FilledCollect(truth: (Ident, Range) -> seq<byte>, ident: Ident, ranges: seq<Range>, ordered: Ordered, indexes: seq<nat>)
    requires Filled(truth, ident, ranges, ordered, |ranges|, indexes, |indexes|)
    ensures Collect(ordered) == Ok(Truths(truth, ident, ranges))
  {
    hide Collect;
    assert indexes[|indexes|..] == [];
    assert Collect(ordered).Ok?;
    assert Collect(ordered).value == Truths(truth, ident, ranges);
  }

  class CachingReader {
    const cache: ParquetRowGroupCache?
    const ident: Ident
    const inner: InnerReader
    var requests: nat

    constructor (cache: ParquetRowGroupCache?, ident: Ident, inner: InnerReader)
      ensures this.cache == cache && this.ident == ident && this.inner == inner && requests == 0
    {
      this.cache, this.ident, this.inner, this.requests := cache, ident, inner, 0;
    }

    /** One range: from the cache, or from the reader underneath and then cached. */
    method GetBytes(range: Range) returns (r: Result<seq<byte>, ReadError>)
      requires cache != null ==> cache.Valid() && inner.Honest(cache.truth, ident)
      modifies this`requests, cache
      ensures cache == null ==> r == inner.one(old(requests), range)
      ensures cache != null ==> cache.Valid() && cache.Own() == old(cache.Own()) + 1
      ensures cache != null && r.Ok? ==> r.value == cache.truth(ident, range)
      ensures cache != null && r.Err? ==> r == inner.one(old(requests), range)
    {
      if cache == null {
        r := inner.one(requests, range);
        requests := requests + 1;
        return;
      }
      KeyNamesRange(ident, range);
      var key := KeyOf(ident, range);
      var cached := cache.Get(key);
      if cached.Some? {
        return Ok(cached.value);
      }
      cache.Miss(1);
      r := inner.one(requests, range);
      requests := requests + 1;
      if r.Ok? {
        cache.Insert(key, r.value);
      }
    }

    /** The lookup loop: fill in the hits, gather the misses. */
    method LookUp(ranges: seq<Range>) returns (ordered: seq<Option<seq<byte>>>, indexes: seq<nat>, keys: seq<ChunkKey>, asked: seq<Range>)
      requires cache != null && cache.Valid()
      modifies cache
      ensures cache.Valid() && cache.Own() == old(cache.Own()) + |ranges| - |asked|
      ensures Gathered(ident, ranges, |ranges|, indexes, keys, asked)
      ensures Filled(cache.truth, ident, ranges, ordered, |ranges|, indexes, 0)
    {
      hide Gathered, Filled, KeyOf, RangeOf;
      ordered := seq(|ranges|, _ => None);
      indexes, keys, asked := [], [], [];
      NothingYet(cache.truth, ident, ranges, ordered);
      for i := 0 to |ranges|
        invariant cache.Valid() && cache.Own() == old(cache.Own()) + i - |asked|
        invariant Gathered(ident, ranges, i, indexes, keys, asked)
        invariant Filled(cache.truth, ident, ranges, ordered, i, indexes, 0)
        invariant |ordered| == |ranges| && forall j :: i <= j < |ranges| ==> ordered[j] == None
      {
        var key := KeyOf(ident, ranges[i]);
        KeyNamesRange(ident, ranges[i]);
        var cached := cache.Get(key);
        if cached.Some? {
          FoundStep(cache.truth, ident, ranges, ordered, i, indexes, keys, asked, cached.value);
          ordered := ordered[i := cached];
        } else {
          MissingStep(cache.truth, ident, ranges, ordered, i, indexes, keys, asked);
          indexes := indexes + [i];
          keys := keys + [key];
          asked := asked + [ranges[i]];
        }
      }
    }

    /** The insertion loop: cache what was fetched and put it where it was asked for. */
    method FillIn(ranges: seq<Range>, before: seq<Option<seq<byte>>>, indexes: seq<nat>, keys: seq<ChunkKey>, asked: seq<Range>, fetched: seq<seq<byte>>)
      returns (ordered: seq<Option<seq<byte>>>)
      requires cache != null && cache.Valid()
      requires Gathered(ident, ranges, |ranges|, indexes, keys, asked)
      requires Filled(cache.truth, ident, ranges, before, |ranges|, indexes, 0)
      requires fetched == Truths(cache.truth, ident, asked)
      modifies cache
      ensures cache.Valid() && cache.Own() == old(cache.Own())
      ensures Filled(cache.truth, ident, ranges, ordered, |ranges|, indexes, |indexes|)
    {
      ordered := before;
      for k := 0 to |indexes|
        invariant cache.Valid() && cache.Own() == old(cache.Own())
        invariant Filled(cache.truth, ident, ranges, ordered, |ranges|, indexes, k)
      {
        KeyNamesRange(ident, asked[k]);
        cache.Insert(keys[k], fetched[k]);
        ordered := ordered[indexes[k] := Some(fetched[k])];
        assert forall j :: j in indexes[k..] ==> j == indexes[k] || j in indexes[k + 1..];
      }
    }

    /** Many ranges at once. `asked` are the ranges that missed, in caller order. */
    method GetByteRanges(ranges: seq<Range>) returns (r: Result<seq<seq<byte>>, ReadError>, ghost asked: seq<Range>)
      requires cache != null ==> cache.Valid() && inner.Honest(cache.truth, ident)
      modifies this`requests, cache
      ensures cache == null ==> r == inner.many(old(requests), ranges)
      ensures cache != null ==> cache.Valid() && cache.Own() == old(cache.Own()) + |ranges|
      ensures cache != null ==> forall q :: q in asked ==> q in ranges
      ensures cache != null ==>
                var answer := inner.many(old(requests), asked);
                if asked != [] && answer.Err? then r == Err(answer.error)
                else if asked != [] && |answer.value| != |asked| then r == Err(WrongCount(|answer.value|, |asked|))
                else r == Ok(Truths(cache.truth, ident, ranges))
    {
      hide Filled, Collect, KeyOf;
      asked := [];
      if cache == null {
        r := inner.many(requests, ranges);
        requests := requests + 1;
        return;
      }
      var ordered, indexes, keys, missing := LookUp(ranges);
      asked := missing;
      assert forall k :: 0 <= k < |missing| ==> missing[k] in ranges;
      cache.Miss(|missing|);
      if |missing| == 0 {
        assert missing == [] && |indexes| == 0;
        FilledCollect(cache.truth, ident, ranges, ordered, indexes);
        return Collect(ordered), asked;
      }
      var answer := inner.many(requests, missing);
      requests := requests + 1;
      if answer.Err? {
        return Err(answer.error), asked;
      }
      if |answer.value| != |missing| {
        return Err(WrongCount(|answer.value|, |missing|)), asked;
      }
      ordered := FillIn(ranges, ordered, indexes, keys, missing, answer.value);
      FilledCollect(cache.truth, ident, ranges, ordered, indexes);
      r := Collect(ordered);
    }
  }

  /** Over any session of bulk reads on one cache, each successful read is what an honest uncached reader
      answers, and the session counts exactly its ranges. */
  method Session(reader: CachingReader, batches: seq<seq<Range>>) returns (results: seq<Result<seq<seq<byte>>, ReadError>>)
    requires reader.cache != null && reader.cache.Valid() && reader.inner.Honest(reader.cache.truth, reader.ident)
    modifies reader, reader.cache
    ensures reader.cache.Valid() && |results| == |batches|
    ensures forall i :: 0 <= i < |batches| && results[i].Ok? ==>
              (forall n :: reader.inner.many(n, batches[i]).Ok? && |reader.inner.many(n, batches[i]).value| == |batches[i]| ==>
                reader.inner.many(n, batches[i]) == results[i])
    ensures reader.cache.Own() == old(reader.cache.Own()) + RangeCount(batches)
  {
    results := [];
    for i := 0 to |batches|
      invariant reader.cache.Valid() && |results| == i
      invariant forall j :: 0 <= j < i && results[j].Ok? ==> results[j] == Ok(Truths(reader.cache.truth, reader.ident, batches[j]))
      invariant reader.cache.Own() == old(reader.cache.Own()) + RangeCount(batches[..i])
    {
      var r, _ := reader.GetByteRanges(batches[i]);
      results := results + [r];
      assert batches[..i + 1][..i] == batches[..i];
    }
    assert batches[..|batches|] == batches;
  }

  function RangeCount(batches: seq<seq<Range>>): nat {
    if batches == [] then 0 else RangeCount(batches[..|batches| - 1]) + |batches[|batches| - 1]|
  }
}
