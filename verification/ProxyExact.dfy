/** What the proxy asks for, accepts, records and admits, said in full. */
module ProxyExact {
  import opened Bytes
  import opened CandidateSearch
  import opened Decimal
  import opened Proxy
  import opened Results

  // ---- The two rasters --------------------------------------------------------------------

  /** The released objects, by key: their size and entity tag. */
  predicate IsRaster(key: string, size: nat, tag: string) {
    || (key == "aux/d8/flow_dir.tif" && size == 50_686_516_478 && tag == "\"bc48d1013cf6908fb44c325dd2ad10ab-1511\"")
    || (key == "aux/d8/flow_acc.tif" && size == 205_069_870_081 && tag == "\"49eab3942a26036aa49e72ea33a1b724-6112\"")
  }

  lemma RastersExact(key: string, size: nat, tag: string)
    ensures IsRaster(key, size, tag) <==>
            CogKind(key).Some? && CogKind(key).value.ContentLength() == size && CogKind(key).value.ETag() == tag
  {
    KeysApart();
  }

  // ---- Ranges -----------------------------------------------------------------------------

  predicate Digits(s: string) {
    s != "" && forall i :: 0 <= i < |s| ==> '0' <= s[i] <= '9'
  }

  /** A closed part of an object, neither empty nor the whole, under 16 MiB. */
  predicate Part(start: nat, end: nat, size: nat) {
    start <= end < size && (start > 0 || end < size - 1) && end - start + 1 < 16_777_216
  }

  ghost predicate Spells(header: string, start: nat, end: nat) {
    exists a, b :: header == "bytes=" + a + "-" + b && Digits(a) && Digits(b) && Read(a) == start && Read(b) == end
  }

  lemma DashFree(s: string)
    requires Digits(s)
    ensures '-' !in s && ',' !in s && AllDigits(s)
  {
  }

  /** What follows the unit, in two halves. */
  lemma SpelledParts(header: string, a: string, b: string)
    requires header == "bytes=" + a + "-" + b && Digits(a) && Digits(b)
    ensures PREFIX <= header && AllDigits(a) && AllDigits(b)
    ensures var value := header[|PREFIX|..];
            && ',' !in value && value[0] != '-' && value[|value| - 1] != '-' && MatchRange(value) == Some((a, b))
  {
    hide SplitDash;
    var value := a + "-" + b;
    assert header == "bytes=" + value && header[|PREFIX|..] == value;
    DashFree(a);
    DashFree(b);
    SplitJoined(a, b);
    assert value[0] == a[0] && value[0] in a;
    assert value[|value| - 1] == b[|b| - 1] && value[|value| - 1] in b;
  }

  /** A header is accepted exactly when it spells two decimal numbers that close a part of the object. */
  lemma ParsedExact(header: string, size: nat, start: nat, end: nat)
    ensures ParseClosedRange(Some(header), size) == Ok(ClosedRange(start, end)) <==> Spells(header, start, end) && Part(start, end, size)
    ensures ParseClosedRange(Some(header), size).Ok? || ParseClosedRange(Some(header), size) == Err(BOUNDS)
    ensures ParseClosedRange(None, size) == Err(BOUNDS)
  {
    hide Read, MatchRange;
    if a, b :| header == "bytes=" + a + "-" + b && Digits(a) && Digits(b) && Read(a) == start && Read(b) == end {
      SpelledParts(header, a, b);
    }
    if ParseClosedRange(Some(header), size) == Ok(ClosedRange(start, end)) {
      ParsedSpells(header, size, start, end);
    }
  }

  lemma ParsedSpells(header: string, size: nat, start: nat, end: nat)
    requires ParseClosedRange(Some(header), size) == Ok(ClosedRange(start, end))
    ensures Spells(header, start, end) && Part(start, end, size)
  {
    hide Read, SplitDash;
    var value := header[|PREFIX|..];
    var (a, b) := MatchRange(value).value;
    assert header == PREFIX + value;
    assert header == "bytes=" + a + "-" + b;
    DigitsIn(a);
    DigitsIn(b);
  }

  lemma DigitsIn(s: string)
    requires s != "" && AllDigits(s)
    ensures Digits(s)
  {
    forall i | 0 <= i < |s|
      ensures '0' <= s[i] <= '9'
    {
      assert s[i] in s;
    }
  }

  // ---- Responses --------------------------------------------------------------------------

  /** What a response must be: 200 for anything but a raster; for a raster its tag, and its size without a body when only
      asked about, or exactly the part asked for. */
  ghost predicate Proper(key: string, verb: string, range: Option<ClosedRange>, a: Response) {
    if CogKind(key).None? then a.status == 200
    else
      exists size: nat, tag: string :: IsRaster(key, size, tag) && a.etag == Some(tag) &&
        if verb == "HEAD" then a.status == 200 && a.contentLength == Some(size) && |a.body| == 0
        else
          && range.Some? && a.status == 206 && a.contentLength == Some(|a.body|)
          && |a.body| == range.value.endInclusive - range.value.start + 1
          && a.contentRange == Some("bytes " + Show(range.value.start) + "-" + Show(range.value.endInclusive) + "/" + Show(size))
  }

  lemma ResponseExact(key: string, verb: string, range: Option<ClosedRange>, a: Response)
    ensures CheckResponse(CogKind(key), verb, range, a).Ok? <==> Proper(key, verb, range, a)
    ensures CheckResponse(CogKind(key), verb, range, a).Err? ==>
              CheckResponse(CogKind(key), verb, range, a) == Err(if CogKind(key).None? then IDENTITY else BOUNDS)
  {
    hide Show;
    if CogKind(key).Some? {
      var kind := CogKind(key).value;
      RastersExact(key, kind.ContentLength(), kind.ETag());
      forall size, tag | IsRaster(key, size, tag)
        ensures size == kind.ContentLength() && tag == kind.ETag()
      {
        RastersExact(key, size, tag);
      }
      hide IsRaster, CogKind, Kind.Key, Kind.ETag, Kind.ContentLength;
    }
  }

  /** A reply is passed on exactly when it is proper, and otherwise is the transport's failure or the refusal. */
  lemma CheckedExact(key: string, verb: string, range: Option<ClosedRange>, reply: Result<Response, FailureCode>)
    ensures var r := Checked(CogKind(key), verb, range, reply);
            && (forall a :: r == Ok(a) <==> reply == Ok(a) && Proper(key, verb, range, a))
            && (reply.Err? ==> r == reply)
  {
    hide CheckResponse, Proper;
    if reply.Ok? {
      ResponseExact(key, verb, range, reply.value);
    }
  }

  // ---- Records ----------------------------------------------------------------------------

  /** A record of an answered request says what was answered; one of a failed request that nothing was received. The
      range, if any, is half-open. */
  lemma RecordSays(number: nat, verb: string, key: string, origin: Origin, url: string, reply: Result<Response, FailureCode>,
                   range: Option<ClosedRange>)
    ensures var rec := RecordOf(number, verb, key, origin, url, reply, range);
            && rec.seqNumber == number && rec.verb == verb && rec.key == key && rec.origin == origin && rec.url == url
            && (rec.range.Some? <==> range.Some?)
            && (range.Some? ==> rec.range.value.0 == range.value.start && rec.range.value.1 - 1 == range.value.endInclusive)
            && (rec.completed <==> reply.Ok?)
            && (reply.Ok? ==>
                  && rec.error.None? && rec.bytesReceived == |reply.value.body| && rec.status == Some(reply.value.status)
                  && rec.etag == reply.value.etag && rec.contentLength == reply.value.contentLength
                  && rec.contentRange == reply.value.contentRange)
            && (reply.Err? ==>
                  && rec.error == Some(reply.error) && rec.bytesReceived == 0
                  && rec.status.None? && rec.etag.None? && rec.contentLength.None? && rec.contentRange.None?)
  {
  }

  /** A hosted GET of a key that ends in `.tif`. */
  ghost predicate RasterRead(rec: Record) {
    rec.origin == Origin.Hosted && rec.verb == "GET" && exists stem: string :: rec.key == stem + ".tif"
  }

  /** An acceptable line of the transcript: numbered, and, for a raster read, completed, of a released raster under the
      hosted base, with a non-empty part inside it and every count and header saying so. */
  ghost predicate Line(rec: Record, number: nat) {
    && rec.seqNumber == number
    && (RasterRead(rec) ==>
          exists size: nat, tag: string :: IsRaster(rec.key, size, tag)
            && rec.url == "https://basin-delineations-public.upstream.tech/grit/hfx-v0.3.0/" + rec.key
            && rec.completed && rec.status == Some(206) && rec.etag == Some(tag) && rec.range.Some?
            && var (start, end) := rec.range.value;
               && start < end <= size && rec.bytesReceived == end - start && rec.contentLength == Some(end - start)
               && rec.contentRange == Some("bytes " + Show(start) + "-" + Show(end - 1) + "/" + Show(size)))
  }

  lemma RasterReadExact(rec: Record)
    ensures IsRasterGet(rec) <==> RasterRead(rec)
  {
    if IsRasterGet(rec) {
      assert rec.key == rec.key[..|rec.key| - 4] + ".tif";
    }
    if stem: string :| rec.key == stem + ".tif" {
      assert rec.key[|rec.key| - 4..] == ".tif";
    }
  }

  lemma LineExact(rec: Record, number: nat)
    ensures CheckRecord(rec, number).Ok? <==> Line(rec, number)
  {
    hide Show;
    RasterReadExact(rec);
    hide IsRasterGet, RasterRead;
    if CogKind(rec.key).Some? {
      var kind := CogKind(rec.key).value;
      RastersExact(rec.key, kind.ContentLength(), kind.ETag());
      forall size, tag | IsRaster(rec.key, size, tag)
        ensures size == kind.ContentLength() && tag == kind.ETag()
      {
        RastersExact(rec.key, size, tag);
      }
    } else {
      forall size, tag
        ensures !IsRaster(rec.key, size, tag)
      {
        RastersExact(rec.key, size, tag);
      }
    }
    hide IsRaster, CogKind, Kind.Key, Kind.ETag, Kind.ContentLength;
  }

  /** The transcript is accepted exactly when it is not empty and every line is acceptable. */
  lemma TranscriptExact(records: seq<Record>)
    ensures Proxy.Accepted(records) <==> records != [] && forall i :: 0 <= i < |records| ==> Line(records[i], i + 1)
  {
    hide CheckRecord, Line;
    forall i | 0 <= i < |records|
      ensures CheckRecord(records[i], i + 1).Ok? <==> Line(records[i], i + 1)
    {
      LineExact(records[i], i + 1);
    }
  }

  // ---- Accounts ---------------------------------------------------------------------------

  /** A completed hosted GET of a raster with a range. */
  predicate RasterOf(rec: Record, kind: Kind) {
    && rec.origin == Origin.Hosted && rec.completed && rec.verb == "GET" && rec.range.Some?
    && rec.key == (if kind == FlowDir then "aux/d8/flow_dir.tif" else "aux/d8/flow_acc.tif")
  }

  function Span(rec: Record): int
    requires rec.range.Some?
  {
    rec.range.value.1 - rec.range.value.0
  }

  /** Each completed read of the raster adds one and its own bytes; no other record adds anything. */
  lemma TalliesExact(records: seq<Record>, rec: Record, kind: Kind)
    ensures CountOf([], kind) == 0 && TotalOf([], kind) == 0
    ensures CountOf(records + [rec], kind) == CountOf(records, kind) + (if RasterOf(rec, kind) then 1 else 0)
    ensures TotalOf(records + [rec], kind) == TotalOf(records, kind) + (if RasterOf(rec, kind) then Span(rec) else 0)
  {
    hide CountOf, TotalOf, LargestOf;
    Tally(records, rec, kind);
    NoTally(kind);
  }

  lemma NoTally(kind: Kind)
    ensures CountOf([], kind) == 0 && TotalOf([], kind) == 0 && LargestOf([], kind) == 0
  {
  }

  ghost predicate Widest(n: int, records: seq<Record>, kind: Kind) {
    && (forall i :: 0 <= i < |records| && RasterOf(records[i], kind) ==> Span(records[i]) <= n)
    && (n == 0 || exists i :: 0 <= i < |records| && RasterOf(records[i], kind) && Span(records[i]) == n)
  }

  /** The third counter is the greatest of those bytes, zero if there were no reads. */
  lemma {:induction false} LargestExact(records: seq<Record>, kind: Kind)
    ensures Widest(LargestOf(records, kind), records, kind) && LargestOf(records, kind) >= 0
  {
    hide Widest, LargestOf, IsCogRead, RasterOf;
    if records == [] {
      NoTally(kind);
      NoneWider(kind);
    } else {
      var init, last := records[..|records| - 1], records[|records| - 1];
      LargestExact(init, kind);
      assert records == init + [last];
      Tally(init, last, kind);
      OneMoreRead(LargestOf(init, kind), init, last, kind);
    }
  }

  lemma NoneWider(kind: Kind)
    ensures Widest(0, [], kind)
  {
  }

  lemma OneMoreRead(n: int, init: seq<Record>, last: Record, kind: Kind)
    requires Widest(n, init, kind) && n >= 0
    ensures IsCogRead(last, kind) <==> RasterOf(last, kind)
    ensures var m := if IsCogRead(last, kind) then Max(n, ReadLength(last)) else n; m >= 0 && Widest(m, init + [last], kind)
  {
    var all := init + [last];
    assert forall i :: 0 <= i < |init| ==> all[i] == init[i];
    assert all[|init|] == last;
  }
}
