/** The byte-budget proxy and the verifier of its transcript. */
module Proxy {
  import opened Bytes
  import opened CandidateSearch
  import opened Decimal
  import opened Results

  const HOSTED_BASE := "https://basin-delineations-public.upstream.tech/grit/hfx-v0.3.0/"
  const MAX_PLANNED_TILE_COUNT := 65_536
  const MAX_COMPRESSED_CHUNK_BYTES := 16_777_216
  const MAX_COVERED_CHUNK_BYTES := 1_073_741_824

  datatype Kind = FlowDir | FlowAcc {
    function Key(): string {
      match this
      case FlowDir => "aux/d8/flow_dir.tif"
      case FlowAcc => "aux/d8/flow_acc.tif"
    }

    function ContentLength(): nat {
      match this
      case FlowDir => 50_686_516_478
      case FlowAcc => 205_069_870_081
    }

    function ETag(): string {
      match this
      case FlowDir => "\"bc48d1013cf6908fb44c325dd2ad10ab-1511\""
      case FlowAcc => "\"49eab3942a26036aa49e72ea33a1b724-6112\""
    }
  }

  function CogKind(key: string): (k: Option<Kind>)
    ensures k.Some? ==> key == k.value.Key()
  {
    if key == FlowDir.Key() then Some(FlowDir) else if key == FlowAcc.Key() then Some(FlowAcc) else None
  }

  // ---- Ranges -----------------------------------------------------------------------------

  datatype ClosedRange = ClosedRange(start: nat, endInclusive: nat) {
    function Length(): int {
      endInclusive - start + 1
    }

    /** Non-empty, inside the object, not the whole of it, and below the single-chunk ceiling. */
    predicate Allowed(size: nat) {
      && start <= endInclusive < size
      && !(start == 0 && endInclusive == size - 1)
      && Length() < MAX_COMPRESSED_CHUNK_BYTES
    }
  }

  const PREFIX := "bytes="

  function FormatRange(r: ClosedRange): string {
    PREFIX + Show(r.start) + "-" + Show(r.endInclusive)
  }

  /** The part before the first dash and the part after it. */
  function SplitDash(s: string): (r: Option<(string, string)>)
    ensures r.Some? ==> s == r.value.0 + "-" + r.value.1 && '-' !in r.value.0
    ensures r.None? ==> '-' !in s
  {
    if s == "" then None
    else if s[0] == '-' then Some(("", s[1..]))
    else
      match SplitDash(s[1..])
      case None => None
      case Some((a, b)) => assert s == ([s[0]] + a) + "-" + b; Some(([s[0]] + a, b))
  }

  /** `re.fullmatch(r"([0-9]+)-([0-9]+)", value)`. */
  function MatchRange(s: string): (r: Option<(string, string)>)
    ensures r.Some? ==> s == r.value.0 + "-" + r.value.1
    ensures r.Some? ==> r.value.0 != "" && r.value.1 != "" && AllDigits(r.value.0) && AllDigits(r.value.1)
  {
    match SplitDash(s)
    case None => None
    case Some((a, b)) => if a != "" && b != "" && AllDigits(a) && AllDigits(b) then Some((a, b)) else None
  }

  function ParseClosedRange(header: Option<string>, size: nat): Result<ClosedRange, FailureCode> {
    if header.None? || !(PREFIX <= header.value) then Err(BOUNDS)
    else
      var value := header.value[|PREFIX|..];
      if ',' in value || (value != "" && (value[0] == '-' || value[|value| - 1] == '-')) then Err(BOUNDS)
      else
        match MatchRange(value)
        case None => Err(BOUNDS)
        case Some((a, b)) =>
          var start, end := Read(a), Read(b);
          if start > end || end >= size || (start == 0 && end == size - 1) then Err(BOUNDS)
          else if ClosedRange(start, end).Length() >= MAX_COMPRESSED_CHUNK_BYTES then Err(BOUNDS)
          else Ok(ClosedRange(start, end))
  }

  /** Only allowed ranges are parsed, whatever the header. */
  lemma ParsedIsAllowed(header: Option<string>, size: nat)
    ensures ParseClosedRange(header, size).Ok? ==> ParseClosedRange(header, size).value.Allowed(size)
  {
  }

  lemma {:induction false} SplitJoined(a: string, b: string)
    requires '-' !in a
    ensures SplitDash(a + "-" + b) == Some((a, b))
  {
    var s := a + "-" + b;
    if a == "" {
      assert s[1..] == b;
    } else {
      assert s[1..] == a[1..] + "-" + b;
      assert a == [a[0]] + a[1..];
      SplitJoined(a[1..], b);
    }
  }

  lemma DigitsOnly(s: string)
    requires AllDigits(s)
    ensures '-' !in s && ',' !in s
  {
  }

  /** A formatted range is accepted exactly when it is allowed, and then it comes back. */
  lemma RangeRoundTrip(r: ClosedRange, size: nat)
    ensures ParseClosedRange(Some(FormatRange(r)), size) == if r.Allowed(size) then Ok(r) else Err(BOUNDS)
  {
    hide Show, Read, SplitDash;
    var a, b := Show(r.start), Show(r.endInclusive);
    var value := a + "-" + b;
    assert FormatRange(r)[|PREFIX|..] == value;
    DigitsOnly(a);
    DigitsOnly(b);
    SplitJoined(a, b);
    assert value[0] == a[0] && value[0] in a;
    assert value[|value| - 1] == b[|b| - 1] && value[|value| - 1] in b;
    ReadShow(r.start);
    ReadShow(r.endInclusive);
  }

  // ---- Transcript records -----------------------------------------------------------------

  datatype Response = Response(status: int, etag: Option<string>, contentLength: Option<int>, contentRange: Option<string>, body: seq<byte>)
  datatype Origin = Hosted | LocalCandidate

  /** One line of the transcript. */
  datatype Record = Record(
    bytesReceived: nat, completed: bool, error: Option<FailureCode>, etag: Option<string>, key: string, verb: string,
    origin: Origin, range: Option<(nat, nat)>, contentLength: Option<int>, contentRange: Option<string>,
    seqNumber: nat, status: Option<int>, url: string)

  function RecordOf(number: nat, verb: string, key: string, origin: Origin, url: string,
                    reply: Result<Response, FailureCode>, range: Option<ClosedRange>): Record {
    var span := match range { case None => None case Some(r) => Some((r.start, r.endInclusive + 1)) };
    match reply
    case Ok(a) => Record(|a.body|, true, None, a.etag, key, verb, origin, span, a.contentLength, a.contentRange, number, Some(a.status), url)
    case Err(code) => Record(0, false, Some(code), None, key, verb, origin, span, None, None, number, None, url)
  }

  function ContentRange(start: nat, endInclusive: nat, size: nat): string {
    "bytes " + Show(start) + "-" + Show(endInclusive) + "/" + Show(size)
  }

  /** A completed ranged read of a raster. */
  predicate IsCogRead(rec: Record, kind: Kind) {
    rec.origin.Hosted? && rec.completed && rec.verb == "GET" && rec.key == kind.Key() && rec.range.Some?
  }

  function ReadLength(rec: Record): int {
    if rec.range.Some? then rec.range.value.1 - rec.range.value.0 else 0
  }

  function CountOf(records: seq<Record>, kind: Kind): nat {
    if records == [] then 0
    else CountOf(records[..|records| - 1], kind) + if IsCogRead(records[|records| - 1], kind) then 1 else 0
  }

  function TotalOf(records: seq<Record>, kind: Kind): int {
    if records == [] then 0
    else TotalOf(records[..|records| - 1], kind) + if IsCogRead(records[|records| - 1], kind) then ReadLength(records[|records| - 1]) else 0
  }

  function Max(a: int, b: int): int {
    if a >= b then a else b
  }

  function LargestOf(records: seq<Record>, kind: Kind): int {
    if records == [] then 0
    else if IsCogRead(records[|records| - 1], kind) then Max(LargestOf(records[..|records| - 1], kind), ReadLength(records[|records| - 1]))
    else LargestOf(records[..|records| - 1], kind)
  }

  // ---- The verifier of transcripts --------------------------------------------------------

  predicate EndsWith(s: string, suffix: string) {
    |s| >= |suffix| && s[|s| - |suffix|..] == suffix
  }

  predicate IsRasterGet(rec: Record) {
    rec.origin.Hosted? && EndsWith(rec.key, ".tif") && rec.verb == "GET"
  }

  function CheckRecord(rec: Record, number: nat): Result<(), FailureCode> {
    if rec.seqNumber != number then Err(EVIDENCE)
    else if !IsRasterGet(rec) then Ok(())
    else
      var kind := CogKind(rec.key);
      if kind.None? || rec.url != HOSTED_BASE + rec.key then Err(IDENTITY)
      else if !rec.completed || rec.status != Some(206) || rec.range.None? || rec.etag != Some(kind.value.ETag()) then Err(BOUNDS)
      else
        var (start, end) := rec.range.value;
        if end <= start || end > kind.value.ContentLength() || rec.bytesReceived != end - start || rec.contentLength != Some(end - start)
        then Err(BOUNDS)
        else if rec.contentRange != Some(ContentRange(start, end - 1, kind.value.ContentLength())) then Err(BOUNDS)
        else Ok(())
  }

  ghost predicate Accepted(records: seq<Record>) {
    records != [] && forall i :: 0 <= i < |records| ==> CheckRecord(records[i], i + 1).Ok?
  }

  method ValidateCompletedReads(records: seq<Record>) returns (r: Result<seq<Record>, FailureCode>)
    ensures r.Ok? <==> Accepted(records)
    ensures r.Ok? ==> r.value == records
  {
    hide CheckRecord;
    for i := 0 to |records|
      invariant forall j :: 0 <= j < i ==> CheckRecord(records[j], j + 1).Ok?
    {
      var checked := CheckRecord(records[i], i + 1);
      if checked.Err? {
        return Err(checked.error);
      }
    }
    return if records == [] then Err(EVIDENCE) else Ok(records);
  }

  // ---- The controller ---------------------------------------------------------------------

  /** A request the proxy forwards. */
  datatype Forwarded = Forwarded(verb: string, url: string, range: Option<string>)

  function ObserveCeiling(observed: int, ceiling: int): Result<(), FailureCode> {
    if ceiling - observed < 1 then Err(BOUNDS) else Ok(())
  }

  /** `_validate_response`. */
  function CheckResponse(kind: Option<Kind>, verb: string, range: Option<ClosedRange>, a: Response): Result<(), FailureCode> {
    if kind.None? then
      if a.status != 200 then Err(IDENTITY) else Ok(())
    else if a.etag != Some(kind.value.ETag()) then Err(BOUNDS)
    else if verb == "HEAD" then
      if a.status != 200 || a.contentLength != Some(kind.value.ContentLength()) || a.body != [] then Err(BOUNDS) else Ok(())
    else if range.None? then Err(BOUNDS)
    else if a.status != 206 || a.contentRange != Some(ContentRange(range.value.start, range.value.endInclusive, kind.value.ContentLength()))
            || |a.body| != range.value.Length() || a.contentLength != Some(range.value.Length()) then Err(BOUNDS)
    else Ok(())
  }

  function Checked(kind: Option<Kind>, verb: string, range: Option<ClosedRange>, reply: Result<Response, FailureCode>): Result<Response, FailureCode> {
    var a :- reply;
    var _ :- CheckResponse(kind, verb, range, a);
    Ok(a)
  }

  /** A recorded raster read is one the verifier accepts, unless it failed or its key is not a raster's. */
  predicate Faithful(rec: Record, number: nat) {
    && rec.seqNumber == number
    && (rec.origin.Hosted? ==> rec.url == HOSTED_BASE + rec.key)
    && (IsRasterGet(rec) && rec.completed && CogKind(rec.key).Some? ==> CheckRecord(rec, number).Ok?)
    && (rec.range.Some? ==> 0 < ReadLength(rec) < MAX_COMPRESSED_CHUNK_BYTES)
  }

  lemma Tally(records: seq<Record>, rec: Record, kind: Kind)
    ensures CountOf(records + [rec], kind) == CountOf(records, kind) + if IsCogRead(rec, kind) then 1 else 0
    ensures TotalOf(records + [rec], kind) == TotalOf(records, kind) + if IsCogRead(rec, kind) then ReadLength(rec) else 0
    ensures LargestOf(records + [rec], kind)
            == if IsCogRead(rec, kind) then Max(LargestOf(records, kind), ReadLength(rec)) else LargestOf(records, kind)
  {
    hide IsCogRead, ReadLength, Max;
    assert (records + [rec])[..|records + [rec]| - 1] == records;
  }

  /** A range exists exactly for a raster GET, and is allowed for that raster. */
  predicate Admitted(verb: string, key: string, range: Option<ClosedRange>) {
    && (range.Some? <==> CogKind(key).Some? && verb == "GET")
    && (range.Some? ==> range.value.Allowed(CogKind(key).value.ContentLength()))
  }

  /** What the record of a forwarded request says. */
  lemma ForwardedRecord(number: nat, verb: string, key: string, range: Option<ClosedRange>, reply: Result<Response, FailureCode>)
    requires Admitted(verb, key, range)
    ensures var r := Checked(CogKind(key), verb, range, reply);
            var rec := RecordOf(number, verb, key, Origin.Hosted, HOSTED_BASE + key, r, range);
            && Faithful(rec, number)
            && (forall kind :: IsCogRead(rec, kind) <==> r.Ok? && range.Some? && CogKind(key) == Some(kind))
            && (range.Some? ==> ReadLength(rec) == range.value.Length())
  {
    hide Show, ContentRange;
    KeysApart();
  }

  /** Read-only, and a raster is only ever asked for an allowed part of itself. */
  ghost predicate Bounded(q: Forwarded) {
    && (q.verb == "HEAD" || q.verb == "GET")
    && (forall kind: Kind :: q.verb == "GET" && q.url == HOSTED_BASE + kind.Key() ==>
          exists r: ClosedRange :: r.Allowed(kind.ContentLength()) && q.range == Some(FormatRange(r)))
  }

  lemma ForwardedBounded(verb: string, key: string, range: Option<ClosedRange>)
    requires (verb == "HEAD" || verb == "GET") && Admitted(verb, key, range)
    ensures Bounded(Forwarded(verb, HOSTED_BASE + key, if range.Some? then Some(FormatRange(range.value)) else None))
  {
    hide FormatRange;
    KeysApart();
    forall kind: Kind | verb == "GET" && HOSTED_BASE + key == HOSTED_BASE + kind.Key()
      ensures range.Some? && range.value.Allowed(kind.ContentLength())
    {
      assert (HOSTED_BASE + key)[|HOSTED_BASE|..] == key && (HOSTED_BASE + kind.Key())[|HOSTED_BASE|..] == kind.Key();
    }
  }

  lemma AdmittedLength(verb: string, key: string, range: Option<ClosedRange>)
    requires Admitted(verb, key, range)
    ensures range.Some? ==> CogKind(key).Some? && verb == "GET" && 0 < range.value.Length() < MAX_COMPRESSED_CHUNK_BYTES
  {
  }

  lemma KeysApart()
    ensures FlowDir.Key() != FlowAcc.Key()
    ensures EndsWith(FlowDir.Key(), ".tif") && EndsWith(FlowAcc.Key(), ".tif")
  {
    assert FlowDir.Key()[|FlowDir.Key()| - 5] == 'r' && FlowAcc.Key()[|FlowAcc.Key()| - 5] == 'c';
  }

  /** Candidate substitution plus bounded forwarding for one proof case, calls one after another. `transport`
      answers the n-th forwarded request; `routable` says which keys stay under the hosted prefix. */
  class ProxyController {
    const candidate: seq<byte>
    const candidateValid: bool
    const candidateTag: string
    const routable: string -> bool
    const transport: (nat, Forwarded) -> Result<Response, FailureCode>
    var records: seq<Record>
    var mutationAttempts: nat
    var fatal: Option<FailureCode>
    var covered: map<Kind, int>
    var rangeCount: map<Kind, nat>
    var maxRange: map<Kind, int>
    ghost var sent: seq<Forwarded>

    constructor (candidate: seq<byte>, candidateValid: bool, candidateTag: string, routable: string -> bool,
                 transport: (nat, Forwarded) -> Result<Response, FailureCode>)
      ensures Valid() && records == [] && sent == [] && fatal == None && mutationAttempts == 0
    {
      this.candidate, this.candidateValid, this.candidateTag := candidate, candidateValid, candidateTag;
      this.routable, this.transport := routable, transport;
      records, mutationAttempts, fatal, sent := [], 0, None, [];
      covered := map[FlowDir := 0, FlowAcc := 0];
      rangeCount := map[FlowDir := 0, FlowAcc := 0];
      maxRange := map[FlowDir := 0, FlowAcc := 0];
    }

    /** The counters of a kind are the count, sum and maximum over its completed reads, strictly under the ceilings. */
    ghost predicate Accounted(kind: Kind)
      reads this
    {
      && kind in rangeCount && kind in covered && kind in maxRange
      && rangeCount[kind] == CountOf(records, kind) < MAX_PLANNED_TILE_COUNT
      && covered[kind] == TotalOf(records, kind) < MAX_COVERED_CHUNK_BYTES
      && maxRange[kind] == LargestOf(records, kind) < MAX_COMPRESSED_CHUNK_BYTES
    }

    ghost predicate Valid()
      reads this
    {
      && Accounted(FlowDir) && Accounted(FlowAcc)
      && (forall i :: 0 <= i < |records| ==> Faithful(records[i], i + 1))
      && (forall q :: q in sent ==> Bounded(q))
    }

    method LocalCandidate(verb: string, url: string) returns (r: Result<Response, FailureCode>)
      requires Valid()
      modifies this`records
      ensures Valid()
      ensures r == if candidateValid
                   then Ok(Response(200, Some(candidateTag), Some(|candidate|), None, if verb == "GET" then candidate else []))
                   else Err(IDENTITY)
      ensures !candidateValid ==> records == old(records)
      ensures candidateValid ==>
                records == old(records) + [RecordOf(|old(records)| + 1, verb, "manifest.json", Origin.LocalCandidate, url, Ok(r.value), None)]
    {
      if !candidateValid {
        return Err(IDENTITY);
      }
      var a := Response(200, Some(candidateTag), Some(|candidate|), None, if verb == "GET" then candidate else []);
      records := records + [RecordOf(|records| + 1, verb, "manifest.json", Origin.LocalCandidate, url, Ok(a), None)];
      assert records[..|records| - 1] == old(records);
      r := Ok(a);
    }

    /** The checks before anything is forwarded: routing, the range, and both running ceilings. */
    function Admit(verb: string, key: string, header: Option<string>): (r: Result<Option<ClosedRange>, FailureCode>)
      requires Accounted(FlowDir) && Accounted(FlowAcc)
      reads this
      ensures r.Ok? ==> Admitted(verb, key, r.value)
      ensures r.Ok? <==>
                routable(key) &&
                (verb == "GET" && CogKind(key).Some? ==>
                   var kind := CogKind(key).value;
                   var range := ParseClosedRange(header, kind.ContentLength());
                   range.Ok? && rangeCount[kind] + 1 < 65_536 && covered[kind] + range.value.Length() < 1_073_741_824)
      ensures r.Ok? && r.value.Some? ==> Ok(r.value.value) == ParseClosedRange(header, CogKind(key).value.ContentLength())
      ensures r.Err? ==> r.error == if routable(key) then BOUNDS else IDENTITY
      ensures r.Ok? && r.value.Some? ==>
                var kind := CogKind(key).value;
                && rangeCount[kind] + 1 < MAX_PLANNED_TILE_COUNT
                && covered[kind] + r.value.value.Length() < MAX_COVERED_CHUNK_BYTES
    {
      if !routable(key) then Err(IDENTITY)
      else
        var kind := CogKind(key);
        if kind.None? || verb != "GET" then Ok(None)
        else
          var range :- ParseClosedRange(header, kind.value.ContentLength());
          var _ :- ObserveCeiling(rangeCount[kind.value] + 1, MAX_PLANNED_TILE_COUNT);
          var _ :- ObserveCeiling(covered[kind.value] + range.Length(), MAX_COVERED_CHUNK_BYTES);
          Ok(Some(range))
    }

    /** Bring the counters of one kind up to date with the record just appended. */
    method Account(kind: Kind, length: int)
      requires forall k: Kind :: k != kind ==> Accounted(k)
      requires kind in rangeCount && kind in covered && kind in maxRange
      requires rangeCount[kind] + 1 == CountOf(records, kind) < MAX_PLANNED_TILE_COUNT
      requires covered[kind] + length == TotalOf(records, kind) < MAX_COVERED_CHUNK_BYTES
      requires Max(maxRange[kind], length) == LargestOf(records, kind) < MAX_COMPRESSED_CHUNK_BYTES
      modifies this`rangeCount, this`covered, this`maxRange
      ensures Accounted(FlowDir) && Accounted(FlowAcc)
    {
      hide CountOf, TotalOf, LargestOf;
      assert Accounted(if kind.FlowDir? then FlowAcc else FlowDir);
      rangeCount := rangeCount[kind := rangeCount[kind] + 1];
      covered := covered[kind := covered[kind] + length];
      maxRange := maxRange[kind := Max(maxRange[kind], length)];
    }

    method Hosted(verb: string, key: string, header: Option<string>) returns (r: Result<Response, FailureCode>)
      requires Valid()
      modifies this
      ensures Valid()
      ensures verb != "HEAD" && verb != "GET" ==>
                && r == Err(IDENTITY) && fatal == Some(IDENTITY) && mutationAttempts == old(mutationAttempts) + 1
                && records == old(records) && sent == old(sent)
      ensures (verb == "HEAD" || verb == "GET") ==> mutationAttempts == old(mutationAttempts)
      ensures (verb == "HEAD" || verb == "GET") && old(Admit(verb, key, header)).Err? ==>
                r == Err(old(Admit(verb, key, header)).error) && fatal == old(fatal) && records == old(records) && sent == old(sent)
      ensures (verb == "HEAD" || verb == "GET") && old(Admit(verb, key, header)).Ok? ==>
                var range := old(Admit(verb, key, header)).value;
                var request := Forwarded(verb, HOSTED_BASE + key, if range.Some? then Some(FormatRange(range.value)) else None);
                && sent == old(sent) + [request]
                && r == Checked(CogKind(key), verb, range, transport(|old(records)|, request))
                && records == old(records) + [RecordOf(|old(records)| + 1, verb, key, Origin.Hosted, HOSTED_BASE + key, r, range)]
                && fatal == if r.Err? then Some(r.error) else old(fatal)
    {
      hide CheckRecord, CheckResponse, Checked, ParseClosedRange, FormatRange, CountOf, TotalOf, LargestOf, RecordOf, IsCogRead, ReadLength,
           Faithful, Admitted, CogKind, Bounded;
      if verb != "HEAD" && verb != "GET" {
        mutationAttempts := mutationAttempts + 1;
        fatal := Some(IDENTITY);
        return Err(IDENTITY);
      }
      var range :- Admit(verb, key, header);
      var kind := CogKind(key);
      var request := Forwarded(verb, HOSTED_BASE + key, if range.Some? then Some(FormatRange(range.value)) else None);
      var reply := transport(|records|, request);
      sent := sent + [request];
      r := Checked(kind, verb, range, reply);
      var rec := RecordOf(|records| + 1, verb, key, Origin.Hosted, HOSTED_BASE + key, r, range);
      ForwardedBounded(verb, key, range);
      ForwardedRecord(|records| + 1, verb, key, range, reply);
      AdmittedLength(verb, key, range);
      Tally(records, rec, FlowDir);
      Tally(records, rec, FlowAcc);
      records := records + [rec];
      if r.Err? {
        fatal := Some(r.error);
      } else if kind.Some? && verb == "GET" && range.Some? {
        Account(kind.value, range.value.Length());
      }
    }
  }

  // ---- Runs and transcripts ---------------------------------------------------------------

  /** Every raster read of the transcript was completed and has the key of one of the two rasters. */
  ghost predicate OnlyCompletedRasters(records: seq<Record>) {
    forall rec :: rec in records && IsRasterGet(rec) ==> rec.completed && CogKind(rec.key).Some?
  }

  /** Whatever calls were made, the verifier accepts the transcript exactly when it is non-empty and holds no
      failed raster read and no `.tif` of another key. */
  lemma TranscriptAccepted(proxy: ProxyController)
    requires proxy.Valid()
    ensures Accepted(proxy.records) <==> proxy.records != [] && OnlyCompletedRasters(proxy.records)
  {
    hide Faithful, CheckRecord;
    forall i | 0 <= i < |proxy.records|
      ensures CheckRecord(proxy.records[i], i + 1).Ok?
              <==> (IsRasterGet(proxy.records[i]) ==> proxy.records[i].completed && CogKind(proxy.records[i].key).Some?)
    {
      FaithfulChecked(proxy.records[i], i + 1);
    }
    if Accepted(proxy.records) {
      forall rec | rec in proxy.records && IsRasterGet(rec)
        ensures rec.completed && CogKind(rec.key).Some?
      {
        var i :| 0 <= i < |proxy.records| && proxy.records[i] == rec;
      }
    }
    if OnlyCompletedRasters(proxy.records) {
      assert forall i :: 0 <= i < |proxy.records| ==> proxy.records[i] in proxy.records;
    }
  }

  lemma FaithfulChecked(rec: Record, number: nat)
    requires Faithful(rec, number)
    ensures CheckRecord(rec, number).Ok? <==> (IsRasterGet(rec) ==> rec.completed && CogKind(rec.key).Some?)
  {
    hide EndsWith, ContentRange;
  }

  /** A call a client makes. */
  datatype Call = Candidate(verb: string, url: string) | Forward(verb: string, key: string, header: Option<string>)

  /** A whole session: any calls, in order, whether or not they fail. */
  method Serve(proxy: ProxyController, calls: seq<Call>)
    requires proxy.Valid()
    modifies proxy
    ensures proxy.Valid()
    ensures old(proxy.records) <= proxy.records
    ensures old(proxy.sent) <= proxy.sent
    ensures Accepted(proxy.records) <==> proxy.records != [] && OnlyCompletedRasters(proxy.records)
  {
    hide Accepted, OnlyCompletedRasters;
    for i := 0 to |calls|
      invariant proxy.Valid() && old(proxy.records) <= proxy.records && old(proxy.sent) <= proxy.sent
    {
      match calls[i] {
        case Candidate(verb, url) =>
          var _ := proxy.LocalCandidate(verb, url);
        case Forward(verb, key, header) =>
          var _ := proxy.Hosted(verb, key, header);
      }
    }
    TranscriptAccepted(proxy);
  }
}
