/** The ordered candidate search, its rejection ledger, and the verifier of that ledger. */
module CandidateSearch {
  import opened JsonDiff
  import opened Results

  datatype FailureCode =
    | CONFIG | WHEEL | OUTPUT | IDENTITY | WORKER | ZERO_READS | REQUIRE_D8 | BOUNDS | EVIDENCE | EXHAUSTED
    | UNRESOLVED | INTERNAL

  datatype CaseMode = Horizontal | Distant | Negative {
    function Name(): string {
      match this
      case Horizontal => "horizontal-boundary"
      case Distant => "distant-region"
      case Negative => "negative-flow-direction"
    }
  }

  datatype RejectionCode = Bounds | Distance | RequireD8 | Unresolved {
    function Name(): string {
      match this
      case Bounds => "BOUNDS"
      case Distance => "DISTANCE"
      case RequireD8 => "REQUIRE_D8"
      case Unresolved => "UNRESOLVED"
    }
  }

  /** A longitude and a latitude; `None` is NaN or an infinity. */
  datatype Coordinate = Coordinate(lon: Option<real>, lat: Option<real>) {
    predicate Valid() {
      lon.Some? && lat.Some? && -180.0 <= lon.value <= 180.0 && -90.0 <= lat.value <= 90.0
    }
  }

  datatype Ranked = Ranked(rank: nat, at: Coordinate)
  datatype Rejection = Rejection(rank: nat, at: Coordinate, code: RejectionCode)

  /** What is raised: a coded failure, or exhaustion carrying the complete ledger. */
  datatype Raised = Failure(code: FailureCode) | Exhaustion(ledger: Json)

  // ---- The ledger -------------------------------------------------------------------------

  function NumberOf(x: Option<real>): Json {
    if x.Some? then Float(x.value) else Null
  }

  function EntryOf(r: Rejection): Json {
    Dict(map["coordinate" := List([NumberOf(r.at.lon), NumberOf(r.at.lat)]), "rank" := Int(r.rank), "rejection_code" := Str(r.code.Name())])
  }

  function LedgerOf(rejections: seq<Rejection>): Json {
    List(seq(|rejections|, i requires 0 <= i < |rejections| => EntryOf(rejections[i])))
  }

  function Attempted(rejections: seq<Rejection>): (s: seq<Ranked>)
    ensures |s| == |rejections|
  {
    seq(|rejections|, i requires 0 <= i < |rejections| => Ranked(rejections[i].rank, rejections[i].at))
  }

  /** One rejection reason for every ordered candidate that was not accepted. */
  class CandidateDiagnostics {
    var attempts: seq<Ranked>
    var rejections: seq<Rejection>
    var open: Option<Ranked>
    var accepted: bool

    constructor ()
      ensures Valid() && attempts == [] && rejections == [] && open == None && !accepted
    {
      attempts, rejections, open, accepted := [], [], None, false;
    }

    /** Attempts are ranked 1, 2, ... and every one is rejected, except that the last may be open or accepted. */
    ghost predicate Valid()
      reads this
    {
      && (forall i :: 0 <= i < |attempts| ==> attempts[i].rank == i + 1 && attempts[i].at.Valid())
      && (open.Some? ==> !accepted)
      && |attempts| == |rejections| + (if open.Some? || accepted then 1 else 0)
      && Attempted(rejections) == attempts[..|rejections|]
      && (open.Some? ==> attempts[|rejections|] == open.value)
    }

    method Start(rank: nat, at: Coordinate) returns (ok: bool)
      requires Valid()
      modifies this`attempts, this`open
      ensures Valid()
      ensures ok <==> !accepted && old(open).None? && rank == |old(attempts)| + 1 && at.Valid()
      ensures ok ==> attempts == old(attempts) + [Ranked(rank, at)] && open == Some(Ranked(rank, at))
      ensures !ok ==> attempts == old(attempts) && open == old(open)
    {
      if accepted || open.Some? || rank != |attempts| + 1 || !at.Valid() {
        return false;
      }
      attempts := attempts + [Ranked(rank, at)];
      open := Some(Ranked(rank, at));
      return true;
    }

    method Reject(code: RejectionCode) returns (ok: bool)
      requires Valid()
      modifies this`rejections, this`open
      ensures Valid()
      ensures ok <==> old(open).Some?
      ensures ok ==> rejections == old(rejections) + [Rejection(old(open).value.rank, old(open).value.at, code)] && open == None
      ensures !ok ==> rejections == old(rejections) && open == old(open)
    {
      if open.None? {
        return false;
      }
      rejections := rejections + [Rejection(open.value.rank, open.value.at, code)];
      open := None;
      return true;
    }

    method Accept() returns (ok: bool)
      requires Valid()
      modifies this`open, this`accepted
      ensures Valid()
      ensures ok <==> old(open).Some?
      ensures ok ==> open == None && accepted
      ensures !ok ==> open == old(open) && accepted == old(accepted)
    {
      if open.None? {
        return false;
      }
      open := None;
      accepted := true;
      return true;
    }

    /** The ledger; refused when some attempt has neither a rejection nor the acceptance. */
    function Evidence(): (r: Result<Json, FailureCode>)
      requires Valid()
      reads this
      ensures r.Ok? <==> open.None?
      ensures r.Ok? ==> r.value == LedgerOf(rejections)
    {
      var expected := if accepted then attempts[..|attempts| - 1] else attempts;
      assert open.None? ==> Attempted(rejections) == expected;
      if Attempted(rejections) != expected then Err(EVIDENCE) else Ok(LedgerOf(rejections))
    }

    /** Always raises. */
    function Exhausted(): (r: Raised)
      requires Valid()
      reads this
      ensures open.None? && !accepted ==> r == Exhaustion(LedgerOf(rejections))
      ensures open.Some? || accepted ==> r == Failure(EVIDENCE)
    {
      var ledger := Evidence();
      if ledger.Err? then Failure(ledger.error)
      else if open.Some? || accepted then Failure(EVIDENCE)
      else Exhaustion(ledger.value)
    }
  }

  // ---- One candidate ----------------------------------------------------------------------

  /** The failures a case turns into rejections. */
  function RejectionOf(code: FailureCode, mode: CaseMode): Option<RejectionCode> {
    if mode.Negative? then None
    else match code
      case BOUNDS => Some(Bounds)
      case REQUIRE_D8 => Some(RequireD8)
      case UNRESOLVED => Some(Unresolved)
      case _ => None
  }

  /** The world around the search: the distance between two coordinates, one worker attempt, and the live predicate. */
  datatype World<!A> = World(
    distance: (Coordinate, Coordinate) -> real,
    attempt: (Coordinate, nat) -> Result<A, FailureCode>,
    measure: A -> Result<(), FailureCode>)

  const MINIMUM_DISTANCE := 1_000_000.0

  function RequireDistant(distance: (Coordinate, Coordinate) -> real, horizontal: Coordinate, at: Coordinate): Result<real, FailureCode> {
    if distance(horizontal, at) < MINIMUM_DISTANCE then Err(EXHAUSTED) else Ok(distance(horizontal, at))
  }

  /** What becomes of one candidate: accepted, rejected with a reason, or the end of the search. */
  datatype Verdict<A> = Accepted(attempt: A, far: Option<real>) | Rejected(reason: RejectionCode) | Raises(code: FailureCode)

  function Judge<A>(world: World<A>, mode: CaseMode, horizontal: Option<Coordinate>, at: Coordinate, rank: nat): Verdict<A> {
    if !at.Valid() then Raises(EVIDENCE)
    else if mode.Distant? && horizontal.None? then Raises(EVIDENCE)
    else if mode.Distant? && world.distance(horizontal.value, at) < MINIMUM_DISTANCE then Rejected(Distance)
    else
      var far := if mode.Distant? then Some(world.distance(horizontal.value, at)) else None;
      var measured := match world.attempt(at, rank)
        case Err(code) => Err(code)
        case Ok(a) => match world.measure(a) { case Err(code) => Err(code) case Ok(_) => Ok(a) };
      match measured
      case Ok(a) => Accepted(a, far)
      case Err(code) => if RejectionOf(code, mode).Some? then Rejected(RejectionOf(code, mode).value) else Raises(code)
  }

  /** The code's name. */
  function CodeName(code: FailureCode): string {
    match code
    case CONFIG => "CONFIG"
    case WHEEL => "WHEEL"
    case OUTPUT => "OUTPUT"
    case IDENTITY => "IDENTITY"
    case WORKER => "WORKER"
    case ZERO_READS => "ZERO_READS"
    case REQUIRE_D8 => "REQUIRE_D8"
    case BOUNDS => "BOUNDS"
    case EVIDENCE => "EVIDENCE"
    case EXHAUSTED => "EXHAUSTED"
    case UNRESOLVED => "UNRESOLVED"
    case INTERNAL => "INTERNAL"
  }

  /** The candidate can be tried at all: a real coordinate, and somewhere to be distant from if that is asked. */
  predicate Triable(mode: CaseMode, horizontal: Option<Coordinate>, at: Coordinate) {
    && at.lon.Some? && -180.0 <= at.lon.value && at.lon.value <= 180.0
    && at.lat.Some? && -90.0 <= at.lat.value && at.lat.value <= 90.0
    && (mode == Distant ==> horizontal.Some?)
  }

  predicate TooNear<A>(world: World<A>, mode: CaseMode, horizontal: Option<Coordinate>, at: Coordinate) {
    mode == Distant && horizontal.Some? && world.distance(horizontal.value, at) < 1_000_000.0
  }

  /** What trying the candidate raises: the attempt's failure, or that of the predicate on its result. */
  predicate Fails<A>(world: World<A>, at: Coordinate, rank: nat, code: FailureCode) {
    match world.attempt(at, rank)
    case Err(e) => code == e
    case Ok(a) => world.measure(a) == Err(code)
  }

  predicate Succeeds<A(==)>(world: World<A>, at: Coordinate, rank: nat, a: A) {
    world.attempt(at, rank) == Ok(a) && world.measure(a).Ok?
  }

  lemma NamesOf(code: FailureCode, reason: RejectionCode)
    ensures reason.Name() == CodeName(code) <==>
            (reason == Bounds && code == BOUNDS) || (reason == RequireD8 && code == REQUIRE_D8) || (reason == Unresolved && code == UNRESOLVED)
  {
    assert |CodeName(BOUNDS)| == 6 && CodeName(BOUNDS)[0] == 'B';
    assert |CodeName(CONFIG)| == 6 && CodeName(CONFIG)[0] == 'C';
    assert |CodeName(OUTPUT)| == 6 && CodeName(OUTPUT)[0] == 'O';
    assert |CodeName(WORKER)| == 6 && CodeName(WORKER)[0] == 'W';
    assert |CodeName(IDENTITY)| == 8 && CodeName(IDENTITY)[0] == 'I';
    assert |CodeName(EVIDENCE)| == 8 && CodeName(EVIDENCE)[0] == 'E';
    assert |CodeName(INTERNAL)| == 8 && CodeName(INTERNAL)[0] == 'I';
    assert |CodeName(ZERO_READS)| == 10 && CodeName(ZERO_READS)[0] == 'Z';
    assert |CodeName(REQUIRE_D8)| == 10 && CodeName(REQUIRE_D8)[0] == 'R';
    assert |CodeName(UNRESOLVED)| == 10 && CodeName(UNRESOLVED)[0] == 'U';
    assert |CodeName(WHEEL)| == 5 && |CodeName(EXHAUSTED)| == 9;
    assert |Bounds.Name()| == 6 && |Distance.Name()| == 8 && Distance.Name()[0] == 'D';
    assert |RequireD8.Name()| == 10 && RequireD8.Name()[0] == 'R' && |Unresolved.Name()| == 10 && Unresolved.Name()[0] == 'U';
  }

  /** A failure becomes a rejection exactly outside the negative case and under its own name, if that is one of three. */
  lemma RejectionExact(code: FailureCode, mode: CaseMode, reason: RejectionCode)
    ensures RejectionOf(code, mode) == Some(reason) <==> mode != Negative && reason.Name() == CodeName(code)
  {
    NamesOf(code, reason);
  }

  /** No reason has the failure's name. */
  ghost predicate Nameless(code: FailureCode) {
    forall reason: RejectionCode :: reason.Name() != CodeName(code)
  }

  /** Accepted exactly when it is far enough and succeeds; rejected for its distance, or, outside the negative case,
      under the name of its own failure; any other failure ends the search. */
  lemma JudgeExact<A>(world: World<A>, mode: CaseMode, horizontal: Option<Coordinate>, at: Coordinate, rank: nat)
    ensures var verdict, tries := Judge(world, mode, horizontal, at, rank),
                                  Triable(mode, horizontal, at) && !TooNear(world, mode, horizontal, at);
            && (forall a, far :: verdict == Accepted(a, far) <==>
                  tries && Succeeds(world, at, rank, a) &&
                  far == if mode == Distant then Some(world.distance(horizontal.value, at)) else None)
            && (forall reason :: verdict == Rejected(reason) <==>
                  || (Triable(mode, horizontal, at) && TooNear(world, mode, horizontal, at) && reason == Distance)
                  || (tries && mode != Negative &&
                      exists code :: Fails(world, at, rank, code) && reason.Name() == CodeName(code)))
            && (forall code :: verdict == Raises(code) <==>
                  || (!Triable(mode, horizontal, at) && code == EVIDENCE)
                  || (tries && Fails(world, at, rank, code) && (mode == Negative || Nameless(code))))
  {
    forall code, reason
      ensures RejectionOf(code, mode) == Some(reason) <==> mode != Negative && reason.Name() == CodeName(code)
    {
      RejectionExact(code, mode, reason);
    }
    hide RejectionOf, CodeName;
    var outcome := match world.attempt(at, rank)
      case Err(e) => Err(e)
      case Ok(a) => if world.measure(a).Err? then Err(world.measure(a).error) else Ok(a);
    assert forall c :: Fails(world, at, rank, c) <==> outcome == Err(c);
    assert forall a :: Succeeds(world, at, rank, a) <==> outcome == Ok(a);
    hide Fails, Succeeds;
    if outcome.Err? {
      NamedOrNot(outcome.error, mode);
    }
  }

  lemma NamedOrNot(code: FailureCode, mode: CaseMode)
    ensures RejectionOf(code, mode).None? <==> mode == Negative || Nameless(code)
  {
    forall reason: RejectionCode
      ensures RejectionOf(code, mode) == Some(reason) <==> mode != Negative && reason.Name() == CodeName(code)
    {
      RejectionExact(code, mode, reason);
    }
    if RejectionOf(code, mode).Some? {
      var reason := RejectionOf(code, mode).value;
    }
  }

  // ---- The search -------------------------------------------------------------------------

  /** `candidates[:budget]`. */
  function Budgeted(candidates: seq<Coordinate>, budget: int): (tried: seq<Coordinate>)
    ensures tried <= candidates
    ensures budget >= 0 ==> |tried| == if budget < |candidates| then budget else |candidates|
    ensures budget < 0 ==> |candidates| - |tried| == if -budget < |candidates| then -budget else |candidates|
  {
    if budget >= |candidates| then candidates
    else if budget >= 0 then candidates[..budget]
    else if -budget >= |candidates| then []
    else candidates[..|candidates| + budget]
  }

  datatype Search<!A> = Search(world: World<A>, mode: CaseMode, horizontal: Option<Coordinate>, tried: seq<Coordinate>) {
    function At(i: nat): Verdict<A>
      requires i < |tried|
    {
      Judge(world, mode, horizontal, tried[i], i + 1)
    }

    ghost predicate RejectedBefore(n: nat) {
      n <= |tried| && forall i :: 0 <= i < n ==> At(i).Rejected?
    }

    /** The ledger of the first `n` candidates, all rejected. */
    function Ledger(n: nat): (s: seq<Rejection>)
      requires n <= |tried| && forall i :: 0 <= i < n ==> At(i).Rejected?
    {
      seq(n, i requires 0 <= i < n => Rejection(i + 1, tried[i], At(i).reason))
    }
  }

  datatype Selection<A> = Selection(attempt: A, rank: nat, far: Option<real>)

  /** Try the candidates in order; the first that is not rejected decides. */
  method SelectOrderedCandidate<A>(world: World<A>, candidates: seq<Coordinate>, budget: int, mode: CaseMode, horizontal: Option<Coordinate>)
    returns (r: Result<Selection<A>, Raised>, diagnostics: CandidateDiagnostics)
    ensures fresh(diagnostics) && diagnostics.Valid()
    ensures var s := Search(world, mode, horizontal, Budgeted(candidates, budget));
            match r
            case Ok(chosen) =>
              && 1 <= chosen.rank <= |s.tried| && s.RejectedBefore(chosen.rank - 1)
              && s.At(chosen.rank - 1) == Accepted(chosen.attempt, chosen.far)
              && diagnostics.Evidence() == Ok(LedgerOf(s.Ledger(chosen.rank - 1)))
            case Err(Failure(code)) => exists n: nat :: n < |s.tried| && s.RejectedBefore(n) && s.At(n) == Raises(code)
            case Err(Exhaustion(ledger)) => s.RejectedBefore(|s.tried|) && ledger == LedgerOf(s.Ledger(|s.tried|))
  {
    hide EntryOf, LedgerOf, Budgeted;
    diagnostics := new CandidateDiagnostics();
    var tried := Budgeted(candidates, budget);
    ghost var s := Search(world, mode, horizontal, tried);
    for i := 0 to |tried|
      invariant diagnostics.Valid() && diagnostics.open.None? && !diagnostics.accepted
      invariant |diagnostics.attempts| == i
      invariant s.RejectedBefore(i) && diagnostics.rejections == s.Ledger(i)
    {
      var at, rank := tried[i], i + 1;
      var started := diagnostics.Start(rank, at);
      if !started {
        assert s.At(i) == Raises(EVIDENCE);
        return Err(Failure(EVIDENCE)), diagnostics;
      }
      var far: Option<real> := None;
      if mode.Distant? {
        if horizontal.None? {
          assert s.At(i) == Raises(EVIDENCE);
          return Err(Failure(EVIDENCE)), diagnostics;
        }
        var d := RequireDistant(world.distance, horizontal.value, at);
        if d.Err? {
          if d.error.EXHAUSTED? {
            var _ := diagnostics.Reject(Distance);
            assert s.At(i) == Rejected(Distance);
            continue;
          }
          assert false;
        }
        far := Some(d.value);
      }
      var attempt := world.attempt(at, rank);
      var failure: Option<FailureCode> := if attempt.Err? then Some(attempt.error) else None;
      if attempt.Ok? {
        var measured := world.measure(attempt.value);
        failure := if measured.Err? then Some(measured.error) else None;
      }
      if failure.Some? {
        var code := RejectionOf(failure.value, mode);
        if code.Some? {
          assert s.At(i) == Rejected(code.value);
          var _ := diagnostics.Reject(code.value);
          continue;
        }
        assert s.At(i) == Raises(failure.value);
        return Err(Failure(failure.value)), diagnostics;
      }
      assert s.At(i) == Accepted(attempt.value, far);
      var _ := diagnostics.Accept();
      return Ok(Selection(attempt.value, rank, far)), diagnostics;
    }
    r := Err(diagnostics.Exhausted());
  }

  // ---- The verifier of ledgers ------------------------------------------------------------

  datatype LedgerError = LedgerShape | LedgerLength | LedgerCase | LedgerEntry | Unhashable

  function AllowedCodes(caseName: Json): Option<set<string>> {
    if caseName == Str(Horizontal.Name()) then Some({"BOUNDS", "REQUIRE_D8", "UNRESOLVED"})
    else if caseName == Str(Distant.Name()) then Some({"BOUNDS", "DISTANCE", "REQUIRE_D8", "UNRESOLVED"})
    else if caseName == Str(Negative.Name()) then Some({})
    else None
  }

  /** Lists and dictionaries cannot be looked up in a dictionary or a set. */
  predicate Hashable(value: Json) {
    !value.List? && !value.Dict?
  }

  /** `value == n`; booleans and floats compare as numbers. */
  predicate EqualsRank(value: Json, n: int) {
    match value
    case Bool(b) => (if b then 1 else 0) == n
    case Int(m) => m == n
    case Float(x) => x == n as real
    case _ => false
  }

  /** `coordinate(value)`. */
  predicate IsCoordinate(value: Json) {
    && value.List? && |value.items| == 2
    && Within(value.items[0], 180.0) && Within(value.items[1], 90.0)
  }

  predicate Within(value: Json, limit: real) {
    match value
    case Int(n) => -limit <= n as real <= limit
    case Float(x) => -limit <= x <= limit
    case _ => false
  }

  const ENTRY_KEYS := {"coordinate", "rank", "rejection_code"}

  function CheckEntry(entry: Json, rank: int, allowed: set<string>): Result<(), LedgerError> {
    if !entry.Dict? || entry.members.Keys != ENTRY_KEYS then Err(LedgerEntry)
    else if !EqualsRank(entry.members["rank"], rank) || !IsCoordinate(entry.members["coordinate"]) then Err(LedgerEntry)
    else if !Hashable(entry.members["rejection_code"]) then Err(Unhashable)
    else if !entry.members["rejection_code"].Str? || entry.members["rejection_code"].s !in allowed then Err(LedgerEntry)
    else Ok(())
  }

  /** The number a JSON value compares as. */
  function Numeric(value: Json): Option<real> {
    match value
    case Bool(b) => Some(if b then 1.0 else 0.0)
    case Int(n) => Some(n as real)
    case Float(x) => Some(x)
    case _ => None
  }

  predicate Degrees(value: Json, limit: real) {
    !value.Bool? && Numeric(value).Some? && -limit <= Numeric(value).value <= limit
  }

  /** One entry: exactly the three members, the rank, a longitude and a latitude, and a code of the case. */
  ghost predicate EntryFormed(entry: Json, rank: int, caseName: Json) {
    && entry.Dict? && (forall key :: key in entry.members <==> key == "coordinate" || key == "rank" || key == "rejection_code")
    && Numeric(entry.members["rank"]) == Some(rank as real)
    && (exists lon, lat :: entry.members["coordinate"] == List([lon, lat]) && Degrees(lon, 180.0) && Degrees(lat, 90.0))
    && (exists code: RejectionCode :: entry.members["rejection_code"] == Str(code.Name()) && CodeOf(caseName, code))
  }

  /** The codes a case may reject with. */
  predicate CodeOf(caseName: Json, code: RejectionCode) {
    || caseName == Str("distant-region")
    || (caseName == Str("horizontal-boundary") && code != Distance)
  }

  /** What an accepted ledger looks like. */
  ghost predicate WellFormedLedger(value: Json, selectedRank: Json, caseName: Json) {
    && value.List? && selectedRank.Int? && selectedRank.n >= 1 && |value.items| == selectedRank.n - 1
    && (exists mode: CaseMode :: caseName == Str(mode.Name()))
    && forall i :: 0 <= i < |value.items| ==> EntryFormed(value.items[i], i + 1, caseName)
  }

  lemma CaseExact(caseName: Json)
    ensures AllowedCodes(caseName).Some? <==> exists mode: CaseMode :: caseName == Str(mode.Name())
    ensures AllowedCodes(caseName).Some? ==>
              forall name :: name in AllowedCodes(caseName).value <==> exists code: RejectionCode :: name == code.Name() && CodeOf(caseName, code)
  {
    assert caseName == Str("horizontal-boundary") ==> caseName == Str(Horizontal.Name());
    assert caseName == Str("distant-region") ==> caseName == Str(Distant.Name());
    assert caseName == Str("negative-flow-direction") ==> caseName == Str(Negative.Name());
    if AllowedCodes(caseName).Some? {
      forall name
        ensures name in AllowedCodes(caseName).value <==> exists code: RejectionCode :: name == code.Name() && CodeOf(caseName, code)
      {
        NamedCodes(name);
        NamesApart();
      }
    }
  }

  lemma NamedCodes(name: string)
    ensures name == "BOUNDS" ==> name == Bounds.Name()
    ensures name == "DISTANCE" ==> name == Distance.Name()
    ensures name == "REQUIRE_D8" ==> name == RequireD8.Name()
    ensures name == "UNRESOLVED" ==> name == Unresolved.Name()
  {
  }

  lemma NamesApart()
    ensures forall a: RejectionCode, b: RejectionCode :: a.Name() == b.Name() ==> a == b
    ensures forall a: CaseMode, b: CaseMode :: a.Name() == b.Name() ==> a == b
  {
    assert |Bounds.Name()| == 6 && |Distance.Name()| == 8 && |RequireD8.Name()| == |Unresolved.Name()| == 10;
    assert RequireD8.Name()[0] == 'R' && Unresolved.Name()[0] == 'U';
    assert |Horizontal.Name()| == 19 && |Distant.Name()| == 14 && |Negative.Name()| == 23;
  }

  lemma EntryExact(entry: Json, rank: int, caseName: Json)
    requires AllowedCodes(caseName).Some?
    ensures CheckEntry(entry, rank, AllowedCodes(caseName).value).Ok? <==> EntryFormed(entry, rank, caseName)
  {
    CaseExact(caseName);
    hide AllowedCodes, CodeOf;
    if entry.Dict? {
      KeysExact(entry);
      if entry.members.Keys == ENTRY_KEYS {
        RankExact(entry.members["rank"], rank);
        PlaceExact(entry.members["coordinate"]);
      }
    }
  }

  lemma KeysExact(entry: Json)
    requires entry.Dict?
    ensures entry.members.Keys == ENTRY_KEYS <==>
            forall key :: key in entry.members <==> key == "coordinate" || key == "rank" || key == "rejection_code"
  {
    if forall key :: key in entry.members <==> key == "coordinate" || key == "rank" || key == "rejection_code" {
      assert forall key :: key in entry.members.Keys <==> key in ENTRY_KEYS;
    }
    if entry.members.Keys == ENTRY_KEYS {
      forall key
        ensures key in entry.members <==> key == "coordinate" || key == "rank" || key == "rejection_code"
      {
        assert key in entry.members <==> key in ENTRY_KEYS;
      }
    }
  }

  lemma RankExact(value: Json, rank: int)
    ensures EqualsRank(value, rank) <==> Numeric(value) == Some(rank as real)
  {
  }

  lemma PlaceExact(value: Json)
    ensures IsCoordinate(value) <==> exists lon, lat :: value == List([lon, lat]) && Degrees(lon, 180.0) && Degrees(lat, 90.0)
  {
    if value.List? && |value.items| == 2 {
      assert value.items == [value.items[0], value.items[1]];
    }
  }

  lemma LedgerExact(value: Json, selectedRank: Json, caseName: Json)
    ensures WellFormedLedger(value, selectedRank, caseName) <==>
            && value.List? && selectedRank.Int? && selectedRank.n >= 1 && |value.items| == selectedRank.n - 1
            && AllowedCodes(caseName).Some?
            && forall i :: 0 <= i < |value.items| ==> CheckEntry(value.items[i], i + 1, AllowedCodes(caseName).value).Ok?
  {
    CaseExact(caseName);
    hide AllowedCodes, EntryFormed, CheckEntry;
    if value.List? && AllowedCodes(caseName).Some? {
      forall i | 0 <= i < |value.items|
        ensures CheckEntry(value.items[i], i + 1, AllowedCodes(caseName).value).Ok? <==> EntryFormed(value.items[i], i + 1, caseName)
      {
        EntryExact(value.items[i], i + 1, caseName);
      }
    }
  }

  /** Accepts exactly the well-formed ledgers, whatever document it is given. */
  method ValidateCandidateRejections(value: Json, selectedRank: Json, caseName: Json) returns (r: Result<(), LedgerError>)
    ensures r.Ok? <==> WellFormedLedger(value, selectedRank, caseName)
    ensures value.List? && selectedRank.Int? && selectedRank.n == |value.items| + 1 ==>
              && (r == Err(LedgerCase) <==> !caseName.List? && !caseName.Dict? && AllowedCodes(caseName).None?)
              && (caseName.List? || caseName.Dict? ==> r == Err(Unhashable))
  {
    hide CheckEntry, WellFormedLedger, AllowedCodes;
    LedgerExact(value, selectedRank, caseName);
    Unlisted(caseName);
    if !value.List? || !selectedRank.Int? || selectedRank.n < 1 {
      return Err(LedgerShape);
    }
    if |value.items| != selectedRank.n - 1 {
      return Err(LedgerLength);
    }
    if !Hashable(caseName) {
      return Err(Unhashable);
    }
    var allowed := AllowedCodes(caseName);
    if allowed.None? {
      return Err(LedgerCase);
    }
    for i := 0 to |value.items|
      invariant forall j :: 0 <= j < i ==> CheckEntry(value.items[j], j + 1, allowed.value).Ok?
    {
      var checked := CheckEntry(value.items[i], i + 1, allowed.value);
      if checked.Err? {
        EntryErrors(value.items[i], i + 1, allowed.value);
        return Err(checked.error);
      }
    }
    return Ok(());
  }

  lemma Unlisted(caseName: Json)
    ensures AllowedCodes(caseName).Some? ==> caseName.Str?
  {
  }

  lemma EntryErrors(entry: Json, rank: int, allowed: set<string>)
    ensures CheckEntry(entry, rank, allowed).Err? ==> CheckEntry(entry, rank, allowed).error in {LedgerEntry, Unhashable}
    ensures CheckEntry(entry, rank, allowed) == Err(Unhashable) ==>
              entry.Dict? && "rejection_code" in entry.members && (entry.members["rejection_code"].List? || entry.members["rejection_code"].Dict?)
  {
  }

  // ---- The search meets its verifier ------------------------------------------------------

  lemma EntryAccepted(r: Rejection, rank: nat, mode: CaseMode)
    requires r.rank == rank && r.at.Valid()
    requires !mode.Negative? && (mode.Horizontal? ==> r.code != Distance)
    ensures AllowedCodes(Str(mode.Name())).Some?
    ensures CheckEntry(EntryOf(r), rank, AllowedCodes(Str(mode.Name())).value).Ok?
  {
    assert EntryOf(r).members.Keys == ENTRY_KEYS;
  }

  lemma CodesPermitted<A>(s: Search<A>, i: nat)
    requires i < |s.tried| && s.At(i).Rejected?
    ensures s.tried[i].Valid() && !s.mode.Negative? && (s.mode.Horizontal? ==> s.At(i).reason != Distance)
  {
  }

  /** Any prefix of rejections is a ledger the verifier accepts for the rank after it: one entry per earlier
      rank, in order, with codes permitted for the case. */
  lemma LedgerAccepted<A>(s: Search<A>, n: nat)
    requires s.RejectedBefore(n)
    ensures WellFormedLedger(LedgerOf(s.Ledger(n)), Int(n + 1), Str(s.mode.Name()))
  {
    hide CheckEntry, Judge, EntryOf, AllowedCodes;
    assert AllowedCodes(Str(s.mode.Name())).Some? by {
      CaseKnown(s.mode);
    }
    forall i | 0 <= i < n
      ensures CheckEntry(LedgerOf(s.Ledger(n)).items[i], i + 1, AllowedCodes(Str(s.mode.Name())).value).Ok?
    {
      CodesPermitted(s, i);
      EntryAccepted(s.Ledger(n)[i], i + 1, s.mode);
    }
    LedgerExact(LedgerOf(s.Ledger(n)), Int(n + 1), Str(s.mode.Name()));
  }

  lemma CaseKnown(mode: CaseMode)
    ensures AllowedCodes(Str(mode.Name())).Some?
  {
  }

  /** Only one rank can decide a search. */
  lemma DecisionUnique<A>(s: Search<A>, m: nat, n: nat)
    requires s.RejectedBefore(m) && s.RejectedBefore(n) && m < |s.tried| && n < |s.tried|
    requires !s.At(m).Rejected? && !s.At(n).Rejected?
    ensures m == n
  {
  }

  /** A selection and its evidence, handed to the verifier as the live path does. */
  method SelectAndVerify<A>(world: World<A>, candidates: seq<Coordinate>, budget: int, mode: CaseMode, horizontal: Option<Coordinate>)
    returns (r: Result<Selection<A>, Raised>, verified: bool)
    ensures r.Ok? ==> verified
    ensures var s := Search(world, mode, horizontal, Budgeted(candidates, budget));
            r.Ok? ==> 1 <= r.value.rank <= |s.tried| && s.RejectedBefore(r.value.rank - 1)
                      && s.At(r.value.rank - 1) == Accepted(r.value.attempt, r.value.far)
  {
    hide WellFormedLedger, Judge;
    var diagnostics;
    r, diagnostics := SelectOrderedCandidate(world, candidates, budget, mode, horizontal);
    verified := false;
    if r.Ok? {
      var evidence := diagnostics.Evidence();
      LedgerAccepted(Search(world, mode, horizontal, Budgeted(candidates, budget)), r.value.rank - 1);
      var checked := ValidateCandidateRejections(evidence.value, Int(r.value.rank), Str(mode.Name()));
      verified := checked.Ok?;
    }
  }
}
