/** Single-flight fetching into a shared window cache, as interleaved steps of any number of callers. */
module RasterCache {
  import opened Bytes
  import opened Results

  /** Canonical window paths; callers of one path want one window. */
  type Path = nat
  type CallerId = nat
  type File = seq<byte>

  /** What a caller gets: the path of a local window, or an error. */
  datatype Outcome = Localized(path: Path) | Failed

  /** Where a caller stands in `get_or_fetch_window`. */
  datatype Stage =
    | Looking                        // about to look the file up before the loop
    | Entering                       // at the head of the loop
    | Joining(owner: CallerId)       // has the owner's notifier, does not listen yet
    | Waiting(owner: CallerId, missed: bool)  // listening; `missed` if the owner had notified before
    | Checking                       // woken, about to look the file up again
    | Fetching                       // holds the in-flight entry
    | Removing(result: Outcome)      // fetch over, entry still held
    | Notifying(result: Outcome)     // entry removed, waiters not yet woken
    | Returned(result: Outcome)

  datatype Caller = Caller(path: Path, stage: Stage)

  datatype State = State(
    inFlight: map<Path, CallerId>, files: map<Path, File>, callers: map<CallerId, Caller>, notified: set<CallerId>)
  {
    function At(c: CallerId, stage: Stage): State
      requires c in callers
    {
      this.(callers := callers[c := callers[c].(stage := stage)])
    }
  }

  // ---- Steps ------------------------------------------------------------------------------

  /** What a metadata call may say. */
  datatype Lookup = Hit | Miss | IoError

  function CacheHit(files: map<Path, File>, path: Path, readable: bool): Lookup {
    if !readable then IoError else if path in files && |files[path]| > 0 then Hit else Miss
  }

  /** What a fetch may come to; `Written` then publishes without clobbering. */
  datatype Fetch = Written | FetchError

  datatype Step =
    | Arrive(c: CallerId, path: Path)
    | LookUp(c: CallerId, readable: bool)
    | Enter(c: CallerId)
    | Listen(c: CallerId)
    | Wake(c: CallerId)
    | Publish(c: CallerId, fetch: Fetch)
    | Remove(c: CallerId)
    | Notify(c: CallerId)
    | Foreign(path: Path)

  /** One step, if it is enabled. A notification wakes those who listen and is not kept for later. `window` is the content a path's window encodes to; `Foreign` is another
      process publishing the same window. */
  function Next(window: Path -> File, s: State, step: Step): Option<State> {
    match step
    case Arrive(c, path) =>
      if c in s.callers then None else Some(s.(callers := s.callers[c := Caller(path, Looking)]))
    case LookUp(c, readable) =>
      if c !in s.callers || !(s.callers[c].stage.Looking? || s.callers[c].stage.Checking?) then None
      else
        (match CacheHit(s.files, s.callers[c].path, readable)
         case Hit => Some(s.At(c, Returned(Localized(s.callers[c].path))))
         case Miss => Some(s.At(c, Entering))
         case IoError => Some(s.At(c, Returned(Failed))))
    case Enter(c) =>
      if c !in s.callers || !s.callers[c].stage.Entering? then None
      else if s.callers[c].path in s.inFlight then Some(s.At(c, Joining(s.inFlight[s.callers[c].path])))
      else Some(s.At(c, Fetching).(inFlight := s.inFlight[s.callers[c].path := c]))
    case Listen(c) =>
      if c !in s.callers || !s.callers[c].stage.Joining? then None
      else Some(s.At(c, Waiting(s.callers[c].stage.owner, s.callers[c].stage.owner in s.notified)))
    case Wake(c) =>
      if c !in s.callers || !s.callers[c].stage.Waiting? then None
      else if s.callers[c].stage.missed || s.callers[c].stage.owner !in s.notified then None
      else Some(s.At(c, Checking))
    case Publish(c, fetch) =>
      if c !in s.callers || !s.callers[c].stage.Fetching? then None
      else if fetch.FetchError? then Some(s.At(c, Removing(Failed)))
      else
        Some(s.At(c, Removing(Localized(s.callers[c].path))).(files := NoClobber(s.files, s.callers[c].path, window(s.callers[c].path))))
    case Remove(c) =>
      if c !in s.callers || !s.callers[c].stage.Removing? then None
      else Some(s.At(c, Notifying(s.callers[c].stage.result)).(inFlight := s.inFlight - {s.callers[c].path}))
    case Notify(c) =>
      if c !in s.callers || !s.callers[c].stage.Notifying? then None
      else Some(s.At(c, Returned(s.callers[c].stage.result)).(notified := s.notified + {c}))
    case Foreign(path) => Some(s.(files := NoClobber(s.files, path, window(path))))
  }

  /** Publication: an existing file stays. */
  function NoClobber(files: map<Path, File>, path: Path, file: File): map<Path, File> {
    if path in files then files else files[path := file]
  }

  // ---- What every step keeps --------------------------------------------------------------

  /** A caller that is fetching or about to remove its entry. */
  predicate Holding(s: State, c: CallerId) {
    c in s.callers && (s.callers[c].stage.Fetching? || s.callers[c].stage.Removing?)
  }

  /** The in-flight map names exactly the holders, each under its own path; so a path has at most one. */
  ghost predicate Exclusive(s: State) {
    && (forall p :: p in s.inFlight ==> Holding(s, s.inFlight[p]) && s.callers[s.inFlight[p]].path == p)
    && (forall c :: Holding(s, c) ==> s.callers[c].path in s.inFlight && s.inFlight[s.callers[c].path] == c)
  }

  function ResultOf(stage: Stage): Option<Outcome> {
    match stage
    case Removing(r) => Some(r)
    case Notifying(r) => Some(r)
    case Returned(r) => Some(r)
    case _ => None
  }

  /** A result names the caller's own path, and a file is published there. */
  ghost predicate Published(s: State) {
    forall c :: c in s.callers && ResultOf(s.callers[c].stage).Some? && ResultOf(s.callers[c].stage).value.Localized? ==>
      ResultOf(s.callers[c].stage).value.path == s.callers[c].path && s.callers[c].path in s.files
  }

  predicate Awaits(stage: Stage) {
    stage.Joining? || stage.Waiting?
  }

  /** A waiter waits for a caller of its own path, and an owner that has notified has returned. */
  ghost predicate Awaited(s: State) {
    && (forall c :: c in s.callers && Awaits(s.callers[c].stage) ==>
          s.callers[c].stage.owner in s.callers && s.callers[s.callers[c].stage.owner].path == s.callers[c].path)
    && (forall c :: c in s.notified ==> c in s.callers && s.callers[c].stage.Returned?)
  }

  ghost predicate Invariant(s: State) {
    Exclusive(s) && Published(s) && Awaited(s)
  }

  ghost predicate Coherent(window: Path -> File, s: State) {
    forall p :: p in s.files ==> s.files[p] == window(p)
  }

  /** Published files never change and never go away. */
  ghost predicate Keeps(files: map<Path, File>, later: map<Path, File>) {
    forall p :: p in files ==> p in later && later[p] == files[p]
  }

  /** Everyone but `c` stands where they stood, and `c` keeps its path. */
  ghost predicate OnlyMoved(s: State, t: State, c: CallerId) {
    && c in t.callers && t.callers == s.callers[c := t.callers[c]]
    && (c in s.callers ==> t.callers[c].path == s.callers[c].path)
  }

  lemma Untouched(s: State, t: State, c: CallerId)
    requires Exclusive(s) && OnlyMoved(s, t, c) && t.inFlight == s.inFlight && Holding(s, c) == Holding(t, c)
    ensures Exclusive(t)
  {
    assert forall d :: Holding(t, d) <==> Holding(s, d);
  }

  lemma Acquired(s: State, t: State, c: CallerId)
    requires Exclusive(s) && OnlyMoved(s, t, c) && !Holding(s, c) && Holding(t, c)
    requires t.callers[c].path !in s.inFlight && t.inFlight == s.inFlight[t.callers[c].path := c]
    ensures Exclusive(t)
  {
    assert forall d :: Holding(t, d) <==> d == c || Holding(s, d);
  }

  lemma Released(s: State, t: State, c: CallerId)
    requires Exclusive(s) && OnlyMoved(s, t, c) && Holding(s, c) && !Holding(t, c)
    requires t.inFlight == s.inFlight - {t.callers[c].path}
    ensures Exclusive(t)
  {
    assert forall d :: Holding(t, d) <==> d != c && Holding(s, d);
  }

  lemma ExclusiveStep(window: Path -> File, s: State, step: Step)
    requires Exclusive(s) && Next(window, s, step).Some?
    ensures Exclusive(Next(window, s, step).value)
  {
    hide NoClobber;
    var t := Next(window, s, step).value;
    match step
    case Enter(c) =>
      if s.callers[c].path !in s.inFlight {
        Acquired(s, t, c);
      } else {
        Untouched(s, t, c);
      }
    case Remove(c) => Released(s, t, c);
    case Arrive(c, _) => Untouched(s, t, c);
    case LookUp(c, _) => Untouched(s, t, c);
    case Listen(c) => Untouched(s, t, c);
    case Wake(c) => Untouched(s, t, c);
    case Publish(c, _) => Untouched(s, t, c);
    case Notify(c) => Untouched(s, t, c);
    case Foreign(_) =>
  }

  lemma PublishedStep(window: Path -> File, s: State, step: Step)
    requires Published(s) && Next(window, s, step).Some?
    ensures Published(Next(window, s, step).value)
  {
  }

  lemma AwaitedStep(window: Path -> File, s: State, step: Step)
    requires Exclusive(s) && Awaited(s) && Next(window, s, step).Some?
    ensures Awaited(Next(window, s, step).value)
  {
    hide NoClobber, CacheHit;
    var t := Next(window, s, step).value;
    match step
    case Enter(c) =>
      if s.callers[c].path in s.inFlight {
        assert Holding(s, s.inFlight[s.callers[c].path]);
      }
      AwaitedMove(s, t, c);
    case Arrive(c, _) => AwaitedMove(s, t, c);
    case LookUp(c, _) => AwaitedMove(s, t, c);
    case Listen(c) => AwaitedMove(s, t, c);
    case Wake(c) => AwaitedMove(s, t, c);
    case Publish(c, _) => AwaitedMove(s, t, c);
    case Remove(c) => AwaitedMove(s, t, c);
    case Notify(c) => AwaitedMove(s, t, c);
    case Foreign(_) =>
  }

  lemma AwaitedMove(s: State, t: State, c: CallerId)
    requires Awaited(s) && OnlyMoved(s, t, c)
    requires t.notified == s.notified || t.notified == s.notified + {c}
    requires c in t.notified ==> t.callers[c].stage.Returned?
    requires Awaits(t.callers[c].stage) ==>
               t.callers[c].stage.owner in t.callers && t.callers[t.callers[c].stage.owner].path == t.callers[c].path
    ensures Awaited(t)
  {
  }

  /** Publication adds files and touches none. */
  lemma FilesKept(window: Path -> File, s: State, step: Step)
    requires Next(window, s, step).Some?
    ensures Keeps(s.files, Next(window, s, step).value.files)
    ensures Coherent(window, s) ==> Coherent(window, Next(window, s, step).value)
  {
  }

  /** A remover removes the entry it inserted itself: the entry is still its own. */
  lemma RemovesOwnEntry(window: Path -> File, s: State, c: CallerId)
    requires Exclusive(s) && Next(window, s, Remove(c)).Some?
    ensures s.callers[c].path in s.inFlight && s.inFlight[s.callers[c].path] == c
    ensures forall p :: p in s.inFlight && p != s.callers[c].path ==>
              p in Next(window, s, Remove(c)).value.inFlight && Next(window, s, Remove(c)).value.inFlight[p] == s.inFlight[p]
  {
  }

  /** At most one caller fetches a path at a time. */
  ghost predicate OneFetcherPerPath(s: State) {
    forall c, d :: Holding(s, c) && Holding(s, d) && s.callers[c].path == s.callers[d].path ==> c == d
  }

  /** The in-flight keys are exactly the paths some caller holds. */
  ghost predicate KeysAreHeldPaths(s: State) {
    forall p :: p in s.inFlight <==> exists c :: Holding(s, c) && s.callers[c].path == p
  }

  lemma OneHolder(s: State)
    requires Exclusive(s)
    ensures OneFetcherPerPath(s) && KeysAreHeldPaths(s)
  {
  }

  // ---- Runs -------------------------------------------------------------------------------

  /** Nobody has called yet; the directory holds whatever an earlier process left. */
  ghost predicate Initial(s: State) {
    s.inFlight == map[] && s.callers == map[] && s.notified == {}
  }

  /** The state after the steps, if every one of them was enabled. */
  function Run(window: Path -> File, s: State, steps: seq<Step>): Option<State>
    decreases |steps|
  {
    if steps == [] then Some(s)
    else
      match Next(window, s, steps[0])
      case None => None
      case Some(t) => Run(window, t, steps[1..])
  }

  /** Over every run: one holder per path, and exactly the held paths in flight; results name published files;
      files never change; coherent files stay coherent. */
  lemma {:induction false} EveryRun(window: Path -> File, s: State, steps: seq<Step>)
    requires Invariant(s) && Run(window, s, steps).Some?
    ensures var t := Run(window, s, steps).value;
            && Invariant(t) && OneFetcherPerPath(t) && KeysAreHeldPaths(t)
            && Keeps(s.files, t.files) && (Coherent(window, s) ==> Coherent(window, t))
    decreases |steps|
  {
    hide Exclusive, Published, Awaited, Next, Coherent, OneFetcherPerPath, KeysAreHeldPaths;
    if steps == [] {
      OneHolder(s);
    } else {
      var next := Next(window, s, steps[0]).value;
      ExclusiveStep(window, s, steps[0]);
      PublishedStep(window, s, steps[0]);
      AwaitedStep(window, s, steps[0]);
      FilesKept(window, s, steps[0]);
      EveryRun(window, next, steps[1..]);
    }
  }

  lemma InitialInvariant(s: State)
    requires Initial(s)
    ensures Invariant(s)
  {
  }

  /** Some caller returned a path. */
  ghost predicate Answered(s: State, c: CallerId) {
    c in s.callers && s.callers[c].stage == Returned(Localized(s.callers[c].path))
  }

  /** Every answer names a published file that holds the caller's window. */
  ghost predicate AnswersHold(window: Path -> File, s: State) {
    forall c :: Answered(s, c) ==> s.callers[c].path in s.files && s.files[s.callers[c].path] == window(s.callers[c].path)
  }

  /** In every state a run reaches, the answers hold. */
  ghost predicate Safe(window: Path -> File, s: State) {
    forall steps :: Run(window, s, steps).Some? ==> AnswersHold(window, Run(window, s, steps).value)
  }

  lemma CoherentAnswers(window: Path -> File, s: State)
    requires Published(s) && Coherent(window, s)
    ensures AnswersHold(window, s)
  {
    forall c | Answered(s, c)
      ensures s.callers[c].path in s.files && s.files[s.callers[c].path] == window(s.callers[c].path)
    {
      assert ResultOf(s.callers[c].stage) == Some(Localized(s.callers[c].path));
    }
  }

  /** One caller, from arrival to its answer. */
  function Solo(path: Path, cached: bool): seq<Step> {
    if cached then [Arrive(0, path), LookUp(0, true)]
    else [Arrive(0, path), LookUp(0, true), Enter(0), Publish(0, Written), Remove(0), Notify(0)]
  }

  /** A file already present is answered with as it stands: at once if it has bytes, and after a fetch whose
      publication finds the name taken if it is empty. */
  lemma PresentFileAnswered(window: Path -> File, s: State, path: Path)
    requires Initial(s) && path in s.files
    ensures var t := Run(window, s, Solo(path, |s.files[path]| > 0));
            t.Some? && t.value.files == s.files && Answered(t.value, 0) && t.value.callers[0].path == path
  {
    var s1 := Next(window, s, Arrive(0, path)).value;
    var s2 := Next(window, s1, LookUp(0, true)).value;
    if |s.files[path]| > 0 {
      RunTo(window, [s, s1, s2], Solo(path, true));
    } else {
      var s3 := Next(window, s2, Enter(0)).value;
      var s4 := Next(window, s3, Publish(0, Written)).value;
      var s5 := Next(window, s4, Remove(0)).value;
      var s6 := Next(window, s5, Notify(0)).value;
      RunTo(window, [s, s1, s2, s3, s4, s5, s6], Solo(path, false));
    }
  }

  /** With no file at the path, a caller alone fetches the window, publishes it and is answered with it, and leaves no
      entry behind. */
  lemma ColdFetch(window: Path -> File, s: State, path: Path)
    requires Initial(s) && path !in s.files
    ensures var t := Run(window, s, Solo(path, false));
            && t.Some? && t.value.files == s.files[path := window(path)] && t.value.inFlight == map[]
            && Answered(t.value, 0) && t.value.callers[0].path == path
  {
    hide Next, Run;
    var mid := ColdEntered(window, s, path);
    ColdPublished(window, mid, path);
    RunConcat(window, s, Solo(path, false)[..3], Solo(path, false)[3..]);
    assert Solo(path, false)[..3] + Solo(path, false)[3..] == Solo(path, false);
  }

  lemma ColdEntered(window: Path -> File, s: State, path: Path) returns (mid: State)
    requires Initial(s) && path !in s.files
    ensures Run(window, s, Solo(path, false)[..3]) == Some(mid)
    ensures mid == State(map[path := 0], s.files, map[0 := Caller(path, Fetching)], {})
  {
    var s1 := Next(window, s, Arrive(0, path)).value;
    var s2 := Next(window, s1, LookUp(0, true)).value;
    mid := Next(window, s2, Enter(0)).value;
    RunTo(window, [s, s1, s2, mid], Solo(path, false)[..3]);
  }

  lemma ColdPublished(window: Path -> File, mid: State, path: Path)
    requires path !in mid.files && mid == State(map[path := 0], mid.files, map[0 := Caller(path, Fetching)], {})
    ensures var t := Run(window, mid, Solo(path, false)[3..]);
            && t.Some? && t.value.files == mid.files[path := window(path)] && t.value.inFlight == map[]
            && Answered(t.value, 0) && t.value.callers[0].path == path
  {
    var s4 := Next(window, mid, Publish(0, Written)).value;
    var s5 := Next(window, s4, Remove(0)).value;
    var s6 := Next(window, s5, Notify(0)).value;
    RunTo(window, [mid, s4, s5, s6], Solo(path, false)[3..]);
  }

  // ---- What a caller is told --------------------------------------------------------------

  lemma ResultStep(window: Path -> File, s: State, step: Step, c: CallerId)
    requires c in s.callers && ResultOf(s.callers[c].stage).Some? && Next(window, s, step).Some?
    ensures var t := Next(window, s, step).value;
            c in t.callers && t.callers[c].path == s.callers[c].path && ResultOf(t.callers[c].stage) == ResultOf(s.callers[c].stage)
  {
  }

  /** A result once reached is the one returned, whatever the others do. */
  lemma {:induction false} ResultKept(window: Path -> File, s: State, steps: seq<Step>, c: CallerId)
    requires c in s.callers && ResultOf(s.callers[c].stage).Some? && Run(window, s, steps).Some?
    ensures var t := Run(window, s, steps).value;
            c in t.callers && t.callers[c].path == s.callers[c].path && ResultOf(t.callers[c].stage) == ResultOf(s.callers[c].stage)
    decreases |steps|
  {
    hide ResultOf, Next;
    if steps != [] {
      ResultStep(window, s, steps[0], c);
      ResultKept(window, Next(window, s, steps[0]).value, steps[1..], c);
    }
  }

  /** A written fetch leaves the caller's window at its path, unless a file is there already, and the caller, if it
      returns, is answered with that path; a failed fetch publishes nothing, and the caller returns the failure. */
  lemma FetchReturned(window: Path -> File, s: State, c: CallerId, fetch: Fetch, steps: seq<Step>)
    requires Invariant(s) && c in s.callers && s.callers[c].stage.Fetching?
    requires Run(window, s, [Publish(c, fetch)] + steps).Some?
    ensures var path := s.callers[c].path;
            var next, t := Run(window, s, [Publish(c, fetch)]), Run(window, s, [Publish(c, fetch)] + steps).value;
            && next.Some? && c in t.callers
            && match fetch
               case Written =>
                 && next.value.files == (if path in s.files then s.files else s.files[path := window(path)])
                 && path in t.files && (t.callers[c].stage.Returned? ==> Answered(t, c) && t.callers[c].path == path)
               case FetchError =>
                 && next.value.files == s.files && (t.callers[c].stage.Returned? ==> t.callers[c].stage.result == Failed)
  {
    var first, all := [Publish(c, fetch)], [Publish(c, fetch)] + steps;
    assert first[1..] == [] && all[0] == first[0] && all[1..] == steps;
    var next := Next(window, s, Publish(c, fetch)).value;
    assert Run(window, s, first) == Some(next) && Run(window, s, all) == Run(window, next, steps);
    assert ResultOf(next.callers[c].stage).Some?;
    hide Invariant;
    ResultKept(window, next, steps, c);
    EveryRun(window, s, first);
    EveryRun(window, next, steps);
  }

  /** A caller that finds a file with bytes is answered with it, a waiter that is woken to one too; if there is none, or
      an empty one, the caller goes on to fetch or to wait, and if the lookup fails, so does the call. */
  lemma LookedUp(window: Path -> File, s: State, c: CallerId, readable: bool)
    requires c in s.callers && (s.callers[c].stage.Looking? || s.callers[c].stage.Checking?)
    ensures var t := Next(window, s, LookUp(c, readable));
            && t.Some? && t.value.files == s.files && t.value.inFlight == s.inFlight
            && var path := s.callers[c].path;
               && (Answered(t.value, c) <==> readable && path in s.files && s.files[path] != [])
               && (t.value.callers[c].stage == Returned(Failed) <==> !readable)
               && (t.value.callers[c].stage == Entering <==> readable && (path !in s.files || s.files[path] == []))
  {
  }

  // ---- Calls that never return ------------------------------------------------------------

  /** The caller can never be woken: it has listened, or will listen, only after its owner notified. */
  predicate Doomed(s: State, c: CallerId) {
    c in s.callers &&
    match s.callers[c].stage
    case Joining(owner) => owner in s.notified
    case Waiting(_, missed) => missed
    case _ => false
  }

  /** Unless it missed the notification, a waiter's owner is still at work or has notified it. */
  ghost predicate OwnersAtWork(s: State) {
    forall c :: c in s.callers && Awaits(s.callers[c].stage) ==> OwnerAtWork(s, s.callers[c].stage.owner)
  }

  predicate OwnerAtWork(s: State, owner: CallerId) {
    owner in s.notified || (owner in s.callers && (Holding(s, owner) || s.callers[owner].stage.Notifying?))
  }

  lemma OwnersStep(window: Path -> File, s: State, step: Step)
    requires Exclusive(s) && OwnersAtWork(s) && Next(window, s, step).Some?
    ensures OwnersAtWork(Next(window, s, step).value)
  {
    hide NoClobber, CacheHit;
    var t := Next(window, s, step).value;
    forall c | c in t.callers && Awaits(t.callers[c].stage)
      ensures OwnerAtWork(t, t.callers[c].stage.owner)
    {
      if !step.Enter? {
        assert OwnerAtWork(s, s.callers[c].stage.owner);
      }
    }
  }

  /** What is known of every state a run reaches. */
  ghost predicate Reachable(s: State) {
    Exclusive(s) && Awaited(s) && OwnersAtWork(s)
  }

  lemma ReachableStep(window: Path -> File, s: State, step: Step)
    requires Reachable(s) && Next(window, s, step).Some?
    ensures Reachable(Next(window, s, step).value)
  {
    hide Exclusive, Awaited, OwnersAtWork, Next;
    ExclusiveStep(window, s, step);
    AwaitedStep(window, s, step);
    OwnersStep(window, s, step);
  }

  lemma {:induction false} ReachableRun(window: Path -> File, s: State, steps: seq<Step>)
    requires Reachable(s) && Run(window, s, steps).Some?
    ensures Reachable(Run(window, s, steps).value)
    decreases |steps|
  {
    hide Next, Reachable;
    if steps != [] {
      ReachableStep(window, s, steps[0]);
      ReachableRun(window, Next(window, s, steps[0]).value, steps[1..]);
    }
  }

  lemma DoomedStep(window: Path -> File, s: State, step: Step, c: CallerId)
    requires Doomed(s, c) && Next(window, s, step).Some?
    ensures Doomed(Next(window, s, step).value, c)
  {
    hide NoClobber, CacheHit;
  }

  lemma {:induction false} DoomedKept(window: Path -> File, s: State, steps: seq<Step>, c: CallerId)
    requires Doomed(s, c) && Run(window, s, steps).Some?
    ensures Doomed(Run(window, s, steps).value, c)
    decreases |steps|
  {
    hide Next, Doomed;
    if steps != [] {
      DoomedStep(window, s, steps[0], c);
      DoomedKept(window, Next(window, s, steps[0]).value, steps[1..], c);
    }
  }

  /** Steps a stage is away from returning, if every lookup and fetch from now on fails. */
  function Left(stage: Stage): nat {
    match stage
    case Returned(_) => 0
    case Looking => 1
    case Checking => 1
    case Notifying(_) => 1
    case Removing(_) => 2
    case Fetching => 3
    case Waiting(_, _) => 2
    case Joining(_) => 3
    case Entering => 7
  }

  /** The same for a caller, counting what its owner has left. */
  function Distance(s: State, c: CallerId): nat
    requires c in s.callers
  {
    var stage := s.callers[c].stage;
    Left(stage) +
    if Awaits(stage) && stage.owner !in s.notified && stage.owner in s.callers then Left(s.callers[stage.owner].stage) else 0
  }

  /** The quickest step of a caller to its end. */
  function Hurry(s: State, c: CallerId): Step
    requires c in s.callers
  {
    match s.callers[c].stage
    case Looking => LookUp(c, false)
    case Checking => LookUp(c, false)
    case Entering => Enter(c)
    case Joining(_) => Listen(c)
    case Waiting(_, _) => Wake(c)
    case Fetching => Publish(c, FetchError)
    case Removing(_) => Remove(c)
    case Notifying(_) => Notify(c)
    case Returned(_) => Notify(c)
  }

  /** The next step towards the caller's end: its own, or its owner's while it waits for it. */
  function Towards(s: State, c: CallerId): Step
    requires c in s.callers
  {
    var stage := s.callers[c].stage;
    if stage.Waiting? && stage.owner !in s.notified && stage.owner in s.callers then Hurry(s, stage.owner) else Hurry(s, c)
  }

  lemma Closer(window: Path -> File, s: State, c: CallerId)
    requires Reachable(s) && c in s.callers && !s.callers[c].stage.Returned? && !Doomed(s, c)
    ensures var t := Next(window, s, Towards(s, c));
            t.Some? && c in t.value.callers && !Doomed(t.value, c) && Distance(t.value, c) < Distance(s, c)
  {
    hide NoClobber;
    var stage := s.callers[c].stage;
    if Awaits(stage) {
      assert OwnerAtWork(s, stage.owner);
    }
    if stage.Entering? && s.callers[c].path in s.inFlight {
      assert Holding(s, s.inFlight[s.callers[c].path]);
    }
  }

  lemma {:induction false} CanReturn(window: Path -> File, s: State, c: CallerId) returns (steps: seq<Step>)
    requires Reachable(s) && c in s.callers && !Doomed(s, c)
    ensures Run(window, s, steps).Some?
    ensures c in Run(window, s, steps).value.callers && Run(window, s, steps).value.callers[c].stage.Returned?
    decreases Distance(s, c)
  {
    hide Next, Reachable, Towards, Doomed, Distance;
    if s.callers[c].stage.Returned? {
      steps := [];
    } else {
      Closer(window, s, c);
      ReachableStep(window, s, Towards(s, c));
      var rest := CanReturn(window, Next(window, s, Towards(s, c)).value, c);
      steps := [Towards(s, c)] + rest;
      assert steps[0] == Towards(s, c) && steps[1..] == rest;
    }
  }

  /** In every state a run reaches, a call can still return, by some course of events, exactly unless it is doomed: it
      took its owner's notifier before, and listens to it after, the owner notified. */
  lemma ReturnsUnlessDoomed(window: Path -> File, s: State, before: seq<Step>, c: CallerId)
    requires Initial(s) && Run(window, s, before).Some? && c in Run(window, s, before).value.callers
    ensures var t := Run(window, s, before).value;
            (exists steps :: Run(window, t, steps).Some? && c in Run(window, t, steps).value.callers &&
                             Run(window, t, steps).value.callers[c].stage.Returned?) <==> !Doomed(t, c)
  {
    hide Run, Next, Doomed, Reachable;
    StartReachable(s);
    ReachableRun(window, s, before);
    var t := Run(window, s, before).value;
    if Doomed(t, c) {
      forall steps | Run(window, t, steps).Some? && c in Run(window, t, steps).value.callers
        ensures !Run(window, t, steps).value.callers[c].stage.Returned?
      {
        DoomedKept(window, t, steps, c);
        DoomedWaits(Run(window, t, steps).value, c);
      }
    } else {
      var steps := CanReturn(window, t, c);
    }
  }

  lemma StartReachable(s: State)
    requires Initial(s)
    ensures Reachable(s)
  {
  }

  lemma DoomedWaits(s: State, c: CallerId)
    requires Doomed(s, c)
    ensures c in s.callers && !s.callers[c].stage.Returned?
  {
  }

  /** Two callers of one path: the second takes the notifier, the first fetches, removes its entry and notifies before
      the second listens. */
  function LostWakeup(path: Path): seq<Step> {
    [ Arrive(0, path), LookUp(0, true), Enter(0), Arrive(1, path), LookUp(1, true), Enter(1),
      Publish(0, Written), Remove(0), Notify(0) ]
  }

  /** It happens: with the window fetched and published, the second call never returns. */
  lemma WakeupLost(window: Path -> File, s: State, path: Path)
    requires Initial(s) && path !in s.files
    ensures var t := Run(window, s, LostWakeup(path));
            && t.Some? && t.value.files == s.files[path := window(path)] && Answered(t.value, 0)
            && 1 in t.value.callers && Doomed(t.value, 1)
  {
    hide Next, Run;
    var mid := LostHalf(window, s, path);
    LostRest(window, mid, path);
    RunConcat(window, s, LostWakeup(path)[..6], LostWakeup(path)[6..]);
    assert LostWakeup(path)[..6] + LostWakeup(path)[6..] == LostWakeup(path);
  }

  lemma LostHalf(window: Path -> File, s: State, path: Path) returns (mid: State)
    requires Initial(s) && path !in s.files
    ensures Run(window, s, LostWakeup(path)[..6]) == Some(mid)
    ensures mid == State(map[path := 0], s.files, map[0 := Caller(path, Fetching), 1 := Caller(path, Joining(0))], {})
  {
    var steps := LostWakeup(path)[..6];
    var s1 := Next(window, s, steps[0]).value;
    var s2 := Next(window, s1, steps[1]).value;
    var s3 := Next(window, s2, steps[2]).value;
    var s4 := Next(window, s3, steps[3]).value;
    var s5 := Next(window, s4, steps[4]).value;
    mid := Next(window, s5, steps[5]).value;
    RunTo(window, [s, s1, s2, s3, s4, s5, mid], steps);
  }

  lemma LostRest(window: Path -> File, mid: State, path: Path)
    requires path !in mid.files
    requires mid == State(map[path := 0], mid.files, map[0 := Caller(path, Fetching), 1 := Caller(path, Joining(0))], {})
    ensures var t := Run(window, mid, LostWakeup(path)[6..]);
            && t.Some? && t.value.files == mid.files[path := window(path)] && Answered(t.value, 0)
            && 1 in t.value.callers && Doomed(t.value, 1)
  {
    var steps := LostWakeup(path)[6..];
    var s7 := Next(window, mid, steps[0]).value;
    var s8 := Next(window, s7, steps[1]).value;
    var s9 := Next(window, s8, steps[2]).value;
    RunTo(window, [mid, s7, s8, s9], steps);
  }

  lemma {:induction false} RunConcat(window: Path -> File, s: State, before: seq<Step>, after: seq<Step>)
    requires Run(window, s, before).Some?
    ensures Run(window, s, before + after) == Run(window, Run(window, s, before).value, after)
    decreases |before|
  {
    hide Next;
    if before == [] {
      assert before + after == after;
    } else {
      RunConcat(window, Next(window, s, before[0]).value, before[1..], after);
      assert (before + after)[1..] == before[1..] + after;
    }
  }

  lemma {:induction false} RunTo(window: Path -> File, states: seq<State>, steps: seq<Step>)
    requires |states| == |steps| + 1
    requires forall i :: 0 <= i < |steps| ==> Next(window, states[i], steps[i]) == Some(states[i + 1])
    ensures Run(window, states[0], steps) == Some(states[|steps|])
    decreases |steps|
  {
    hide Next;
    if steps == [] {
    } else {
      RunTo(window, states[1..], steps[1..]);
    }
  }

  /** Every answer of every run names a published file holding that window, exactly when every file found in
      the directory at the start holds its window. */
  lemma SafeIffCoherent(window: Path -> File, s: State)
    requires Initial(s)
    ensures Safe(window, s) <==> Coherent(window, s)
  {
    hide Next, Run, Invariant, AnswersHold, Published;
    InitialInvariant(s);
    if Coherent(window, s) {
      forall steps | Run(window, s, steps).Some?
        ensures AnswersHold(window, Run(window, s, steps).value)
      {
        RunSafe(window, s, steps);
      }
    } else {
      var path :| path in s.files && s.files[path] != window(path);
      UnsafeRun(window, s, path);
    }
  }

  lemma RunSafe(window: Path -> File, s: State, steps: seq<Step>)
    requires Invariant(s) && Coherent(window, s) && Run(window, s, steps).Some?
    ensures AnswersHold(window, Run(window, s, steps).value)
  {
    hide Next, Run, Exclusive, Awaited, AnswersHold, Coherent;
    EveryRun(window, s, steps);
    CoherentAnswers(window, Run(window, s, steps).value);
  }

  lemma UnsafeRun(window: Path -> File, s: State, path: Path)
    requires Initial(s) && path in s.files && s.files[path] != window(path)
    ensures exists steps :: Run(window, s, steps).Some? && !AnswersHold(window, Run(window, s, steps).value)
  {
    hide Next, Run;
    PresentFileAnswered(window, s, path);
    var steps := Solo(path, |s.files[path]| > 0);
    assert Answered(Run(window, s, steps).value, 0);
  }
}
