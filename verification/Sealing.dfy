/** Sealing the declaration: write a temporary file, link it exclusively, verify. Any number of sealers
    interleave, any system call may fail, and a sealer may crash anywhere. */
module Sealing {
  import opened Bytes
  import opened Results

  type Sealer = nat
  type Inode = nat
  datatype Name = Declaration | Temporary(owner: Sealer)

  datatype Verdict = Sealed | Verified
  datatype Outcome = Returned(verdict: Verdict) | Raised

  /** Where a sealer stands; `inode` is its temporary file. */
  datatype Stage<V> =
    | Starting
    | Resuming                                                // the path exists: verify it
    | Probing                                                 // the path is absent: probe
    | Creating(value: V)                                      // a validated value, no file yet
    | Writing(value: V, inode: Inode, written: nat)
    | Linking(value: V, inode: Inode)                         // everything written and synced
    | Confirming(verdict: Verdict)                            // the link succeeded, or found the path taken
    | Unlinking(outcome: Outcome)                             // the finally clause
    | Done(outcome: Outcome)
    | Crashed

  datatype State<V> = State(names: map<Name, Inode>, files: map<Inode, seq<byte>>, sealers: map<Sealer, Stage<V>>)
  {
    function At(c: Sealer, stage: Stage<V>): State<V> {
      this.(sealers := sealers[c := stage])
    }
  }

  /** What a declaration is: which values are valid, their canonical bytes, and which bytes read back as valid. */
  datatype Format<!V> = Format(valid: V -> bool, encode: V -> seq<byte>, readable: seq<byte> -> bool)

  // ---- Steps ------------------------------------------------------------------------------

  datatype Step<V> =
    | Begin(c: Sealer)
    | CheckExists(c: Sealer)
    | Resume(c: Sealer)
    | Probe(c: Sealer, value: Option<V>)
    | Create(c: Sealer, ok: bool, unused: Inode)
    | Write(c: Sealer, n: nat)
    | WriteFails(c: Sealer)
    | Sync(c: Sealer)
    | Link(c: Sealer, ok: bool)
    | Confirm(c: Sealer)
    | Unlink(c: Sealer, ok: bool)
    | Crash(c: Sealer)

  predicate DeclarationReadable<V>(f: Format<V>, s: State<V>) {
    && Declaration in s.names && s.names[Declaration] in s.files
    && f.readable(s.files[s.names[Declaration]])
  }

  /** One step, if it is enabled. */
  function Next<V>(f: Format<V>, s: State<V>, step: Step<V>): Option<State<V>> {
    if step.Begin? then
      if step.c in s.sealers then None else Some(s.At(step.c, Starting))
    else if step.c !in s.sealers then None
    else
      var c, stage := step.c, s.sealers[step.c];
      match step
      case CheckExists(_) =>
        if !stage.Starting? then None
        else Some(s.At(c, if Declaration in s.names then Resuming else Probing))
      case Resume(_) =>
        if !stage.Resuming? then None
        else Some(s.At(c, Done(if DeclarationReadable(f, s) then Returned(Verified) else Raised)))
      case Probe(_, value) =>
        if !stage.Probing? then None
        else Some(s.At(c, if value.Some? && f.valid(value.value) then Creating(value.value) else Done(Raised)))
      case Create(_, ok, unused) =>
        if !stage.Creating? || unused in s.files then None
        else if !ok then Some(s.At(c, Done(Raised)))
        else
          Some(s.At(c, Writing(stage.value, unused, 0)).(names := s.names[Temporary(c) := unused], files := s.files[unused := []]))
      case Write(_, n) =>
        if !stage.Writing? || stage.inode !in s.files || stage.written + n > |f.encode(stage.value)| then None
        else
          var bytes := f.encode(stage.value)[stage.written..stage.written + n];
          Some(s.At(c, stage.(written := stage.written + n)).(files := s.files[stage.inode := s.files[stage.inode] + bytes]))
      case WriteFails(_) =>
        if !stage.Writing? then None else Some(s.At(c, Unlinking(Raised)))
      case Sync(_) =>
        if !stage.Writing? || stage.written != |f.encode(stage.value)| then None
        else Some(s.At(c, Linking(stage.value, stage.inode)))
      case Link(_, ok) =>
        if !stage.Linking? then None
        else if !ok then Some(s.At(c, Unlinking(Raised)))
        else if Declaration in s.names then Some(s.At(c, Confirming(Verified)))
        else Some(s.At(c, Confirming(Sealed)).(names := s.names[Declaration := stage.inode]))
      case Confirm(_) =>
        if !stage.Confirming? then None
        else Some(s.At(c, Unlinking(if DeclarationReadable(f, s) then Returned(stage.verdict) else Raised)))
      case Unlink(_, ok) =>
        if !stage.Unlinking? then None
        else if !ok then Some(s.At(c, Done(Raised)))
        else Some(s.At(c, Done(stage.outcome)).(names := s.names - {Temporary(c)}))
      case Crash(_) =>
        if stage.Done? || stage.Crashed? then None else Some(s.At(c, Crashed))
  }

  // ---- Invariants -------------------------------------------------------------------------

  /** A sealer that still has a file to write or to link. */
  predicate Preparing<V>(s: State<V>, c: Sealer) {
    c in s.sealers && (s.sealers[c].Writing? || s.sealers[c].Linking?)
  }

  /** A sealer's value is validated, and its temporary file holds what it has written so far. */
  predicate Prepared<V>(f: Format<V>, s: State<V>, c: Sealer) {
    && (c in s.sealers && s.sealers[c].Creating? ==> f.valid(s.sealers[c].value))
    && (Preparing(s, c) ==>
      var stage := s.sealers[c];
      && f.valid(stage.value) && stage.inode in s.files
      && (Declaration in s.names ==> s.names[Declaration] != stage.inode)
      && (stage.Writing? ==> stage.written <= |f.encode(stage.value)| && s.files[stage.inode] == f.encode(stage.value)[..stage.written])
      && (stage.Linking? ==> s.files[stage.inode] == f.encode(stage.value)))
  }

  /** No two sealers write the same file, and the declaration is nobody's unfinished file. */
  ghost predicate Private<V>(f: Format<V>, s: State<V>) {
    && (forall c :: Prepared(f, s, c))
    && (forall c, d :: Preparing(s, c) && Preparing(s, d) && c != d ==> s.sealers[c].inode != s.sealers[d].inode)
    && (forall name :: name in s.names ==> s.names[name] in s.files)
  }

  /** A sealer that has linked the declaration itself. */
  predicate HasSealed<V>(s: State<V>, c: Sealer) {
    && c in s.sealers
    && (|| s.sealers[c] == Confirming(Sealed)
        || s.sealers[c] == Unlinking(Returned(Sealed))
        || s.sealers[c] == Done(Returned(Sealed)))
  }

  ghost predicate OneSealer<V>(s: State<V>) {
    && (forall c :: HasSealed(s, c) ==> Declaration in s.names)
    && (forall c, d :: HasSealed(s, c) && HasSealed(s, d) ==> c == d)
  }

  /** Temporary files that remain belong to sealers still at work, crashed, or that raised. */
  ghost predicate Tidy<V>(s: State<V>) {
    forall c :: Temporary(c) in s.names ==>
      && c in s.sealers
      && (s.sealers[c].Writing? || s.sealers[c].Linking? || s.sealers[c].Confirming? || s.sealers[c].Unlinking?
          || s.sealers[c].Crashed? || s.sealers[c] == Done(Raised))
  }

  /** A sealer that read the declaration and found it valid. */
  predicate HasRead<V>(s: State<V>, c: Sealer) {
    c in s.sealers && ((s.sealers[c].Unlinking? && s.sealers[c].outcome.Returned?) || (s.sealers[c].Done? && s.sealers[c].outcome.Returned?))
  }

  ghost predicate Read<V>(f: Format<V>, s: State<V>) {
    forall c :: HasRead(s, c) ==> DeclarationReadable(f, s)
  }

  ghost predicate Invariant<V(!new)>(f: Format<V>, s: State<V>) {
    Private(f, s) && OneSealer(s) && Tidy(s) && Read(f, s)
  }

  /** Absent, or one complete validated value. */
  ghost predicate Whole<V(!new)>(f: Format<V>, s: State<V>) {
    Declaration in s.names ==>
      s.names[Declaration] in s.files && exists v :: f.valid(v) && s.files[s.names[Declaration]] == f.encode(v)
  }

  /** Once present, the declaration keeps its file and the file keeps its bytes. */
  ghost predicate Immutable<V>(s: State<V>, t: State<V>) {
    Declaration in s.names && s.names[Declaration] in s.files ==>
      && Declaration in t.names && t.names[Declaration] == s.names[Declaration]
      && s.names[Declaration] in t.files && t.files[s.names[Declaration]] == s.files[s.names[Declaration]]
  }

  // ---- What every step keeps --------------------------------------------------------------

  lemma ImmutableStep<V(!new)>(f: Format<V>, s: State<V>, step: Step<V>)
    requires Private(f, s) && Next(f, s, step).Some?
    ensures Immutable(s, Next(f, s, step).value)
  {
    assert Prepared(f, s, step.c);
  }

  /** The mover's own file holds what it has written. */
  lemma MoverPrepared<V(!new)>(f: Format<V>, s: State<V>, step: Step<V>)
    requires Private(f, s) && Next(f, s, step).Some?
    ensures Prepared(f, Next(f, s, step).value, step.c)
  {
    assert Prepared(f, s, step.c);
    if step.Write? && Preparing(s, step.c) {
      var bytes, k := f.encode(s.sealers[step.c].value), s.sealers[step.c].written;
      assert bytes[..k] + bytes[k..k + step.n] == bytes[..k + step.n];
    } else if step.Sync? && Preparing(s, step.c) {
      var bytes := f.encode(s.sealers[step.c].value);
      assert bytes[..|bytes|] == bytes;
    } else if step.Create? {
      assert f.encode(s.sealers[step.c].value)[..0] == [];
    }
  }

  /** What a step may change: only files nobody else is preparing. */
  lemma ElsewhereKept<V(!new)>(f: Format<V>, s: State<V>, step: Step<V>, d: Sealer)
    requires Private(f, s) && Next(f, s, step).Some? && d != step.c && Preparing(s, d)
    ensures var t := Next(f, s, step).value; var inode := s.sealers[d].inode;
            && d in t.sealers && t.sealers[d] == s.sealers[d] && inode in s.files && inode in t.files && t.files[inode] == s.files[inode]
            && (Declaration in t.names ==> t.names[Declaration] != inode)
  {
    assert Prepared(f, s, d) && Prepared(f, s, step.c);
  }

  lemma OthersPrepared<V(!new)>(f: Format<V>, s: State<V>, step: Step<V>, d: Sealer)
    requires Private(f, s) && Next(f, s, step).Some? && d != step.c
    ensures Preparing(Next(f, s, step).value, d) <==> Preparing(s, d)
    ensures Prepared(f, Next(f, s, step).value, d)
  {
    assert Prepared(f, s, d);
    assert d in s.sealers ==> Next(f, s, step).value.sealers[d] == s.sealers[d];
    assert Preparing(Next(f, s, step).value, d) <==> Preparing(s, d);
    if Preparing(s, d) {
      hide Next;
      ElsewhereKept(f, s, step, d);
    }
  }

  /** A mover that is preparing keeps its file, or has just created one that did not exist. */
  lemma MoverInode<V(!new)>(f: Format<V>, s: State<V>, step: Step<V>)
    requires Next(f, s, step).Some? && Preparing(Next(f, s, step).value, step.c)
    ensures var inode := Next(f, s, step).value.sealers[step.c].inode;
            || (Preparing(s, step.c) && s.sealers[step.c].inode == inode)
            || inode !in s.files
  {
  }

  lemma NamesKept<V(!new)>(f: Format<V>, s: State<V>, step: Step<V>)
    requires Private(f, s) && Next(f, s, step).Some?
    ensures var t := Next(f, s, step).value; forall name :: name in t.names ==> t.names[name] in t.files
  {
    assert Prepared(f, s, step.c);
  }

  lemma PrivateStep<V(!new)>(f: Format<V>, s: State<V>, step: Step<V>)
    requires Private(f, s) && Next(f, s, step).Some?
    ensures Private(f, Next(f, s, step).value)
  {
    var t := Next(f, s, step).value;
    hide Next;
    forall c
      ensures Prepared(f, t, c)
    {
      if c == step.c {
        MoverPrepared(f, s, step);
      } else {
        OthersPrepared(f, s, step, c);
      }
    }
    forall c, d | Preparing(t, c) && Preparing(t, d) && c != d
      ensures t.sealers[c].inode != t.sealers[d].inode
    {
      InodesApart(f, s, step, c, d);
    }
    NamesKept(f, s, step);
  }

  lemma InodesApart<V(!new)>(f: Format<V>, s: State<V>, step: Step<V>, c: Sealer, d: Sealer)
    requires Private(f, s) && Next(f, s, step).Some? && c != d
    requires Preparing(Next(f, s, step).value, c) && Preparing(Next(f, s, step).value, d)
    ensures Next(f, s, step).value.sealers[c].inode != Next(f, s, step).value.sealers[d].inode
  {
    hide Next;
    assert Prepared(f, s, c) && Prepared(f, s, d);
    if c == step.c {
      OthersPrepared(f, s, step, d);
      ElsewhereKept(f, s, step, d);
      MoverInode(f, s, step);
    } else if d == step.c {
      OthersPrepared(f, s, step, c);
      ElsewhereKept(f, s, step, c);
      MoverInode(f, s, step);
    } else {
      OthersPrepared(f, s, step, c);
      OthersPrepared(f, s, step, d);
      ElsewhereKept(f, s, step, c);
      ElsewhereKept(f, s, step, d);
    }
  }

  /** Only a successful link makes a sealer one that has sealed, and only while the declaration was absent. */
  lemma OneSealerStep<V(!new)>(f: Format<V>, s: State<V>, step: Step<V>)
    requires OneSealer(s) && Next(f, s, step).Some?
    ensures OneSealer(Next(f, s, step).value)
  {
    var t := Next(f, s, step).value;
    assert Declaration in s.names ==> Declaration in t.names;
    forall c | HasSealed(t, c)
      ensures HasSealed(s, c) || (c == step.c && Declaration !in s.names && Declaration in t.names)
    {
    }
  }

  lemma TidyStep<V(!new)>(f: Format<V>, s: State<V>, step: Step<V>)
    requires Tidy(s) && Next(f, s, step).Some?
    ensures Tidy(Next(f, s, step).value)
  {
  }

  lemma ReadStep<V(!new)>(f: Format<V>, s: State<V>, step: Step<V>)
    requires Private(f, s) && Read(f, s) && Next(f, s, step).Some?
    ensures Read(f, Next(f, s, step).value)
  {
    ImmutableStep(f, s, step);
    var t := Next(f, s, step).value;
    forall c | HasRead(t, c)
      ensures HasRead(s, c) || DeclarationReadable(f, s)
    {
    }
  }

  lemma WholeStep<V(!new)>(f: Format<V>, s: State<V>, step: Step<V>)
    requires Private(f, s) && Whole(f, s) && Next(f, s, step).Some?
    ensures Whole(f, Next(f, s, step).value)
  {
    ImmutableStep(f, s, step);
    assert Prepared(f, s, step.c);
  }

  // ---- Runs -------------------------------------------------------------------------------

  /** No sealer has started; the declaration may already be there, whatever it holds. */
  ghost predicate Initial<V>(s: State<V>) {
    && s.sealers == map[]
    && (forall c :: Temporary(c) !in s.names)
    && (forall name :: name in s.names ==> s.names[name] in s.files)
  }

  function Run<V>(f: Format<V>, s: State<V>, steps: seq<Step<V>>): Option<State<V>>
    decreases |steps|
  {
    if steps == [] then Some(s)
    else
      match Next(f, s, steps[0])
      case None => None
      case Some(t) => Run(f, t, steps[1..])
  }

  /** From any state that keeps the invariant, every run keeps it, never changes a declaration once present,
      and only ever puts a whole validated value there. */
  lemma {:induction false} EveryRun<V(!new)>(f: Format<V>, s: State<V>, steps: seq<Step<V>>)
    requires Invariant(f, s) && Run(f, s, steps).Some?
    ensures var t := Run(f, s, steps).value;
            Invariant(f, t) && Immutable(s, t) && (Whole(f, s) ==> Whole(f, t))
    decreases |steps|
  {
    hide Next, Private, OneSealer, Tidy, Read, Whole;
    if steps == [] {
    } else {
      var next := Next(f, s, steps[0]).value;
      PrivateStep(f, s, steps[0]);
      OneSealerStep(f, s, steps[0]);
      TidyStep(f, s, steps[0]);
      ReadStep(f, s, steps[0]);
      ImmutableStep(f, s, steps[0]);
      if Whole(f, s) {
        WholeStep(f, s, steps[0]);
      }
      EveryRun(f, next, steps[1..]);
    }
  }

  lemma InitialInvariant<V(!new)>(f: Format<V>, s: State<V>)
    requires Initial(s)
    ensures Invariant(f, s)
  {
  }

  /** A sealer whose call returned normally. */
  predicate ReturnedWith<V>(s: State<V>, c: Sealer, verdict: Verdict) {
    c in s.sealers && s.sealers[c] == Done(Returned(verdict))
  }

  /** Every state any number of sealers can reach, crashes and failing calls included: the declaration is absent
      or one complete validated value (if it was absent at first) or what it was at first; at most one call
      returned "sealed"; and a call that returned left no temporary file and a readable declaration. */
  lemma SealingSafe<V(!new)>(f: Format<V>, s: State<V>, steps: seq<Step<V>>)
    requires Initial(s) && Run(f, s, steps).Some?
    ensures var t := Run(f, s, steps).value;
            && (Declaration !in s.names ==> Whole(f, t))
            && Immutable(s, t)
            && (forall c, d :: ReturnedWith(t, c, Sealed) && ReturnedWith(t, d, Sealed) ==> c == d)
            && (forall c, v :: ReturnedWith(t, c, v) ==> Temporary(c) !in t.names && DeclarationReadable(f, t))
  {
    hide Next, Run, Private;
    InitialInvariant(f, s);
    EveryRun(f, s, steps);
    var t := Run(f, s, steps).value;
    forall c, d | ReturnedWith(t, c, Sealed) && ReturnedWith(t, d, Sealed)
      ensures c == d
    {
      assert HasSealed(t, c) && HasSealed(t, d);
    }
    forall c, v | ReturnedWith(t, c, v)
      ensures Temporary(c) !in t.names && DeclarationReadable(f, t)
    {
      assert HasRead(t, c);
    }
  }

  /** The declaration of a run never changes between any two of its moments. */
  lemma {:induction false} NeverRewritten<V(!new)>(f: Format<V>, s: State<V>, before: seq<Step<V>>, after: seq<Step<V>>)
    requires Initial(s) && Run(f, s, before).Some? && Run(f, Run(f, s, before).value, after).Some?
    ensures Run(f, s, before + after) == Run(f, Run(f, s, before).value, after)
    ensures Immutable(Run(f, s, before).value, Run(f, s, before + after).value)
  {
    hide Next, Private, OneSealer, Tidy, Read, Whole, Immutable;
    InitialInvariant(f, s);
    EveryRun(f, s, before);
    EveryRun(f, Run(f, s, before).value, after);
    RunConcat(f, s, before, after);
  }

  lemma {:induction false} RunConcat<V>(f: Format<V>, s: State<V>, before: seq<Step<V>>, after: seq<Step<V>>)
    requires Run(f, s, before).Some?
    ensures Run(f, s, before + after) == Run(f, Run(f, s, before).value, after)
    decreases |before|
  {
    hide Next;
    if before == [] {
      assert before + after == after;
    } else {
      RunConcat(f, Next(f, s, before[0]).value, before[1..], after);
      assert (before + after)[1..] == before[1..] + after;
    }
  }

  // ---- Resuming ---------------------------------------------------------------------------

  /** A sealer that has not got past the existence check, or that resumed. */
  predicate OnlyResumes<V(==)>(s: State<V>, c: Sealer) {
    c in s.sealers ==> s.sealers[c] in {Starting, Resuming, Done(Returned(Verified)), Done(Raised), Crashed}
  }

  /** Once the declaration is there, a sealer that has not passed the existence check never probes and never
      writes, whatever the others do; in particular every sealer that begins later only verifies. */
  lemma {:induction false} ResumeNeverProbes<V(!new)>(f: Format<V>, s: State<V>, steps: seq<Step<V>>, c: Sealer)
    requires Declaration in s.names && OnlyResumes(s, c) && Run(f, s, steps).Some?
    ensures Declaration in Run(f, s, steps).value.names && OnlyResumes(Run(f, s, steps).value, c)
    decreases |steps|
  {
    if steps == [] {
    } else {
      ResumeStep(f, s, steps[0], c);
      hide Next, OnlyResumes;
      ResumeNeverProbes(f, Next(f, s, steps[0]).value, steps[1..], c);
    }
  }

  /** Such a sealer's own steps leave the directory and every file as they are. */
  lemma ResumeStep<V(!new)>(f: Format<V>, s: State<V>, step: Step<V>, c: Sealer)
    requires Declaration in s.names && OnlyResumes(s, c) && Next(f, s, step).Some?
    ensures var t := Next(f, s, step).value;
            && Declaration in t.names && OnlyResumes(t, c)
            && (step.c == c ==> t.names == s.names && t.files == s.files)
  {
  }

  // ---- What a call comes to ---------------------------------------------------------------

  lemma {:induction false} RunTo<V>(f: Format<V>, states: seq<State<V>>, steps: seq<Step<V>>)
    requires |states| == |steps| + 1
    requires forall i :: 0 <= i < |steps| ==> Next(f, states[i], steps[i]) == Some(states[i + 1])
    ensures Run(f, states[0], steps) == Some(states[|steps|])
    decreases |steps|
  {
    hide Next;
    if steps != [] {
      RunTo(f, states[1..], steps[1..]);
    }
  }

  /** The last three calls of a sealer. */
  function Finish<V>(c: Sealer): seq<Step<V>> {
    [Link(c, true), Confirm(c), Unlink(c, true)]
  }

  /** In any state the invariant allows, a sealer ready to link, left alone, returns: "sealed" with its own whole value
      as the declaration if there was none, "verified" and nothing changed if there was a readable one; its temporary
      file is gone. */
  lemma FinishReturns<V(!new)>(f: Format<V>, s: State<V>, c: Sealer)
    requires Invariant(f, s) && c in s.sealers && s.sealers[c].Linking?
    requires if Declaration in s.names then DeclarationReadable(f, s) else f.readable(f.encode(s.sealers[c].value))
    ensures var r := Run(f, s, Finish(c));
            && r.Some?
            && ReturnedWith(r.value, c, if Declaration in s.names then Verified else Sealed)
            && r.value.files == s.files && Temporary(c) !in r.value.names && Declaration in r.value.names
            && (if Declaration in s.names then r.value.names[Declaration] == s.names[Declaration]
                else r.value.names[Declaration] in s.files && s.files[r.value.names[Declaration]] == f.encode(s.sealers[c].value) && f.valid(s.sealers[c].value))
  {
    assert Prepared(f, s, c);
    var s1 := Next(f, s, Link(c, true)).value;
    var s2 := Next(f, s1, Confirm(c)).value;
    var s3 := Next(f, s2, Unlink(c, true)).value;
    RunTo(f, [s, s1, s2, s3], Finish(c));
  }

  /** A sealer up to the link, writing its bytes in one go. */
  function Prepare<V>(f: Format<V>, c: Sealer, value: V, unused: Inode): seq<Step<V>> {
    [Begin(c), CheckExists(c), Probe(c, Some(value)), Create(c, true, unused), Write(c, |f.encode(value)|), Sync(c)]
  }

  lemma Prepares<V(!new)>(f: Format<V>, s: State<V>, c: Sealer, value: V, unused: Inode)
    requires c !in s.sealers && Declaration !in s.names && unused !in s.files && f.valid(value)
    ensures Run(f, s, Prepare(f, c, value, unused))
            == Some(State(s.names[Temporary(c) := unused], s.files[unused := f.encode(value)], s.sealers[c := Linking(value, unused)]))
  {
    hide Run, Next;
    var mid := PreparesFile(f, s, c, value, unused);
    PreparesBytes(f, mid, c, value, unused);
    var steps := Prepare(f, c, value, unused);
    RunConcat(f, s, steps[..4], steps[4..]);
    assert steps[..4] + steps[4..] == steps;
    assert mid.files[unused := f.encode(value)] == s.files[unused := f.encode(value)];
    assert mid.sealers[c := Linking(value, unused)] == s.sealers[c := Linking(value, unused)];
  }

  lemma PreparesFile<V(!new)>(f: Format<V>, s: State<V>, c: Sealer, value: V, unused: Inode) returns (mid: State<V>)
    requires c !in s.sealers && Declaration !in s.names && unused !in s.files && f.valid(value)
    ensures Run(f, s, Prepare(f, c, value, unused)[..4]) == Some(mid)
    ensures mid == State(s.names[Temporary(c) := unused], s.files[unused := []], s.sealers[c := Writing(value, unused, 0)])
  {
    var s1, s2, s3 := s.At(c, Starting), s.At(c, Probing), s.At(c, Creating(value));
    mid := State(s.names[Temporary(c) := unused], s.files[unused := []], s.sealers[c := Writing(value, unused, 0)]);
    PreparesStart(f, s, c, value);
    assert s3.sealers[c := Writing(value, unused, 0)] == mid.sealers;
    PreparesCreate(f, s3, mid, c, value, unused);
    hide Next;
    RunTo(f, [s, s1, s2, s3, mid], Prepare(f, c, value, unused)[..4]);
  }

  lemma PreparesBytes<V(!new)>(f: Format<V>, mid: State<V>, c: Sealer, value: V, unused: Inode)
    requires c in mid.sealers && mid.sealers[c] == Writing(value, unused, 0) && unused in mid.files && mid.files[unused] == []
    ensures Run(f, mid, Prepare(f, c, value, unused)[4..])
            == Some(State(mid.names, mid.files[unused := f.encode(value)], mid.sealers[c := Linking(value, unused)]))
  {
    var bytes := f.encode(value);
    var s5 := State(mid.names, mid.files[unused := bytes], mid.sealers[c := Writing(value, unused, |bytes|)]);
    var s6 := State(mid.names, mid.files[unused := bytes], mid.sealers[c := Linking(value, unused)]);
    PreparesWrite(f, mid, s5, c, bytes);
    assert s5.sealers[c := Linking(value, unused)] == s6.sealers;
    PreparesSync(f, s5, s6, c);
    hide Next;
    RunTo(f, [mid, s5, s6], Prepare(f, c, value, unused)[4..]);
  }

  lemma PreparesStart<V>(f: Format<V>, s: State<V>, c: Sealer, value: V)
    requires c !in s.sealers && Declaration !in s.names && f.valid(value)
    ensures Next(f, s, Begin(c)) == Some(s.At(c, Starting))
    ensures Next(f, s.At(c, Starting), CheckExists(c)) == Some(s.At(c, Probing))
    ensures Next(f, s.At(c, Probing), Probe(c, Some(value))) == Some(s.At(c, Creating(value)))
  {
    assert s.At(c, Starting).sealers[c := Probing] == s.At(c, Probing).sealers;
    assert s.At(c, Probing).sealers[c := Creating(value)] == s.At(c, Creating(value)).sealers;
  }

  lemma PreparesCreate<V>(f: Format<V>, s: State<V>, t: State<V>, c: Sealer, value: V, unused: Inode)
    requires c in s.sealers && s.sealers[c] == Creating(value) && unused !in s.files
    requires t == State(s.names[Temporary(c) := unused], s.files[unused := []], t.sealers)
    requires t.sealers == s.sealers[c := Writing(value, unused, 0)]
    ensures Next(f, s, Create(c, true, unused)) == Some(t)
  {
  }

  lemma PreparesSync<V>(f: Format<V>, s: State<V>, t: State<V>, c: Sealer)
    requires c in s.sealers && s.sealers[c].Writing? && s.sealers[c].written == |f.encode(s.sealers[c].value)|
    requires t == s.At(c, Linking(s.sealers[c].value, s.sealers[c].inode))
    ensures Next(f, s, Sync(c)) == Some(t)
  {
  }

  lemma PreparesWrite<V>(f: Format<V>, s: State<V>, t: State<V>, c: Sealer, bytes: seq<byte>)
    requires c in s.sealers && s.sealers[c].Writing? && s.sealers[c].written == 0 && bytes == f.encode(s.sealers[c].value)
    requires s.sealers[c].inode in s.files && s.files[s.sealers[c].inode] == []
    requires t == s.At(c, s.sealers[c].(written := |bytes|)).(files := s.files[s.sealers[c].inode := bytes])
    ensures Next(f, s, Write(c, |bytes|)) == Some(t)
  {
    assert bytes[0..|bytes|] == bytes && [] + bytes == bytes;
  }

  /** A sealer alone, on an absent declaration, with a valid value whose bytes read back: it returns "sealed", the
      declaration is its value's bytes, and no temporary file is left. */
  lemma AloneSeals<V(!new)>(f: Format<V>, s: State<V>, c: Sealer, value: V, unused: Inode)
    requires Initial(s) && Declaration !in s.names && unused !in s.files && f.valid(value) && f.readable(f.encode(value))
    ensures var r := Run(f, s, Prepare(f, c, value, unused) + Finish(c));
            && r.Some? && ReturnedWith(r.value, c, Sealed)
            && Declaration in r.value.names && r.value.names[Declaration] == unused
            && r.value.files == s.files[unused := f.encode(value)] && Temporary(c) !in r.value.names
  {
    var mid := State(s.names[Temporary(c) := unused], s.files[unused := f.encode(value)], s.sealers[c := Linking(value, unused)]);
    Prepares(f, s, c, value, unused);
    InitialInvariant(f, s);
    EveryRun(f, s, Prepare(f, c, value, unused));
    RunConcat(f, s, Prepare(f, c, value, unused), Finish(c));
    hide Run, Invariant, Initial, Immutable, Whole;
    AloneFinishes(f, mid, c, value, unused);
  }

  lemma AloneFinishes<V(!new)>(f: Format<V>, mid: State<V>, c: Sealer, value: V, unused: Inode)
    requires Invariant(f, mid) && Declaration !in mid.names && f.readable(f.encode(value))
    requires c in mid.sealers && mid.sealers[c] == Linking(value, unused)
    ensures var r := Run(f, mid, Finish(c));
            && r.Some? && ReturnedWith(r.value, c, Sealed) && r.value.files == mid.files
            && Declaration in r.value.names && r.value.names[Declaration] == unused && Temporary(c) !in r.value.names
  {
    assert Prepared(f, mid, c);
    var s1 := Next(f, mid, Link(c, true)).value;
    var s2 := Next(f, s1, Confirm(c)).value;
    var s3 := Next(f, s2, Unlink(c, true)).value;
    RunTo(f, [mid, s1, s2, s3], Finish(c));
  }

  /** A call on a present declaration returns "verified" exactly when it reads back, raises otherwise, and changes no
      name and no file. */
  lemma ResumeReturns<V(!new)>(f: Format<V>, s: State<V>, c: Sealer)
    requires c !in s.sealers && Declaration in s.names
    ensures var r := Run(f, s, [Begin(c), CheckExists(c), Resume(c)]);
            && r.Some? && r.value.names == s.names && r.value.files == s.files
            && (ReturnedWith(r.value, c, Verified) <==> DeclarationReadable(f, s))
            && c in r.value.sealers && (r.value.sealers[c] == Done(Raised) <==> !DeclarationReadable(f, s))
  {
    var s1 := Next(f, s, Begin(c)).value;
    var s2 := Next(f, s1, CheckExists(c)).value;
    var s3 := Next(f, s2, Resume(c)).value;
    RunTo(f, [s, s1, s2, s3], [Begin(c), CheckExists(c), Resume(c)]);
  }

  /** A probe that fails or gives an invalid value raises before any file exists. */
  lemma InvalidRaises<V(!new)>(f: Format<V>, s: State<V>, c: Sealer, value: Option<V>)
    requires c !in s.sealers && Declaration !in s.names && (value.Some? ==> !f.valid(value.value))
    ensures var r := Run(f, s, [Begin(c), CheckExists(c), Probe(c, value)]);
            && r.Some? && r.value.names == s.names && r.value.files == s.files
            && c in r.value.sealers && r.value.sealers[c] == Done(Raised)
  {
    var s1 := Next(f, s, Begin(c)).value;
    var s2 := Next(f, s1, CheckExists(c)).value;
    var s3 := Next(f, s2, Probe(c, value)).value;
    RunTo(f, [s, s1, s2, s3], [Begin(c), CheckExists(c), Probe(c, value)]);
  }

  /** A failed write or a failed link raises: the temporary file is removed and no other name changes. */
  lemma FailureRaises<V(!new)>(f: Format<V>, s: State<V>, c: Sealer)
    requires c in s.sealers && (s.sealers[c].Writing? || s.sealers[c].Linking?)
    ensures var r := Run(f, s, [if s.sealers[c].Writing? then WriteFails(c) else Link(c, false), Unlink(c, true)]);
            && r.Some? && r.value.names == s.names - {Temporary(c)} && r.value.files == s.files
            && c in r.value.sealers && r.value.sealers[c] == Done(Raised)
  {
    var first := if s.sealers[c].Writing? then WriteFails(c) else Link(c, false);
    var s1 := Next(f, s, first).value;
    var s2 := Next(f, s1, Unlink(c, true)).value;
    RunTo(f, [s, s1, s2], [first, Unlink(c, true)]);
  }

  /** A call may crash at any moment before it returns, and leaves every name and file as it is. */
  lemma CrashAnywhere<V(!new)>(f: Format<V>, s: State<V>, c: Sealer)
    requires c in s.sealers
    ensures Next(f, s, Crash(c)).Some? <==> !s.sealers[c].Done? && !s.sealers[c].Crashed?
    ensures Next(f, s, Crash(c)).Some? ==>
              var t := Next(f, s, Crash(c)).value;
              t.names == s.names && t.files == s.files && t.sealers == s.sealers[c := Crashed]
  {
  }
}
