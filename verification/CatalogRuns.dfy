/** Many runs of the catalog sync at once (`src/catalog-workflow.ts`). Every database statement is
    one atomic action; a step may execute its statements again as long as it has not returned. */
module CatalogRuns {
  import opened Strings
  import opened CatalogDb

  const LOCK_TTL_MS := 120 * 60_000

  const CHUNK_SIZE := 200

  const MIN_EXPECTED_BOOKS := 10_000

  // ----- The state of all runs -----

  /** What parsing the source left for a run: its rows, cut into chunks. */
  datatype Manifest = Manifest(books: seq<seq<Book>>, contributors: seq<seq<Contributor>>)

  /** The step a run is at. `Closing` is the step that gives the lock back, after a failure or
      because the source has not changed. */
  datatype Pc =
    | AcquireLock | BeginRun | ParseSource
    | LoadBooks(chunk: nat) | LoadContributors(chunk: nat)
    | ValidateGeneration | ActivateGeneration | FinalizeRun | DeleteOldGenerations
    | Closing | Done

  /** What a run knows: the step it is at, the results of that step so far (`answer`, `snapshot`,
      `counts`), the results of earlier ones, and, for the record, how many activations there had
      been when it last took the lock, whether it has begun to load, and which activation was its own. */
  datatype Local = Local(
    pc: Pc, answer: Option<bool>, snapshot: Option<StateRow>, manifest: Manifest,
    counts: seq<nat>, acquiredAt: nat, loading: bool, activatedAt: Option<nat>)

  datatype Activation = Activation(run: Run, bookCount: nat)

  datatype Sys = Sys(
    clock: int, state: StateRow, books: BookTable, contributors: ContributorTable,
    runs: map<Run, Local>, history: seq<Activation>)

  const FRESH_RUN := Local(AcquireLock, None, None, Manifest([], []), [], 0, false, None)

  const INITIAL := Sys(0, StateRow(None, 0, 0, None, None), map[], map[], map[], [])

  function TotalRows<T>(chunks: seq<seq<T>>): nat {
    if chunks == [] then 0 else TotalRows(chunks[..|chunks| - 1]) + |chunks[|chunks| - 1]|
  }

  function BookCount(m: Manifest): nat { TotalRows(m.books) }

  function ContributorCount(m: Manifest): nat { TotalRows(m.contributors) }

  /** Chunks of at most two hundred rows, each row tagged with the generation. */
  predicate ParsedChunks<T(==), V(==)>(chunks: seq<seq<Entry<T, V>>>, run: Run) {
    && (forall i :: 0 <= i < |chunks| ==> 0 < |chunks[i]| <= CHUNK_SIZE)
    && (forall i, j :: 0 <= i < |chunks| && 0 <= j < |chunks[i]| ==> chunks[i][j].key.generation == run)
  }

  predicate ParsedBy(m: Manifest, run: Run) {
    ParsedChunks(m.books, run) && ParsedChunks(m.contributors, run)
  }

  /** The checks before activation: counts as parsed, at least 10,000 books, at least nine in ten
      with a card URL, and at least eight in ten of the books of the snapshot. */
  predicate ValidCounts(counts: seq<nat>, m: Manifest, previous: StateRow) {
    && |counts| == 3
    && counts[0] == BookCount(m)
    && counts[1] == ContributorCount(m)
    && counts[0] >= MIN_EXPECTED_BOOKS
    && 10 * counts[2] >= 9 * counts[0]
    && (previous.activeBookCount > 0 ==> 5 * counts[0] >= 4 * previous.activeBookCount)
  }

  // ----- The steps -----

  datatype Action =
    | Tick(now: int)
    | Start(run: Run)
    | Acquire(run: Run, now: int)          // the UPDATE of the acquire step
    | ReadState(run: Run)                  // the SELECT of the begin step
    | Parse(run: Run, parsed: Option<Manifest>)  // fetch and parse, or the source has not changed
    | LoadChunk(run: Run)                  // the batch of a load step
    | CountRows(run: Run)                  // the next of the three SELECTs of the validate step
    | Switch(run: Run)                     // the UPDATE of the activate step
    | ReRead(run: Run)                     // its SELECT when the UPDATE changed no row
    | DeleteContributors(run: Run)
    | DeleteBooks(run: Run)
    | Release(run: Run)
    | Retry(run: Run)                      // the step starts again, its answer lost
    | Return(run: Run)                     // the step returns and the run goes on
    | Fail(run: Run)                       // the step has thrown for good

  predicate InTry(pc: Pc) {
    !pc.AcquireLock? && !pc.Closing? && !pc.Done?
  }

  /** The step after the one that returns, by its result. */
  function NextPc(l: Local): Option<Pc> {
    match l.pc
    case AcquireLock =>
      if l.answer == Some(true) then Some(BeginRun) else if l.answer == Some(false) then Some(Done) else None
    case BeginRun => if l.snapshot.Some? then Some(ParseSource) else None
    case ParseSource =>
      if l.answer == Some(true) then Some(LoadBooks(0)) else if l.answer == Some(false) then Some(Closing) else None
    case LoadBooks(i) =>
      if i >= |l.manifest.books| then Some(LoadContributors(0))
      else if l.answer == Some(true) then Some(LoadBooks(i + 1)) else None
    case LoadContributors(i) =>
      if i >= |l.manifest.contributors| then Some(ValidateGeneration)
      else if l.answer == Some(true) then Some(LoadContributors(i + 1)) else None
    case ValidateGeneration =>
      if l.snapshot.Some? && ValidCounts(l.counts, l.manifest, l.snapshot.value) then Some(ActivateGeneration) else None
    case ActivateGeneration => if l.answer == Some(true) then Some(FinalizeRun) else None
    case FinalizeRun => Some(DeleteOldGenerations)
    case DeleteOldGenerations => Some(Done)
    case Closing => Some(Done)
    case Done => None
  }

  predicate At(s: Sys, run: Run, pc: Pc) {
    run in s.runs && s.runs[run].pc == pc
  }

  predicate CanLoad(l: Local) {
    || (l.pc.LoadBooks? && l.pc.chunk < |l.manifest.books|)
    || (l.pc.LoadContributors? && l.pc.chunk < |l.manifest.contributors|)
  }

  predicate Enabled(s: Sys, a: Action) {
    match a
    case Tick(now) => now >= s.clock
    case Start(r) => r !in s.runs
    case Acquire(r, now) => At(s, r, AcquireLock) && now <= s.clock
    case ReadState(r) => At(s, r, BeginRun)
    case Parse(r, parsed) => At(s, r, ParseSource) && (parsed.Some? ==> ParsedBy(parsed.value, r))
    case LoadChunk(r) => r in s.runs && CanLoad(s.runs[r])
    case CountRows(r) => At(s, r, ValidateGeneration) && |s.runs[r].counts| < 3
    case Switch(r) => At(s, r, ActivateGeneration) && s.runs[r].answer == None
    case ReRead(r) => At(s, r, ActivateGeneration) && s.runs[r].answer == Some(false)
    case DeleteContributors(r) => At(s, r, DeleteOldGenerations)
    case DeleteBooks(r) => At(s, r, DeleteOldGenerations)
    case Release(r) => At(s, r, Closing)
    case Retry(r) => r in s.runs
    case Return(r) => r in s.runs && NextPc(s.runs[r]).Some?
    case Fail(r) => r in s.runs && InTry(s.runs[r].pc)
  }

  function Update(s: Sys, r: Run, l: Local): Sys { s.(runs := s.runs[r := l]) }

  function Apply(s: Sys, a: Action): Sys
    requires Enabled(s, a)
  {
    match a
    case Tick(now) => s.(clock := now)
    case Start(r) => Update(s, r, FRESH_RUN)
    case Acquire(r, now) =>
      var ok := CanAcquire(s.state, r, now);
      var l := s.runs[r].(answer := Some(ok));
      Update(s, r, if ok then l.(acquiredAt := |s.history|) else l)
        .(state := Acquired(s.state, r, now, now + LOCK_TTL_MS))
    case ReadState(r) => Update(s, r, s.runs[r].(snapshot := Some(s.state)))
    case Parse(r, parsed) =>
      var l := s.runs[r];
      Update(s, r, if parsed.Some? then l.(answer := Some(true), manifest := parsed.value) else l.(answer := Some(false)))
    case LoadChunk(r) => AfterLoad(s, r)
    case CountRows(r) => Update(s, r, s.runs[r].(counts := s.runs[r].counts + [NextCount(s, r)]))
    case Switch(r) => AfterSwitch(s, r)
    case ReRead(r) => Update(s, r, s.runs[r].(answer := Some(s.state.active == Some(r))))
    case DeleteContributors(r) => s.(contributors := Of(s.contributors, r))
    case DeleteBooks(r) => s.(books := Of(s.books, r), contributors := Cascaded(s.contributors, Of(s.books, r)))
    case Release(r) => s.(state := Released(s.state, r))
    case Retry(r) => Update(s, r, s.runs[r].(answer := None, counts := []))
    case Return(r) => Update(s, r, s.runs[r].(pc := NextPc(s.runs[r]).value, answer := None, counts := []))
    case Fail(r) => Update(s, r, s.runs[r].(pc := Closing, answer := None, counts := []))
  }

  function AfterLoad(s: Sys, r: Run): Sys
    requires r in s.runs && CanLoad(s.runs[r])
  {
    var l := s.runs[r];
    if l.pc.LoadBooks? then
      Update(s, r, l.(answer := Some(true), loading := true)).(books := s.books + Keyed(l.manifest.books[l.pc.chunk]))
    else
      var chunk := l.manifest.contributors[l.pc.chunk];
      if HaveBooks(s.books, chunk) then
        Update(s, r, l.(answer := Some(true), loading := true)).(contributors := s.contributors + Keyed(chunk))
      else Update(s, r, l.(answer := Some(false), loading := true))
  }

  function NextCount(s: Sys, r: Run): nat
    requires r in s.runs
  {
    var n := |s.runs[r].counts|;
    if n == 0 then |Of(s.books, r)|
    else if n == 1 then |Of(s.contributors, r)|
    else |WithCardUrl(Of(s.books, r))|
  }

  function AfterSwitch(s: Sys, r: Run): Sys
    requires r in s.runs
  {
    var l := s.runs[r];
    if s.state.lockOwner == Some(r) then
      Update(s, r, l.(answer := Some(true), activatedAt := Some(|s.history| + 1)))
        .(state := Activated(s.state, r, r, BookCount(l.manifest), ContributorCount(l.manifest)),
          history := s.history + [Activation(r, BookCount(l.manifest))])
    else Update(s, r, l.(answer := Some(false)))
  }

  // ----- Traces -----

  /** A run of the whole system: from the first state, each state follows by the next action. */
  ghost predicate Follows(trace: seq<Sys>, actions: seq<Action>) {
    && |trace| == |actions| + 1
    && forall i {:trigger StepAt(trace, actions, i)} :: 0 <= i < |actions| ==> StepAt(trace, actions, i)
  }

  predicate StepAt(trace: seq<Sys>, actions: seq<Action>, i: nat)
    requires i < |actions| && |trace| == |actions| + 1
  {
    Enabled(trace[i], actions[i]) && trace[i + 1] == Apply(trace[i], actions[i])
  }

  // ----- The lease -----

  /** Whoever owns the lock has owned it since an UPDATE of its own acquire step, and nothing was
      activated in between. */
  ghost predicate OwnsSince(trace: seq<Sys>, actions: seq<Action>, r: Run, i: nat, j: nat)
    requires |trace| == |actions| + 1 && j < |trace|
  {
    && i < j && actions[i].Acquire? && actions[i].run == r
    && forall k :: i < k <= j ==> trace[k].state.lockOwner == Some(r) && trace[k].history == trace[j].history
  }

  lemma {:induction false} OwnerSinceAcquire(trace: seq<Sys>, actions: seq<Action>, r: Run, j: nat) returns (i: nat)
    requires Follows(trace, actions) && trace[0] == INITIAL
    requires j < |trace| && trace[j].state.lockOwner == Some(r)
    ensures OwnsSince(trace, actions, r, i, j)
  {
    assert StepAt(trace, actions, j - 1);
    if actions[j - 1].Acquire? && actions[j - 1].run == r {
      i := j - 1;
    } else {
      i := OwnerSinceAcquire(trace, actions, r, j - 1);
    }
  }

  /** A lock that has not expired is not taken from its owner: until it expires, only the owner's
      own statements change it. */
  lemma {:induction false} LeaseProtects(trace: seq<Sys>, actions: seq<Action>, r: Run)
    requires Follows(trace, actions)
    requires trace[0].state.lockOwner == Some(r) && trace[0].state.lockExpiresAt.Some?
    requires trace[|actions|].clock <= trace[0].state.lockExpiresAt.value
    requires forall i :: 0 <= i < |actions| ==> actions[i].Tick? || actions[i].run != r
    ensures trace[|actions|].state.lockOwner == Some(r)
    ensures trace[|actions|].state.lockExpiresAt == trace[0].state.lockExpiresAt
    ensures trace[|actions|].state.active == trace[0].state.active
  {
    if actions != [] {
      var n := |actions| - 1;
      assert StepAt(trace, actions, n);
      var before, done := trace[..n + 1], actions[..n];
      forall i | 0 <= i < n ensures StepAt(before, done, i) {
        assert StepAt(trace, actions, i);
      }
      LeaseProtects(before, done, r);
    }
  }

  // ----- Safety of the switch, with any interleaving -----

  /** Each activation has at least 10,000 books, and at least eight in ten of the one before it. */
  predicate HealthyHistory(h: seq<Activation>) {
    && (forall i :: 0 <= i < |h| ==> h[i].bookCount >= MIN_EXPECTED_BOOKS)
    && (forall i :: 0 < i < |h| ==> 5 * h[i].bookCount >= 4 * h[i - 1].bookCount)
  }

  predicate StateMatchesHistory(s: Sys) {
    if s.history == [] then s.state.active == None && s.state.activeBookCount == 0
    else s.state.active == Some(s.history[|s.history| - 1].run)
         && s.state.activeBookCount == s.history[|s.history| - 1].bookCount
  }

  predicate SwitchInvOf(s: Sys, r: Run)
    requires r in s.runs
  {
    var l := s.runs[r];
    && (l.pc == AcquireLock ==> l.snapshot == None)
    && (l.snapshot.Some? && s.state.lockOwner == Some(r) ==>
          l.snapshot.value.active == s.state.active && l.snapshot.value.activeBookCount == s.state.activeBookCount)
    && (l.pc == ActivateGeneration ==>
          && l.snapshot.Some?
          && BookCount(l.manifest) >= MIN_EXPECTED_BOOKS
          && 5 * BookCount(l.manifest) >= 4 * l.snapshot.value.activeBookCount)
  }

  ghost predicate SwitchInv(s: Sys) {
    && HealthyHistory(s.history)
    && StateMatchesHistory(s)
    && (s.state.lockOwner.Some? ==> s.state.lockOwner.value in s.runs)
    && forall r {:trigger SwitchInvOf(s, r)} :: r in s.runs ==> SwitchInvOf(s, r)
  }

  predicate ByOther(a: Action, r: Run) { a.Tick? || a.run != r }

  /** What others do leaves a run as it is, and cannot give it the lock; while it keeps the lock,
      nobody activates. */
  lemma OthersLeaveRun(s: Sys, a: Action, r: Run)
    requires Enabled(s, a) && ByOther(a, r)
    ensures r in Apply(s, a).runs <==> r in s.runs
    ensures r in s.runs ==> Apply(s, a).runs[r] == s.runs[r]
    ensures var t := Apply(s, a); t.state.lockOwner == Some(r) ==> t.state == s.state && t.history == s.history
  {
  }

  lemma OwnStepKeepsInv(s: Sys, a: Action, r: Run)
    requires SwitchInv(s) && Enabled(s, a) && r in s.runs && !a.Tick? && a.run == r
    ensures r in Apply(s, a).runs && SwitchInvOf(Apply(s, a), r)
  {
    assert SwitchInvOf(s, r);
    match a {
      case Acquire(_, _) =>
      case Return(_) => ReturnKeepsInv(s, a, r);
      case ReadState(_) =>
      case Switch(_) =>
      case _ => QuietStepKeepsInv(s, a, r);
    }
  }

  lemma ReturnKeepsInv(s: Sys, a: Action, r: Run)
    requires Enabled(s, a) && a == Return(r) && r in s.runs && SwitchInvOf(s, r)
    ensures r in Apply(s, a).runs && SwitchInvOf(Apply(s, a), r)
  {
  }

  // Steps that touch neither the lock nor the active generation.
  lemma QuietStepKeepsInv(s: Sys, a: Action, r: Run)
    requires Enabled(s, a) && r in s.runs && !a.Tick? && a.run == r && SwitchInvOf(s, r)
    requires !a.Acquire? && !a.Return? && !a.ReadState? && !a.Switch?
    ensures r in Apply(s, a).runs && SwitchInvOf(Apply(s, a), r)
  {
  }

  lemma SwitchInvOfKept(s: Sys, a: Action, r: Run)
    requires SwitchInv(s) && Enabled(s, a) && r in Apply(s, a).runs
    ensures SwitchInvOf(Apply(s, a), r)
  {
    if ByOther(a, r) {
      OthersLeaveRun(s, a, r);
      assert SwitchInvOf(s, r);
    } else if r in s.runs {
      OwnStepKeepsInv(s, a, r);
    }
  }

  lemma HealthyAppend(h: seq<Activation>, x: Activation)
    requires HealthyHistory(h) && x.bookCount >= MIN_EXPECTED_BOOKS
    requires h != [] ==> 5 * x.bookCount >= 4 * h[|h| - 1].bookCount
    ensures HealthyHistory(h + [x])
  {
    var all := h + [x];
    assert forall i :: 0 <= i < |h| ==> all[i] == h[i];
  }

  lemma OnlySwitchActivates(s: Sys, a: Action)
    requires Enabled(s, a) && !a.Switch?
    ensures var t := Apply(s, a);
            t.history == s.history && t.state.active == s.state.active
            && t.state.activeBookCount == s.state.activeBookCount
            && t.state.activeContributorCount == s.state.activeContributorCount
  {
  }

  lemma OwnerIsARun(s: Sys, a: Action)
    requires SwitchInv(s) && Enabled(s, a)
    ensures var t := Apply(s, a); t.state.lockOwner.Some? ==> t.state.lockOwner.value in t.runs
  {
  }

  lemma HistoryKept(s: Sys, a: Action)
    requires SwitchInv(s) && Enabled(s, a)
    ensures HealthyHistory(Apply(s, a).history) && StateMatchesHistory(Apply(s, a))
  {
    if a.Switch? {
      assert SwitchInvOf(s, a.run);
      if s.state.lockOwner == Some(a.run) {
        HealthyAppend(s.history, Activation(a.run, BookCount(s.runs[a.run].manifest)));
      }
    } else {
      OnlySwitchActivates(s, a);
    }
  }

  lemma SwitchInvKept(s: Sys, a: Action)
    requires SwitchInv(s) && Enabled(s, a)
    ensures SwitchInv(Apply(s, a))
  {
    HistoryKept(s, a);
    OwnerIsARun(s, a);
    forall r | r in Apply(s, a).runs ensures SwitchInvOf(Apply(s, a), r) {
      SwitchInvOfKept(s, a, r);
    }
  }

  lemma {:induction false} SwitchInvHolds(trace: seq<Sys>, actions: seq<Action>, n: nat)
    requires Follows(trace, actions) && trace[0] == INITIAL && n < |trace|
    ensures SwitchInv(trace[n])
  {
    if n > 0 {
      SwitchInvHolds(trace, actions, n - 1);
      assert StepAt(trace, actions, n - 1);
      SwitchInvKept(trace[n - 1], actions[n - 1]);
    }
  }

  /** Over every interleaving of runs with repeated steps and expiring leases: the active book
      count never falls below 10,000 or eight tenths of its predecessor, and it is the count of
      the last activation. */
  lemma EveryActivationIsHealthy(trace: seq<Sys>, actions: seq<Action>, n: nat)
    requires Follows(trace, actions) && trace[0] == INITIAL && n < |trace|
    ensures HealthyHistory(trace[n].history) && StateMatchesHistory(trace[n])
  {
    SwitchInvHolds(trace, actions, n);
  }

  /** When the activating UPDATE of a run changes the row, the run has owned the lock without a
      break since an acquire of its own, nothing was activated meanwhile, and its snapshot is still current. */
  lemma SwitchOnlyByUnbrokenOwner(trace: seq<Sys>, actions: seq<Action>, n: nat, r: Run) returns (i: nat)
    requires Follows(trace, actions) && trace[0] == INITIAL
    requires n < |actions| && actions[n] == Switch(r) && trace[n + 1].state != trace[n].state
    ensures OwnsSince(trace, actions, r, i, n)
    ensures r in trace[n].runs && trace[n].runs[r].snapshot.Some?
    ensures var seen := trace[n].runs[r].snapshot.value;
            seen.active == trace[n].state.active && seen.activeBookCount == trace[n].state.activeBookCount
    ensures trace[n + 1].state.active == Some(r) && trace[n + 1].state.lockOwner == None
  {
    assert StepAt(trace, actions, n);
    SwitchInvHolds(trace, actions, n);
    assert SwitchInvOf(trace[n], r);
    i := OwnerSinceAcquire(trace, actions, r, n);
  }

  /** The activate step answers `true` only while the active generation is the caller's. */
  lemma AnswersTrueOnlyWhenActive(s: Sys, a: Action, r: Run)
    requires Enabled(s, a) && r in s.runs && s.runs[r].pc == ActivateGeneration
    requires s.runs[r].answer != Some(true) && Apply(s, a).runs[r].answer == Some(true)
    ensures Apply(s, a).state.active == Some(r)
  {
  }
}
