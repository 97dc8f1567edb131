/** Exactly which cleanups of old generations do harm, and traces in which they do: activation gives up
    the lock before the cleanup step, so that a newer run may load, be checked and activate around it. */
module CatalogLate {
  import opened Strings
  import opened CatalogDb
  import opened CatalogRuns
  import opened CatalogRows

  // ----- Traces -----

  predicate NoCleanup(actions: seq<Action>) {
    forall i :: 0 <= i < |actions| ==> !IsCleanup(actions[i])
  }

  ghost predicate IsPath(trace: seq<Sys>, actions: seq<Action>, s: Sys, t: Sys) {
    Follows(trace, actions) && trace[0] == s && trace[|actions|] == t
  }

  /** Some actions lead from `s` to `t`; when `quiet`, none of them is a cleanup. */
  ghost predicate Leads(s: Sys, t: Sys, quiet: bool) {
    exists trace, actions :: IsPath(trace, actions, s, t) && (quiet ==> NoCleanup(actions))
  }

  ghost predicate Reachable(s: Sys) { Leads(INITIAL, s, false) }

  lemma LeadsToItself(s: Sys, quiet: bool)
    ensures Leads(s, s, quiet)
  {
    assert IsPath([s], [], s, s);
  }

  lemma NextOn(s: Sys, t: Sys, quiet: bool, a: Action) returns (u: Sys)
    requires Leads(s, t, quiet) && Enabled(t, a) && (quiet ==> !IsCleanup(a))
    ensures u == Apply(t, a) && Leads(s, u, quiet)
  {
    u := Apply(t, a);
    var trace, actions :| IsPath(trace, actions, s, t) && (quiet ==> NoCleanup(actions));
    var trace', actions' := trace + [u], actions + [a];
    forall i | 0 <= i < |actions'| ensures StepAt(trace', actions', i) {
      if i < |actions| {
        assert StepAt(trace, actions, i);
      }
    }
    assert IsPath(trace', actions', s, u);
  }

  lemma Next(s: Sys, a: Action) returns (t: Sys)
    requires Reachable(s) && Enabled(s, a)
    ensures t == Apply(s, a) && Reachable(t)
  {
    t := NextOn(INITIAL, s, false, a);
  }

  // ----- What a harmful cleanup leads to -----

  /** Rows once parsed and now gone are not what was parsed. */
  lemma LostIsWrong(s: Sys, a: Action, r: Run)
    requires BaseInv(s) && IsCleanup(a) && Enabled(s, a) && r in s.runs && LosesRows(s, a, r)
    ensures var t, m := Apply(s, a), s.runs[r].manifest;
            Of(t.books, r) != Loaded(m.books) || Of(t.contributors, r) != Loaded(m.contributors)
  {
    var m := s.runs[r].manifest;
    assert FromManifest(s, r);
    RowsOfOthers(s, a, r);
    LoadedEntries(m.books);
    LoadedEntries(m.contributors);
    if Of(Apply(s, a).books, r) != Of(s.books, r) {
      var k :| k in Of(s.books, r);
      assert Entry(k, Of(s.books, r)[k]) in Entries(m.books);
    } else {
      var k :| k in Of(s.contributors, r);
      assert Entry(k, Of(s.contributors, r)[k]) in Entries(m.contributors);
    }
  }

  /** The tables, and what a run parsed, are as before. */
  predicate SameRows(s: Sys, t: Sys, r: Run)
    requires r in s.runs
  {
    t.books == s.books && t.contributors == s.contributors && r in t.runs && t.runs[r].manifest == s.runs[r].manifest
  }

  /** A run that may activate reads the counts that are left, ... */
  lemma {:induction false} FinishCounting(from: Sys, s: Sys, r: Run) returns (t: Sys)
    requires Leads(from, s, true) && MayActivate(s, r) && s.runs[r].pc.ValidateGeneration?
    ensures Leads(from, t, true) && MayActivate(t, r) && t.runs[r].pc.ValidateGeneration? && SameRows(s, t, r)
    ensures |t.runs[r].counts| == 3
    decreases 3 - |s.runs[r].counts|
  {
    if |s.runs[r].counts| >= 3 {
      t := s;
    } else {
      var u := NextOn(from, s, true, CountRows(r));
      assert Completed(u, r) == Completed(s, r);
      t := FinishCounting(from, u, r);
    }
  }

  /** ... passes its checks, ... */
  lemma PassChecks(from: Sys, s: Sys, r: Run) returns (t: Sys)
    requires Leads(from, s, true) && MayActivate(s, r)
    ensures Leads(from, t, true) && MayActivate(t, r) && t.runs[r].pc.ActivateGeneration? && SameRows(s, t, r)
  {
    t := s;
    if s.runs[r].pc.ValidateGeneration? {
      t := FinishCounting(from, s, r);
      t := NextOn(from, t, true, Return(r));
    }
  }

  /** ... and activates, whatever rows there are. */
  lemma GoOnToActivate(from: Sys, s: Sys, r: Run) returns (t: Sys)
    requires Leads(from, s, true) && MayActivate(s, r)
    ensures Leads(from, t, true) && t.state.active == Some(r) && SameRows(s, t, r)
  {
    var u := PassChecks(from, s, r);
    u := NextOn(from, u, true, Retry(r));
    t := NextOn(from, u, true, Switch(r));
  }

  /** After a harmful cleanup an active generation without what it parsed is there, or can come about
      without any further cleanup. */
  lemma HarmfulLeadsToWrong(s: Sys, a: Action) returns (t: Sys)
    requires BaseInv(s) && Harmful(s, a)
    ensures Leads(Apply(s, a), t, true) && !ActiveRowsRight(t)
  {
    var u := Apply(s, a);
    var r :| r in s.runs && LosesRows(s, a, r) && Matters(u, r);
    LostIsWrong(s, a, r);
    LeadsToItself(u, true);
    if u.state.active == Some(r) {
      t := u;
    } else {
      t := GoOnToActivate(u, u, r);
    }
  }

  lemma {:induction false} QuietKeepsRows(trace: seq<Sys>, actions: seq<Action>, n: nat)
    requires Follows(trace, actions) && NoCleanup(actions) && n < |trace| && RowsInv(trace[0])
    ensures RowsInv(trace[n])
  {
    if n > 0 {
      QuietKeepsRows(trace, actions, n - 1);
      assert StepAt(trace, actions, n - 1) && !IsCleanup(actions[n - 1]);
      RowsInvKept(trace[n - 1], actions[n - 1]);
    }
  }

  /** After any trace without a harmful cleanup, the next cleanup statement is harmful if and only if
      it leads, without any further cleanup, to an active generation that lacks what it parsed. */
  lemma HarmfulExactly(trace: seq<Sys>, actions: seq<Action>, a: Action)
    requires HarmlessTrace(trace, actions)
    requires IsCleanup(a) && Enabled(trace[|actions|], a)
    ensures Harmful(trace[|actions|], a)
       <==> exists t :: Leads(Apply(trace[|actions|], a), t, true) && !ActiveRowsRight(t)
  {
    var s := trace[|actions|];
    RowsInvHolds(trace, actions, |actions|);
    if Harmful(s, a) {
      var t := HarmfulLeadsToWrong(s, a);
    } else {
      RowsInvKept(s, a);
      forall t | Leads(Apply(s, a), t, true) ensures ActiveRowsRight(t) {
        var path, quiet :| IsPath(path, quiet, Apply(s, a), t) && NoCleanup(quiet);
        QuietKeepsRows(path, quiet, |quiet|);
        RowsInvMeansRight(t);
      }
    }
  }

  /** For the active generation itself: either statement of a cleanup keeps its rows exactly when it keeps
      that generation, or there are none to lose. */
  lemma CleanupKeepsActiveIff(s: Sys, a: Action, active: Run)
    requires TableInv(s) && IsCleanup(a) && Enabled(s, a) && s.state.active == Some(active)
    ensures !LosesRows(s, a, active) <==>
      || a.run == active
      || (Of(s.contributors, active) == map[] && (a.DeleteBooks? ==> Of(s.books, active) == map[]))
  {
    CleanupKeeps(s, a.run, active);
  }

  // ----- Whole runs -----

  /** A manifest that passes the checks after any snapshot it is large enough for. */
  ghost predicate Sound(m: Manifest, r: Run) {
    && ParsedBy(m, r)
    && |Loaded(m.books)| == BookCount(m) >= MIN_EXPECTED_BOOKS
    && 10 * |WithCardUrl(Loaded(m.books))| >= 9 * BookCount(m)
    && |Loaded(m.contributors)| == ContributorCount(m)
    && Cascaded(Loaded(m.contributors), Loaded(m.books)) == Loaded(m.contributors)
  }

  /** What stays of the other runs while run `r` makes its way. */
  ghost predicate OthersKept(s: Sys, t: Sys, r: Run) {
    && (forall q :: q in s.runs && q != r ==> q in t.runs && t.runs[q] == s.runs[q])
    && (forall q :: q in t.runs && q != r ==> q in s.runs)
  }

  lemma OthersKeptOn(s: Sys, t: Sys, u: Sys, r: Run)
    requires OthersKept(s, t, r) && OthersKept(t, u, r)
    ensures OthersKept(s, u, r)
  {
  }

  /** Run `r` has parsed `m` and is at `pc`, having loaded these chunks; it owns the lock. */
  ghost predicate Loading(s: Sys, r: Run, m: Manifest, pc: Pc, books: nat, contributors: nat) {
    && Reachable(s) && r in s.runs && s.state.lockOwner == Some(r)
    && s.runs[r].pc == pc && s.runs[r].answer == None && s.runs[r].counts == []
    && s.runs[r].manifest == m && s.runs[r].snapshot.Some?
    && s.runs[r].snapshot.value.activeBookCount == s.state.activeBookCount
    && books <= |m.books| && contributors <= |m.contributors|
    && Of(s.books, r) == Loaded(m.books[..books])
    && Of(s.contributors, r) == Loaded(m.contributors[..contributors])
  }

  lemma NoRowsYet(s: Sys, r: Run)
    requires Reachable(s) && r !in s.runs
    ensures Of(s.books, r) == map[] && Of(s.contributors, r) == map[]
  {
    var trace, actions :| IsPath(trace, actions, INITIAL, s);
    BaseInvHolds(trace, actions, |actions|);
    assert NoRowsOf(s, r);
  }

  lemma UpToSnapshot(s: Sys, r: Run) returns (t: Sys)
    requires Reachable(s) && r !in s.runs && s.state.lockOwner == None
    ensures Loading(t, r, Manifest([], []), ParseSource, 0, 0) && OthersKept(s, t, r)
    ensures t.state.activeBookCount == s.state.activeBookCount && t.state.active == s.state.active
  {
    NoRowsYet(s, r);
    t := Next(s, Start(r));
    t := Next(t, Acquire(r, t.clock));
    t := Next(t, Return(r));
    t := Next(t, ReadState(r));
    t := Next(t, Return(r));
  }

  lemma UpToLoad(s: Sys, r: Run, m: Manifest) returns (t: Sys)
    requires Loading(s, r, Manifest([], []), ParseSource, 0, 0) && ParsedBy(m, r)
    ensures Loading(t, r, m, LoadBooks(0), 0, 0) && OthersKept(s, t, r) && t.state == s.state
  {
    assert m.books[..0] == [] && m.contributors[..0] == [];
    t := Next(s, Parse(r, Some(m)));
    t := Next(t, Return(r));
  }

  lemma LoadedNext<T, V>(chunks: seq<seq<Entry<T, V>>>, i: nat)
    requires i < |chunks|
    ensures Loaded(chunks[..i + 1]) == Loaded(chunks[..i]) + Keyed(chunks[i])
  {
    assert chunks[..i + 1][..i] == chunks[..i];
  }

  lemma OneLoad(s: Sys, r: Run, m: Manifest, i: nat) returns (t: Sys)
    requires Loading(s, r, m, LoadBooks(i), i, 0) && ParsedBy(m, r) && i < |m.books|
    ensures Loading(t, r, m, LoadBooks(i + 1), i + 1, 0) && OthersKept(s, t, r) && t.state == s.state
  {
    ChunkIsOf(m.books, i, r);
    OfMerge(s.books, Keyed(m.books[i]), r, r);
    LoadedNext(m.books, i);
    t := Next(s, LoadChunk(r));
    ghost var merged := s.books + Keyed(m.books[i]);
    assert t == s.(books := merged, runs := t.runs);
    t := Next(t, Return(r));
    assert t.books == merged && t.contributors == s.contributors && t.state == s.state;
  }

  lemma {:induction false} AllLoads(s: Sys, r: Run, m: Manifest, i: nat) returns (t: Sys)
    requires Loading(s, r, m, LoadBooks(i), i, 0) && ParsedBy(m, r)
    ensures Loading(t, r, m, LoadContributors(0), |m.books|, 0) && OthersKept(s, t, r) && t.state == s.state
    decreases |m.books| - i
  {
    if i == |m.books| {
      t := Next(s, Return(r));
    } else {
      var u := OneLoad(s, r, m, i);
      t := AllLoads(u, r, m, i + 1);
      OthersKeptOn(s, u, t, r);
    }
  }

  /** The books of a sound manifest's contributors are in once all books are. */
  lemma ChunkHasBooks(s: Sys, r: Run, m: Manifest, i: nat)
    requires Sound(m, r) && Of(s.books, r) == Loaded(m.books) && i < |m.contributors|
    ensures HaveBooks(s.books, m.contributors[i])
  {
    var chunk := m.contributors[i];
    ChunkEntries(m.contributors, i);
    LoadedEntries(m.contributors);
    forall j | 0 <= j < |chunk| ensures Key(chunk[j].key.generation, chunk[j].key.id.workId) in s.books {
      assert chunk[j] in chunk && chunk[j].key in Cascaded(Loaded(m.contributors), Loaded(m.books));
    }
  }

  lemma OneContributorLoad(s: Sys, r: Run, m: Manifest, i: nat) returns (t: Sys)
    requires Loading(s, r, m, LoadContributors(i), |m.books|, i) && Sound(m, r) && i < |m.contributors|
    ensures Loading(t, r, m, LoadContributors(i + 1), |m.books|, i + 1) && OthersKept(s, t, r) && t.state == s.state
  {
    assert m.books[..|m.books|] == m.books;
    ChunkHasBooks(s, r, m, i);
    t := LoadWithBooks(s, r, m, i);
  }

  lemma LoadWithBooks(s: Sys, r: Run, m: Manifest, i: nat) returns (t: Sys)
    requires Loading(s, r, m, LoadContributors(i), |m.books|, i) && ParsedBy(m, r) && i < |m.contributors|
    requires HaveBooks(s.books, m.contributors[i])
    ensures Loading(t, r, m, LoadContributors(i + 1), |m.books|, i + 1) && OthersKept(s, t, r) && t.state == s.state
  {
    ChunkIsOf(m.contributors, i, r);
    OfMerge(s.contributors, Keyed(m.contributors[i]), r, r);
    LoadedNext(m.contributors, i);
    var u := Next(s, LoadChunk(r));
    assert u.contributors == s.contributors + Keyed(m.contributors[i]) && u.books == s.books;
    t := Next(u, Return(r));
  }

  lemma EndContributors(s: Sys, r: Run, m: Manifest) returns (t: Sys)
    requires Loading(s, r, m, LoadContributors(|m.contributors|), |m.books|, |m.contributors|)
    ensures Loading(t, r, m, ValidateGeneration, |m.books|, |m.contributors|) && OthersKept(s, t, r)
    ensures t.state == s.state
  {
    t := Next(s, Return(r));
  }

  lemma {:induction false} AllContributorLoads(s: Sys, r: Run, m: Manifest, i: nat) returns (t: Sys)
    requires Loading(s, r, m, LoadContributors(i), |m.books|, i) && Sound(m, r)
    ensures Loading(t, r, m, ValidateGeneration, |m.books|, |m.contributors|) && OthersKept(s, t, r)
    ensures t.state == s.state
    decreases |m.contributors| - i
  {
    if i == |m.contributors| {
      t := EndContributors(s, r, m);
    } else {
      var u := OneContributorLoad(s, r, m, i);
      t := AllContributorLoads(u, r, m, i + 1);
      OthersKeptOn(s, u, t, r);
    }
  }

  ghost predicate Counted(s: Sys, t: Sys, r: Run, counts: seq<nat>)
    requires r in s.runs
  {
    && Reachable(t) && r in t.runs && t.runs[r] == s.runs[r].(counts := counts) && OthersKept(s, t, r)
    && t.state == s.state && t.books == s.books && t.contributors == s.contributors
  }

  lemma OneCount(s: Sys, r: Run, counted: nat) returns (t: Sys)
    requires Reachable(s) && At(s, r, ValidateGeneration) && |s.runs[r].counts| < 3 && NextCount(s, r) == counted
    ensures Counted(s, t, r, s.runs[r].counts + [counted])
  {
    t := Next(s, CountRows(r));
  }

  lemma CountAll(s: Sys, r: Run, b: nat, c: nat, u: nat) returns (t: Sys)
    requires Reachable(s) && At(s, r, ValidateGeneration) && s.runs[r].counts == []
    requires |Of(s.books, r)| == b && |Of(s.contributors, r)| == c && |WithCardUrl(Of(s.books, r))| == u
    ensures Counted(s, t, r, [b, c, u])
  {
    var t1 := OneCount(s, r, b);
    var t2 := OneCount(t1, r, c);
    t := OneCount(t2, r, u);
    assert t.runs[r].counts == [b, c, u];
  }

  lemma PassValidation(s: Sys, r: Run) returns (t: Sys)
    requires Reachable(s) && At(s, r, ValidateGeneration) && s.runs[r].snapshot.Some?
    requires ValidCounts(s.runs[r].counts, s.runs[r].manifest, s.runs[r].snapshot.value)
    ensures Reachable(t) && OthersKept(s, t, r) && t.state == s.state
    ensures t.books == s.books && t.contributors == s.contributors
    ensures r in t.runs && t.runs[r] == s.runs[r].(pc := ActivateGeneration, answer := None, counts := [])
  {
    t := Next(s, Return(r));
  }

  lemma Validated(s: Sys, r: Run, m: Manifest) returns (t: Sys)
    requires Loading(s, r, m, ValidateGeneration, |m.books|, |m.contributors|) && Sound(m, r)
    requires 5 * BookCount(m) >= 4 * s.state.activeBookCount
    ensures Loading(t, r, m, ActivateGeneration, |m.books|, |m.contributors|) && OthersKept(s, t, r)
    ensures t.state == s.state
  {
    AllLoaded(s, r, m);
    var u := CountLoaded(s, r, m);
    SoundIsValid(m, r, s.runs[r].snapshot.value);
    t := ChecksPassed(s, u, r, m, u.runs[r].counts);
  }

  lemma AllLoaded(s: Sys, r: Run, m: Manifest)
    requires Loading(s, r, m, ValidateGeneration, |m.books|, |m.contributors|)
    ensures Of(s.books, r) == Loaded(m.books) && Of(s.contributors, r) == Loaded(m.contributors)
  {
    assert m.books[..|m.books|] == m.books && m.contributors[..|m.contributors|] == m.contributors;
  }

  /** The counts of a sound manifest whose chunks are all loaded. */
  lemma CountLoaded(s: Sys, r: Run, m: Manifest) returns (t: Sys)
    requires Reachable(s) && At(s, r, ValidateGeneration) && s.runs[r].counts == []
    requires Of(s.books, r) == Loaded(m.books) && Of(s.contributors, r) == Loaded(m.contributors)
    requires |Loaded(m.books)| == BookCount(m) && |Loaded(m.contributors)| == ContributorCount(m)
    ensures Counted(s, t, r, [BookCount(m), ContributorCount(m), |WithCardUrl(Loaded(m.books))|])
  {
    t := CountAll(s, r, BookCount(m), ContributorCount(m), |WithCardUrl(Loaded(m.books))|);
  }

  lemma SoundIsValid(m: Manifest, r: Run, previous: StateRow)
    requires Sound(m, r) && 5 * BookCount(m) >= 4 * previous.activeBookCount
    ensures ValidCounts([BookCount(m), ContributorCount(m), |WithCardUrl(Loaded(m.books))|], m, previous)
  {
  }

  lemma ChecksPassed(s: Sys, u: Sys, r: Run, m: Manifest, counts: seq<nat>) returns (t: Sys)
    requires Loading(s, r, m, ValidateGeneration, |m.books|, |m.contributors|) && Counted(s, u, r, counts)
    requires ValidCounts(counts, m, s.runs[r].snapshot.value)
    ensures Loading(t, r, m, ActivateGeneration, |m.books|, |m.contributors|) && OthersKept(s, t, r)
    ensures t.state == s.state
  {
    t := PassValidation(u, r);
    OthersKeptOn(s, u, t, r);
  }

  /** A run from its start to just before it activates. */
  lemma UpToActivate(s: Sys, r: Run, m: Manifest) returns (t: Sys)
    requires Reachable(s) && r !in s.runs && s.state.lockOwner == None && Sound(m, r)
    requires 5 * BookCount(m) >= 4 * s.state.activeBookCount
    ensures Loading(t, r, m, ActivateGeneration, |m.books|, |m.contributors|) && OthersKept(s, t, r)
    ensures t.state.active == s.state.active
  {
    var a := UpToSnapshot(s, r);
    var b := UpToLoad(a, r, m);
    var c := AllLoads(b, r, m, 0);
    var d := AllContributorLoads(c, r, m, 0);
    t := Validated(d, r, m);
  }

  lemma UpToCleanup(s: Sys, r: Run, m: Manifest) returns (t: Sys)
    requires Loading(s, r, m, ActivateGeneration, |m.books|, |m.contributors|)
    ensures Reachable(t) && At(t, r, DeleteOldGenerations) && OthersKept(s, t, r)
    ensures t.state == StateRow(Some(r), BookCount(m), ContributorCount(m), None, None)
    ensures t.books == s.books && t.contributors == s.contributors
  {
    t := Next(s, Switch(r));
    t := Next(t, Return(r));
    t := Next(t, Return(r));
  }

  lemma WholeRun(s: Sys, r: Run, m: Manifest) returns (t: Sys)
    requires Reachable(s) && r !in s.runs && s.state.lockOwner == None && Sound(m, r)
    requires 5 * BookCount(m) >= 4 * s.state.activeBookCount
    ensures Reachable(t) && At(t, r, DeleteOldGenerations) && OthersKept(s, t, r)
    ensures t.state == StateRow(Some(r), BookCount(m), ContributorCount(m), None, None)
  {
    var u := UpToActivate(s, r, m);
    t := UpToCleanup(u, r, m);
  }

  lemma CleanUp(s: Sys, z: Run, r: Run) returns (t: Sys)
    requires Reachable(s) && At(s, z, DeleteOldGenerations) && r != z
    ensures Reachable(t) && t.state == s.state && t.runs == s.runs
    ensures Of(t.books, r) == map[] && Of(t.contributors, r) == map[]
  {
    var u := Next(s, DeleteContributors(z));
    OfKept(s.contributors, z, r);
    t := Next(u, DeleteBooks(z));
    OfKept(u.books, z, r);
  }

  // ----- Two traces that end without the active rows -----

  /** Two whole runs and then the cleanup of the first: the second is active with its books by the
      state row, and none of their rows is left. */
  lemma LateCleanup(a: Run, b: Run, ma: Manifest, mb: Manifest) returns (t: Sys)
    requires a != b && Sound(ma, a) && Sound(mb, b) && 5 * BookCount(mb) >= 4 * BookCount(ma)
    ensures Reachable(t) && t.state.active == Some(b) && t.state.activeBookCount == BookCount(mb) >= MIN_EXPECTED_BOOKS
    ensures Of(t.books, b) == map[] && Of(t.contributors, b) == map[]
  {
    LeadsToItself(INITIAL, false);
    var s := WholeRun(INITIAL, a, ma);
    t := WholeRun(s, b, mb);
    t := CleanUp(t, a, b);
  }

  /** The first run cleans up while its own generation is still active, but after the second has been
      checked: the second then activates all the same. `s` is the state before the cleanup. */
  lemma CleanupAfterChecks(a: Run, b: Run, ma: Manifest, mb: Manifest) returns (s: Sys, t: Sys)
    requires a != b && Sound(ma, a) && Sound(mb, b) && 5 * BookCount(mb) >= 4 * BookCount(ma)
    ensures Reachable(s) && At(s, a, DeleteOldGenerations) && s.state.active == Some(a)
    ensures Reachable(t) && t.state.active == Some(b) && t.state.activeBookCount == BookCount(mb) >= MIN_EXPECTED_BOOKS
    ensures Of(t.books, b) == map[] && Of(t.contributors, b) == map[]
  {
    LeadsToItself(INITIAL, false);
    s := WholeRun(INITIAL, a, ma);
    s := UpToActivate(s, b, mb);
    t := CleanUp(s, a, b);
    t := Next(t, Switch(b));
  }

  // ----- Manifests to do it with -----

  /** The `n`th of some books, told apart by the length of their work ids. */
  function NthBook(r: Run, n: nat): Book {
    Entry(Key(r, seq(n, _ => '0')), BookRow("https://example.org/card", []))
  }

  function NthChunk(r: Run, c: nat): (chunk: seq<Book>)
    ensures |chunk| == CHUNK_SIZE && forall i :: 0 <= i < CHUNK_SIZE ==> chunk[i] == NthBook(r, CHUNK_SIZE * c + i)
  {
    seq(CHUNK_SIZE, i requires 0 <= i => NthBook(r, CHUNK_SIZE * c + i))
  }

  function BookChunks(r: Run, n: nat): (chunks: seq<seq<Book>>)
    ensures |chunks| == n && forall c :: 0 <= c < n ==> chunks[c] == NthChunk(r, c)
  {
    seq(n, c requires 0 <= c => NthChunk(r, c))
  }

  lemma NthBookDistinct(r: Run, n: nat, k: nat)
    requires NthBook(r, n).key == NthBook(r, k).key
    ensures n == k
  {
    assert |NthBook(r, n).key.id| == n && |NthBook(r, k).key.id| == k;
  }

  lemma ChunkKeyed(r: Run, c: nat)
    ensures |Keyed(NthChunk(r, c))| == CHUNK_SIZE
    ensures forall k :: k in Keyed(NthChunk(r, c)) ==>
      CHUNK_SIZE * c <= |k.id| < CHUNK_SIZE * (c + 1) && Keyed(NthChunk(r, c))[k].cardUrl != ""
  {
    var chunk := NthChunk(r, c);
    KeyedHolds(chunk);
    forall i, j | 0 <= i < j < |chunk| ensures chunk[i].key != chunk[j].key {
      if chunk[i].key == chunk[j].key {
        NthBookDistinct(r, CHUNK_SIZE * c + i, CHUNK_SIZE * c + j);
      }
    }
    assert DistinctKeys(chunk);
    forall k | k in Keyed(chunk)
      ensures CHUNK_SIZE * c <= |k.id| < CHUNK_SIZE * (c + 1) && Keyed(chunk)[k].cardUrl != ""
    {
      assert HasKey(chunk, k);
      var i :| 0 <= i < |chunk| && chunk[i].key == k;
    }
  }

  lemma MergeDisjoint<K, V>(a: map<K, V>, b: map<K, V>)
    requires a.Keys !! b.Keys
    ensures |a + b| == |a| + |b|
  {
    assert (a + b).Keys == a.Keys + b.Keys;
    assert |a| == |a.Keys| && |b| == |b.Keys| && |a + b| == |(a + b).Keys|;
  }

  lemma {:induction false} ChunksLoaded(r: Run, n: nat)
    ensures |Loaded(BookChunks(r, n))| == CHUNK_SIZE * n == TotalRows(BookChunks(r, n))
    ensures forall k :: k in Loaded(BookChunks(r, n)) ==>
              |k.id| < CHUNK_SIZE * n && Loaded(BookChunks(r, n))[k].cardUrl != ""
  {
    if n > 0 {
      var chunks := BookChunks(r, n);
      assert chunks[..n - 1] == BookChunks(r, n - 1) && chunks[n - 1] == NthChunk(r, n - 1);
      ChunksLoaded(r, n - 1);
      ChunkKeyed(r, n - 1);
      MergeDisjoint(Loaded(chunks[..n - 1]), Keyed(chunks[n - 1]));
    }
  }

  lemma SoundChunks(r: Run, n: nat) returns (m: Manifest)
    requires CHUNK_SIZE * n >= MIN_EXPECTED_BOOKS
    ensures Sound(m, r) && BookCount(m) == CHUNK_SIZE * n
  {
    var chunks := BookChunks(r, n);
    m := Manifest(chunks, []);
    ChunksParsed(r, n);
    ChunksLoaded(r, n);
    AllWithCardUrl(Loaded(chunks));
  }

  lemma ChunksParsed(r: Run, n: nat)
    ensures ParsedChunks(BookChunks(r, n), r)
  {
  }

  lemma AllWithCardUrl(books: BookTable)
    requires forall k :: k in books ==> books[k].cardUrl != ""
    ensures WithCardUrl(books) == books.Keys
  {
  }

  /** Both happen with ten thousand books each, fifty chunks of two hundred. */
  lemma LateCleanupHappens() returns (t: Sys)
    ensures Reachable(t) && t.state.active.Some? && t.state.activeBookCount == MIN_EXPECTED_BOOKS
    ensures Of(t.books, t.state.active.value) == map[]
  {
    var ma := SoundChunks("a", 50);
    var mb := SoundChunks("b", 50);
    t := LateCleanup("a", "b", ma, mb);
  }

  lemma CleanupAfterChecksHappens() returns (s: Sys, t: Sys)
    ensures Reachable(s) && At(s, "a", DeleteOldGenerations) && s.state.active == Some("a")
    ensures Reachable(t) && t.state.active == Some("b") && t.state.activeBookCount == MIN_EXPECTED_BOOKS
    ensures Of(t.books, "b") == map[]
  {
    var ma := SoundChunks("a", 50);
    var mb := SoundChunks("b", 50);
    s, t := CleanupAfterChecks("a", "b", ma, mb);
  }
}
