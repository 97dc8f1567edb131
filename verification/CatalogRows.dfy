/** What the rows of the active generation are, over all runs of the catalog sync: exactly what
    its run parsed, as long as no cleanup comes so late that a newer run has begun to load. */
module CatalogRows {
  import opened Strings
  import opened CatalogDb
  import opened CatalogRuns

  /** The keyed union of the chunks: of two rows with one key the later stays. */
  function Loaded<T(==), V>(chunks: seq<seq<Entry<T, V>>>): map<Key<T>, V> {
    if chunks == [] then map[] else Loaded(chunks[..|chunks| - 1]) + Keyed(chunks[|chunks| - 1])
  }

  // ----- Which activation a run is -----

  predicate AfterSwitchPc(pc: Pc) {
    pc.ActivateGeneration? || pc.FinalizeRun? || pc.DeleteOldGenerations? || pc.Closing? || pc.Done?
  }

  predicate BeforeLoadPc(pc: Pc) { pc.AcquireLock? || pc.BeginRun? || pc.ParseSource? }

  ghost predicate EpochOf(s: Sys, r: Run)
    requires r in s.runs
  {
    var l := s.runs[r];
    && l.acquiredAt <= |s.history|
    && (s.state.lockOwner == Some(r) ==> l.acquiredAt == |s.history|)
    && (l.activatedAt.Some? ==>
          && 1 <= l.activatedAt.value <= |s.history|
          && l.acquiredAt == l.activatedAt.value - 1
          && s.history[l.activatedAt.value - 1].run == r
          && AfterSwitchPc(l.pc))
    && (l.pc.FinalizeRun? || l.pc.DeleteOldGenerations? ==> l.activatedAt.Some?)
    && (l.pc.ActivateGeneration? && l.answer == Some(true) ==> l.activatedAt.Some?)
    && (BeforeLoadPc(l.pc) ==> !l.loading)
    && (l.counts != [] ==> l.pc.ValidateGeneration?)
    && ParsedBy(l.manifest, r)
  }

  ghost predicate ActivatedOnce(s: Sys) {
    forall i :: 0 <= i < |s.history| ==>
      s.history[i].run in s.runs && s.runs[s.history[i].run].activatedAt == Some(i + 1)
  }

  ghost predicate EpochInv(s: Sys) {
    && SwitchInv(s)
    && ActivatedOnce(s)
    && forall r {:trigger EpochOf(s, r)} :: r in s.runs ==> EpochOf(s, r)
  }

  lemma OthersKeepEpoch(s: Sys, a: Action, r: Run)
    requires EpochInv(s) && Enabled(s, a) && r in s.runs && ByOther(a, r)
    ensures r in Apply(s, a).runs && EpochOf(Apply(s, a), r)
  {
    assert EpochOf(s, r);
    OthersLeaveRun(s, a, r);
    HistoryGrows(s, a);
  }

  lemma HistoryGrows(s: Sys, a: Action)
    requires Enabled(s, a)
    ensures s.history <= Apply(s, a).history
  {
  }

  lemma SwitchKeepsEpoch(s: Sys, r: Run)
    requires r in s.runs && Enabled(s, Switch(r)) && EpochOf(s, r)
    ensures r in AfterSwitch(s, r).runs && EpochOf(AfterSwitch(s, r), r)
  {
  }

  lemma ReReadKeepsEpoch(s: Sys, r: Run)
    requires r in s.runs && Enabled(s, ReRead(r)) && EpochOf(s, r) && ActivatedOnce(s) && StateMatchesHistory(s)
    ensures r in Apply(s, ReRead(r)).runs && EpochOf(Apply(s, ReRead(r)), r)
  {
    assert s.state.active == Some(r) ==> s.history[|s.history| - 1].run == r;
  }

  lemma ReturnKeepsEpoch(s: Sys, r: Run)
    requires r in s.runs && Enabled(s, Return(r)) && EpochOf(s, r)
    ensures r in Apply(s, Return(r)).runs && EpochOf(Apply(s, Return(r)), r)
  {
  }

  lemma EarlyStepKeepsEpoch(s: Sys, a: Action, r: Run)
    requires a.Acquire? || a.Parse? || a.LoadChunk?
    requires r in s.runs && Enabled(s, a) && a.run == r && EpochOf(s, r)
    ensures r in Apply(s, a).runs && EpochOf(Apply(s, a), r)
  {
  }

  lemma OwnStepKeepsEpoch(s: Sys, a: Action, r: Run)
    requires r in s.runs && EpochOf(s, r) && ActivatedOnce(s) && StateMatchesHistory(s)
    requires Enabled(s, a) && !ByOther(a, r)
    ensures r in Apply(s, a).runs && EpochOf(Apply(s, a), r)
  {
    match a {
      case Switch(_) => SwitchKeepsEpoch(s, r);
      case ReRead(_) => ReReadKeepsEpoch(s, r);
      case Return(_) => ReturnKeepsEpoch(s, r);
      case Acquire(_, _) => EarlyStepKeepsEpoch(s, a, r);
      case Parse(_, _) => EarlyStepKeepsEpoch(s, a, r);
      case LoadChunk(_) => EarlyStepKeepsEpoch(s, a, r);
      case _ =>
    }
  }

  lemma ActivatedOnceKept(s: Sys, a: Action)
    requires EpochInv(s) && Enabled(s, a)
    ensures ActivatedOnce(Apply(s, a))
  {
    if a.Switch? && s.state.lockOwner == Some(a.run) {
      assert EpochOf(s, a.run);
    } else {
      RunsGoOn(s, a);
    }
  }

  lemma RunsGoOn(s: Sys, a: Action)
    requires Enabled(s, a) && !(a.Switch? && s.state.lockOwner == Some(a.run))
    ensures Apply(s, a).history == s.history
    ensures forall r :: r in s.runs ==> r in Apply(s, a).runs && Apply(s, a).runs[r].activatedAt == s.runs[r].activatedAt
  {
  }

  lemma EpochInvKept(s: Sys, a: Action)
    requires EpochInv(s) && Enabled(s, a)
    ensures EpochInv(Apply(s, a))
  {
    SwitchInvKept(s, a);
    ActivatedOnceKept(s, a);
    forall r | r in Apply(s, a).runs ensures EpochOf(Apply(s, a), r) {
      if r in s.runs {
        if ByOther(a, r) {
          OthersKeepEpoch(s, a, r);
        } else {
          assert EpochOf(s, r);
          OwnStepKeepsEpoch(s, a, r);
        }
      }
    }
  }

  // ----- The tables -----

  predicate NoRowsOf(s: Sys, r: Run) {
    Of(s.books, r) == map[] && Of(s.contributors, r) == map[]
  }

  /** Every contributor has its book, and a run that has not begun to load has no rows. */
  ghost predicate TableInv(s: Sys) {
    && Cascaded(s.contributors, s.books) == s.contributors
    && forall r {:trigger NoRowsOf(s, r)} :: (r in s.runs ==> !s.runs[r].loading) ==> NoRowsOf(s, r)
  }

  lemma ChunkIsOf<T, V>(chunks: seq<seq<Entry<T, V>>>, i: nat, r: Run)
    requires ParsedChunks(chunks, r) && i < |chunks|
    ensures AllOf(Keyed(chunks[i]), r)
  {
    KeyedAllOf(chunks[i], r);
  }

  /** A load step writes rows of its own generation and no others. */
  lemma LoadWrites(s: Sys, q: Run, r: Run)
    requires EpochInv(s) && q in s.runs && CanLoad(s.runs[q]) && q != r
    ensures var t := AfterLoad(s, q); Of(t.books, r) == Of(s.books, r) && Of(t.contributors, r) == Of(s.contributors, r)
  {
    assert EpochOf(s, q);
    var l := s.runs[q];
    if l.pc.LoadBooks? {
      ChunkIsOf(l.manifest.books, l.pc.chunk, q);
      OfMerge(s.books, Keyed(l.manifest.books[l.pc.chunk]), q, r);
    } else {
      ChunkIsOf(l.manifest.contributors, l.pc.chunk, q);
      OfMerge(s.contributors, Keyed(l.manifest.contributors[l.pc.chunk]), q, r);
    }
  }

  lemma {:induction false} KeyedHaveBooks(books: BookTable, rows: seq<Contributor>)
    requires HaveBooks(books, rows)
    ensures Cascaded(Keyed(rows), books) == Keyed(rows)
  {
    if rows != [] {
      var n := |rows| - 1;
      assert forall i :: 0 <= i < n ==> rows[..n][i] == rows[i];
      KeyedHaveBooks(books, rows[..n]);
    }
  }

  lemma LoadKeepsForeignKey(s: Sys, q: Run)
    requires q in s.runs && CanLoad(s.runs[q]) && Cascaded(s.contributors, s.books) == s.contributors
    ensures var t := AfterLoad(s, q); Cascaded(t.contributors, t.books) == t.contributors
  {
    var l := s.runs[q];
    if l.pc.LoadContributors? && HaveBooks(s.books, l.manifest.contributors[l.pc.chunk]) {
      KeyedHaveBooks(s.books, l.manifest.contributors[l.pc.chunk]);
    }
  }

  lemma CascadeTwice(contributors: ContributorTable, books: BookTable)
    ensures Cascaded(Cascaded(contributors, books), books) == Cascaded(contributors, books)
  {
  }

  /** What the statements of a cleanup leave of a generation: all of the one kept, nothing of the others. */
  lemma CleanupKeeps(s: Sys, z: Run, r: Run)
    requires TableInv(s)
    ensures Of(Of(s.books, z), r) == if r == z then Of(s.books, r) else map[]
    ensures Of(Of(s.contributors, z), r) == if r == z then Of(s.contributors, r) else map[]
    ensures Of(Cascaded(s.contributors, Of(s.books, z)), r) == if r == z then Of(s.contributors, r) else map[]
  {
    OfKept(s.books, z, r);
    OfKept(s.contributors, z, r);
    var left := Cascaded(s.contributors, Of(s.books, z));
    assert forall k :: k in left ==> k.generation == z;
    if r == z {
      assert forall k :: k in s.contributors && k.generation == z ==>
          k in Cascaded(s.contributors, s.books) && Key(k.generation, k.id.workId) in s.books;
    }
  }

  lemma TableInvKept(s: Sys, a: Action)
    requires EpochInv(s) && TableInv(s) && Enabled(s, a)
    ensures TableInv(Apply(s, a))
  {
    var t := Apply(s, a);
    match a {
      case LoadChunk(q) =>
        LoadKeepsForeignKey(s, q);
        forall r | r in t.runs ==> !t.runs[r].loading ensures NoRowsOf(t, r) {
          assert NoRowsOf(s, r);
          LoadWrites(s, q, r);
        }
      case DeleteContributors(z) =>
        forall r | r in t.runs ==> !t.runs[r].loading ensures NoRowsOf(t, r) {
          assert NoRowsOf(s, r);
          CleanupKeeps(s, z, r);
        }
      case DeleteBooks(z) =>
        CascadeTwice(s.contributors, Of(s.books, z));
        forall r | r in t.runs ==> !t.runs[r].loading ensures NoRowsOf(t, r) {
          assert NoRowsOf(s, r);
          CleanupKeeps(s, z, r);
        }
      case _ => OtherActionsKeepTables(s, a);
    }
  }

  lemma OtherActionsKeepTables(s: Sys, a: Action)
    requires TableInv(s) && Enabled(s, a) && !a.LoadChunk? && !a.DeleteContributors? && !a.DeleteBooks?
    ensures TableInv(Apply(s, a))
    ensures Apply(s, a).books == s.books && Apply(s, a).contributors == s.contributors
  {
    var t := Apply(s, a);
    forall r | r in t.runs ==> !t.runs[r].loading ensures NoRowsOf(t, r) {
      assert NoRowsOf(s, r);
    }
  }

  lemma ActiveHasSwitched(s: Sys, r: Run)
    requires EpochInv(s) && s.state.active == Some(r)
    ensures r in s.runs && AfterSwitchPc(s.runs[r].pc) && s.runs[r].activatedAt == Some(|s.history|)
  {
    assert s.history[|s.history| - 1].run == r;
    assert EpochOf(s, r);
  }

  // ----- What a count tells -----

  ghost function Elements<X>(xs: seq<X>): set<X> { set x | x in xs }

  /** The entries of all chunks. */
  ghost function Entries<T, V>(chunks: seq<seq<Entry<T, V>>>): set<Entry<T, V>> {
    if chunks == [] then {}
    else Entries(chunks[..|chunks| - 1]) + Elements(chunks[|chunks| - 1])
  }

  /** Every row is one that was parsed. */
  ghost predicate From<T, V>(rows: map<Key<T>, V>, chunks: seq<seq<Entry<T, V>>>) {
    forall k :: k in rows ==> Entry(k, rows[k]) in Entries(chunks)
  }

  lemma {:induction false} ElementsBound<X>(xs: seq<X>)
    ensures |Elements(xs)| <= |xs|
  {
    if xs != [] {
      var n := |xs| - 1;
      ElementsBound(xs[..n]);
      assert Elements(xs) == Elements(xs[..n]) + {xs[n]};
    }
  }

  lemma {:induction false} EntriesBound<T, V>(chunks: seq<seq<Entry<T, V>>>)
    ensures |Entries(chunks)| <= TotalRows(chunks)
  {
    if chunks != [] {
      EntriesBound(chunks[..|chunks| - 1]);
      ElementsBound(chunks[|chunks| - 1]);
    }
  }

  lemma {:induction false} KeyedEntries<T, V>(rows: seq<Entry<T, V>>)
    ensures forall k :: k in Keyed(rows) ==> Entry(k, Keyed(rows)[k]) in rows
    ensures forall e :: e in rows ==> e.key in Keyed(rows)
  {
    if rows != [] {
      KeyedEntries(rows[..|rows| - 1]);
    }
  }

  /** The keyed union has the keys of all entries, and nothing but entries. */
  lemma {:induction false} LoadedEntries<T, V>(chunks: seq<seq<Entry<T, V>>>)
    ensures From(Loaded(chunks), chunks)
    ensures forall e :: e in Entries(chunks) ==> e.key in Loaded(chunks)
  {
    if chunks != [] {
      LoadedEntries(chunks[..|chunks| - 1]);
      KeyedEntries(chunks[|chunks| - 1]);
    }
  }

  ghost function Pairs<T, V>(rows: map<Key<T>, V>): set<Entry<T, V>> {
    set k {:trigger rows[k]} {:trigger k in rows} | k in rows :: Entry(k, rows[k])
  }

  lemma {:induction false} PairsCount<T, V>(rows: map<Key<T>, V>)
    ensures |Pairs(rows)| == |rows|
    decreases |rows|
  {
    if rows != map[] {
      var k :| k in rows;
      var rest := rows - {k};
      assert rest.Keys == rows.Keys - {k} && |rest| == |rest.Keys| && |rows| == |rows.Keys|;
      PairsCount(rest);
      forall e ensures e in Pairs(rows) <==> e in Pairs(rest) || e == Entry(k, rows[k]) {
        if e in Pairs(rows) && e.key != k {
          assert e.key in rest && e == Entry(e.key, rest[e.key]);
        }
        if e in Pairs(rest) {
          assert e.key in rows && e == Entry(e.key, rows[e.key]);
        }
      }
      assert Pairs(rows) == Pairs(rest) + {Entry(k, rows[k])};
    }
  }

  lemma SameSize<X>(a: set<X>, b: set<X>)
    requires a <= b && |b| <= |a|
    ensures a == b
  {
    assert b == a + (b - a);
  }

  /** When as many rows are there as were parsed, and all of them were parsed, they are exactly what
      was parsed: nothing is missing, and no two parsed rows had one key. */
  lemma CountTellsAll<T, V>(rows: map<Key<T>, V>, chunks: seq<seq<Entry<T, V>>>)
    requires From(rows, chunks) && |rows| == TotalRows(chunks)
    ensures rows == Loaded(chunks)
  {
    var pairs := Pairs(rows);
    PairsCount(rows);
    EntriesBound(chunks);
    SameSize(pairs, Entries(chunks));
    LoadedEntries(chunks);
    var loaded := Loaded(chunks);
    forall k | k in loaded ensures k in rows && rows[k] == loaded[k] {
      assert Entry(k, loaded[k]) in pairs;
    }
    forall k | k in rows ensures k in loaded {
      assert Entry(k, rows[k]) in Entries(chunks);
    }
  }

  // ----- Every row of a run is one that it parsed -----

  ghost predicate FromManifest(s: Sys, r: Run)
    requires r in s.runs
  {
    From(Of(s.books, r), s.runs[r].manifest.books) && From(Of(s.contributors, r), s.runs[r].manifest.contributors)
  }

  ghost predicate ManifestInv(s: Sys) {
    forall r {:trigger FromManifest(s, r)} :: r in s.runs ==> FromManifest(s, r)
  }

  lemma {:induction false} ChunkEntries<T, V>(chunks: seq<seq<Entry<T, V>>>, i: nat)
    requires i < |chunks|
    ensures forall e :: e in chunks[i] ==> e in Entries(chunks)
    decreases |chunks|
  {
    if i < |chunks| - 1 {
      ChunkEntries(chunks[..|chunks| - 1], i);
    }
  }

  lemma LoadedFrom<T, V>(rows: map<Key<T>, V>, chunks: seq<seq<Entry<T, V>>>, i: nat)
    requires From(rows, chunks) && i < |chunks|
    ensures From(rows + Keyed(chunks[i]), chunks)
  {
    KeyedEntries(chunks[i]);
    ChunkEntries(chunks, i);
  }

  lemma OwnLoadFromManifest(s: Sys, r: Run)
    requires r in s.runs && CanLoad(s.runs[r]) && FromManifest(s, r) && EpochOf(s, r)
    ensures r in AfterLoad(s, r).runs && FromManifest(AfterLoad(s, r), r)
  {
    var l := s.runs[r];
    if l.pc.LoadBooks? {
      ChunkIsOf(l.manifest.books, l.pc.chunk, r);
      OfMerge(s.books, Keyed(l.manifest.books[l.pc.chunk]), r, r);
      LoadedFrom(Of(s.books, r), l.manifest.books, l.pc.chunk);
    } else {
      ChunkIsOf(l.manifest.contributors, l.pc.chunk, r);
      OfMerge(s.contributors, Keyed(l.manifest.contributors[l.pc.chunk]), r, r);
      LoadedFrom(Of(s.contributors, r), l.manifest.contributors, l.pc.chunk);
    }
  }

  predicate IsCleanup(a: Action) { a.DeleteContributors? || a.DeleteBooks? }

  /** What a statement leaves of a run's rows: only its own loads add, and only cleanups take. */
  lemma RowsOfOthers(s: Sys, a: Action, r: Run)
    requires EpochInv(s) && TableInv(s) && Enabled(s, a)
    requires a.LoadChunk? ==> a.run != r
    ensures var t := Apply(s, a);
            && (Of(t.books, r) == Of(s.books, r) || (a.DeleteBooks? && a.run != r && Of(t.books, r) == map[]))
            && (Of(t.contributors, r) == Of(s.contributors, r)
                || (IsCleanup(a) && a.run != r && Of(t.contributors, r) == map[]))
  {
    match a {
      case LoadChunk(q) => LoadWrites(s, q, r);
      case DeleteContributors(z) => CleanupKeeps(s, z, r);
      case DeleteBooks(z) => CleanupKeeps(s, z, r);
      case _ => OtherActionsKeepTables(s, a);
    }
  }

  lemma ManifestStays(s: Sys, a: Action, r: Run)
    requires Enabled(s, a) && r in s.runs && !(a.Parse? && a.run == r)
    ensures r in Apply(s, a).runs && Apply(s, a).runs[r].manifest == s.runs[r].manifest
  {
  }

  lemma FromManifestKept(s: Sys, a: Action, r: Run)
    requires EpochInv(s) && TableInv(s) && ManifestInv(s) && Enabled(s, a) && r in Apply(s, a).runs
    ensures FromManifest(Apply(s, a), r)
  {
    if r !in s.runs || (a.Parse? && a.run == r) {
      if r in s.runs {
        assert EpochOf(s, r);
      }
      assert NoRowsOf(s, r);
      OtherActionsKeepTables(s, a);
    } else {
      assert FromManifest(s, r) && EpochOf(s, r);
      if a.LoadChunk? && a.run == r {
        OwnLoadFromManifest(s, r);
      } else {
        ManifestStays(s, a, r);
        RowsOfOthers(s, a, r);
      }
    }
  }

  // ----- Which cleanups do harm -----

  /** The counts of the validate step, those still to be read taken from the tables as they are. */
  function Completed(s: Sys, r: Run): seq<nat>
    requires r in s.runs
  {
    var counts := s.runs[r].counts;
    var now := [|Of(s.books, r)|, |Of(s.contributors, r)|, |WithCardUrl(Of(s.books, r))|];
    if |counts| >= 3 then counts else counts + now[|counts|..]
  }

  /** The run owns the lock and is past its checks, or will be with what it finds from here on. */
  predicate MayActivate(s: Sys, r: Run) {
    && r in s.runs && s.state.lockOwner == Some(r)
    && (s.runs[r].pc.ActivateGeneration?
        || (s.runs[r].pc.ValidateGeneration? && s.runs[r].snapshot.Some?
            && ValidCounts(Completed(s, r), s.runs[r].manifest, s.runs[r].snapshot.value)))
  }

  /** The runs whose rows are, or may become without a further check, what readers see. */
  predicate Matters(s: Sys, r: Run) {
    r in s.runs && (s.state.active == Some(r) || MayActivate(s, r))
  }

  predicate LosesRows(s: Sys, a: Action, r: Run)
    requires Enabled(s, a)
  {
    Of(Apply(s, a).books, r) != Of(s.books, r) || Of(Apply(s, a).contributors, r) != Of(s.contributors, r)
  }

  /** A cleanup statement that takes rows of the active generation, or of a run that can still
      activate without noticing. */
  predicate Harmful(s: Sys, a: Action) {
    IsCleanup(a) && Enabled(s, a) && exists r :: r in s.runs && LosesRows(s, a, r) && Matters(Apply(s, a), r)
  }

  // ----- What every step keeps -----

  /** As many rows are there as the run parsed. */
  predicate Complete(s: Sys, r: Run)
    requires r in s.runs
  {
    && |Of(s.books, r)| == BookCount(s.runs[r].manifest)
    && |Of(s.contributors, r)| == ContributorCount(s.runs[r].manifest)
  }

  predicate ActiveCounts(s: Sys) {
    s.state.active.Some? && s.state.active.value in s.runs ==>
      var m := s.runs[s.state.active.value].manifest;
      s.state.activeBookCount == BookCount(m) && s.state.activeContributorCount == ContributorCount(m)
  }

  /** The invariant that holds with any cleanups. */
  ghost predicate BaseInv(s: Sys) { EpochInv(s) && TableInv(s) && ManifestInv(s) && ActiveCounts(s) }

  ghost predicate RowsInv(s: Sys) {
    BaseInv(s) && forall r {:trigger Matters(s, r)} :: Matters(s, r) ==> Complete(s, r)
  }

  lemma ActiveCountsKept(s: Sys, a: Action)
    requires EpochInv(s) && ActiveCounts(s) && Enabled(s, a)
    ensures ActiveCounts(Apply(s, a))
  {
    if !(a.Switch? && s.state.lockOwner == Some(a.run)) {
      if !a.Switch? {
        OnlySwitchActivates(s, a);
      }
      if s.state.active.Some? {
        ActiveHasSwitched(s, s.state.active.value);
        ManifestStays(s, a, s.state.active.value);
      }
    }
  }

  lemma BaseInvKept(s: Sys, a: Action)
    requires BaseInv(s) && Enabled(s, a)
    ensures BaseInv(Apply(s, a))
  {
    EpochInvKept(s, a);
    TableInvKept(s, a);
    ActiveCountsKept(s, a);
    forall r | r in Apply(s, a).runs ensures FromManifest(Apply(s, a), r) {
      FromManifestKept(s, a, r);
    }
  }

  /** Another's statement that takes no rows of a run changes nothing about whether it matters. */
  lemma OthersKeepMatters(s: Sys, a: Action, r: Run)
    requires BaseInv(s) && Enabled(s, a) && ByOther(a, r) && Matters(Apply(s, a), r) && !LosesRows(s, a, r)
    ensures Matters(s, r) && s.runs[r] == Apply(s, a).runs[r]
  {
    OthersLeaveRun(s, a, r);
    if !a.Switch? {
      OnlySwitchActivates(s, a);
    }
  }

  /** Counts read from the tables as they are, and valid, are complete. */
  lemma FreshCountsComplete(s: Sys, r: Run)
    requires MayActivate(s, r) && s.runs[r].pc.ValidateGeneration? && s.runs[r].counts == []
    ensures Complete(s, r)
  {
    assert Completed(s, r)[0] == |Of(s.books, r)| && Completed(s, r)[1] == |Of(s.contributors, r)|;
  }

  /** What a run whose rows matter does itself leaves its rows, and it mattered before or counts them afresh. */
  lemma OwnStepMatters(s: Sys, a: Action, r: Run)
    requires BaseInv(s) && Enabled(s, a) && r in s.runs && !ByOther(a, r) && Matters(Apply(s, a), r)
    ensures !a.LoadChunk? && !a.Parse?
    ensures Matters(s, r) || (MayActivate(Apply(s, a), r) && Apply(s, a).runs[r].pc.ValidateGeneration?
                              && Apply(s, a).runs[r].counts == [])
  {
    assert EpochOf(s, r);
    if s.state.active == Some(r) {
      ActiveHasSwitched(s, r);
    }
    match a {
      case CountRows(_) => CountRowsMatters(s, r);
      case Return(_) => ReturnMatters(s, r);
      case Switch(_) =>
      case _ =>
    }
  }

  lemma CountRowsMatters(s: Sys, r: Run)
    requires r in s.runs && Enabled(s, CountRows(r)) && Matters(Apply(s, CountRows(r)), r)
    ensures Matters(s, r)
  {
    assert Completed(Apply(s, CountRows(r)), r) == Completed(s, r);
  }

  lemma ReturnMatters(s: Sys, r: Run)
    requires r in s.runs && Enabled(s, Return(r)) && Matters(Apply(s, Return(r)), r)
    ensures var t := Apply(s, Return(r));
            Matters(s, r) || (MayActivate(t, r) && t.runs[r].pc.ValidateGeneration? && t.runs[r].counts == [])
  {
  }

  lemma StartedDoesNotMatter(s: Sys, r: Run)
    requires EpochInv(s) && Enabled(s, Start(r))
    ensures !Matters(Apply(s, Start(r)), r)
  {
    if s.state.active == Some(r) {
      ActiveHasSwitched(s, r);
    }
  }

  lemma CompleteKept(s: Sys, a: Action, r: Run)
    requires RowsInv(s) && Enabled(s, a) && !Harmful(s, a) && Matters(Apply(s, a), r)
    ensures Complete(Apply(s, a), r)
  {
    if ByOther(a, r) {
      OthersLeaveRun(s, a, r);
      RowsOfOthers(s, a, r);
      OthersKeepMatters(s, a, r);
    } else if a.Start? {
      StartedDoesNotMatter(s, r);
    } else {
      OwnStepMatters(s, a, r);
      RowsOfOthers(s, a, r);
      ManifestStays(s, a, r);
      if !Matters(s, r) {
        FreshCountsComplete(Apply(s, a), r);
      }
    }
  }

  /** Every step, of whatever run, that is not a harmful cleanup keeps the invariant. */
  lemma RowsInvKept(s: Sys, a: Action)
    requires RowsInv(s) && Enabled(s, a) && !Harmful(s, a)
    ensures RowsInv(Apply(s, a))
  {
    BaseInvKept(s, a);
    forall r | Matters(Apply(s, a), r) ensures Complete(Apply(s, a), r) {
      CompleteKept(s, a, r);
    }
  }

  // ----- Main results -----

  /** The rows tagged with the active generation are exactly the keyed union of the chunks its run parsed. */
  ghost predicate ActiveRowsRight(s: Sys) {
    s.state.active.Some? ==>
      var r := s.state.active.value;
      && r in s.runs
      && Of(s.books, r) == Loaded(s.runs[r].manifest.books)
      && Of(s.contributors, r) == Loaded(s.runs[r].manifest.contributors)
  }

  lemma RowsInvMeansRight(s: Sys)
    requires RowsInv(s)
    ensures ActiveRowsRight(s)
    ensures s.state.active.Some? ==>
              && s.state.activeBookCount == |Of(s.books, s.state.active.value)|
              && s.state.activeContributorCount == |Of(s.contributors, s.state.active.value)|
  {
    if s.state.active.Some? {
      var r := s.state.active.value;
      ActiveHasSwitched(s, r);
      assert Matters(s, r) && FromManifest(s, r);
      CountTellsAll(Of(s.books, r), s.runs[r].manifest.books);
      CountTellsAll(Of(s.contributors, r), s.runs[r].manifest.contributors);
    }
  }

  predicate HarmlessAt(trace: seq<Sys>, actions: seq<Action>, i: nat)
    requires i < |actions| < |trace|
  {
    !Harmful(trace[i], actions[i])
  }

  /** A trace without a harmful cleanup. */
  ghost predicate HarmlessTrace(trace: seq<Sys>, actions: seq<Action>) {
    && Follows(trace, actions) && trace[0] == INITIAL
    && forall i {:trigger HarmlessAt(trace, actions, i)} :: 0 <= i < |actions| ==> HarmlessAt(trace, actions, i)
  }

  lemma {:induction false} RowsInvHolds(trace: seq<Sys>, actions: seq<Action>, n: nat)
    requires HarmlessTrace(trace, actions) && n < |trace|
    ensures RowsInv(trace[n])
  {
    if n > 0 {
      RowsInvHolds(trace, actions, n - 1);
      assert StepAt(trace, actions, n - 1) && HarmlessAt(trace, actions, n - 1);
      RowsInvKept(trace[n - 1], actions[n - 1]);
    }
  }

  /** In every state of a trace without a harmful cleanup the rows tagged with the active generation
      are exactly the keyed union of the chunks its run parsed, however often its loads were
      repeated, and the counts on the state row are the numbers of these rows. */
  lemma ActiveRowsAreWhatWasParsed(trace: seq<Sys>, actions: seq<Action>, n: nat, r: Run)
    requires HarmlessTrace(trace, actions) && n < |trace| && trace[n].state.active == Some(r)
    ensures r in trace[n].runs
    ensures Of(trace[n].books, r) == Loaded(trace[n].runs[r].manifest.books)
    ensures Of(trace[n].contributors, r) == Loaded(trace[n].runs[r].manifest.contributors)
    ensures trace[n].state.activeBookCount == |Of(trace[n].books, r)| >= MIN_EXPECTED_BOOKS
    ensures trace[n].state.activeContributorCount == |Of(trace[n].contributors, r)|
  {
    RowsInvHolds(trace, actions, n);
    RowsInvMeansRight(trace[n]);
    EveryActivationIsHealthy(trace, actions, n);
  }

  // ----- Cleanups in time -----

  /** A cleanup in time: no other run that took the lock after this one's activation has begun to load. */
  predicate InTime(s: Sys, a: Action) {
    IsCleanup(a) && a.run in s.runs && s.runs[a.run].activatedAt.Some? ==>
      forall q :: q in s.runs && q != a.run && s.runs[q].loading ==>
        s.runs[q].acquiredAt < s.runs[a.run].activatedAt.value
  }

  /** A cleanup that ends before the next run begins to load does no harm. */
  lemma InTimeIsHarmless(s: Sys, a: Action)
    requires EpochInv(s) && TableInv(s) && Enabled(s, a) && InTime(s, a)
    ensures !Harmful(s, a)
  {
    if IsCleanup(a) {
      forall r | r in s.runs && LosesRows(s, a, r) ensures !Matters(Apply(s, a), r) {
        RowsOfOthers(s, a, r);
        assert EpochOf(s, r) && EpochOf(s, a.run);
        if !s.runs[r].loading {
          assert NoRowsOf(s, r);
        }
        if s.state.active == Some(r) {
          ActiveHasSwitched(s, r);
        }
      }
    }
  }

  /** So the active rows are right over every trace in which each cleanup ends before the next run's first load. */
  lemma TimelyTraceIsHarmless(trace: seq<Sys>, actions: seq<Action>)
    requires Follows(trace, actions) && trace[0] == INITIAL
    requires forall i :: 0 <= i < |actions| ==> InTime(trace[i], actions[i])
    ensures HarmlessTrace(trace, actions)
  {
    forall i | 0 <= i < |actions| ensures HarmlessAt(trace, actions, i) {
      BaseInvHolds(trace, actions, i);
      assert StepAt(trace, actions, i);
      InTimeIsHarmless(trace[i], actions[i]);
    }
  }

  lemma {:induction false} BaseInvHolds(trace: seq<Sys>, actions: seq<Action>, n: nat)
    requires Follows(trace, actions) && trace[0] == INITIAL && n < |trace|
    ensures BaseInv(trace[n])
  {
    if n > 0 {
      BaseInvHolds(trace, actions, n - 1);
      assert StepAt(trace, actions, n - 1);
      BaseInvKept(trace[n - 1], actions[n - 1]);
    }
  }

  // ----- A run that finished has activated once -----

  /** The activating UPDATE of `r` that changes the row. */
  predicate SwitchesAt(trace: seq<Sys>, actions: seq<Action>, i: nat, r: Run)
    requires i < |actions| < |trace|
  {
    actions[i] == Switch(r) && trace[i].state.lockOwner == Some(r)
  }

  predicate HasActivated(s: Sys, r: Run) { r in s.runs && s.runs[r].activatedAt.Some? }

  lemma ActivatedStep(s: Sys, a: Action, r: Run)
    requires EpochInv(s) && Enabled(s, a)
    ensures HasActivated(Apply(s, a), r) <==> HasActivated(s, r) || (a == Switch(r) && s.state.lockOwner == Some(r))
    ensures a == Switch(r) && s.state.lockOwner == Some(r) ==> !HasActivated(s, r) && Apply(s, a).state.active == Some(r)
  {
    if r in s.runs {
      assert EpochOf(s, r);
    }
  }

  lemma {:induction false} ActivatedByOneSwitch(trace: seq<Sys>, actions: seq<Action>, n: nat, r: Run)
    requires Follows(trace, actions) && trace[0] == INITIAL && n < |trace|
    ensures HasActivated(trace[n], r) <==> exists i :: 0 <= i < n && SwitchesAt(trace, actions, i, r)
    ensures forall i, j :: 0 <= i < j < n ==> !(SwitchesAt(trace, actions, i, r) && SwitchesAt(trace, actions, j, r))
  {
    if n > 0 {
      ActivatedByOneSwitch(trace, actions, n - 1, r);
      BaseInvHolds(trace, actions, n - 1);
      assert StepAt(trace, actions, n - 1);
      ActivatedStep(trace[n - 1], actions[n - 1], r);
      if HasActivated(trace[n], r) {
        if HasActivated(trace[n - 1], r) {
          var i :| 0 <= i < n - 1 && SwitchesAt(trace, actions, i, r);
        } else {
          assert SwitchesAt(trace, actions, n - 1, r);
        }
      }
    }
  }

  /** A run past its activate step, however often that step was tried, has changed the row exactly once:
      as the owner of the lock. */
  lemma FinishedHasActivatedOnce(trace: seq<Sys>, actions: seq<Action>, n: nat, r: Run) returns (i: nat)
    requires Follows(trace, actions) && trace[0] == INITIAL && n < |trace|
    requires At(trace[n], r, FinalizeRun) || At(trace[n], r, DeleteOldGenerations)
    ensures i < n && SwitchesAt(trace, actions, i, r) && trace[i + 1].state.active == Some(r)
    ensures forall j :: 0 <= j < n && j != i && actions[j] == Switch(r) ==> trace[j + 1].state == trace[j].state
  {
    BaseInvHolds(trace, actions, n);
    assert EpochOf(trace[n], r);
    ActivatedByOneSwitch(trace, actions, n, r);
    i :| 0 <= i < n && SwitchesAt(trace, actions, i, r);
    assert StepAt(trace, actions, i);
    forall j | 0 <= j < n && j != i && actions[j] == Switch(r) ensures trace[j + 1].state == trace[j].state {
      assert StepAt(trace, actions, j) && !SwitchesAt(trace, actions, j, r);
    }
  }
}
