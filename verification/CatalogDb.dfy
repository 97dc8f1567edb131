/** The tables of the catalog sync and the statements on them (`src/catalog-db.ts`): the one state
    row with its leased lock, and the book and contributor rows tagged with their generation. */
module CatalogDb {
  import opened Strings

  /** A sync run; the generation it loads goes by the same name. */
  type Run = string

  /** The primary key of a row: its generation and what identifies it there. */
  datatype Key<T> = Key(generation: Run, id: T)

  datatype ContributorId = ContributorId(workId: string, personId: string, role: string)

  datatype BookRow = BookRow(cardUrl: string, columns: seq<string>)

  datatype ContributorRow = ContributorRow(ordinal: int, columns: seq<string>)

  datatype Entry<T, V> = Entry(key: Key<T>, row: V)

  type Book = Entry<string, BookRow>

  type Contributor = Entry<ContributorId, ContributorRow>

  type BookTable = map<Key<string>, BookRow>

  type ContributorTable = map<Key<ContributorId>, ContributorRow>

  datatype StateRow = StateRow(
    active: Option<Run>, activeBookCount: nat, activeContributorCount: nat,
    lockOwner: Option<Run>, lockExpiresAt: Option<int>)

  datatype Counts = Counts(books: nat, contributors: nat, cardUrls: nat)

  // ----- What the statements do to the row and the tables -----

  predicate CanAcquire(st: StateRow, run: Run, now: int) {
    || st.lockOwner == None
    || st.lockExpiresAt == None
    || st.lockExpiresAt.value < now
    || st.lockOwner == Some(run)
  }

  function Acquired(st: StateRow, run: Run, now: int, expires: int): StateRow {
    if CanAcquire(st, run, now) then st.(lockOwner := Some(run), lockExpiresAt := Some(expires)) else st
  }

  function Released(st: StateRow, run: Run): StateRow {
    if st.lockOwner == Some(run) then st.(lockOwner := None, lockExpiresAt := None) else st
  }

  /** The one statement that moves the active generation: only for the owner of the lock, which it gives up. */
  function Activated(st: StateRow, run: Run, generation: Run, books: nat, contributors: nat): StateRow {
    if st.lockOwner == Some(run) then StateRow(Some(generation), books, contributors, None, None) else st
  }

  /** The rows of an upsert by key; of two with one key the later stays. */
  function Keyed<T(==), V>(rows: seq<Entry<T, V>>): map<Key<T>, V> {
    if rows == [] then map[] else Keyed(rows[..|rows| - 1])[rows[|rows| - 1].key := rows[|rows| - 1].row]
  }

  /** Every contributor row needs its book. */
  predicate HaveBooks(books: BookTable, rows: seq<Contributor>) {
    forall i :: 0 <= i < |rows| ==> Key(rows[i].key.generation, rows[i].key.id.workId) in books
  }

  /** The rows of one generation. */
  function Of<T(==), V>(table: map<Key<T>, V>, generation: Run): map<Key<T>, V> {
    map k | k in table && k.generation == generation :: table[k]
  }

  /** `ON DELETE CASCADE` from books to contributors. */
  function Cascaded(contributors: ContributorTable, books: BookTable): ContributorTable {
    map k | k in contributors && Key(k.generation, k.id.workId) in books :: contributors[k]
  }

  function WithCardUrl(books: BookTable): set<Key<string>> {
    set k | k in books && books[k].cardUrl != ""
  }

  /** `SELECT COUNT(*) ... WHERE generation = ?`. */
  method CountOf<T(==), V>(table: map<Key<T>, V>, generation: Run) returns (n: nat)
    ensures n == |Of(table, generation)|
  {
    n := 0;
    var left := table.Keys;
    ghost var wanted := Of(table, generation).Keys;
    while left != {}
      invariant left <= table.Keys && n == |wanted - left|
      decreases |left|
    {
      var k :| k in left;
      ghost var before := wanted - left;
      left := left - {k};
      if k.generation == generation {
        assert wanted - left == before + {k};
        n := n + 1;
      } else {
        assert wanted - left == before;
      }
    }
    assert wanted - left == wanted;
  }

  /** Those of some rows that also have `card_url <> ''`. */
  method CountCardUrls(table: BookTable) returns (n: nat)
    ensures n == |WithCardUrl(table)|
  {
    n := 0;
    var left := table.Keys;
    ghost var wanted := WithCardUrl(table);
    while left != {}
      invariant left <= table.Keys && n == |wanted - left|
      decreases |left|
    {
      var k :| k in left;
      ghost var before := wanted - left;
      left := left - {k};
      if table[k].cardUrl != "" {
        assert wanted - left == before + {k};
        n := n + 1;
      } else {
        assert wanted - left == before;
      }
    }
    assert wanted - left == wanted;
  }

  // ----- The database -----

  class Database {
    var state: StateRow
    var books: BookTable
    var contributors: ContributorTable

    constructor ()
      ensures state == StateRow(None, 0, 0, None, None) && books == map[] && contributors == map[]
    {
      state, books, contributors := StateRow(None, 0, 0, None, None), map[], map[];
    }

    method AcquireCatalogSyncLock(run: Run, now: int, expires: int) returns (acquired: bool)
      modifies this`state
      ensures acquired <==> CanAcquire(old(state), run, now)
      ensures state == Acquired(old(state), run, now, expires)
    {
      acquired := state.lockOwner == None || state.lockExpiresAt == None || state.lockExpiresAt.value < now
                  || state.lockOwner == Some(run);
      if acquired {
        state := state.(lockOwner := Some(run), lockExpiresAt := Some(expires));
      }
    }

    method ReleaseCatalogSyncLock(run: Run)
      modifies this`state
      ensures state == Released(old(state), run)
    {
      if state.lockOwner == Some(run) {
        state := state.(lockOwner := None, lockExpiresAt := None);
      }
    }

    /** One batch: every row of the chunk is written, or replaced where its key is there already. */
    method UpsertBookChunk(rows: seq<Book>)
      modifies this`books
      ensures books == old(books) + Keyed(rows)
    {
      for i := 0 to |rows|
        invariant books == old(books) + Keyed(rows[..i])
      {
        assert rows[..i + 1][..i] == rows[..i];
        books := books[rows[i].key := rows[i].row];
      }
      assert rows[..|rows|] == rows;
    }

    /** One batch, given up whole when a row has no book. */
    method UpsertContributorChunk(rows: seq<Contributor>) returns (ok: bool)
      modifies this`contributors
      ensures ok <==> HaveBooks(books, rows)
      ensures contributors == if ok then old(contributors) + Keyed(rows) else old(contributors)
    {
      var table := contributors;
      for i := 0 to |rows|
        invariant HaveBooks(books, rows[..i])
        invariant table == old(contributors) + Keyed(rows[..i])
        invariant contributors == old(contributors)
      {
        if Key(rows[i].key.generation, rows[i].key.id.workId) !in books {
          return false;
        }
        assert rows[..i + 1][..i] == rows[..i];
        table := table[rows[i].key := rows[i].row];
      }
      assert rows[..|rows|] == rows;
      contributors := table;
      ok := true;
    }

    /** The three counts of a generation, each a pass over its table, with nothing else happening in between. */
    method CountGeneration(generation: Run) returns (c: Counts)
      ensures c.books == |Of(books, generation)| && c.contributors == |Of(contributors, generation)|
      ensures c.cardUrls == |WithCardUrl(Of(books, generation))|
    {
      var bookCount := CountOf(books, generation);
      var contributorCount := CountOf(contributors, generation);
      var cardUrlCount := CountCardUrls(Of(books, generation));
      c := Counts(bookCount, contributorCount, cardUrlCount);
    }

    /** Switches the active generation, or finds that an earlier attempt already did. */
    method ActivateGeneration(run: Run, generation: Run, bookCount: nat, contributorCount: nat)
      returns (activated: bool)
      modifies this`state
      ensures state == Activated(old(state), run, generation, bookCount, contributorCount)
      ensures activated <==> state.active == Some(generation)
    {
      if state.lockOwner == Some(run) {
        state := StateRow(Some(generation), bookCount, contributorCount, None, None);
        return true;
      }
      activated := state.active == Some(generation);
    }

    method DeleteOldGenerations(keep: Run)
      modifies this`books, this`contributors
      ensures books == Of(old(books), keep)
      ensures contributors == Cascaded(Of(old(contributors), keep), books)
    {
      contributors := Of(contributors, keep);
      books := Of(books, keep);
      contributors := Cascaded(contributors, books);
    }
  }

  // ----- Laws of the tables -----

  ghost predicate AllOf<T, V>(table: map<Key<T>, V>, generation: Run) {
    forall k :: k in table ==> k.generation == generation
  }

  lemma OfMerge<T, V>(table: map<Key<T>, V>, more: map<Key<T>, V>, generation: Run, r: Run)
    requires AllOf(more, generation)
    ensures Of(table + more, r) == if r == generation then Of(table, r) + more else Of(table, r)
  {
  }

  lemma OfKept<T, V>(table: map<Key<T>, V>, keep: Run, r: Run)
    ensures Of(Of(table, keep), r) == if r == keep then Of(table, r) else map[]
  {
  }

  lemma {:induction false} KeyedAllOf<T, V>(rows: seq<Entry<T, V>>, generation: Run)
    requires forall i :: 0 <= i < |rows| ==> rows[i].key.generation == generation
    ensures AllOf(Keyed(rows), generation)
  {
    if rows != [] {
      KeyedAllOf(rows[..|rows| - 1], generation);
    }
  }

  /** Writing a chunk again changes nothing. */
  lemma UpsertTwice<T, V>(table: map<Key<T>, V>, rows: seq<Entry<T, V>>)
    ensures (table + Keyed(rows)) + Keyed(rows) == table + Keyed(rows)
  {
  }

  ghost predicate HasKey<T, V>(rows: seq<Entry<T, V>>, k: Key<T>) {
    exists i :: 0 <= i < |rows| && rows[i].key == k
  }

  ghost predicate DistinctKeys<T, V>(rows: seq<Entry<T, V>>) {
    forall i, j :: 0 <= i < j < |rows| ==> rows[i].key != rows[j].key
  }

  /** With no two rows of one key every row is there, whatever their order. */
  lemma {:induction false} KeyedHolds<T, V>(rows: seq<Entry<T, V>>)
    ensures forall k :: k in Keyed(rows) <==> HasKey(rows, k)
    ensures DistinctKeys(rows)
            ==> |Keyed(rows)| == |rows|
                && forall i :: 0 <= i < |rows| ==> rows[i].key in Keyed(rows) && Keyed(rows)[rows[i].key] == rows[i].row
  {
    if rows != [] {
      var n := |rows| - 1;
      KeyedHolds(rows[..n]);
      forall k ensures HasKey(rows, k) <==> HasKey(rows[..n], k) || k == rows[n].key {
        if HasKey(rows[..n], k) {
          var i :| 0 <= i < |rows[..n]| && rows[..n][i].key == k;
          assert rows[i].key == k;
        }
        if HasKey(rows, k) && k != rows[n].key {
          var i :| 0 <= i < |rows| && rows[i].key == k;
          assert rows[..n][i].key == k;
        }
      }
      if DistinctKeys(rows) {
        assert !HasKey(rows[..n], rows[n].key);
        forall i | 0 <= i < n ensures rows[i].key in Keyed(rows) && Keyed(rows)[rows[i].key] == rows[i].row {
          assert rows[..n][i] == rows[i];
        }
      }
    }
  }
}
