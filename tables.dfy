/**
 * The relational store the handlers run against: one row type per table and a
 * `Database` object whose fields are the tables, updated in place by the handlers.
 */
module Tables {
  import opened Values
  import opened Seqs
  import opened Http

  /** A row of `career_paths`. */
  datatype CareerPath = CareerPath(
    id: nat,
    userId: int,
    title: string,
    description: Option<string>,
    imageUrl: Option<string>,
    createdAt: Timestamp,
    updatedAt: Option<Timestamp>)

  /** A row of `journal_entries`; unique on (`career_path_id`, `entry_date`). */
  datatype JournalEntry = JournalEntry(
    id: nat,
    careerPathId: int,
    userId: int,
    entryDate: Date,
    createdAt: Timestamp,
    updatedAt: Option<Timestamp>)

  /** A row of `entry_blocks`; `kind` is the `type` column. */
  datatype Block = Block(
    id: nat,
    entryId: int,
    kind: string,
    position: int,
    content: Content,
    createdAt: Timestamp,
    updatedAt: Option<Timestamp>)

  /** A row of `users`. */
  datatype User = User(
    id: nat,
    clerkUserId: string,
    email: string,
    createdAt: Timestamp)

  function PathId(p: CareerPath): int { p.id }
  function EntryId(e: JournalEntry): int { e.id }
  function BlockId(b: Block): int { b.id }
  function UserId(u: User): int { u.id }

  function PathOwner(p: CareerPath): int { p.userId }
  function EntryOwner(e: JournalEntry): int { e.userId }

  /** The unique key of `journal_entries`. */
  function EntryKey(e: JournalEntry): (int, Date) { (e.careerPathId, e.entryDate) }

  /** Whether `journal_entries` already holds a row for this career path and day. */
  predicate HasEntryOn(entries: seq<JournalEntry>, careerPathId: int, date: Date)
  {
    exists e :: e in entries && e.careerPathId == careerPathId && e.entryDate == date
  }

  /**
   * An `AUTO_INCREMENT` primary key: unique, at least 1, and below the value the
   * table will hand out next.
   */
  ghost predicate KeyedBelow<T>(rows: seq<T>, id: T -> int, nextId: int)
  {
    && nextId >= 1
    && DistinctBy(rows, id)
    && forall i :: 0 <= i < |rows| ==> 1 <= id(rows[i]) < nextId
  }

  /** Inserting a row with the next key keeps the key an auto-increment key. */
  lemma KeyedBelowAppend<T>(rows: seq<T>, id: T -> int, nextId: int, row: T)
    requires KeyedBelow(rows, id, nextId)
    requires id(row) == nextId
    ensures KeyedBelow(rows + [row], id, nextId + 1)
  {
  }

  /** Selecting rows keeps an auto-increment key. */
  lemma KeyedBelowFilter<T(!new)>(rows: seq<T>, f: T -> bool, id: T -> int, nextId: int)
    requires KeyedBelow(rows, id, nextId)
    ensures KeyedBelow(Filter(rows, f), id, nextId)
  {
    FilterKeepsDistinct(rows, f, id);
    var r := Filter(rows, f);
    forall i | 0 <= i < |r| ensures 1 <= id(r[i]) < nextId {
      assert r[i] in rows;
    }
  }

  /** `SELECT ... WHERE f LIMIT 1`: the first matching row in storage order, if any. */
  function SelectOne<T(!new)>(rows: seq<T>, f: T -> bool): (r: Option<T>)
    ensures r.Some? <==> exists x :: x in rows && f(x)
    ensures r.Some? ==> r.value in rows && f(r.value)
  {
    var m := Filter(rows, f);
    if m == [] then None
    else
      assert m[0] in m;
      Some(m[0])
  }

  /** When the condition pins down a unique key, `LIMIT 1` finds the one row with it. */
  lemma SelectOneUnique<T(!new), K>(rows: seq<T>, f: T -> bool, key: T -> K, x: T)
    requires DistinctBy(rows, key)
    requires x in rows && f(x)
    requires forall y :: y in rows && f(y) ==> key(y) == key(x)
    ensures SelectOne(rows, f) == Some(x)
  {
    var y := SelectOne(rows, f).value;
    var i :| 0 <= i < |rows| && rows[i] == x;
    var j :| 0 <= j < |rows| && rows[j] == y;
    assert key(rows[i]) == key(rows[j]);
    assert i == j;
  }

  // ---------------------------------------------------------------------------
  // Statements scoped to the fixed user: `WHERE id = ? AND user_id = 1` on a table
  // whose rows carry a primary key `key` and an owner `owner`
  // ---------------------------------------------------------------------------

  predicate IsOwned<T>(row: T, id: int, key: T -> int, owner: T -> int)
  {
    key(row) == id && owner(row) == FixedUserId
  }

  function Owned<T>(id: int, key: T -> int, owner: T -> int): T -> bool
  {
    (row: T) => IsOwned(row, id, key, owner)
  }

  function NotOwned<T>(id: int, key: T -> int, owner: T -> int): T -> bool
  {
    (row: T) => !IsOwned(row, id, key, owner)
  }

  /** Whether the statement matches a row. */
  predicate HasOwned<T(==, !new)>(rows: seq<T>, id: int, key: T -> int, owner: T -> int)
  {
    exists row :: row in rows && IsOwned(row, id, key, owner)
  }

  /** `SELECT ... WHERE id = ? AND user_id = 1 LIMIT 1` */
  function LookupOwned<T(!new)>(rows: seq<T>, id: int, key: T -> int, owner: T -> int): (r: Option<T>)
    ensures r.Some? <==> HasOwned(rows, id, key, owner)
    ensures r.Some? ==> r.value in rows && IsOwned(r.value, id, key, owner)
  {
    SelectOne(rows, Owned(id, key, owner))
  }

  /** `DELETE FROM ... WHERE id = ? AND user_id = 1` */
  function RemoveOwned<T(!new)>(rows: seq<T>, id: int, key: T -> int, owner: T -> int): (r: seq<T>)
    ensures |r| <= |rows|
    ensures forall row :: row in r <==> row in rows && !IsOwned(row, id, key, owner)
    ensures !HasOwned(rows, id, key, owner) ==> r == rows
  {
    var r := Filter(rows, NotOwned(id, key, owner));
    assert !HasOwned(rows, id, key, owner) ==> r == rows by {
      if !HasOwned(rows, id, key, owner) {
        FilterKeepsAll(rows, NotOwned(id, key, owner));
      }
    }
    r
  }

  /** With a unique key, the lookup finds a row exactly when the user owns one with the id, and it is that row. */
  lemma LookupOwnedFinds<T(!new)>(rows: seq<T>, id: int, key: T -> int, owner: T -> int)
    requires DistinctBy(rows, key)
    ensures LookupOwned(rows, id, key, owner).None? <==> !HasOwned(rows, id, key, owner)
    ensures forall row :: row in rows && IsOwned(row, id, key, owner) ==>
      LookupOwned(rows, id, key, owner) == Some(row)
  {
    forall row | row in rows && IsOwned(row, id, key, owner)
      ensures LookupOwned(rows, id, key, owner) == Some(row)
    {
      SelectOneUnique(rows, Owned(id, key, owner), key, row);
    }
  }

  /** With a unique key, the delete removes exactly the one matching row, and a lookup then finds nothing. */
  lemma RemoveOwnedRemovesOne<T(!new)>(rows: seq<T>, id: int, key: T -> int, owner: T -> int)
    requires DistinctBy(rows, key)
    requires HasOwned(rows, id, key, owner)
    ensures |RemoveOwned(rows, id, key, owner)| == |rows| - 1
    ensures LookupOwned(RemoveOwned(rows, id, key, owner), id, key, owner).None?
    ensures forall row :: row in RemoveOwned(rows, id, key, owner) <==> row in rows && !IsOwned(row, id, key, owner)
  {
    FilterDropsOne(rows, NotOwned(id, key, owner), key, id);
  }

  /** Name of the only job in `system_jobs`. */
  const DailyJobName: string := "daily_journal_entries"

  /** The database: every table the core reads or writes, plus each table's next key. */
  class Database {
    var careerPaths: seq<CareerPath>
    var journalEntries: seq<JournalEntry>
    var entryBlocks: seq<Block>
    /** `system_jobs`: job_name (primary key) to `last_run`, which may be NULL. */
    var systemJobs: map<string, Option<Date>>
    var users: seq<User>
    var nextPathId: nat
    var nextEntryId: nat
    var nextBlockId: nat
    var nextUserId: nat

    /** The constraints the schema enforces. */
    ghost predicate Valid()
      reads this
      ensures Valid() ==> forall e, o :: e in journalEntries && o in journalEntries && e != o ==>
        e.id != o.id && EntryKey(e) != EntryKey(o)
    {
      && KeyedBelow(careerPaths, PathId, nextPathId)
      && KeyedBelow(journalEntries, EntryId, nextEntryId)
      && DistinctBy(journalEntries, EntryKey)
      && KeyedBelow(entryBlocks, BlockId, nextBlockId)
      && KeyedBelow(users, UserId, nextUserId)
    }

    /** Empty tables, with the given `system_jobs` rows. */
    constructor (jobs: map<string, Option<Date>>)
      ensures Valid()
      ensures careerPaths == [] && journalEntries == [] && entryBlocks == [] && users == []
      ensures systemJobs == jobs
    {
      careerPaths, journalEntries, entryBlocks, users := [], [], [], [];
      systemJobs := jobs;
      nextPathId, nextEntryId, nextBlockId, nextUserId := 1, 1, 1, 1;
    }
  }
}
