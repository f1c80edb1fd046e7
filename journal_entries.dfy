/**
 * The `/journal-entries` routes: one entry per career path and day, always acting for
 * the fixed user. Reads are selections of `journal_entries`; POST, PUT and DELETE are
 * single statements on that table, whose (`career_path_id`, `entry_date`) key is unique.
 */
module JournalEntries {
  import opened Values
  import opened Seqs
  import opened Http
  import opened Tables

  /** What a successful PUT echoes back. */
  datatype EntryEdit = EntryEdit(id: int, entryDate: Date, updatedAt: Timestamp)

  // ---------------------------------------------------------------------------
  // The SQL statements, as functions of the `journal_entries` table
  // ---------------------------------------------------------------------------

  /** `WHERE user_id = 1 AND career_path_id = ?` */
  function OfPath(careerPathId: int): JournalEntry -> bool
  {
    (e: JournalEntry) => e.userId == FixedUserId && e.careerPathId == careerPathId
  }

  /** Sorting on this key ascending is `ORDER BY entry_date DESC`. */
  function NewestFirst(e: JournalEntry): int { -e.entryDate }

  /** One row of `SET entry_date = d, updated_at = t WHERE id = ? AND user_id = 1`. */
  function RedateFn(id: int, date: Date, at: Timestamp): JournalEntry -> JournalEntry
  {
    (e: JournalEntry) => if IsOwned(e, id, EntryId, EntryOwner) then e.(entryDate := date, updatedAt := Some(at)) else e
  }

  /** `UPDATE journal_entries SET entry_date = d, updated_at = t WHERE id = ? AND user_id = 1` */
  function Redate(entries: seq<JournalEntry>, id: int, date: Date, at: Timestamp): (r: seq<JournalEntry>)
    ensures |r| == |entries|
    ensures forall i :: 0 <= i < |r| ==>
      && r[i].id == entries[i].id && r[i].careerPathId == entries[i].careerPathId
      && r[i].userId == entries[i].userId && r[i].createdAt == entries[i].createdAt
    ensures forall i :: 0 <= i < |r| && !IsOwned(entries[i], id, EntryId, EntryOwner) ==> r[i] == entries[i]
    ensures forall i :: 0 <= i < |r| && IsOwned(entries[i], id, EntryId, EntryOwner) ==>
      r[i].entryDate == date && r[i].updatedAt == Some(at)
    ensures !HasOwned(entries, id, EntryId, EntryOwner) ==> r == entries
  {
    var r := MapSeq(entries, RedateFn(id, date, at));
    assert !HasOwned(entries, id, EntryId, EntryOwner) ==> r == entries by {
      if !HasOwned(entries, id, EntryId, EntryOwner) {
        forall i | 0 <= i < |r| ensures r[i] == entries[i] {
          assert entries[i] in entries;
        }
      }
    }
    r
  }

  /**
   * Whether the PUT would give the entry the day of another entry of its career path,
   * which the unique key refuses.
   */
  predicate Clashes(entries: seq<JournalEntry>, id: int, date: Date)
  {
    exists e, o :: e in entries && o in entries && IsOwned(e, id, EntryId, EntryOwner) && o.id != id
                && o.careerPathId == e.careerPathId && o.entryDate == date
  }

  // ---------------------------------------------------------------------------
  // What the statements promise
  // ---------------------------------------------------------------------------

  /**
   * Without a clash, the update keeps the (`career_path_id`, `entry_date`) key unique.
   */
  lemma RedateKeepsKeysUnique(entries: seq<JournalEntry>, id: int, date: Date, at: Timestamp)
    requires DistinctBy(entries, EntryId)
    requires DistinctBy(entries, EntryKey)
    requires !Clashes(entries, id, date)
    ensures DistinctBy(Redate(entries, id, date, at), EntryKey)
    ensures DistinctBy(Redate(entries, id, date, at), EntryId)
  {
    var r := Redate(entries, id, date, at);
    forall i, j | 0 <= i < j < |r| ensures EntryKey(r[i]) != EntryKey(r[j]) {
      assert EntryId(entries[i]) != EntryId(entries[j]);
      if IsOwned(entries[i], id, EntryId, EntryOwner) && !IsOwned(entries[j], id, EntryId, EntryOwner) {
        assert entries[i] in entries && entries[j] in entries;
      } else if !IsOwned(entries[i], id, EntryId, EntryOwner) && IsOwned(entries[j], id, EntryId, EntryOwner) {
        assert entries[i] in entries && entries[j] in entries;
      } else {
        assert EntryKey(entries[i]) != EntryKey(entries[j]);
      }
    }
    forall i, j | 0 <= i < j < |r| ensures EntryId(r[i]) != EntryId(r[j]) {
      assert EntryId(entries[i]) != EntryId(entries[j]);
    }
  }

  /** A GET after a PUT returns the entry with the new day and `updated_at`, all else as it was. */
  lemma LookupAfterRedate(entries: seq<JournalEntry>, id: int, date: Date, at: Timestamp, e: JournalEntry)
    requires DistinctBy(entries, EntryId)
    requires e in entries && IsOwned(e, id, EntryId, EntryOwner)
    ensures LookupOwned(Redate(entries, id, date, at), id, EntryId, EntryOwner)
         == Some(e.(entryDate := date, updatedAt := Some(at)))
  {
    var r := Redate(entries, id, date, at);
    var i :| 0 <= i < |entries| && entries[i] == e;
    assert r[i] in r;
    forall i, j | 0 <= i < j < |r| ensures EntryId(r[i]) != EntryId(r[j]) {
      assert EntryId(entries[i]) != EntryId(entries[j]);
    }
    forall y | y in r && Owned(id, EntryId, EntryOwner)(y) ensures EntryId(y) == EntryId(r[i]) { }
    SelectOneUnique(r, Owned(id, EntryId, EntryOwner), EntryId, r[i]);
  }

  /** The listing, read back in order, goes from the latest day to the earliest. */
  lemma NewestFirstIsDescending(s: seq<JournalEntry>)
    requires SortedBy(s, NewestFirst)
    ensures forall i, j :: 0 <= i < j < |s| ==> s[i].entryDate >= s[j].entryDate
  {
    forall i, j | 0 <= i < j < |s| ensures s[i].entryDate >= s[j].entryDate {
      assert NewestFirst(s[i]) <= NewestFirst(s[j]);
    }
  }

  // ---------------------------------------------------------------------------
  // The handlers; `fault` stands for a failing query
  // ---------------------------------------------------------------------------

  /** POST /journal-entries */
  method CreateEntry(db: Database, careerPathId: Option<int>, entryDate: Option<Date>, now: Timestamp, fault: bool)
    returns (r: Response<JournalEntry>)
    requires db.Valid()
    modifies db`journalEntries, db`nextEntryId
    ensures db.Valid()
    ensures r.Status() != 201 ==> unchanged(db)
    ensures !(IsTruthyNumber(careerPathId) && entryDate.Some?) ==>
      r == BadRequest("career_path_id and entry_date are required") && unchanged(db)
    ensures IsTruthyNumber(careerPathId) && entryDate.Some? ==>
      if fault then
        r == ServerError("Failed to create journal entry") && unchanged(db)
      else if HasEntryOn(old(db.journalEntries), careerPathId.value, entryDate.value) then
        r == Duplicate("Entry date already exists for this career path") && unchanged(db)
      else
        && r == Created(JournalEntry(old(db.nextEntryId), careerPathId.value, FixedUserId, entryDate.value, now, None))
        && db.journalEntries == old(db.journalEntries) + [r.value]
        && db.nextEntryId == old(db.nextEntryId) + 1
        && LookupOwned(db.journalEntries, r.value.id, EntryId, EntryOwner) == Some(r.value)
  {
    if !IsTruthyNumber(careerPathId) || entryDate.None? {
      return BadRequest("career_path_id and entry_date are required");
    }
    if fault {
      return ServerError("Failed to create journal entry");
    }
    var cp, date := careerPathId.value, entryDate.value;
    if HasEntryOn(db.journalEntries, cp, date) {
      return Duplicate("Entry date already exists for this career path");
    }
    var entry := JournalEntry(db.nextEntryId, cp, FixedUserId, date, now, None);
    KeyedBelowAppend(db.journalEntries, EntryId, db.nextEntryId, entry);
    DistinctByAppend(db.journalEntries, entry, EntryKey);
    db.journalEntries := db.journalEntries + [entry];
    db.nextEntryId := db.nextEntryId + 1;
    LookupOwnedFinds(db.journalEntries, entry.id, EntryId, EntryOwner);
    r := Created(entry);
  }

  /** GET /journal-entries?career_path_id=c; an absent or empty query parameter is `None`. */
  function ListEntries(db: Database, careerPathId: Option<int>, fault: bool): (r: Response<seq<JournalEntry>>)
    reads db
    ensures careerPathId.None? ==> r == BadRequest("career_path_id query param is required")
    ensures careerPathId.Some? && fault ==> r == ServerError("Failed to fetch journal entries")
    ensures careerPathId.Some? && !fault ==> r.Ok?
    ensures r.Ok? ==> SortedBy(r.value, NewestFirst)
    ensures r.Ok? ==> multiset(r.value) == multiset(Filter(db.journalEntries, OfPath(careerPathId.value)))
    ensures r.Ok? ==> forall e :: e in r.value <==>
      e in db.journalEntries && e.userId == FixedUserId && e.careerPathId == careerPathId.value
  {
    if careerPathId.None? then BadRequest("career_path_id query param is required")
    else if fault then ServerError("Failed to fetch journal entries")
    else Ok(SortBy(Filter(db.journalEntries, OfPath(careerPathId.value)), NewestFirst))
  }

  /** GET /journal-entries/:id */
  function GetEntry(db: Database, id: int, fault: bool): (r: Response<JournalEntry>)
    reads db
    ensures fault ==> r == ServerError("Failed to fetch journal entry")
    ensures !fault && !HasOwned(db.journalEntries, id, EntryId, EntryOwner) ==> r == NotFound("Journal entry not found")
    ensures !fault && HasOwned(db.journalEntries, id, EntryId, EntryOwner) ==> r.Ok?
    ensures r.Ok? ==> r.value in db.journalEntries && IsOwned(r.value, id, EntryId, EntryOwner)
  {
    if fault then ServerError("Failed to fetch journal entry")
    else
      match LookupOwned(db.journalEntries, id, EntryId, EntryOwner)
      case None => NotFound("Journal entry not found")
      case Some(e) => Ok(e)
  }

  /**
   * PUT /journal-entries/:id. Moving the entry onto a day its career path already has
   * breaks the unique key, so the statement fails and the handler answers 500.
   */
  method UpdateEntry(db: Database, id: int, entryDate: Option<Date>, now: Timestamp, fault: bool)
    returns (r: Response<EntryEdit>)
    requires db.Valid()
    modifies db`journalEntries
    ensures db.Valid()
    ensures entryDate.None? ==> r == BadRequest("entry_date is required") && unchanged(db)
    ensures entryDate.Some? ==>
      if fault || Clashes(old(db.journalEntries), id, entryDate.value) then
        r == ServerError("Failed to update journal entry") && unchanged(db)
      else if !HasOwned(old(db.journalEntries), id, EntryId, EntryOwner) then
        r == NotFound("Journal entry not found") && unchanged(db)
      else
        && r == Ok(EntryEdit(id, entryDate.value, now))
        && db.journalEntries == Redate(old(db.journalEntries), id, entryDate.value, now)
  {
    if entryDate.None? {
      return BadRequest("entry_date is required");
    }
    var date := entryDate.value;
    if fault || Clashes(db.journalEntries, id, date) {
      return ServerError("Failed to update journal entry");
    }
    var affected := HasOwned(db.journalEntries, id, EntryId, EntryOwner);
    RedateKeepsKeysUnique(db.journalEntries, id, date, now);
    db.journalEntries := Redate(db.journalEntries, id, date, now);
    if !affected {
      return NotFound("Journal entry not found");
    }
    r := Ok(EntryEdit(id, date, now));
  }

  /** DELETE /journal-entries/:id */
  method DeleteEntry(db: Database, id: int, fault: bool) returns (r: Response<string>)
    requires db.Valid()
    modifies db`journalEntries
    ensures db.Valid()
    ensures fault ==> r == ServerError("Failed to delete journal entry") && unchanged(db)
    ensures !fault && !HasOwned(old(db.journalEntries), id, EntryId, EntryOwner) ==>
      r == NotFound("Journal entry not found") && unchanged(db)
    ensures !fault && HasOwned(old(db.journalEntries), id, EntryId, EntryOwner) ==>
      && r == Ok("Journal entry deleted successfully")
      && db.journalEntries == RemoveOwned(old(db.journalEntries), id, EntryId, EntryOwner)
  {
    if fault {
      return ServerError("Failed to delete journal entry");
    }
    var affected := HasOwned(db.journalEntries, id, EntryId, EntryOwner);
    if !affected {
      FilterKeepsAll(db.journalEntries, NotOwned(id, EntryId, EntryOwner));
      return NotFound("Journal entry not found");
    }
    KeyedBelowFilter(db.journalEntries, NotOwned(id, EntryId, EntryOwner), EntryId, db.nextEntryId);
    FilterKeepsDistinct(db.journalEntries, NotOwned(id, EntryId, EntryOwner), EntryKey);
    db.journalEntries := RemoveOwned(db.journalEntries, id, EntryId, EntryOwner);
    r := Ok("Journal entry deleted successfully");
  }
}
