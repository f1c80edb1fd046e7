/**
 * The daily journal job, run before every request: unless `system_jobs` says it already
 * ran today, it inserts today's journal entry for every career path that lacks one and
 * then records today as the job's last run.
 */
module DailyJournalJob {
  import opened Values
  import opened Seqs
  import opened Tables

  /** How a call ended; a `Failed` run is caught and logged by the caller. */
  datatype JobOutcome = AlreadyRan | Completed | Failed

  /** `rows[0]?.last_run`: `None` when the row is missing or its `last_run` is NULL. */
  function LastRun(jobs: map<string, Option<Date>>): (r: Option<Date>)
    ensures r.Some? ==> DailyJobName in jobs && jobs[DailyJobName] == r
    ensures DailyJobName in jobs ==> r == jobs[DailyJobName]
  {
    if DailyJobName in jobs then jobs[DailyJobName] else None
  }

  /** `UPDATE system_jobs SET last_run = today WHERE job_name = 'daily_journal_entries'` */
  function MarkRun(jobs: map<string, Option<Date>>, today: Date): (r: map<string, Option<Date>>)
    ensures r.Keys == jobs.Keys
    ensures forall k :: k in jobs && k != DailyJobName ==> r[k] == jobs[k]
    ensures LastRun(r) == Some(today) <==> DailyJobName in jobs
    ensures DailyJobName !in jobs ==> r == jobs
  {
    if DailyJobName in jobs then jobs[DailyJobName := Some(today)] else jobs
  }

  /**
   * The rows `INSERT INTO journal_entries ... SELECT ... FROM career_paths cp LEFT JOIN
   * journal_entries je ON je.career_path_id = cp.id AND je.entry_date = today WHERE je.id IS NULL`
   * adds: one per career path with no entry dated today in `entries`, in the order of
   * `paths`, numbered from `nextId`.
   */
  function Provisioned(paths: seq<CareerPath>, entries: seq<JournalEntry>, today: Date, now: Timestamp, nextId: nat)
    : (r: seq<JournalEntry>)
    ensures |r| <= |paths|
    ensures forall k :: 0 <= k < |r| ==>
      && r[k].id == nextId + k
      && r[k].entryDate == today
      && r[k].createdAt == now
      && r[k].updatedAt == None
      && exists cp :: cp in paths && !HasEntryOn(entries, cp.id, today)
                      && r[k].careerPathId == cp.id && r[k].userId == cp.userId
    decreases |paths|
  {
    if paths == [] then []
    else
      var init, cp := paths[..|paths| - 1], paths[|paths| - 1];
      assert paths == init + [cp];
      var earlier := Provisioned(init, entries, today, now, nextId);
      if HasEntryOn(entries, cp.id, today) then earlier
      else earlier + [JournalEntry(nextId + |earlier|, cp.id, cp.userId, today, now, None)]
  }

  /** After the insert, every career path has an entry dated today. */
  lemma {:induction false} ProvisionedCoversEveryPath(paths: seq<CareerPath>, entries: seq<JournalEntry>,
                                                      today: Date, now: Timestamp, nextId: nat)
    ensures forall cp :: cp in paths ==>
      HasEntryOn(entries + Provisioned(paths, entries, today, now, nextId), cp.id, today)
    decreases |paths|
  {
    if paths != [] {
      var init, last := paths[..|paths| - 1], paths[|paths| - 1];
      assert paths == init + [last];
      ProvisionedCoversEveryPath(init, entries, today, now, nextId);
      var earlier := Provisioned(init, entries, today, now, nextId);
      var all := entries + Provisioned(paths, entries, today, now, nextId);
      forall cp | cp in paths ensures HasEntryOn(all, cp.id, today) {
        if cp in init {
          var e :| e in entries + earlier && e.careerPathId == cp.id && e.entryDate == today;
          assert e in all;
        } else if HasEntryOn(entries, cp.id, today) {
          var e :| e in entries && e.careerPathId == cp.id && e.entryDate == today;
          assert e in all;
        } else {
          assert all[|all| - 1].careerPathId == cp.id;
        }
      }
    }
  }

  /** When every career path already has today's entry, the insert adds nothing. */
  lemma {:induction false} ProvisionedEmptyWhenCovered(paths: seq<CareerPath>, entries: seq<JournalEntry>,
                                                       today: Date, now: Timestamp, nextId: nat)
    requires forall cp :: cp in paths ==> HasEntryOn(entries, cp.id, today)
    ensures Provisioned(paths, entries, today, now, nextId) == []
    decreases |paths|
  {
    if paths != [] {
      var init := paths[..|paths| - 1];
      assert paths == init + [paths[|paths| - 1]];
      ProvisionedEmptyWhenCovered(init, entries, today, now, nextId);
    }
  }

  /** Running the insert a second time on the same day adds no row. */
  lemma ProvisionedIsIdempotent(paths: seq<CareerPath>, entries: seq<JournalEntry>, today: Date,
                                now: Timestamp, nextId: nat, later: Timestamp, laterId: nat)
    ensures var once := entries + Provisioned(paths, entries, today, now, nextId);
            Provisioned(paths, once, today, later, laterId) == []
  {
    ProvisionedCoversEveryPath(paths, entries, today, now, nextId);
    ProvisionedEmptyWhenCovered(paths, entries + Provisioned(paths, entries, today, now, nextId), today, later, laterId);
  }

  /** Rows provisioned for the earlier paths belong to other career paths than a later one. */
  lemma EarlierRowsOtherPaths(paths: seq<CareerPath>, entries: seq<JournalEntry>, today: Date,
                              now: Timestamp, nextId: nat)
    requires DistinctBy(paths, PathId)
    requires paths != []
    ensures var init, cp := paths[..|paths| - 1], paths[|paths| - 1];
            forall e :: e in Provisioned(init, entries, today, now, nextId) ==> e.careerPathId != cp.id
  {
    var init, cp := paths[..|paths| - 1], paths[|paths| - 1];
    var earlier := Provisioned(init, entries, today, now, nextId);
    forall e | e in earlier ensures e.careerPathId != cp.id {
      var k :| 0 <= k < |earlier| && earlier[k] == e;
      var src :| src in init && !HasEntryOn(entries, src.id, today)
              && earlier[k].careerPathId == src.id && earlier[k].userId == src.userId;
      var j :| 0 <= j < |init| && init[j] == src;
      assert paths[j] == src;
      assert PathId(paths[j]) != PathId(paths[|paths| - 1]);
    }
  }

  /**
   * The insert keeps (`career_path_id`, `entry_date`) unique: it never duplicates an
   * existing entry, nor adds two for one career path.
   */
  lemma {:induction false} ProvisionedKeepsKeysUnique(paths: seq<CareerPath>, entries: seq<JournalEntry>,
                                                      today: Date, now: Timestamp, nextId: nat)
    requires DistinctBy(paths, PathId)
    requires DistinctBy(entries, EntryKey)
    ensures DistinctBy(entries + Provisioned(paths, entries, today, now, nextId), EntryKey)
    decreases |paths|
  {
    if paths == [] {
      assert entries + [] == entries;
    } else {
      var init, cp := paths[..|paths| - 1], paths[|paths| - 1];
      assert paths == init + [cp];
      assert DistinctBy(init, PathId) by {
        forall i, j | 0 <= i < j < |init| ensures PathId(init[i]) != PathId(init[j]) {
          assert init[i] == paths[i] && init[j] == paths[j];
        }
      }
      ProvisionedKeepsKeysUnique(init, entries, today, now, nextId);
      var earlier := Provisioned(init, entries, today, now, nextId);
      if !HasEntryOn(entries, cp.id, today) {
        var row := JournalEntry(nextId + |earlier|, cp.id, cp.userId, today, now, None);
        var before := entries + earlier;
        EarlierRowsOtherPaths(paths, entries, today, now, nextId);
        forall i | 0 <= i < |before| ensures EntryKey(before[i]) != EntryKey(row) {
          assert before[i] in entries || before[i] in earlier;
        }
        DistinctByAppend(before, row, EntryKey);
        assert entries + Provisioned(paths, entries, today, now, nextId) == before + [row];
      }
    }
  }

  /** After a run, every career path has exactly one entry dated today. */
  lemma ExactlyOneEntryToday(paths: seq<CareerPath>, entries: seq<JournalEntry>, today: Date,
                             now: Timestamp, nextId: nat)
    requires DistinctBy(paths, PathId)
    requires DistinctBy(entries, EntryKey)
    ensures var after := entries + Provisioned(paths, entries, today, now, nextId);
            forall cp :: cp in paths ==> |Filter(after, OnDay(cp.id, today))| == 1
  {
    var after := entries + Provisioned(paths, entries, today, now, nextId);
    ProvisionedCoversEveryPath(paths, entries, today, now, nextId);
    ProvisionedKeepsKeysUnique(paths, entries, today, now, nextId);
    forall cp | cp in paths ensures |Filter(after, OnDay(cp.id, today))| == 1 {
      AtMostOneOnDay(after, cp.id, today);
      var e :| e in after && e.careerPathId == cp.id && e.entryDate == today;
      assert e in Filter(after, OnDay(cp.id, today));
    }
  }

  function OnDay(careerPathId: int, date: Date): JournalEntry -> bool
  {
    (e: JournalEntry) => e.careerPathId == careerPathId && e.entryDate == date
  }

  /** With a unique (`career_path_id`, `entry_date`), a career path has at most one entry per day. */
  lemma {:induction false} AtMostOneOnDay(entries: seq<JournalEntry>, careerPathId: int, date: Date)
    requires DistinctBy(entries, EntryKey)
    ensures |Filter(entries, OnDay(careerPathId, date))| <= 1
    decreases |entries|
  {
    if entries != [] {
      var init, last := entries[..|entries| - 1], entries[|entries| - 1];
      assert entries == init + [last];
      AtMostOneOnDay(init, careerPathId, date);
      if OnDay(careerPathId, date)(last) {
        forall e | e in init ensures !OnDay(careerPathId, date)(e) {
          var i :| 0 <= i < |init| && init[i] == e;
          assert EntryKey(entries[i]) != EntryKey(entries[|entries| - 1]);
        }
        FilterKeepsNone(init, OnDay(careerPathId, date));
      }
    }
  }

  /**
   * The insert of runDailyJournalJobIfNeeded, path by path: today's row for every career
   * path that has no entry dated today in `entries`.
   */
  method MissingToday(paths: seq<CareerPath>, entries: seq<JournalEntry>, today: Date, now: Timestamp, nextId: nat)
    returns (rows: seq<JournalEntry>)
    ensures rows == Provisioned(paths, entries, today, now, nextId)
  {
    rows := [];
    var i := 0;
    while i < |paths|
      invariant 0 <= i <= |paths|
      invariant rows == Provisioned(paths[..i], entries, today, now, nextId)
    {
      assert paths[..i + 1][..i] == paths[..i];
      var cp := paths[i];
      if !HasEntryOn(entries, cp.id, today) {
        rows := rows + [JournalEntry(nextId + |rows|, cp.id, cp.userId, today, now, None)];
      }
      i := i + 1;
    }
    assert paths[..i] == paths;
  }

  /** The provisioned rows take the next auto-increment keys. */
  lemma KeyedBelowProvisioned(entries: seq<JournalEntry>, rows: seq<JournalEntry>, nextId: nat)
    requires KeyedBelow(entries, EntryId, nextId)
    requires forall k :: 0 <= k < |rows| ==> rows[k].id == nextId + k
    ensures KeyedBelow(entries + rows, EntryId, nextId + |rows|)
  {
    var all := entries + rows;
    forall i, j | 0 <= i < j < |all| ensures EntryId(all[i]) != EntryId(all[j]) {
      if j >= |entries| {
        assert all[j] == rows[j - |entries|];
        if i < |entries| {
          assert all[i] == entries[i];
        } else {
          assert all[i] == rows[i - |entries|];
        }
      } else {
        assert all[i] == entries[i] && all[j] == entries[j];
      }
    }
    forall i | 0 <= i < |all| ensures 1 <= EntryId(all[i]) < nextId + |rows| {
      if i < |entries| {
        assert all[i] == entries[i];
      } else {
        assert all[i] == rows[i - |entries|];
      }
    }
  }

  /**
   * runDailyJournalJobIfNeeded: read the stored `last_run` and stop if it is today, insert
   * today's missing entries (one statement, so a failure inserts nothing), then record
   * today as the last run. A failing read writes nothing; a failing insert leaves
   * `last_run` as it was.
   */
  method RunDailyJournalJobIfNeeded(db: Database, today: Date, now: Timestamp,
                                    readFault: bool, insertFault: bool, markFault: bool)
    returns (outcome: JobOutcome)
    requires db.Valid()
    modifies db`journalEntries, db`nextEntryId, db`systemJobs
    ensures db.Valid()
    ensures readFault ==> outcome == Failed && unchanged(db)
    ensures !readFault && LastRun(old(db.systemJobs)) == Some(today) ==> outcome == AlreadyRan && unchanged(db)
    ensures !readFault && LastRun(old(db.systemJobs)) != Some(today) && insertFault ==>
      outcome == Failed && unchanged(db)
    ensures !readFault && LastRun(old(db.systemJobs)) != Some(today) && !insertFault ==>
      && db.journalEntries == old(db.journalEntries)
           + Provisioned(old(db.careerPaths), old(db.journalEntries), today, now, old(db.nextEntryId))
      && db.nextEntryId == old(db.nextEntryId) + |db.journalEntries| - |old(db.journalEntries)|
      && db.systemJobs == (if markFault then old(db.systemJobs) else MarkRun(old(db.systemJobs), today))
      && outcome == (if markFault then Failed else Completed)
  {
    if readFault {
      return Failed;
    }
    if LastRun(db.systemJobs) == Some(today) {
      return AlreadyRan;
    }
    if insertFault {
      return Failed;
    }
    var paths, snapshot, firstId := db.careerPaths, db.journalEntries, db.nextEntryId;
    var rows := MissingToday(paths, snapshot, today, now, firstId);
    KeyedBelowProvisioned(snapshot, rows, firstId);
    db.journalEntries := snapshot + rows;
    db.nextEntryId := firstId + |rows|;
    ProvisionedKeepsKeysUnique(paths, snapshot, today, now, firstId);
    if markFault {
      return Failed;
    }
    db.systemJobs := MarkRun(db.systemJobs, today);
    outcome := Completed;
  }

  /**
   * Two calls on the same day without failures: whether the marker row exists or not,
   * the second call inserts nothing.
   */
  method RunTwiceOnSameDay(db: Database, today: Date, now: Timestamp, later: Timestamp)
    returns (first: JobOutcome, second: JobOutcome)
    requires db.Valid()
    modifies db`journalEntries, db`nextEntryId, db`systemJobs
    ensures db.Valid()
    ensures LastRun(old(db.systemJobs)) != Some(today) ==>
      db.journalEntries == old(db.journalEntries)
        + Provisioned(old(db.careerPaths), old(db.journalEntries), today, now, old(db.nextEntryId))
    ensures LastRun(old(db.systemJobs)) == Some(today) ==> db.journalEntries == old(db.journalEntries)
    ensures DailyJobName in old(db.systemJobs) ==> second == AlreadyRan
    ensures LastRun(old(db.systemJobs)) != Some(today) ==>
      forall cp :: cp in db.careerPaths ==> HasEntryOn(db.journalEntries, cp.id, today)
  {
    first := RunDailyJournalJobIfNeeded(db, today, now, false, false, false);
    var afterFirst := db.journalEntries;
    if LastRun(old(db.systemJobs)) != Some(today) {
      ProvisionedCoversEveryPath(db.careerPaths, old(db.journalEntries), today, now, old(db.nextEntryId));
      ProvisionedIsIdempotent(db.careerPaths, old(db.journalEntries), today, now, old(db.nextEntryId),
                              later, db.nextEntryId);
    }
    second := RunDailyJournalJobIfNeeded(db, today, later, false, false, false);
    assert afterFirst + [] == afterFirst;
  }
}
