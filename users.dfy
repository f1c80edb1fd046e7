/**
 * findOrCreateUser: the `users` row for a Clerk user id, inserted on first sight.
 */
module Users {
  import opened Values
  import opened Seqs
  import opened Tables

  /**
   * The tagged result: `status: 'exists'` with the stored row, `status: 'created'` with
   * the new one, or a rejected promise when a query fails.
   */
  datatype UserOutcome = Exists(user: User) | Created(user: User) | Failed

  function WithClerkId(clerkUserId: string): User -> bool
  {
    (u: User) => u.clerkUserId == clerkUserId
  }

  function ClerkId(u: User): string { u.clerkUserId }

  /** `SELECT * FROM users WHERE clerk_user_id = ?`, then `existing[0]`. */
  function FindUser(users: seq<User>, clerkUserId: string): (r: Option<User>)
    ensures r.Some? <==> exists u :: u in users && u.clerkUserId == clerkUserId
    ensures r.Some? ==> r.value in users && r.value.clerkUserId == clerkUserId
  {
    SelectOne(users, WithClerkId(clerkUserId))
  }

  /** Appending a row for a new Clerk id keeps the Clerk id unique. */
  lemma ClerkIdStaysUnique(users: seq<User>, u: User)
    requires FindUser(users, u.clerkUserId).None?
    ensures DistinctBy(users, ClerkId) ==> DistinctBy(users + [u], ClerkId)
  {
    if DistinctBy(users, ClerkId) {
      forall i | 0 <= i < |users| ensures ClerkId(users[i]) != ClerkId(u) {
        assert users[i] in users;
      }
      DistinctByAppend(users, u, ClerkId);
    }
  }

  /** Once a row for a Clerk id has been appended, the lookup finds it (it was the only one). */
  lemma FindAfterInsert(users: seq<User>, u: User)
    requires FindUser(users, u.clerkUserId).None?
    ensures FindUser(users + [u], u.clerkUserId) == Some(u)
  {
    var all := users + [u];
    forall j | 0 <= j < |users| ensures all[j].clerkUserId != u.clerkUserId {
      assert all[j] == users[j] && users[j] in users;
    }
    var r := FindUser(all, u.clerkUserId);
    assert u in all;
    var i :| 0 <= i < |all| && all[i] == r.value;
    assert i == |users|;
  }

  /**
   * findOrCreateUser. The `exists` branch returns the stored row as it is, so its email
   * is the stored one, not the `email` argument.
   */
  method FindOrCreateUser(db: Database, clerkUserId: string, email: string, createdAt: Timestamp, fault: bool)
    returns (r: UserOutcome)
    requires db.Valid()
    modifies db`users, db`nextUserId
    ensures db.Valid()
    ensures DistinctBy(old(db.users), ClerkId) ==> DistinctBy(db.users, ClerkId)
    ensures fault ==> r == Failed && unchanged(db)
    ensures !fault && FindUser(old(db.users), clerkUserId).Some? ==>
      r == Exists(FindUser(old(db.users), clerkUserId).value) && unchanged(db)
    ensures !fault && FindUser(old(db.users), clerkUserId).None? ==>
      && r == Created(User(old(db.nextUserId), clerkUserId, email, createdAt))
      && db.users == old(db.users) + [r.user]
      && db.nextUserId == old(db.nextUserId) + 1
    ensures !fault ==> FindUser(db.users, clerkUserId) == Some(r.user)
  {
    if fault {
      return Failed;
    }
    var existing := FindUser(db.users, clerkUserId);
    if existing.Some? {
      return Exists(existing.value);
    }
    var user := User(db.nextUserId, clerkUserId, email, createdAt);
    KeyedBelowAppend(db.users, UserId, db.nextUserId, user);
    ClerkIdStaysUnique(db.users, user);
    FindAfterInsert(db.users, user);
    db.users := db.users + [user];
    db.nextUserId := db.nextUserId + 1;
    r := Created(user);
  }

  /** Two calls in a row for one Clerk id: the second finds the first's user and adds no row. */
  method FindOrCreateTwice(db: Database, clerkUserId: string, email: string, createdAt: Timestamp,
                           laterEmail: string, later: Timestamp)
    returns (first: UserOutcome, second: UserOutcome)
    requires db.Valid()
    modifies db`users, db`nextUserId
    ensures db.Valid()
    ensures !first.Failed? && second == Exists(first.user)
    ensures db.users == old(db.users) + (if first.Created? then [first.user] else [])
  {
    first := FindOrCreateUser(db, clerkUserId, email, createdAt, false);
    var afterFirst := db.users;
    second := FindOrCreateUser(db, clerkUserId, laterEmail, later, false);
    assert db.users == afterFirst;
  }
}
