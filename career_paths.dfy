/**
 * The `/career-paths` routes: the fixed user's career paths. A title is required; an
 * empty or absent description or image URL is stored as NULL.
 */
module CareerPaths {
  import opened Values
  import opened Seqs
  import opened Http
  import opened Tables

  /**
   * What a successful POST or PUT echoes back: the id, the request's own title,
   * description and image URL (not their stored NULL forms) and the timestamp written.
   */
  datatype PathEcho = PathEcho(id: int, title: string, description: Option<string>, imageUrl: Option<string>,
                               at: Timestamp)

  // ---------------------------------------------------------------------------
  // The SQL statements, as functions of the `career_paths` table
  // ---------------------------------------------------------------------------

  /** `WHERE user_id = 1` */
  function OfUser(): CareerPath -> bool
  {
    (p: CareerPath) => p.userId == FixedUserId
  }

  /** Sorting on this key ascending is `ORDER BY id DESC`. */
  function NewestFirst(p: CareerPath): int { -(p.id as int) }

  /** One row of `SET title = ?, description = ?, image_url = ?, updated_at = ? WHERE id = ? AND user_id = 1`. */
  function ReviseFn(id: int, title: string, description: Option<string>, imageUrl: Option<string>, at: Timestamp)
    : CareerPath -> CareerPath
  {
    (p: CareerPath) =>
      if IsOwned(p, id, PathId, PathOwner) then p.(title := title, description := description, imageUrl := imageUrl, updatedAt := Some(at))
      else p
  }

  /** The UPDATE of PUT, with `description` and `image_url` already passed through `|| null`. */
  function Revise(paths: seq<CareerPath>, id: int, title: string, description: Option<string>,
                  imageUrl: Option<string>, at: Timestamp): (r: seq<CareerPath>)
    ensures |r| == |paths|
    ensures forall i :: 0 <= i < |r| ==>
      r[i].id == paths[i].id && r[i].userId == paths[i].userId && r[i].createdAt == paths[i].createdAt
    ensures forall i :: 0 <= i < |r| && !IsOwned(paths[i], id, PathId, PathOwner) ==> r[i] == paths[i]
    ensures forall i :: 0 <= i < |r| && IsOwned(paths[i], id, PathId, PathOwner) ==>
      && r[i].title == title && r[i].description == description
      && r[i].imageUrl == imageUrl && r[i].updatedAt == Some(at)
    ensures !HasOwned(paths, id, PathId, PathOwner) ==> r == paths
  {
    var r := MapSeq(paths, ReviseFn(id, title, description, imageUrl, at));
    assert !HasOwned(paths, id, PathId, PathOwner) ==> r == paths by {
      if !HasOwned(paths, id, PathId, PathOwner) {
        forall i | 0 <= i < |r| ensures r[i] == paths[i] {
          assert paths[i] in paths;
        }
      }
    }
    r
  }

  // ---------------------------------------------------------------------------
  // What the statements promise
  // ---------------------------------------------------------------------------

  /** The update keeps every id, so the primary key stays unique. */
  lemma ReviseKeepsIds(paths: seq<CareerPath>, id: int, title: string, description: Option<string>,
                       imageUrl: Option<string>, at: Timestamp, nextId: int)
    requires KeyedBelow(paths, PathId, nextId)
    ensures KeyedBelow(Revise(paths, id, title, description, imageUrl, at), PathId, nextId)
  {
    var r := Revise(paths, id, title, description, imageUrl, at);
    forall i, j | 0 <= i < j < |r| ensures PathId(r[i]) != PathId(r[j]) {
      assert PathId(paths[i]) != PathId(paths[j]);
    }
    forall i | 0 <= i < |r| ensures 1 <= PathId(r[i]) < nextId {
      assert 1 <= PathId(paths[i]) < nextId;
    }
  }

  /** A GET after a PUT returns the career path with the new fields, id and creation time kept. */
  lemma LookupAfterRevise(paths: seq<CareerPath>, id: int, title: string, description: Option<string>,
                          imageUrl: Option<string>, at: Timestamp, p: CareerPath)
    requires DistinctBy(paths, PathId)
    requires p in paths && IsOwned(p, id, PathId, PathOwner)
    ensures LookupOwned(Revise(paths, id, title, description, imageUrl, at), id, PathId, PathOwner)
         == Some(p.(title := title, description := description, imageUrl := imageUrl, updatedAt := Some(at)))
  {
    var r := Revise(paths, id, title, description, imageUrl, at);
    var i :| 0 <= i < |paths| && paths[i] == p;
    assert r[i] in r;
    forall i, j | 0 <= i < j < |r| ensures PathId(r[i]) != PathId(r[j]) {
      assert PathId(paths[i]) != PathId(paths[j]);
    }
    forall y | y in r && Owned(id, PathId, PathOwner)(y) ensures PathId(y) == PathId(r[i]) { }
    SelectOneUnique(r, Owned(id, PathId, PathOwner), PathId, r[i]);
  }

  /** With unique ids, the listing goes strictly from the highest id to the lowest. */
  lemma NewestFirstIsDecreasing(s: seq<CareerPath>)
    requires SortedBy(s, NewestFirst)
    requires DistinctBy(s, PathId)
    ensures forall i, j :: 0 <= i < j < |s| ==> s[i].id > s[j].id
  {
    forall i, j | 0 <= i < j < |s| ensures s[i].id > s[j].id {
      assert NewestFirst(s[i]) <= NewestFirst(s[j]);
      assert PathId(s[i]) != PathId(s[j]);
    }
  }

  // ---------------------------------------------------------------------------
  // The handlers; `fault` stands for a failing query
  // ---------------------------------------------------------------------------

  /** POST /career-paths */
  method CreatePath(db: Database, title: Option<string>, description: Option<string>, imageUrl: Option<string>,
                    now: Timestamp, fault: bool)
    returns (r: Response<PathEcho>)
    requires db.Valid()
    modifies db`careerPaths, db`nextPathId
    ensures db.Valid()
    ensures r.Status() != 201 ==> unchanged(db)
    ensures !IsTruthyText(title) ==> r == BadRequest("Title is required") && unchanged(db)
    ensures IsTruthyText(title) && fault ==> r == ServerError("Failed to create career path") && unchanged(db)
    ensures IsTruthyText(title) && !fault ==>
      var row := CareerPath(old(db.nextPathId), FixedUserId, title.value, OrNull(description), OrNull(imageUrl), now, None);
      && r == Created(PathEcho(row.id, title.value, description, imageUrl, now))
      && db.careerPaths == old(db.careerPaths) + [row]
      && db.nextPathId == old(db.nextPathId) + 1
      && LookupOwned(db.careerPaths, row.id, PathId, PathOwner) == Some(row)
  {
    if !IsTruthyText(title) {
      return BadRequest("Title is required");
    }
    if fault {
      return ServerError("Failed to create career path");
    }
    var row := CareerPath(db.nextPathId, FixedUserId, title.value, OrNull(description), OrNull(imageUrl), now, None);
    KeyedBelowAppend(db.careerPaths, PathId, db.nextPathId, row);
    db.careerPaths := db.careerPaths + [row];
    db.nextPathId := db.nextPathId + 1;
    LookupOwnedFinds(db.careerPaths, row.id, PathId, PathOwner);
    r := Created(PathEcho(row.id, title.value, description, imageUrl, now));
  }

  /** GET /career-paths */
  function ListPaths(db: Database, fault: bool): (r: Response<seq<CareerPath>>)
    reads db
    ensures fault <==> r == ServerError("Failed to fetch career paths")
    ensures !fault ==> r.Ok?
    ensures r.Ok? ==> SortedBy(r.value, NewestFirst)
    ensures r.Ok? ==> multiset(r.value) == multiset(Filter(db.careerPaths, OfUser()))
    ensures r.Ok? ==> forall p :: p in r.value <==> p in db.careerPaths && p.userId == FixedUserId
  {
    if fault then ServerError("Failed to fetch career paths")
    else Ok(SortBy(Filter(db.careerPaths, OfUser()), NewestFirst))
  }

  /** GET /career-paths/:id */
  function GetPath(db: Database, id: int, fault: bool): (r: Response<CareerPath>)
    reads db
    ensures fault ==> r == ServerError("Failed to fetch career path")
    ensures !fault && !HasOwned(db.careerPaths, id, PathId, PathOwner) ==> r == NotFound("Career path not found")
    ensures !fault && HasOwned(db.careerPaths, id, PathId, PathOwner) ==> r.Ok?
    ensures r.Ok? ==> r.value in db.careerPaths && IsOwned(r.value, id, PathId, PathOwner)
  {
    if fault then ServerError("Failed to fetch career path")
    else
      match LookupOwned(db.careerPaths, id, PathId, PathOwner)
      case None => NotFound("Career path not found")
      case Some(p) => Ok(p)
  }

  /** PUT /career-paths/:id; an absent description or image URL clears the stored one. */
  method UpdatePath(db: Database, id: int, title: Option<string>, description: Option<string>,
                    imageUrl: Option<string>, now: Timestamp, fault: bool)
    returns (r: Response<PathEcho>)
    requires db.Valid()
    modifies db`careerPaths
    ensures db.Valid()
    ensures !IsTruthyText(title) ==> r == BadRequest("Title is required") && unchanged(db)
    ensures IsTruthyText(title) ==>
      if fault then
        r == ServerError("Failed to update career path") && unchanged(db)
      else if !HasOwned(old(db.careerPaths), id, PathId, PathOwner) then
        r == NotFound("Career path not found") && unchanged(db)
      else
        && r == Ok(PathEcho(id, title.value, description, imageUrl, now))
        && db.careerPaths == Revise(old(db.careerPaths), id, title.value, OrNull(description), OrNull(imageUrl), now)
  {
    if !IsTruthyText(title) {
      return BadRequest("Title is required");
    }
    if fault {
      return ServerError("Failed to update career path");
    }
    var affected := HasOwned(db.careerPaths, id, PathId, PathOwner);
    ReviseKeepsIds(db.careerPaths, id, title.value, OrNull(description), OrNull(imageUrl), now, db.nextPathId);
    db.careerPaths := Revise(db.careerPaths, id, title.value, OrNull(description), OrNull(imageUrl), now);
    if !affected {
      return NotFound("Career path not found");
    }
    r := Ok(PathEcho(id, title.value, description, imageUrl, now));
  }

  /** DELETE /career-paths/:id */
  method DeletePath(db: Database, id: int, fault: bool) returns (r: Response<string>)
    requires db.Valid()
    modifies db`careerPaths
    ensures db.Valid()
    ensures fault ==> r == ServerError("Failed to delete career path") && unchanged(db)
    ensures !fault && !HasOwned(old(db.careerPaths), id, PathId, PathOwner) ==>
      r == NotFound("Career path not found") && unchanged(db)
    ensures !fault && HasOwned(old(db.careerPaths), id, PathId, PathOwner) ==>
      && r == Ok("Career path deleted successfully")
      && db.careerPaths == RemoveOwned(old(db.careerPaths), id, PathId, PathOwner)
  {
    if fault {
      return ServerError("Failed to delete career path");
    }
    if !HasOwned(db.careerPaths, id, PathId, PathOwner) {
      return NotFound("Career path not found");
    }
    KeyedBelowFilter(db.careerPaths, NotOwned(id, PathId, PathOwner), PathId, db.nextPathId);
    db.careerPaths := RemoveOwned(db.careerPaths, id, PathId, PathOwner);
    r := Ok("Career path deleted successfully");
  }
}
