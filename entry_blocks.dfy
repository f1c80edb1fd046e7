/**
 * The `/entry-blocks` routes: content blocks of a journal entry, each at a position
 * chosen by the client. Deleting a block closes the gap it leaves by moving every later
 * block of the same entry up one place.
 */
module EntryBlocks {
  import opened Values
  import opened Seqs
  import opened Http
  import opened Tables

  /** The block kinds the `type` field may name. */
  const AllowedTypes: seq<string> := ["heading", "notes", "points", "attachment", "reference"]

  /** What a successful PUT echoes back. */
  datatype BlockEdit = BlockEdit(entryId: int, position: int, content: Content, updatedAt: Timestamp)

  // ---------------------------------------------------------------------------
  // The SQL statements, as functions of the `entry_blocks` table
  // ---------------------------------------------------------------------------

  /** `entry_id = e AND position = p` */
  predicate IsAt(b: Block, entryId: int, position: int)
  {
    b.entryId == entryId && b.position == position
  }

  function OfEntry(entryId: int): Block -> bool
  {
    (b: Block) => b.entryId == entryId
  }

  function NotAt(entryId: int, position: int): Block -> bool
  {
    (b: Block) => !IsAt(b, entryId, position)
  }

  function ByPosition(b: Block): int { b.position }

  /** The blocks of one entry, in storage order. */
  function RowsOf(blocks: seq<Block>, entryId: int): seq<Block>
  {
    Filter(blocks, OfEntry(entryId))
  }

  /** Whether a `WHERE entry_id = e AND position = p` statement matches a row. */
  predicate HasBlockAt(blocks: seq<Block>, entryId: int, position: int)
  {
    exists b :: b in blocks && IsAt(b, entryId, position)
  }

  /** `DELETE FROM entry_blocks WHERE entry_id = e AND position = p` */
  function DeleteAt(blocks: seq<Block>, entryId: int, position: int): (r: seq<Block>)
    ensures |r| <= |blocks|
    ensures forall b :: b in r <==> b in blocks && !IsAt(b, entryId, position)
  {
    Filter(blocks, NotAt(entryId, position))
  }

  /** One row of `SET position = position - 1 WHERE entry_id = e AND position > p`. */
  function Shifted(b: Block, entryId: int, position: int): Block
  {
    if b.entryId == entryId && b.position > position then b.(position := b.position - 1) else b
  }

  function ShiftFn(entryId: int, position: int): Block -> Block
  {
    (b: Block) => Shifted(b, entryId, position)
  }

  /** `UPDATE entry_blocks SET position = position - 1 WHERE entry_id = e AND position > p` */
  function ShiftDown(blocks: seq<Block>, entryId: int, position: int): (r: seq<Block>)
    ensures |r| == |blocks|
    ensures forall i :: 0 <= i < |r| ==> r[i].(position := blocks[i].position) == blocks[i]
    ensures forall i :: 0 <= i < |r| && blocks[i].entryId == entryId && blocks[i].position > position ==>
      r[i].position == blocks[i].position - 1
    ensures forall i :: 0 <= i < |r| && !(blocks[i].entryId == entryId && blocks[i].position > position) ==>
      r[i] == blocks[i]
  {
    MapSeq(blocks, ShiftFn(entryId, position))
  }

  function EditFn(entryId: int, position: int, content: Content, at: Timestamp): Block -> Block
  {
    (b: Block) => if IsAt(b, entryId, position) then b.(content := content, updatedAt := Some(at)) else b
  }

  /** `UPDATE entry_blocks SET content = c, updated_at = t WHERE entry_id = e AND position = p` */
  function UpdateAt(blocks: seq<Block>, entryId: int, position: int, content: Content, at: Timestamp): (r: seq<Block>)
    ensures |r| == |blocks|
    ensures forall i :: 0 <= i < |r| ==>
      && r[i].id == blocks[i].id && r[i].entryId == blocks[i].entryId
      && r[i].position == blocks[i].position && r[i].kind == blocks[i].kind
      && r[i].createdAt == blocks[i].createdAt
    ensures forall i :: 0 <= i < |r| && !IsAt(blocks[i], entryId, position) ==> r[i] == blocks[i]
    ensures forall i :: 0 <= i < |r| && IsAt(blocks[i], entryId, position) ==>
      r[i].content == content && r[i].updatedAt == Some(at)
    ensures !HasBlockAt(blocks, entryId, position) ==> r == blocks
  {
    var r := MapSeq(blocks, EditFn(entryId, position, content, at));
    assert !HasBlockAt(blocks, entryId, position) ==> r == blocks by {
      if !HasBlockAt(blocks, entryId, position) {
        forall i | 0 <= i < |r| ensures r[i] == blocks[i] {
          assert blocks[i] in blocks;
        }
      }
    }
    r
  }

  // ---------------------------------------------------------------------------
  // Contiguous positions
  // ---------------------------------------------------------------------------

  ghost predicate HasPosition(rows: seq<Block>, k: int)
  {
    exists i :: 0 <= i < |rows| && rows[i].position == k
  }

  /** The positions of `rows` are exactly 1..N, each once, where N = |rows|. */
  ghost predicate Dense(rows: seq<Block>)
  {
    && DistinctBy(rows, ByPosition)
    && (forall i :: 0 <= i < |rows| ==> 1 <= rows[i].position <= |rows|)
    && (forall k :: 1 <= k <= |rows| ==> HasPosition(rows, k))
  }

  /** The blocks of entry `entryId` sit at positions 1..N with no gap and no repeat. */
  ghost predicate Contiguous(blocks: seq<Block>, entryId: int)
  {
    Dense(RowsOf(blocks, entryId))
  }

  /** Deleting commutes with taking the rows of an entry. */
  lemma RowsOfDeleteAt(blocks: seq<Block>, entryId: int, position: int, other: int)
    ensures RowsOf(DeleteAt(blocks, entryId, position), other)
         == DeleteAt(RowsOf(blocks, other), entryId, position)
  {
    FilterCommutes(blocks, NotAt(entryId, position), OfEntry(other));
  }

  /** Shifting commutes with taking the rows of an entry (no row changes entry). */
  lemma RowsOfShiftDown(blocks: seq<Block>, entryId: int, position: int, other: int)
    ensures RowsOf(ShiftDown(blocks, entryId, position), other)
         == ShiftDown(RowsOf(blocks, other), entryId, position)
  {
    FilterMapCommutes(blocks, OfEntry(other), ShiftFn(entryId, position));
  }

  /** Rows of one entry with distinct positions lose exactly one row to a delete at a held position. */
  lemma DeleteAtRemovesOne(rows: seq<Block>, entryId: int, position: int)
    requires forall b :: b in rows ==> b.entryId == entryId
    requires DistinctBy(rows, ByPosition)
    requires HasPosition(rows, position)
    ensures |DeleteAt(rows, entryId, position)| == |rows| - 1
  {
    var i :| 0 <= i < |rows| && rows[i].position == position;
    assert rows[i] in rows && !NotAt(entryId, position)(rows[i]);
    FilterDropsOne(rows, NotAt(entryId, position), ByPosition, position);
  }

  /**
   * Among rows of one entry that avoid the deleted position, moving the later ones up one
   * place keeps their order by position.
   */
  lemma ShiftKeepsOrder(kept: seq<Block>, entryId: int, position: int)
    requires forall i :: 0 <= i < |kept| ==> kept[i].entryId == entryId && kept[i].position != position
    ensures var after := ShiftDown(kept, entryId, position);
            forall i, j :: 0 <= i < |after| && 0 <= j < |after| ==>
              (kept[i].position < kept[j].position <==> after[i].position < after[j].position)
  {
    var after := ShiftDown(kept, entryId, position);
    forall i, j | 0 <= i < |after| && 0 <= j < |after|
      ensures kept[i].position < kept[j].position <==> after[i].position < after[j].position
    {
      assert after[i] == Shifted(kept[i], entryId, position);
      assert after[j] == Shifted(kept[j], entryId, position);
    }
  }

  /** The rows a delete at a held position keeps: same entry, other positions, still in 1..N. */
  lemma KeptRowsInRange(rows: seq<Block>, entryId: int, position: int)
    requires forall b :: b in rows ==> b.entryId == entryId
    requires forall i :: 0 <= i < |rows| ==> 1 <= rows[i].position <= |rows|
    ensures var kept := DeleteAt(rows, entryId, position);
            forall i :: 0 <= i < |kept| ==>
              && kept[i].entryId == entryId && kept[i].position != position
              && 1 <= kept[i].position <= |rows|
  {
    var kept := DeleteAt(rows, entryId, position);
    forall i | 0 <= i < |kept|
      ensures kept[i].entryId == entryId && kept[i].position != position
      ensures 1 <= kept[i].position <= |rows|
    {
      assert kept[i] in kept;
      var j :| 0 <= j < |rows| && rows[j] == kept[i];
    }
  }

  /** After delete-then-shift, every position 1..N-1 is held. */
  lemma ShiftCoversPositions(rows: seq<Block>, entryId: int, position: int)
    requires forall b :: b in rows ==> b.entryId == entryId
    requires Dense(rows)
    requires HasPosition(rows, position)
    ensures var after := ShiftDown(DeleteAt(rows, entryId, position), entryId, position);
            forall k :: 1 <= k < |rows| ==> HasPosition(after, k)
  {
    var kept := DeleteAt(rows, entryId, position);
    var after := ShiftDown(kept, entryId, position);
    var n := |rows|;
    forall k | 1 <= k < n
      ensures HasPosition(after, k)
    {
      var target := if k < position then k else k + 1;
      assert HasPosition(rows, target);
      var i :| 0 <= i < n && rows[i].position == target;
      assert rows[i] in kept;
      var j :| 0 <= j < |kept| && kept[j] == rows[i];
      assert after[j].position == k;
    }
  }

  /**
   * Delete-then-shift on the rows of one entry: positions 1..N become 1..N-1, and the
   * survivors keep their order by position.
   */
  lemma DeleteShiftKeepsDense(rows: seq<Block>, entryId: int, position: int)
    requires forall b :: b in rows ==> b.entryId == entryId
    requires Dense(rows)
    requires HasPosition(rows, position)
    ensures var kept := DeleteAt(rows, entryId, position);
            var after := ShiftDown(kept, entryId, position);
            && Dense(after)
            && |after| == |rows| - 1
            && (forall i, j :: 0 <= i < |after| && 0 <= j < |after| ==>
                  (kept[i].position < kept[j].position <==> after[i].position < after[j].position))
  {
    var kept := DeleteAt(rows, entryId, position);
    var after := ShiftDown(kept, entryId, position);
    DeleteAtRemovesOne(rows, entryId, position);
    FilterKeepsDistinct(rows, NotAt(entryId, position), ByPosition);
    var i0 :| 0 <= i0 < |rows| && rows[i0].position == position;
    KeptRowsInRange(rows, entryId, position);
    ShiftKeepsOrder(kept, entryId, position);
    ShiftCoversPositions(rows, entryId, position);
    assert DistinctBy(after, ByPosition) by {
      forall i, j | 0 <= i < j < |after|
        ensures ByPosition(after[i]) != ByPosition(after[j])
      {
        assert ByPosition(kept[i]) != ByPosition(kept[j]);
      }
    }
    forall i | 0 <= i < |after| ensures 1 <= after[i].position <= |after| {
      assert after[i] == Shifted(kept[i], entryId, position);
    }
  }

  /**
   * DELETE keeps an entry's positions contiguous: 1..N become 1..N-1, the deleted block's
   * entry loses one block, and the blocks of every other entry are untouched.
   */
  lemma DeleteKeepsContiguous(blocks: seq<Block>, entryId: int, position: int)
    requires Contiguous(blocks, entryId)
    requires HasBlockAt(blocks, entryId, position)
    ensures var after := ShiftDown(DeleteAt(blocks, entryId, position), entryId, position);
            && Contiguous(after, entryId)
            && |RowsOf(after, entryId)| == |RowsOf(blocks, entryId)| - 1
            && (forall other :: other != entryId ==> RowsOf(after, other) == RowsOf(blocks, other))
  {
    var rows := RowsOf(blocks, entryId);
    var kept := DeleteAt(blocks, entryId, position);
    var after := ShiftDown(kept, entryId, position);
    RowsOfShiftDown(kept, entryId, position, entryId);
    RowsOfDeleteAt(blocks, entryId, position, entryId);
    var b :| b in blocks && IsAt(b, entryId, position);
    assert b in rows;
    DeleteShiftKeepsDense(rows, entryId, position);
    forall other | other != entryId
      ensures RowsOf(after, other) == RowsOf(blocks, other)
    {
      var mine := RowsOf(blocks, other);
      RowsOfShiftDown(kept, entryId, position, other);
      RowsOfDeleteAt(blocks, entryId, position, other);
      FilterKeepsAll(mine, NotAt(entryId, position));
      var shifted := ShiftDown(mine, entryId, position);
      forall i | 0 <= i < |mine| ensures shifted[i] == mine[i] {
        assert mine[i] in mine;
      }
    }
  }

  /**
   * What DELETE does to each block: the ones at `position` of the entry go, later
   * ones of that entry move up one place, every other block stays as it was.
   */
  lemma DeleteShiftEffect(blocks: seq<Block>, entryId: int, position: int)
    ensures var after := ShiftDown(DeleteAt(blocks, entryId, position), entryId, position);
            && (forall b :: b in blocks && b.entryId != entryId ==> b in after)
            && (forall b :: b in blocks && b.entryId == entryId && b.position < position ==> b in after)
            && (forall b :: b in blocks && b.entryId == entryId && b.position > position ==>
                  b.(position := b.position - 1) in after)
            && (forall x :: x in after ==>
                  exists b :: b in blocks && !IsAt(b, entryId, position) && x == Shifted(b, entryId, position))
            && |after| <= |blocks|
  {
    var kept := DeleteAt(blocks, entryId, position);
    var after := ShiftDown(kept, entryId, position);
    forall b | b in kept ensures Shifted(b, entryId, position) in after {
      var j :| 0 <= j < |kept| && kept[j] == b;
      assert after[j] == Shifted(b, entryId, position);
    }
    forall x | x in after
      ensures exists b :: b in blocks && !IsAt(b, entryId, position) && x == Shifted(b, entryId, position)
    {
      var j :| 0 <= j < |after| && after[j] == x;
      assert kept[j] in kept;
    }
  }

  /** Rows 1..N lose their density to a delete below N that is not followed by the shift. */
  lemma DeleteBelowTopLeavesGap(rows: seq<Block>, entryId: int, position: int)
    requires forall b :: b in rows ==> b.entryId == entryId
    requires Dense(rows)
    requires HasPosition(rows, position)
    requires position < |rows|
    ensures !Dense(DeleteAt(rows, entryId, position))
  {
    var n := |rows|;
    DeleteAtRemovesOne(rows, entryId, position);
    var kept := DeleteAt(rows, entryId, position);
    assert HasPosition(rows, n);
    var i :| 0 <= i < n && rows[i].position == n;
    assert NotAt(entryId, position)(rows[i]);
    assert rows[i] in kept;
    var j :| 0 <= j < |kept| && kept[j] == rows[i];
    assert !(kept[j].position <= |kept|);
  }

  /**
   * If the shift fails after the delete (its error is only logged), a block deleted
   * anywhere but the last position leaves a gap.
   */
  lemma SkippedShiftLeavesGap(blocks: seq<Block>, entryId: int, position: int)
    requires Contiguous(blocks, entryId)
    requires HasBlockAt(blocks, entryId, position)
    requires position < |RowsOf(blocks, entryId)|
    ensures !Contiguous(DeleteAt(blocks, entryId, position), entryId)
  {
    var rows := RowsOf(blocks, entryId);
    RowsOfDeleteAt(blocks, entryId, position, entryId);
    var b :| b in blocks && IsAt(b, entryId, position);
    assert b in rows;
    DeleteBelowTopLeavesGap(rows, entryId, position);
  }

  /**
   * POST stores the client's position as given: appending to a contiguous entry keeps it
   * contiguous exactly when the new position is N+1.
   */
  lemma AppendKeepsContiguousIff(blocks: seq<Block>, b: Block)
    requires Contiguous(blocks, b.entryId)
    ensures Contiguous(blocks + [b], b.entryId) <==> b.position == |RowsOf(blocks, b.entryId)| + 1
  {
    var rows := RowsOf(blocks, b.entryId);
    var n := |rows|;
    assert (blocks + [b])[..|blocks|] == blocks;
    var grown := RowsOf(blocks + [b], b.entryId);
    assert grown == rows + [b];
    if b.position == n + 1 {
      forall i, j | 0 <= i < j < |grown| ensures ByPosition(grown[i]) != ByPosition(grown[j]) {
        if j == n {
          assert grown[i] == rows[i];
        } else {
          assert ByPosition(rows[i]) != ByPosition(rows[j]);
        }
      }
      forall k | 1 <= k <= |grown| ensures HasPosition(grown, k) {
        if k <= n {
          assert HasPosition(rows, k);
          var i :| 0 <= i < n && rows[i].position == k;
          assert grown[i] == rows[i];
        } else {
          assert grown[n].position == k;
        }
      }
    }
    if Dense(grown) {
      assert grown[n] == b;
      forall i | 0 <= i < n ensures rows[i].position != b.position {
        assert grown[i] == rows[i];
        assert ByPosition(grown[i]) != ByPosition(grown[n]);
      }
      assert !HasPosition(rows, b.position);
    }
  }

  /** Editing a block's content moves no block, so it keeps every entry's positions. */
  lemma UpdateKeepsContiguous(blocks: seq<Block>, entryId: int, position: int, content: Content, at: Timestamp, other: int)
    ensures Contiguous(UpdateAt(blocks, entryId, position, content, at), other) <==> Contiguous(blocks, other)
  {
    var edit := EditFn(entryId, position, content, at);
    FilterMapCommutes(blocks, OfEntry(other), edit);
    var rows := RowsOf(blocks, other);
    var edited := MapSeq(rows, edit);
    assert RowsOf(UpdateAt(blocks, entryId, position, content, at), other) == edited;
    SamePositionsSameDensity(rows, edited);
  }

  /** Density depends on the positions alone. */
  lemma SamePositionsSameDensity(a: seq<Block>, b: seq<Block>)
    requires |a| == |b|
    requires forall i :: 0 <= i < |a| ==> a[i].position == b[i].position
    ensures Dense(a) <==> Dense(b)
  {
    assert forall k :: HasPosition(a, k) <==> HasPosition(b, k);
    assert DistinctBy(a, ByPosition) <==> DistinctBy(b, ByPosition);
  }

  /** A GET on a contiguous entry lists its blocks at positions 1, 2, ..., N in that order. */
  lemma ListedContiguousIsNumbered(blocks: seq<Block>, entryId: int)
    requires Contiguous(blocks, entryId)
    ensures var listed := SortBy(RowsOf(blocks, entryId), ByPosition);
            forall i :: 0 <= i < |listed| ==> listed[i].position == i + 1
  {
    var rows := RowsOf(blocks, entryId);
    var listed := SortBy(rows, ByPosition);
    SortByKeepsDistinct(rows, ByPosition);
    assert |listed| == |rows| by {
      assert |multiset(listed)| == |multiset(rows)|;
    }
    forall i | 0 <= i < |listed| ensures 1 <= listed[i].position <= |listed| {
      assert listed[i] in rows;
    }
    forall i | 0 <= i < |listed| ensures listed[i].position == i + 1 {
      StrictlyIncreasingBounds(listed, i);
    }
  }

  /** Strictly increasing positions within 1..N leave position i+1 at index i. */
  lemma {:induction false} StrictlyIncreasingBounds(rows: seq<Block>, i: nat)
    requires SortedBy(rows, ByPosition) && DistinctBy(rows, ByPosition)
    requires forall j :: 0 <= j < |rows| ==> 1 <= rows[j].position <= |rows|
    requires i < |rows|
    ensures rows[i].position == i + 1
  {
    AtLeastIndex(rows, i);
    AtMostIndex(rows, i);
  }

  lemma {:induction false} AtLeastIndex(rows: seq<Block>, i: nat)
    requires SortedBy(rows, ByPosition) && DistinctBy(rows, ByPosition)
    requires forall j :: 0 <= j < |rows| ==> 1 <= rows[j].position
    requires i < |rows|
    ensures rows[i].position >= i + 1
  {
    if i > 0 {
      AtLeastIndex(rows, i - 1);
      assert ByPosition(rows[i - 1]) <= ByPosition(rows[i]);
      assert ByPosition(rows[i - 1]) != ByPosition(rows[i]);
    }
  }

  lemma {:induction false} AtMostIndex(rows: seq<Block>, i: nat)
    requires SortedBy(rows, ByPosition) && DistinctBy(rows, ByPosition)
    requires forall j :: 0 <= j < |rows| ==> rows[j].position <= |rows|
    requires i < |rows|
    ensures rows[i].position <= i + 1
    decreases |rows| - i
  {
    if i + 1 < |rows| {
      AtMostIndex(rows, i + 1);
      assert ByPosition(rows[i]) <= ByPosition(rows[i + 1]);
      assert ByPosition(rows[i]) != ByPosition(rows[i + 1]);
    }
  }

  // ---------------------------------------------------------------------------
  // Handlers
  // ---------------------------------------------------------------------------

  /** POST /entry-blocks */
  method CreateBlock(db: Database, entryId: Option<int>, kind: Option<string>, position: Option<int>,
                     content: Option<Content>, now: Timestamp, fault: bool)
    returns (r: Response<Block>)
    requires db.Valid()
    modifies db`entryBlocks, db`nextBlockId
    ensures db.Valid()
    ensures r.Status() != 201 ==> unchanged(db)
    ensures !(IsTruthyNumber(entryId) && IsTruthyText(kind) && IsTruthyNumber(position) && content.Some?) ==>
      r == BadRequest("Missing required fields") && unchanged(db)
    ensures IsTruthyNumber(entryId) && IsTruthyText(kind) && IsTruthyNumber(position) && content.Some? ==>
      if kind.value !in AllowedTypes then
        r == BadRequest("Invalid block type") && unchanged(db)
      else if fault then
        r == ServerError("Failed to create entry block") && unchanged(db)
      else
        && r == Created(Block(old(db.nextBlockId), entryId.value, kind.value, position.value, content.value, now, None))
        && db.entryBlocks == old(db.entryBlocks) + [r.value]
        && db.nextBlockId == old(db.nextBlockId) + 1
  {
    if !IsTruthyNumber(entryId) || !IsTruthyText(kind) || !IsTruthyNumber(position) || content.None? {
      return BadRequest("Missing required fields");
    }
    if kind.value !in AllowedTypes {
      return BadRequest("Invalid block type");
    }
    if fault {
      return ServerError("Failed to create entry block");
    }
    var block := Block(db.nextBlockId, entryId.value, kind.value, position.value, content.value, now, None);
    KeyedBelowAppend(db.entryBlocks, BlockId, db.nextBlockId, block);
    db.entryBlocks := db.entryBlocks + [block];
    db.nextBlockId := db.nextBlockId + 1;
    r := Created(block);
  }

  /** GET /entry-blocks?entry_id=e; an absent or empty query parameter is `None`. */
  function ListBlocks(db: Database, entryId: Option<int>, fault: bool): (r: Response<seq<Block>>)
    reads db
    ensures entryId.None? ==> r == BadRequest("entry_id is required")
    ensures entryId.Some? && fault ==> r == ServerError("Failed to fetch entry blocks")
    ensures entryId.Some? && !fault ==> r.Ok?
    ensures r.Ok? ==> SortedBy(r.value, ByPosition)
    ensures r.Ok? ==> multiset(r.value) == multiset(RowsOf(db.entryBlocks, entryId.value))
    ensures r.Ok? ==> forall b :: b in r.value <==> b in db.entryBlocks && b.entryId == entryId.value
  {
    if entryId.None? then BadRequest("entry_id is required")
    else if fault then ServerError("Failed to fetch entry blocks")
    else Ok(SortBy(RowsOf(db.entryBlocks, entryId.value), ByPosition))
  }

  /** PUT /entry-blocks */
  method UpdateBlock(db: Database, entryId: Option<int>, position: Option<int>, content: Option<Content>,
                     now: Timestamp, fault: bool)
    returns (r: Response<BlockEdit>)
    requires db.Valid()
    modifies db`entryBlocks
    ensures db.Valid()
    ensures !(IsTruthyNumber(entryId) && IsTruthyNumber(position) && content.Some?) ==>
      r == BadRequest("entry_id, position and content are required") && unchanged(db)
    ensures IsTruthyNumber(entryId) && IsTruthyNumber(position) && content.Some? ==>
      if fault then
        r == ServerError("Failed to update block") && unchanged(db)
      else if !HasBlockAt(old(db.entryBlocks), entryId.value, position.value) then
        r == NotFound("Block not found at that position") && unchanged(db)
      else
        && r == Ok(BlockEdit(entryId.value, position.value, content.value, now))
        && db.entryBlocks == UpdateAt(old(db.entryBlocks), entryId.value, position.value, content.value, now)
  {
    if !IsTruthyNumber(entryId) || !IsTruthyNumber(position) || content.None? {
      return BadRequest("entry_id, position and content are required");
    }
    if fault {
      return ServerError("Failed to update block");
    }
    var e, p := entryId.value, position.value;
    var affected := HasBlockAt(db.entryBlocks, e, p);
    db.entryBlocks := UpdateAt(db.entryBlocks, e, p, content.value, now);
    if !affected {
      return NotFound("Block not found at that position");
    }
    r := Ok(BlockEdit(e, p, content.value, now));
  }

  /** The first statement of DELETE, row by row: the rows it keeps and how many it removed. */
  method DeleteRows(blocks: seq<Block>, entryId: int, position: int) returns (kept: seq<Block>, affectedRows: nat)
    ensures kept == DeleteAt(blocks, entryId, position)
    ensures affectedRows == 0 <==> !HasBlockAt(blocks, entryId, position)
    ensures affectedRows == |blocks| - |kept|
  {
    kept, affectedRows := [], 0;
    var i := 0;
    while i < |blocks|
      invariant 0 <= i <= |blocks|
      invariant kept == DeleteAt(blocks[..i], entryId, position)
      invariant affectedRows == i - |kept|
      invariant affectedRows == 0 <==> !HasBlockAt(blocks[..i], entryId, position)
    {
      assert blocks[..i + 1] == blocks[..i] + [blocks[i]];
      assert blocks[..i + 1][..i] == blocks[..i];
      if IsAt(blocks[i], entryId, position) {
        affectedRows := affectedRows + 1;
      } else {
        kept := kept + [blocks[i]];
      }
      i := i + 1;
    }
    assert blocks[..i] == blocks;
  }

  /** The second statement of DELETE, row by row: later blocks of the entry move up one place. */
  method ShiftRows(blocks: seq<Block>, entryId: int, position: int) returns (shifted: seq<Block>)
    ensures shifted == ShiftDown(blocks, entryId, position)
  {
    shifted := [];
    var i := 0;
    while i < |blocks|
      invariant 0 <= i <= |blocks|
      invariant |shifted| == i
      invariant forall k :: 0 <= k < i ==> shifted[k] == Shifted(blocks[k], entryId, position)
    {
      var b := blocks[i];
      if b.entryId == entryId && b.position > position {
        b := b.(position := b.position - 1);
      }
      shifted := shifted + [b];
      i := i + 1;
    }
  }

  /**
   * DELETE /entry-blocks: deletes the block at (entry, position), then moves the later
   * blocks of that entry up. A failure of the second statement is only logged.
   */
  method DeleteBlock(db: Database, entryId: Option<int>, position: Option<int>, fault: bool, shiftFault: bool)
    returns (r: Response<()>)
    requires db.Valid()
    modifies db`entryBlocks
    ensures db.Valid()
    ensures !(IsTruthyNumber(entryId) && IsTruthyNumber(position)) ==>
      r == BadRequest("entry_id and position are required") && unchanged(db)
    ensures IsTruthyNumber(entryId) && IsTruthyNumber(position) ==>
      var e, p := entryId.value, position.value;
      if fault then
        r == ServerError("Failed to delete block") && unchanged(db)
      else if !HasBlockAt(old(db.entryBlocks), e, p) then
        r == NotFound("Block not found at that position") && unchanged(db)
      else
        && r == Ok(())
        && db.entryBlocks == if shiftFault then DeleteAt(old(db.entryBlocks), e, p)
                             else ShiftDown(DeleteAt(old(db.entryBlocks), e, p), e, p)
  {
    if !IsTruthyNumber(entryId) || !IsTruthyNumber(position) {
      return BadRequest("entry_id and position are required");
    }
    if fault {
      return ServerError("Failed to delete block");
    }
    var e, p := entryId.value, position.value;
    var blocks := db.entryBlocks;
    var kept, affectedRows := DeleteRows(blocks, e, p);
    KeyedBelowFilter(blocks, NotAt(e, p), BlockId, db.nextBlockId);
    db.entryBlocks := kept;
    if affectedRows == 0 {
      FilterKeepsAll(blocks, NotAt(e, p));
      return NotFound("Block not found at that position");
    }
    if shiftFault {
      return Ok(());
    }
    var shifted := ShiftRows(kept, e, p);
    assert forall k :: 0 <= k < |kept| ==> BlockId(shifted[k]) == BlockId(kept[k]);
    db.entryBlocks := shifted;
    r := Ok(());
  }
}
