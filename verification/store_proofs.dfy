/** How the persistence helpers of db.js fit together: a saved message is
    listed newest and can be deleted again by its owner, an inserted image
    can be deleted once and yields its path, and ownership isolates users. */
module StoreProofs {
  import opened Wrappers
  import opened Rows
  import opened Store

  /** Deleting from a table grown by one row at the end. */
  lemma {:induction false} RemoveAppend<P>(s: seq<Row<P>>, x: Row<P>, id: int, owner: string)
    ensures Remove(s + [x], id, owner) == Remove(s, id, owner) + (if Matches(x, id, owner) then [] else [x])
  {
    if |s| == 0 {
      assert s + [x] == [x];
    } else {
      var sx := s + [x];
      assert sx[0] == s[0] && sx[1..] == s[1..] + [x];
      RemoveAppend(s[1..], x, id, owner);
      if Matches(s[0], id, owner) {
        assert Remove(sx, id, owner) == Remove(sx[1..], id, owner);
      } else {
        assert Remove(sx, id, owner) == [s[0]] + Remove(sx[1..], id, owner);
        assert Remove(s, id, owner) == [s[0]] + Remove(s[1..], id, owner);
      }
    }
  }

  /** Rows stored before an insert all have smaller ids than the new one. */
  lemma OlderIds<P>(t: Table<P>)
    requires t.Valid()
    ensures forall k :: 0 <= k < |t.rows| ==> t.rows[k].id != t.nextId
  {
  }

  /** deleteMessage undoes saveMessage: the owner deleting the saved id
      removes exactly that row and leaves the earlier rows as they were. */
  lemma {:induction false} SaveThenDelete(t: Table<string>, username: string, body: string, now: Timestamp)
    requires t.Valid()
    ensures var saved := SaveMessage(t, username, body, now);
      DeleteMessage(saved.0, saved.1.id, saved.1.owner) == (Table(t.rows, saved.0.nextId), 1)
  {
    var saved := SaveMessage(t, username, body, now);
    RemoveNewest(t.rows, saved.1, t.nextId);
    DeleteMessageKeeps(saved.0, saved.1.id, saved.1.owner);
  }

  /** Deleting by the id of a row appended with a fresh id takes away
      exactly that row. */
  lemma {:induction false} RemoveNewest<P>(rows: seq<Row<P>>, row: Row<P>, nextId: int)
    requires Table(rows, nextId).Valid()
    requires row.id == nextId
    ensures Remove(rows + [row], row.id, row.owner) == rows
  {
    RemoveAppend(rows, row, row.id, row.owner);
    OlderIds(Table(rows, nextId));
    RemoveNothing(rows, row.id, row.owner);
  }

  /** A row appended with the largest id and a time no earlier than any
      stored one sorts before every other row. */
  lemma AppendedIsNewest<P>(t: Table<P>, row: Row<P>)
    requires t.Valid()
    requires row.id == t.nextId
    requires forall k :: 0 <= k < |t.rows| ==> t.rows[k].createdAt <= row.createdAt
    ensures forall x :: x in t.rows + [row] && x != row ==> Newer(row, x)
  {
    forall x | x in t.rows + [row] && x != row ensures Newer(row, x) {
      assert x in t.rows;
      var k :| 0 <= k < |t.rows| && t.rows[k] == x;
    }
  }

  /** A message saved at a time no earlier than anything stored is the last
      (newest) entry of its owner's listing, whatever the limit (at least 1). */
  lemma {:induction false} SavedMessageListedLast(t: Table<string>, username: string, body: string, now: Timestamp, limit: nat)
    requires t.Valid()
    requires limit >= 1
    requires forall k :: 0 <= k < |t.rows| ==> t.rows[k].createdAt <= now
    ensures var saved := SaveMessage(t, username, body, now);
      var listed := ListMessages(saved.0, saved.1.owner, limit);
      |listed| >= 1 && listed[|listed| - 1] == saved.1
  {
    var saved := SaveMessage(t, username, body, now);
    TopHoldsNewest(t, saved.1, limit);
  }

  /** A non-empty listing that keeps every row of its owner newer than a
      listed one holds the owner's newest row. */
  lemma NewestIsListed<P>(listed: seq<Row<P>>, rows: seq<Row<P>>, row: Row<P>)
    requires |listed| >= 1
    requires forall x :: x in listed ==> x in rows
    requires forall x, y :: x in listed && y in rows && y.owner == row.owner && Newer(y, x) ==> y in listed
    requires row in rows
    requires forall x :: x in rows && x != row ==> Newer(row, x)
    ensures row in listed
  {
    assert listed[0] in listed;
  }

  /** The delete-then-path scenario: an inserted image is deleted by its
      owner with affected count 1 and its stored path; a second delete of the
      same id finds nothing and returns `{0, null}`. */
  lemma {:induction false} InsertThenDeleteImage(t: Table<ImageFile>, username: string, file: ImageFile, now: Timestamp)
    requires t.Valid()
    ensures var t1 := InsertImage(t, username, file, now);
      var (t2, first) := DeleteImage(t1, t.nextId, username);
      && first == Deleted(1, Some(file.path))
      && t2.rows == t.rows
      && DeleteImage(t2, t.nextId, username) == (t2, Deleted(0, None))
  {
    var t1 := InsertImage(t, username, file, now);
    var row := Row(t.nextId, username, file, now);
    OlderIds(t);
    var hit := FirstMatch(t1.rows, t.nextId, username);
    assert t1.rows[|t.rows|] == row;
    assert hit.Some?;
    assert hit.value == row;
    RemoveNewest(t.rows, row, t.nextId);
    var (t2, first) := DeleteImage(t1, t.nextId, username);
    assert t2.rows == t.rows;
    assert first == Deleted(1, Some(file.path));
  }

  /** Ownership isolation: another user deleting a row's id removes nothing,
      and another user's listing never holds it. */
  lemma OtherOwnerIsolated(t: Table<string>, k: nat, other: string, limit: nat)
    requires t.Valid()
    requires k < |t.rows|
    requires t.rows[k].owner != other
    ensures DeleteMessage(t, t.rows[k].id, other) == (t, 0)
    ensures t.rows[k] !in ListMessages(t, other, limit)
  {
    var id := t.rows[k].id;
    forall x | x in t.rows ensures !Matches(x, id, other) {
      var j :| 0 <= j < |t.rows| && t.rows[j] == x;
      if j != k {
        assert t.rows[j].id != id;
      }
    }
  }

  /** In a newest-first listing, a row newer than every other row is first. */
  lemma {:induction false} NewestIsFirst<P>(listed: seq<Row<P>>, row: Row<P>)
    requires NewestFirst(listed)
    requires row in listed
    requires forall x :: x in listed && x != row ==> Newer(row, x)
    ensures listed[0] == row
  {
    var first := listed[0];
    assert first in listed;
  }

  /** An image inserted at a time no earlier than anything stored is the
      first (newest) entry of its owner's listing, whatever the limit (at
      least 1). */
  lemma {:induction false} InsertedImageListedFirst(t: Table<ImageFile>, username: string, file: ImageFile, now: Timestamp, limit: nat)
    requires t.Valid()
    requires limit >= 1
    requires forall k :: 0 <= k < |t.rows| ==> t.rows[k].createdAt <= now
    ensures var listed := ListImages(InsertImage(t, username, file, now), username, limit);
      |listed| >= 1 && listed[0] == Row(t.nextId, username, file, now)
  {
    var row := Row(t.nextId, username, file, now);
    TopHoldsNewest(t, row, limit);
  }

  /** The owner's newest row heads the TOP-n selection, for any n >= 1. */
  lemma {:induction false} TopHoldsNewest<P(!new)>(t: Table<P>, row: Row<P>, limit: nat)
    requires t.Valid()
    requires limit >= 1
    requires row.id == t.nextId
    requires forall k :: 0 <= k < |t.rows| ==> t.rows[k].createdAt <= row.createdAt
    ensures var top := Top(t.rows + [row], row.owner, limit);
      |top| >= 1 && top[0] == row
  {
    AppendedIsNewest(t, row);
    var rows := t.rows + [row];
    var top := Top(rows, row.owner, limit);
    assert |top| >= 1 by {
      assert row in OwnedBy(rows, row.owner);
    }
    NewestIsListed(top, rows, row);
    NewestIsFirst(top, row);
  }
}
