/** The owner-scoped persistence helpers of db.js (saveMessage,
    listMessages, deleteMessage, listImages, deleteImage) and the image
    INSERT of the upload route. Each table is a sequence of rows plus the
    next value of its IDENTITY(1,1) column; SQL execution is replaced by
    pure functions over that value. */
module Store {
  import opened Wrappers
  import opened Rows

  /** `limit = 50` in listMessages and listImages. */
  const DefaultLimit: nat := 50

  const Anonymous: string := "anonymous"

  /** The columns of an Images row besides Id, username and CreatedAt. */
  datatype ImageFile = ImageFile(filename: string, originalname: string, path: string, size: int, mimetype: string)

  /** A table: its rows and the value its IDENTITY column hands out next. */
  datatype Table<P> = Table(rows: seq<Row<P>>, nextId: int) {

    /** Id is the primary key, and IDENTITY only counts upwards. */
    ghost predicate Valid() {
      && UniqueIds(rows)
      && (forall i :: 0 <= i < |rows| ==> rows[i].id < nextId)
    }
  }

  ghost predicate UniqueIds<P>(rows: seq<Row<P>>) {
    forall i, j :: 0 <= i < j < |rows| ==> rows[i].id != rows[j].id
  }

  /** The owner stored by saveMessage: `username || 'anonymous'`. */
  function Owner(username: string): (r: string)
    ensures r != ""
    ensures username != "" ==> r == username
    ensures username == "" ==> r == Anonymous
  {
    if username == "" then Anonymous else username
  }

  /** INSERT ... OUTPUT inserted.*: appends one row and returns it. The body
      is stored as given; nothing here checks it. */
  function SaveMessage(t: Table<string>, username: string, body: string, now: Timestamp): (res: (Table<string>, Row<string>))
    ensures res.0.rows == t.rows + [res.1]
    ensures res.0.nextId > t.nextId
    ensures res.1.id == t.nextId && res.1.owner != "" && res.1.payload == body && res.1.createdAt == now
    ensures username != "" ==> res.1.owner == username
    ensures t.Valid() ==> res.0.Valid()
  {
    var row := Row(t.nextId, Owner(username), body, now);
    (Table(t.rows + [row], t.nextId + 1), row)
  }

  /** The image INSERT of the upload route (server.js:234-235); the owner is
      the session user as given. */
  function InsertImage(t: Table<ImageFile>, username: string, file: ImageFile, now: Timestamp): (r: Table<ImageFile>)
    ensures r.rows == t.rows + [Row(t.nextId, username, file, now)]
    ensures r.nextId > t.nextId
    ensures t.Valid() ==> r.Valid()
  {
    Table(t.rows + [Row(t.nextId, username, file, now)], t.nextId + 1)
  }

  /** `WHERE Id = @id AND username = @username`. */
  predicate Matches<P>(x: Row<P>, id: int, owner: string) {
    x.id == id && x.owner == owner
  }

  /** DELETE ... WHERE Id = @id AND owner = @username, on the rows alone. */
  function Remove<P>(s: seq<Row<P>>, id: int, owner: string): (r: seq<Row<P>>)
    ensures |r| <= |s|
  {
    if |s| == 0 then []
    else
      if Matches(s[0], id, owner) then Remove(s[1..], id, owner)
      else [s[0]] + Remove(s[1..], id, owner)
  }

  /** The rows left are exactly the rows that did not match. */
  lemma {:induction false} RemoveMembers<P>(s: seq<Row<P>>, id: int, owner: string)
    ensures forall x :: x in Remove(s, id, owner) ==> x in s && !Matches(x, id, owner)
    ensures forall x :: x in s && !Matches(x, id, owner) ==> x in Remove(s, id, owner)
  {
    if |s| > 0 {
      RemoveMembers(s[1..], id, owner);
      assert s == [s[0]] + s[1..];
    }
  }

  /** Each row keeps its multiplicity unless it matched, and then it has none. */
  lemma {:induction false} RemoveMultiset<P>(s: seq<Row<P>>, id: int, owner: string)
    ensures forall x :: multiset(Remove(s, id, owner))[x] == if Matches(x, id, owner) then 0 else multiset(s)[x]
  {
    if |s| > 0 {
      RemoveMultiset(s[1..], id, owner);
      assert s == [s[0]] + s[1..];
    }
  }

  /** Nothing is removed exactly when nothing matches, and then nothing changes. */
  lemma {:induction false} RemoveNothing<P>(s: seq<Row<P>>, id: int, owner: string)
    ensures |Remove(s, id, owner)| == |s| <==> forall k :: 0 <= k < |s| ==> !Matches(s[k], id, owner)
    ensures (forall k :: 0 <= k < |s| ==> !Matches(s[k], id, owner)) ==> Remove(s, id, owner) == s
  {
    if |s| > 0 {
      var tail := s[1..];
      RemoveNothing(tail, id, owner);
      if Matches(s[0], id, owner) {
        assert Remove(s, id, owner) == Remove(tail, id, owner);
      } else {
        assert Remove(s, id, owner) == [s[0]] + Remove(tail, id, owner);
        assert (forall k :: 0 <= k < |s| ==> !Matches(s[k], id, owner))
           <==> (forall k :: 0 <= k < |tail| ==> !Matches(tail[k], id, owner)) by {
          assert forall k :: 0 <= k < |tail| ==> tail[k] == s[k + 1];
          forall k | 0 < k < |s| ensures s[k] == tail[k - 1] {}
        }
        assert s == [s[0]] + tail;
      }
    }
  }

  /** With Id as the key at most one row goes, and the keys stay unique. */
  lemma {:induction false} RemoveUnique<P>(s: seq<Row<P>>, id: int, owner: string)
    requires UniqueIds(s)
    ensures UniqueIds(Remove(s, id, owner))
    ensures |s| - |Remove(s, id, owner)| <= 1
  {
    if |s| > 0 {
      var tail := s[1..];
      assert UniqueIds(tail) by {
        forall i, j | 0 <= i < j < |tail| ensures tail[i].id != tail[j].id {
          assert tail[i] == s[i + 1] && tail[j] == s[j + 1];
        }
      }
      RemoveUnique(tail, id, owner);
      var rest := Remove(tail, id, owner);
      if Matches(s[0], id, owner) {
        forall k | 0 <= k < |tail| ensures !Matches(tail[k], id, owner) {
          assert tail[k] == s[k + 1];
        }
        RemoveNothing(tail, id, owner);
      } else {
        RemoveMembers(tail, id, owner);
        assert s == [s[0]] + tail;
        assert forall x :: x in rest ==> x in tail;
        UniqueCons(s[0], tail, rest);
      }
    }
  }

  lemma {:induction false} UniqueCons<P>(head: Row<P>, tail: seq<Row<P>>, rest: seq<Row<P>>)
    requires UniqueIds([head] + tail)
    requires UniqueIds(rest)
    requires forall x :: x in rest ==> x in tail
    ensures UniqueIds([head] + rest)
  {
    var s := [head] + tail;
    var r := [head] + rest;
    forall i, j | 0 <= i < j < |r| ensures r[i].id != r[j].id {
      if i == 0 {
        assert r[j] in tail;
        var k :| 0 <= k < |tail| && tail[k] == r[j];
        assert s[0] == head && s[k + 1] == r[j];
      } else {
        assert r[i] == rest[i - 1] && r[j] == rest[j - 1];
      }
    }
  }

  /** deleteMessage: removes the rows matching both Id and owner and
      returns how many it removed. */
  function DeleteMessage(t: Table<string>, id: int, username: string): (res: (Table<string>, nat))
    ensures res.0.nextId == t.nextId
    ensures forall x :: x in res.0.rows ==> x in t.rows && !Matches(x, id, username)
    ensures forall x :: x in t.rows && !Matches(x, id, username) ==> x in res.0.rows
    ensures res.1 == |t.rows| - |res.0.rows|
    ensures res.1 == 0 <==> forall x :: x in t.rows ==> !Matches(x, id, username)
    ensures res.1 == 0 ==> res.0 == t
    ensures t.Valid() ==> res.0.Valid() && res.1 <= 1
  {
    var rows := Remove(t.rows, id, username);
    RemoveFacts(t, id, username);
    (t.(rows := rows), |t.rows| - |rows|)
  }

  /** deleteMessage as a multiset: every row keeps its multiplicity unless
      it matches both Id and owner, and then none of it is left. */
  lemma DeleteMessageMultiset(t: Table<string>, id: int, username: string)
    ensures var rows := DeleteMessage(t, id, username).0.rows;
      forall x :: multiset(rows)[x] == if Matches(x, id, username) then 0 else multiset(t.rows)[x]
  {
    RemoveMultiset(t.rows, id, username);
  }

  /** deleteMessage in terms of the rows it keeps. */
  lemma DeleteMessageKeeps(t: Table<string>, id: int, username: string)
    ensures DeleteMessage(t, id, username) == (t.(rows := Remove(t.rows, id, username)), |t.rows| - |Remove(t.rows, id, username)|)
  {
  }

  /** What both deletes promise about the table left behind. */
  lemma RemoveFacts<P>(t: Table<P>, id: int, username: string)
    ensures var rows := Remove(t.rows, id, username);
      && (forall x :: x in rows ==> x in t.rows && !Matches(x, id, username))
      && (forall x :: x in t.rows && !Matches(x, id, username) ==> x in rows)
      && (|rows| == |t.rows| <==> forall x :: x in t.rows ==> !Matches(x, id, username))
      && (|rows| == |t.rows| ==> rows == t.rows)
      && (t.Valid() ==> t.(rows := rows).Valid() && |t.rows| - |rows| <= 1)
  {
    var rows := Remove(t.rows, id, username);
    RemoveMembers(t.rows, id, username);
    RemoveNothing(t.rows, id, username);
    if t.Valid() {
      RemoveUnique(t.rows, id, username);
      forall i | 0 <= i < |rows| ensures rows[i].id < t.nextId {
        assert rows[i] in rows;
        assert rows[i] in t.rows;
      }
    }
  }

  /** listMessages: the `limit` newest rows of `username` by (CreatedAt, Id),
      returned oldest first. */
  function ListMessages(t: Table<string>, username: string, limit: nat := DefaultLimit): (r: seq<Row<string>>)
    ensures |r| == Min(limit, |OwnedBy(t.rows, username)|)
    ensures OldestFirst(r)
    ensures multiset(r) <= multiset(t.rows)
    ensures forall x :: x in r ==> x in t.rows && x.owner == username
    ensures forall x, y :: x in r && y in t.rows && y.owner == username && Newer(y, x) ==> y in r
  {
    var top := Top(t.rows, username, limit);
    ReverseNewestFirst(top);
    Reverse(top)
  }

  /** listImages: the same selection as listMessages, returned newest first. */
  function ListImages(t: Table<ImageFile>, username: string, limit: nat := DefaultLimit): (r: seq<Row<ImageFile>>)
    ensures |r| == Min(limit, |OwnedBy(t.rows, username)|)
    ensures NewestFirst(r)
    ensures multiset(r) <= multiset(t.rows)
    ensures forall x :: x in r ==> x in t.rows && x.owner == username
    ensures forall x, y :: x in r && y in t.rows && y.owner == username && Newer(y, x) ==> y in r
  {
    Top(t.rows, username, limit)
  }

  /** `SELECT TOP 1 path ... WHERE Id = @id AND username = @username`. */
  function FirstMatch<P>(s: seq<Row<P>>, id: int, owner: string): (r: Option<Row<P>>)
    ensures r.None? <==> forall k :: 0 <= k < |s| ==> !Matches(s[k], id, owner)
    ensures r.Some? ==> r.value in s && Matches(r.value, id, owner)
  {
    if |s| == 0 then None
    else if Matches(s[0], id, owner) then Some(s[0])
    else FirstMatch(s[1..], id, owner)
  }

  datatype Deleted = Deleted(affected: nat, path: Option<string>)

  /** deleteImage: looks up the owned row first and returns `{0, null}`
      without deleting when there is none; otherwise deletes it and returns
      the affected count with the path it read. */
  function DeleteImage(t: Table<ImageFile>, id: int, username: string): (res: (Table<ImageFile>, Deleted))
    ensures res.1.path.None? <==> forall x :: x in t.rows ==> !Matches(x, id, username)
    ensures res.1.path.None? ==> res == (t, Deleted(0, None))
    ensures res.1.path.Some? ==>
              && res.1.affected >= 1
              && (exists x :: x in t.rows && Matches(x, id, username) && x.payload.path == res.1.path.value)
    ensures res.0.nextId == t.nextId
    ensures forall x :: x in res.0.rows ==> x in t.rows && !Matches(x, id, username)
    ensures forall x :: x in t.rows && !Matches(x, id, username) ==> x in res.0.rows
    ensures res.1.affected == |t.rows| - |res.0.rows|
    ensures t.Valid() ==> res.0.Valid() && res.1.affected <= 1
    // with Id as the key, the path returned is the path of the row deleted
    ensures t.Valid() && res.1.path.Some? ==>
              forall x :: x in t.rows && Matches(x, id, username) ==> x.payload.path == res.1.path.value
  {
    match FirstMatch(t.rows, id, username)
    case None =>
      assert forall x :: x in t.rows ==> !Matches(x, id, username);
      (t, Deleted(0, None))
    case Some(img) =>
      var rows := Remove(t.rows, id, username);
      RemoveFacts(t, id, username);
      OnlyMatch(t.rows, img, id, username);
      (t.(rows := rows), Deleted(|t.rows| - |rows|, Some(img.payload.path)))
  }

  /** With unique ids, a row matching an id and owner is the only one. */
  lemma OnlyMatch<P>(rows: seq<Row<P>>, row: Row<P>, id: int, owner: string)
    requires row in rows && Matches(row, id, owner)
    ensures UniqueIds(rows) ==> forall x :: x in rows && Matches(x, id, owner) ==> x == row
  {
    if UniqueIds(rows) {
      var i :| 0 <= i < |rows| && rows[i] == row;
      forall x | x in rows && Matches(x, id, owner) ensures x == row {
        var j :| 0 <= j < |rows| && rows[j] == x;
        assert i == j;
      }
    }
  }
}
