/** How the routes of server.js fit together: registering then logging in,
    posting then listing or deleting a message, uploading then listing or
    deleting an image, ownership between users, and what the unlink guard
    does and does not rule out. */
module ServerProofs {
  import opened Wrappers
  import opened Text
  import opened Rows
  import opened Store
  import opened StoreProofs
  import opened Upload
  import opened Server

  /** Looking up a name that was free before finds the account just added. */
  lemma {:induction false} FindAppended(users: seq<Account>, a: Account)
    requires forall k :: 0 <= k < |users| ==> users[k].username != a.username
    ensures FindAccount(users + [a], a.username) == Some(a)
  {
    if |users| > 0 {
      assert (users + [a])[1..] == users[1..] + [a];
      FindAppended(users[1..], a);
    } else {
      assert users + [a] == [a];
    }
  }

  /** Registering a free name and then logging in with the same password
      (bcrypt accepting the password against the hash it made) signs the
      user in; registering the name again fails. */
  lemma RegisterThenLogin(users: seq<Account>, username: string, password: string, hashed: string,
                          session: Option<string>, verify: (string, string) -> bool, hashedAgain: string)
    requires username != "" && password != ""
    requires FindAccount(users, username).None?
    requires verify(password, hashed)
    ensures var (after, reply) := Register(users, Some(username), Some(password), hashed);
      && reply == Redirect("/login")
      && Login(session, after, Some(username), Some(password), verify) == (Some(username), Redirect("/"))
      && Register(after, Some(username), Some(password), hashedAgain) == (after, Error(500, "Registration failed"))
  {
    var after := Register(users, Some(username), Some(password), hashed).0;
    FindAppended(users, Account(username, hashed));
    assert after[|users|].username == username;
  }

  /** A message that was posted is stored trimmed: trimming it again
      changes nothing. */
  lemma PostedBodyIsTrimmed(session: Option<string>, body: Option<string>, t: Table<string>, now: Timestamp)
    requires PostMessage(session, body, t, now).1.Ok?
    ensures var saved := PostMessage(session, body, t, now).1.data;
      Trim(saved.payload) == saved.payload
  {
    TrimIdempotent(body.value);
  }

  /** A message posted at a time no earlier than anything stored comes back
      as the last entry of the poster's GET /api/messages. */
  lemma PostThenListedLast(session: Option<string>, body: Option<string>, t: Table<string>, now: Timestamp)
    requires t.Valid()
    requires forall k :: 0 <= k < |t.rows| ==> t.rows[k].createdAt <= now
    requires PostMessage(session, body, t, now).1.Ok?
    ensures var (t1, reply) := PostMessage(session, body, t, now);
      var listed := GetMessages(session, t1);
      listed.Ok? && |listed.data| >= 1 && listed.data[|listed.data| - 1] == reply.data
  {
    SavedMessageListedLast(t, session.value, Trim(body.value), now, MessagesPage);
  }

  /** The poster can delete a posted message by its id: the reply is
      `{ ok: true, affected: 1 }` and the earlier messages are as they were. */
  lemma PostThenDelete(session: Option<string>, body: Option<string>, t: Table<string>, now: Timestamp)
    requires t.Valid()
    requires PostMessage(session, body, t, now).1.Ok?
    ensures var (t1, reply) := PostMessage(session, body, t, now);
      DeleteMessageRoute(session, Finite(reply.data.id as real), t1) == (Table(t.rows, t1.nextId), Ok(Deletion(true, 1)))
  {
    SaveThenDelete(t, session.value, Trim(body.value), now);
  }

  /** Another signed-in user deleting a message's id removes nothing and is
      told `{ ok: false, affected: 0 }`; that user's listing never shows it. */
  lemma OthersCannotTouch(t: Table<string>, k: nat, other: string)
    requires t.Valid()
    requires k < |t.rows|
    requires other != "" && t.rows[k].owner != other
    ensures DeleteMessageRoute(Some(other), Finite(t.rows[k].id as real), t) == (t, Ok(Deletion(false, 0)))
    ensures t.rows[k] !in GetMessages(Some(other), t).data
  {
    OtherOwnerIsolated(t, k, other, MessagesPage);
  }

  /** An image uploaded at a time no earlier than anything stored is the
      first entry of the uploader's GET /api/images, under the URL the upload
      reply gave. */
  lemma UploadThenListedFirst(session: Option<string>, file: Option<Incoming>, millis: nat, random: nat,
                              uploadDir: string, t: Table<ImageFile>, now: Timestamp)
    requires t.Valid()
    requires forall k :: 0 <= k < |t.rows| ==> t.rows[k].createdAt <= now
    requires UploadImage(session, file, millis, random, uploadDir, t, now).1.Ok?
    ensures var (t1, reply) := UploadImage(session, file, millis, random, uploadDir, t, now);
      var listed := GetImages(session, t1);
      && listed.Ok? && |listed.data| >= 1
      && listed.data[0].id == t.nextId
      && listed.data[0].filename == reply.data.filename
      && listed.data[0].url == reply.data.url
  {
    var f := file.value;
    var name := StoredFilename(millis, random, f.originalname);
    var row := ImageFile(name, f.originalname, StoredPath(uploadDir, name), f.size, f.mimetype);
    InsertedImageListedFirst(t, session.value, row, now, ImagesPage);
  }

  /** The uploader can delete an uploaded image by its id: the reply is
      `{ ok: true, affected: 1 }`, the earlier images are as they were, and
      the stored file is unlinked when its resolved path passes the guard. */
  lemma UploadThenDelete(session: Option<string>, file: Option<Incoming>, millis: nat, random: nat,
                         uploadDir: string, t: Table<ImageFile>, now: Timestamp, resolve: string -> string)
    requires t.Valid()
    requires UploadImage(session, file, millis, random, uploadDir, t, now).1.Ok?
    ensures var (t1, reply) := UploadImage(session, file, millis, random, uploadDir, t, now);
      var stored := StoredPath(uploadDir, reply.data.filename);
      var (t2, answer, unlink) := DeleteImageRoute(session, Finite(t.nextId as real), t1, uploadDir, resolve);
      && t2.rows == t.rows
      && answer == Ok(Deletion(true, 1))
      && (unlink.Some? <==> StartsWith(resolve(stored), resolve(uploadDir)))
      && (unlink.Some? ==> unlink.value == resolve(stored))
  {
    var f := file.value;
    var name := StoredFilename(millis, random, f.originalname);
    var row := ImageFile(name, f.originalname, StoredPath(uploadDir, name), f.size, f.mimetype);
    InsertThenDeleteImage(t, session.value, row, now);
  }

  /** The guard lets through every file inside the upload directory. */
  lemma InsidePassesGuard(path: string, dir: string)
    requires Inside(path, dir)
    ensures ShouldUnlink(1, Some(path), path, dir)
  {
    assert path[..|dir|] == (dir + "/")[..|dir|];
  }

  /** The guard is a prefix test, not a containment test: with the upload
      directory `/home/data/uploads`, a file in the sibling directory
      `/home/data/uploads-old` passes it. */
  lemma GuardAdmitsSibling()
    ensures var dir, path := "/home/data/uploads", "/home/data/uploads-old/a.png";
      ShouldUnlink(1, Some(path), path, dir) && !Inside(path, dir)
  {
    var dir, path := "/home/data/uploads", "/home/data/uploads-old/a.png";
    assert path[..|dir|] == dir;
    assert path[|dir|] == '-';
    assert (dir + "/")[|dir|] == '/';
  }
}
