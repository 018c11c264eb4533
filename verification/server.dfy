/** The request handlers of server.js as decisions: for a session, the
    request's fields and the stored tables, what each route answers and how
    it changes the tables. Express, multer, bcrypt and the file system are
    replaced by the values they would produce. */
module Server {
  import opened Wrappers
  import opened Text
  import opened Rows
  import opened Store
  import opened Upload

  /** The page size of GET /api/messages. */
  const MessagesPage: nat := 100

  /** The page size of GET /api/images. */
  const ImagesPage: nat := 200

  /** What a handler sends: a body with status 200, a redirect, or an error
      status with its message. */
  datatype Reply<T> = Ok(data: T) | Redirect(location: string) | Error(status: nat, message: string)

  /** `req.session.user` holds a (truthy) user name. */
  predicate SignedIn(session: Option<string>) {
    session.Some? && session.value != ""
  }

  /** A string field of the request that is present and not empty: what
      `!field` rejects. */
  predicate Given(field: Option<string>) {
    field.Some? && field.value != ""
  }

  /** requireLogin: answers 401 `auth-required` itself unless the session
      has a user, and otherwise (`None`) passes the request on. */
  function RequireLogin<T>(session: Option<string>): (r: Option<Reply<T>>)
    ensures r.None? <==> SignedIn(session)
    ensures r.Some? ==> r.value == Error(401, "auth-required")
  {
    if SignedIn(session) then None else Some(Error(401, "auth-required"))
  }

  // ---------- Accounts ----------

  /** A Users row: the user name and the bcrypt hash stored for it. */
  datatype Account = Account(username: string, password: string)

  /** `UNIQUE` on Users.username. */
  ghost predicate UniqueNames(users: seq<Account>) {
    forall i, j :: 0 <= i < j < |users| ==> users[i].username != users[j].username
  }

  /** `SELECT TOP 1 * FROM dbo.Users WHERE username = @username`. */
  function FindAccount(users: seq<Account>, username: string): (r: Option<Account>)
    ensures r.Some? ==> r.value in users && r.value.username == username
    ensures r.None? <==> forall k :: 0 <= k < |users| ==> users[k].username != username
  {
    if |users| == 0 then None
    else if users[0].username == username then Some(users[0])
    else FindAccount(users[1..], username)
  }

  /** POST /register. `hashed` is what bcrypt produced for the password; a
      name already taken fails the UNIQUE constraint, which the handler
      reports as 500 `Registration failed`. */
  function Register(users: seq<Account>, username: Option<string>, password: Option<string>, hashed: string): (res: (seq<Account>, Reply<()>))
    ensures !Given(username) || !Given(password) ==> res == (users, Error(400, "Username & password required"))
    ensures res.1.Redirect? <==>
              Given(username) && Given(password) && forall k :: 0 <= k < |users| ==> users[k].username != username.value
    ensures res.1.Redirect? ==> res.1.location == "/login" && res.0 == users + [Account(username.value, hashed)]
    ensures !res.1.Redirect? ==> res.0 == users
    ensures Given(username) && Given(password) && !res.1.Redirect? ==> res.1 == Error(500, "Registration failed")
    ensures UniqueNames(users) ==> UniqueNames(res.0)
  {
    if !Given(username) || !Given(password) then (users, Error(400, "Username & password required"))
    else if FindAccount(users, username.value).Some? then (users, Error(500, "Registration failed"))
    else (users + [Account(username.value, hashed)], Redirect("/login"))
  }

  /** POST /login. `verify(password, hash)` stands for bcrypt.compare. The
      session keeps whatever it held unless the login succeeds. */
  function Login(session: Option<string>, users: seq<Account>, username: Option<string>, password: Option<string>,
                 verify: (string, string) -> bool): (res: (Option<string>, Reply<()>))
    ensures !Given(username) || !Given(password) ==> res == (session, Error(400, "Username & password required"))
    ensures res.1.Redirect? <==>
              && Given(username) && Given(password)
              && FindAccount(users, username.value).Some?
              && verify(password.value, FindAccount(users, username.value).value.password)
    ensures res.1.Redirect? ==> res.1.location == "/" && res.0 == Some(username.value) && SignedIn(res.0)
    ensures !res.1.Redirect? ==> res.0 == session
    ensures Given(username) && Given(password) && !res.1.Redirect? ==> res.1 == Error(401, "Invalid username or password")
  {
    if !Given(username) || !Given(password) then (session, Error(400, "Username & password required"))
    else
      match FindAccount(users, username.value)
      case None => (session, Error(401, "Invalid username or password"))
      case Some(account) =>
        if verify(password.value, account.password) then (Some(username.value), Redirect("/"))
        else (session, Error(401, "Invalid username or password"))
  }

  // ---------- Messages ----------

  /** GET /api/messages: the user's 100 newest messages, oldest first. */
  function GetMessages(session: Option<string>, t: Table<string>): (r: Reply<seq<Row<string>>>)
    ensures r.Ok? <==> SignedIn(session)
    ensures !r.Ok? ==> r == Error(401, "auth-required")
    ensures r.Ok? ==>
              && |r.data| == Min(MessagesPage, |OwnedBy(t.rows, session.value)|)
              && OldestFirst(r.data)
              && multiset(r.data) <= multiset(t.rows)
              && (forall x :: x in r.data ==> x in t.rows && x.owner == session.value)
              && (forall x, y :: x in r.data && y in t.rows && y.owner == session.value && Newer(y, x) ==> y in r.data)
  {
    match RequireLogin(session)
    case Some(refused) => refused
    case None =>
      Ok(ListMessages(t, session.value, MessagesPage))
  }

  /** POST /api/messages: a body that is missing or only whitespace is
      refused with 400; otherwise the trimmed body is saved under the
      session user and echoed back. */
  function PostMessage(session: Option<string>, body: Option<string>, t: Table<string>, now: Timestamp): (res: (Table<string>, Reply<Row<string>>))
    ensures res.1.Ok? <==> SignedIn(session) && body.Some? && !AllSpace(body.value)
    ensures !SignedIn(session) ==> res.1 == Error(401, "auth-required")
    ensures SignedIn(session) && !res.1.Ok? ==> res.1 == Error(400, "Message body required")
    ensures !res.1.Ok? ==> res.0 == t
    ensures res.1.Ok? ==>
              && res.0.rows == t.rows + [res.1.data]
              && res.1.data.id == t.nextId && res.1.data.createdAt == now
              && res.1.data.owner == session.value
              && res.1.data.payload == Trim(body.value)
              && res.1.data.payload != ""
              && !IsSpace(res.1.data.payload[0]) && !IsSpace(res.1.data.payload[|res.1.data.payload| - 1])
    ensures t.Valid() ==> res.0.Valid()
  {
    match RequireLogin(session)
    case Some(refused) => (t, refused)
    case None =>
      var user := session.value;
      if body.None? || body.value == "" || Trim(body.value) == "" then (t, Error(400, "Message body required"))
      else
        var (t1, saved) := SaveMessage(t, user, Trim(body.value), now);
        (t1, Ok(saved))
  }

  /** What `Number(req.params.id)` yields: a finite number, or NaN and the
      infinities (never integers). */
  datatype JsNumber = Finite(value: real) | NonFinite

  /** `Number.isInteger`. */
  predicate IsInteger(n: JsNumber) {
    n.Finite? && n.value.Floor as real == n.value
  }

  /** The JSON body of both DELETE routes: `{ ok: affected > 0, affected }`. */
  datatype Deletion = Deletion(ok: bool, affected: nat)

  /** DELETE /api/messages/:id: a non-integer id is refused with 400 before
      the store is touched; otherwise the user's row with that id, if any,
      is deleted. */
  function DeleteMessageRoute(session: Option<string>, id: JsNumber, t: Table<string>): (res: (Table<string>, Reply<Deletion>))
    ensures res.1.Ok? <==> SignedIn(session) && IsInteger(id)
    ensures !SignedIn(session) ==> res == (t, Error(401, "auth-required"))
    ensures SignedIn(session) && !IsInteger(id) ==> res == (t, Error(400, "Invalid id"))
    ensures res.1.Ok? ==>
              && res.1.data.ok == (res.1.data.affected > 0)
              && (res.1.data.ok <==> exists x :: x in t.rows && Matches(x, id.value.Floor, session.value))
              && (forall x :: x in res.0.rows ==> x in t.rows && !Matches(x, id.value.Floor, session.value))
              && (forall x :: x in t.rows && !Matches(x, id.value.Floor, session.value) ==> x in res.0.rows)
              && res.1.data.affected == |t.rows| - |res.0.rows|
    ensures !res.1.Ok? ==> res.0 == t
    ensures t.Valid() ==> res.0.Valid() && (res.1.Ok? ==> res.1.data.affected <= 1)
  {
    match RequireLogin(session)
    case Some(refused) => (t, refused)
    case None =>
      var user := session.value;
      if !IsInteger(id) then (t, Error(400, "Invalid id"))
      else
        var (t1, affected) := DeleteMessage(t, id.value.Floor, user);
        (t1, Ok(Deletion(affected > 0, affected)))
  }

  // ---------- Images ----------

  /** The part multer hands over: the client's file name, the byte count
      and the MIME type. */
  datatype Incoming = Incoming(originalname: string, size: nat, mimetype: string)

  /** `{ filename, url }` of the upload reply. */
  datatype Uploaded = Uploaded(filename: string, url: string)

  /** Where multer writes a stored upload: `path.join(UPLOAD_DIR, filename)`. */
  function StoredPath(uploadDir: string, filename: string): (r: string)
    ensures StartsWith(r, uploadDir + "/") && EndsWith(r, filename)
  {
    var r := uploadDir + "/" + filename;
    assert r[..|uploadDir + "/"|] == uploadDir + "/";
    assert r[|r| - |filename|..] == filename;
    r
  }

  /** The public URL of a stored upload. */
  function PublicUrl(filename: string): (r: string)
    ensures StartsWith(r, "/uploads/") && r[|"/uploads/"|..] == filename
  {
    var r := "/uploads/" + filename;
    assert r[..9] == "/uploads/";
    r
  }

  /** POST /upload: requireLogin, then multer (the file filter, then the
      5 MiB limit; its errors reach Express's default handler, hence 500),
      then the handler (400 when no file came, else the INSERT). `millis`
      and `random` are the clock and random readings the stored name is
      made of. */
  function UploadImage(session: Option<string>, file: Option<Incoming>, millis: nat, random: nat,
                       uploadDir: string, t: Table<ImageFile>, now: Timestamp): (res: (Table<ImageFile>, Reply<Uploaded>))
    ensures res.1.Ok? <==>
              SignedIn(session) && file.Some? && FileFilter(file.value.originalname) && file.value.size <= MaxFileSize
    ensures !SignedIn(session) ==> res.1 == Error(401, "auth-required")
    ensures SignedIn(session) && file.None? ==> res.1 == Error(400, "No file uploaded")
    ensures SignedIn(session) && file.Some? && !FileFilter(file.value.originalname) ==>
              res.1 == Error(500, "Only image files are allowed!")
    ensures SignedIn(session) && file.Some? && FileFilter(file.value.originalname) && file.value.size > MaxFileSize ==>
              res.1 == Error(500, "File too large")
    ensures !res.1.Ok? ==> res.0 == t
    ensures res.1.Ok? ==>
              var name := StoredFilename(millis, random, file.value.originalname);
              && res.1.data == Uploaded(name, PublicUrl(name))
              && res.0.rows == t.rows + [Row(t.nextId, session.value,
                   ImageFile(name, file.value.originalname, StoredPath(uploadDir, name), file.value.size, file.value.mimetype), now)]
    ensures t.Valid() ==> res.0.Valid()
  {
    match RequireLogin(session)
    case Some(refused) => (t, refused)
    case None =>
      var user := session.value;
      if file.None? then (t, Error(400, "No file uploaded"))
      else if !FileFilter(file.value.originalname) then (t, Error(500, "Only image files are allowed!"))
      else if file.value.size > MaxFileSize then (t, Error(500, "File too large"))
      else
        var f := file.value;
        var name := StoredFilename(millis, random, f.originalname);
        var row := ImageFile(name, f.originalname, StoredPath(uploadDir, name), f.size, f.mimetype);
        (InsertImage(t, user, row, now), Ok(Uploaded(name, PublicUrl(name))))
  }

  /** One entry of the GET /api/images reply. */
  datatype ImageView = ImageView(id: int, filename: string, url: string, createdAt: Timestamp, size: int, mimetype: string)

  /** The row as GET /api/images shows it: the stored path is replaced by
      the public URL, from which the file name can be read back. */
  function View(r: Row<ImageFile>): (v: ImageView)
    ensures v.id == r.id && v.createdAt == r.createdAt
    ensures v.size == r.payload.size && v.mimetype == r.payload.mimetype
    ensures v.filename == r.payload.filename && StartsWith(v.url, "/uploads/") && v.url[|"/uploads/"|..] == v.filename
  {
    ImageView(r.id, r.payload.filename, PublicUrl(r.payload.filename), r.createdAt, r.payload.size, r.payload.mimetype)
  }

  function Views(rows: seq<Row<ImageFile>>): (r: seq<ImageView>)
    ensures |r| == |rows|
    ensures forall i :: 0 <= i < |rows| ==> r[i] == View(rows[i])
  {
    seq(|rows|, i requires 0 <= i < |rows| => View(rows[i]))
  }

  /** The listing order of GET /api/images, on the views it sends. */
  ghost predicate ViewsNewestFirst(views: seq<ImageView>) {
    forall i, j :: 0 <= i < j < |views| ==>
      views[i].createdAt > views[j].createdAt || (views[i].createdAt == views[j].createdAt && views[i].id >= views[j].id)
  }

  /** GET /api/images: the user's 200 newest images, newest first, each with
      its public URL in place of the stored path. */
  function GetImages(session: Option<string>, t: Table<ImageFile>): (r: Reply<seq<ImageView>>)
    ensures r.Ok? <==> SignedIn(session)
    ensures !r.Ok? ==> r == Error(401, "auth-required")
    ensures r.Ok? ==>
              && |r.data| == Min(ImagesPage, |OwnedBy(t.rows, session.value)|)
              && (forall i :: 0 <= i < |r.data| ==> r.data[i].url == PublicUrl(r.data[i].filename))
              && ViewsNewestFirst(r.data)
              && (forall i :: 0 <= i < |r.data| ==> ViewOfOwned(r.data[i], t, session.value))
    // the views are those of the listing: no row shown twice, none newer left out
    ensures r.Ok? ==> r.data == Views(ListImages(t, session.value, ImagesPage))
  {
    match RequireLogin(session)
    case Some(refused) => refused
    case None =>
      var rows := ListImages(t, session.value, ImagesPage);
      ListedViews(t, session.value, rows);
      Ok(Views(rows))
  }

  /** `v` shows one of `user`'s stored images. */
  ghost predicate ViewOfOwned(v: ImageView, t: Table<ImageFile>, user: string) {
    exists x :: x in t.rows && x.owner == user && View(x) == v
  }

  /** A newest-first listing of one user's rows turns into views in the same
      order, each the view of one of that user's rows. */
  lemma ListedViews(t: Table<ImageFile>, user: string, rows: seq<Row<ImageFile>>)
    requires NewestFirst(rows)
    requires forall x :: x in rows ==> x in t.rows && x.owner == user
    ensures ViewsNewestFirst(Views(rows))
    ensures forall i :: 0 <= i < |rows| ==> ViewOfOwned(Views(rows)[i], t, user)
  {
    forall i | 0 <= i < |rows| ensures ViewOfOwned(Views(rows)[i], t, user) {
      var x := rows[i];
      assert x in rows;
      assert View(x) == Views(rows)[i];
    }
  }

  /** The unlink guard of DELETE /api/images/:id: a row was deleted, it had a
      non-empty path, and the resolved path starts with the resolved upload
      directory. */
  predicate ShouldUnlink(affected: nat, path: Option<string>, resolvedPath: string, resolvedDir: string) {
    affected > 0 && path.Some? && path.value != "" && StartsWith(resolvedPath, resolvedDir)
  }

  /** A path names something inside `dir`. */
  predicate Inside(path: string, dir: string) {
    StartsWith(path, dir + "/")
  }

  /** DELETE /api/images/:id: refuses a non-integer id with 400; otherwise
      deletes the user's row with that id and names the file to unlink, if
      the guard lets it through. `resolve` stands for `path.resolve`. */
  function DeleteImageRoute(session: Option<string>, id: JsNumber, t: Table<ImageFile>, uploadDir: string,
                            resolve: string -> string): (res: (Table<ImageFile>, Reply<Deletion>, Option<string>))
    ensures res.1.Ok? <==> SignedIn(session) && IsInteger(id)
    ensures !SignedIn(session) ==> res == (t, Error(401, "auth-required"), None)
    ensures SignedIn(session) && !IsInteger(id) ==> res == (t, Error(400, "Invalid id"), None)
    ensures res.1.Ok? ==>
              && res.1.data.ok == (res.1.data.affected > 0)
              && (res.1.data.ok <==> exists x :: x in t.rows && Matches(x, id.value.Floor, session.value))
              && (forall x :: x in res.0.rows ==> x in t.rows && !Matches(x, id.value.Floor, session.value))
              && (forall x :: x in t.rows && !Matches(x, id.value.Floor, session.value) ==> x in res.0.rows)
              && res.1.data.affected == |t.rows| - |res.0.rows|
    ensures res.2.Some? ==>
              && res.1.Ok? && res.1.data.affected > 0
              && StartsWith(res.2.value, resolve(uploadDir))
              && exists x :: x in t.rows && Matches(x, id.value.Floor, session.value)
                   && x.payload.path != "" && res.2.value == resolve(x.payload.path)
    // on a valid table the file is unlinked whenever the guard lets its row's path through
    ensures t.Valid() && res.1.Ok? ==>
              (res.2.Some? <==> exists x :: x in t.rows && Matches(x, id.value.Floor, session.value)
                                  && x.payload.path != "" && StartsWith(resolve(x.payload.path), resolve(uploadDir)))
    ensures !res.1.Ok? ==> res.0 == t
    ensures t.Valid() ==> res.0.Valid() && (res.1.Ok? ==> res.1.data.affected <= 1)
  {
    match RequireLogin(session)
    case Some(refused) => (t, refused, None)
    case None =>
      var user := session.value;
      if !IsInteger(id) then (t, Error(400, "Invalid id"), None)
      else
        var (t1, deleted) := DeleteImage(t, id.value.Floor, user);
        var unlink :=
          if deleted.path.Some? && ShouldUnlink(deleted.affected, deleted.path, resolve(deleted.path.value), resolve(uploadDir))
          then Some(resolve(deleted.path.value))
          else None;
        (t1, Ok(Deletion(deleted.affected > 0, deleted.affected)), unlink)
  }
}
