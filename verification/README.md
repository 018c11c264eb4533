# realtime-app: schema convergence, owner-scoped storage and request decisions

A Dafny model of the data core of a small Express chat and image-sharing
app backed by SQL Server:

- **Schema convergence** (`ensureSchema` in `db.js`). The live catalog is
  abstracted per table. Each table is absent, or present with its column
  names, the nullability of `CreatedAt`, one `CreatedAt` cell per row, and
  the one default bound to `CreatedAt` (SQL Server allows at most one per
  column), and the names of its indexes. Every guarded `IF … <statement>`
  block is a step function. It changes the table only when its guard holds.
  The model records which statements were sent, and whether SQL Server
  refused one. A refused statement makes its awaited query throw, so nothing
  after it runs. `EnsureSchema` runs Users, then Messages, then Images. The
  names SQL Server makes up for an inline `DEFAULT` or a key are `Generated`,
  and no guard ever matches them. The DF_ block is modelled twice:
  - `ByName` is the code as written: it asks for a default of that exact name.
  - `ByColumn` asks whether `CreatedAt` has any default at all.
  See "## Findings".
- **Owner-scoped storage** (`saveMessage`, `listMessages`, `deleteMessage`,
  `listImages`, `deleteImage`, and the image `INSERT` of the upload route).
  A table is a sequence of rows plus the next value of its `IDENTITY`
  column. The listing order `ORDER BY CreatedAt DESC, Id DESC` is defined once
  and shared by both listings. Messages come back reversed; images do not.
- **Request decisions** (`server.js`):
  - the login guard;
  - the register and login checks;
  - the trimmed-body check of `POST /api/messages`;
  - the `Number.isInteger` id check and `ok = affected > 0` of both `DELETE`
    routes;
  - the multer file filter, size limit and stored file name;
  - the `/api/images` mapping to public URLs;
  - the prefix guard in front of `fs.unlink`.

Modules, in dependency order:

- `Wrappers` holds `Option`.
- `Text` models JavaScript `trim`, ASCII case folding, `lastIndexOf` and
  number-to-decimal.
- `Schema` and `SchemaProofs` model the convergence engine.
- `Rows`, `Store` and `StoreProofs` model storage.
- `Upload` models the multer configuration.
- `Server` and `ServerProofs` model the routes.

Values the program gets from outside are inputs of the model:
- `SYSUTCDATETIME()`, `Date.now()` and `Math.random()` readings;
- the bcrypt hash, and bcrypt's verdict as a function `verify`;
- `path.resolve`, as a function `resolve`;
- the number `Number(req.params.id)` produced.

`path.extname` is modelled, not taken as an input.

## Model

| member | source | states |
|---|---|---|
| Schema.CreateTableStep | db.js:30-59 | CREATE TABLE touches only an absent table, and afterwards the table exists. A new table has the full column set and no rows. Its `CreatedAt` is NOT NULL, and its one default slot holds the inline default, whose name is generated. A named default is never created by this step; it can only be one the table already had. |
| Schema.RenameStep | db.js:62-71 | sp_rename fires only when the canonical column is missing and the legacy one is present. An existing canonical column is never overwritten. Afterwards no rename is pending. Nothing but the two names changes. |
| Schema.AddCreatedAtStep | db.js:72-75 | `CreatedAt` is added to an existing table only when missing, and then as a nullable column without a default. If the table has rows, NULLs appear, which the backfill guard will see. Row count, other columns and indexes are kept. |
| Schema.Backfill | db.js:76-80 | Every NULL cell becomes the current time and every non-NULL cell is kept, so no NULL is left. |
| Schema.BackfillStep | db.js:76-80 | With `CreatedAt` present, no NULL remains afterwards. Stored timestamps and the row count are unchanged, and nothing else in the table changes. |
| Schema.AddDefaultStep | db.js:81-90 | `ADD CONSTRAINT DF_<T>_CreatedAt` binds the named default only to a `CreatedAt` that has none. An existing default is never replaced, so a statement SQL Server refuses leaves the table as it was. Nothing but the default slot changes. |
| Schema.TightenStep | db.js:91-95 | NOT NULL is applied whenever the column exists and holds no NULL, whatever its current nullability. A nullable column never becomes NOT NULL while a NULL remains. Nothing but the nullability changes. |
| Schema.CreateIndexStep | db.js:96-102 | `IX_<T>_CreatedAt` is created only when `CreatedAt` exists and no index of exactly that name exists. The indexes only grow, by that one name. |
| SchemaProofs.ReadyTableIsFixed | db.js:72-102 | On a table already in target shape, every CreatedAt block leaves it unchanged. Every block's guard is false except the NOT NULL tightening, which is sent again and accepted. |
| SchemaProofs.ReadyBlocksFixed | db.js:72-102 | On a table in target shape, the five CreatedAt blocks together send only the tightening and change nothing. |
| SchemaProofs.CreatedAtBlocksConverge | db.js:72-102 | On an existing table, the five CreatedAt blocks fail iff the DF_ statement is refused: `CreatedAt` already has a default the DF_ guard does not recognise. Otherwise they end in target shape: the column is present, NULL-free and NOT NULL, with its default and the IX_ index. No row is lost, only `CreatedAt` is added to the columns, and existing timestamps are kept. |
| SchemaProofs.MessagesConverge | db.js:46-102 | One pass over Messages fails iff its DF_ statement is refused. As written that happens on an absent table, or on a `CreatedAt` with a default of another name. Otherwise the pass ends in target shape with no rename pending. It keeps the row count and the existing timestamps, and `Body` exists afterwards iff `Body` or `content` existed before. |
| SchemaProofs.ImagesConverge | db.js:105-155 | One pass over Images fails iff its DF_ statement is refused, under the same condition as Messages. Otherwise it ends in target shape, keeping the row count, the existing columns and the existing timestamps. |
| SchemaProofs.EnsureSchemaConverges | db.js:26-156 | One `ensureSchema` pass fails iff the DF_ statement of Messages or of Images is refused. Otherwise Users is present, both other tables are in target shape, and the Messages renames are settled. Users is present either way. |
| SchemaProofs.IntendedConverges | db.js:26-156 | With the DF_ guard asking whether `CreatedAt` has any default, one pass succeeds from every catalog and converges. |
| SchemaProofs.ConvergedIsFixpoint | db.js:26-156 | On a converged catalog, `ensureSchema` succeeds and changes nothing. It still sends exactly the two `ALTER COLUMN … NOT NULL` statements, Messages first. |
| SchemaProofs.EnsureSchemaIdempotent | db.js:26-156 | After a run that succeeded, a second run also succeeds and leaves the same catalog, whatever the clock reads. It sends only the two NOT NULL tightenings. |
| SchemaProofs.FreshMessagesRun | db.js:46-102 | On an empty database, Messages as written sends CREATE TABLE and then the DF_ statement, which is refused; the table keeps its inline default. With the column checked, it sends CREATE TABLE, the tightening and the index, and the table keeps its inline default. |
| SchemaProofs.FreshImagesRun | db.js:105-155 | The same two traces and final tables for Images. |
| SchemaProofs.FreshDatabaseFails | db.js:26-102 | As written, on an empty database the run creates Users and Messages, sends the refused DF_Messages_CreatedAt statement and stops before Images. The next run fails the same way. |
| SchemaProofs.FreshDatabaseRun | db.js:26-156 | With the column checked, an empty database gets every table in seven statements: Users' CREATE, then the three Messages statements, then the three Images statements. Messages and Images each keep the inline default as their one default. |
| SchemaProofs.LegacyMessagesConverge | db.js:62-102 | The legacy Messages shape (`content`, `username`, nullable `CreatedAt` holding NULLs) fails iff its `CreatedAt` already has a default the DF_ guard does not recognise. Otherwise it ends with exactly the canonical columns, in target shape, with no row lost. |
| Rows.OwnedBy | db.js:180 | `WHERE owner = @username` keeps exactly the owner's rows, each with its multiplicity. |
| Rows.SortNewestFirst | db.js:181 | The result is a permutation of the input, ordered by CreatedAt DESC, Id DESC. |
| Rows.Take | db.js:178 | `TOP (@n)` gives the first `min(n, length)` rows as a prefix. |
| Rows.Top | db.js:178-181 | The result has `min(n, owned)` rows, all the owner's and drawn from the table, newest first. No owned row sorting before a returned one is left out. |
| Rows.Reverse | db.js:183 | `recordset.reverse()` puts element `i` at position `length - 1 - i`. |
| Rows.ReverseNewestFirst | db.js:183 | Reversing a newest-first list gives an oldest-first list with the same rows. |
| Store.Owner | db.js:162 | The stored owner is never empty. It is the user name if one is given, else `anonymous`. |
| Store.SaveMessage | db.js:159-170 | Exactly one row is appended and returned, with the next id, the given body unvalidated, the owner and the time. Validity of the table is kept. |
| Store.InsertImage | server.js:234-235 | Exactly one row with the next id, the session user and the file's columns is appended. Validity is kept. |
| Store.RemoveMembers | db.js:192-193 | The rows left are exactly the rows that did not match both Id and owner. |
| Store.RemoveNothing | db.js:192-193 | Nothing is removed iff no row matches, and then the rows are unchanged. |
| Store.RemoveUnique | db.js:192-193 | With Id as primary key, at most one row goes and the ids stay unique. |
| Store.DeleteMessage | db.js:186-197 | Only rows matching both Id and owner are removed, and every other row stays. The result counts removed rows: 0 iff none matched, in which case the table is unchanged, and at most 1 on a valid table. |
| Store.DeleteMessageMultiset | db.js:192-193 | Every non-matching row keeps its multiplicity, and no matching row is left. |
| Store.ListMessages | db.js:172-184 | Returns `min(limit, owned)` of the owner's rows, oldest first, drawn from the table. No owned row newer than a returned one is omitted. |
| Store.ListImages | db.js:200-212 | The same selection as `ListMessages`, but newest first. |
| Store.FirstMatch | db.js:216-220 | `SELECT TOP 1` finds an owned row with that id iff one exists. |
| Store.DeleteImage | db.js:214-232 | With no owned row for the id, it returns `{0, null}` and changes nothing. Otherwise it deletes the matching rows, with affected equal to the number removed (exactly 1 on a valid table), and returns the path of a matching row. On a valid table that is the path of the deleted row. Other rows are kept. |
| StoreProofs.SaveThenDelete | db.js:159-197 | Deleting a saved message by its id and owner returns 1 and restores the earlier rows exactly. |
| StoreProofs.AppendedIsNewest | db.js:178-181 | A row inserted with the next id, at a time no earlier than any stored row, sorts before every other row. |
| StoreProofs.TopHoldsNewest | db.js:178-181 | The owner's newest row heads the TOP-n selection for every n ≥ 1. |
| StoreProofs.SavedMessageListedLast | db.js:172-183 | A message saved at the latest time is the last entry of its owner's listing, for any limit ≥ 1. |
| StoreProofs.InsertThenDeleteImage | db.js:214-232 | Deleting an inserted image returns `{1, its path}` and restores the earlier rows. A second delete returns `{0, null}`. |
| StoreProofs.OtherOwnerIsolated | db.js:186-197 | Another user's delete of a row's id removes nothing and returns 0. Another user's listing never contains the row. |
| StoreProofs.InsertedImageListedFirst | db.js:200-212 | An image inserted at the latest time is the first entry of its owner's listing, for any limit ≥ 1. |
| Text.Trim | server.js:160 | The result is empty iff the input is all whitespace. It is the input minus its leading whitespace, with only whitespace after it. It neither starts nor ends with whitespace. |
| Text.TrimIdempotent | server.js:163 | Trimming twice gives the same result as trimming once. |
| Text.AsciiLower | server.js:197 | `/i` folding sends `A`–`Z` to `a`–`z` and leaves every other character alone. |
| Text.Decimal | server.js:189 | A number prints as one or more decimal digits. It is a single digit iff the number is below 10. |
| Text.DecimalInjective | server.js:189 | Distinct numbers print differently. |
| Upload.FileFilterIsExtensionCheck | server.js:196-200 | The regular expression accepts a name iff the text after its last `.`, ASCII-lower-cased, is `jpg`, `jpeg`, `png` or `gif`. |
| Upload.Extname | server.js:188 | `path.extname` is empty, or it starts with `.`, is a suffix of the name, and has no further `.` and no `/`. |
| Upload.UniqueSuffix | server.js:189 | The suffix has no `.` and no `/`. |
| Upload.StoredFilename | server.js:187-191 | The stored name starts with `image-` and ends with the original name's extension. |
| Upload.UniqueSuffixInjective | server.js:189 | Different clock or random readings give different suffixes. |
| Upload.StoredFilenamesDistinct | server.js:187-191 | Equal stored names come from the same clock and random readings and the same extension. |
| Upload.ExtnameOfAccepted | server.js:188-197 | For a name the filter accepts, the kept extension is the whole ending after the last `.`. It is empty when that dot opens the last path segment, as in `.png`. |
| Upload.StoredNameWithoutDot | server.js:188-190 | A name stored without an extension contains no `.` at all. |
| Upload.StoredNameKeepsFilter | server.js:187-200 | An accepted upload's stored name would pass the filter again iff the original name has a non-empty `path.extname`. |
| Server.RequireLogin | server.js:72-75 | The request is passed on iff the session holds a user. Otherwise the reply is 401 `auth-required`. |
| Server.FindAccount | server.js:131-134 | The account found has the asked name. None is found iff no account has it. |
| Server.Register | server.js:109-124 | A missing or empty field gives 400 before any store access. A taken name gives 500 `Registration failed`. Otherwise the account is appended with the hash and the reply redirects to `/login`. Unique names are kept. |
| Server.Login | server.js:126-144 | A missing or empty field gives 400. Sign-in succeeds iff the account exists and bcrypt accepts the password; then the session holds the name and the reply redirects to `/`. Otherwise the reply is 401 and the session is unchanged. |
| Server.GetMessages | server.js:147-155 | A signed-in user gets their 100 newest messages, oldest first, and nobody else's. Each row appears at most as often as it is stored, and no newer owned row is left out. Without a login the reply is 401. |
| Server.PostMessage | server.js:157-170 | The message is saved iff the user is signed in and the body is present and not all whitespace. The trimmed body is stored under the session user and echoed back. Otherwise the reply is 401 or 400 `Message body required` and nothing is stored. |
| Server.DeleteMessageRoute | server.js:172-182 | A non-integer id gives 400 with the store untouched. Otherwise only the user's row with that id is removed, and `ok` holds iff one existed and equals `affected > 0`. |
| Server.StoredPath | server.js:186-190 | The stored path is inside the upload directory and ends with the stored name. |
| Server.PublicUrl | server.js:244 | The URL is `/uploads/` followed by exactly the stored name. |
| Server.UploadImage | server.js:193-246 | An upload is stored iff the user is signed in, a file came, its name passes the filter, and it is at most 5 MiB. Each refusal has its status and message, and a refusal leaves the table unchanged. A stored upload adds exactly one row with the generated name and its path, and the reply gives the name and public URL. |
| Server.View | server.js:259-266 | Id, file name, CreatedAt, size and MIME type are copied unchanged. The stored path is replaced by a URL from which the file name can be read back. |
| Server.Views | server.js:259-266 | Each listed row becomes its view, in the same order. |
| Server.ListedViews | server.js:257-266 | The views keep the listing's newest-first order, and each shows one of the user's stored images. |
| Server.GetImages | server.js:255-272 | A signed-in user gets views of their 200 newest images, newest first. Each view has its public URL and comes from one of the user's rows. The views are exactly those of the user's listing, so no row is shown twice and no newer one is left out. Without a login the reply is 401. |
| Server.DeleteImageRoute | server.js:275-292 | A non-integer id gives 400 with the store untouched. Otherwise only the user's row with that id is removed, `affected` counts the rows removed, and `ok` iff it existed. A file is unlinked only if a row was deleted, its path is non-empty, and the resolved path starts with the resolved upload directory. On a valid table the converse holds too: such a row is always unlinked. |
| ServerProofs.RegisterThenLogin | server.js:109-144 | After registering a free name, logging in with the same password succeeds. Registering that name again gives 500. |
| ServerProofs.PostedBodyIsTrimmed | server.js:160-163 | A stored message body is already trimmed. |
| ServerProofs.PostThenListedLast | server.js:147-170 | A message posted at the latest time is the last entry of the poster's `GET /api/messages`. |
| ServerProofs.PostThenDelete | server.js:157-182 | The poster deleting the returned id gets `{ ok: true, affected: 1 }`, and the earlier messages are restored. |
| ServerProofs.OthersCannotTouch | server.js:172-182 | Another user deleting the id gets `{ ok: false, affected: 0 }` with nothing changed, and never sees the message listed. |
| ServerProofs.UploadThenListedFirst | server.js:204-272 | An image uploaded at the latest time heads the uploader's `GET /api/images`, under the name and URL the upload reply gave. |
| ServerProofs.UploadThenDelete | server.js:204-292 | The uploader deleting the new id gets `{ ok: true, affected: 1 }` and the earlier images are restored. The file is unlinked iff its resolved path starts with the resolved upload directory. |
| ServerProofs.InsidePassesGuard | server.js:280-285 | Any file inside the upload directory passes the unlink guard. |
| ServerProofs.GuardAdmitsSibling | server.js:280-285 | The guard is a string prefix test, not containment. A file under `/home/data/uploads-old` passes it for the directory `/home/data/uploads`. |

## Behaviour worth knowing

- `saveMessage` (db.js:159-170) does not validate the body. Only the route
  trims and checks it (server.js:159-163).
- The image `INSERT` (server.js:234-235) validates nothing either.
- A second `ensureSchema` run is not free of DDL. Both `ALTER COLUMN … NOT NULL`
  statements are sent every time, because their guard (db.js:91-95, 144-148)
  ignores the current nullability. The catalog itself does not change
  (`SchemaProofs.ConvergedIsFixpoint`).
- The connection pool promise is cached for good, including a rejected one
  (db.js:9-12), so no retry exists to model.

## Findings

| source | as written | input that shows it | evidently intended | confidence | as-written member | corrected member |
|---|---|---|---|---|---|---|
| db.js:56, db.js:81-90, db.js:119, db.js:134-143 | CREATE TABLE binds an inline `DEFAULT SYSUTCDATETIME()` to `CreatedAt` under a generated name. The DF_ block then looks only for a default named `DF_<T>_CreatedAt`, finds none, and sends `ADD CONSTRAINT … DEFAULT … FOR CreatedAt` for a column that already has a default. SQL Server refuses this (error 1781), `ensureSchema` rejects, and `start()` exits (server.js:310-322). | An empty database. The same happens on every later start, since the inline default stays. | Add the named default only when `CreatedAt` has no default at all. | not executed | SchemaProofs.FreshDatabaseFails | SchemaProofs.FreshDatabaseRun |

`SchemaProofs.IntendedConverges` states the corrected guard's general
property: every catalog converges in one run. The same refusal hits any
existing `CreatedAt` whose default has another name; `Schema.Blocked` names
exactly those tables.

## Left out

- Connection handling (`getPool`, `testConnection`, db.js:9-23) and all SQL Server I/O: the tables are values. Failures of the driver, their 500 replies (`Login failed`, `Upload failed` with its cleanup unlink, and the like) and the `?.affected || 0` fallback for a missing result row are not modelled.
- Interleaving between the SELECT and the DELETE of `deleteImage`: the model is sequential.
- SQL Server catalog rules other than one default per column: `COL_LENGTH` name matching under the collation, trailing-space-insensitive string comparison, and NVARCHAR length limits. Column and constraint names are compared as exact strings.
- Schema.TightenStep: treats `ALTER COLUMN … NOT NULL` as always accepted once no NULL is left. Restrictions SQL Server places on altering a column that an index or constraint depends on are not modelled.
- Server.FindAccount, Server.Register, Server.Login, Rows.OwnedBy, Store.Matches: compare user names as exact strings. Under SQL Server's default case-insensitive collation, the `username` lookups, the `UNIQUE` key and the owner filters match `ALICE` with `alice`. Login keeps the name as typed (server.js:138). So in the program `ALICE` signs in to `alice`'s account and sees its rows, and cannot register separately. The model refuses that sign-in and lets `ALICE` register as a new user.
- The `IF NOT EXISTS … CREATE TABLE dbo.Images` inside the upload route (server.js:217-232): it is taken to have run already, because `ensureSchema` creates the table at start-up.
- bcrypt hashing and comparison: the hash is an input and the comparison is the `verify` parameter.
- Express, sessions, socket.io, static file serving, the page, logout and health routes, and `keyvault.js`: HTTP and UI plumbing with no decision logic of the core.
- Multer streaming, `fs.unlink` and directory creation: the model names the file to unlink and does not remove it.
- Express's default error handler: multer's refusals appear as `Error(500, message)` with the error's message, not as its HTML page.
- Request bodies whose fields are not strings: fields are `Option<string>`.
- `Number(req.params.id)`: the parsed number is an input (`JsNumber`). An integer outside the INT range, which SQL Server would reject, is not modelled.
- Server.StoredPath: models `path.join` as plain `dir + "/" + name`, without normalising. It therefore assumes a normalised upload directory: no trailing `/` and no `.` or `..` segments. `UPLOAD_DIR` comes from the environment when set (server.js:28-29), may be relative or end in `/`, and `path.join` would normalise it; the model does not.
- Upload.Extname: does not model `path.extname`'s skipping of trailing `/` characters (`a.png/` gives `.png` in Node, `""` here), because multer hands over a client file name, not a directory path.
- Text.Decimal: states JavaScript's number-to-string only below 10^21. Above that JavaScript switches to exponent notation, which `Date.now()` and the random suffix never reach.
