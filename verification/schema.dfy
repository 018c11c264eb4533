/** The schema convergence engine of db.js (`ensureSchema`).

    The live SQL Server catalog is abstracted to what the guards of the
    engine read and what its statements write: per table, whether it exists,
    its column names, the nullability of `CreatedAt`, the `CreatedAt` cell of
    every row, and the names of its default constraints and indexes. Every
    guarded `IF ... <DDL>` block is one `Ddl` value whose `Guard` is the SQL
    condition and whose `Exec` is the identity when the guard is false. */
module Schema {
  import opened Wrappers

  /** A DATETIME2 value. */
  type Timestamp = int

  /** A constraint or index name as the catalog records it. Names spelled
      out in DDL are `Named`; the names SQL Server invents for an inline
      DEFAULT, a PRIMARY KEY or a UNIQUE constraint are `Generated`, and no
      guard of the engine can ever match one of them. */
  datatype ObjectName = Generated | Named(name: string)

  /** One table of the catalog. `createdAt` holds one cell per row, in row
      order; its contents mean something only while the column exists.
      `createdAtDefault` is the DEFAULT bound to CreatedAt: SQL Server binds
      at most one default to a column, and no other column of these tables
      has one, so it is also the only default constraint of the table. */
  datatype Table =
    | Absent
    | Present(columns: set<string>, createdAtNullable: bool,
              createdAt: seq<Option<Timestamp>>,
              createdAtDefault: Option<ObjectName>, indexes: set<ObjectName>)

  const CreatedAt: string := "CreatedAt"

  // Column sets of the three CREATE TABLE statements (db.js:36-41, 52-57, 111-120).
  const UsersColumns: set<string> := {"Id", "username", "password", CreatedAt}
  const MessagesColumns: set<string> := {"Id", "Username", "Body", CreatedAt}
  const ImagesColumns: set<string> :=
    {"Id", "filename", "originalname", "username", "path", "size", "mimetype", CreatedAt}

  const MessagesDefault: string := "DF_Messages_CreatedAt"
  const MessagesIndex: string := "IX_Messages_CreatedAt"
  const ImagesDefault: string := "DF_Images_CreatedAt"
  const ImagesIndex: string := "IX_Images_CreatedAt"

  /** `COL_LENGTH(table, name) IS NOT NULL`, with names compared exactly. */
  predicate HasColumn(t: Table, name: string) {
    t.Present? && name in t.columns
  }

  /** `EXISTS (SELECT 1 FROM table WHERE CreatedAt IS NULL)`. */
  predicate HasNullCreatedAt(t: Table) {
    t.Present? && None in t.createdAt
  }

  /** How the DF_ block decides whether to add its default. `ByName` is
      what db.js:83-87 does: it looks for a default constraint of that name
      on the table. `ByColumn` looks for any default bound to CreatedAt. */
  datatype DefaultCheck = ByName | ByColumn

  /** The guarded statements of the engine. */
  datatype Ddl =
    | CreateTable(columns: set<string>)
    | RenameColumn(legacy: string, canonical: string)
    | AddCreatedAtNullable
    | BackfillCreatedAt(now: Timestamp)
    | AddDefault(name: string, check: DefaultCheck)
    | AlterCreatedAtNotNull
    | CreateIndex(name: string)

  /** The IF condition in front of each statement. For `AddCreatedAtNullable`
      the conjunct `t.Present?` is added: `COL_LENGTH` is NULL for a missing
      table too, but every table exists by then. */
  predicate Guard(d: Ddl, t: Table) {
    match d
    case CreateTable(_) => t.Absent?
    case RenameColumn(legacy, canonical) => !HasColumn(t, canonical) && HasColumn(t, legacy)
    case AddCreatedAtNullable => t.Present? && !HasColumn(t, CreatedAt)
    case BackfillCreatedAt(_) => HasColumn(t, CreatedAt) && HasNullCreatedAt(t)
    case AddDefault(name, check) =>
      HasColumn(t, CreatedAt) &&
      (match check
       case ByName => t.createdAtDefault != Some(Named(name))
       case ByColumn => t.createdAtDefault.None?)
    // The NOT NULL tightening does not ask whether the column is already NOT NULL.
    case AlterCreatedAtNotNull => HasColumn(t, CreatedAt) && !HasNullCreatedAt(t)
    case CreateIndex(name) => HasColumn(t, CreatedAt) && Named(name) !in t.indexes
  }

  /** Whether SQL Server refuses a statement that was sent: ADD CONSTRAINT
      ... DEFAULT FOR a column that already has a default bound to it fails
      (error 1781). Every other statement of the engine is accepted. */
  predicate Rejects(d: Ddl, t: Table) {
    d.AddDefault? && t.Present? && t.createdAtDefault.Some?
  }

  /** CREATE TABLE with the full target column set: CreatedAt NOT NULL with an
      inline DEFAULT (whose name is generated), a primary-key index, no rows. */
  function CreateTableStep(t: Table, columns: set<string>): (r: Table)
    ensures t.Present? ==> r == t
    ensures r.Present? && (t.Absent? ==> r.columns == columns && r.createdAt == [])
    ensures t.Absent? ==> !r.createdAtNullable && r.createdAtDefault == Some(Generated) && r.indexes == {Generated}
    // a named default never comes from CREATE TABLE
    ensures r.createdAtDefault.Some? && r.createdAtDefault.value.Named? ==> t.Present? && r.createdAtDefault == t.createdAtDefault
  {
    if t.Absent? then Present(columns, false, [], Some(Generated), {Generated}) else t
  }

  /** sp_rename of a legacy column to its canonical name. */
  function RenameStep(t: Table, legacy: string, canonical: string): (r: Table)
    // an existing canonical column is never overwritten
    ensures HasColumn(t, canonical) ==> r == t
    ensures !HasColumn(t, legacy) ==> r == t
    ensures r.Present? <==> t.Present?
    // afterwards no rename is pending
    ensures r.Present? ==> canonical in r.columns || legacy !in r.columns
    // nothing but the column set changes, and only by trading the two names
    ensures r.Present? ==> r.(columns := t.columns) == t
    ensures r.Present? ==> r.columns - {legacy, canonical} == t.columns - {legacy, canonical}
    ensures r.Present? && legacy != canonical && r != t ==>
              legacy !in r.columns && canonical in r.columns && legacy in t.columns
  {
    if !HasColumn(t, canonical) && HasColumn(t, legacy)
    then t.(columns := t.columns - {legacy} + {canonical})
    else t
  }

  /** ALTER TABLE ADD CreatedAt DATETIME2 NULL: every existing row gets NULL,
      and the new column has no default. */
  function AddCreatedAtStep(t: Table): (r: Table)
    ensures HasColumn(t, CreatedAt) || t.Absent? ==> r == t
    ensures t.Present? ==> HasColumn(r, CreatedAt)
    ensures t.Present? && !HasColumn(t, CreatedAt) ==>
              && r.createdAtNullable && r.createdAtDefault.None?
              && |r.createdAt| == |t.createdAt| && (|t.createdAt| > 0 ==> HasNullCreatedAt(r))
    ensures r.Present? ==> r.columns == t.columns + {CreatedAt} && r.indexes == t.indexes
  {
    if t.Present? && !HasColumn(t, CreatedAt) then
      var cells: seq<Option<Timestamp>> := seq(|t.createdAt|, _ => None);
      assert |cells| > 0 ==> cells[0] == None;
      t.(columns := t.columns + {CreatedAt}, createdAtNullable := true, createdAt := cells, createdAtDefault := None)
    else t
  }

  /** Every NULL cell replaced by `now`, every other cell kept. */
  function Backfill(cells: seq<Option<Timestamp>>, now: Timestamp): (r: seq<Option<Timestamp>>)
    ensures |r| == |cells|
    ensures None !in r
    ensures forall i :: 0 <= i < |cells| && cells[i].Some? ==> r[i] == cells[i]
    ensures forall i :: 0 <= i < |cells| && cells[i].None? ==> r[i] == Some(now)
  {
    seq(|cells|, i requires 0 <= i < |cells| => if cells[i].None? then Some(now) else cells[i])
  }

  /** UPDATE ... SET CreatedAt = SYSUTCDATETIME() WHERE CreatedAt IS NULL. */
  function BackfillStep(t: Table, now: Timestamp): (r: Table)
    ensures !HasColumn(t, CreatedAt) ==> r == t
    ensures HasColumn(t, CreatedAt) ==> !HasNullCreatedAt(r)
    ensures r.Present? ==> r.(createdAt := t.createdAt) == t && |r.createdAt| == |t.createdAt|
    ensures r.Present? ==> forall i :: 0 <= i < |t.createdAt| && t.createdAt[i].Some? ==> r.createdAt[i] == t.createdAt[i]
  {
    if HasColumn(t, CreatedAt) && HasNullCreatedAt(t)
    then t.(createdAt := Backfill(t.createdAt, now))
    else t
  }

  /** ALTER TABLE ADD CONSTRAINT <name> DEFAULT SYSUTCDATETIME() FOR CreatedAt,
      as the catalog ends up whether or not SQL Server accepts it: a column
      gets the named default only when it had none. */
  function AddDefaultStep(t: Table, name: string): (r: Table)
    ensures !HasColumn(t, CreatedAt) ==> r == t
    // an existing default is never replaced, and a refused statement changes nothing
    ensures t.Present? && t.createdAtDefault.Some? ==> r == t
    ensures HasColumn(t, CreatedAt) && t.createdAtDefault.None? ==> r.Present? && r.createdAtDefault == Some(Named(name))
    ensures r.Present? ==> r.(createdAtDefault := t.createdAtDefault) == t
  {
    if HasColumn(t, CreatedAt) && t.createdAtDefault.None?
    then t.(createdAtDefault := Some(Named(name)))
    else t
  }

  /** ALTER TABLE ALTER COLUMN CreatedAt DATETIME2 NOT NULL. */
  function TightenStep(t: Table): (r: Table)
    ensures !HasColumn(t, CreatedAt) || HasNullCreatedAt(t) ==> r == t
    ensures HasColumn(t, CreatedAt) && !HasNullCreatedAt(t) ==> r.Present? && !r.createdAtNullable
    // the column is never NOT NULL while a NULL cell remains, unless it was already
    ensures r.Present? && !r.createdAtNullable ==> !t.createdAtNullable || !HasNullCreatedAt(r)
    ensures r.Present? ==> r.(createdAtNullable := t.createdAtNullable) == t
  {
    if HasColumn(t, CreatedAt) && !HasNullCreatedAt(t)
    then t.(createdAtNullable := false)
    else t
  }

  /** CREATE INDEX <name> ON table (CreatedAt DESC, Id DESC). */
  function CreateIndexStep(t: Table, name: string): (r: Table)
    ensures !HasColumn(t, CreatedAt) || Named(name) in t.indexes ==> r == t
    ensures HasColumn(t, CreatedAt) ==> r.Present? && Named(name) in r.indexes
    ensures r.Present? ==> r.(indexes := t.indexes) == t && t.indexes <= r.indexes
    ensures r.Present? ==> r.indexes - {Named(name)} == t.indexes - {Named(name)}
  {
    if HasColumn(t, CreatedAt) && Named(name) !in t.indexes
    then t.(indexes := t.indexes + {Named(name)})
    else t
  }

  /** The catalog after one block. */
  function Exec(d: Ddl, t: Table): Table {
    match d
    case CreateTable(columns) => CreateTableStep(t, columns)
    case RenameColumn(legacy, canonical) => RenameStep(t, legacy, canonical)
    case AddCreatedAtNullable => AddCreatedAtStep(t)
    case BackfillCreatedAt(now) => BackfillStep(t, now)
    case AddDefault(name, _) => AddDefaultStep(t, name)
    case AlterCreatedAtNotNull => TightenStep(t)
    case CreateIndex(name) => CreateIndexStep(t, name)
  }

  /** A table part way through its blocks, with the statements sent so far
      and whether the last of them was refused. */
  datatype Stage = Stage(table: Table, issued: seq<Ddl>, failed: bool) {
    /** The next block. Once a statement is refused its awaited query
        throws and nothing after it runs. */
    function Then(d: Ddl): Stage {
      if failed || !Guard(d, table) then this
      else Stage(Exec(d, table), issued + [d], Rejects(d, table))
    }
  }

  /** Users: create if missing (db.js:30-43). */
  function MigrateUsers(t: Table): Stage {
    Stage(t, [], false).Then(CreateTable(UsersColumns))
  }

  /** The five CreatedAt blocks shared by Messages and Images: add the
      column, backfill, DF_ default, tightening, IX_ index. */
  function CreatedAtBlocks(s: Stage, check: DefaultCheck, now: Timestamp, defaultName: string, indexName: string): Stage {
    s.Then(AddCreatedAtNullable)
     .Then(BackfillCreatedAt(now))
     .Then(AddDefault(defaultName, check))
     .Then(AlterCreatedAtNotNull)
     .Then(CreateIndex(indexName))
  }

  /** Messages: create if missing, the two renames, then the CreatedAt
      blocks (db.js:46-102). */
  function MigrateMessages(t: Table, check: DefaultCheck, now: Timestamp): Stage {
    var renamed := Stage(t, [], false)
      .Then(CreateTable(MessagesColumns))
      .Then(RenameColumn("content", "Body"))
      .Then(RenameColumn("username", "Username"));
    CreatedAtBlocks(renamed, check, now, MessagesDefault, MessagesIndex)
  }

  /** Images: create if missing, then the CreatedAt blocks (db.js:105-155). */
  function MigrateImages(t: Table, check: DefaultCheck, now: Timestamp): Stage {
    CreatedAtBlocks(Stage(t, [], false).Then(CreateTable(ImagesColumns)), check, now, ImagesDefault, ImagesIndex)
  }

  datatype Catalog = Catalog(users: Table, messages: Table, images: Table)

  datatype TableName = Users | Messages | Images

  /** A statement that was sent, with the table it was sent for. */
  datatype Statement = Statement(table: TableName, ddl: Ddl)

  /** The catalog after a run, the statements sent, and whether the run
      stopped at a refused statement (`ensureSchema` rejects, and `start()`
      exits the process). */
  datatype Migration = Migration(catalog: Catalog, issued: seq<Statement>, failed: bool)

  function Tag(table: TableName, ds: seq<Ddl>): (r: seq<Statement>)
    ensures |r| == |ds|
    ensures forall i :: 0 <= i < |ds| ==> r[i].table == table && r[i].ddl == ds[i]
  {
    seq(|ds|, i requires 0 <= i < |ds| => Statement(table, ds[i]))
  }

  /** One `ensureSchema()` run: Users, then Messages, then Images, stopping
      at the first refused statement. `ByName` is the program as written.
      `messagesNow` and `imagesNow` are what SYSUTCDATETIME() returns in the
      two backfill UPDATE statements. */
  function EnsureSchema(c: Catalog, check: DefaultCheck, messagesNow: Timestamp, imagesNow: Timestamp): Migration {
    var u := MigrateUsers(c.users);
    var m := MigrateMessages(c.messages, check, messagesNow);
    if m.failed then
      Migration(Catalog(u.table, m.table, c.images), Tag(Users, u.issued) + Tag(Messages, m.issued), true)
    else
      var i := MigrateImages(c.images, check, imagesNow);
      Migration(Catalog(u.table, m.table, i.table),
                Tag(Users, u.issued) + Tag(Messages, m.issued) + Tag(Images, i.issued), i.failed)
  }

  /** CreatedAt carries the default the DF_ block is satisfied with: the
      named one when it looks by name, any default when it looks at the
      column. */
  predicate HasDefault(t: Table, check: DefaultCheck, name: string) {
    && t.Present?
    && (match check
        case ByName => t.createdAtDefault == Some(Named(name))
        case ByColumn => t.createdAtDefault.Some?)
  }

  /** The target shape of a table with a CreatedAt column: the column
      present, free of NULLs and NOT NULL, with its default and the named
      index. */
  predicate Ready(t: Table, check: DefaultCheck, defaultName: string, indexName: string) {
    && HasColumn(t, CreatedAt)
    && !HasNullCreatedAt(t)
    && !t.createdAtNullable
    && HasDefault(t, check, defaultName)
    && Named(indexName) in t.indexes
  }

  /** The DF_ block of this table will be refused: the table is created
      with its inline default and the check looks by name, or CreatedAt
      already has a default the check does not recognise. */
  predicate Blocked(t: Table, check: DefaultCheck, defaultName: string) {
    || (t.Absent? && check == ByName)
    || (HasColumn(t, CreatedAt) && t.createdAtDefault.Some? && !HasDefault(t, check, defaultName))
  }

  /** No rename of Messages is pending: each canonical name is there, or its
      legacy name is not. */
  predicate RenamesSettled(t: Table) {
    t.Present? ==>
      && ("Body" in t.columns || "content" !in t.columns)
      && ("Username" in t.columns || "username" !in t.columns)
  }

  predicate Converged(c: Catalog, check: DefaultCheck) {
    && c.users.Present?
    && Ready(c.messages, check, MessagesDefault, MessagesIndex)
    && RenamesSettled(c.messages)
    && Ready(c.images, check, ImagesDefault, ImagesIndex)
  }
}
