/** Convergence, fixpoint and idempotence of `ensureSchema` (db.js:26-156),
    for the DF_ guard as written (`ByName`) and for a guard that asks
    whether CreatedAt has any default (`ByColumn`). */
module SchemaProofs {
  import opened Wrappers
  import opened Schema

  /** A table that is already in target shape is left as it is by every
      CreatedAt block; only the NOT NULL tightening is still sent. */
  lemma {:induction false} ReadyTableIsFixed(t: Table, check: DefaultCheck, defaultName: string, indexName: string, now: Timestamp)
    requires Ready(t, check, defaultName, indexName)
    ensures Exec(AddCreatedAtNullable, t) == t && !Guard(AddCreatedAtNullable, t)
    ensures Exec(BackfillCreatedAt(now), t) == t && !Guard(BackfillCreatedAt(now), t)
    ensures Exec(AddDefault(defaultName, check), t) == t && !Guard(AddDefault(defaultName, check), t)
    ensures Exec(AlterCreatedAtNotNull, t) == t && Guard(AlterCreatedAtNotNull, t) && !Rejects(AlterCreatedAtNotNull, t)
    ensures Exec(CreateIndex(indexName), t) == t && !Guard(CreateIndex(indexName), t)
  {
    assert TightenStep(t) == t.(createdAtNullable := false);
    assert t.createdAtDefault.Some?;
  }

  /** The CreatedAt blocks on a table in target shape send the tightening
      alone and change nothing. */
  lemma {:induction false} ReadyBlocksFixed(t: Table, issued: seq<Ddl>, check: DefaultCheck, now: Timestamp,
                                            defaultName: string, indexName: string)
    requires Ready(t, check, defaultName, indexName)
    ensures CreatedAtBlocks(Stage(t, issued, false), check, now, defaultName, indexName)
              == Stage(t, issued + [AlterCreatedAtNotNull], false)
  {
    ReadyTableIsFixed(t, check, defaultName, indexName, now);
    var s2 := Stage(t, issued, false).Then(AddCreatedAtNullable).Then(BackfillCreatedAt(now)).Then(AddDefault(defaultName, check));
    assert s2 == Stage(t, issued, false);
  }

  /** The default CreatedAt has once the column has been added. */
  lemma AddedColumnDefault(t: Table, now: Timestamp)
    requires t.Present?
    ensures var r := BackfillStep(AddCreatedAtStep(t), now);
      && HasColumn(r, CreatedAt)
      && r.createdAtDefault == (if HasColumn(t, CreatedAt) then t.createdAtDefault else None)
  {
  }

  /** The five CreatedAt blocks on an existing table stop at the DF_
      statement exactly when it is blocked. Otherwise they end in target
      shape: column present, NULL-free, NOT NULL, with its default and the
      IX_ index. No row is lost, only CreatedAt is added to the columns, and
      timestamps already stored are kept. */
  lemma {:induction false} CreatedAtBlocksConverge(t: Table, issued: seq<Ddl>, check: DefaultCheck, now: Timestamp,
                                                   defaultName: string, indexName: string)
    requires t.Present?
    ensures var s := CreatedAtBlocks(Stage(t, issued, false), check, now, defaultName, indexName);
      && (s.failed <==> Blocked(t, check, defaultName))
      && (!s.failed ==>
            && Ready(s.table, check, defaultName, indexName)
            && s.table.columns == t.columns + {CreatedAt}
            && |s.table.createdAt| == |t.createdAt|
            && (HasColumn(t, CreatedAt) ==>
                  forall i :: 0 <= i < |t.createdAt| && t.createdAt[i].Some? ==> s.table.createdAt[i] == t.createdAt[i]))
  {
    var s1 := Stage(t, issued, false).Then(AddCreatedAtNullable);
    assert s1.table == AddCreatedAtStep(t) && !s1.failed;
    var s2 := s1.Then(BackfillCreatedAt(now));
    assert s2.table == BackfillStep(s1.table, now) && !s2.failed;
    AddedColumnDefault(t, now);
    var s3 := s2.Then(AddDefault(defaultName, check));
    assert s3.failed <==> Blocked(t, check, defaultName);
    if !s3.failed {
      assert s3.table == AddDefaultStep(s2.table, defaultName);
      assert HasDefault(s3.table, check, defaultName);
      var s4 := s3.Then(AlterCreatedAtNotNull);
      assert s4.table == TightenStep(s3.table) && !s4.failed;
      var s5 := s4.Then(CreateIndex(indexName));
      assert s5.table == CreateIndexStep(s4.table, indexName) && !s5.failed;
    }
  }

  /** One pass over Messages stops at the DF_ statement exactly when it is
      blocked; otherwise it ends in target shape with no rename pending,
      keeps every row and every stored timestamp, and `Body` exists
      afterwards iff `Body` or `content` existed before. */
  lemma {:induction false} MessagesConverge(t: Table, check: DefaultCheck, now: Timestamp)
    ensures var s := MigrateMessages(t, check, now);
      && (s.failed <==> Blocked(t, check, MessagesDefault))
      && (!s.failed ==>
            && Ready(s.table, check, MessagesDefault, MessagesIndex)
            && RenamesSettled(s.table)
            && (t.Present? ==> |s.table.createdAt| == |t.createdAt|)
            && (t.Present? ==> ("Body" in s.table.columns <==> "Body" in t.columns || "content" in t.columns))
            && (HasColumn(t, CreatedAt) ==>
                  forall i :: 0 <= i < |t.createdAt| && t.createdAt[i].Some? ==> s.table.createdAt[i] == t.createdAt[i]))
  {
    var s1 := Stage(t, [], false).Then(CreateTable(MessagesColumns));
    var t0 := CreateTableStep(t, MessagesColumns);
    assert s1.table == t0 && !s1.failed;
    var s3 := s1.Then(RenameColumn("content", "Body")).Then(RenameColumn("username", "Username"));
    assert s3.table == RenameStep(RenameStep(t0, "content", "Body"), "username", "Username") && !s3.failed;
    assert s3.table.(columns := t0.columns) == t0;
    assert RenamesSettled(s3.table);
    assert HasColumn(s3.table, CreatedAt) <==> HasColumn(t0, CreatedAt);
    assert Blocked(s3.table, check, MessagesDefault) <==> Blocked(t, check, MessagesDefault);
    CreatedAtBlocksConverge(s3.table, s3.issued, check, now, MessagesDefault, MessagesIndex);
    assert MigrateMessages(t, check, now) == CreatedAtBlocks(Stage(s3.table, s3.issued, false), check, now, MessagesDefault, MessagesIndex);
  }

  /** One pass over Images stops at the DF_ statement exactly when it is
      blocked; otherwise it ends in target shape, keeping every row, every
      column and every stored timestamp. */
  lemma {:induction false} ImagesConverge(t: Table, check: DefaultCheck, now: Timestamp)
    ensures var s := MigrateImages(t, check, now);
      && (s.failed <==> Blocked(t, check, ImagesDefault))
      && (!s.failed ==>
            && Ready(s.table, check, ImagesDefault, ImagesIndex)
            && (t.Present? ==> |s.table.createdAt| == |t.createdAt| && t.columns <= s.table.columns)
            && (HasColumn(t, CreatedAt) ==>
                  forall i :: 0 <= i < |t.createdAt| && t.createdAt[i].Some? ==> s.table.createdAt[i] == t.createdAt[i]))
  {
    var s1 := Stage(t, [], false).Then(CreateTable(ImagesColumns));
    var t0 := CreateTableStep(t, ImagesColumns);
    assert s1.table == t0 && !s1.failed;
    assert Blocked(t0, check, ImagesDefault) <==> Blocked(t, check, ImagesDefault);
    CreatedAtBlocksConverge(t0, s1.issued, check, now, ImagesDefault, ImagesIndex);
  }

  /** One `ensureSchema` pass fails exactly when the DF_ statement of
      Messages or of Images is blocked; otherwise it converges: Users
      exists, and Messages and Images are in target shape. */
  lemma {:induction false} EnsureSchemaConverges(c: Catalog, check: DefaultCheck, messagesNow: Timestamp, imagesNow: Timestamp)
    ensures var m := EnsureSchema(c, check, messagesNow, imagesNow);
      && (m.failed <==> Blocked(c.messages, check, MessagesDefault) || Blocked(c.images, check, ImagesDefault))
      && (!m.failed ==> Converged(m.catalog, check))
      && m.catalog.users.Present?
  {
    MessagesConverge(c.messages, check, messagesNow);
    ImagesConverge(c.images, check, imagesNow);
  }

  /** With the DF_ block asking whether CreatedAt has any default, one
      `ensureSchema` pass converges from every catalog. */
  lemma {:induction false} IntendedConverges(c: Catalog, messagesNow: Timestamp, imagesNow: Timestamp)
    ensures var m := EnsureSchema(c, ByColumn, messagesNow, imagesNow);
      !m.failed && Converged(m.catalog, ByColumn)
  {
    EnsureSchemaConverges(c, ByColumn, messagesNow, imagesNow);
    assert !Blocked(c.messages, ByColumn, MessagesDefault);
    assert !Blocked(c.images, ByColumn, ImagesDefault);
  }

  /** On a converged catalog `ensureSchema` succeeds and changes nothing,
      yet it is not free of DDL: the two ALTER COLUMN ... NOT NULL
      statements are sent again, because their guard ignores the current
      nullability. */
  lemma {:induction false} ConvergedIsFixpoint(c: Catalog, check: DefaultCheck, messagesNow: Timestamp, imagesNow: Timestamp)
    requires Converged(c, check)
    ensures var m := EnsureSchema(c, check, messagesNow, imagesNow);
      && !m.failed
      && m.catalog == c
      && m.issued == [Statement(Messages, AlterCreatedAtNotNull), Statement(Images, AlterCreatedAtNotNull)]
  {
    var renamed := Stage(c.messages, [], false)
      .Then(CreateTable(MessagesColumns))
      .Then(RenameColumn("content", "Body"))
      .Then(RenameColumn("username", "Username"));
    assert renamed == Stage(c.messages, [], false);
    ReadyBlocksFixed(c.messages, [], check, messagesNow, MessagesDefault, MessagesIndex);
    assert MigrateMessages(c.messages, check, messagesNow) == Stage(c.messages, [AlterCreatedAtNotNull], false);
    assert Stage(c.images, [], false).Then(CreateTable(ImagesColumns)) == Stage(c.images, [], false);
    ReadyBlocksFixed(c.images, [], check, imagesNow, ImagesDefault, ImagesIndex);
    assert MigrateImages(c.images, check, imagesNow) == Stage(c.images, [AlterCreatedAtNotNull], false);
    assert MigrateUsers(c.users) == Stage(c.users, [], false);
  }

  /** A second run after one that succeeded leaves the catalog as the first
      left it, whatever the clock says on either run, and sends exactly the
      two NOT NULL tightenings. */
  lemma {:induction false} EnsureSchemaIdempotent(c: Catalog, check: DefaultCheck, now1: Timestamp, now2: Timestamp,
                                                  later1: Timestamp, later2: Timestamp)
    ensures var once := EnsureSchema(c, check, now1, now2);
      var twice := EnsureSchema(once.catalog, check, later1, later2);
      !once.failed ==>
        && !twice.failed
        && twice.catalog == once.catalog
        && twice.issued == [Statement(Messages, AlterCreatedAtNotNull), Statement(Images, AlterCreatedAtNotNull)]
  {
    var once := EnsureSchema(c, check, now1, now2);
    EnsureSchemaConverges(c, check, now1, now2);
    if !once.failed {
      ConvergedIsFixpoint(once.catalog, check, later1, later2);
    }
  }

  /** What Messages sends on an empty database when its DF_ block asks
      whether CreatedAt has any default: CREATE TABLE, the tightening, the
      index. */
  const FreshMessagesDdl: seq<Ddl> := [CreateTable(MessagesColumns), AlterCreatedAtNotNull, CreateIndex(MessagesIndex)]

  /** The same for Images. */
  const FreshImagesDdl: seq<Ddl> := [CreateTable(ImagesColumns), AlterCreatedAtNotNull, CreateIndex(ImagesIndex)]

  /** Messages on an empty database. As written, CREATE TABLE is followed by
      the ADD CONSTRAINT for DF_Messages_CreatedAt, which is refused because
      the inline default is already bound. Checking the column instead keeps
      the inline default and goes on to the tightening and the index. */
  lemma {:induction false} FreshMessagesRun(t: Table, check: DefaultCheck, now: Timestamp)
    requires t.Absent?
    ensures var s := MigrateMessages(t, check, now);
      && (check == ByName ==>
            && s.failed
            && s.issued == [CreateTable(MessagesColumns), AddDefault(MessagesDefault, ByName)]
            && s.table == Present(MessagesColumns, false, [], Some(Generated), {Generated}))
      && (check == ByColumn ==>
            && !s.failed
            && s.issued == FreshMessagesDdl
            && s.table == Present(MessagesColumns, false, [], Some(Generated), {Generated, Named(MessagesIndex)}))
  {
    var created := Present(MessagesColumns, false, [], Some(Generated), {Generated});
    var s1 := Stage(t, [], false).Then(CreateTable(MessagesColumns));
    assert s1 == Stage(created, [CreateTable(MessagesColumns)], false);
    var s5 := s1.Then(RenameColumn("content", "Body")).Then(RenameColumn("username", "Username"))
                .Then(AddCreatedAtNullable).Then(BackfillCreatedAt(now));
    assert s5 == s1;
    var s6 := s5.Then(AddDefault(MessagesDefault, check));
    if check == ByName {
      assert s6 == Stage(created, [CreateTable(MessagesColumns), AddDefault(MessagesDefault, ByName)], true);
    } else {
      assert s6 == s1;
      var s7 := s6.Then(AlterCreatedAtNotNull);
      assert s7 == Stage(created, [CreateTable(MessagesColumns), AlterCreatedAtNotNull], false);
    }
  }

  /** Images on an empty database, as for Messages: refused at the DF_
      statement as written, and three statements when the column is
      checked. */
  lemma {:induction false} FreshImagesRun(t: Table, check: DefaultCheck, now: Timestamp)
    requires t.Absent?
    ensures var s := MigrateImages(t, check, now);
      && (check == ByName ==>
            && s.failed
            && s.issued == [CreateTable(ImagesColumns), AddDefault(ImagesDefault, ByName)]
            && s.table == Present(ImagesColumns, false, [], Some(Generated), {Generated}))
      && (check == ByColumn ==>
            && !s.failed
            && s.issued == FreshImagesDdl
            && s.table == Present(ImagesColumns, false, [], Some(Generated), {Generated, Named(ImagesIndex)}))
  {
    var created := Present(ImagesColumns, false, [], Some(Generated), {Generated});
    var s1 := Stage(t, [], false).Then(CreateTable(ImagesColumns));
    assert s1 == Stage(created, [CreateTable(ImagesColumns)], false);
    var s3 := s1.Then(AddCreatedAtNullable).Then(BackfillCreatedAt(now));
    assert s3 == s1;
    var s4 := s3.Then(AddDefault(ImagesDefault, check));
    if check == ByName {
      assert s4 == Stage(created, [CreateTable(ImagesColumns), AddDefault(ImagesDefault, ByName)], true);
    } else {
      assert s4 == s1;
      var s5 := s4.Then(AlterCreatedAtNotNull);
      assert s5 == Stage(created, [CreateTable(ImagesColumns), AlterCreatedAtNotNull], false);
    }
  }

  /** The program as written cannot start on an empty database: the run
      creates Users and Messages, sends the refused DF_Messages_CreatedAt
      statement and stops before Images. Every later start fails the same
      way, since Messages keeps its inline default. */
  lemma {:induction false} FreshDatabaseFails(c: Catalog, now1: Timestamp, now2: Timestamp, later1: Timestamp, later2: Timestamp)
    requires c.users.Absent? && c.messages.Absent? && c.images.Absent?
    ensures var m := EnsureSchema(c, ByName, now1, now2);
      && m.failed
      && m.issued == [Statement(Users, CreateTable(UsersColumns)), Statement(Messages, CreateTable(MessagesColumns)),
                      Statement(Messages, AddDefault(MessagesDefault, ByName))]
      && m.catalog.images.Absent?
      && EnsureSchema(m.catalog, ByName, later1, later2).failed
  {
    var u := MigrateUsers(c.users);
    assert u.issued == [CreateTable(UsersColumns)];
    FreshMessagesRun(c.messages, ByName, now1);
    var m := EnsureSchema(c, ByName, now1, now2);
    assert Tag(Messages, [CreateTable(MessagesColumns), AddDefault(MessagesDefault, ByName)])
        == [Statement(Messages, CreateTable(MessagesColumns)), Statement(Messages, AddDefault(MessagesDefault, ByName))];
    assert Blocked(m.catalog.messages, ByName, MessagesDefault);
    EnsureSchemaConverges(m.catalog, ByName, later1, later2);
  }

  /** With the column checked, an empty database gets every table in seven
      statements, and CreatedAt of Messages and of Images keeps the one
      inline default of CREATE TABLE. */
  lemma {:induction false} FreshDatabaseRun(c: Catalog, now1: Timestamp, now2: Timestamp)
    requires c.users.Absent? && c.messages.Absent? && c.images.Absent?
    ensures var m := EnsureSchema(c, ByColumn, now1, now2);
      && !m.failed
      && m.issued == [Statement(Users, CreateTable(UsersColumns))] + Tag(Messages, FreshMessagesDdl) + Tag(Images, FreshImagesDdl)
      && m.catalog.messages.Present? && m.catalog.messages.createdAtDefault == Some(Generated)
      && m.catalog.images.Present? && m.catalog.images.createdAtDefault == Some(Generated)
  {
    var u := MigrateUsers(c.users);
    assert u.issued == [CreateTable(UsersColumns)];
    assert Tag(Users, u.issued) == [Statement(Users, CreateTable(UsersColumns))];
    FreshMessagesRun(c.messages, ByColumn, now1);
    FreshImagesRun(c.images, ByColumn, now2);
  }

  /** The columns of the legacy Messages table. */
  const LegacyMessagesColumns: set<string> := {"Id", "username", "content", CreatedAt}

  /** The legacy shape of Messages (columns `content` and `username`, a
      nullable CreatedAt holding NULLs) converges in one pass unless its
      CreatedAt already has a default the DF_ block does not recognise:
      canonical names, no NULL left, NOT NULL, the default and the index,
      and no row lost. */
  lemma {:induction false} LegacyMessagesConverge(t: Table, check: DefaultCheck, now: Timestamp)
    requires t.Present? && t.columns == LegacyMessagesColumns && HasNullCreatedAt(t)
    ensures var s := MigrateMessages(t, check, now);
      && (s.failed <==> t.createdAtDefault.Some? && !HasDefault(t, check, MessagesDefault))
      && (!s.failed ==>
            && Ready(s.table, check, MessagesDefault, MessagesIndex)
            && s.table.columns == MessagesColumns
            && |s.table.createdAt| == |t.createdAt|)
  {
    MessagesConverge(t, check, now);
    var s2 := RenameStep(t, "content", "Body");
    assert s2.columns == {"Id", "username", "Body", CreatedAt};
    var s3 := RenameStep(s2, "username", "Username");
    assert s3.columns == MessagesColumns;
    var renamed := Stage(t, [], false)
      .Then(CreateTable(MessagesColumns))
      .Then(RenameColumn("content", "Body"))
      .Then(RenameColumn("username", "Username"));
    assert renamed.table == s3 && !renamed.failed;
    CreatedAtBlocksConverge(s3, renamed.issued, check, now, MessagesDefault, MessagesIndex);
  }
}
