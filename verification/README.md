# A verified model of goInception Plus

goInception Plus checks a batch of SQL against a picture of the schema that follows the batch. If
nothing stands against it, it runs the batch, reads the row changes back from the ROW binlog, and
stores SQL that undoes them. This project models those parts of the system in Dafny and proves what
they promise, for all inputs, all runs and all interleavings.

`dafny verify dfyconfig.toml` checks everything.

## How it is organised

| files | part of the system |
|---|---|
| `text`, `seqs`, `catalog` | strings, sequences, and the tables, columns and indexes all parts share |
| `splitter`, `lexical` | splitting a request into statements and joining the body again; which text is a quote or a comment |
| `statements`, `generator` | the undo statement as a value and as text; which key it uses; when the audit admits a table |
| `meaning` | the value that a literal gives a column, and that captured values come back from their literals |
| `rows`, `restore` | what undo statements do to tables, and when running them backwards takes every table back |
| `capture` | which binlog rows belong to the statement just run, and that they are what it changed |
| `store`, `endtoend` | dividing undo statements among backup databases, reading them back, and the whole way round |
| `snapshot`, `create`, `lookup` | CREATE and ALTER on one table, well-formedness, and what is found under a name after each operation |
| `alterundo`, `alterorder` | the rollback of an ALTER, and running it in either order on the columns |
| `alterserver` | an ALTER and its rollback as the server runs them |
| `alterindexes`, `altercolumns`, `alternames` | what becomes of the added indexes, of nullability, and of the names |
| `alterrestore` | when the rollback of an ALTER restores the table on the server, in either order |
| `heap` | the same edits in place on shared arrays, and why a failed ALTER leaves the cache alone |
| `views`, `viewlaws`, `provider` | DDL on the whole schema view, what a later statement finds, and the request cache that refines the view |
| `ddlundo`, `ddltext`, `ddleffect` | the rollback of DDL: undoing RENAME and CREATE, the text that is prepared, and what it does |
| `singleflight` | the cache with any number of interleaved callers |
| `engine`, `session`, `wholebatch` | running a batch, checking a batch, the gate, and what holds of every view a batch goes through |
| `recovery`, `ddlback` | from the records of a run to the database it can be undone to, and to the rollback of an ALTER |
| `goodrun` | when a run succeeds from the first statement to the last |
| `runtime` | rule levels set under two naming schemes |

The form follows the source. Loops that fill slices are methods with loop invariants; `BackupStore`,
`TableVar`, `Provider`, `Runtime`, `Levels` and `Target` are classes whose methods say what the new state is;
`heap` keeps Go's arrays and aliasing; the single-flight protocol is a step system. Each method is proved
against a function, and the theorems are about those functions.

What is open in the original stays open here. What the servers answer during a run is a parameter of
the run, and the results are stated as a function of it; other calls that may fail are nondeterministic,
the audit rules may look at any table and raise any issues, maps are visited in any order, and a
statement with LIMIT 1 may hit any row that matches.

## Findings

Some properties one would expect are false of the code. For each there is the exact condition under
which it holds, and a lemma showing the failure. The last two entries are facts about Go types that the
model takes as given.

- The body of a request is split, trimmed and joined again. Trimming removes the newline that ended a
  line comment, so the `;` put behind it is swallowed (`Splitter.CommentSwallowsTheSemicolon`). The
  round trip holds if and only if no part ends in a line comment (`Splitter.BodyRoundTrip`).
- saveGroup writes inside a transaction, but CREATE TABLE ends it (MySQL 8.0 Reference Manual, section
  "Statements That Cause an Implicit Commit"). From then on every INSERT takes effect by itself and the
  rollback of the transaction undoes nothing: a group that fails can leave its first rows without an
  information row (`Store.OrphanRow`). It leaves nothing if and only if it names no table or failed before the first INSERT
  (`Store.FailureLeavesNothing`). Such rows do not show when other operations are read back
  (`Store.OthersReadBack`), but under a repeated id they are added to what is read back for that id
  (`Store.RepeatedId`).
- The undo of a delete or an update writes every column. The server refuses values for generated
  columns (MySQL 8.0 Reference Manual, section "CREATE TABLE and Generated Columns"): such an undo is
  generated and stored, and cannot be run (`Rows.GeneratedButRefused`, `Rows.GeneratedIsRefused`). And it puts
  the next number in place of a 0 in an AUTO_INCREMENT column, unless NO_AUTO_VALUE_ON_ZERO is set
  (section "Using AUTO_INCREMENT"): a deleted row with 0 there comes back as another row, without
  an error, and the undo of an earlier change to it then finds nothing (`Rows.ZeroComesBackChanged`). The stored
  statements take the database back through every state of the run, and can do nothing else, if
  and only if no change is of these two kinds (`Rows.UndoRestores`, `EndToEnd.BatchUndoRestores`,
  `Recovery.RunCanBeUndone`). They then lead to the initial database and to no other; if one writes a generated
  column they lead nowhere. The last state alone does not tell: a row that was inserted and then
  deleted can come back under another number and be deleted again (`Rows.RepairedLater`).
- Rows that the server reports as affected are lost without an error, and their backup is reported complete, if and
  only if its binlog position has not moved (`Capture.LostIffUnmoved`), as when a filter keeps the schema
  out of the binlog. The prerequisites that are checked (internal/backup/binlogmysql/capture.go:32-48) do not see that.
- The rollback of an ALTER is written from the parsed statement. The server calls every primary key PRIMARY,
  makes its columns NOT NULL, and names an index that has no name. So the rollback of `ADD INDEX (a)` drops an
  index called "" (`AlterRestore.UnnamedIndexFails`), that of `ADD CONSTRAINT pk PRIMARY KEY (a)` an index `pk`
  that is not there (`AlterRestore.NamedPrimaryKeyFails`), and that of a primary key over a column that could be
  NULL leaves it NOT NULL (`AlterRestore.PrimaryKeyStaysNotNull`). An index may stand in the list before the column
  it needs, and is then gone with the column when its turn comes
  (`AlterRestore.IndexBeforeItsColumnFails`). In the order of emission the rollback runs if and only if every
  added index has a name, a primary one the name PRIMARY up to letter case, and every added index an expression
  or a column that no later operation adds; it restores the table if and only if, besides, no primary key was
  added over a column that could be NULL (`AlterRestore.UndoRestores`).
- DML rollbacks are stored in capture order and must be read backwards. ALTER rollbacks are stored in
  the order to run them, and `testcases/phase5-6/protocol_smoke.py` reads everything by descending id. Read so, the
  rollback of an ALTER runs if and only if its names are as above, every added index has an expression or a
  column that no earlier operation adds, and no operation gives a column name that an earlier one took
  away; it restores the table under the same further condition (`AlterRestore.DescendingRestores`). A column
  with an index on it (`AlterRestore.IndexOnAddedColumnFails`) and a renaming followed by a new column of the old
  name (`AlterRestore.RenameThenAddFails`) make it fail.
- A RENAME TABLE that takes a table twice is accepted by PrepareDDL and then fails in ApplyDDL with
  the first renames already in the view (`Views.RenameTwiceFails`, `Views.RenameRefusalLeavesTrace`).
- The undo stored for a CREATE TABLE IF NOT EXISTS that found its table is still a DROP TABLE
  (`DDLUndo.CreateUndoRestores`: undone if and only if the table was not there before).
- hasReliableKey accepts a primary index whose column does not exist; generation then fails
  (`Generator.AdmittedButNotGenerated`).
- CHANGE COLUMN does not check the new name and ADD INDEX does not check its columns. These are
  exactly the operations that can spoil a table (`Snapshot.OpKeepsWellFormed`).
- A put made while a load of the same key is in flight can be overwritten by that load
  (`SingleFlight.EditSurvives`). Between two calls of one caller nothing is in flight, so the session is not
  affected (`SingleFlight.QuietEditSurvives`).
- A table shares its cache key with another if and only if its schema or its own name holds a NUL byte
  (`Provider.NulKeysMeet`).
- RENAME a TO x, b TO x, and ALTER ... RENAME TO a name that is taken, are accepted and lose a table from the
  view without an error: none is lost if and only if the targets are distinct
  (`Views.RenameLosesNoTable`), and the new name is free or the table's own (`Views.AlterLosesNoTable`).
- Admission looks at the request's view of a table, generation at the table loaded after the statement
  has run. The view forgets the expressions of a key made in the same request, so a table whose only key has one is
  admitted and its undo then cannot be generated (`Generator.ExpressionKey`, an if and only if).
- The grant check of the session asks whether the request cache is a grant checker. The cache type
  has no such method (internal/metadata/cache.go:14-197), so the branch at
  internal/session/session.go:126-134 is never entered. The model takes this as the option
  `grantChecker` and proves its results for both values.
- For the same reason the estimate of affected rows never goes through the estimator that takes a rule
  (internal/session/session.go:142-144), so the variable explain_rule has no effect there; the plain
  estimator at line 140 is found (internal/metadata/cache.go:133-139). To the model both are an answer that may be
  anything.

## Model

| member | source | states |
|---|---|---|
| `Splitter.SplitSQL` | internal/request/legacy.go:268-344 | the loop with its five variables and two-rune lookahead computes the split of a character automaton, and reports an unterminated quote or comment exactly when the automaton ends in one |
| `Splitter.ReadInQuote` | internal/request/legacy.go:295-312 | inside quotes, escapes and doubled quotes advance the loop as the automaton does |
| `Splitter.ReadInCode` | internal/request/legacy.go:313-336 | outside them, a comment or quote opens where the automaton says, and a ';' closes the piece |
| `Splitter.AppendPart` | internal/request/legacy.go:329-342 | a closed piece is kept trimmed, or dropped if nothing is left |
| `Splitter.PiecesAreTheCuts` | internal/request/legacy.go:268-344 | the pieces put together with ';' are the text, no piece holds a ';' outside quotes and comments, and every cut lies outside them |
| `Splitter.CutsAreUnique` | internal/request/legacy.go:268-344 | there is only one such list of pieces |
| `Splitter.RoundTrip` | internal/request/legacy.go:144 | for trimmed non-empty parts, splitting the rejoined body gives the same parts if and only if every part holds no cut and ends outside quotes and comments |
| `Splitter.PartIsAtomicOrLine` | internal/request/legacy.go:329-342 | a part that came out of the splitter is such a part unless it ends in a line comment |
| `Splitter.BodyRoundTrip` | internal/request/legacy.go:64-144 | any run of parts of a request survives the rejoin if and only if none ends in a line comment |
| `Splitter.CommentSwallowsTheSemicolon` | internal/request/legacy.go:330 | each part that does end in one is not read back |
| `Lexical.SplitsSentences` | internal/request/legacy.go:268-344 | said by characters alone: in text made of quotations in ', " or backticks (with the quote doubled, or any character behind a backslash except in backticks), # and -- comments to the end of the line, /* */ comments and other characters, exactly the ';' between them cut, whatever stands inside; a last comment may be open |
| `Lexical.OpenIsReported` | internal/request/legacy.go:337-339 | a quotation or block comment that is not closed is reported |
| `Text.SpaceCodes` | internal/request/legacy.go:313 | white space, by code points |
| `Statements.ParseRender` | internal/rollback/generator.go:29-61 | decoding the identifiers and literals of a rendered statement gives back the statement, whatever quotes, backslashes, backticks, ';' or comment marks it holds |
| `Statements.RenderedIsOneStatement` | internal/rollback/generator.go:29-61 | splitting a rendered statement gives exactly one part, its body |
| `Statements.RenderedScript` | internal/request/legacy.go:268-344 | splitting a script of rendered statements gives exactly those statements in order |
| `Statements.ReadsIdent` | internal/rollback/generator.go:122 | a quoted identifier reads back as the name |
| `Statements.ReadsEscaped` | internal/rollback/generator.go:123-165 | a string with its backslashes and quotes doubled reads back as the string |
| `Statements.ReadsLit` | internal/rollback/generator.go:123-193 | every literal reads back as written, numbers in the server's own form with sign, fraction and exponent |
| `Generator.LiteralSound` | internal/rollback/generator.go:167-193 | the literal of a value reads back if and only if text written without quotes is a number as the server reads numbers, and it is NULL exactly for nil |
| `Meaning.LiteralMeans` | internal/rollback/generator.go:123-193 | the literal written for a captured value gives the column that value back: text is itself, an integer or decimal its number, bytes are themselves or the text they encode, 1 and 0 are the booleans, and NULL is nil |
| `Meaning.GivenAbsent` | internal/rollback/generator.go:167-170 | only NULL gives NULL |
| `Meaning.KindIsTold` | internal/rollback/generator.go:171-192 | for the column types of the server, looking for words in the type tells columns of bytes, exact and approximate numbers apart |
| `Meaning.IntTextMeans` | internal/rollback/generator.go:136-155 | the text of an integer stands for that integer |
| `Meaning.DecimalMeans` | internal/rollback/generator.go:189-191 | digits with a point stand for their numeral divided by a power of ten, with or without a sign |
| `Generator.NonNullIndex` | internal/rollback/generator.go:101-121 | whether all columns of a unique index exist and are not nullable |
| `Generator.ChooseKey` | internal/rollback/generator.go:62-85 | the key is the first primary index, else the first unique index without nullable columns |
| `Generator.KeyWhereSQL` | internal/rollback/generator.go:62-100 | the text of the condition on the key, or the error when there is no key, a column is missing or the image is short |
| `Generator.InsertSQL` | internal/rollback/generator.go:29-40 | the text of the INSERT with all columns and literals of the image |
| `Generator.UpdateSQL` | internal/rollback/generator.go:48-61 | the text of the UPDATE that sets the before image where the key is that of the after image |
| `Generator.Generate` | internal/rollback/generator.go:14-61 | the text is that of the inverse of the change, and an error is reported exactly when there is none |
| `Generator.UndoIsReadable` | internal/rollback/generator.go:14-61 | the generated text decodes to the undo statement and the splitter takes it as one statement |
| `Generator.HasReliableKey` | internal/audit/rules/dml.go:168-197 | the two nested loops decide whether the table has a primary index with columns or a unique index of existing columns that are not nullable |
| `Generator.AdmissionIsKeyWhere` | internal/audit/rules/dml.go:91-94 | a key condition exists on a full row image if and only if the table is admitted and its first primary index names existing columns |
| `Generator.AdmissionIsGeneration` | internal/rollback/generator.go:62-121 | on full images generation succeeds if and only if the change is a delete or the table is admitted and its first primary index is sound |
| `Generator.AdmittedIsGenerated` | internal/audit/rules/dml.go:91-94 | if the loaded table has the keys of the view, an admitted table's undo can be generated |
| `Generator.ExpressionKey` | internal/metadata/mysql/provider.go:300-309 | for a unique key made in the same request, the table is admitted, and the undo is generated if and only if the key as loaded has no expression |
| `Generator.AdmittedButNotGenerated` | internal/audit/rules/dml.go:168-173 | an admitted table on which generation fails |
| `Rows.KeyFindsTheRow` | internal/rollback/generator.go:62-100 | in a table whose unique indexes are unique and whose NOT NULL columns hold no NULL, the generated WHERE matches the row of the image and no other row |
| `Rows.KeyTells` | internal/rollback/generator.go:62-85 | whichever index was chosen as the key, two rows of such a table that agree on its columns are the same |
| `Rows.UndoOne` | internal/rollback/generator.go:14-61 | run after its change, key-changing updates included, the undo leads to the state before the change and nowhere else, unless it writes a generated column or a 0 that the server replaces; then it leads elsewhere or nowhere |
| `Rows.GeneratedIsRefused` | internal/rollback/generator.go:34-37 | on a table with a generated column the undo of a delete or an update has no outcome, whatever the rows |
| `Rows.GeneratedButRefused` | internal/rollback/generator.go:34-55 | such a table, admitted, and a deleted row whose undo is generated |
| `Rows.UndoRestores` | internal/rollback/generator.go:14-61 | after any valid sequence of changes of a table of values, the undo statements run backwards go back through its states one by one, and can do nothing else, if and only if every change can be undone; they then lead to the initial rows only, and if one is refused they lead nowhere |
| `Rows.ZeroComesBackChanged` | internal/rollback/generator.go:34-37 | an update to 0 and a delete on a table with an AUTO_INCREMENT key: the undo runs and leaves a row with any other number instead of the first row |
| `Rows.RepairedLater` | internal/rollback/generator.go:34-47 | a row inserted and deleted, whose undo changes its number and yet ends in the initial rows: why the condition speaks of every step |
| `Restore.RunByTable` | internal/backup/mysqlstore/store.go:42-72 | running a script on the database is running each table's statements on that table |
| `Restore.Reordered` | internal/backup/mysqlstore/store.go:42-72 | the changes of a run lead from the first database to the last in any order that keeps the order in each table |
| `Restore.RestoresEveryTable` | internal/backup/mysqlstore/store.go:42-72 | any order that takes each table's changes backwards takes the database back along states it could have gone through, however the tables mix, if and only if every change can be undone; it then leads to the initial database only, and nowhere if an undo is refused |
| `Capture.RowChanges` | internal/backup/binlogmysql/capture.go:182-214 | one change per row, or per pair of images of an update, in order and with its images in the right place; an error exactly for unknown tables, odd images and wrong widths |
| `Capture.Collect` | internal/backup/binlogmysql/capture.go:95-180 | the loop returns the changes of the thread's row events up to the first event at or behind the end position, if there is one, they are sound and number exactly as expected, and an error otherwise |
| `Capture.OwnerIsTheOpenTransaction` | internal/backup/binlogmysql/capture.go:115-141 | the tracked owner is the thread if and only if the nearest query or XID event before is a query of that thread |
| `Capture.StreamOwned` | internal/backup/binlogmysql/capture.go:115-180 | on contiguous transactions the thread's rows are the rows of its own transactions, whatever other connections wrote in between |
| `Capture.StreamOwnedUpTo` | internal/backup/binlogmysql/capture.go:115-180 | the same when the end position falls inside a transaction |
| `Capture.OwnedIsCut` | internal/backup/binlogmysql/capture.go:115-180 | wherever reading stops in a stream of contiguous transactions, the thread's rows so far are those that its transactions show up to there |
| `Capture.CollectsTheThread` | internal/backup/binlogmysql/capture.go:95-180 | on contiguous transactions of any threads with anything without rows between them, Collect returns some changes if and only if they are as many as expected and are the rows that the thread's own transactions show up to the first event at or behind the end position |
| `Capture.CollectedIsMade` | internal/backup/binlogmysql/capture.go:95-180 | if the binlog shows what the statement changed, Collect returns exactly that or an error, whatever end position was asked for |
| `Capture.CollectsAll` | internal/backup/binlogmysql/capture.go:95-180 | if the binlog shows what the statement changed and its last event brings the reader to exactly the end position, all of it is collected, whatever is written behind |
| `Capture.ArrivesInOneFile` | internal/backup/binlogmysql/capture.go:109-125 | within one file the reader arrives when the last event ends at the end position and the others before it |
| `Capture.ArrivesInTheNextFile` | internal/backup/binlogmysql/capture.go:109-125 | and so it does when the file changes on the way |
| `Capture.BehindTheEnd` | internal/backup/binlogmysql/capture.go:172-175 | events behind the one that reaches the end do not change the result |
| `Capture.LostIffUnmoved` | internal/backup/binlogmysql/capture.go:96-98 | reported rows are lost without an error if and only if the position has not moved |
| `Store.BackupStore.Partition` | internal/backup/mysqlstore/store.go:42-56 | every record goes to the group of its backup database, in generation order |
| `Store.BackupNameIs` | internal/backup/mysqlstore/store.go:143-150 | the name is the end of host, port and schema, at most 64 characters, with '-' and '.' as '_' |
| `Store.SharedBackup` | internal/backup/mysqlstore/store.go:143-150 | two schemas share a backup database if and only if what is kept of them agrees but for '-', '.' and '_' |
| `Store.BackupStore.InsertRows` | internal/backup/mysqlstore/store.go:99-108 | the INSERT loop adds the texts in order, up to the INSERT that fails, or stops at a text that has no table |
| `Store.BackupStore.WriteGroup` | internal/backup/mysqlstore/store.go:81-112 | what a group has written when the server fails at any call, and that the transaction is open at the end only if the group names no table |
| `Store.BackupStore.SaveOne` | internal/backup/mysqlstore/store.go:52-70 | what the database holds after a group, for a failure at any call, rollback included |
| `Store.WriteLeaves` | internal/backup/mysqlstore/store.go:52-112 | a group that succeeds is there whole; one that fails is there whole, not at all, or by its first rows without an information row |
| `Store.FailureLeavesNothing` | internal/backup/mysqlstore/store.go:93-108 | a failed group leaves nothing if and only if it names no table or failed before the first INSERT |
| `Store.OrphanRow` | internal/backup/mysqlstore/store.go:99-108 | two texts of which the second cannot be stored: the first stays without an information row |
| `Store.FailedReadsBack` | internal/backup/mysqlstore/store.go:109-112 | under a new id, an operation whose group was not saved whole reads back as nothing |
| `Store.RepeatedId` | internal/backup/mysqlstore/store.go:99-112 | saving under an id that is taken fails, and disturbs what is read back for it if and only if rows were added to its table |
| `Store.LeftKeepsNoRows` | internal/backup/mysqlstore/store.go:81-112 | rows left behind carry the id of their own operation only |
| `Store.BackupStore.Save` | internal/backup/mysqlstore/store.go:42-72 | succeeds if and only if every group can be written; then every backup database holds its whole group and the others are untouched; on failure some groups are saved, one has failed at some call, and the rest was not begun |
| `Store.FailedSaveLeaves` | internal/backup/mysqlstore/store.go:42-72 | so a failed Save leaves in every backup database the whole group, nothing, or its first rows without an information row |
| `Store.EmptyOperation` | internal/backup/mysqlstore/store.go:43-45 | an operation without rollback statements leaves a row in one information table and nothing else |
| `Store.SavedReadsBack` | internal/backup/mysqlstore/store.go:81-116 | if no stored row carried its id before, an operation reads back by descending id last generated first, whatever rows other operations have left, if its first record names the table the texts are in, and as nothing if not |
| `Store.OthersReadBack` | internal/backup/mysqlstore/store.go:81-116 | saving an operation, wholly or in part, does not change what any other operation reads back |
| `EndToEnd.CollectRollbacks` | internal/execution/mysql/engine.go:132-152 | the records of a statement exist if and only if every change can be undone, and are the texts of the undo statements in capture order |
| `EndToEnd.OperationReadsBack` | internal/backup/mysqlstore/store.go:42-116 | after a whole batch, each operation still reads back from each backup database as the undo texts of its changes there, backwards |
| `EndToEnd.BatchUndoRestores` | testcases/phase5-6/protocol_smoke.py:130-139 | for any batch over many tables and schemas, the stored texts read back operation by operation from the last, each operation's databases in any order, decode to statements that take the database back step by step and can do nothing else if and only if every change can be undone; they then lead to the initial database only, and nowhere if an undo is refused |
| `Catalog.FindColumn` | internal/metadata/snapshot.go:397-404 | the first column with that name up to letter case, or -1 |
| `Catalog.FindIndex` | internal/metadata/snapshot.go:405-412 | the first index with that name up to letter case, or -1 |
| `Snapshot.PrefixStaysPaired` | internal/metadata/snapshot.go:376-396 | after dropping a column every surviving column keeps its own prefix length |
| `Snapshot.KeptColumns` | internal/metadata/snapshot.go:376-396 | exactly the columns of another name survive, in order |
| `Snapshot.OpKeepsWellFormed` | internal/metadata/snapshot.go:222-310 | an operation that succeeds keeps a table well-formed if and only if it is not a colliding CHANGE and not an index on missing columns |
| `Snapshot.OpKeepsIndexNames` | internal/metadata/snapshot.go:222-310 | no operation makes two index names equal up to letter case |
| `Snapshot.AlterKeepsWellFormed` | internal/metadata/snapshot.go:202-310 | a whole ALTER of such operations keeps a table well-formed |
| `Snapshot.AlterKeepsIndexNames` | internal/metadata/snapshot.go:202-310 | a whole ALTER keeps index names distinct |
| `Lookup.AddedColumn` | internal/metadata/snapshot.go:224-230 | ADD COLUMN: refused if the name is taken; otherwise the column has exactly the attributes of its definition, and every other name finds what it found |
| `Lookup.ModifiedColumn` | internal/metadata/snapshot.go:238-246 | MODIFY COLUMN: the column has every attribute its definition gives, keeps default, character set, collation, comment, extra and generation where it gives none, and nothing else changes |
| `Lookup.ChangedColumn` | internal/metadata/snapshot.go:247-257 | CHANGE COLUMN: the same under the new name, and the indexes change only by the renaming |
| `Lookup.RenamedColumn` | internal/metadata/snapshot.go:258-267 | RENAME COLUMN: only the name changes, in the column and in the indexes |
| `Lookup.DroppedColumn` | internal/metadata/snapshot.go:231-237 | DROP COLUMN: that name finds nothing and every other name what it found |
| `Lookup.AddedIndex` | internal/metadata/snapshot.go:268-275 | ADD INDEX: the index has its name, columns and kind, without prefix lengths and expressions |
| `Lookup.DroppedIndex` | internal/metadata/snapshot.go:276-281 | DROP INDEX: that name finds nothing and every other name what it found |
| `Lookup.RenamedIndex` | internal/metadata/snapshot.go:282-290 | RENAME INDEX: only the name changes |
| `Lookup.RenamedTable` | internal/metadata/snapshot.go:291-296 | RENAME TO: only schema and name change, and a target without a schema stays in the table's own |
| `Lookup.GivenOptions` | internal/metadata/snapshot.go:297-307 | each table option changes if and only if it is given |
| `Lookup.AddThenModify` | internal/metadata/snapshot.go:312-364 | adding a column and modifying it by a complete definition is adding it by that definition |
| `Lookup.ChangeIsRenameAndModify` | internal/metadata/snapshot.go:238-267 | CHANGE to a free name is RENAME and then MODIFY |
| `Text.EqualFoldIsByLetter` | internal/metadata/snapshot.go:397-412 | names are the same when they agree letter by letter, large and small letters differing by 32 |
| `Create.CheckCreate` | internal/audit/rules/ddl_safety.go:66-86 | the three loops report nothing if and only if column names and index names are distinct up to letter case and every index column is defined |
| `Create.TableFromSpec` | internal/metadata/snapshot.go:183-200 | the loops build the table of the statement: its columns, the inline key, and each index in place of one with the same name |
| `Create.CreatedTable` | internal/metadata/snapshot.go:183-200 | the created table always has distinct index names, and is well-formed when the audit's checks pass |
| `Create.LikeCopies` | internal/metadata/snapshot.go:154-200 | CREATE ... LIKE keeps columns and indexes in order: names, types, nullability, character sets and number attributes of the columns, and every attribute of the indexes |
| `Create.LikeWellFormed` | internal/metadata/snapshot.go:30-43 | the copy of a well-formed table is well-formed |
| `AlterUndo.PrepareRollback` | internal/execution/mysql/engine.go:258-275 | the two backward loops emit the inverse operations last first, or refuse |
| `AlterUndo.RollbackExists` | internal/execution/mysql/engine.go:258-275 | there is a rollback if and only if every operation adds columns, adds an index or renames a column |
| `AlterOrder.DescendingIsForward` | internal/execution/mysql/engine.go:258-275 | by descending id the stored statements undo the added columns, indexes and renamings first to last |
| `AlterOrder.Passes` | internal/metadata/snapshot.go:222-275 | the undo of one operation on columns commutes with a later one that does not meet its names |
| `AlterOrder.ColumnsForward` | testcases/phase5-6/protocol_smoke.py:130-160 | undoing operations on columns first to last succeeds if and only if none gives a name that an earlier one took away, and then restores the table up to letter case |
| `AlterIndexes.SplitRun` | internal/execution/mysql/engine.go:258-275 | the statements of a rollback act on the added indexes and on the rest of the table apart from each other |
| `AlterIndexes.KeptIff` | internal/execution/mysql/engine.go:258-275 | they run on the added indexes if and only if each of these keeps a part until it is dropped, and leave none |
| `AlterColumns.ColumnOutcomes` | internal/execution/mysql/engine.go:258-275 | on columns that the server has made NOT NULL they come, in either order, to the table with those columns NOT NULL, or fail |
| `AlterRestore.UndoRestores` | internal/execution/mysql/engine.go:258-275 | for every ALTER that was admitted and run, under any naming of unnamed indexes: in the order of emission the rollback runs on the server if and only if added indexes have names, primary ones the name PRIMARY, and each an expression or a column that no later operation adds; it restores the table up to letter case if and only if, besides, no primary key covers a column that could be NULL |
| `AlterRestore.DescendingRestores` | testcases/phase5-6/protocol_smoke.py:130-160 | by descending id it runs if and only if the names are so, each added index has an expression or a column that no earlier operation adds, and no operation gives a column name that an earlier one took; it restores under the same further condition |
| `AlterRestore.DescendingOrderOfOne` | testcases/phase5-6/protocol_smoke.py:130-160 | a rollback of one statement does the same in either order |
| `AlterRestore.UnnamedIndexFails` | internal/parser/parser.go:553-577 | the rollback of an index without a name drops one called "" and fails on the server |
| `AlterRestore.NamedPrimaryKeyFails` | internal/parser/parser.go:553-577 | the rollback of a primary key with another name fails |
| `AlterRestore.PrimaryKeyStaysNotNull` | internal/execution/mysql/engine.go:258-275 | the rollback of a primary key over a column that could be NULL runs and does not restore the table |
| `AlterRestore.IndexOnAddedColumnFails` | testcases/phase5-6/protocol_smoke.py:130-160 | by descending id it fails for a column and an index on it |
| `AlterRestore.IndexBeforeItsColumnFails` | internal/execution/mysql/engine.go:258-275 | in the order of emission it fails for an index and then the column it is on |
| `AlterRestore.RenameThenAddFails` | testcases/phase5-6/protocol_smoke.py:130-160 | by descending id it fails for a renamed column and a new one of the old name |
| `HeapTable.RenameInArray` | internal/metadata/snapshot.go:366-375 | renaming in place renames every matching entry and nothing else |
| `HeapTable.CompactArrays` | internal/metadata/snapshot.go:376-396 | compaction that writes behind the reading position keeps exactly the other columns, each with its own prefix length |
| `HeapTable.RenameAt` | internal/metadata/snapshot.go:366-375 | renaming in one index leaves the indexes that share nothing with it as they were |
| `HeapTable.RenameEverywhere` | internal/metadata/snapshot.go:366-375 | the loop over the indexes renames in each of them |
| `HeapTable.DropEverywhere` | internal/metadata/snapshot.go:376-396 | compacting the array of indexes in place gives the filtered indexes: one is removed if and only if it has neither columns nor expressions left |
| `HeapTable.TableVar.AddAll` | internal/metadata/snapshot.go:224-230 | ADD COLUMN, one by one, up to the first name already taken |
| `HeapTable.TableVar.ApplyColumnOp` | internal/metadata/snapshot.go:238-267 | MODIFY, CHANGE and RENAME COLUMN in place |
| `HeapTable.TableVar.Apply` | internal/metadata/snapshot.go:222-310 | one operation in place does to the table's value what the operation says, and takes in only new arrays and those of the statement |
| `HeapTable.TableVar.Alter` | internal/metadata/snapshot.go:202-310 | a whole ALTER in place succeeds exactly when the operations do and gives their result |
| `HeapTable.CloneTable` | internal/metadata/cache.go:185-197 | the copy has the same value and shares no array |
| `HeapTable.AlterCached` | internal/metadata/snapshot.go:103-117 | load, edit and put touch no array that existed before, except the statement's own |
| `HeapTable.AlterInCache` | internal/metadata/snapshot.go:103-117 | an ALTER that fails at any operation leaves every table in the cache as it was; one that succeeds puts its result, which shares nothing, under the key of its name, after deleting the key of a name it has changed |
| `Views.RenameIsSimultaneous` | internal/metadata/snapshot.go:95-132 | after PrepareDDL, the sequential renames succeed if and only if no table is taken twice, and are then one simultaneous substitution: targets hold the old tables, sources are gone, all other names are untouched |
| `Views.RenameTwiceFails` | internal/metadata/snapshot.go:95-100 | taking one table twice fails with the first rename done |
| `Views.RenameRefusalLeavesTrace` | internal/metadata/snapshot.go:46-66 | an accepted RENAME is refused later if and only if it takes a table twice, and then the view has changed |
| `Views.RenameLosesNoTable` | internal/metadata/snapshot.go:95-132 | a list that renames no table twice keeps the number of tables if and only if its targets are distinct |
| `Views.AlterLosesNoTable` | internal/metadata/snapshot.go:103-117 | an ALTER keeps the number of tables if and only if the name it ends with is the table's own or was free |
| `ViewLaws.NamesAgree` | internal/metadata/snapshot.go:148-153 | two names are those of one table if they are equal, up to letter case in lower-case mode |
| `ViewLaws.CreatesATable` | internal/metadata/snapshot.go:21-44 | CREATE TABLE is refused for a name that is taken, or does nothing under IF NOT EXISTS; otherwise the table is there with the attributes of the statement and nothing else changes |
| `ViewLaws.CreatedIndexes` | internal/metadata/snapshot.go:183-200 | each index of the statement is found under its name as defined, and an inline primary key as PRIMARY |
| `ViewLaws.CreatesALikeTable` | internal/metadata/snapshot.go:30-43 | LIKE is refused without its original; otherwise the table has the original's columns and indexes |
| `ViewLaws.CreatesAView` | internal/metadata/snapshot.go:84-86 | a view is there, without columns or keys |
| `ViewLaws.Databases` | internal/metadata/snapshot.go:80-83 | CREATE and DROP DATABASE change whether the schema is there, and no table |
| `ViewLaws.MissingIsRefused` | internal/metadata/snapshot.go:57-66 | a statement that names a table that is not there is refused, unless IF EXISTS |
| `ViewLaws.PresentIsAccepted` | internal/metadata/snapshot.go:57-66 | and otherwise accepted as it is |
| `ViewLaws.DropsTables` | internal/metadata/snapshot.go:87-94 | DROP TABLE and DROP VIEW: the names in the list find nothing any more, and the others what they found |
| `ViewLaws.ChangesNothing` | internal/metadata/snapshot.go:71-79 | TRUNCATE and statements that are not projected leave the view as it is |
| `ViewLaws.OperationsOf` | internal/metadata/snapshot.go:203-221 | CREATE INDEX adds its indexes, none of them primary, and DROP INDEX drops them |
| `ViewLaws.AltersATable` | internal/metadata/snapshot.go:103-117 | ALTER is refused if an operation is; otherwise the table is what the operations make of it, and nothing else changes |
| `ViewLaws.AltersTheName` | internal/metadata/snapshot.go:103-117 | with a new name, the table is found under it and no longer under the old one |
| `ViewLaws.RenamesATable` | internal/metadata/snapshot.go:121-132 | RENAME of one table is refused if it is missing or the new name is taken; otherwise it is found under the new name, with it, and not under the old |
| `DDLUndo.DropAllRemoves` | internal/metadata/snapshot.go:87-94 | the DROP loop removes exactly the names in the list |
| `DDLUndo.RenameUndoRestores` | internal/execution/mysql/engine.go:248-253 | a RENAME with distinct sources and targets is undone by its stored statements run in any order |
| `DDLUndo.CreateUndoRestores` | internal/execution/mysql/engine.go:232-233 | the stored DROP TABLE restores the view if and only if the table was not there before the CREATE |
| `DDLText.PrepareDDLRollback` | internal/execution/mysql/engine.go:222-281 | the loops write exactly the records that are meant for the statement, or refuse |
| `DDLText.PreparedExists` | internal/execution/mysql/engine.go:222-281 | a rollback can be prepared exactly for CREATE DATABASE, CREATE TABLE, RENAME, CREATE INDEX, DROP TABLE whose tables the server shows, and ALTER of operations that can be undone |
| `DDLText.PreparedReads` | internal/execution/mysql/engine.go:222-281 | the text of every record reads back as the statement that was meant, and for DROP TABLE is what SHOW CREATE TABLE gave |
| `DDLText.ReadsUndo` | internal/execution/mysql/engine.go:306-312 | names in these statements read back whatever backticks, dots, spaces or ';' they hold, with or without a schema |
| `DDLEffect.CreateDatabaseUndone` | internal/execution/mysql/engine.go:228-229 | CREATE DATABASE is undone if and only if the schema was not there before |
| `DDLEffect.CreateTableUndone` | internal/execution/mysql/engine.go:232-233 | CREATE TABLE is undone if the table was not there |
| `DDLEffect.CreateIndexUndone` | internal/execution/mysql/engine.go:254-255 | CREATE INDEX is undone |
| `DDLEffect.RenameUndone` | internal/execution/mysql/engine.go:248-253 | RENAME with distinct sources and targets is undone by the prepared statements in any order |
| `Provider.TableKeyInjective` | internal/metadata/cache.go:101 | tables with different names have different cache keys, when schema names hold no NUL |
| `Provider.KeysDoNotMeet` | internal/metadata/cache.go:68-101 | tables and schemas never share a flight |
| `Provider.NulKeysMeet` | internal/metadata/cache.go:101 | a name has its key to itself if and only if neither part of it holds a NUL byte |
| `Provider.Provider.LoadTable` | internal/metadata/cache.go:100-131 | shows what a plain map over the source holds, or reports an outage, and leaves the map as it was; an answer once kept is given again without the source |
| `Provider.Provider.LoadSchema` | internal/metadata/cache.go:67-98 | the same for schemas |
| `Provider.Provider.PutTable` | internal/metadata/cache.go:141-146 | the map updated at the normalised name |
| `Provider.Provider.DeleteTable` | internal/metadata/cache.go:162-167 | the map without the name: a tombstone hides the source |
| `Provider.Provider.RenameTable` | internal/metadata/cache.go:169-172 | the old name removed, then the new one put, so a rename of letter case only leaves the table present |
| `Provider.Provider.PutSchema` | internal/metadata/cache.go:148-153 | the schema is present |
| `Provider.Provider.DeleteSchema` | internal/metadata/cache.go:155-160 | the schema is absent and its tables are as before |
| `Provider.Provider.Prepare` | internal/metadata/snapshot.go:15-68 | answers by the map alone unless the source is out, changes nothing visible, and leaves in the cache what ApplyDDL will load |
| `Provider.Provider.Apply` | internal/metadata/snapshot.go:71-119 | does to the map what the statement says, and reports an error exactly when that is refused |
| `Provider.Provider.ApplyRenames` | internal/metadata/snapshot.go:95-132 | the loop stops at the first missing table with the earlier renames done |
| `SingleFlight.StepKeepsInv` | internal/metadata/cache.go:100-131 | every step of every caller keeps: each flight entry has one live loader, each live loader its entry, each waiter a closed or registered flight |
| `SingleFlight.OneLoadPerKey` | internal/metadata/cache.go:67-131 | in every interleaving at most one load of a key is in flight, an entry exists if and only if a live loader owns it, and no one waits for a flight that nobody will close |
| `SingleFlight.EveryCallReturns` | internal/metadata/cache.go:67-131 | in every interleaving the calls take boundedly many steps, and no step is left if and only if every call has returned |
| `SingleFlight.FixedSource` | internal/metadata/cache.go:181-183 | with a fixed source and no edits, a key is loaded twice only if the source fails for it, and every call that is not interrupted returns what the source holds |
| `SingleFlight.OnlyAnswersAreKept` | internal/metadata/cache.go:121-131 | a value or its absence is kept; after a failure or an interruption the source is asked again |
| `SingleFlight.EditSurvives` | internal/metadata/cache.go:121-146 | a put or delete lasts until the next edit in every interleaving if and only if no load that could overwrite it is in flight |
| `SingleFlight.QuietEditSurvives` | internal/metadata/cache.go:141-172 | when all calls have returned nothing is in flight and every edit lasts |
| `Engine.OpIdTellsStatements` | internal/execution/mysql/engine.go:130 | an id tells the second, the thread and the statement, so statements of one batch get different ids, however the clock goes |
| `Engine.OpIdForm` | internal/execution/mysql/engine.go:130 | an id is three decimal numerals joined by '_', the last of at least eight digits |
| `Engine.Rollbacks` | internal/execution/mysql/engine.go:131-157 | for DML the records are the undo texts of the changes captured from the binlog, for DDL those prepared before; an error exactly when there are none |
| `Engine.Record` | internal/execution/mysql/engine.go:123-172 | completed exactly when the end position is known, there are records and every group can be stored; then the record is saved and holds the undo of every captured change, and otherwise the store is left as a failed Save leaves it |
| `Engine.RunSaved` | internal/execution/mysql/engine.go:98-172 | a changing statement with backup goes as the answers of the servers say; what took effect is what the result says, what is stored is what a completed result says, and nothing runs that has no rollback |
| `Engine.RunStatements` | internal/execution/mysql/engine.go:77-176 | the loop: each result is what the answers and the store at that time lead to, and the run ends with the batch, a fault or a pause cut short |
| `Engine.Execute` | internal/execution/mysql/engine.go:42-177 | the results are those of a prefix of the batch in which only the last can fail, or of a setup that touched nothing, all as the answers say; the target holds what they say, and the store what the completed ones and a failed last Save left |
| `Engine.ExecutedIsPrefix` | internal/execution/mysql/engine.go:77-176 | what took effect is statement 1 to n without gaps |
| `Engine.SavedAreTheChanges` | internal/execution/mysql/engine.go:98-172 | the completed statements are exactly those other than USE and SELECT whose result reports success |
| `Session.ResolvedOnce` | internal/session/session.go:262-296 | a resolved statement has a database and means the same whatever database is current later |
| `Session.Consult` | internal/session/session.go:126-155 | grants are asked for exactly when due, estimates exactly when due and grants were not refused; every issue is an error of a question asked, and grants are remembered exactly when found |
| `Session.Raise` | internal/session/session.go:161-169 | an earlier error stays the level, and parser warnings weigh on the first statement |
| `Session.GrantsAskedOnce` | internal/session/session.go:126-135 | grants are asked for unless they are skipped, there is no database, or they have been found for it in whatever letter case |
| `Session.EstimateCases` | internal/session/session.go:136-155 | rows are estimated for UPDATE, DELETE and INSERT ... SELECT if there is a limit, and for nothing else |
| `Session.MakeRecord` | internal/session/session.go:312-335 | the level is that of the highest issue and the status follows it |
| `Session.HighestIsMax` | internal/session/session.go:320-326 | no issue is above the level, and the level is None or that of an issue |
| `Session.Locate` | internal/session/session.go:109-125 | a USE switches the database if its schema is visible and otherwise raises an error; other statements are resolved |
| `Session.CheckOne` | internal/session/session.go:107-178 | one statement: which database and view come next, how the statement is left, and that the record is an error exactly when it was not admitted or its DDL was refused |
| `Session.CheckBatch` | internal/session/session.go:105-178 | each statement is checked where the last one ended, and left as its check leaves it |
| `Session.RunAsChecked` | internal/session/session.go:262-296 | every table of an admitted statement is left in its own schema, or else that of the DDL part, or else the statement's database, or else the one current when it was checked; nothing else of it changes |
| `Session.OnlySupportedDDLMoves` | internal/session/session.go:156-178 | a statement that is not supported or has no DDL part leaves the view as it was |
| `Session.RefusalLeavesNoTrace` | internal/metadata/snapshot.go:71-119 | a DDL statement that ApplyDDL refuses has changed nothing, unless it renames a table twice |
| `Session.RulesSeeTheBatchSoFar` | internal/session/session.go:107-178 | when a statement is checked, the view is the source schema updated in order by exactly the earlier DDL statements whose record is not Error, and the current database is that of the last USE that found its schema, or else the request's |
| `Session.Gate` | internal/session/session.go:179-185 | passes if and only if no record is Error and warnings are absent or ignored |
| `Session.NothingRunsPastAnIssue` | internal/session/session.go:179-185 | nothing is run past an issue of level 2 of any statement, nor of level 1 unless warnings are ignored |
| `Session.RunsInADatabase` | internal/session/session.go:298-310 | no statement is run without a database but queries and statements on databases |
| `Session.Enter` | internal/session/session.go:199-229 | each result is entered in the record of its statement; the other records stay |
| `Session.MergedSays` | internal/session/session.go:199-229 | what a record says after its result: status, level, and the issues it had with one more for a fault |
| `Session.Proceed` | internal/session/session.go:179-230 | nothing is run unless execution was asked for and the gate passed; then the results are those of the statements it is given as the servers answer; the records tell them; target and store hold what they say |
| `Session.Audit` | internal/session/session.go:105-232 | the batch as a whole: checked as above, and what is then run is the statements as the check has left them, resolved in place |
| `Session.ReportIsTrue` | internal/session/session.go:179-232 | a statement has taken effect if and only if its record says so, its backup was completed if and only if its record says so, nothing runs past the gate or past a failure, records after a failure are as checked, and with backup on only the last can lack its backup |
| `Recovery.JournalIsSavedInTurn` | internal/execution/mysql/engine.go:77-176 | a run saves its operations one after another under different ids |
| `Recovery.EveryChangeIsRecorded` | internal/execution/mysql/engine.go:98-172 | with backup on, every statement other than USE and SELECT that took effect has a stored record, but for the last one if its backup failed |
| `Recovery.FailedBackupLeaves` | internal/execution/mysql/engine.go:158-166 | what a failed backup leaves in the store: the whole group, nothing, or first rows that read back as nothing |
| `Recovery.LeftoversDoNotShow` | internal/backup/mysqlstore/store.go:42-72 | what it leaves does not show when the statements before it are read back |
| `Recovery.JournalIsMade` | internal/execution/mysql/engine.go:123-157 | when the binlog shows what the statements changed, what was backed up is exactly that |
| `Recovery.ExecutedIsCompleted` | internal/execution/mysql/engine.go:77-176 | what was backed up is all that the executed statements have changed |
| `Recovery.EntryReadsBack` | internal/backup/mysqlstore/store.go:81-116 | any completed operation reads back by descending id, last written first, whatever happened later |
| `Recovery.CompletedReadsBack` | internal/execution/mysql/engine.go:131-172 | a DML statement whose backup was completed reads back as the undo of its changes, backwards, whatever happened later |
| `Recovery.ReportedBackupReadsBack` | internal/session/session.go:198-229 | and so does one whose record reports a completed backup |
| `Recovery.RunCanBeUndone` | internal/execution/mysql/engine.go:77-176 | a run with backup in which nothing failed and every statement but USE and SELECT was DML is taken back step by step by the stored text, which can do nothing else, if and only if every change that the executed statements made can be undone; it then ends in the initial database only, and nowhere if an undo is refused |
| `DDLBack.AlterReadsBack` | internal/execution/mysql/engine.go:258-275 | an ALTER whose backup was completed reads back, by descending id, as the statements of its rollback in the order opposite to that of their emission |
| `GoodRun.GoodRunSucceeds` | internal/execution/mysql/engine.go:42-177 | on servers that answer every call, with something to record for every statement and new ids, every statement is run and none fails, and all but USE and SELECT are backed up |
| `GoodRun.GoodRunCanBeUndone` | internal/execution/mysql/engine.go:42-177 | a batch of DML on such servers, whose binlog leads to the end position and shows changes that can be written, is run to the end; if every change can be undone, the stored text leads back to the initial database and no other |
| `GoodRun.NothingRunsUnprepared` | internal/execution/mysql/engine.go:98-121 | with backup on, nothing but USE and SELECT is run before its position is known and its rollback prepared |
| `GoodRun.NothingToUndo` | internal/execution/mysql/engine.go:297-305 | a statement that changed nothing leaves an information row naming the table of its DDL part, or the first of its DML part |
| `WholeBatch.ApplyKeepsIndexNames` | internal/metadata/snapshot.go:71-119 | no DDL statement, refused or not, makes two index names of a table equal up to letter case |
| `WholeBatch.BatchKeepsIndexNames` | internal/session/session.go:107-178 | in every view that any batch goes through, index names are distinct, if they are so on the server |
| `WholeBatch.ApplyKeepsWellFormed` | internal/metadata/snapshot.go:71-119 | a DDL statement that passes the audit's checks and is made of safe operations keeps every table well-formed |
| `WholeBatch.BatchKeepsWellFormed` | internal/session/session.go:107-178 | in every view of a batch of such statements every table is well-formed |
| `WholeBatch.LikeIsSafe` | internal/metadata/snapshot.go:30-43 | CREATE ... LIKE needs no check for that |
| `Runtime.LegacyIsInjective` | internal/config/legacy.go:41-68 | no two of the legacy names lead to the same rule code |
| `Runtime.LegacyNamesAreOneEach` | internal/config/legacy.go:41-68 | so the map in use has one name for each rule |
| `Runtime.OneLevelChanges` | internal/config/runtime.go:128-159 | a successful SetLevel sets the effective level of one rule and no other |
| `Runtime.LastWriteWins` | internal/config/runtime.go:76-159 | after any calls the effective level of a rule is that of the last successful SetLevel under its code or its legacy name, else the initial one |
| `Runtime.FoundByCode` | internal/config/runtime.go:128-143 | SetLevel finds a rule by its code in any letter case and with blanks around it |
| `Runtime.FoundByName` | internal/config/runtime.go:144-158 | and by its legacy name |
| `Runtime.FoundByOlderName` | internal/config/runtime.go:161-172 | and by three older names |
| `Runtime.Runtime.Policy` | internal/config/config.go:353-387 | whatever the order of the map, the policy gives every rule its effective level, in a map of its own |
| `Runtime.Runtime.LegacyLevels` | internal/config/runtime.go:55-74 | reports the effective level for each legacy name |
| `Runtime.Runtime.SetLevel` | internal/config/runtime.go:128-159 | the new settings, success exactly for a known name and a level from 0 to 2, and policies taken earlier unchanged |
| `Runtime.Runtime.SetVariable` | internal/config/runtime.go:76-110 | levels are untouched, a rejected value changes nothing, and no other variable changes |
| `Runtime.VariableFound` | internal/config/runtime.go:76-79 | a variable is found by its name in any letter case and with blanks around it, and one by an older name |

## Left out

- Connections, SHOW and EXPLAIN queries, grants, binlog transport and server transactions appear only as outcomes that may go either way.
- The SQL parser and the projection of its trees (internal/parser/parser.go): the model starts from projected statements.
- Generator.LiteralSound: value kinds float and time and the fallback formatting are not modelled; decimal text that does not look like a number is not writable.
- Statements.ReadsLit: reads the literals of the modelled value kinds only.
- Letter case outside ASCII, and text encodings: the conversion between bytes and strings is a parameter.
- normalizeConsoleEncoding, directives and their values, and the markers of the envelope (internal/request/legacy.go:32-266), apart from the join of the body.
- Rows.UndoRestores: assumes of the rows what the server keeps: unique indexes are unique, NULL stands only in nullable columns and not in primary keys. Foreign keys and triggers are not modelled.
- Capture.Collect: binlog files are numbers, and a stream that ends stands for a read error or timeout.
- HeapTable.TableVar.Apply: Expressions and Directions are values and not arrays, because nothing edits them in place.
- HeapTable.TableVar.Alter: CREATE INDEX and DROP INDEX run as ADD INDEX and DROP INDEX operations, which make the same edits.
- Provider.Provider.LoadTable: the source is a fixed map that respects the case mode; the maps are keyed by normalised names, which Provider.TableKeyInjective justifies.
- AlterRestore.UndoRestores: other reasons for the server to refuse a DROP are not modelled: a key that an AUTO_INCREMENT column or a foreign key needs, a column that an expression or a generated column uses. Nor are rows: a unique key over columns with equal values, or values lost with a column. A key written inside an added column (ADD COLUMN c INT UNIQUE) is not modelled as an index; it goes when its only column is dropped.
- Store.BackupStore.Save: other sessions writing to the same backup database are not modelled; a COMMIT that fails while the transaction is open is taken to have written nothing.
- Recovery.RunCanBeUndone: assumes that the server's binlog shows what each statement changed (contiguous transactions, as many row changes as rows reported, and a position that moves with them), that values can be written, and that no stored row carries an id of the run.
- Generator.ExpressionKey: is about a table in the view whose only key is the one made in the request.
- Rows.ZeroComesBackChanged: the server may give any number but 0; that it gives the next free one is not needed.
- DDLText.PreparedReads: what SHOW CREATE TABLE answers for a dropped table is text of the server and is not read.
- Meaning.LiteralMeans: numbers are real numbers, without the rounding of FLOAT and DOUBLE; spatial types, and text captured from ENUM and SET columns, which the binlog gives as numbers, are not covered.
- Store.BackupNameIs: counts characters where the code counts bytes, which differ outside ASCII.
- GoodRun.GoodRunCanBeUndone: is about batches of DML; for DDL see DDLEffect, AlterRestore and DDLBack.AlterReadsBack.
- SingleFlight.EveryCallReturns: says that waiting ends once every source call answers; a source call that never answers is not excluded.
- Session.Audit: the row estimates that the audit writes into DML statements are not modelled. It starts after the envelope, the connection, the version test and the parse, each of whose failures gives one failing record; assumes at least one parsed statement; with none and execution asked for, a missing or unreachable executor would index an empty list of records (internal/session/session.go:187-192).
- Session.RulesSeeTheBatchSoFar: excludes batches that rename a table twice in one list; Views.RenameRefusalLeavesTrace shows that for those the view always differs.
- Runtime.Runtime.SetVariable: parsing and range checks of variable values are one yes-or-no outcome.
- Engine.RunSaved: a statement that the server refuses is taken to have no effect.
- The rows that DROP TABLE loses, which the code does not restore; undo of CREATE INDEX with more than one index, which the parser does not give.
- DROP DATABASE leaves the tables of the schema in the view, as the code does.
- Single-branch policy rules, version checks, implicit conversions, observability and the wire protocol would add only easy members.
