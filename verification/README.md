# Pipa: verified models of the database workbench's core

Pipa is a database workbench. This project models the parts of it whose correctness cannot be read off one
body, and proves what their documentation and tests promise:

* the binlog pipeline: cutting files into event frames, nested compressed payloads under one budget,
  assembling transactions, paging and projecting them, and compiling a transaction into the SQL that undoes it;
* the quick filter: conditions become the text of a WHERE clause, which a reference reader (string literals,
  quoted identifiers, LIKE, AND above OR, three-valued logic) turns back into what the user asked for;
* the SQL policy: a lexer run under both backslash modes, a classifier, and the gate for external clients;
* the structure editor's planner, whose statements are run over a table and must build the draft;
* the Redis adapter: a recursive RESP reader with byte, depth and element limits, its encoder, and the
  console's command tokenizer;
* two concurrent protocols: the query stream against its truncating, cancelling collector, and the queue of
  SQL proposals, each as a state machine over every interleaving of its steps.

Code that works step by step in the source is a class or a method with loops here, proved equal to a
specification function; the main results are lemmas about those functions, stated as far as possible in terms of
the texts, bytes and tables themselves. Files, by component:

* binlog: `Framing`, `Parser`, `FrameForest`, `Reading`, `Analysis`, `Binlog`, `Assembler`, `Repository`,
  `RepositoryAnswers`, `ResetSql`, `ResetAccount`, `TableStates`, `RowReset`, `ResetMeaning`, `ResetExactness`,
  `ProjectedReset`;
* quick filter: `FilterText`, `TableFilter`, `FilterMeaning`, `FilterPredicates`, `FilterCorrectness`,
  `FilterAnswers`, `FilterAcceptance`, `MysqlText`, `LikePatterns`;
* SQL policy: `SqlPolicy`, `SqlTokens`, `SqlRisks`, `SqlGate`;
* structure editor: `TableDdl`, `DdlPlan`, `DdlCorrectness`;
* Redis: `Resp`, `RespWire`, `RedisCommand`, `RedisGrammar`, `Utf8`;
* protocols: `QueryStream`, `QueryGrammar`, `QueryEnds`, `QueryRace`, `ProposalQueue`, `ProposalRace`;
* shared: `Wrappers`, `Text`, `Numerals`, `Lists`.

`dafny verify dfyconfig.toml` checks everything.

Findings, each with a lemma:

* An output marked `complete` need not undo its transaction: an INSERT logged with a partial image compiles to a
  DELETE that may hit another row (`ResetMeaning.CompleteIsNotEnough`). It does so in every execution, whatever
  else the tables hold, exactly when each statement names every column in its predicate or, for an UPDATE, assigns
  only what it tests for (`ResetExactness.CompleteResetExactly`, for a transaction whose changes of one table name
  the same columns). The images tell in advance (`ResetExactness.IdentifiedByImages`), and full images are enough
  (`ResetMeaning.FullImagesResetIsInverse`). In one given state, a single statement undoes its row change exactly
  when it matches no row but the affected one, or an UPDATE changed nothing (`RowReset.RowResetExactly`).
* A structure plan without errors can still fail to run, for instance when two columns swap names
  (`DdlCorrectness.SwapCannotRun`) or get the same one. `DdlCorrectness.PlanBuildsDraft` gives the exact condition
  for drafts in which no two columns come from one source.
* The proposal queue is newest first by arrival, but not always by creation time, since the time is read before
  the queue is locked (`ProposalRace.TimesMayBeOutOfOrder`). It is so throughout a run exactly when every accepted
  proposal is no older than the entry it comes to stand in front of (`ProposalRace.TimesInOrderExactly`).
* A written string literal ends at the same place in both backslash modes, but without backslash escapes it
  means its value exactly when the value has no backslash (`MysqlText.LiteralWithoutEscapes`).

## Model

| member | source | states |
|---|---|---|
| `Framing.FrameRead` | crates/pipa-binlog/src/parser.rs:552-658 | a frame that is read declares its own size, is a prefix of the input, and ends within the recorded file size and the size limit |
| `Framing.SizeIsLittleEndian` | crates/pipa-binlog/src/parser.rs:595-599 | the size an event declares is the little-endian number in the four bytes behind the first nine of its header |
| `Framing.FrameFailureIsTrue` | crates/pipa-binlog/src/parser.rs:576-655 | a failure to read a frame says what is wrong with the bytes: a cut header, a size below 19, a size above the limit, or a cut body |
| `Framing.CleanEndMeansTiled` | crates/pipa-binlog/src/parser.rs:251-287 | a file reaches a clean end exactly when the bytes behind its four-byte header fall into self-declaring frames that end within the recorded size, and the frames are then those and no others |
| `Parser.ParserState.EnterTransactionPayload` | crates/pipa-binlog/src/parser.rs:401-432 | entering fails past depth 8 or when the declared size exceeds the bytes left, and otherwise only adds one to the depth |
| `Parser.ParserState.RecordDecompressedEvent` | crates/pipa-binlog/src/parser.rs:441-484 | a decompressed frame is refused beyond a million events or 512 MiB, with nothing changed, and otherwise accounted for exactly |
| `Parser.ParserState.Process` | crates/pipa-binlog/src/parser.rs:800-824 | processing an event, with its recursion into payloads, is the specified state change, on success and on failure |
| `Parser.ParserState.ProcessTransactionPayload` | crates/pipa-binlog/src/parser.rs:887-943 | the payload loop over the content as it is decompressed, with its cancellation poll before every frame and a read error behind any part of the content, is the specified state change |
| `Parser.EventKeepsBudget` | crates/pipa-binlog/src/parser.rs:401-484 | through any nesting of payloads, read to the end or failing, bytes are the summed lengths of the decompressed frames and stay within 512 MiB, events are their number and stay within a million, depth stays within 8 and is restored |
| `FrameForest.EventIsWhole` | crates/pipa-binlog/src/parser.rs:800-943 | an event processed without an error and without a poll that answered yes has every payload in it, at every depth, tiled to its end by frames and within the limits of depth, declared size, bytes and events, and exactly these were seen, each in front of those it holds, with one poll for each |
| `FrameForest.WholeEventIsRead` | crates/pipa-binlog/src/parser.rs:800-943 | the converse: an event whose payloads are so tiled, at every depth and within the limits, is processed without an error when no poll answers yes, and the counters are then determined |
| `FrameForest.WholePayloadIsRead` | crates/pipa-binlog/src/parser.rs:887-943 | whole frames of a payload are read; content that breaks off behind them, and only then, is a read error |
| `FrameForest.FirstFailureIsReported` | crates/pipa-binlog/src/parser.rs:887-943 | the first frame behind whole ones that cannot be read, counted or decoded is what the payload fails with |
| `FrameForest.RefusalsAre` | crates/pipa-binlog/src/parser.rs:401-432 | an event that is refused, too deep, too large as declared, or not decompressed changes no counter and fails with that error |
| `Reading.CompletesExactly` | crates/pipa-binlog/src/parser.rs:208-330 | an analysis completes exactly when its files open, begin with the magic bytes and fall into frames whose payloads are whole and within the limits at every depth, and the polls, one for each frame and two for each file, all answer no |
| `Analysis.EventCountsInner` | crates/pipa-binlog/src/parser.rs:887-943 | without an error, the event count grows by exactly the number of decompressed frames, which is the number of frames seen |
| `Analysis.AnalyzeFile` | crates/pipa-binlog/src/parser.rs:224-325 | one file: completed exactly when it falls into frames whose payloads are whole and no poll answers yes, with the counters these frames give; progress in order, never past the recorded size, spaced by 1 MiB or 256 events and never overdue; budget kept whatever the outcome |
| `Analysis.AnalyzeFiles` | crates/pipa-binlog/src/parser.rs:208-340 | the whole analysis: it completes exactly when every file, and every payload at every depth, falls into its frames to the end within the limits and no poll answers yes; it has then seen these and no others in reading order, counted each once, and reported all bytes and files; progress never goes back and never passes the total |
| `Assembler.TransactionAssembler.HandleGtid` | crates/pipa-binlog/src/assembler.rs:63-70 | a GTID closes what is pending as incomplete and opens a transaction that carries it |
| `Assembler.TransactionAssembler.HandleRows` | crates/pipa-binlog/src/assembler.rs:87-96 | a row change joins the pending transaction and takes the announced query text with it |
| `Assembler.TransactionAssembler.HandleQuery` | crates/pipa-binlog/src/assembler.rs:99-131 | BEGIN, COMMIT, ROLLBACK and classified statements change the state as specified, with autocommit of a statement outside any transaction |
| `Assembler.TransactionAssembler.HandleXid` | crates/pipa-binlog/src/assembler.rs:134-141 | an XID commits the pending transaction, opening one when there is none |
| `Assembler.Assemble` | crates/pipa-binlog/src/assembler.rs:52-200 | feeding events one by one and finishing the input gives the transactions of the specification |
| `Assembler.ChangesAreConserved` | crates/pipa-binlog/src/assembler.rs:82-131 | for every event sequence, the transactions' changes in order are the row and classified-statement changes in input order, each with its statement text |
| `Assembler.RowsQueryIsAttached` | crates/pipa-binlog/src/assembler.rs:82-96 | over any event sequence, a row change without a text of its own comes out with the text announced last, if since then no other such row change took it and no transaction was closed, and with none otherwise |
| `Assembler.SequencesAreConsecutive` | crates/pipa-binlog/src/assembler.rs:176-200 | transactions are numbered 1 to n, so their sequences increase strictly |
| `Assembler.BoundariesAreFaithful` | crates/pipa-binlog/src/assembler.rs:63-200 | each GTID event yields exactly one transaction with that GTID, each XID one with that XID, and the statuses are those of the closing events, which for a query go by its text |
| `Assembler.BoundaryByText` | crates/pipa-binlog/src/assembler.rs:99-116 | a text is a boundary exactly when it is BEGIN, START TRANSACTION, COMMIT or ROLLBACK in any letter case, with whitespace in front and whitespace, semicolons and whitespace behind, and then that one |
| `Assembler.RangesAreSpans` | crates/pipa-binlog/src/assembler.rs:63-200 | each transaction carries the header of the event that opened it and ends where the last event of its segment that extends it ends |
| `Assembler.TransactionsArePartition` | crates/pipa-binlog/src/assembler.rs:63-200 | the events fall into consecutive segments, one for each transaction, and each transaction but for its number is what its own segment alone assembles to, with that segment's GTID, XID, changes and closing status |
| `Assembler.SummarizeTransactionTables` | crates/pipa-binlog/src/assembler.rs:312-338 | the loop over a map computes the per-table totals |
| `Assembler.TotalsCount` | crates/pipa-binlog/src/assembler.rs:312-338 | a table's totals are the sums of its changes' row counts by operation and the number of its DDL changes |
| `Assembler.BuildSummary` | crates/pipa-binlog/src/parser.rs:1365-1418 | the analysis summary counts transactions, rows and table totals of all changes |
| `Assembler.TotalsAddUp` | crates/pipa-binlog/src/parser.rs:1373-1402 | the per-transaction table totals and row counts add up to the analysis summary's |
| `Repository.ProjectionAgreesWithSummary` | crates/pipa-binlog/src/repository.rs:219-315 | a transaction is summarised under a filter exactly when it can be projected under it, with equal row counts |
| `Repository.InMemoryAnalysisRepository.Replace` | crates/pipa-binlog/src/repository.rs:108-122 | only an existing session is replaced, and no other session changes |
| `Repository.InMemoryAnalysisRepository.ListTransactions` | crates/pipa-binlog/src/repository.rs:135-145 | listing succeeds exactly for a known session and a numeric cursor; over ordered transactions the page has at most 500 summaries, increasing, all behind the cursor, and what it leaves out is exactly what is behind its next cursor |
| `Repository.CursorRoundTrip` | crates/pipa-binlog/src/repository.rs:177-216 | a cursor text parses back to the sequence it was made from |
| `Repository.MatchingContents` | crates/pipa-binlog/src/repository.rs:177-269 | the matching summaries are those of the transactions behind the cursor that pass the filter, increasing by sequence when the stored transactions are |
| `Repository.PageLeavesTheRest` | crates/pipa-binlog/src/repository.rs:177-216 | a page is the first part of what matches behind its cursor, and its next cursor leaves exactly the rest |
| `Repository.PagingIsComplete` | crates/pipa-binlog/src/repository.rs:177-216 | following next cursors from any cursor, with any limit on each page, ends and visits each matching transaction once, in order |
| `Repository.ListedExactlyWhenOpened` | crates/pipa-binlog/src/repository.rs:148-216 | a sequence is listed exactly when opening it under the same filter succeeds, with equal row counts |
| `RepositoryAnswers.SelectedAreKept` | crates/pipa-binlog/src/repository.rs:272-327 | projecting keeps each change in its place exactly when database, table and operation are those asked for, an empty name asking for none |
| `RepositoryAnswers.ProjectionIs` | crates/pipa-binlog/src/repository.rs:272-315 | a transaction is opened as it is when nothing is asked for, and otherwise with the selected changes and their row count, if any is selected |
| `RepositoryAnswers.CursorExactly` | crates/pipa-binlog/src/repository.rs:177-190 | a cursor is taken exactly when it is the numeral of a 64-bit number, perhaps with a plus sign and zeros in front, and as that number |
| `RepositoryAnswers.PageSizeIs` | crates/pipa-binlog/src/repository.rs:177-216 | a page holds 100 summaries unless asked otherwise, and between 1 and 500 |
| `RepositoryAnswers.FailuresAre` | crates/pipa-binlog/src/repository.rs:148-190 | listing fails exactly for a cursor that names no number, opening exactly for a sequence that is not stored or not selected, each with its own error |
| `ResetSql.ComputeOrderedValues` | crates/pipa-binlog/src/reset_sql.rs:252-275 | the loop over the columns yields the ordered literals or the first reason against them |
| `ResetSql.ComputeResetUpdate` | crates/pipa-binlog/src/reset_sql.rs:168-211 | the inverse of an UPDATE restores the before image where the current image, before overlaid by after, matches |
| `ResetSql.ResetSqlBuilder.PushStatement` | crates/pipa-binlog/src/reset_sql.rs:24-33 | at most 10,000 statements are kept; the first one refused is reported |
| `ResetSql.ResetSqlBuilder.PushWarning` | crates/pipa-binlog/src/reset_sql.rs:36-44 | at most 100 warnings are kept, and the overflow is remembered |
| `ResetSql.GenerateTransactionResetSql` | crates/pipa-binlog/src/reset_sql.rs:57-115 | the nested backward loops, stopping when the builder is full, produce the specified output |
| `ResetSql.CompleteExactlyWhenInvertible` | crates/pipa-binlog/src/reset_sql.rs:57-151 | the output is complete exactly when the transaction is committed, has changes, none DDL and all with rows, every row compiles, and there are at most 10,000 rows; its statements are then the inverses in reverse order |
| `ResetAccount.RowCompilesExactly` | crates/pipa-binlog/src/reset_sql.rs:154-291 | a row change has an inverse exactly when its table is named, its images are there and decoded, and every logged column has its real name and a value that can be written, all columns for a DELETE, some for an INSERT, and for an UPDATE also the value before every one logged behind it |
| `ResetAccount.ReasonIsTrue` | crates/pipa-binlog/src/reset_sql.rs:154-367 | the reason a row change is skipped for is true of its images |
| `ResetAccount.StatementsAre` | crates/pipa-binlog/src/reset_sql.rs:57-115 | a committed transaction gets the first 10,000 of the inverses of its reversible rows, the last row first; any other gets none |
| `ResetAccount.WarningsAre` | crates/pipa-binlog/src/reset_sql.rs:36-115 | every warning is true, there are at most 100 and one that says that more were left out, and unless something was left out every change and row that is skipped is warned about |
| `TableStates.LiteralDenotesCell` | crates/pipa-binlog/src/reset_sql.rs:329-375 | the literal compiled from a cell stands for what the cell says is stored: NULL, a number, a text, bytes or a moment |
| `RowReset.RowResetExactly` | crates/pipa-binlog/src/reset_sql.rs:154-237 | run right after its row change, and whichever row `LIMIT 1` picks, a statement restores the table exactly when it matches only rows equal to the affected one, or an UPDATE changed nothing |
| `RowReset.IdentifiedExactly` | crates/pipa-binlog/src/reset_sql.rs:154-237 | a statement restores the table whatever other rows it holds exactly when its predicate names every column, or it assigns only stored values it tests for |
| `RowReset.FullImagesIdentify` | crates/pipa-binlog/src/reset_sql.rs:278-291 | statements compiled from full images name every column in their predicates |
| `ResetMeaning.ResetUndoes` | crates/pipa-binlog/src/reset_sql.rs:57-151 | when each predicate is unambiguous in the state its row change left, running the inverses always succeeds and restores every table's rows |
| `ResetMeaning.CompleteResetIsInverse` | crates/pipa-binlog/src/reset_sql.rs:57-151 | a complete output whose statements identify their rows restores the tables from before the transaction, in every execution |
| `ResetMeaning.FullImagesResetIsInverse` | crates/pipa-binlog/src/reset_sql.rs:57-151 | so does a complete output over full images |
| `ResetMeaning.CompleteIsNotEnough` | crates/pipa-binlog/src/reset_sql.rs:154-165 | a committed INSERT with a partial image gives a complete output that may end in other tables |
| `ResetExactness.CompleteResetExactly` | crates/pipa-binlog/src/reset_sql.rs:57-151 | a complete output restores the earlier tables in every execution and over all tables the transaction can be accounted for exactly when each statement identifies its row, which is when the images do |
| `ResetExactness.IdentifiedByImages` | crates/pipa-binlog/src/reset_sql.rs:154-211 | a compiled statement identifies its row exactly when an INSERT's image records every column, or an UPDATE's current image does, or every recorded cell of its before image stores the same value as in the current one |
| `ProjectedReset.ProjectionEvents` | crates/pipa-binlog/src/repository.rs:272-315 | projecting by database, table name, both or neither keeps exactly the covered tables' row changes, in order |
| `ProjectedReset.ProjectedAccount` | crates/pipa-binlog/src/repository.rs:272-315 | changes to other tables commute with those of the covered ones, whose changes alone explain their rows |
| `ProjectedReset.ProjectedResetRestoresItsTables` | src-tauri/src/binlog_commands.rs:108-131 | projecting without an operation and compiling restores exactly the covered tables and leaves every other table as the transaction left it |
| `MysqlText.IdentifierRoundTrip` | crates/pipa-core/src/table_filter.rs:278-280 | a quoted identifier followed by anything but a backtick reads back as the name, ending where it was written to end |
| `MysqlText.LiteralRoundTrip` | crates/pipa-core/src/table_filter.rs:287-289 | a string literal reads back as its value under backslash escapes and ends at the same place without them |
| `MysqlText.LiteralWithoutEscapes` | crates/pipa-core/src/table_filter.rs:287-289 | without backslash escapes it means its value exactly when the value has no backslash |
| `LikePatterns.ComputeEscapeLikeWildcards` | crates/pipa-core/src/table_filter.rs:292-301 | the loop escapes each wildcard and backslash |
| `LikePatterns.PatternsMeanLiteralText` | crates/pipa-core/src/table_filter.rs:428-444 | the three escaped patterns match exactly the texts that contain, start with or end with the value |
| `FilterText.SplitFilterList` | crates/pipa-core/src/table_filter.rs:304-322 | the scanner with its escape flag computes the split |
| `FilterText.ListIsRead` | crates/pipa-core/src/table_filter.rs:304-322 | every list is read as its marks show: a comma separates unless a backslash stands in front, a backslash shows the character behind it, and a lone one at the end shows nothing |
| `FilterText.SplitInvertsJoin` | crates/pipa-core/src/table_filter.rs:304-322 | splitting inverts joining with commas after escaping backslashes and commas |
| `FilterText.NumericLiteralMeetsGrammar` | crates/pipa-core/src/table_filter.rs:328-363 | the scanner accepts exactly an optional sign, digits with an optional fraction or a fraction alone, and an optional exponent |
| `TableFilter.ComputeListText` | crates/pipa-core/src/table_filter.rs:397-421 | the loop over list items joins their literals or stops at the first that is none |
| `TableFilter.CollectParts` | crates/pipa-core/src/table_filter.rs:477-504 | the loop over the conditions collects the parts and errors of those that take part |
| `TableFilter.HasBothConnectors` | crates/pipa-core/src/table_filter.rs:514-520 | connectors count as mixed exactly when both occur behind the first part |
| `TableFilter.BuildTableFilterClause` | crates/pipa-core/src/table_filter.rs:470-537 | the whole compiler: clause text, distinct errors and active count |
| `Lists.DistinctOfOneMore` | crates/pipa-core/src/table_filter.rs:540-546 | deduplication keeps a further message exactly when it is new |
| `Lists.DistinctKeepsEachOnce` | crates/pipa-core/src/table_ddl.rs:369-375 | deduplication keeps each message once and nothing else |
| `FilterPredicates.LexLiteral` | crates/pipa-core/src/table_filter.rs:366-382 | an operand's literal reads back as the operand, bare for numeric columns and decoded text otherwise |
| `FilterPredicates.LexList` | crates/pipa-core/src/table_filter.rs:397-421 | a list's text reads back as its operands |
| `FilterPredicates.ReadsCondition` | crates/pipa-core/src/table_filter.rs:385-460 | whatever the user's text contains, one predicate's text reads back as the lexemes of its condition, up to where it was written to end |
| `FilterPredicates.TestParses` | crates/pipa-core/src/table_filter.rs:385-460 | those lexemes parse to the test the condition asks for, BETWEEN keeping its own AND |
| `FilterCorrectness.ItemIsSound` | crates/pipa-core/src/table_filter.rs:385-460 | every compiled condition is sound: its text reads as its lexemes before any delimiter, and these parse to its test before any connector |
| `FilterCorrectness.ReadsClause` | crates/pipa-core/src/table_filter.rs:511-530 | the joined text, parenthesised or flat, reads back as the joined lexemes |
| `FilterCorrectness.ClauseReadsAsLeftFold` | crates/pipa-core/src/table_filter.rs:470-537 | every clause compiled without errors reads back, with AND above OR, as the strict left-to-right fold of the conditions that take part |
| `FilterCorrectness.ClauseMeansLeftToRight` | crates/pipa-core/src/table_filter.rs:462-530 | for every valuation in three-valued logic, the emitted text evaluates to applying the conditions one after another |
| `FilterAnswers.TypeWordIs` | crates/pipa-core/src/table_filter.rs:240-247 | the word that decides about a column is the letters its type begins with behind whitespace, in any case |
| `FilterAnswers.OperatorsAreSuitable` | crates/pipa-core/src/table_filter.rs:251-272 | an operator is offered for a type exactly when it suits its kind: no order on text, no order and no patterns on JSON, no patterns on numbers and times, nothing on binary and spatial types |
| `FilterAnswers.SubstringTestsMeanLiteralText` | crates/pipa-core/src/table_filter.rs:428-444 | CONTAINS, STARTS_WITH and ENDS_WITH hold of a cell exactly when the user's text occurs there |
| `FilterAnswers.TestAnswers` | crates/pipa-core/src/table_filter.rs:385-460 | every predicate holds of a cell exactly when its operator says so of the user's operands in the order of the column, IN of one of the listed items, BETWEEN of both bounds, and is unknown on NULL but for IS NULL and IS NOT NULL |
| `FilterAnswers.ClauseAnswersAsAsked` | crates/pipa-core/src/table_filter.rs:462-537 | the emitted text, read back, has on every row the three-valued value of the conditions that take part, applied one after another, each as its operator asks |
| `FilterAcceptance.ActiveAre` | crates/pipa-core/src/table_filter.rs:477-482 | each condition is kept in its place exactly when it is enabled, names a column and has a value that is not blank or an operator that needs none |
| `FilterAcceptance.CompilesExactly` | crates/pipa-core/src/table_filter.rs:483-504 | a condition compiles exactly when the first column of its name takes its operator and its operands: a numeral, a text that is not blank, a list with an item, two bounds, a pattern |
| `FilterAcceptance.ErrorIsTrue` | crates/pipa-core/src/table_filter.rs:366-504 | the error of a condition that does not compile says what is wrong with it |
| `FilterAcceptance.ClauseOutcome` | crates/pipa-core/src/table_filter.rs:470-537 | the clause is written exactly when every condition that takes part is accepted, with their number; otherwise each error, listed once, is true of a rejected condition and none of these goes unmentioned |
| `SqlPolicy.ConsumeQuoted` | crates/pipa-core/src/sql_policy.rs:201-226 | the scanning loop finds the end of a quoted token, or rejects an open one |
| `SqlPolicy.LexMysql` | crates/pipa-core/src/sql_policy.rs:137-198 | the lexer's loop yields the token sequence of either backslash mode |
| `SqlTokens.LexExactly` | crates/pipa-core/src/sql_policy.rs:137-251 | in either backslash mode a text is accepted with these tokens exactly when it falls into lexical elements that yield them: gaps, quoted texts as the reference reader ends them, three kinds of comments, names up to their last word character, and signs |
| `SqlTokens.ExecutableIsRefused` | crates/pipa-core/src/sql_policy.rs:159-163 | a text with a comment that MySQL or MariaDB would execute is refused, whatever is in front of it and behind it |
| `SqlPolicy.ParenthesesAreBalanced` | crates/pipa-core/src/sql_policy.rs:268-279 | the depth loop decides balance |
| `SqlPolicy.ComputeClassifyWith` | crates/pipa-core/src/sql_policy.rs:386-403 | the unsigned depth counter never underflows and the first top-level verb decides |
| `SqlPolicy.SkipOptions` | crates/pipa-core/src/sql_policy.rs:343-357 | the loop skips exactly EXPLAIN's options |
| `SqlPolicy.OptionsKeepBalance` | crates/pipa-core/src/sql_policy.rs:342-366 | what the options leave over is as balanced as the body, so a WITH behind them is safe to classify |
| `SqlRisks.BodyIs` | crates/pipa-core/src/sql_policy.rs:342-358 | what EXPLAIN's options leave over is the statement behind the longest run of ANALYZE and FORMAT with its optional equals sign and value |
| `SqlRisks.StatementRisks` | crates/pipa-core/src/sql_policy.rs:282-415 | a statement is a read, a write or a schema change exactly by its main verb: its first word, behind WITH the first verb outside all parentheses, behind EXPLAIN or an explaining DESCRIBE that of the explained statement, INTO OUTFILE counting as schema change |
| `SqlGate.HoldsDeniedExactly` | crates/pipa-core/src/sql_policy.rs:9-29 | a word is denied exactly when it, or a part of it between dollar signs, is a verb that changes or administers, a server command, or a clause or function that touches files, takes locks or spends time |
| `SqlGate.RisksExactly` | crates/pipa-core/src/sql_policy.rs:83-95 | a text is a read, a write or a schema change exactly when, in either backslash mode, it means the same one balanced statement and that is one; else it is unknown |
| `SqlGate.GateExactly` | crates/pipa-core/src/sql_policy.rs:98-134 | the gate opens exactly for the texts that are, in either backslash mode, one balanced statement that only reads, with no denied word and no FOR SHARE |
| `SqlGate.RefusalsExactly` | crates/pipa-core/src/sql_policy.rs:98-110 | a write and a schema change are refused as such, exactly, and a refused read is called unknown |
| `SqlPolicy.GateIsSound` | crates/pipa-core/src/sql_policy.rs:83-127 | an accepted text lexes alike in both modes to one balanced statement that starts with a reading verb, at most one trailing semicolon, and no listed keyword anywhere |
| `SqlPolicy.QuotedEndIsReadBody` | crates/pipa-core/src/sql_policy.rs:201-226 | the lexer ends a quoted token where the reference reader of literals and identifiers does |
| `SqlPolicy.LiteralIsOneAtom` | crates/pipa-core/src/table_filter.rs:287-289 | a written string literal is one token with the same end in both backslash modes |
| `SqlPolicy.IdentifierIsOneAtom` | crates/pipa-core/src/table_filter.rs:278-280 | so is a quoted identifier |
| `SqlPolicy.DescribeAlwaysPasses` | src-tauri/src/mcp/query_runner.rs:276-278 | DESCRIBE with any quoted name classifies as reading and passes the gate |
| `TableDdl.CollectDrops` | crates/pipa-core/src/table_ddl.rs:296-311 | exactly the original columns no draft column comes from are dropped, in table order |
| `TableDdl.BuildTableDdlPlan` | crates/pipa-core/src/table_ddl.rs:289-355 | the loop over the draft yields the plan: drops, then edits in draft order, and distinct errors |
| `DdlPlan.PlanHolds` | crates/pipa-core/src/table_ddl.rs:289-355 | a plan drops exactly the columns no draft column goes back to, adds every new column with an allowed type, changes every edited one that can be rewritten to an allowed type, and holds exactly the errors of the others, each once |
| `DdlCorrectness.EmitReachesNext` | crates/pipa-core/src/table_ddl.rs:314-349 | each emitted statement runs exactly when its name is free, and leads to the table of the next draft column |
| `DdlCorrectness.RunOfPlan` | crates/pipa-core/src/table_ddl.rs:289-355 | running a plan without errors gives the final table, or fails, exactly as the condition says, repeated draft names included |
| `DdlCorrectness.PlanBuildsDraft` | crates/pipa-core/src/table_ddl.rs:284-355 | for a table with distinct names and a draft with distinct sources, a plan without errors runs exactly when no draft name is given twice or still the source of a later draft column and not every column is dropped; the table then has exactly the draft's columns, once each, but for those whose source does not exist, which are skipped |
| `DdlCorrectness.DroppedNamesAreFree` | crates/pipa-core/src/table_ddl.rs:284-287 | a plan whose draft names are only kept, new or taken from dropped columns runs to the end and gives the final table, because drops come first |
| `DdlCorrectness.SwapCannotRun` | crates/pipa-core/src/table_ddl.rs:314-349 | swapping two names gives a plan without errors that cannot run |
| `DdlCorrectness.EmittedIsValidated` | crates/pipa-core/src/table_ddl.rs:284-349 | every emitted definition has an allowed type and only rewritable columns are changed |
| `DdlCorrectness.PlanAgainstItselfIsEmpty` | crates/pipa-core/src/table_ddl.rs:270-281 | planning a loaded schema against itself asks for nothing |
| `Resp.Connection.ReadProtocolLine` | crates/pipa-redis/src/adapter.rs:371-390 | a line is taken up to its first newline, within the limits, and charged to the budget |
| `Resp.Connection.ReadProtocolBytes` | crates/pipa-redis/src/adapter.rs:393-415 | a payload of exact length with its CRLF is taken and charged |
| `Resp.Connection.ReadValue` | crates/pipa-redis/src/adapter.rs:258-345 | the recursive reader changes stream and budget as specified and ends |
| `Resp.Connection.ReadCollection` | crates/pipa-redis/src/adapter.rs:348-363 | the loop reads the elements one after another |
| `RespWire.ReadsBack` | crates/pipa-redis/src/adapter.rs:258-345 | every well-formed reply of every form, nulls, attributes and any accepted numeral of a length included, followed by anything, is read back within the limits as its value, leaving exactly the rest |
| `RespWire.ReadExactly` | crates/pipa-redis/src/adapter.rs:258-415 | a read succeeds with a value, a rest and a budget exactly when the bytes taken are a well-formed reply within the limits that means this value |
| `RespWire.LengthExactly` | crates/pipa-redis/src/adapter.rs:418-428 | a length is taken exactly when it is written as the number it is taken for, at least -1 and below 2^63 |
| `RespWire.RefusalsAre` | crates/pipa-redis/src/adapter.rs:258-438 | a refusal says what is wrong: the nesting, the line, what the line announces, or the first refused part inside |
| `RespWire.EncodeCommand` | crates/pipa-redis/src/adapter.rs:247-255 | the encoder's loop writes the array header and each bulk string |
| `RespWire.CommandRoundTrip` | crates/pipa-redis/src/adapter.rs:247-255 | an encoded command followed by anything reads back as the array of its arguments, leaving the rest |
| `RespWire.ReadIsPaidFor` | crates/pipa-redis/src/adapter.rs:258-415 | a successful read takes off the stream what it takes off the budget, at least three bytes per decoded node, and nests no deeper than the limit |
| `Utf8.EncodedIsUtf8` | crates/pipa-redis/src/adapter.rs:518-521 | encoded characters are well-formed UTF-8 |
| `Utf8.Utf8Exactly` | crates/pipa-redis/src/adapter.rs:271-282 | bytes are well-formed UTF-8 exactly when they encode characters, each by the bits of its code point |
| `RedisCommand.ParseCommand` | crates/pipa-redis/src/adapter.rs:441-515 | the tokenizer's loop computes the arguments or the error |
| `RedisGrammar.ParsesExactly` | crates/pipa-redis/src/adapter.rs:441-515 | a command of at most 1 MiB parses to these arguments exactly when it is written as them: letters, escapes, two hexadecimal digits and quoted runs, separated by whitespace |
| `RedisGrammar.FailuresAre` | crates/pipa-redis/src/adapter.rs:441-515 | why a command does not parse: too long, nothing in it, a lone backslash at the end, a hexadecimal escape without two digits, or an open quote |
| `RedisCommand.CommandRoundTrip` | crates/pipa-redis/src/adapter.rs:441-515 | any arguments, each written bare, quoted either way or as hexadecimal escapes, parse back to their bytes |
| `RedisCommand.PlainCommandIsSplit` | crates/pipa-redis/src/adapter.rs:441-515 | text without quotes and backslashes parses to its whitespace split |
| `QueryStream.HandleItem` | crates/pipa-mysql/src/adapter.rs:169-245 | one turn of the loop: flags, batch and sends for one driver item, given up at the first send to a closed receiver |
| `QueryStream.ExecuteQuery` | crates/pipa-mysql/src/adapter.rs:119-276 | the producer, cancelled at any turn, sends the specified events; a receiver closed after any number of them has got exactly the first ones, and the producer ends with an error |
| `QueryStream.CollectQueryEvents` | src-tauri/src/mcp/query_runner.rs:170-232 | the collector's loop computes the result of its channel |
| `QueryGrammar.StreamIsWellFormed` | crates/pipa-mysql/src/adapter.rs:147-276 | for every driver stream and cancellation point: Started, at most one Schema, batches of 256 rows but for the last, one terminal event; the rows are a prefix of the first row-producing set, all of it on Completed, with the affected rows |
| `QueryEnds.StreamEndsAs` | crates/pipa-mysql/src/adapter.rs:119-276 | with which event a run ends: the failure to connect or to set up, the first row of a second set or that does not convert if the loop gets there before it is cancelled, the cancellation, the failures of the driver and the session, or completion |
| `QueryEnds.AffectedIsCapped` | crates/pipa-mysql/src/adapter.rs:166-169 | the affected rows are the sum of the counts, or the largest 64-bit number |
| `QueryRace.RunsFollowTheProducer` | src-tauri/src/mcp/query_runner.rs:128-167 | in every interleaving what has been sent is what the producer sends, and in the end all it sends for some turn of cancellation, with at most eight events in the channel |
| `QueryRace.DoneReceivedAll` | src-tauri/src/mcp/query_runner.rs:170-232 | when the collector is done it has received everything, and nothing is left to send |
| `QueryRace.CollectedResultIsExact` | src-tauri/src/mcp/query_runner.rs:170-232 | in every interleaving over the bounded channel, without an error the rows are the first min(n, limit) and `truncated` is n > limit; an error is a producer's failure or a cancellation from outside |
| `QueryRace.EveryRunDelivers` | src-tauri/src/mcp/query_runner.rs:128-167 | every run is bounded, and at its end some step of its own, not counting a cancellation from outside, is possible exactly when the collector is not done |
| `ProposalQueue.McpQueue.Propose` | src-tauri/src/mcp/queue.rs:39-80 | adding puts the proposal in front, or leaves the queue as it was and fails |
| `ProposalQueue.McpQueue.TrimTerminalProposals` | src-tauri/src/mcp/queue.rs:223-230 | the loop removes oldest finished proposals until the queue fits |
| `ProposalQueue.McpQueue.ClaimForExecute` | src-tauri/src/mcp/queue.rs:83-107 | only a pending proposal is claimed, and only its status changes |
| `ProposalQueue.McpQueue.ClaimForDismiss` | src-tauri/src/mcp/queue.rs:110-135 | likewise for a dismissal |
| `ProposalQueue.McpQueue.UpdateProposal` | src-tauri/src/mcp/queue.rs:138-149 | the update changes status and summary of the one proposal with that id and returns it, or reports that there is none |
| `ProposalQueue.ClaimsExactly` | src-tauri/src/mcp/queue.rs:83-135 | a pending proposal becomes executing or dismissed where it stands, any other is refused with its status, and nothing else changes |
| `ProposalQueue.UpdateExactly` | src-tauri/src/mcp/queue.rs:138-149 | an update changes status and summary of the first proposal with that identifier; without one, updates and claims change nothing and claims report that |
| `ProposalQueue.EnqueueMakesRoom` | src-tauri/src/mcp/queue.rs:56-71 | adding fails exactly when the queue is full of open proposals; otherwise only a full queue loses one, its oldest finished |
| `ProposalRace.QueueIsSafe` | src-tauri/src/mcp/mod.rs:159-237 | at every moment of every interleaving: at most 100 entries, each once, newest first by arrival; nothing submitted twice, nothing dismissed ever submitted |
| `ProposalRace.UpdatesFindTheirEntries` | src-tauri/src/mcp/mod.rs:163-196 | the update after a claim finds its entry, still executing |
| `ProposalRace.PendingCanBeConfirmed` | src-tauri/src/mcp/mod.rs:159-196 | in every run a pending proposal can be confirmed in its own three steps: it is submitted for the first time, its entry alone changes, and no task is left behind |
| `ProposalRace.OpenIsNeverEvicted` | src-tauri/src/mcp/queue.rs:34-38 | no step evicts a proposal that is still open |
| `ProposalRace.TimesMayBeOutOfOrder` | src-tauri/src/mcp/queue.rs:46-58 | by creation time the queue need not be newest first |
| `ProposalRace.PushKeepsTimesExactly` | src-tauri/src/mcp/queue.rs:46-71 | adding to a time-ordered queue keeps it so exactly when the newcomer is no older than the first entry, or than the second when the first is the one evicted |
| `ProposalRace.TimesInOrderExactly` | src-tauri/src/mcp/types.rs:106 | in every run, all states are newest first by creation time exactly when every accepted addition is in time |

## Left out

- Sockets, TLS, timeouts, the driver and the file system: the driver's stream, the bytes of a connection and the files' contents are inputs.
- Event decoding, checksums and decompression of the binlog library: what a frame decodes to is a parameter that may depend on all earlier frames.
- Decoding of cells, timestamps, table maps and diagnostics of the parser: they do not feed the properties above.
- Reset output text: statements are syntax trees; comment lines around them and the rendering of literals other than strings are not modelled; a numeral is taken to stand for its number, a string for its text, and texts of times and JSON are compared as texts.
- Decimal parsing, base64 and the regular expressions of the structure editor: parameters; the policy's keyword expression is membership of whole words plus the FOR SHARE pair.
- The table-name guess for statements in the assembler (assembler.rs:221-309): a parameter that returns an optional change.
- MySQL collations, case-insensitive column names, ENUM and float comparison: texts, names and values are compared exactly.
- `DdlCorrectness.PlanBuildsDraft`: a statement is taken to define its column as the draft describes it; the text of a column definition (table_ddl.rs:212-267) is not modelled.
- Localised messages: errors are kinds, so two messages are duplicates only when kind and arguments agree.
- Counters wider than the source's: event, row and sequence numbers are unbounded, except where the source saturates or checks, which is modelled.
- Error replies of the Redis reader: text that is not valid UTF-8 is kept as its bytes instead of being replaced.
- Shaping of Redis replies into tables and JSON (adapter.rs:524-738): each case is settled by reading one branch.
- `ResetMeaning.ResetUndoes`: one direction in one given state, since there a statement that hits another row may be made good by a later one; `ResetExactness.CompleteResetExactly` has both directions over all states.
- `ProjectedReset.ProjectedResetRestoresItsTables`: not with an operation filter, which keeps only part of a table's row changes, so that no earlier state of it need come back.
- `QueryRace.CollectedResultIsExact`: one query and one collector; the pool and the connection's shutdown are not modelled.
- The activity log, panel events and lock poisoning of the shared state; a lock is held for the whole of each queue method, which is one step of the model.
- User interface, local store, settings, MCP server start and stop, command wiring.
