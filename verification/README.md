# A verified model of the nginx-log ETL script

`scripts/ETL.py` reads an nginx access log line by line and cuts every line into a
dictionary. It collects the lines it cannot parse in an error list, puts the
dictionaries into a pandas data frame and drops duplicate rows. Then it inserts
the rows one at a time into a MySQL table, catching and recording any row that
fails. This project models that core in Dafny 4.11 and proves what it computes.

The modules follow the script:

- `PyStrings` (`pystrings.dfy`) models the Python `str` methods the parser relies on:
  - `strip()` with CPython's whitespace set;
  - `find`, `split(sep)` and `" ".join`;
  - `split()` with no argument;
  - `replace(c, "")`.
- `LogParser` (`log_parser.dfy`) models `parse_logfile` (lines 20-61):
  - the line shape `<client> - - [<timestamp>] "<METHOD> <url> <protocol>" <status> <size>`;
  - the dictionary the parser returns: empty, client only, or complete;
  - the four exceptions it can catch;
  - the response-size and query rules;
  - a round trip: a line laid out from plain fields parses back to those fields.
- `Batch` (`batch.dfy`) models `[log.strip() for log in logs]` and
  `[parse_logfile(log) for log in logs]` (lines 80-81), together with the `parsing_errors` list they fill.
- `Dedup` (`dedup.dfy`) models `df.duplicated()`, `df.drop_duplicates()` and the duplicate check at lines 94-97.
- `Loader` (`loader.dfy`) models the per-row `try: INSERT ...; commit() except: record` loop (lines 130-151).
- `Pipeline` (`pipeline.dfy`) chains these steps the way `main` does.
- `Scenarios` and `PipelineScenarios` (`scenarios.dfy`) state what the model gives on concrete lines.

The world outside the script is a parameter:

- **`strptime`** is a partial function from text to an instant of some type `T`. It stands for `datetime.strptime(..., "%d/%b/%Y:%H:%M:%S %z")`.
- **The database** is a sink. Given the rows committed so far and the next row, it answers `Accepted` or `Rejected(message)`. The loop meets it only when the frame has a `Timestamp` column; otherwise every row fails before the `INSERT` is sent (see below).

### Where the model follows the code rather than the intent its comments and names suggest

- **Query.** The query parameter is the text between the first `?` and the second `?` (or the end), not everything after the first `?`. The code takes `url.split("?")[1]`. So `/a?x=1?y=2` gives `x=1`. A URL whose only `?` is its last character gives an empty query even though it contains a `?` (`Scenarios.QueryCuts`).
- **Status and size.** Status code and response size are kept as the raw tokens. The code never converts them to integers. Only the size `-` becomes the integer `0` (`ResponseSize.Zero`); any other size, `"0"` included, stays text. A token MySQL cannot store in an `INT` column shows up only as a rejection by the sink.
- **Field order.** `IP_Address` is set only after the request has been split into five fields. A line with the wrong field count therefore yields an empty dictionary. A line whose timestamp `strptime` rejects yields a dictionary holding only the client.
- **A log where every line fails early.** When every line raises before `IP_Address` is set, every dictionary is empty and `pd.DataFrame(records)` has rows but no columns. pandas gives such a frame an empty `duplicated()` mask, and `df[df.duplicated()]` cannot align that mask with the frame's rows, so it raises. `main` then stops at line 94: nothing is dropped and nothing is inserted. The parse-error log (lines 86-91) has already been written. `Pipeline.RunPipeline` reports this as `aborted` (`Pipeline.Columnless`, `Pipeline.AbortsOnEarlyFailures`, `PipelineScenarios.BlankLogAborts`). An empty log does not raise.
- **A log without a complete record.** When no line yields a complete record but some line yields the client alone (its timestamp was rejected by `strptime`), the frame has only the `IP_Address` column. The insertion loop reads `row["Timestamp"]` to build the `INSERT`'s arguments (line 141). That raises `KeyError` on every row inside the `try`, so every row of the frame lands in `insertion_errors` with the message `'Timestamp'`. Nothing is inserted and the database is never called. `Pipeline.RunPipeline` states this case separately (`Pipeline.FrameSink`, `Pipeline.NoTimestampNoInsert`, `PipelineScenarios.AddressOnlyRowFails`).

## Model

| member | source | states |
|---|---|---|
| PyStrings.Strip | scripts/ETL.py:36 | `strip()` returns a text no longer than its input that neither starts nor ends with whitespace |
| PyStrings.StripInfix | scripts/ETL.py:36 | what `strip()` keeps is a contiguous infix of the input; everything it removes on either side is whitespace |
| PyStrings.StripPadded | scripts/ETL.py:80 | `strip()` removes exactly the whitespace padding around an already stripped text |
| PyStrings.StripIdempotent | scripts/ETL.py:80 | stripping twice is stripping once |
| PyStrings.FindFirst | scripts/ETL.py:35 | the first index at which the separator occurs, and none exactly when it does not occur |
| PyStrings.Before | scripts/ETL.py:35-36 | the first piece of a split is the prefix before the first separator and holds no separator |
| PyStrings.SplitOn | scripts/ETL.py:35 | `s.split(sep)` returns at least one piece, the pieces joined by `sep` give `s` back, no piece holds `sep`, and there are two or more pieces exactly when `sep` occurs |
| PyStrings.SplitOnFields | scripts/ETL.py:35-38 | the first two pieces of `split(sep)` are the texts before the first separator and between the first and second |
| PyStrings.SplitWsTokens | scripts/ETL.py:42 | every token of `split()` is non-empty and free of whitespace |
| PyStrings.SplitWsOfJoin | scripts/ETL.py:42 | `split()` of non-empty blank-free tokens joined by single blanks gives the tokens back |
| PyStrings.RemoveCharMembers | scripts/ETL.py:38 | `replace(c, "")` removes every `c` and keeps every other character |
| PyStrings.MissingCharNotContained | scripts/ETL.py:35 | a text lacking one character of the separator does not contain it, so splitting it yields one piece |
| LogParser.LineSplits | scripts/ETL.py:35-39 | the two `split` calls have a second piece exactly when the line has a separator and, after it, a `]` |
| LogParser.ParseLine | scripts/ETL.py:20-61 | a complete record comes with no error, a client-only record comes with a timestamp error, and any non-empty record carries the stripped text before the first separator |
| LogParser.ParseLineFailures | scripts/ETL.py:34-59 | the four exceptions and exactly the lines that raise each: no separator, no `]`, a field count other than five, an unparsable timestamp |
| LogParser.ParseLineFields | scripts/ETL.py:41-55 | a complete record holds the first, second, fourth and fifth request tokens, the instant `strptime` gives the timestamp text, and the query of its URL |
| LogParser.ParseSucceeds | scripts/ETL.py:34-56 | a line with a separator, a `]`, five request tokens and an accepted timestamp parses to the complete record built from them |
| LogParser.ParseFormatted | scripts/ETL.py:20-61 | round trip: a line laid out as `client - - [ts] "m u p" st sz` from plain fields parses back to exactly those fields, the protocol excepted |
| LogParser.SizeOf | scripts/ETL.py:52-54 | the size is the integer 0 exactly when the token is `-`, and otherwise the token text unchanged |
| LogParser.QueryOf | scripts/ETL.py:44 | no `?` gives an empty query; otherwise the query holds no `?` and sits right after the first `?`, running to the next `?` or the end |
| LogParser.QuerySplit | scripts/ETL.py:44 | the query of `a?b…` is `b` when `a` and `b` hold no `?` and `b` is followed by `?` or the end |
| LogParser.SplitFormatted | scripts/ETL.py:35-36 | the first split of `client - - tail` gives the client, stripped, and the tail |
| LogParser.SplitBracketed | scripts/ETL.py:38-39 | the second field `[ts]r` loses its `[` and splits on `]` into the timestamp and the request part |
| Batch.StripLines | scripts/ETL.py:80 | one stripped line per line read, in order, each free of surrounding whitespace |
| Batch.Failures | scripts/ETL.py:57-64 | the `parsing_errors` list: no more entries than lines, each a line together with the exception its parse raised |
| Batch.EntryOf | scripts/ETL.py:57-59 | a line contributes one error entry, carrying the line and the exception, exactly when it fails to parse |
| Batch.ParseLines | scripts/ETL.py:81 | one record per line in order, each the parser's record for that line, and the error list the parser calls append |
| Batch.FailuresAppend | scripts/ETL.py:81 | the error list of a concatenation of lines is the concatenation of their error lists |
| Batch.FailuresExactly | scripts/ETL.py:57-59 | an entry is in the error list exactly when some line is its text and raises its exception |
| Batch.FailuresCount | scripts/ETL.py:57-59 | the error list has one entry per failing line |
| Batch.NoFailuresNoErrors | scripts/ETL.py:86 | the error list is empty exactly when no line raised |
| Dedup.Duplicated | scripts/ETL.py:94 | the duplicate mask flags a row exactly when an equal row comes before it |
| Dedup.DropDuplicates | scripts/ETL.py:96 | the frame after the drop has no repeated row, holds only rows of the input and holds every row of the input |
| Dedup.DropIsUnflagged | scripts/ETL.py:94-96 | `drop_duplicates()` keeps exactly the rows `duplicated()` leaves unflagged, in input order |
| Dedup.DuplicateCount | scripts/ETL.py:94-97 | the logged duplicate count is the number of rows the drop removes |
| Dedup.DropDistinct | scripts/ETL.py:95-96 | a frame without repeated rows is left unchanged |
| Dedup.DropIdempotent | scripts/ETL.py:96 | dropping duplicates twice is dropping them once |
| Dedup.NothingFlagged | scripts/ETL.py:95 | the mask flags nothing exactly when no row repeats |
| Dedup.AtMostOnce | scripts/ETL.py:96 | after the drop every input row occurs exactly once and nothing else occurs |
| Dedup.CountTrue | scripts/ETL.py:94-95 | `len(df[df.duplicated()])`: the number of flagged rows, at most the number of rows, and zero exactly when nothing is flagged |
| Dedup.Deduplicate | scripts/ETL.py:95-96 | the guarded drop equals the unguarded one, since an unflagged frame has no repeats |
| Loader.Load | scripts/ETL.py:130-151 | the loop keeps the rows already in the table as a prefix, and rows inserted plus rows failed equals the rows offered |
| Loader.LoadPartition | scripts/ETL.py:130-151 | the table grows by exactly the accepted rows and the error list holds exactly the rejected rows with their messages, both in frame order |
| Loader.PartitionCount | scripts/ETL.py:130-151 | every row is counted once, as inserted or as failed |
| Loader.RowFate | scripts/ETL.py:149-151 | an accepted row lands in the table, and a rejected row lands in the error list with its message |
| Loader.AcceptedMembers | scripts/ETL.py:132-149 | a row is in the table exactly when some position holding it was accepted |
| Loader.NeverBoth | scripts/ETL.py:132-151 | in a frame without repeated rows, as the duplicate drop leaves it, a row is inserted exactly when accepted and in the error list exactly when rejected, never both |
| Loader.FailureIsRejection | scripts/ETL.py:150-151 | every insertion error belongs to a row the database rejected, with that rejection's message |
| Loader.IndependentVerdicts | scripts/ETL.py:132-151 | when the database judges rows on their own, each row's verdict is unaffected by earlier failures |
| Loader.Isolation | scripts/ETL.py:130-151 | one rejected row gives one insertion error, for that row, and every other row is inserted in order |
| Loader.RejectAll | scripts/ETL.py:150-151 | when every row raises, the table is left as it was and every row is an insertion error with that message, in order |
| Loader.InsertRows | scripts/ETL.py:130-151 | the loop over the frame commits and records exactly what the reference definition says |
| Pipeline.RunPipeline | scripts/ETL.py:79-151 | `main` end to end: records per stripped line and the parse-error list; the run stops at the duplicate check, with nothing inserted, exactly when the frame has rows but no columns; otherwise the deduplicated frame with its logged count; when no record is complete, nothing inserted and every frame row an insertion error with `'Timestamp'`; otherwise the database's insertion outcome |
| Pipeline.AbortsOnEarlyFailures | scripts/ETL.py:93-94 | the duplicate check raises exactly when the log is non-empty and every line raised before `IP_Address` was set |
| Pipeline.NoTimestampNoInsert | scripts/ETL.py:46-47 | when `strptime` rejects every timestamp no record is complete, so no row reaches the database |
| Pipeline.CleanParse | scripts/ETL.py:81-91 | no parse error is logged exactly when every stripped line yields a complete record |
| Pipeline.FailureReported | scripts/ETL.py:57-59 | every line that fails appears in the error list with its stripped text and its exception |
| Scenarios.SampleParses | scripts/ETL.py:20-61 | a typical access-log line parses to client `192.168.1.1`, `GET`, `/index.html?id=5`, `200`, `1024` and the query `id=5` |
| Scenarios.DashSizeParses | scripts/ETL.py:54 | a size of `-` becomes the integer 0, and a URL without `?` has an empty query |
| Scenarios.QueryCuts | scripts/ETL.py:44 | `/a?x=1?y=2` has the query `x=1`, and `/a?` has an empty query |
| Scenarios.BlankLineFails | scripts/ETL.py:35-38 | a blank line raises for want of a separator and yields an empty dictionary |
| PipelineScenarios.BlankLogAborts | scripts/ETL.py:93-94 | a log of two blank lines gives a frame without columns, so the duplicate check raises |
| PipelineScenarios.AddressOnlyRowFails | scripts/ETL.py:132-151 | a frame holding one client-only row fails that row with `KeyError('Timestamp')` and inserts nothing, whatever the database would answer |
| Scenarios.RepeatedRowsCollapse | scripts/ETL.py:94-96 | the empty dictionaries of failed lines are duplicates of one another and collapse into one row |
| Scenarios.OneRejectedRow | scripts/ETL.py:130-151 | a database that rejects the middle of three rows still receives the first and the last |

## Left out

- Logging (`logging.basicConfig`, `log_event`, lines 8-17) and `print(e)` (line 58) are left out. They only write messages.
- Reading `config/config.ini` and the log file (lines 72-79) is left out; the lines are an input. `readlines()` keeps line terminators, and `strip()` removes them with the other whitespace.
- Writing `parsing_errors.log` and `insertion_errors.log` (lines 86-91, 158-162) is left out; the error lists are returned instead.
- The MySQL connection, `CREATE DATABASE` and `CREATE TABLE` (lines 101-128), and `close` (lines 153-154) are left out. The database is the `Sink` parameter, met only by frames that have every column. Its coercion rules, for example a non-numeric status rejected by an `INT` column, are not modelled.
- `datetime.strptime` is not modelled. It is a parameter that either returns an instant or fails.
- pandas internals are not modelled: column alignment, and the `NaN` that fills missing keys. A row is the parser's record, and rows compare structurally, as pandas compares equal `NaN`-filled rows as duplicates.
- The exception messages (`str(e)`) are not modelled. A parse error is one of four named causes, and an insertion error carries the sink's message, or `'Timestamp'` for the `KeyError` of a frame without that column.
- `parsing_errors` is a module-level list that `parse_logfile` appends to. Here the appended entry is part of the parser's result, and `Batch` collects the entries.
- Python's `split()` is modelled on CPython's whitespace set for `str`. Unicode normalisation and encodings are not modelled.
