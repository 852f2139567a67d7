# Kryzbu server core, modelled in Dafny

Kryzbu is a small file-storage server. A client opens a connection and sends
one request text, `UPLOAD;name;user`, `DOWNLOAD;name;user`,
`REMOVE;name;user` or `LIST_DIR;user`. The server checks that the user is
known, then stores, sends, deletes or lists files in its storage folder.
The server keeps a catalogue of stored files, the file index: one row per
file, holding name, owner, upload date and download count. `init` indexes
every file in the folder. Uploads keep the index complete only with the
corrected `add` call; see "## Findings". Every upload, download and deletion appends
one line to a log file.

This project models the three core parts of this plaintext snapshot:

- `text.dfy` (module `Text`): the Python string operations the server
  relies on, on `seq<char>`. These are `sub in s`, `str.split(';')`,
  `str(int)` and decimal printing of sizes. It also holds `';'.join`, which
  the server itself never calls: it builds the request text a client sends
  (`Service.Format`), against which the parsing round trips are stated.
- `clock.dfy` (module `Clock`): the clock value and the two `strftime`
  layouts, `%m/%d/%Y` for index rows and `%m/%d/%Y %H:%M:%S` for log lines.
  The clock is a parameter; a timestamp reads back to the clock value.
- `loglib.dfy` (module `Loglib`): `Log.Event`, the templates `Log.event`
  picks by kind and status, and `Log.write`. The log file is the class
  `Log` with a `content: string` field that only grows. A reader,
  `ParseEventLine`, is the inverse the templates are checked against.
- `db.dfy` (module `Db`): `File_index`. The SQLite table is the class
  `FileIndex`, with `hasTable: bool` and `rows: seq<Row>` fields. Its
  methods are `add`, `download`, `delete`, `return_all`, `get_record`,
  `table_exists`, `init` and `refresh`. The two passes of `refresh` are
  loops, proved against a specification function, `Refreshed`, whose
  consistency, idempotence and event-count properties are lemmas.
- `transfer.dfy` (module `Transfer`): the two byte loops of the server. The
  upload loop reads until an empty chunk. The download loop sends the file
  in pieces of `BUFFER_SIZE` = 4096 bytes.
- `service.dfy` (module `Service`): request dispatch in `handle_connection`,
  and the four handlers. Each handler is a function from the store to a
  `Response`: the new store, the replies written and whether an exception
  ended the handler. The class `Server` runs the handlers against a real
  `FileIndex` and `Log`, and each of its methods is proved equal to its
  function.

The known users are a set of names, since `User_db` is not part of this
model. The storage folder is a map from file name to bytes. The replies are
the sequence of `writer.write` calls.

The later design of the system differs from this snapshot. It has
per-owner directories, an `add(name, owner)` that skips an existing pair,
and owners inferred from the directory. The model follows the code of the
snapshot, with one exception: the handlers the other properties build on
make the index call of `recieve_file` as `add(file_name)`, because the
two-argument call as written always raises (see "## Findings"). The code as
written is modelled separately, by `Service.ReceivedAsWritten`.

## Model

| member | source | states |
|---|---|---|
| Text.Contains | src/server/server.py:51 | the empty string is in every string, and a string found in a text is no longer than the text |
| Text.ContainsAt | src/server/server.py:51 | `sub in s` holds exactly when `sub` occurs at some offset of `s` |
| Text.Split | src/server/server.py:53 | `split(';')` yields at least one field, even for the empty text |
| Text.SplitCount | src/server/server.py:53 | `split(';')` gives one field more than the number of separators |
| Text.SplitJoin | src/server/server.py:53 | fields free of the separator, once joined, split back into the same fields |
| Text.JoinSplit | src/server/server.py:53 | joining the fields of a split gives back the original text |
| Text.ContainsInJoin | src/server/server.py:51 | a needle without ';' found in a joined text is found in one of its fields |
| Text.NatToString | src/server/server.py:137 | the size is printed as at least one decimal digit, with no leading zero unless it is 0 |
| Text.DecimalRoundTrip | src/server/server.py:137 | reading the printed size back as decimal gives the size |
| Text.IntToString | src/server/loglib.py:38 | `str(status)` is digits with a leading '-' exactly when the status is negative, and the digits read back as the status's magnitude |
| Clock.Strftime | src/server/loglib.py:37 | a timestamp is 19 characters and starts with the "%m/%d/%Y" date |
| Clock.TimestampRoundTrip | src/server/loglib.py:37 | parsing a formatted timestamp gives back the clock value |
| Clock.ParsedTimestampIsFormatted | src/server/loglib.py:37 | only formatted timestamps parse, so each log line's time has one spelling |
| Loglib.EventLine | src/server/loglib.py:36-66 | every line `Log.event` writes starts with the timestamp and ends with ".\n" |
| Loglib.EventLineLayout | src/server/loglib.py:36-66 | both templates are: timestamp, " ", keyword, fixed wording, file name (on the error template followed by " with error " and the status), ".\n" |
| Loglib.HeadsDiffer | src/server/loglib.py:36-66 | the six fixed heads (three kinds, success or error) differ, so a line names its kind and template unambiguously |
| Loglib.ParseEventLineRoundTrip | src/server/loglib.py:36-66 | reading a written line back gives the time, the kind, `status == 0` as the chosen template, and `payload[0]` with the status on error |
| Loglib.SuccessSubjectIsFileName | src/server/loglib.py:37 | a success line reads back to exactly the file name |
| Loglib.EventLineIsOneLine | src/server/loglib.py:36-66 | with a file name free of line breaks, each event is exactly one line and ends in "\n" |
| Loglib.RenderConcat | src/server/loglib.py:70-74 | the text of two runs of events is the text of the first followed by the second |
| Loglib.RenderLineCount | src/server/loglib.py:26-66 | n events append exactly n lines |
| Loglib.Log.constructor | src/server/loglib.py:71 | the log starts from the file's existing content |
| Loglib.Log.Write | src/server/loglib.py:70-74 | the log becomes the old log followed by the line; the old content is kept as a prefix |
| Loglib.Log.Event | src/server/loglib.py:26-66 | the log gains exactly the template line for the kind, the status and `payload[0]`; `payload[1]` is unused |
| Db.FirstNamed | src/server/db.py:121-129 | None exactly when no row has the name; otherwise the first row with that name |
| Db.SetDownloads | src/server/db.py:51 | every row with the name gets the new count, every other row is unchanged |
| Db.Bumped | src/server/db.py:45-53 | `download` keeps the number of rows and their names in order, and leaves rows with other names unchanged |
| Db.BumpedCounter | src/server/db.py:45-53 | after `download`, the first matching row's count is one more, and rows with other names are unchanged |
| Db.Drop | src/server/db.py:62 | deleting by name never adds rows |
| Db.DropCounts | src/server/db.py:57-64 | `delete` removes every copy of a row with the name and no copy of any other row |
| Db.DropMembers | src/server/db.py:57-64 | the rows left are exactly the old rows whose name differs |
| Db.DropDrop | src/server/db.py:83-87 | deleting by one set of names and then another is deleting by both |
| Db.Unindexed | src/server/db.py:75-80 | pass 1 inserts a row for exactly the listed files without one, each once |
| Db.NewRows | src/server/db.py:78 | each inserted row is owned by "Local_Admin", dated today and never downloaded |
| Db.UploadEntries | src/server/db.py:80 | one UPLOAD with status 0 is logged per inserted row, naming the rows in the order they are inserted |
| Db.GoneMembers | src/server/db.py:83-87 | pass 2 deletes by exactly the names of rows whose file is missing |
| Db.DeleteEntries | src/server/db.py:87 | every event of pass 2 is a DELETE with status 0 for a missing file |
| Db.DeleteEntriesNames | src/server/db.py:83-87 | pass 2 logs a missing file's name once for each row that carries it, and never logs a listed name |
| Db.DeleteEntriesNameGoneFiles | src/server/db.py:83-87 | the DELETE events name exactly the indexed files missing from the folder |
| Db.RefreshIndexesEveryFile | src/server/db.py:75-80 | after `refresh` every file of the folder has a row |
| Db.RefreshKeepsOnlyListed | src/server/db.py:83-87 | after `refresh` no row names a missing file |
| Db.Refreshed | src/server/db.py:68-90 | every event `refresh` logs has status 0 |
| Db.RefreshShape | src/server/db.py:68-90 | the new table is the old one without rows for missing files, followed by one new row per unindexed file |
| Db.RefreshEvents | src/server/db.py:68-90 | the log gains one UPLOAD per inserted row, then one DELETE per deleted row, naming each deleted row's file |
| Db.RefreshConsistentIsNoOp | src/server/db.py:68-90 | a table consistent with the folder is left unchanged and nothing is logged |
| Db.RefreshMakesConsistent | src/server/db.py:68-90 | after `refresh` the table and the folder agree in both directions |
| Db.RefreshIdempotent | src/server/db.py:68-90 | a second `refresh` over an unchanged folder inserts, deletes and logs nothing |
| Db.FileIndex.constructor | src/server/db.py:133-144 | the database as found: with or without the `file_index` table |
| Db.FileIndex.TableExists | src/server/db.py:133-144 | true exactly when the table exists |
| Db.FileIndex.Init | src/server/db.py:19-30 | the table exists afterwards, and holds the refresh of the old rows, or of no rows when it was created |
| Db.FileIndex.Add | src/server/db.py:34-41 | appends exactly one row (name, "everyone", today, 0) and keeps every earlier row |
| Db.FileIndex.Download | src/server/db.py:45-53 | with a row of that name, the counter is raised; without one, the lookup fails and nothing changes |
| Db.FileIndex.Delete | src/server/db.py:57-64 | the table loses exactly its rows with that name |
| Db.FileIndex.ReturnAll | src/server/db.py:105-117 | all rows in table order, or the empty list when there is no table |
| Db.FileIndex.GetRecord | src/server/db.py:121-129 | None exactly when no row has the name; otherwise the first row of the table with that name, as `FirstNamed` gives |
| Db.FileIndex.Refresh | src/server/db.py:68-90 | the table and the log become what `Refreshed` gives for the old table and the listing |
| Db.FileIndex.IndexNewFiles | src/server/db.py:75-80 | pass 1 appends the rows and UPLOAD lines for the unindexed files |
| Db.FileIndex.IndexIfNew | src/server/db.py:76-80 | one turn of pass 1 keeps the pass-1 invariant for the next listed file |
| Db.FileIndex.DropMissingFiles | src/server/db.py:83-87 | pass 2 deletes the rows of missing files and logs one DELETE per row of a missing file |
| Db.FileIndex.DropIfMissing | src/server/db.py:84-87 | one turn of pass 2 keeps the pass-2 invariant for the next row |
| Transfer.Collected | src/server/server.py:107-112 | the upload loop never writes more than it reads |
| Transfer.CollectedStopsAtEmptyRead | src/server/server.py:108-111 | the loop stores exactly the chunks before the first empty read; later chunks are ignored |
| Transfer.CollectedAll | src/server/server.py:107-112 | with no empty read, every chunk is stored |
| Transfer.Chunked | src/server/server.py:142-148 | the download loop sends no piece exactly when the file is empty |
| Transfer.ChunkedSizes | src/server/server.py:142-148 | each piece sent holds 1 to 4096 bytes, all but the last are full, and a file of n bytes takes n/4096 pieces, rounded up |
| Transfer.ConcatChunked | src/server/server.py:142-148 | the pieces sent add up to the whole file |
| Transfer.CollectedChunked | src/server/server.py:107-112 | what the download loop sends is stored whole by the upload loop |
| Transfer.SendPieces | src/server/server.py:142-148 | the download loop sends exactly the pieces of the file, in order |
| Service.ParseRequest | src/server/server.py:51-68 | the request is unrecognised exactly when none of the four keywords occurs in it; a dispatched request's user name is its last ';' field |
| Service.Received | src/server/server.py:97-119 | with the index call made as `add(file_name)`: the upload never raises and deletes no file, and a known user's upload leaves the file stored and indexed |
| Service.ReceivedAsWritten | src/server/server.py:97-119 | as written: the index is never changed, and a known user's upload stores the file and then raises the TypeError of the two-argument `add` |
| Service.Served | src/server/server.py:123-157 | the folder never changes; the handler raises exactly when a known user downloads a stored file that has no index row |
| Service.Removed | src/server/server.py:161-181 | never raises; after a known user's removal the file is gone, and every file left keeps its bytes |
| Service.Listed | src/server/server.py:184-194 | changes nothing and never raises; the table is sent exactly to a known user |
| Service.Handled | src/server/server.py:45-72 | a request that is unrecognised or does not unpack changes nothing; the ValueError outcome happens exactly when the text does not unpack into the handler's fields |
| Service.ParseFormatRoundTrip | src/server/server.py:51-66 | a request whose fields hold no ';' and no keyword dispatches to the handler it names, with its own fields |
| Service.ParseUploadRoundTrip | src/server/server.py:51-54 | an UPLOAD request of plain fields reaches `recieve_file` |
| Service.ParseDownloadRoundTrip | src/server/server.py:55-58 | a DOWNLOAD request of plain fields reaches `serve_file` |
| Service.ParseRemoveRoundTrip | src/server/server.py:59-62 | a REMOVE request of plain fields reaches `remove_file` |
| Service.ParseListDirRoundTrip | src/server/server.py:63-66 | a LIST_DIR request of a plain user name reaches `list_files` |
| Service.UploadInFileNameWins | src/server/server.py:51-54 | dispatch is by substring: any three-field request whose file name contains "UPLOAD" is an upload of that file |
| Service.RemoveOfUploadNamedFileUploads | src/server/server.py:51-62 | REMOVE of a file whose name contains "UPLOAD" overwrites it with the following bytes instead of deleting it |
| Service.WrongFieldCountBySeparators | src/server/server.py:53-65 | the unpacking error happens exactly when the handler's keyword is found and the text has the wrong number of ';' (two, or one for LIST_DIR) |
| Service.PayloadOfFrames | src/server/server.py:142-148 | the bytes a client reads from the piece replies are the concatenated pieces |
| Service.UnknownUserIsRefused | src/server/server.py:116-194 | an unknown user changes nothing and gets one refusal, "ERROR;NotAuthenticated" on upload and "ERROR;NotAuthenticatedError" otherwise |
| Service.HandledLogIsAppendOnly | src/server/server.py:45-72 | no request changes earlier log content |
| Service.UploadStoresCollected | src/server/server.py:100-115 | an upload replies "OK;Authenticated", stores exactly the bytes read before the first empty read (overwriting), leaves other files alone, appends one row and one UPLOAD line |
| Service.DownloadSendsWholeFile | src/server/server.py:126-150 | a download replies "OK;Authenticated", then "name;size", then bounded pieces that add up to the file, and logs one DOWNLOAD line |
| Service.UploadThenDownload | src/server/server.py:97-151 | a file uploaded by a known user downloads whole and the download completes |
| Service.DownloadCountsOnce | src/server/server.py:150-151 | a download of an indexed file raises its count by exactly one and leaves the files alone |
| Service.MissingFileChangesNothing | src/server/server.py:128-178 | downloading or removing a missing file replies "ERROR;FileNotFoundError" and changes nothing |
| Service.RemoveDeletesFile | src/server/server.py:164-175 | a removal deletes the file and all its rows, keeps every other file with its bytes and every other row, replies "OK;Authenticated" then "OK;FileDeleted;name", and logs one DELETE line |
| Service.RemoveThenDownload | src/server/server.py:161-178 | after a removal the file is neither stored nor indexed, and downloading it replies "ERROR;FileNotFoundError" |
| Service.ReceivedKeepsIndexed | src/server/server.py:114-115 | an upload keeps the index consistent with the storage folder |
| Service.ServedKeepsIndexed | src/server/server.py:150-151 | a download keeps the index consistent with the storage folder |
| Service.RemovedKeepsIndexed | src/server/server.py:172-174 | a removal keeps the index consistent with the storage folder |
| Service.HandledKeepsIndexed | src/server/server.py:45-72 | every request keeps the index consistent with the storage folder |
| Service.AsWrittenUploadLeavesFileUnindexed | src/server/server.py:115 | as written, a new file's upload stores exactly the collected bytes and appends the UPLOAD line, then raises before indexing it, so the index and the folder disagree |
| Service.UploadIndexesFile | src/server/server.py:114-115 | with the call made as `add(file_name)`, the upload completes and the stored file has a row |
| Service.Server.constructor | src/server/server.py:15-21 | the server starts from the given users, folder, index and log |
| Service.Server.ReceiveFile | src/server/server.py:97-119 | the new folder, table, log and replies are those of `Received` |
| Service.Server.ServeFile | src/server/server.py:123-157 | the new table, log, replies and outcome are those of `Served` |
| Service.Server.RemoveFile | src/server/server.py:161-181 | the new folder, table, log and replies are those of `Removed` |
| Service.Server.ListFiles | src/server/server.py:184-194 | changes nothing; replies "OK;Authenticated" and every row of the table, or the refusal |
| Service.Server.HandleConnection | src/server/server.py:45-72 | the new store, the replies and the outcome are those of `Handled` for the request text and the following reads |

## Left out

- `Server.start`, `Server.run`, the asyncio socket and `drain`/`close` are
  not modelled. The first read is the request text. The reads after it are
  a given sequence of chunks. The writes are a sequence of `Reply` values.
- Decoding the request bytes, and a request arriving in the same read as
  file bytes, are not modelled. The request is taken as already decoded
  text.
- After an exception the writer is not closed. The model records the
  exception as `Raised` and keeps no connection state.
- `pickle.dumps` in `list_files` is opaque: the reply is `Table(rows)`.
- `datetime.now()` is a parameter, read once per operation. The source reads
  the clock for each event and each row, so two readings within one
  operation may differ.
- Paths are not modelled. `os.path.exists`, `open` and `os.remove` on the
  storage folder joined with the name become operations on a map.
  Names holding '/' or "..", the empty name (the folder itself) and
  sub-directories fall outside the model.
- The SQLite engine is not modelled: the table is a sequence of rows in
  insertion order. Integer widths of the download counter are not modelled
  (it is unbounded).
- Db.FileIndex.Add, Db.FileIndex.Download, Db.FileIndex.Delete,
  Db.FileIndex.Refresh and Db.FileIndex.GetRecord require the table to
  exist. Without it SQLite raises "no such table". The server only calls them
  after `init` has created the table, so that error is not modelled.
- Db.FileIndex.DropMissingFiles: pass 2 of `refresh` walks `return_all()`,
  which opens a second connection that does not see the uncommitted
  inserts of pass 1. The model walks the rows after pass 1. This deletes and
  logs the same, because every row inserted by pass 1 names a listed file.
- The warnings `refresh` prints, `File_index.show_all`, `Server.init`,
  `User_db` (reduced to a set of known names), src/server/rsalib.py and the
  client and command-line programs are not part of this model.
- Loglib.Log.Event: `status` is an integer. The source prints any value
  with `str`.
- Clock.DateTime: years have four digits and the day of the month is
  between 1 and 31 whatever the month.
- Service.Received, Service.Handled, Service.Server.ReceiveFile,
  Service.Server.HandleConnection, Service.UploadThenDownload,
  Service.ReceivedKeepsIndexed and Service.HandledKeepsIndexed: the upload
  makes the index call as `add(file_name)`, not as the two-argument call at
  src/server/server.py:115, which raises TypeError after the file is stored
  and the upload logged. The call as written is `Service.ReceivedAsWritten`;
  there is no as-written version of `Handled`.
- Concurrent connections are not modelled: each request is one sequential
  transaction.

## Findings

| source | as written | input that shows it | evidently intended | confidence | as-written member | corrected member |
|---|---|---|---|---|---|---|
| src/server/server.py:115 | `recieve_file` calls `File_index.add(file_name, user_name)`, but `add` (src/server/db.py:34) takes one argument. The call raises TypeError after the file has been stored and the UPLOAD logged, so the file gets no row until the next `init`/`refresh` indexes it as Local_Admin, and a download before that fails when it counts the download. | "UPLOAD;a.txt;alice" from a known user alice, with no row for "a.txt" | `File_index.add(file_name)`, inserting the row ("a.txt", "everyone", today, 0), so that the index stays consistent with the folder | not executed | Service.AsWrittenUploadLeavesFileUnindexed | Service.UploadIndexesFile |
