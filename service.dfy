/** Request handling of the server (src/server/server.py): parsing a request
    text by substring tests and `split(';')`, and the four handlers, which
    answer with a sequence of messages and change the stored files, the file
    index and the log. A user is known when its name is in `users`; the
    storage folder is a map from file name to content. */
module Service {
  import opened Text
  import opened Clock
  import opened Loglib
  import opened Db
  import opened Transfer

  // ---------------------------------------------------------------------------
  // Requests
  // ---------------------------------------------------------------------------

  /** A request the server acts on, with the fields after its keyword. */
  datatype Request =
    | UploadFile(fileName: string, userName: string)
    | DownloadFile(fileName: string, userName: string)
    | RemoveFile(fileName: string, userName: string)
    | ListDir(userName: string)

  /** How `handle_connection` reads a request text. */
  datatype Dispatch =
    | Dispatched(request: Request)
    /** No keyword occurs in the text: the unknown-request reply. */
    | Unrecognised
    /** Unpacking `split(';')` into the handler's fields raises ValueError. */
    | WrongFieldCount

  /** `handle_connection`: the first keyword occurring anywhere in the text,
      in the order UPLOAD, DOWNLOAD, REMOVE, LIST_DIR, picks the handler;
      the text must then split into exactly 3 fields (2 for LIST_DIR), the
      first of which is ignored. */
  function ParseRequest(text: string): (d: Dispatch)
    ensures d == Unrecognised <==>
      !Contains(text, "UPLOAD") && !Contains(text, "DOWNLOAD") && !Contains(text, "REMOVE") && !Contains(text, "LIST_DIR")
    ensures d.Dispatched? ==> d.request.userName == Split(text, ';')[|Split(text, ';')| - 1]
  {
    var parts := Split(text, ';');
    if Contains(text, "UPLOAD") then
      if |parts| == 3 then Dispatched(UploadFile(parts[1], parts[2])) else WrongFieldCount
    else if Contains(text, "DOWNLOAD") then
      if |parts| == 3 then Dispatched(DownloadFile(parts[1], parts[2])) else WrongFieldCount
    else if Contains(text, "REMOVE") then
      if |parts| == 3 then Dispatched(RemoveFile(parts[1], parts[2])) else WrongFieldCount
    else if Contains(text, "LIST_DIR") then
      if |parts| == 2 then Dispatched(ListDir(parts[1])) else WrongFieldCount
    else Unrecognised
  }

  /** The fields of the text a client sends for `r`: the keyword first. */
  function Fields(r: Request): (fields: seq<string>)
    ensures |fields| >= 2
  {
    match r
    case UploadFile(f, u) => ["UPLOAD", f, u]
    case DownloadFile(f, u) => ["DOWNLOAD", f, u]
    case RemoveFile(f, u) => ["REMOVE", f, u]
    case ListDir(u) => ["LIST_DIR", u]
  }

  /** The request text for `r`, e.g. "DOWNLOAD;notes.txt;alice". */
  function Format(r: Request): string {
    Join(Fields(r), ';')
  }

  /** A field the parser cannot misread: no separator and no keyword. */
  predicate PlainField(f: string) {
    && ';' !in f
    && !Contains(f, "UPLOAD") && !Contains(f, "DOWNLOAD") && !Contains(f, "REMOVE") && !Contains(f, "LIST_DIR")
  }

  predicate PlainRequest(r: Request) {
    match r
    case ListDir(u) => PlainField(u)
    case _ => PlainField(r.fileName) && PlainField(r.userName)
  }

  /** A needle without ';' that no later field contains occurs in a joined
      request exactly when it occurs in the first field. */
  lemma KeywordInJoin(fields: seq<string>, keyword: string)
    requires |fields| >= 1 && ';' !in keyword
    requires forall k :: 1 <= k < |fields| ==> !Contains(fields[k], keyword)
    ensures Contains(Join(fields, ';'), keyword) <==> Contains(fields[0], keyword)
  {
    if Contains(Join(fields, ';'), keyword) {
      ContainsInJoin(fields, ';', keyword);
    }
    if Contains(fields[0], keyword) && |fields| > 1 {
      ContainsInPrefix(fields[0], [';'] + Join(fields[1..], ';'), keyword);
      assert Join(fields, ';') == fields[0] + ([';'] + Join(fields[1..], ';'));
    }
  }

  /** A request text holds its own first field. */
  lemma JoinHoldsHead(fields: seq<string>)
    requires |fields| >= 1
    ensures Contains(Join(fields, ';'), fields[0])
  {
    var rest := if |fields| == 1 then [] else [';'] + Join(fields[1..], ';');
    assert Join(fields, ';') == fields[0] + rest;
    ContainsPrefix(fields[0], rest);
  }

  lemma ParseUploadRoundTrip(f: string, u: string)
    requires PlainField(f) && PlainField(u)
    ensures ParseRequest(Format(UploadFile(f, u))) == Dispatched(UploadFile(f, u))
  {
    var fields := Fields(UploadFile(f, u));
    SplitJoin(fields, ';');
    JoinHoldsHead(fields);
  }

  lemma ParseDownloadRoundTrip(f: string, u: string)
    requires PlainField(f) && PlainField(u)
    ensures ParseRequest(Format(DownloadFile(f, u))) == Dispatched(DownloadFile(f, u))
  {
    var fields := Fields(DownloadFile(f, u));
    SplitJoin(fields, ';');
    JoinHoldsHead(fields);
    MissingCharNotContained("DOWNLOAD", "UPLOAD", 'U');
    KeywordInJoin(fields, "UPLOAD");
  }

  lemma ParseRemoveRoundTrip(f: string, u: string)
    requires PlainField(f) && PlainField(u)
    ensures ParseRequest(Format(RemoveFile(f, u))) == Dispatched(RemoveFile(f, u))
  {
    var fields := Fields(RemoveFile(f, u));
    SplitJoin(fields, ';');
    JoinHoldsHead(fields);
    MissingCharNotContained("REMOVE", "UPLOAD", 'U');
    MissingCharNotContained("REMOVE", "DOWNLOAD", 'W');
    KeywordInJoin(fields, "UPLOAD");
    KeywordInJoin(fields, "DOWNLOAD");
  }

  /** No other keyword occurs in a LIST_DIR request of a plain user name. */
  lemma ListDirHoldsNoOtherKeyword(u: string)
    requires PlainField(u)
    ensures var text := Format(ListDir(u));
      !Contains(text, "UPLOAD") && !Contains(text, "DOWNLOAD") && !Contains(text, "REMOVE")
  {
    var fields := Fields(ListDir(u));
    MissingCharNotContained("LIST_DIR", "UPLOAD", 'U');
    MissingCharNotContained("LIST_DIR", "DOWNLOAD", 'W');
    MissingCharNotContained("LIST_DIR", "REMOVE", 'M');
    KeywordInJoin(fields, "UPLOAD");
    KeywordInJoin(fields, "DOWNLOAD");
    KeywordInJoin(fields, "REMOVE");
  }

  lemma ParseListDirRoundTrip(u: string)
    requires PlainField(u)
    ensures ParseRequest(Format(ListDir(u))) == Dispatched(ListDir(u))
  {
    var fields := Fields(ListDir(u));
    SplitJoin(fields, ';');
    JoinHoldsHead(fields);
    ListDirHoldsNoOtherKeyword(u);
  }

  /** Parsing the text a client sends for a request of plain fields gives
      back that request. */
  lemma ParseFormatRoundTrip(r: Request)
    requires PlainRequest(r)
    ensures ParseRequest(Format(r)) == Dispatched(r)
  {
    match r
    case UploadFile(f, u) => ParseUploadRoundTrip(f, u);
    case DownloadFile(f, u) => ParseDownloadRoundTrip(f, u);
    case RemoveFile(f, u) => ParseRemoveRoundTrip(f, u);
    case ListDir(u) => ParseListDirRoundTrip(u);
  }

  /** Dispatch is by substring, not by the first field: any three-field
      request whose file name contains "UPLOAD" is handled as an upload of
      that file, whatever its first field says. */
  lemma UploadInFileNameWins(command: string, fileName: string, userName: string)
    requires ';' !in command && ';' !in fileName && ';' !in userName
    requires Contains(fileName, "UPLOAD")
    ensures ParseRequest(Join([command, fileName, userName], ';')) == Dispatched(UploadFile(fileName, userName))
  {
    SplitJoin([command, fileName, userName], ';');
    FieldHoldsKeyword(command, fileName, userName, "UPLOAD");
  }

  /** A keyword found in the middle field is found in the joined text. */
  lemma FieldHoldsKeyword(command: string, fileName: string, userName: string, keyword: string)
    requires Contains(fileName, keyword)
    ensures Contains(Join([command, fileName, userName], ';'), keyword)
  {
    var fields := [command, fileName, userName];
    assert fields[1..] == [fileName, userName];
    assert fields[1..][1..] == [userName];
    var tail := fileName + [';'] + userName;
    assert Join(fields[1..], ';') == tail;
    assert Join(fields, ';') == command + [';'] + tail;
    ContainsInPrefix(fileName, [';'] + userName, keyword);
    assert tail == fileName + ([';'] + userName);
    ContainsInSuffix(command + [';'], tail, keyword);
  }

  /** A request is refused with a field-count error exactly when its
      handler's keyword is found but the text does not hold exactly two
      separators (one for LIST_DIR). */
  lemma WrongFieldCountBySeparators(text: string)
    ensures ParseRequest(text) == WrongFieldCount <==>
      if Contains(text, "UPLOAD") || Contains(text, "DOWNLOAD") || Contains(text, "REMOVE")
      then CountChar(text, ';') != 2
      else Contains(text, "LIST_DIR") && CountChar(text, ';') != 1
  {
    SplitCount(text, ';');
  }

  // ---------------------------------------------------------------------------
  // Replies and state
  // ---------------------------------------------------------------------------

  const AUTHENTICATED := "OK;Authenticated"
  /** The refusal `recieve_file` sends. */
  const NOT_AUTHENTICATED := "ERROR;NotAuthenticated"
  /** The refusal the other three handlers send. */
  const NOT_AUTHENTICATED_ERROR := "ERROR;NotAuthenticatedError"
  const FILE_NOT_FOUND := "ERROR;FileNotFoundError"
  /** The reply to an unknown request; the backslashes are part of the text. */
  const UNKNOWN_REQUEST := "UN-KNOWN request, use \\{UPLOAD, DOWNLOAD, LIST_DIR\\}"

  /** One `writer.write` call: a text, a piece of a file, or the pickled
      rows of `return_all`. */
  datatype Reply = Message(text: string) | Bytes(data: seq<byte>) | Table(rows: seq<Row>)

  /** One reply per piece of a file. */
  function Frames(chunks: seq<seq<byte>>): (replies: seq<Reply>)
    ensures |replies| == |chunks|
    ensures forall k :: 0 <= k < |chunks| ==> replies[k] == Bytes(chunks[k])
  {
    seq(|chunks|, k requires 0 <= k < |chunks| => Bytes(chunks[k]))
  }

  /** The file bytes a client reads out of a sequence of replies. */
  function Payload(replies: seq<Reply>): seq<byte> {
    if replies == [] then []
    else (if replies[0].Bytes? then replies[0].data else []) + Payload(replies[1..])
  }

  lemma {:induction false} PayloadOfFrames(chunks: seq<seq<byte>>)
    ensures Payload(Frames(chunks)) == Concat(chunks)
  {
    if chunks != [] {
      PayloadOfFrames(chunks[1..]);
      assert Frames(chunks)[1..] == Frames(chunks[1..]);
    }
  }

  /** What a handler can raise after it has started. */
  datatype Fault =
    /** `File_index.add(file_name, user_name)` passes two arguments to a
        one-argument function: TypeError. */
    | AddArity
    /** `File_index.download` on a file without a row indexes None: TypeError. */
    | NoIndexRow
    /** The request text does not unpack into the handler's fields: ValueError. */
    | FieldCount

  datatype Outcome = Completed | Raised(fault: Fault)

  /** The storage folder, the rows of the file index and the log text. */
  datatype Store = Store(files: map<string, seq<byte>>, rows: seq<Row>, log: string)

  datatype Response = Response(store: Store, replies: seq<Reply>, outcome: Outcome)

  /** The index catalogues exactly the stored files. */
  predicate Indexed(s: Store) {
    Consistent(s.rows, s.files.Keys)
  }

  // ---------------------------------------------------------------------------
  // The handlers, as functions of the state
  // ---------------------------------------------------------------------------

  /** `recieve_file`, with the index call made as `add(file_name)`: a known
      user's upload is stored whole (replacing any file of that name), logged
      and indexed. `incoming` is what the reads after the request return. */
  function Received(users: set<string>, s: Store, name: string, user: string,
                    incoming: seq<seq<byte>>, now: DateTime): (r: Response)
    ensures r.outcome == Completed
    ensures forall f :: f in s.files ==> f in r.store.files
    ensures user in users ==> name in r.store.files && HasName(r.store.rows, name)
  {
    if user !in users then Response(s, [Message(NOT_AUTHENTICATED)], Completed)
    else
      var stored := s.files[name := Collected(incoming)];
      var logged := s.log + EventLine(Upload, 0, name, Strftime(now));
      var rows := s.rows + [NewRow(name, EVERYONE, now)];
      assert rows[|s.rows|].name == name;
      Response(Store(stored, rows, logged), [Message(AUTHENTICATED)], Completed)
  }

  /** `recieve_file` as written: the file is stored and the upload logged,
      then the two-argument call to `add` raises and no row is inserted. */
  function ReceivedAsWritten(users: set<string>, s: Store, name: string, user: string,
                             incoming: seq<seq<byte>>, now: DateTime): (r: Response)
    ensures r.store.rows == s.rows
    ensures user in users ==> name in r.store.files && r.outcome == Raised(AddArity)
  {
    if user !in users then Response(s, [Message(NOT_AUTHENTICATED)], Completed)
    else
      var stored := s.files[name := Collected(incoming)];
      var logged := s.log + EventLine(Upload, 0, name, Strftime(now));
      Response(Store(stored, s.rows, logged), [Message(AUTHENTICATED)], Raised(AddArity))
  }

  /** `serve_file`: a known user's request for a stored file is answered with
      the file's name and size and then its pieces, logged, and counted in
      the index; without an index row the count raises after the rest. */
  function Served(users: set<string>, s: Store, name: string, user: string, now: DateTime): (r: Response)
    ensures r.store.files == s.files
    ensures r.outcome.Raised? <==> user in users && name in s.files && !HasName(s.rows, name)
  {
    if user !in users then Response(s, [Message(NOT_AUTHENTICATED_ERROR)], Completed)
    else if name !in s.files then Response(s, [Message(FILE_NOT_FOUND)], Completed)
    else
      var content := s.files[name];
      var replies := [Message(AUTHENTICATED), Message(name + ";" + NatToString(|content|))] + Frames(Chunked(content));
      var logged := s.log + EventLine(Download, 0, name, Strftime(now));
      if HasName(s.rows, name) then Response(Store(s.files, Bumped(s.rows, name), logged), replies, Completed)
      else Response(Store(s.files, s.rows, logged), replies, Raised(NoIndexRow))
  }

  /** `remove_file`: a known user's stored file is deleted from the folder
      and the index, and the deletion logged. */
  function Removed(users: set<string>, s: Store, name: string, user: string, now: DateTime): (r: Response)
    ensures r.outcome == Completed
    ensures user in users ==> name !in r.store.files
    ensures forall f :: f in r.store.files ==> f in s.files && r.store.files[f] == s.files[f]
  {
    if user !in users then Response(s, [Message(NOT_AUTHENTICATED_ERROR)], Completed)
    else if name !in s.files then Response(s, [Message(FILE_NOT_FOUND)], Completed)
    else
      var logged := s.log + EventLine(Delete, 0, name, Strftime(now));
      Response(Store(s.files - {name}, Without(s.rows, name), logged),
               [Message(AUTHENTICATED), Message("OK;FileDeleted;" + name)], Completed)
  }

  /** `list_files`: a known user gets every row of the index. */
  function Listed(users: set<string>, s: Store, user: string): (r: Response)
    ensures r.store == s && r.outcome == Completed
    ensures Table(s.rows) in r.replies <==> user in users
  {
    if user !in users then Response(s, [Message(NOT_AUTHENTICATED_ERROR)], Completed)
    else Response(s, [Message(AUTHENTICATED), Table(s.rows)], Completed)
  }

  /** `handle_connection`: the request text picks the handler; `incoming` is
      what the reads after the request return. */
  function Handled(users: set<string>, s: Store, text: string, incoming: seq<seq<byte>>, now: DateTime): (r: Response)
    ensures !ParseRequest(text).Dispatched? ==> r.store == s
    ensures r.outcome == Raised(FieldCount) <==> ParseRequest(text) == WrongFieldCount
  {
    match ParseRequest(text)
    case WrongFieldCount => Response(s, [], Raised(FieldCount))
    case Unrecognised => Response(s, [Message(UNKNOWN_REQUEST)], Completed)
    case Dispatched(UploadFile(f, u)) => Received(users, s, f, u, incoming, now)
    case Dispatched(DownloadFile(f, u)) => Served(users, s, f, u, now)
    case Dispatched(RemoveFile(f, u)) => Removed(users, s, f, u, now)
    case Dispatched(ListDir(u)) => Listed(users, s, u)
  }

  // ---------------------------------------------------------------------------
  // Properties of the handlers
  // ---------------------------------------------------------------------------

  /** An unknown user changes nothing and gets one refusal: the upload
      refusal for a transfer to the server, the other refusal otherwise. */
  lemma UnknownUserIsRefused(users: set<string>, s: Store, text: string, incoming: seq<seq<byte>>, now: DateTime)
    requires ParseRequest(text).Dispatched?
    requires var r := ParseRequest(text).request; r.userName !in users
    ensures var r := ParseRequest(text).request;
      Handled(users, s, text, incoming, now)
        == Response(s, [Message(if r.UploadFile? then NOT_AUTHENTICATED else NOT_AUTHENTICATED_ERROR)], Completed)
  {
  }

  /** The log only grows: every request leaves the old log text as a prefix. */
  lemma HandledLogIsAppendOnly(users: set<string>, s: Store, text: string, incoming: seq<seq<byte>>, now: DateTime)
    ensures var log := Handled(users, s, text, incoming, now).store.log;
      |s.log| <= |log| && log[..|s.log|] == s.log
  {
    var log := Handled(users, s, text, incoming, now).store.log;
    if log != s.log {
      assert exists line :: log == s.log + line;
      var line :| log == s.log + line;
      assert log[..|s.log|] == s.log;
    }
  }

  /** An upload stores exactly the bytes read before the first empty read,
      leaves every other file alone, and appends one UPLOAD line and one
      row owned by "everyone". */
  lemma UploadStoresCollected(users: set<string>, s: Store, name: string, user: string,
                              incoming: seq<seq<byte>>, now: DateTime)
    requires user in users
    ensures var r := Received(users, s, name, user, incoming, now);
      && r.replies == [Message(AUTHENTICATED)]
      && r.store.files[name] == Collected(incoming)
      && (forall other :: other != name ==> (other in r.store.files <==> other in s.files))
      && (forall other :: other != name && other in s.files ==> r.store.files[other] == s.files[other])
      && r.store.rows[..|s.rows|] == s.rows
      && r.store.rows[|s.rows|..] == [Row(name, EVERYONE, FormatDate(now), 0)]
      && ParseEventLine(r.store.log[|s.log|..]) == Some(ParsedLine(now, Upload, true, name))
  {
    var r := Received(users, s, name, user, incoming, now);
    assert r.store.log[|s.log|..] == EventLine(Upload, 0, name, Strftime(now));
    SuccessSubjectIsFileName(Upload, name, now);
  }

  /** A known user's download of a stored file sends "OK;Authenticated",
      then the name and the size in bytes, then pieces of at most
      `BUFFER_SIZE` bytes, all full but the last, that add up to the file;
      and it appends one DOWNLOAD line for that file. */
  lemma DownloadSendsWholeFile(users: set<string>, s: Store, name: string, user: string, now: DateTime)
    requires user in users && name in s.files
    ensures var r := Served(users, s, name, user, now);
      && |r.replies| >= 2
      && r.replies[..2] == [Message(AUTHENTICATED), Message(name + ";" + NatToString(|s.files[name]|))]
      && Payload(r.replies[2..]) == s.files[name]
      && (forall k :: 2 <= k < |r.replies| ==> r.replies[k].Bytes? && 0 < |r.replies[k].data| <= BUFFER_SIZE)
      && (forall k :: 2 <= k < |r.replies| - 1 ==> |r.replies[k].data| == BUFFER_SIZE)
      && r.store.files == s.files
      && ParseEventLine(r.store.log[|s.log|..]) == Some(ParsedLine(now, Download, true, name))
  {
    var content := s.files[name];
    var r := Served(users, s, name, user, now);
    assert r.replies[2..] == Frames(Chunked(content));
    PayloadOfFrames(Chunked(content));
    ConcatChunked(content);
    ChunkedSizes(content);
    assert r.store.log[|s.log|..] == EventLine(Download, 0, name, Strftime(now));
    SuccessSubjectIsFileName(Download, name, now);
  }

  /** A file a known user uploads comes back whole on download: the client
      is told its size and then receives exactly the stored bytes, and the
      download completes because the upload indexed the file. */
  lemma UploadThenDownload(users: set<string>, s: Store, name: string, user: string,
                           incoming: seq<seq<byte>>, now: DateTime, later: DateTime)
    requires user in users
    ensures var up := Received(users, s, name, user, incoming, now);
      var down := Served(users, up.store, name, user, later);
      && down.outcome == Completed
      && down.replies[..2] == [Message(AUTHENTICATED), Message(name + ";" + NatToString(|Collected(incoming)|))]
      && Payload(down.replies[2..]) == Collected(incoming)
  {
    var up := Received(users, s, name, user, incoming, now);
    HasNameAppend(s.rows, [NewRow(name, EVERYONE, now)], name);
    assert [NewRow(name, EVERYONE, now)][0].name == name;
    DownloadSendsWholeFile(users, up.store, name, user, later);
  }

  /** A download of an indexed, stored file raises that file's count by
      exactly one and logs one DOWNLOAD line. */
  lemma DownloadCountsOnce(users: set<string>, s: Store, name: string, user: string, now: DateTime)
    requires user in users && name in s.files && HasName(s.rows, name)
    ensures var r := Served(users, s, name, user, now);
      && r.outcome == Completed
      && r.store.files == s.files
      && FirstNamed(r.store.rows, name).value.downloads == FirstNamed(s.rows, name).value.downloads + 1
      && ParseEventLine(r.store.log[|s.log|..]) == Some(ParsedLine(now, Download, true, name))
  {
    BumpedCounter(s.rows, name);
    var r := Served(users, s, name, user, now);
    assert r.store.log[|s.log|..] == EventLine(Download, 0, name, Strftime(now));
    SuccessSubjectIsFileName(Download, name, now);
  }

  /** Downloading or removing a file that is not stored changes nothing and
      answers "ERROR;FileNotFoundError". */
  lemma MissingFileChangesNothing(users: set<string>, s: Store, name: string, user: string, now: DateTime)
    requires user in users && name !in s.files
    ensures Served(users, s, name, user, now) == Response(s, [Message(FILE_NOT_FOUND)], Completed)
    ensures Removed(users, s, name, user, now) == Response(s, [Message(FILE_NOT_FOUND)], Completed)
  {
  }

  /** A known user's removal of a stored file deletes it from the folder
      and every row naming it from the index, keeps every other row, answers
      "OK;Authenticated" and "OK;FileDeleted;" with the name, and appends one
      DELETE line for that file. */
  lemma RemoveDeletesFile(users: set<string>, s: Store, name: string, user: string, now: DateTime)
    requires user in users && name in s.files
    ensures var r := Removed(users, s, name, user, now);
      && r.replies == [Message(AUTHENTICATED), Message("OK;FileDeleted;" + name)]
      && r.store.files.Keys == s.files.Keys - {name}
      && (forall other :: other in r.store.files ==> r.store.files[other] == s.files[other])
      && (forall x :: x in r.store.rows <==> x in s.rows && x.name != name)
      && ParseEventLine(r.store.log[|s.log|..]) == Some(ParsedLine(now, Delete, true, name))
  {
    var r := Removed(users, s, name, user, now);
    DropMembers(s.rows, {name});
    assert r.store.log[|s.log|..] == EventLine(Delete, 0, name, Strftime(now));
    SuccessSubjectIsFileName(Delete, name, now);
  }

  /** After a file is removed it is neither stored nor indexed, and a
      download of it is answered "ERROR;FileNotFoundError". */
  lemma RemoveThenDownload(users: set<string>, s: Store, name: string, user: string, now: DateTime, later: DateTime)
    requires user in users && name in s.files
    ensures var gone := Removed(users, s, name, user, now).store;
      && name !in gone.files
      && !HasName(gone.rows, name)
      && Served(users, gone, name, user, later).replies == [Message(FILE_NOT_FOUND)]
  {
    var gone := Removed(users, s, name, user, now).store;
    DropMembers(s.rows, {name});
    forall k | 0 <= k < |gone.rows| ensures gone.rows[k].name != name {
      assert gone.rows[k] in gone.rows;
    }
  }

  /** An upload keeps the index consistent with the storage folder. */
  lemma ReceivedKeepsIndexed(users: set<string>, s: Store, name: string, user: string,
                             incoming: seq<seq<byte>>, now: DateTime)
    requires Indexed(s)
    ensures Indexed(Received(users, s, name, user, incoming, now).store)
  {
    if user in users {
      var t := Received(users, s, name, user, incoming, now).store;
      forall n | n in t.files.Keys ensures HasName(t.rows, n) {
        HasNameAppend(s.rows, [NewRow(name, EVERYONE, now)], n);
        assert [NewRow(name, EVERYONE, now)][0].name == name;
      }
    }
  }

  /** A download keeps the index consistent with the storage folder. */
  lemma ServedKeepsIndexed(users: set<string>, s: Store, name: string, user: string, now: DateTime)
    requires Indexed(s)
    ensures Indexed(Served(users, s, name, user, now).store)
  {
    if user in users && name in s.files && HasName(s.rows, name) {
      var t := Served(users, s, name, user, now).store;
      forall n | n in t.files.Keys ensures HasName(t.rows, n) {
        var k :| 0 <= k < |s.rows| && s.rows[k].name == n;
        assert t.rows[k].name == n;
      }
    }
  }

  /** A removal keeps the index consistent with the storage folder. */
  lemma RemovedKeepsIndexed(users: set<string>, s: Store, name: string, user: string, now: DateTime)
    requires Indexed(s)
    ensures Indexed(Removed(users, s, name, user, now).store)
  {
    if user in users && name in s.files {
      var t := Removed(users, s, name, user, now).store;
      DropMembers(s.rows, {name});
      forall n | n in t.files.Keys ensures HasName(t.rows, n) {
        var k :| 0 <= k < |s.rows| && s.rows[k].name == n;
        assert s.rows[k] in t.rows;
        var j :| 0 <= j < |t.rows| && t.rows[j] == s.rows[k];
      }
      forall k | 0 <= k < |t.rows| ensures t.rows[k].name in t.files.Keys {
        assert t.rows[k] in t.rows;
        var j :| 0 <= j < |s.rows| && s.rows[j] == t.rows[k];
      }
    }
  }

  /** Every request keeps the index consistent with the storage folder. */
  lemma HandledKeepsIndexed(users: set<string>, s: Store, text: string, incoming: seq<seq<byte>>, now: DateTime)
    requires Indexed(s)
    ensures Indexed(Handled(users, s, text, incoming, now).store)
  {
    match ParseRequest(text)
    case Dispatched(UploadFile(f, u)) => ReceivedKeepsIndexed(users, s, f, u, incoming, now);
    case Dispatched(DownloadFile(f, u)) => ServedKeepsIndexed(users, s, f, u, now);
    case Dispatched(RemoveFile(f, u)) => RemovedKeepsIndexed(users, s, f, u, now);
    case _ =>
  }

  /** As written, an upload of a new file by a known user stores and logs
      it, then raises before indexing it, leaving the index out of step with
      the storage folder. */
  lemma AsWrittenUploadLeavesFileUnindexed(users: set<string>, s: Store, name: string, user: string,
                                           incoming: seq<seq<byte>>, now: DateTime)
    requires user in users && !HasName(s.rows, name)
    ensures var r := ReceivedAsWritten(users, s, name, user, incoming, now);
      && r.outcome == Raised(AddArity)
      && name in r.store.files
      && r.store.files[name] == Collected(incoming)
      && r.store.log == s.log + EventLine(Upload, 0, name, Strftime(now))
      && !HasName(r.store.rows, name)
      && !Indexed(r.store)
  {
  }

  /** Corrected, the same upload indexes the file it stored. */
  lemma UploadIndexesFile(users: set<string>, s: Store, name: string, user: string,
                          incoming: seq<seq<byte>>, now: DateTime)
    requires user in users
    ensures var r := Received(users, s, name, user, incoming, now);
      && r.outcome == Completed
      && name in r.store.files
      && HasName(r.store.rows, name)
  {
    HasNameAppend(s.rows, [NewRow(name, EVERYONE, now)], name);
    assert [NewRow(name, EVERYONE, now)][0].name == name;
  }

  /** A REMOVE request for a file whose name contains "UPLOAD" is routed to
      the upload handler, which replaces the file with the bytes that follow
      instead of deleting it. */
  lemma RemoveOfUploadNamedFileUploads(users: set<string>, s: Store, name: string, user: string,
                                       incoming: seq<seq<byte>>, now: DateTime)
    requires ';' !in name && ';' !in user && Contains(name, "UPLOAD")
    ensures Handled(users, s, Join(["REMOVE", name, user], ';'), incoming, now)
         == Received(users, s, name, user, incoming, now)
  {
    UploadInFileNameWins("REMOVE", name, user);
  }

  // ---------------------------------------------------------------------------
  // The server
  // ---------------------------------------------------------------------------

  /** `Server`: the known users, the storage folder, the file index and the log. */
  class Server {
    const users: set<string>
    var files: map<string, seq<byte>>
    const index: FileIndex
    const log: Log

    constructor (users: set<string>, files: map<string, seq<byte>>, index: FileIndex, log: Log)
      ensures this.users == users && this.files == files && this.index == index && this.log == log
    {
      this.users := users;
      this.files := files;
      this.index := index;
      this.log := log;
    }

    function Snapshot(): Store
      reads this, index, log
    {
      Store(files, index.rows, log.content)
    }

    /** `recieve_file`, with the index call made as `add(file_name)`. */
    method ReceiveFile(name: string, user: string, incoming: seq<seq<byte>>, now: DateTime)
      returns (replies: seq<Reply>, outcome: Outcome)
      requires index.hasTable
      modifies this, index, log
      ensures index.hasTable
      ensures Response(Snapshot(), replies, outcome) == Received(users, old(Snapshot()), name, user, incoming, now)
    {
      if user !in users {
        return [Message(NOT_AUTHENTICATED)], Completed;
      }
      replies := [Message(AUTHENTICATED)];
      files := files[name := []];
      ghost var others := files;
      var k := 0;
      while true
        invariant 0 <= k <= |incoming|
        invariant name in files
        invariant files == others[name := files[name]]
        invariant files[name] + Collected(incoming[k..]) == Collected(incoming)
        modifies this
        decreases |incoming| - k
      {
        // `reader.read(BUFFER_SIZE)`; a closed connection reads as empty.
        var chunk := if k < |incoming| then incoming[k] else [];
        if chunk == [] {
          break;
        }
        CollectedStep(incoming, k);
        AppendAssoc(files[name], chunk, Collected(incoming[k + 1..]));
        files := files[name := files[name] + chunk];
        k := k + 1;
      }
      if k < |incoming| {
        assert Collected(incoming[k..]) == [];
      } else {
        assert incoming[k..] == [];
      }
      assert files[name] == Collected(incoming);
      assert others == old(files)[name := []];
      assert files == old(files)[name := Collected(incoming)];
      log.Event(Upload, 0, [name, user], now);
      index.Add(name, now);
      outcome := Completed;
    }

    /** `serve_file`. */
    method ServeFile(name: string, user: string, now: DateTime) returns (replies: seq<Reply>, outcome: Outcome)
      requires index.hasTable
      modifies index, log
      ensures index.hasTable
      ensures Response(Snapshot(), replies, outcome) == Served(users, old(Snapshot()), name, user, now)
    {
      if user !in users {
        return [Message(NOT_AUTHENTICATED_ERROR)], Completed;
      }
      if name !in files {
        return [Message(FILE_NOT_FOUND)], Completed;
      }
      var content := files[name];
      replies := [Message(AUTHENTICATED), Message(name + ";" + NatToString(|content|))];
      var pieces := SendPieces(content);
      replies := replies + Frames(pieces);
      log.Event(Download, 0, [name, user], now);
      var found := index.Download(name);
      outcome := if found then Completed else Raised(NoIndexRow);
    }

    /** `remove_file`. */
    method RemoveFile(name: string, user: string, now: DateTime) returns (replies: seq<Reply>, outcome: Outcome)
      requires index.hasTable
      modifies this, index, log
      ensures index.hasTable
      ensures Response(Snapshot(), replies, outcome) == Removed(users, old(Snapshot()), name, user, now)
    {
      outcome := Completed;
      if user !in users {
        return [Message(NOT_AUTHENTICATED_ERROR)], outcome;
      }
      if name !in files {
        return [Message(FILE_NOT_FOUND)], outcome;
      }
      replies := [Message(AUTHENTICATED)];
      files := files - {name};
      log.Event(Delete, 0, [name, user], now);
      index.Delete(name);
      replies := replies + [Message("OK;FileDeleted;" + name)];
    }

    /** `list_files`. */
    method ListFiles(user: string) returns (replies: seq<Reply>, outcome: Outcome)
      requires index.hasTable
      ensures Response(Snapshot(), replies, outcome) == Listed(users, Snapshot(), user)
    {
      outcome := Completed;
      if user !in users {
        return [Message(NOT_AUTHENTICATED_ERROR)], outcome;
      }
      replies := [Message(AUTHENTICATED)];
      var all := index.ReturnAll();
      replies := replies + [Table(all)];
    }

    /** `handle_connection`: `text` is the request read first, `incoming`
        what the following reads return. */
    method HandleConnection(text: string, incoming: seq<seq<byte>>, now: DateTime)
      returns (replies: seq<Reply>, outcome: Outcome)
      requires index.hasTable
      modifies this, index, log
      ensures index.hasTable
      ensures Response(Snapshot(), replies, outcome) == Handled(users, old(Snapshot()), text, incoming, now)
    {
      match ParseRequest(text)
      case WrongFieldCount =>
        replies, outcome := [], Raised(FieldCount);
      case Unrecognised =>
        replies, outcome := [Message(UNKNOWN_REQUEST)], Completed;
      case Dispatched(UploadFile(f, u)) =>
        replies, outcome := ReceiveFile(f, u, incoming, now);
      case Dispatched(DownloadFile(f, u)) =>
        replies, outcome := ServeFile(f, u, now);
      case Dispatched(RemoveFile(f, u)) =>
        replies, outcome := RemoveFile(f, u, now);
      case Dispatched(ListDir(u)) =>
        replies, outcome := ListFiles(u);
    }
  }
}
