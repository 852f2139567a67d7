/** The file index (src/server/db.py, class `File_index`): one table
    `file_index (name, owner, uploaded, downloads)` that catalogues the files
    kept in the storage folder. The SQLite table is a sequence of rows in
    table order; a statement that touches every row with a given name is a
    function over that sequence. */
module Db {
  import opened Text
  import opened Clock
  import opened Loglib

  /** Owner recorded by `add`. */
  const EVERYONE := "everyone"
  /** Owner recorded, and user logged, by `refresh` for a file found on disk. */
  const LOCAL_ADMIN := "Local_Admin"

  /** One row of `file_index`. */
  datatype Row = Row(name: string, owner: string, uploaded: string, downloads: int)

  /** The row `add` and `refresh` insert: uploaded today, never downloaded. */
  function NewRow(name: string, owner: string, now: DateTime): Row {
    Row(name, owner, FormatDate(now), 0)
  }

  predicate HasName(rows: seq<Row>, name: string) {
    exists k :: 0 <= k < |rows| && rows[k].name == name
  }

  // ---------------------------------------------------------------------------
  // Queries and updates by name
  // ---------------------------------------------------------------------------

  /** The offset of the first row at or after `i` with that name, or -1. */
  function FirstIndexFrom(rows: seq<Row>, name: string, i: nat): (k: int)
    requires i <= |rows|
    ensures k == -1 || (i <= k < |rows| && rows[k].name == name)
    ensures forall j :: i <= j < |rows| && (k == -1 || j < k) ==> rows[j].name != name
    decreases |rows| - i
  {
    if i == |rows| then -1
    else if rows[i].name == name then i
    else FirstIndexFrom(rows, name, i + 1)
  }

  /** `SELECT * FROM file_index WHERE name=:name` followed by `fetchone()`:
      the first row, in table order, with that name. */
  function FirstNamed(rows: seq<Row>, name: string): (r: Option<Row>)
    ensures r.None? <==> !HasName(rows, name)
    ensures r.Some? ==> exists k :: 0 <= k < |rows| && rows[k] == r.value && r.value.name == name
                                    && forall j :: 0 <= j < k ==> rows[j].name != name
  {
    var k := FirstIndexFrom(rows, name, 0);
    if k == -1 then None else Some(rows[k])
  }

  /** `UPDATE file_index SET downloads=? WHERE name=?`: every row with that
      name gets `count`; every other row, and every other column, is kept. */
  function SetDownloads(rows: seq<Row>, name: string, count: int): (r: seq<Row>)
    ensures |r| == |rows|
    ensures forall k :: 0 <= k < |rows| && rows[k].name == name ==> r[k] == rows[k].(downloads := count)
    ensures forall k :: 0 <= k < |rows| && rows[k].name != name ==> r[k] == rows[k]
  {
    if rows == [] then []
    else
      var last := rows[|rows| - 1];
      SetDownloads(rows[..|rows| - 1], name, count) + [if last.name == name then last.(downloads := count) else last]
  }

  /** What `download` leaves: the first matching row's count plus one,
      written into every row with that name. */
  function Bumped(rows: seq<Row>, name: string): (r: seq<Row>)
    requires HasName(rows, name)
    ensures |r| == |rows|
    ensures forall k :: 0 <= k < |rows| ==> r[k].name == rows[k].name && (rows[k].name != name ==> r[k] == rows[k])
  {
    SetDownloads(rows, name, FirstNamed(rows, name).value.downloads + 1)
  }

  /** After `download`, the count `get_record` reports has risen by exactly
      one, and the table is otherwise the same. */
  lemma BumpedCounter(rows: seq<Row>, name: string)
    requires HasName(rows, name)
    ensures HasName(Bumped(rows, name), name)
    ensures FirstNamed(Bumped(rows, name), name).value.downloads == FirstNamed(rows, name).value.downloads + 1
    ensures FirstNamed(Bumped(rows, name), name).value == FirstNamed(rows, name).value.(downloads := FirstNamed(rows, name).value.downloads + 1)
    ensures |Bumped(rows, name)| == |rows|
    ensures forall k :: 0 <= k < |rows| && rows[k].name != name ==> Bumped(rows, name)[k] == rows[k]
  {
    var old1 := FirstNamed(rows, name).value;
    var r := Bumped(rows, name);
    var k :| 0 <= k < |rows| && rows[k] == old1 && old1.name == name
             && forall j :: 0 <= j < k ==> rows[j].name != name;
    assert r[k].name == name;
    var new1 := FirstNamed(r, name).value;
    var k' :| 0 <= k' < |r| && r[k'] == new1 && new1.name == name
              && forall j :: 0 <= j < k' ==> r[j].name != name;
    assert rows[k'].name == name;
    assert k <= k';
    assert k' <= k;
  }

  /** `DELETE FROM file_index WHERE name=:name`, for each name of `names`:
      the rows whose name is not in `names`, in table order. */
  function Drop(rows: seq<Row>, names: set<string>): (r: seq<Row>)
    ensures |r| <= |rows|
  {
    if rows == [] then []
    else
      var init, last := rows[..|rows| - 1], rows[|rows| - 1];
      assert rows == init + [last];
      Drop(init, names) + (if last.name in names then [] else [last])
  }

  /** Deleting by name removes every copy of a row with one of the names and
      no copy of any other row. */
  lemma {:induction false} DropCounts(rows: seq<Row>, names: set<string>)
    ensures forall x :: multiset(Drop(rows, names))[x] == if x.name in names then 0 else multiset(rows)[x]
  {
    if rows != [] {
      var init, last := rows[..|rows| - 1], rows[|rows| - 1];
      DropCounts(init, names);
      assert rows == init + [last];
    }
  }

  /** The rows left are those of `rows` whose name is not in `names`. */
  lemma DropMembers(rows: seq<Row>, names: set<string>)
    ensures forall x :: x in Drop(rows, names) <==> x in rows && x.name !in names
  {
    DropCounts(rows, names);
  }

  /** `delete`: removes every row with that name and no other row. */
  function Without(rows: seq<Row>, name: string): seq<Row> {
    Drop(rows, {name})
  }

  lemma {:induction false} DropAppend(a: seq<Row>, b: seq<Row>, names: set<string>)
    ensures Drop(a + b, names) == Drop(a, names) + Drop(b, names)
    decreases |b|
  {
    if b == [] {
      assert a + b == a;
    } else {
      var init := b[..|b| - 1];
      assert (a + b)[..|a + b| - 1] == a + init;
      assert (a + b)[|a + b| - 1] == b[|b| - 1];
      DropAppend(a, init, names);
    }
  }

  lemma {:induction false} DropNothing(rows: seq<Row>, names: set<string>)
    requires forall k :: 0 <= k < |rows| ==> rows[k].name !in names
    ensures Drop(rows, names) == rows
  {
    if rows != [] {
      DropNothing(rows[..|rows| - 1], names);
    }
  }

  /** Deleting by the names of `a` and then by those of `b` is deleting by both. */
  lemma {:induction false} DropDrop(rows: seq<Row>, a: set<string>, b: set<string>)
    ensures Drop(Drop(rows, a), b) == Drop(rows, a + b)
  {
    if rows != [] {
      var init, last := rows[..|rows| - 1], rows[|rows| - 1];
      DropDrop(init, a, b);
      var kept := if last.name in a then [] else [last];
      DropAppend(Drop(init, a), kept, b);
      if last.name !in a {
        assert Drop(kept, b) == Drop([], b) + (if last.name in b then [] else [last]);
      }
    }
  }

  // ---------------------------------------------------------------------------
  // The refresh, as a function of the table and the directory listing
  // ---------------------------------------------------------------------------

  /** The files of `listing`, in listing order, that pass 1 of `refresh`
      finds without a row: not in `rows` and not already inserted. */
  function Unindexed(rows: seq<Row>, listing: seq<string>): (added: seq<string>)
    ensures forall f :: f in added <==> f in listing && !HasName(rows, f)
    ensures forall a, b :: 0 <= a < b < |added| ==> added[a] != added[b]
  {
    if listing == [] then []
    else
      var before := Unindexed(rows, listing[..|listing| - 1]);
      var f := listing[|listing| - 1];
      assert listing == listing[..|listing| - 1] + [f];
      if HasName(rows, f) || f in before then before else before + [f]
  }

  /** The rows pass 1 inserts, one per unindexed file, owned by "Local_Admin". */
  function NewRows(names: seq<string>, now: DateTime): (r: seq<Row>)
    ensures |r| == |names|
    ensures forall k :: 0 <= k < |names| ==> r[k] == NewRow(names[k], LOCAL_ADMIN, now)
  {
    seq(|names|, k requires 0 <= k < |names| => NewRow(names[k], LOCAL_ADMIN, now))
  }

  /** One UPLOAD event per inserted row. */
  function UploadEntries(names: seq<string>): (r: seq<Entry>)
    ensures |r| == |names|
    ensures forall k :: 0 <= k < |names| ==> r[k] == Entry(Upload, 0, names[k])
  {
    seq(|names|, k requires 0 <= k < |names| => Entry(Upload, 0, names[k]))
  }

  /** The names of the rows of `rows` whose file is missing from `listing`. */
  function Gone(rows: seq<Row>, listing: seq<string>): set<string> {
    if rows == [] then {}
    else
      var last := rows[|rows| - 1];
      Gone(rows[..|rows| - 1], listing) + (if last.name in listing then {} else {last.name})
  }

  lemma {:induction false} GoneMembers(rows: seq<Row>, listing: seq<string>)
    ensures forall n :: n in Gone(rows, listing) <==> n !in listing && HasName(rows, n)
  {
    if rows != [] {
      var init, last := rows[..|rows| - 1], rows[|rows| - 1];
      GoneMembers(init, listing);
      assert rows == init + [last];
      forall n ensures HasName(rows, n) <==> HasName(init, n) || last.name == n {
        HasNameAppend(init, [last], n);
      }
    }
  }

  /** One DELETE event per row, in table order, whose file is missing. */
  function DeleteEntries(rows: seq<Row>, listing: seq<string>): (r: seq<Entry>)
    ensures forall k :: 0 <= k < |r| ==> r[k].kind == Delete && r[k].status == 0 && r[k].fileName !in listing
  {
    if rows == [] then []
    else
      var last := rows[|rows| - 1];
      DeleteEntries(rows[..|rows| - 1], listing) + (if last.name in listing then [] else [Entry(Delete, 0, last.name)])
  }

  /** The file names of `rows`, in table order. */
  function RowNames(rows: seq<Row>): (names: seq<string>)
    ensures |names| == |rows|
    ensures forall k :: 0 <= k < |rows| ==> names[k] == rows[k].name
  {
    seq(|rows|, k requires 0 <= k < |rows| => rows[k].name)
  }

  /** The file names the events of `entries` carry, in log order. */
  function EntryNames(entries: seq<Entry>): (names: seq<string>)
    ensures |names| == |entries|
    ensures forall k :: 0 <= k < |entries| ==> names[k] == entries[k].fileName
  {
    seq(|entries|, k requires 0 <= k < |entries| => entries[k].fileName)
  }

  /** Pass 2 logs one DELETE naming each row whose file is missing: a name
      outside the listing is logged as often as rows carry it, a listed
      name never. */
  lemma DeleteEntriesNames(rows: seq<Row>, listing: seq<string>)
    ensures forall n :: multiset(EntryNames(DeleteEntries(rows, listing)))[n]
                     == if n in listing then 0 else multiset(RowNames(rows))[n]
  {
    forall n {
      DeleteEntriesNameCount(rows, listing, n);
    }
  }

  lemma {:induction false} DeleteEntriesNameCount(rows: seq<Row>, listing: seq<string>, n: string)
    ensures multiset(EntryNames(DeleteEntries(rows, listing)))[n]
         == if n in listing then 0 else multiset(RowNames(rows))[n]
  {
    if rows != [] {
      var init, last := rows[..|rows| - 1], rows[|rows| - 1];
      DeleteEntriesNameCount(init, listing, n);
      DeleteEntriesNamesStep(rows, listing);
    }
  }

  /** The last row adds its name to the row names, and to the logged names
      exactly when its file is missing. */
  lemma DeleteEntriesNamesStep(rows: seq<Row>, listing: seq<string>)
    requires rows != []
    ensures var init, last := rows[..|rows| - 1], rows[|rows| - 1];
      && RowNames(rows) == RowNames(init) + [last.name]
      && EntryNames(DeleteEntries(rows, listing))
         == EntryNames(DeleteEntries(init, listing)) + (if last.name in listing then [] else [last.name])
  {
    var init, last := rows[..|rows| - 1], rows[|rows| - 1];
    var extra := if last.name in listing then [] else [Entry(Delete, 0, last.name)];
    assert DeleteEntries(rows, listing) == DeleteEntries(init, listing) + extra;
    assert EntryNames(extra) == (if last.name in listing then [] else [last.name]);
  }

  /** The DELETE events name exactly the indexed files missing from the listing. */
  lemma DeleteEntriesNameGoneFiles(rows: seq<Row>, listing: seq<string>)
    ensures forall n :: n in EntryNames(DeleteEntries(rows, listing)) <==> n !in listing && HasName(rows, n)
  {
    DeleteEntriesNames(rows, listing);
    forall n ensures n in RowNames(rows) <==> HasName(rows, n) {
      if HasName(rows, n) {
        var k :| 0 <= k < |rows| && rows[k].name == n;
        assert RowNames(rows)[k] == n;
      }
    }
  }

  datatype Reconciliation = Reconciliation(rows: seq<Row>, events: seq<Entry>)

  /** `refresh`: pass 1 inserts a row for every unindexed file of the listing;
      pass 2 deletes, by name, every row of the resulting table whose file
      is missing. The events are the UPLOADs of pass 1, then the DELETEs of
      pass 2. */
  function Refreshed(rows: seq<Row>, listing: seq<string>, now: DateTime): (r: Reconciliation)
    ensures forall k :: 0 <= k < |r.events| ==> r.events[k].status == 0
  {
    var added := Unindexed(rows, listing);
    var all := rows + NewRows(added, now);
    Reconciliation(Drop(all, Gone(all, listing)), UploadEntries(added) + DeleteEntries(all, listing))
  }

  /** The index agrees with the storage folder: every file has a row and
      every row names a file. */
  predicate Consistent(rows: seq<Row>, stored: set<string>) {
    && (forall f :: f in stored ==> HasName(rows, f))
    && (forall k :: 0 <= k < |rows| ==> rows[k].name in stored)
  }

  /** The names a directory listing holds. */
  function Names(listing: seq<string>): set<string> {
    set f | f in listing
  }

  lemma HasNameAppend(a: seq<Row>, b: seq<Row>, name: string)
    ensures HasName(a + b, name) <==> HasName(a, name) || HasName(b, name)
  {
    if HasName(a + b, name) {
      var k :| 0 <= k < |a + b| && (a + b)[k].name == name;
      if k >= |a| { assert b[k - |a|].name == name; }
    }
    if HasName(a, name) {
      var k :| 0 <= k < |a| && a[k].name == name;
      assert (a + b)[k].name == name;
    }
    if HasName(b, name) {
      var k :| 0 <= k < |b| && b[k].name == name;
      assert (a + b)[|a| + k].name == name;
    }
  }

  lemma HasNameNewRows(names: seq<string>, now: DateTime, name: string)
    ensures HasName(NewRows(names, now), name) <==> name in names
  {
    if name in names {
      var k :| 0 <= k < |names| && names[k] == name;
      assert NewRows(names, now)[k].name == name;
    }
  }

  lemma {:induction false} DeleteEntriesAppendListed(a: seq<Row>, b: seq<Row>, listing: seq<string>)
    requires forall k :: 0 <= k < |b| ==> b[k].name in listing
    ensures DeleteEntries(a + b, listing) == DeleteEntries(a, listing)
    decreases |b|
  {
    if b == [] {
      assert a + b == a;
    } else {
      var init := b[..|b| - 1];
      assert (a + b)[..|a + b| - 1] == a + init;
      assert (a + b)[|a + b| - 1] == b[|b| - 1];
      DeleteEntriesAppendListed(a, init, listing);
    }
  }

  /** One DELETE event for each row the refresh removes. */
  lemma {:induction false} DeleteEntriesCount(rows: seq<Row>, listing: seq<string>, names: set<string>)
    requires forall k :: 0 <= k < |rows| ==> (rows[k].name in names <==> rows[k].name !in listing)
    ensures |DeleteEntries(rows, listing)| == |rows| - |Drop(rows, names)|
  {
    if rows != [] {
      DeleteEntriesCount(rows[..|rows| - 1], listing, names);
    }
  }

  /** After `refresh`, every file in the storage folder has a row. */
  lemma RefreshIndexesEveryFile(rows: seq<Row>, listing: seq<string>, now: DateTime)
    ensures forall f :: f in listing ==> HasName(Refreshed(rows, listing, now).rows, f)
  {
    var added := Unindexed(rows, listing);
    var all := rows + NewRows(added, now);
    var gone := Gone(all, listing);
    var r := Drop(all, gone);
    GoneMembers(all, listing);
    DropMembers(all, gone);
    forall f | f in listing
      ensures HasName(r, f)
    {
      HasNameAppend(rows, NewRows(added, now), f);
      HasNameNewRows(added, now, f);
      var k :| 0 <= k < |all| && all[k].name == f;
      assert all[k] in all;
      assert all[k] in r;
      var j :| 0 <= j < |r| && r[j] == all[k];
    }
  }

  /** After `refresh`, no row names a file missing from the storage folder. */
  lemma RefreshKeepsOnlyListed(rows: seq<Row>, listing: seq<string>, now: DateTime)
    ensures forall k :: 0 <= k < |Refreshed(rows, listing, now).rows| ==> Refreshed(rows, listing, now).rows[k].name in listing
  {
    var added := Unindexed(rows, listing);
    var all := rows + NewRows(added, now);
    var r := Drop(all, Gone(all, listing));
    GoneMembers(all, listing);
    DropMembers(all, Gone(all, listing));
    forall k | 0 <= k < |r|
      ensures r[k].name in listing
    {
      assert r[k] in r;
      var j :| 0 <= j < |all| && all[j] == r[k];
    }
  }

  /** The table after `refresh` is the old table without its rows for
      missing files, followed by one new row per unindexed file of the
      listing: owned by "Local_Admin", dated today, never downloaded. */
  lemma RefreshShape(rows: seq<Row>, listing: seq<string>, now: DateTime)
    ensures var added := Unindexed(rows, listing);
      && Refreshed(rows, listing, now).rows == Drop(rows, Gone(rows, listing)) + NewRows(added, now)
      && (forall f :: f in added <==> f in listing && !HasName(rows, f))
  {
    var added := Unindexed(rows, listing);
    var inserted := NewRows(added, now);
    var all := rows + inserted;
    var gone := Gone(all, listing);
    GoneMembers(all, listing);
    GoneMembers(rows, listing);
    DropAppend(rows, inserted, gone);
    forall k | 0 <= k < |inserted| ensures inserted[k].name !in gone {
      assert added[k] in added;
    }
    DropNothing(inserted, gone);
    forall n ensures n in gone <==> n in Gone(rows, listing) {
      HasNameAppend(rows, inserted, n);
      HasNameNewRows(added, now, n);
    }
    assert gone == Gone(rows, listing);
  }

  /** `refresh` logs exactly one UPLOAD per inserted row, then exactly one
      DELETE per removed row. */
  lemma RefreshEvents(rows: seq<Row>, listing: seq<string>, now: DateTime)
    ensures var added := Unindexed(rows, listing);
      var events := Refreshed(rows, listing, now).events;
      && events == UploadEntries(added) + DeleteEntries(rows, listing)
      && |DeleteEntries(rows, listing)| == |rows| - |Drop(rows, Gone(rows, listing))|
      && (forall n :: multiset(EntryNames(DeleteEntries(rows, listing)))[n]
                   == if n in listing then 0 else multiset(RowNames(rows))[n])
  {
    var added := Unindexed(rows, listing);
    var inserted := NewRows(added, now);
    forall k | 0 <= k < |inserted| ensures inserted[k].name in listing {
      assert added[k] in added;
    }
    DeleteEntriesAppendListed(rows, inserted, listing);
    GoneMembers(rows, listing);
    DeleteEntriesCount(rows, listing, Gone(rows, listing));
    DeleteEntriesNames(rows, listing);
  }

  lemma {:induction false} DeleteEntriesNone(rows: seq<Row>, listing: seq<string>)
    requires forall k :: 0 <= k < |rows| ==> rows[k].name in listing
    ensures DeleteEntries(rows, listing) == []
  {
    if rows != [] {
      DeleteEntriesNone(rows[..|rows| - 1], listing);
    }
  }

  lemma {:induction false} UnindexedNone(rows: seq<Row>, listing: seq<string>)
    requires forall f :: f in listing ==> HasName(rows, f)
    ensures Unindexed(rows, listing) == []
  {
    if listing != [] {
      var init := listing[..|listing| - 1];
      assert forall f :: f in init ==> f in listing;
      UnindexedNone(rows, init);
      assert listing[|listing| - 1] in listing;
    }
  }

  /** On a consistent index `refresh` inserts nothing, deletes nothing and
      logs nothing. */
  lemma RefreshConsistentIsNoOp(rows: seq<Row>, listing: seq<string>, now: DateTime)
    requires Consistent(rows, Names(listing))
    ensures Refreshed(rows, listing, now) == Reconciliation(rows, [])
  {
    var added := Unindexed(rows, listing);
    UnindexedNone(rows, listing);
    var all := rows + NewRows(added, now);
    assert all == rows;
    GoneMembers(all, listing);
    assert Gone(all, listing) == {};
    DropNothing(rows, {});
    DeleteEntriesNone(rows, listing);
  }

  /** `refresh` leaves the index consistent with the storage folder. */
  lemma RefreshMakesConsistent(rows: seq<Row>, listing: seq<string>, now: DateTime)
    ensures Consistent(Refreshed(rows, listing, now).rows, Names(listing))
  {
    RefreshIndexesEveryFile(rows, listing, now);
    RefreshKeepsOnlyListed(rows, listing, now);
  }

  /** `refresh` is idempotent: a second call with the same directory listing,
      at any time, inserts nothing, deletes nothing and logs nothing. */
  lemma RefreshIdempotent(rows: seq<Row>, listing: seq<string>, now: DateTime, later: DateTime)
    ensures var once := Refreshed(rows, listing, now).rows;
      Refreshed(once, listing, later) == Reconciliation(once, [])
  {
    RefreshMakesConsistent(rows, listing, now);
    RefreshConsistentIsNoOp(Refreshed(rows, listing, now).rows, listing, later);
  }

  /** One step of pass 1: the file at offset `i` is inserted exactly when
      the table as it stands has no row with its name. */
  lemma UnindexedStep(start: seq<Row>, listing: seq<string>, i: int, now: DateTime)
    requires 0 <= i < |listing|
    ensures var before := Unindexed(start, listing[..i]);
      HasName(start + NewRows(before, now), listing[i]) ==> Unindexed(start, listing[..i + 1]) == before
    ensures var before := Unindexed(start, listing[..i]);
      !HasName(start + NewRows(before, now), listing[i]) ==> Unindexed(start, listing[..i + 1]) == before + [listing[i]]
  {
    var before := Unindexed(start, listing[..i]);
    assert listing[..i + 1][..i] == listing[..i];
    HasNameAppend(start, NewRows(before, now), listing[i]);
    HasNameNewRows(before, now, listing[i]);
  }

  lemma InsertStep(before: seq<string>, file: string, now: DateTime, prefix: string, stamp: string)
    ensures NewRows(before + [file], now) == NewRows(before, now) + [NewRow(file, LOCAL_ADMIN, now)]
    ensures prefix + Render(UploadEntries(before + [file]), stamp)
         == (prefix + Render(UploadEntries(before), stamp)) + EntryLine(Entry(Upload, 0, file), stamp)
  {
    assert UploadEntries(before + [file])[..|before|] == UploadEntries(before);
    AppendAssoc(prefix, Render(UploadEntries(before), stamp), EntryLine(Entry(Upload, 0, file), stamp));
  }

  /** One step of pass 2: the row at offset `j` adds its name to the deleted
      names, and a DELETE event, exactly when its file is missing. */
  lemma GoneStep(all: seq<Row>, listing: seq<string>, j: int)
    requires 0 <= j < |all|
    ensures all[j].name in listing ==> Gone(all[..j + 1], listing) == Gone(all[..j], listing)
    ensures all[j].name !in listing ==> Gone(all[..j + 1], listing) == Gone(all[..j], listing) + {all[j].name}
  {
    assert all[..j + 1][..j] == all[..j];
    assert all[..j + 1][j] == all[j];
    var g := Gone(all[..j], listing);
    assert g + {} == g;
  }

  /** One step of pass 2 on the rows: dropping by the names seen so far,
      then by the next name when its file is missing. */
  lemma DropMissingStep(all: seq<Row>, listing: seq<string>, j: int)
    requires 0 <= j < |all|
    ensures all[j].name in listing ==> Drop(all, Gone(all[..j + 1], listing)) == Drop(all, Gone(all[..j], listing))
    ensures all[j].name !in listing ==>
      Drop(all, Gone(all[..j + 1], listing)) == Drop(Drop(all, Gone(all[..j], listing)), {all[j].name})
  {
    GoneStep(all, listing, j);
    DropDrop(all, Gone(all[..j], listing), {all[j].name});
  }

  lemma DeleteStep(all: seq<Row>, listing: seq<string>, j: int, prefix: string, stamp: string)
    requires 0 <= j < |all|
    ensures all[j].name in listing ==> DeleteEntries(all[..j + 1], listing) == DeleteEntries(all[..j], listing)
    ensures all[j].name !in listing ==>
      prefix + Render(DeleteEntries(all[..j + 1], listing), stamp)
        == (prefix + Render(DeleteEntries(all[..j], listing), stamp)) + EntryLine(Entry(Delete, 0, all[j].name), stamp)
  {
    assert all[..j + 1][..j] == all[..j];
    assert all[..j + 1][j] == all[j];
    var es := DeleteEntries(all[..j], listing);
    if all[j].name in listing {
      assert es + [] == es;
    } else {
      var e := Entry(Delete, 0, all[j].name);
      assert DeleteEntries(all[..j + 1], listing) == es + [e];
      assert (es + [e])[..|es|] == es;
      AppendAssoc(prefix, Render(es, stamp), EntryLine(e, stamp));
    }
  }

  // ---------------------------------------------------------------------------
  // The table
  // ---------------------------------------------------------------------------

  /** `File_index`: the database file "files.db", which may or may not hold
      the table yet. */
  class FileIndex {
    var hasTable: bool
    var rows: seq<Row>

    /** The database as found on disk: `None` when it has no `file_index` table. */
    constructor (table: Option<seq<Row>>)
      ensures hasTable == table.Some?
      ensures rows == if table.Some? then table.value else []
    {
      hasTable := table.Some?;
      rows := if table.Some? then table.value else [];
    }

    /** `table_exists`: looks `file_index` up in `sqlite_master`. */
    method TableExists() returns (b: bool)
      ensures b <==> hasTable
    {
      b := hasTable;
    }

    /** `init`: creates an empty table when there is none, then refreshes it
        against the storage folder. */
    method Init(log: Log, listing: seq<string>, now: DateTime)
      modifies this, log
      ensures hasTable
      ensures rows == Refreshed(if old(hasTable) then old(rows) else [], listing, now).rows
      ensures log.content == old(log.content) + Render(Refreshed(if old(hasTable) then old(rows) else [], listing, now).events, Strftime(now))
    {
      var exists_ := TableExists();
      if !exists_ {
        hasTable := true;
        rows := [];
      }
      Refresh(log, listing, now);
    }

    /** `add`: inserts one row owned by "everyone", dated today, with no downloads. */
    method Add(name: string, now: DateTime)
      requires hasTable
      modifies this
      ensures hasTable
      ensures rows == old(rows) + [NewRow(name, EVERYONE, now)]
    {
      rows := rows + [NewRow(name, EVERYONE, now)];
    }

    /** `download`: reads the first matching row's count and writes that count
        plus one into every row with the name. With no such row `fetchone()`
        returns None and indexing it raises: `found` is false and nothing changes. */
    method Download(name: string) returns (found: bool)
      requires hasTable
      modifies this
      ensures hasTable
      ensures found <==> HasName(old(rows), name)
      ensures found ==> rows == Bumped(old(rows), name)
      ensures !found ==> rows == old(rows)
    {
      var record := GetRecord(name);
      if record.None? {
        return false;
      }
      rows := SetDownloads(rows, name, record.value.downloads + 1);
      found := true;
    }

    /** `delete`: removes every row with that name. */
    method Delete(name: string)
      requires hasTable
      modifies this
      ensures hasTable
      ensures rows == Without(old(rows), name)
    {
      rows := Drop(rows, {name});
    }

    /** `return_all`: every row in table order; an empty list when the query
        fails because there is no table. */
    method ReturnAll() returns (all: seq<Row>)
      ensures all == if hasTable then rows else []
    {
      all := [];
      if !hasTable {
        return;
      }
      var i := 0;
      while i < |rows|
        invariant 0 <= i <= |rows|
        invariant all == rows[..i]
      {
        all := all + [rows[i]];
        i := i + 1;
      }
    }

    /** `get_record`: the first row with that name, or None. */
    function GetRecord(name: string): (record: Option<Row>)
      requires hasTable
      reads this
      ensures record.None? <==> !HasName(rows, name)
      ensures record.Some? ==> record.value in rows && record.value.name == name
      ensures record == FirstNamed(rows, name)
    {
      FirstNamed(rows, name)
    }

    /** `refresh`: pass 1 indexes the files found without a row, pass 2
        drops the rows whose file is missing; the connection commits once at
        the end. */
    method Refresh(log: Log, listing: seq<string>, now: DateTime)
      requires hasTable
      modifies this, log
      ensures hasTable
      ensures rows == Refreshed(old(rows), listing, now).rows
      ensures log.content == old(log.content) + Render(Refreshed(old(rows), listing, now).events, Strftime(now))
    {
      ghost var start, logStart := rows, log.content;
      ghost var uploads := UploadEntries(Unindexed(start, listing));
      IndexNewFiles(log, listing, now);
      var all := ReturnAll();
      DropMissingFiles(log, all, listing, now);
      ghost var deletes := DeleteEntries(all, listing);
      RenderConcat(uploads, deletes, Strftime(now));
      AppendAssoc(logStart, Render(uploads, Strftime(now)), Render(deletes, Strftime(now)));
    }

    /** Pass 1 of `refresh`: walks the listing and inserts a "Local_Admin"
        row, logging an UPLOAD, for each file the table has no row for. */
    method IndexNewFiles(log: Log, listing: seq<string>, now: DateTime)
      requires hasTable
      modifies this, log
      ensures hasTable
      ensures rows == old(rows) + NewRows(Unindexed(old(rows), listing), now)
      ensures log.content == old(log.content) + Render(UploadEntries(Unindexed(old(rows), listing)), Strftime(now))
    {
      ghost var start, logStart := rows, log.content;
      assert listing[..0] == [];
      var i := 0;
      while i < |listing|
        invariant 0 <= i <= |listing|
        invariant hasTable
        invariant rows == start + NewRows(Unindexed(start, listing[..i]), now)
        invariant log.content == logStart + Render(UploadEntries(Unindexed(start, listing[..i])), Strftime(now))
      {
        IndexIfNew(log, listing, i, now, start, logStart);
        i := i + 1;
      }
      assert listing[..|listing|] == listing;
    }

    /** One turn of pass 1: the file at `i` of the listing gets a row, and
        an UPLOAD line, when the table has none for it. */
    method IndexIfNew(log: Log, listing: seq<string>, i: int, now: DateTime, ghost start: seq<Row>, ghost logStart: string)
      requires hasTable && 0 <= i < |listing|
      requires rows == start + NewRows(Unindexed(start, listing[..i]), now)
      requires log.content == logStart + Render(UploadEntries(Unindexed(start, listing[..i])), Strftime(now))
      modifies this, log
      ensures hasTable
      ensures rows == start + NewRows(Unindexed(start, listing[..i + 1]), now)
      ensures log.content == logStart + Render(UploadEntries(Unindexed(start, listing[..i + 1])), Strftime(now))
    {
      var file := listing[i];
      ghost var before := Unindexed(start, listing[..i]);
      UnindexedStep(start, listing, i, now);
      var record := GetRecord(file);
      if record.None? {
        InsertStep(before, file, now, logStart, Strftime(now));
        AppendAssoc(start, NewRows(before, now), [NewRow(file, LOCAL_ADMIN, now)]);
        rows := rows + [NewRow(file, LOCAL_ADMIN, now)];
        log.Event(Upload, 0, [file, LOCAL_ADMIN], now);
      }
    }

    /** Pass 2 of `refresh`: walks the rows `all` and, for each one whose file
        is missing, deletes by its name and logs a DELETE. */
    method DropMissingFiles(log: Log, all: seq<Row>, listing: seq<string>, now: DateTime)
      requires hasTable && rows == all
      modifies this, log
      ensures hasTable
      ensures rows == Drop(all, Gone(all, listing))
      ensures log.content == old(log.content) + Render(DeleteEntries(all, listing), Strftime(now))
    {
      ghost var logStart := log.content;
      DropNothing(all, {});
      assert all[..0] == [];
      var j := 0;
      while j < |all|
        invariant 0 <= j <= |all|
        invariant hasTable
        invariant rows == Drop(all, Gone(all[..j], listing))
        invariant log.content == logStart + Render(DeleteEntries(all[..j], listing), Strftime(now))
      {
        DropIfMissing(log, all, listing, j, now, logStart);
        j := j + 1;
      }
      assert all[..|all|] == all;
    }

    /** One turn of pass 2: the row at `j` is deleted by name, and the
        deletion logged, when its file is not in the listing. */
    method DropIfMissing(log: Log, all: seq<Row>, listing: seq<string>, j: int, now: DateTime, ghost logStart: string)
      requires hasTable && 0 <= j < |all|
      requires rows == Drop(all, Gone(all[..j], listing))
      requires log.content == logStart + Render(DeleteEntries(all[..j], listing), Strftime(now))
      modifies this, log
      ensures hasTable
      ensures rows == Drop(all, Gone(all[..j + 1], listing))
      ensures log.content == logStart + Render(DeleteEntries(all[..j + 1], listing), Strftime(now))
    {
      var name := all[j].name;
      DropMissingStep(all, listing, j);
      DeleteStep(all, listing, j, logStart, Strftime(now));
      if name !in listing {
        ghost var logged := log.content;
        rows := Drop(rows, {name});
        log.Event(EventKind.Delete, 0, [name, LOCAL_ADMIN], now);
        assert log.content == logged + EntryLine(Entry(EventKind.Delete, 0, name), Strftime(now));
      }
    }
  }
}
