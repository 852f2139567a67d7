/** The server's append-only event log (src/server/loglib.py): one fixed
    success template and one fixed error template per event kind, chosen by
    whether the status is 0, appended to a single text file. */
module Loglib {
  import opened Text
  import opened Clock

  /** `Log.Event`: the kinds of event this version can log. */
  datatype EventKind = Upload | Download | Delete

  function Keyword(kind: EventKind): string {
    match kind
    case Upload => "UPLOAD"
    case Download => "DOWNLOAD"
    case Delete => "DELETE"
  }

  function PastTense(kind: EventKind): string {
    match kind
    case Upload => "uploaded"
    case Download => "downloaded"
    case Delete => "deleted"
  }

  function Infinitive(kind: EventKind): string {
    match kind
    case Upload => "upload"
    case Download => "download"
    case Delete => "delete"
  }

  /** The wording after the keyword: the success wording or the error
      wording. The actor is always "john_doe"; the payload's user name is not
      used. */
  function Wording(kind: EventKind, succeeded: bool): string {
    if succeeded then " User john_doe " + PastTense(kind) + " file "
    else " ERROR User john_doe failed to " + Infinitive(kind) + " file "
  }

  /** The fixed text between the timestamp and the file name. */
  function Head(kind: EventKind, succeeded: bool): string {
    " " + Keyword(kind) + Wording(kind, succeeded)
  }

  /** The success template of `Log.event` for `kind`, after the timestamp text `stamp`. */
  function SuccessLine(kind: EventKind, fileName: string, stamp: string): string {
    stamp + (Head(kind, true) + (fileName + ".\n"))
  }

  /** The error template of `Log.event` for `kind`; it embeds `str(status)`. */
  function ErrorLine(kind: EventKind, status: int, fileName: string, stamp: string): string {
    stamp + (Head(kind, false) + ((fileName + " with error " + IntToString(status)) + ".\n"))
  }

  /** What follows the head: the file name, and on the error template the status. */
  function Subject(fileName: string, status: int): string {
    if status == 0 then fileName else fileName + " with error " + IntToString(status)
  }

  /** The line `Log.event(kind, status, [fileName, ...])` writes when the clock
      reads `stamp`. */
  function EventLine(kind: EventKind, status: int, fileName: string, stamp: string): (line: string)
    ensures stamp <= line && |stamp| + 2 <= |line| && line[|line| - 2] == '.' && line[|line| - 1] == '\n'
  {
    if status == 0 then SuccessLine(kind, fileName, stamp) else ErrorLine(kind, status, fileName, stamp)
  }

  // ---------------------------------------------------------------------------
  // Reading a line back
  // ---------------------------------------------------------------------------

  /** Both templates are the timestamp, the head, the subject and ".\n". */
  lemma EventLineLayout(kind: EventKind, status: int, fileName: string, stamp: string)
    ensures EventLine(kind, status, fileName, stamp)
         == stamp + (Head(kind, status == 0) + (Subject(fileName, status) + ".\n"))
  {
  }

  datatype ParsedLine = ParsedLine(time: DateTime, kind: EventKind, succeeded: bool, subject: string)

  predicate HeadFits(body: string, kind: EventKind, succeeded: bool) {
    |Head(kind, succeeded)| + 2 <= |body| && body[..|Head(kind, succeeded)|] == Head(kind, succeeded)
  }

  function MatchHead(body: string): (r: Option<(EventKind, bool)>)
    ensures r.Some? ==> HeadFits(body, r.value.0, r.value.1)
  {
    if HeadFits(body, Upload, true) then Some((Upload, true))
    else if HeadFits(body, Upload, false) then Some((Upload, false))
    else if HeadFits(body, Download, true) then Some((Download, true))
    else if HeadFits(body, Download, false) then Some((Download, false))
    else if HeadFits(body, Delete, true) then Some((Delete, true))
    else if HeadFits(body, Delete, false) then Some((Delete, false))
    else None
  }

  /** Reads a log line back into its timestamp, kind, template and subject. */
  function ParseEventLine(line: string): Option<ParsedLine> {
    if |line| < 19 then None
    else
      match ParseTimestamp(line[..19])
      case None => None
      case Some(t) =>
        match ParseBody(line[19..])
        case None => None
        case Some(b) => Some(ParsedLine(t, b.0, b.1, b.2))
  }

  /** Reads the text after the timestamp into kind, template and subject. */
  function ParseBody(body: string): Option<(EventKind, bool, string)> {
    match MatchHead(body)
    case None => None
    case Some(found) =>
      if body[|body| - 2..] == ".\n"
      then Some((found.0, found.1, body[|Head(found.0, found.1)|..|body| - 2]))
      else None
  }

  lemma KeywordsDiffer(k1: EventKind, k2: EventKind)
    requires k1 != k2
    ensures exists i :: 0 <= i < |Keyword(k1)| && i < |Keyword(k2)| && Keyword(k1)[i] != Keyword(k2)[i]
  {
    if k1 == Upload || k2 == Upload {
      assert Keyword(k1)[0] != Keyword(k2)[0];
    } else {
      assert Keyword(k1)[1] != Keyword(k2)[1];
    }
  }

  /** The success wording starts " User", the error wording " ERROR". */
  lemma WordingsDiffer(kind: EventKind)
    ensures |Wording(kind, true)| > 1 && |Wording(kind, false)| > 1
    ensures Wording(kind, true)[1] == 'U' && Wording(kind, false)[1] == 'E'
  {
    assert Wording(kind, true)[1] == " User john_doe "[1];
    assert Wording(kind, false)[1] == " ERROR User john_doe failed to "[1];
  }

  /** Two different (kind, template) pairs have heads that differ at some
      offset inside both, so at most one of them opens a given line. */
  lemma HeadsDiffer(k1: EventKind, ok1: bool, k2: EventKind, ok2: bool)
    requires (k1, ok1) != (k2, ok2)
    ensures exists i :: 0 <= i < |Head(k1, ok1)| && i < |Head(k2, ok2)| && Head(k1, ok1)[i] != Head(k2, ok2)[i]
  {
    var h1, h2 := Head(k1, ok1), Head(k2, ok2);
    if k1 != k2 {
      KeywordsDiffer(k1, k2);
      var j :| 0 <= j < |Keyword(k1)| && j < |Keyword(k2)| && Keyword(k1)[j] != Keyword(k2)[j];
      assert h1[j + 1] == Keyword(k1)[j];
      assert h2[j + 1] == Keyword(k2)[j];
    } else {
      WordingsDiffer(k1);
      var i := |Keyword(k1)| + 2;
      assert h1[i] == Wording(k1, ok1)[1];
      assert h2[i] == Wording(k2, ok2)[1];
    }
  }

  lemma OtherHeadsDoNotFit(body: string, k: EventKind, ok: bool, k2: EventKind, ok2: bool)
    requires |Head(k, ok)| <= |body| && body[..|Head(k, ok)|] == Head(k, ok)
    requires (k, ok) != (k2, ok2)
    ensures !HeadFits(body, k2, ok2)
  {
    HeadsDiffer(k, ok, k2, ok2);
    var i :| 0 <= i < |Head(k, ok)| && i < |Head(k2, ok2)| && Head(k, ok)[i] != Head(k2, ok2)[i];
    assert body[i] == Head(k, ok)[i];
    if |Head(k2, ok2)| <= |body| {
      assert body[..|Head(k2, ok2)|][i] == body[i];
    }
  }

  /** A body that opens with the head of (kind, template) is matched to exactly that pair. */
  lemma MatchHeadFinds(body: string, kind: EventKind, ok: bool)
    requires HeadFits(body, kind, ok)
    ensures MatchHead(body) == Some((kind, ok))
  {
    if (kind, ok) != (Upload, true) { OtherHeadsDoNotFit(body, kind, ok, Upload, true); }
    if (kind, ok) != (Upload, false) { OtherHeadsDoNotFit(body, kind, ok, Upload, false); }
    if (kind, ok) != (Download, true) { OtherHeadsDoNotFit(body, kind, ok, Download, true); }
    if (kind, ok) != (Download, false) { OtherHeadsDoNotFit(body, kind, ok, Download, false); }
    if (kind, ok) != (Delete, true) { OtherHeadsDoNotFit(body, kind, ok, Delete, true); }
  }

  /** A text made of `stamp` and `rest` splits back into the two. */
  lemma StampThenRest(stamp: string, rest: string)
    ensures (stamp + rest)[..|stamp|] == stamp && (stamp + rest)[|stamp|..] == rest
  {
  }

  /** A body made of a head, a subject and ".\n" splits back into the three. */
  lemma BodyParts(head: string, subject: string)
    ensures var body := head + (subject + ".\n");
      && |head| + 2 <= |body|
      && body[..|head|] == head
      && body[|body| - 2..] == ".\n"
      && body[|head|..|body| - 2] == subject
  {
    var body := head + (subject + ".\n");
    assert body[|head|..] == subject + ".\n";
  }

  lemma ParseBodyRoundTrip(kind: EventKind, ok: bool, subject: string)
    ensures ParseBody(Head(kind, ok) + (subject + ".\n")) == Some((kind, ok, subject))
  {
    BodyParts(Head(kind, ok), subject);
    MatchHeadFinds(Head(kind, ok) + (subject + ".\n"), kind, ok);
  }

  /** Every line `Log.event` writes reads back to the clock value, the kind,
      the template chosen by `status == 0` and the subject it was written with. */
  lemma ParseEventLineRoundTrip(kind: EventKind, status: int, fileName: string, now: DateTime)
    ensures ParseEventLine(EventLine(kind, status, fileName, Strftime(now)))
         == Some(ParsedLine(now, kind, status == 0, Subject(fileName, status)))
  {
    var stamp := Strftime(now);
    var body := Head(kind, status == 0) + (Subject(fileName, status) + ".\n");
    EventLineLayout(kind, status, fileName, stamp);
    StampThenRest(stamp, body);
    TimestampRoundTrip(now);
    ParseBodyRoundTrip(kind, status == 0, Subject(fileName, status));
  }

  /** The subject of a success line is exactly the file name. */
  lemma SuccessSubjectIsFileName(kind: EventKind, fileName: string, now: DateTime)
    ensures ParseEventLine(EventLine(kind, 0, fileName, Strftime(now))) == Some(ParsedLine(now, kind, true, fileName))
  {
    ParseEventLineRoundTrip(kind, 0, fileName, now);
  }

  lemma StrftimeHasNoLineBreak(t: DateTime)
    ensures '\n' !in Strftime(t)
  {
    var s := Strftime(t);
    assert forall k :: 0 <= k < |s| ==> IsDigit(s[k]) || s[k] in "/ :";
  }

  lemma KeywordHasNoLineBreak(kind: EventKind)
    ensures '\n' !in Keyword(kind)
  {
  }

  lemma WordingHasNoLineBreak(kind: EventKind, ok: bool)
    ensures '\n' !in Wording(kind, ok)
  {
    VerbsHaveNoLineBreak(kind);
    OpeningsHaveNoLineBreak();
  }

  lemma VerbsHaveNoLineBreak(kind: EventKind)
    ensures '\n' !in PastTense(kind) && '\n' !in Infinitive(kind)
  {
  }

  lemma OpeningsHaveNoLineBreak()
    ensures '\n' !in " User john_doe " && '\n' !in " ERROR User john_doe failed to " && '\n' !in " file "
  {
  }

  lemma HeadHasNoLineBreak(kind: EventKind, ok: bool)
    ensures CountChar(Head(kind, ok), '\n') == 0
  {
    KeywordHasNoLineBreak(kind);
    WordingHasNoLineBreak(kind, ok);
    CountCharAbsent(Head(kind, ok), '\n');
  }

  lemma SubjectHasNoLineBreak(fileName: string, status: int)
    requires '\n' !in fileName
    ensures CountChar(Subject(fileName, status), '\n') == 0
  {
    assert '\n' !in IntToString(status);
    CountCharAbsent(Subject(fileName, status), '\n');
  }

  /** With a timestamp and a file name free of line breaks, an event is
      exactly one line, ending in "\n". */
  lemma EventLineIsOneLine(kind: EventKind, status: int, fileName: string, stamp: string)
    requires '\n' !in stamp && '\n' !in fileName
    ensures CountChar(EventLine(kind, status, fileName, stamp), '\n') == 1
    ensures var line := EventLine(kind, status, fileName, stamp); line[|line| - 1] == '\n'
  {
    var head, subject := Head(kind, status == 0), Subject(fileName, status);
    EventLineLayout(kind, status, fileName, stamp);
    CountCharAbsent(stamp, '\n');
    HeadHasNoLineBreak(kind, status == 0);
    SubjectHasNoLineBreak(fileName, status);
    assert CountChar(".\n", '\n') == 1;
    CountCharAppend(subject, ".\n", '\n');
    CountCharAppend(head, subject + ".\n", '\n');
    CountCharAppend(stamp, head + (subject + ".\n"), '\n');
  }

  // ---------------------------------------------------------------------------
  // Sequences of events
  // ---------------------------------------------------------------------------

  /** One `Log.event` call: kind, status and the file name `payload[0]`. */
  datatype Entry = Entry(kind: EventKind, status: int, fileName: string)

  function EntryLine(e: Entry, stamp: string): string {
    EventLine(e.kind, e.status, e.fileName, stamp)
  }

  /** The text a sequence of `Log.event` calls appends, in call order. */
  function Render(entries: seq<Entry>, stamp: string): string {
    if entries == [] then ""
    else Render(entries[..|entries| - 1], stamp) + EntryLine(entries[|entries| - 1], stamp)
  }

  lemma {:induction false} RenderConcat(a: seq<Entry>, b: seq<Entry>, stamp: string)
    ensures Render(a + b, stamp) == Render(a, stamp) + Render(b, stamp)
    decreases |b|
  {
    if b != [] {
      var front, last := b[..|b| - 1], b[|b| - 1];
      assert (a + b)[..|a + b| - 1] == a + front;
      assert (a + b)[|a + b| - 1] == last;
      var line := EntryLine(last, stamp);
      assert Render(a + b, stamp) == Render(a + front, stamp) + line;
      assert Render(b, stamp) == Render(front, stamp) + line;
      RenderConcat(a, front, stamp);
      AppendAssoc(Render(a, stamp), Render(front, stamp), line);
    } else {
      assert a + b == a;
    }
  }

  /** Each event contributes exactly one line to the log. */
  lemma {:induction false} RenderLineCount(entries: seq<Entry>, stamp: string)
    requires '\n' !in stamp
    requires forall k :: 0 <= k < |entries| ==> '\n' !in entries[k].fileName
    ensures CountChar(Render(entries, stamp), '\n') == |entries|
  {
    if entries != [] {
      var last := entries[|entries| - 1];
      RenderLineCount(entries[..|entries| - 1], stamp);
      EventLineIsOneLine(last.kind, last.status, last.fileName, stamp);
      CountCharAppend(Render(entries[..|entries| - 1], stamp), EntryLine(last, stamp), '\n');
    }
  }

  // ---------------------------------------------------------------------------
  // The log file
  // ---------------------------------------------------------------------------

  /** `Log`: the content of the log file "kryzbu.log". */
  class Log {
    var content: string

    /** The log as it stands on disk when the server starts. */
    constructor (existing: string)
      ensures content == existing
    {
      content := existing;
    }

    /** `Log.write`: opens the file in append mode and writes `line`. */
    method Write(line: string)
      modifies this
      ensures content == old(content) + line
      ensures content[..|old(content)|] == old(content)
    {
      content := content + line;
    }

    /** `Log.event`: picks the success template when `status == 0`, else the
        error template, and appends it. `payload[0]` is the file name; any
        further payload items are ignored. */
    method Event(kind: EventKind, status: int, payload: seq<string>, now: DateTime)
      requires |payload| >= 1
      modifies this
      ensures content == old(content) + EventLine(kind, status, payload[0], Strftime(now))
    {
      var suc := SuccessLine(kind, payload[0], Strftime(now));
      var err := ErrorLine(kind, status, payload[0], Strftime(now));
      if status == 0 {
        Write(suc);
      } else {
        Write(err);
      }
    }
  }
}
