/** The two byte-stream loops of the server (src/server/server.py): the
    upload loop keeps reading `BUFFER_SIZE` chunks from the connection and
    writes each one to the file until a read returns no bytes; the download
    loop reads the file `BUFFER_SIZE` bytes at a time and sends every
    non-empty piece. */
module Transfer {
  import opened Text

  newtype byte = b: int | 0 <= b < 256

  /** `Server.BUFFER_SIZE`: the most bytes one read returns. */
  const BUFFER_SIZE: nat := 4096

  /** The bytes of `chunks`, in order. */
  function Concat(chunks: seq<seq<byte>>): seq<byte> {
    if chunks == [] then [] else chunks[0] + Concat(chunks[1..])
  }

  lemma {:induction false} ConcatAppend(a: seq<seq<byte>>, b: seq<seq<byte>>)
    ensures Concat(a + b) == Concat(a) + Concat(b)
  {
    if a != [] {
      assert (a + b)[1..] == a[1..] + b;
      ConcatAppend(a[1..], b);
    } else {
      assert a + b == b;
    }
  }

  /** What the upload loop writes when successive reads return `incoming`
      and, once `incoming` is used up, the empty chunk of a closed
      connection: the chunks before the first empty one. */
  function Collected(incoming: seq<seq<byte>>): (written: seq<byte>)
    ensures |written| <= |Concat(incoming)|
  {
    if incoming == [] || incoming[0] == [] then [] else incoming[0] + Collected(incoming[1..])
  }

  /** The upload loop stops at the first empty read: whatever arrives after
      it is never stored. */
  lemma {:induction false} CollectedStopsAtEmptyRead(sent: seq<seq<byte>>, rest: seq<seq<byte>>)
    requires forall k :: 0 <= k < |sent| ==> sent[k] != []
    ensures Collected(sent + [[]] + rest) == Concat(sent)
  {
    if sent == [] {
      assert sent + [[]] + rest == [[]] + rest;
    } else {
      assert (sent + [[]] + rest)[1..] == sent[1..] + [[]] + rest;
      CollectedStopsAtEmptyRead(sent[1..], rest);
    }
  }

  /** With no empty read among them, every chunk is stored. */
  lemma {:induction false} CollectedAll(chunks: seq<seq<byte>>)
    requires forall k :: 0 <= k < |chunks| ==> chunks[k] != []
    ensures Collected(chunks) == Concat(chunks)
  {
    if chunks != [] {
      CollectedAll(chunks[1..]);
    }
  }

  function Min(a: int, b: int): int {
    if a < b then a else b
  }

  /** The pieces the download loop sends for a file holding `content`:
      successive reads of at most `BUFFER_SIZE` bytes, up to the first empty
      read at end of file. */
  function Chunked(content: seq<byte>): (pieces: seq<seq<byte>>)
    ensures pieces == [] <==> content == []
    decreases |content|
  {
    if content == [] then []
    else
      var n := Min(BUFFER_SIZE, |content|);
      [content[..n]] + Chunked(content[n..])
  }

  /** Every piece holds between 1 and `BUFFER_SIZE` bytes, every piece but
      the last is full, and a file of n bytes is sent in n / BUFFER_SIZE
      pieces, rounded up. */
  lemma {:induction false} ChunkedSizes(content: seq<byte>)
    ensures var chunks := Chunked(content);
      && (forall k :: 0 <= k < |chunks| ==> 0 < |chunks[k]| <= BUFFER_SIZE)
      && (forall k :: 0 <= k < |chunks| - 1 ==> |chunks[k]| == BUFFER_SIZE)
      && |chunks| == (|content| + BUFFER_SIZE - 1) / BUFFER_SIZE
    decreases |content|
  {
    if content != [] {
      var n := Min(BUFFER_SIZE, |content|);
      ChunkedSizes(content[n..]);
      var chunks := Chunked(content);
      assert chunks[1..] == Chunked(content[n..]);
      forall k | 1 <= k < |chunks| ensures chunks[k] == Chunked(content[n..])[k - 1] {
      }
    }
  }

  /** The pieces the download loop sends add up to the whole file. */
  lemma {:induction false} ConcatChunked(content: seq<byte>)
    ensures Concat(Chunked(content)) == content
    decreases |content|
  {
    if content != [] {
      var n := Min(BUFFER_SIZE, |content|);
      ConcatChunked(content[n..]);
      assert content == content[..n] + content[n..];
    }
  }

  /** What the download loop sends is stored whole by the upload loop. */
  lemma CollectedChunked(content: seq<byte>)
    ensures Collected(Chunked(content)) == content
  {
    ChunkedSizes(content);
    CollectedAll(Chunked(content));
    ConcatChunked(content);
  }

  /** One step of the download loop: a read at offset `pos` returns the next
      piece, and the pieces from there on are that piece and the pieces
      after it. */
  lemma ChunkedStep(content: seq<byte>, pos: int)
    requires 0 <= pos < |content|
    ensures var n := Min(BUFFER_SIZE, |content| - pos);
      Chunked(content[pos..]) == [content[pos..pos + n]] + Chunked(content[pos + n..])
  {
    var n := Min(BUFFER_SIZE, |content| - pos);
    assert content[pos..][..n] == content[pos..pos + n];
    assert content[pos..][n..] == content[pos + n..];
  }

  /** The download loop: reads `content` `BUFFER_SIZE` bytes at a time and
      sends each piece until a read comes back empty. */
  method SendPieces(content: seq<byte>) returns (sent: seq<seq<byte>>)
    ensures sent == Chunked(content)
  {
    sent := [];
    var pos := 0;
    while true
      invariant 0 <= pos <= |content|
      invariant sent + Chunked(content[pos..]) == Chunked(content)
      decreases |content| - pos
    {
      var piece := content[pos..Min(pos + BUFFER_SIZE, |content|)];
      if piece == [] {
        break;
      }
      ChunkedStep(content, pos);
      AppendAssoc(sent, [piece], Chunked(content[pos + |piece|..]));
      sent := sent + [piece];
      pos := pos + |piece|;
    }
    assert content[pos..] == [];
  }

  /** One step of the upload loop: a non-empty read is stored, then the
      rest of the stream is collected. */
  lemma CollectedStep(incoming: seq<seq<byte>>, k: int)
    requires 0 <= k < |incoming| && incoming[k] != []
    ensures Collected(incoming[k..]) == incoming[k] + Collected(incoming[k + 1..])
  {
    assert incoming[k..][1..] == incoming[k + 1..];
  }
}
