/** The Git blob batch reader of src/git-reconciliation.js: chunking by size,
    the output bound, and decoding the records `git cat-file --batch` frames by
    length. */
module BlobBatch {
  import opened Decimal
  import opened Options
  import opened Seqs

  type Byte = b: nat | b < 256

  type Bytes = seq<Byte>

  const NEWLINE: Byte := 10
  const SPACE: Byte := 32
  const BLOB: Bytes := [98, 108, 111, 98]
  const OVERHEAD: nat := 64

  // ----- chunks -----

  datatype Listed = Listed(oid: Bytes, size: nat)

  function Total(blobs: seq<Listed>): nat {
    if blobs == [] then 0 else Total(blobs[..|blobs| - 1]) + blobs[|blobs| - 1].size
  }

  function Flatten(chunks: seq<seq<Listed>>): seq<Listed> {
    if chunks == [] then [] else Flatten(chunks[..|chunks| - 1]) + chunks[|chunks| - 1]
  }

  ghost predicate Fits(chunk: seq<Listed>, limit: nat) {
    chunk != [] && (Total(chunk) <= limit || |chunk| == 1)
  }

  /** A chunk ended only because the next blob would not have fitted. */
  ghost predicate Full(chunk: seq<Listed>, next: Listed, limit: nat) {
    Total(chunk) + next.size > limit
  }

  ghost predicate Chunked(chunks: seq<seq<Listed>>, limit: nat) {
    && (forall i :: 0 <= i < |chunks| ==> Fits(chunks[i], limit))
    && (forall i :: 0 <= i < |chunks| - 1 ==> Full(chunks[i], chunks[i + 1][0], limit))
  }

  /** The chunk being filled may follow the finished ones. */
  ghost predicate Filling(chunks: seq<seq<Listed>>, current: seq<Listed>, limit: nat) {
    && Chunked(chunks, limit)
    && (current != [] ==> Fits(current, limit))
    && (chunks != [] && current != [] ==> Full(chunks[|chunks| - 1], current[0], limit))
  }

  /** Chunks concatenate back to the input, each is nonempty and within the
      limit unless it is one blob, and each is as long as it could be. */
  method ChunkBySize(blobs: seq<Listed>, limit: nat) returns (chunks: seq<seq<Listed>>)
    ensures Flatten(chunks) == blobs
    ensures Chunked(chunks, limit)
  {
    chunks := [];
    var current: seq<Listed> := [];
    var total := 0;
    for i := 0 to |blobs|
      invariant Flatten(chunks) + current == blobs[..i]
      invariant total == Total(current) && (i > 0 ==> current != [])
      invariant i == 0 ==> chunks == []
      invariant Filling(chunks, current, limit)
    {
      var blob := blobs[i];
      assert blobs[..i + 1] == blobs[..i] + [blob];
      TotalOneMore(current, blob);
      TotalOneMore([], blob);
      if |current| > 0 && total + blob.size > limit {
        FlattenOneMore(chunks, current);
        StartNext(chunks, current, blob, limit);
        chunks := chunks + [current];
        current := [blob];
        total := blob.size;
      } else {
        Assoc(Flatten(chunks), current, [blob]);
        KeepFilling(chunks, current, blob, limit);
        current := current + [blob];
        total := total + blob.size;
      }
    }
    assert blobs[..|blobs|] == blobs;
    if |current| > 0 {
      FlattenOneMore(chunks, current);
      ChunkedOneMore(chunks, current, limit);
      chunks := chunks + [current];
    }
  }

  lemma ChunkedOneMore(chunks: seq<seq<Listed>>, current: seq<Listed>, limit: nat)
    requires Filling(chunks, current, limit) && current != []
    ensures Chunked(chunks + [current], limit)
  {
  }

  lemma StartNext(chunks: seq<seq<Listed>>, current: seq<Listed>, blob: Listed, limit: nat)
    requires Filling(chunks, current, limit) && current != [] && Total(current) + blob.size > limit
    ensures Filling(chunks + [current], [blob], limit)
  {
    ChunkedOneMore(chunks, current, limit);
  }

  lemma KeepFilling(chunks: seq<seq<Listed>>, current: seq<Listed>, blob: Listed, limit: nat)
    requires Filling(chunks, current, limit) && (current == [] ==> chunks == [])
    requires current == [] || Total(current) + blob.size <= limit
    ensures Filling(chunks, current + [blob], limit)
  {
    TotalOneMore(current, blob);
    if current != [] {
      assert (current + [blob])[0] == current[0];
    }
  }

  lemma TotalOneMore(chunk: seq<Listed>, blob: Listed)
    ensures Total(chunk + [blob]) == Total(chunk) + blob.size
  {
    assert (chunk + [blob])[..|chunk|] == chunk;
  }

  lemma FlattenOneMore(chunks: seq<seq<Listed>>, chunk: seq<Listed>)
    ensures Flatten(chunks + [chunk]) == Flatten(chunks) + chunk
  {
    assert (chunks + [chunk])[..|chunks|] == chunks;
  }

  // ----- decoding -----

  function IndexOf(t: Bytes, b: Byte, from: nat): (r: Option<nat>)
    ensures r.Some? ==> from <= r.value < |t| && t[r.value] == b
    decreases if from < |t| then |t| - from else 0
  {
    if from >= |t| then None else if t[from] == b then Some(from) else IndexOf(t, b, from + 1)
  }

  function SplitFields(t: Bytes): (r: seq<Bytes>)
    ensures |r| > 0
    decreases |t|
  {
    var i := IndexOf(t, SPACE, 0);
    if i.None? then [t] else [t[..i.value]] + SplitFields(t[i.value + 1..])
  }

  predicate AllDigits(t: Bytes) {
    t != [] && forall i :: 0 <= i < |t| ==> 48 <= t[i] <= 57
  }

  /** The size field: a safe integer in decimal. */
  function ParseSize(fields: seq<Bytes>): Option<nat> {
    if |fields| < 3 || !AllDigits(fields[2]) || Value(fields[2]) > MAX_SAFE_INTEGER then None else Some(Value(fields[2]))
  }

  datatype DecodeError = EndedEarly(oid: Bytes) | NotReturned(oid: Bytes) | Truncated(oid: Bytes)

  datatype Record = Record(start: nat, end: nat) | BadRecord(error: DecodeError)

  datatype Decoded = Decoded(contents: seq<Bytes>) | Failed(error: DecodeError)

  /** One record, read at `offset`, as the bounds of its content. */
  function ReadRecord(output: Bytes, oid: Bytes, offset: nat): (r: Record)
    ensures r.Record? ==> offset < r.start <= r.end <= |output|
  {
    var newline := IndexOf(output, NEWLINE, offset);
    if newline.None? then BadRecord(EndedEarly(oid))
    else
      var header := SplitFields(output[offset..newline.value]);
      if header[0] != oid || |header| < 2 || header[1] != BLOB then BadRecord(NotReturned(oid))
      else
        var size := ParseSize(header);
        var start := newline.value + 1;
        if size.None? || start + size.value > |output| then BadRecord(Truncated(oid))
        else Record(start, start + size.value)
  }

  function Prepend(contents: seq<Bytes>, d: Decoded): Decoded {
    if d.Decoded? then Decoded(contents + d.contents) else d
  }

  function Decode(output: Bytes, oids: seq<Bytes>, offset: nat): Decoded {
    if oids == [] then Decoded([])
    else
      var r := ReadRecord(output, oids[0], offset);
      if r.BadRecord? then Failed(r.error)
      else Prepend([output[r.start..r.end]], Decode(output, oids[1..], r.end + 1))
  }

  method DecodeBlobBatch(output: Bytes, oids: seq<Bytes>) returns (d: Decoded)
    ensures d == Decode(output, oids, 0)
  {
    var contents: seq<Bytes> := [];
    var offset: nat := 0;
    for i := 0 to |oids|
      invariant Decode(output, oids, 0) == Prepend(contents, Decode(output, oids[i..], offset))
    {
      var record := ReadRecord(output, oids[i], offset);
      assert oids[i..][0] == oids[i] && oids[i..][1..] == oids[i + 1..];
      if record.BadRecord? {
        return Failed(record.error);
      }
      PrependTwice(contents, [output[record.start..record.end]], Decode(output, oids[i + 1..], record.end + 1));
      contents := contents + [output[record.start..record.end]];
      offset := record.end + 1;
    }
    assert contents + [] == contents;
    return Decoded(contents);
  }

  lemma PrependTwice(a: seq<Bytes>, b: seq<Bytes>, d: Decoded)
    ensures Prepend(a, Prepend(b, d)) == Prepend(a + b, d)
  {
    if d.Decoded? {
      Assoc(a, b, d.contents);
    }
  }

  // ----- the framing Git writes -----

  datatype Blob = Blob(oid: Bytes, content: Bytes)

  function Header(b: Blob): Bytes {
    b.oid + [SPACE] + BLOB + [SPACE] + Digits(|b.content|)
  }

  function Frame(b: Blob): Bytes {
    Header(b) + [NEWLINE] + b.content + [NEWLINE]
  }

  function Frames(blobs: seq<Blob>): Bytes {
    if blobs == [] then [] else Frame(blobs[0]) + Frames(blobs[1..])
  }

  function Oids(blobs: seq<Blob>): seq<Bytes> {
    seq(|blobs|, i requires 0 <= i < |blobs| => blobs[i].oid)
  }

  function Contents(blobs: seq<Blob>): seq<Bytes> {
    seq(|blobs|, i requires 0 <= i < |blobs| => blobs[i].content)
  }

  /** Object IDs are hexadecimal, so they hold neither space nor newline. */
  predicate Framable(b: Blob) {
    SPACE !in b.oid && NEWLINE !in b.oid && |b.content| <= MAX_SAFE_INTEGER
  }

  lemma {:induction false} FirstIndex(t: Bytes, b: Byte, from: nat, i: nat)
    requires from <= i < |t| && t[i] == b && forall k :: from <= k < i ==> t[k] != b
    ensures IndexOf(t, b, from) == Some(i)
    decreases i - from
  {
    if from < i {
      FirstIndex(t, b, from + 1, i);
    }
  }

  lemma {:induction false} NoIndex(t: Bytes, b: Byte, from: nat)
    requires forall k :: from <= k < |t| ==> t[k] != b
    ensures IndexOf(t, b, from) == None
    decreases if from < |t| then |t| - from else 0
  {
    if from < |t| {
      NoIndex(t, b, from + 1);
    }
  }

  lemma SplitAtSpace(field: Bytes, rest: Bytes)
    requires SPACE !in field
    ensures SplitFields(field + [SPACE] + rest) == [field] + SplitFields(rest)
  {
    var t := field + [SPACE] + rest;
    FirstIndex(t, SPACE, 0, |field|);
    assert t[..|field|] == field && t[|field| + 1..] == rest;
  }

  lemma HeaderFields(b: Blob)
    requires Framable(b)
    ensures SplitFields(Header(b)) == [b.oid, BLOB, Digits(|b.content|)]
  {
    var size := Digits(|b.content|);
    Assoc4(b.oid + [SPACE], BLOB, [SPACE], size);
    assert Header(b) == b.oid + [SPACE] + (BLOB + [SPACE] + size);
    SplitAtSpace(b.oid, BLOB + [SPACE] + size);
    SplitAtSpace(BLOB, size);
    NoIndex(size, SPACE, 0);
    assert SplitFields(size) == [size];
  }

  lemma HeaderHasNoNewline(b: Blob)
    requires Framable(b)
    ensures NEWLINE !in Header(b)
  {
  }

  /** The first newline from a record's start ends its header. */
  lemma LineIsFound(output: Bytes, from: nat, line: Bytes)
    requires NEWLINE !in line && from + |line| < |output|
    requires output[from..from + |line|] == line && output[from + |line|] == NEWLINE
    ensures IndexOf(output, NEWLINE, from) == Some(from + |line|)
  {
    forall k | from <= k < from + |line| ensures output[k] != NEWLINE {
      assert output[k] == output[from..from + |line|][k - from] == line[k - from];
      assert line[k - from] in line;
    }
    FirstIndex(output, NEWLINE, from, from + |line|);
  }

  lemma FrameSplits(before: Bytes, b: Blob, after: Bytes)
    ensures before + Frame(b) + after == before + Header(b) + ([NEWLINE] + (b.content + [NEWLINE] + after))
    ensures before + Frame(b) + after == before + Header(b) + [NEWLINE] + b.content + ([NEWLINE] + after)
  {
    Assoc4(before, Header(b), [NEWLINE] + b.content, [NEWLINE]);
  }

  /** A framed record, wherever it starts, is read back as its own content. */
  lemma RecordRoundTrip(before: Bytes, b: Blob, after: Bytes)
    requires Framable(b)
    ensures var output := before + Frame(b) + after;
            var r := ReadRecord(output, b.oid, |before|);
            r.Record? && output[r.start..r.end] == b.content && r.end + 1 == |before + Frame(b)|
  {
    FrameSplits(before, b, after);
    HeaderHasNoNewline(b);
    var rest := [NEWLINE] + (b.content + [NEWLINE] + after);
    InMiddle(before, Header(b), rest);
    UnitAt(before + Header(b), rest);
    LineIsFound(before + Header(b) + rest, |before|, Header(b));
    HeaderFields(b);
    SizeReadsBack(b);
    InMiddle(before + Header(b) + [NEWLINE], b.content, [NEWLINE] + after);
    FrameLength(b);
  }

  lemma UnitAt(a: Bytes, z: Bytes)
    ensures z != [] ==> (a + z)[|a|] == z[0]
  {
  }

  lemma InMiddle(a: Bytes, m: Bytes, z: Bytes)
    ensures (a + m + z)[|a|..|a| + |m|] == m
    ensures forall k :: |a| <= k < |a| + |m| ==> (a + m + z)[k] == m[k - |a|]
  {
  }

  lemma SizeReadsBack(b: Blob)
    requires Framable(b)
    ensures ParseSize([b.oid, BLOB, Digits(|b.content|)]) == Some(|b.content|)
  {
    ValueOfDigits(|b.content|);
  }

  lemma DecodeStep(output: Bytes, oids: seq<Bytes>, offset: nat, content: Bytes, next: nat)
    requires oids != []
    requires var r := ReadRecord(output, oids[0], offset);
             r.Record? && output[r.start..r.end] == content && r.end + 1 == next
    ensures Decode(output, oids, offset) == Prepend([content], Decode(output, oids[1..], next))
  {
  }

  lemma {:induction false} FramesDecode(before: Bytes, blobs: seq<Blob>)
    requires forall i :: 0 <= i < |blobs| ==> Framable(blobs[i])
    ensures Decode(before + Frames(blobs), Oids(blobs), |before|) == Decoded(Contents(blobs))
    decreases |blobs|
  {
    if blobs == [] {
    } else {
      var rest := blobs[1..];
      var framed := Frame(blobs[0]);
      Assoc(before, framed, Frames(rest));
      RecordRoundTrip(before, blobs[0], Frames(rest));
      FramesDecode(before + framed, rest);
      FirstOfBatch(blobs);
      DecodeStep(before + framed + Frames(rest), Oids(blobs), |before|, blobs[0].content, |before + framed|);
    }
  }

  lemma FirstOfBatch(blobs: seq<Blob>)
    requires blobs != []
    ensures Oids(blobs)[0] == blobs[0].oid && Oids(blobs)[1..] == Oids(blobs[1..])
    ensures Contents(blobs) == [blobs[0].content] + Contents(blobs[1..])
  {
  }

  /** Decoding what Git framed returns every content exactly, newlines in it
      included. */
  lemma BatchRoundTrip(blobs: seq<Blob>)
    requires forall i :: 0 <= i < |blobs| ==> Framable(blobs[i])
    ensures Decode(Frames(blobs), Oids(blobs), 0) == Decoded(Contents(blobs))
  {
    FramesDecode([], blobs);
    assert [] + Frames(blobs) == Frames(blobs);
  }

  // ----- the output bound -----

  function Allowance(blobs: seq<Blob>): nat {
    if blobs == [] then 0 else |blobs[0].content| + OVERHEAD + Allowance(blobs[1..])
  }

  lemma FrameLength(b: Blob)
    ensures |Frame(b)| == |b.content| + |b.oid| + |Digits(|b.content|)| + 8
  {
  }

  /** The allowance covers one record exactly when its object ID and its size
      together take at most 56 characters. */
  lemma OverheadIsExact(b: Blob)
    ensures |Frame(b)| <= |b.content| + OVERHEAD <==> |b.oid| + |Digits(|b.content|)| <= 56
  {
    FrameLength(b);
  }

  lemma SafeSizesAreShort(n: nat)
    requires n <= MAX_SAFE_INTEGER
    ensures |Digits(n)| <= 16
  {
    assert Power(4) == 10000;
    assert Power(8) == 10000 * Power(4);
    assert Power(12) == 10000 * Power(8);
    assert Power(16) == 10000 * Power(12);
    DigitCount(n, 16);
  }

  /** With 40-character object IDs and safe sizes the bound never refuses what
      Git writes: sixteen digits use it to the last byte. */
  lemma {:induction false} AllowanceHolds(blobs: seq<Blob>)
    requires forall i :: 0 <= i < |blobs| ==> |blobs[i].oid| == 40 && |blobs[i].content| <= MAX_SAFE_INTEGER
    ensures |Frames(blobs)| <= Allowance(blobs)
    decreases |blobs|
  {
    if blobs == [] {
    } else {
      SafeSizesAreShort(|blobs[0].content|);
      OverheadIsExact(blobs[0]);
      AllowanceHolds(blobs[1..]);
    }
  }

  /** With 64-character object IDs it refuses every batch. */
  lemma {:induction false} LongIdsExceedAllowance(blobs: seq<Blob>)
    requires blobs != [] && forall i :: 0 <= i < |blobs| ==> |blobs[i].oid| == 64
    ensures |Frames(blobs)| > Allowance(blobs)
    decreases |blobs|
  {
    FrameLength(blobs[0]);
    if |blobs| > 1 {
      LongIdsExceedAllowance(blobs[1..]);
    } else {
      assert blobs[1..] == [];
    }
  }
}
