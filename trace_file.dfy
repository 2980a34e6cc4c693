/**
 * The flat binary trace file of `profane::bin`: a 64-byte banner, one packed 36-byte record per
 * work item, a string dictionary (a u32 count, then per string a u8 length and its bytes) and a
 * 16-byte trailer holding the positions of the first record and of the dictionary. All integers
 * are little-endian; positions are absolute stream positions.
 */
module TraceFile {
  import opened Bytes
  import opened Wrappers

  /** `FileContent::WorkItem`, one packed record. */
  datatype WorkItem = WorkItem(
    startTimeNs: nat,
    stopTimeNs: nat,
    categoryNameIdx: nat,
    workerNameIdx: nat,
    routineNameIdx: nat,
    commentNameIdx: nat,
    taskId: nat)

  /** `FileContent`: the records in file order and the dictionary in index order. */
  datatype FileContent = FileContent(workItems: seq<WorkItem>, dictionary: seq<Text>)

  const BannerSize: nat := 64
  const ItemSize: nat := 36
  const TrailerSize: nat := 16

  /** `WriteHeader`: the fixed ASCII banner, space-padded to 64 bytes. */
  function Banner(): (r: Text)
    ensures |r| == BannerSize
  {
    Ascii("PROFANE Peformance Logger Binary Data Stream                    ")
  }

  /** Every field fits the width the packed record gives it. */
  predicate Representable(w: WorkItem)
  {
    && w.startTimeNs < U64Limit && w.stopTimeNs < U64Limit
    && w.categoryNameIdx < U32Limit && w.workerNameIdx < U32Limit
    && w.routineNameIdx < U32Limit && w.commentNameIdx < U32Limit
    && w.taskId < U32Limit
  }

  predicate AllRepresentable(ws: seq<WorkItem>)
  {
    forall i :: 0 <= i < |ws| ==> Representable(ws[i])
  }

  /** The 36 bytes of one record: start, stop, the four string indices, the task id. */
  function ItemRecord(w: WorkItem): (r: Text)
    requires Representable(w)
    ensures |r| == ItemSize
  {
    U64(w.startTimeNs) + U64(w.stopTimeNs)
      + U32(w.categoryNameIdx) + U32(w.workerNameIdx) + U32(w.routineNameIdx) + U32(w.commentNameIdx)
      + U32(w.taskId)
  }

  function ItemRecords(ws: seq<WorkItem>): (r: Text)
    requires AllRepresentable(ws)
    ensures |r| == ItemSize * |ws|
  {
    if ws == [] then [] else ItemRecord(ws[0]) + ItemRecords(ws[1..])
  }

  /** Reinterprets 36 raw bytes as a record. */
  function DecodeItem(r: Text): WorkItem
    requires |r| == ItemSize
  {
    WorkItem(
      FromLittleEndian(r[0..8]), FromLittleEndian(r[8..16]),
      FromLittleEndian(r[16..20]), FromLittleEndian(r[20..24]),
      FromLittleEndian(r[24..28]), FromLittleEndian(r[28..32]),
      FromLittleEndian(r[32..36]))
  }

  /** Reinterprets `count` consecutive records. */
  function DecodeItems(s: Text, count: nat): (ws: seq<WorkItem>)
    requires |s| == ItemSize * count
    ensures |ws| == count
  {
    seq(count, i requires 0 <= i < count => DecodeItem(s[ItemSize * i .. ItemSize * i + ItemSize]))
  }

  lemma DecodeItemRecord(w: WorkItem)
    requires Representable(w)
    ensures DecodeItem(ItemRecord(w)) == w
  {
    var r := ItemRecord(w);
    assert r[0..8] == U64(w.startTimeNs);
    assert r[8..16] == U64(w.stopTimeNs);
    assert r[16..20] == U32(w.categoryNameIdx);
    assert r[20..24] == U32(w.workerNameIdx);
    assert r[24..28] == U32(w.routineNameIdx);
    assert r[28..32] == U32(w.commentNameIdx);
    assert r[32..36] == U32(w.taskId);
  }

  lemma {:induction false} ItemRecordsAt(ws: seq<WorkItem>, i: nat)
    requires AllRepresentable(ws) && i < |ws|
    ensures ItemRecords(ws)[ItemSize * i .. ItemSize * i + ItemSize] == ItemRecord(ws[i])
  {
    if i > 0 {
      RecordsTail(ws);
      ItemRecordsAt(ws[1..], i - 1);
      assert ws[1..][i - 1] == ws[i];
      RecordShifted(ItemRecords(ws), ItemRecord(ws[0]), ItemRecords(ws[1..]), i, ItemRecord(ws[i]));
    }
  }

  /** Record `i - 1` of the block after the first record is record `i` of the whole block. */
  lemma RecordShifted(block: Text, head: Text, rest: Text, i: nat, r: Text)
    requires |head| == ItemSize && block == head + rest && 0 < i && ItemSize * i <= |rest|
    requires rest[ItemSize * (i - 1) .. ItemSize * (i - 1) + ItemSize] == r
    ensures block[ItemSize * i .. ItemSize * i + ItemSize] == r
  {
    SliceOfConcatRight(head, rest, ItemSize * (i - 1), ItemSize * (i - 1) + ItemSize);
  }

  /** The record block of a non-empty list: the first record, then the block of the rest. */
  lemma RecordsTail(ws: seq<WorkItem>)
    requires AllRepresentable(ws) && ws != []
    ensures AllRepresentable(ws[1..]) && Representable(ws[0])
    ensures ItemRecords(ws) == ItemRecord(ws[0]) + ItemRecords(ws[1..])
  {
    assert forall i :: 0 <= i < |ws| - 1 ==> ws[1..][i] == ws[i + 1];
  }

  /** Reading back the records the writer laid out gives the same records in the same order. */
  lemma DecodeItemRecords(ws: seq<WorkItem>)
    requires AllRepresentable(ws)
    ensures DecodeItems(ItemRecords(ws), |ws|) == ws
  {
    forall i | 0 <= i < |ws|
      ensures DecodeItems(ItemRecords(ws), |ws|)[i] == ws[i]
    {
      DecodeItemsAt(ItemRecords(ws), ws, i);
    }
  }

  lemma DecodeItemsAt(s: Text, ws: seq<WorkItem>, i: nat)
    requires AllRepresentable(ws) && i < |ws| && s == ItemRecords(ws)
    ensures DecodeItems(s, |ws|)[i] == ws[i]
  {
    ItemRecordsAt(ws, i);
    DecodeItemRecord(ws[i]);
  }

  /** `WriteTextImmediate`: a u8 length followed by the bytes; at most 255 bytes are allowed. */
  function StringRecord(t: Text): (r: Text)
    requires |t| <= 255
    ensures |r| == 1 + |t| && r[0] as nat == |t| && r[1..] == t
  {
    U8(|t|) + t
  }

  predicate ShortStrings(d: seq<Text>)
  {
    forall i :: 0 <= i < |d| ==> |d[i]| <= 255
  }

  function StringRecords(d: seq<Text>): Text
    requires ShortStrings(d)
  {
    if d == [] then [] else StringRecord(d[0]) + StringRecords(d[1..])
  }

  /** The dictionary as `WriteDictionaryDestructively` emits it. */
  function DictionaryChunk(d: seq<Text>): Text
    requires ShortStrings(d) && |d| < U32Limit
  {
    U32(|d|) + StringRecords(d)
  }

  function Trailer(workItem0Pos: nat, dictionaryPos: nat): Text
    requires workItem0Pos < U64Limit && dictionaryPos < U64Limit
  {
    U64(workItem0Pos) + U64(dictionaryPos)
  }

  /**
   * The string a short read leaves: `resize` fills it with zero bytes, and the read that hits the
   * end of the stream copies the bytes still there over the first of them.
   */
  function PaddedTail(f: Text, from: nat, len: nat): (t: Text)
    requires from <= |f| < from + len
    ensures |t| == len && t[..|f| - from] == f[from..]
    ensures forall i :: |f| - from <= i < len ==> t[i] == 0
  {
    f[from..] + seq(from + len - |f|, _ => 0)
  }

  /**
   * The strings `Read` takes from `f` starting at `pos`, `n` of them. When the stream ends inside
   * the last string, that string is kept zero-padded; None where a length byte would be read past
   * the end, or where a string other than the last runs past it (the failed stream then leaves the
   * next length byte uninitialised).
   */
  function DecodeStrings(f: Text, pos: nat, n: nat): Option<seq<Text>>
    decreases n
  {
    if n == 0 then Some([])
    else if pos >= |f| then None
    else if pos + 1 + f[pos] as nat > |f| then
      if n == 1 then Some([PaddedTail(f, pos + 1, f[pos] as nat)]) else None
    else
      match DecodeStrings(f, pos + 1 + f[pos] as nat, n - 1)
      case None => None
      case Some(rest) => Some([f[pos + 1 .. pos + 1 + f[pos] as nat]] + rest)
  }

  /** `done` followed by the strings still to be read, if those can be read. */
  function Prepend(done: seq<Text>, rest: Option<seq<Text>>): (r: Option<seq<Text>>)
    ensures done == [] ==> r == rest
  {
    match rest
    case None => None
    case Some(more) => assert done == [] ==> done + more == more; Some(done + more)
  }

  /** The string records found at `pos` decode to the strings they were made from. */
  lemma {:induction false} DecodeStringRecords(f: Text, pos: nat, d: seq<Text>)
    requires ShortStrings(d)
    requires pos + |StringRecords(d)| <= |f| && f[pos .. pos + |StringRecords(d)|] == StringRecords(d)
    ensures DecodeStrings(f, pos, |d|) == Some(d)
    decreases |d|
  {
    if d != [] {
      ShortTail(d);
      var t, rest := d[0], StringRecords(d[1..]);
      assert StringRecords(d) == StringRecord(t) + rest;
      RecordAt(f, pos, t, rest);
      DecodeStringRecords(f, pos + 1 + |t|, d[1..]);
      DecodeStringsCons(f, pos, |d|, t, d[1..]);
      assert [t] + d[1..] == d;
    }
  }

  /** A whole string at `pos`, followed by `n - 1` strings that read back as `rest`. */
  lemma DecodeStringsCons(f: Text, pos: nat, n: nat, t: Text, rest: seq<Text>)
    requires n > 0 && pos < |f| && f[pos] as nat == |t| && pos + 1 + |t| <= |f| && f[pos + 1 .. pos + 1 + |t|] == t
    requires DecodeStrings(f, pos + 1 + |t|, n - 1) == Some(rest)
    ensures DecodeStrings(f, pos, n) == Some([t] + rest)
  {
  }

  lemma ShortTail(d: seq<Text>)
    requires ShortStrings(d) && d != []
    ensures ShortStrings(d[1..]) && |d[0]| <= 255
  {
    forall i | 0 <= i < |d| - 1
      ensures |d[1..][i]| <= 255
    {
      assert d[1..][i] == d[i + 1];
    }
  }

  /** A string record followed by more bytes, found in the file at `pos`. */
  lemma RecordAt(f: Text, pos: nat, t: Text, rest: Text)
    requires |t| <= 255
    requires pos + |StringRecord(t) + rest| <= |f| && f[pos .. pos + |StringRecord(t) + rest|] == StringRecord(t) + rest
    ensures pos < |f| && f[pos] as nat == |t| && pos + 1 + |t| <= |f|
    ensures f[pos + 1 .. pos + 1 + |t|] == t
    ensures pos + 1 + |t| + |rest| <= |f| && f[pos + 1 + |t| .. pos + 1 + |t| + |rest|] == rest
  {
    var head := StringRecord(t);
    SplitAt(f, pos, head, rest);
    HeadAndTail(f, pos, head);
  }

  /** A run of bytes in the file that is the concatenation of two parts holds each part in turn. */
  lemma SplitAt(f: Text, pos: nat, a: Text, b: Text)
    requires pos + |a| + |b| <= |f| && f[pos .. pos + |a| + |b|] == a + b
    ensures f[pos .. pos + |a|] == a && f[pos + |a| .. pos + |a| + |b|] == b
  {
    assert f[pos .. pos + |a|] == f[pos .. pos + |a| + |b|][..|a|];
    assert f[pos + |a| .. pos + |a| + |b|] == f[pos .. pos + |a| + |b|][|a|..];
  }

  /** A nonempty run of bytes in the file: its first byte, then the rest. */
  lemma HeadAndTail(f: Text, pos: nat, a: Text)
    requires a != [] && pos + |a| <= |f| && f[pos .. pos + |a|] == a
    ensures f[pos] == a[0] && f[pos + 1 .. pos + |a|] == a[1..]
  {
    assert f[pos] == f[pos .. pos + |a|][0];
    assert f[pos + 1 .. pos + |a|] == f[pos .. pos + |a|][1..];
  }

  /** The dictionary at `dictionaryPos`: a u32 count, then that many strings. */
  function ParseDictionary(f: Text, dictionaryPos: nat): Option<seq<Text>>
  {
    if dictionaryPos + 4 > |f| then None
    else DecodeStrings(f, dictionaryPos + 4, FromLittleEndian(f[dictionaryPos .. dictionaryPos + 4]))
  }

  /**
   * The records between the two positions the trailer gives: as many whole records as fit between
   * them, reinterpreted in one read.
   */
  function ParseRecords(f: Text, workItem0Pos: nat, dictionaryPos: nat): Option<seq<WorkItem>>
  {
    if dictionaryPos < workItem0Pos then None
    else
      var count := (dictionaryPos - workItem0Pos) / ItemSize;
      if count == 0 || workItem0Pos + ItemSize * count > |f| then None
      else Some(DecodeItems(f[workItem0Pos .. workItem0Pos + ItemSize * count], count))
  }

  /**
   * What `bin::Read` makes of the stream contents `f`. None stands for the cases the source does not
   * check: reading a length or count past the end of the stream leaves it uninitialised (a short
   * read of the records fails the stream, so the count after them is never read), and
   * `front()` on an empty item vector is undefined; a dictionary position before the first record
   * wraps the difference, and `resize` then throws.
   */
  function ParseFile(f: Text): Option<FileContent>
  {
    if |f| < TrailerSize then None
    else
      var workItem0Pos := FromLittleEndian(f[|f| - 16 .. |f| - 8]);
      var dictionaryPos := FromLittleEndian(f[|f| - 8 .. |f|]);
      match ParseRecords(f, workItem0Pos, dictionaryPos)
      case None => None
      case Some(items) =>
        match ParseDictionary(f, dictionaryPos)
        case None => None
        case Some(d) => Some(FileContent(items, d))
  }

  /**
   * A whole stream as the writer leaves it: `head` (whatever the stream held, then the banner), the
   * records, the dictionary, and the trailer pointing at the first record and at the dictionary.
   */
  function FileBytes(head: Text, items: seq<WorkItem>, d: seq<Text>): Text
    requires AllRepresentable(items) && ShortStrings(d) && |d| < U32Limit
    requires |head| + ItemSize * |items| < U64Limit
  {
    head + ItemRecords(items) + DictionaryChunk(d) + Trailer(|head|, |head| + ItemSize * |items|)
  }

  /** Where the trailer's positions are `36 n` bytes apart, the records are the `n` records there. */
  lemma ParseRecordsSpan(f: Text, p0: nat, n: nat)
    requires n >= 1 && p0 + ItemSize * n <= |f|
    ensures ParseRecords(f, p0, p0 + ItemSize * n) == Some(DecodeItems(f[p0 .. p0 + ItemSize * n], n))
  {
    assert p0 + ItemSize * n - p0 == ItemSize * n;
  }

  /** Records that decode to `items` between the two positions are what the reader finds. */
  lemma ParseRecordsFound(f: Text, p0: nat, items: seq<WorkItem>)
    requires |items| >= 1 && p0 + ItemSize * |items| <= |f|
    requires DecodeItems(f[p0 .. p0 + ItemSize * |items|], |items|) == items
    ensures ParseRecords(f, p0, p0 + ItemSize * |items|) == Some(items)
  {
    ParseRecordsSpan(f, p0, |items|);
  }

  /** `ParseFile` in terms of what it finds at the trailer's two positions. */
  lemma ParseFileFound(f: Text, p0: nat, pd: nat, items: seq<WorkItem>, d: seq<Text>)
    requires |f| >= TrailerSize
    requires FromLittleEndian(f[|f| - 16 .. |f| - 8]) == p0 && FromLittleEndian(f[|f| - 8 .. |f|]) == pd
    requires ParseRecords(f, p0, pd) == Some(items) && ParseDictionary(f, pd) == Some(d)
    ensures ParseFile(f) == Some(FileContent(items, d))
  {
  }

  /** A dictionary chunk at `pd` reads back as the strings it was made from. */
  lemma ParseDictionaryFound(f: Text, pd: nat, d: seq<Text>)
    requires ShortStrings(d) && |d| < U32Limit
    requires pd + 4 + |StringRecords(d)| <= |f|
    requires f[pd .. pd + 4] == U32(|d|)
    requires f[pd + 4 .. pd + 4 + |StringRecords(d)|] == StringRecords(d)
    ensures ParseDictionary(f, pd) == Some(d)
  {
    DecodeStringRecords(f, pd + 4, d);
  }

  /** The trailer at the end of any stream gives back the two positions written into it. */
  lemma TrailerFound(f: Text, body: Text, p0: nat, pd: nat)
    requires p0 < U64Limit && pd < U64Limit && f == body + Trailer(p0, pd)
    ensures |f| >= TrailerSize
    ensures FromLittleEndian(f[|f| - 16 .. |f| - 8]) == p0 && FromLittleEndian(f[|f| - 8 .. |f|]) == pd
  {
    var trailer := Trailer(p0, pd);
    SliceOfConcatRight(body, trailer, 0, 8);
    SliceOfConcatRight(body, trailer, 8, 16);
    SliceOfConcatLeft(U64(p0), U64(pd), 0, 8);
    SliceOfConcatRight(U64(p0), U64(pd), 0, 8);
    assert U64(p0)[0..8] == U64(p0) && U64(pd)[0..8] == U64(pd);
  }

  /** Records written right after `head` are the records the reader finds there. */
  lemma RecordsFound(f: Text, head: Text, records: Text, rest: Text, trailer: Text, items: seq<WorkItem>)
    requires |items| >= 1 && |records| == ItemSize * |items| && DecodeItems(records, |items|) == items
    requires f == head + records + rest + trailer
    ensures ParseRecords(f, |head|, |head| + ItemSize * |items|) == Some(items)
  {
    var p0 := |head|;
    var pd := p0 + |records|;
    var hr := head + records;
    SliceOfConcatLeft(hr + rest, trailer, p0, pd);
    SliceOfConcatLeft(hr, rest, p0, pd);
    SliceOfConcatRight(head, records, 0, |records|);
    assert records[0..|records|] == records;
    assert pd == p0 + ItemSize * |items| && f[p0 .. p0 + ItemSize * |items|] == records;
    ParseRecordsFound(f, p0, items);
  }

  /** A dictionary chunk written after `front` is the dictionary the reader finds there. */
  lemma DictionaryFound(f: Text, front: Text, d: seq<Text>, trailer: Text)
    requires ShortStrings(d) && |d| < U32Limit
    requires f == front + DictionaryChunk(d) + trailer
    ensures ParseDictionary(f, |front|) == Some(d)
  {
    var pd := |front|;
    var chunk := DictionaryChunk(d);
    var records := StringRecords(d);
    var n := |records|;
    assert chunk == U32(|d|) + records;
    SliceOfConcatLeft(front + chunk, trailer, pd, pd + 4);
    SliceOfConcatRight(front, chunk, 0, 4);
    SliceOfConcatLeft(U32(|d|), records, 0, 4);
    assert U32(|d|)[0..4] == U32(|d|);
    SliceOfConcatLeft(front + chunk, trailer, pd + 4, pd + 4 + n);
    SliceOfConcatRight(front, chunk, 4, 4 + n);
    SliceOfConcatRight(U32(|d|), records, 0, n);
    assert records[0..n] == records;
    ParseDictionaryFound(f, pd, d);
  }

  /** A stream made of `head`, records decoding to `items`, a dictionary chunk and a trailer. */
  lemma LaidOutFound(f: Text, head: Text, records: Text, d: seq<Text>, items: seq<WorkItem>)
    requires ShortStrings(d) && |d| < U32Limit
    requires |items| >= 1 && |records| == ItemSize * |items| && DecodeItems(records, |items|) == items
    requires |head| + |records| < U64Limit
    requires f == head + records + DictionaryChunk(d) + Trailer(|head|, |head| + |records|)
    ensures ParseFile(f) == Some(FileContent(items, d))
  {
    var p0 := |head|;
    var pd := p0 + |records|;
    var chunk := DictionaryChunk(d);
    var trailer := Trailer(p0, pd);
    assert f == head + records + chunk + trailer;
    TrailerFound(f, head + records + chunk, p0, pd);
    RecordsFound(f, head, records, chunk, trailer, items);
    assert pd == |head| + ItemSize * |items| && ParseRecords(f, p0, pd) == Some(items);
    DictionaryFound(f, head + records, d, trailer);
    assert |head + records| == pd;
    ParseFileFound(f, p0, pd, items, d);
  }

  /**
   * Round trip: reading a written file gives back the records in order and the ordered dictionary,
   * whatever precedes the first record, provided there is at least one record.
   */
  lemma ReadFileBytes(head: Text, items: seq<WorkItem>, d: seq<Text>)
    requires AllRepresentable(items) && ShortStrings(d) && |d| < U32Limit
    requires |head| + ItemSize * |items| < U64Limit
    requires |items| >= 1
    ensures ParseFile(FileBytes(head, items, d)) == Some(FileContent(items, d))
  {
    var records, f := ItemRecords(items), FileBytes(head, items, d);
    assert f == head + records + DictionaryChunk(d) + Trailer(|head|, |head| + |records|);
    DecodeItemRecords(items);
    LaidOutFound(f, head, records, d, items);
  }

  /**
   * A last string cut short by the end of the stream: its length byte and first `k` bytes are
   * there, and it reads back as those bytes followed by zeros up to its full length.
   */
  lemma TruncatedStringPadded(f: Text, pos: nat, t: Text, k: nat)
    requires |t| <= 255 && k < |t|
    requires pos + 1 + k == |f| && f[pos] as nat == |t| && f[pos + 1..] == t[..k]
    ensures DecodeStrings(f, pos, 1) == Some([t[..k] + seq(|t| - k, _ => 0)])
  {
    var padded := PaddedTail(f, pos + 1, |t|);
    assert padded == t[..k] + seq(|t| - k, _ => 0);
  }

  /** One step of reading the dictionary: the string at `pos` moves from the unread to the read part. */
  lemma DecodeStringsStep(f: Text, pos: nat, n: nat, done: seq<Text>)
    requires n > 0 && pos < |f| && pos + 1 + f[pos] as nat <= |f|
    ensures Prepend(done, DecodeStrings(f, pos, n))
      == Prepend(done + [f[pos + 1 .. pos + 1 + f[pos] as nat]], DecodeStrings(f, pos + 1 + f[pos] as nat, n - 1))
  {
    var t := f[pos + 1 .. pos + 1 + f[pos] as nat];
    match DecodeStrings(f, pos + 1 + f[pos] as nat, n - 1)
    case None =>
    case Some(rest) =>
      assert done + ([t] + rest) == (done + [t]) + rest;
  }

  /** Nothing left to read: the strings are those read so far. */
  lemma AllRead(f: Text, pos: nat, done: seq<Text>)
    ensures Prepend(done, DecodeStrings(f, pos, 0)) == Some(done)
  {
    assert done + [] == done;
  }

  /** A length byte that would be read past the end of the stream. */
  lemma PastEnd(f: Text, pos: nat, n: nat, done: seq<Text>)
    requires n > 0 && pos >= |f|
    ensures Prepend(done, DecodeStrings(f, pos, n)) == None
  {
  }

  /** A string at `pos` that runs past the end of the stream: kept padded if last, else a failure. */
  lemma CutShort(f: Text, pos: nat, n: nat, done: seq<Text>)
    requires n > 0 && pos < |f| && pos + 1 + f[pos] as nat > |f|
    ensures Prepend(done, DecodeStrings(f, pos, n)) == if n == 1 then Some(done + [PaddedTail(f, pos + 1, f[pos] as nat)]) else None
  {
  }

  /** One string that the stream holds whole: its length byte, then only when non-zero its bytes. */
  method ReadString(f: Text, pos: nat) returns (text: Text, next: nat)
    requires pos < |f| && pos + 1 + f[pos] as nat <= |f|
    ensures next == pos + 1 + f[pos] as nat && text == f[pos + 1 .. next]
  {
    var stringLength := f[pos] as nat;
    next := pos + 1;
    text := [];
    if stringLength > 0 {
      text := f[next .. next + stringLength];
      next := next + stringLength;
    }
  }

  /** `content.dictionary[stringIdx] = std::move(text)`: the strings read so far, then this one. */
  method Store(dictionary: array<Text>, i: nat, text: Text)
    requires i < dictionary.Length
    modifies dictionary
    ensures dictionary[..i + 1] == old(dictionary[..i]) + [text]
  {
    dictionary[i] := text;
    assert dictionary[..i + 1] == old(dictionary[..i]) + [text];
  }

  /** The dictionary loop of `bin::Read`: `count` strings, each a u8 length and that many bytes. */
  method ReadStrings(f: Text, start: nat, count: nat) returns (r: Option<seq<Text>>)
    ensures r == DecodeStrings(f, start, count)
  {
    ghost var outcome := DecodeStrings(f, start, count);
    var dictionary := new Text[count];
    var pos: nat := start;
    var stringIdx := 0;
    assert dictionary[..0] == [];
    while stringIdx < count
      invariant 0 <= stringIdx <= count
      invariant outcome == Prepend(dictionary[..stringIdx], DecodeStrings(f, pos, count - stringIdx))
    {
      if pos >= |f| {
        PastEnd(f, pos, count - stringIdx, dictionary[..stringIdx]);
        return None;
      }
      var stringLength := f[pos] as nat;
      if pos + 1 + stringLength > |f| {
        // The short read fails the stream: only a last string is kept, zero-padded.
        CutShort(f, pos, count - stringIdx, dictionary[..stringIdx]);
        if stringIdx + 1 < count {
          return None;
        }
        Store(dictionary, stringIdx, PaddedTail(f, pos + 1, stringLength));
        assert dictionary[..] == dictionary[..stringIdx + 1];
        return Some(dictionary[..]);
      }
      DecodeStringsStep(f, pos, count - stringIdx, dictionary[..stringIdx]);
      var text;
      text, pos := ReadString(f, pos);
      Store(dictionary, stringIdx, text);
      stringIdx := stringIdx + 1;
    }
    AllRead(f, pos, dictionary[..]);
    return Some(dictionary[..]);
  }

  /**
   * `bin::Read`: takes the two positions from the trailer, reinterprets the record block in one
   * read, then reads the dictionary string by string into a vector sized from its count.
   */
  method Read(f: Text) returns (r: Option<FileContent>)
    ensures r == ParseFile(f)
  {
    if |f| < TrailerSize {
      return None;
    }
    var workItem0Pos := FromLittleEndian(f[|f| - 16 .. |f| - 8]);
    var dictionaryPos := FromLittleEndian(f[|f| - 8 .. |f|]);
    if dictionaryPos < workItem0Pos {
      return None;
    }
    var workItemCount := (dictionaryPos - workItem0Pos) / ItemSize;
    if workItemCount == 0 || workItem0Pos + ItemSize * workItemCount > |f| {
      return None;
    }
    var workItems := DecodeItems(f[workItem0Pos .. workItem0Pos + ItemSize * workItemCount], workItemCount);
    if dictionaryPos + 4 > |f| {
      return None;
    }
    var stringCount := FromLittleEndian(f[dictionaryPos .. dictionaryPos + 4]);
    var dictionary := ReadStrings(f, dictionaryPos + 4, stringCount);
    match dictionary
    case None => return None;
    case Some(d) => return Some(FileContent(workItems, d));
  }
}
