/**
 * `profane::bin::BinaryWriter`: writes the banner on construction, one record per work item with
 * every string replaced by its index in an interning table, and on `Finish` the table in index
 * order followed by the trailer. The table starts as {"" -> 0}; a string not seen before gets the
 * next index, the current table size.
 */
module Writer {
  import opened Bytes
  import opened TraceFile
  import opened Wrappers

  /** `WorkItemProto`: one span with its names spelled out, times already in nanoseconds. */
  datatype WorkItemProto = WorkItemProto(
    startTimeNs: nat,
    stopTimeNs: nat,
    categoryName: Text,
    workerName: Text,
    routineName: Text,
    comment: Text,
    taskId: nat)

  predicate Distinct(s: seq<Text>)
  {
    forall i, j :: 0 <= i < j < |s| ==> s[i] != s[j]
  }

  /** Position of the first occurrence of `t` in `s`. */
  function IndexOf(s: seq<Text>, t: Text): (i: nat)
    requires t in s
    ensures i < |s| && s[i] == t && forall j :: 0 <= j < i ==> s[j] != t
  {
    if s[0] == t then 0 else 1 + IndexOf(s[1..], t)
  }

  /** The interning table as the writer's map holds it: each string to its index. */
  function IndexMap(order: seq<Text>): map<Text, nat>
  {
    map t | t in order :: IndexOf(order, t)
  }

  /** `IndexString` on the table whose strings, by index, are `order`. */
  function Intern(order: seq<Text>, t: Text): (seq<Text>, nat)
  {
    if t in order then (order, IndexOf(order, t)) else (order + [t], |order|)
  }

  /** `operator<<` on the table: the four names are interned in field order. */
  function InternItem(order: seq<Text>, p: WorkItemProto): (seq<Text>, WorkItem)
  {
    var (o1, category) := Intern(order, p.categoryName);
    var (o2, worker) := Intern(o1, p.workerName);
    var (o3, routine) := Intern(o2, p.routineName);
    var (o4, comment) := Intern(o3, p.comment);
    (o4, WorkItem(p.startTimeNs, p.stopTimeNs, category, worker, routine, comment, p.taskId))
  }

  /** The table and the records after pushing `ps` into a fresh writer. */
  function InternAll(ps: seq<WorkItemProto>): (seq<Text>, seq<WorkItem>)
  {
    if ps == [] then ([[]], [])
    else
      var (order, items) := InternAll(ps[..|ps| - 1]);
      var (order', item) := InternItem(order, ps[|ps| - 1]);
      (order', items + [item])
  }

  /** A record's indices looked up in the table, giving back the names. */
  function Resolve(order: seq<Text>, w: WorkItem): WorkItemProto
    requires w.categoryNameIdx < |order| && w.workerNameIdx < |order|
    requires w.routineNameIdx < |order| && w.commentNameIdx < |order|
  {
    WorkItemProto(w.startTimeNs, w.stopTimeNs,
      order[w.categoryNameIdx], order[w.workerNameIdx], order[w.routineNameIdx], order[w.commentNameIdx],
      w.taskId)
  }

  predicate IndicesBelow(w: WorkItem, n: nat)
  {
    w.categoryNameIdx < n && w.workerNameIdx < n && w.routineNameIdx < n && w.commentNameIdx < n
  }

  lemma IndexOfAppend(s: seq<Text>, t: Text, x: Text)
    requires x in s
    ensures x in s + [t] && IndexOf(s + [t], x) == IndexOf(s, x)
  {
    var i := IndexOf(s, x);
    var j := IndexOf(s + [t], x);
    assert (s + [t])[i] == x;
    assert j <= i;
    assert s[j] == x;
  }

  lemma IndexOfDistinct(s: seq<Text>, i: nat)
    requires Distinct(s) && i < |s|
    ensures IndexOf(s, s[i]) == i
  {
  }

  /**
   * A known string keeps its index and leaves the table alone; a new string is appended and gets
   * the table's old size. Either way the table only grows at the end, stays free of duplicates,
   * and the index returned names the string.
   */
  lemma InternProperties(order: seq<Text>, t: Text)
    requires Distinct(order)
    ensures var (order', idx) := Intern(order, t);
      && Distinct(order') && idx < |order'| && order'[idx] == t
      && order <= order'
      && (t in order ==> order' == order && idx == IndexOf(order, t))
      && (t !in order ==> order' == order + [t] && idx == |order|)
  {
  }

  /** The writer's map for the grown table is the old map with the new string at the next index. */
  lemma IndexMapAppend(order: seq<Text>, t: Text)
    requires t !in order
    ensures IndexMap(order + [t]) == IndexMap(order)[t := |order|]
  {
    var m := IndexMap(order + [t]);
    var m' := IndexMap(order)[t := |order|];
    forall x | x in m.Keys
      ensures x in m'.Keys && m[x] == m'[x]
    {
      if x != t {
        IndexOfAppend(order, t, x);
      }
    }
    assert m.Keys == m'.Keys;
  }

  /** The map has exactly one entry per string of a duplicate-free table. */
  lemma {:induction false} IndexMapSize(order: seq<Text>)
    requires Distinct(order)
    ensures |IndexMap(order)| == |order|
    decreases |order|
  {
    if order == [] {
      assert IndexMap(order) == map[];
    } else {
      var prefix := order[..|order| - 1];
      var t := order[|order| - 1];
      assert prefix + [t] == order;
      assert Distinct(prefix);
      assert t !in prefix;
      IndexMapSize(prefix);
      IndexMapAppend(prefix, t);
    }
  }

  lemma InternItemProperties(order: seq<Text>, p: WorkItemProto)
    requires Distinct(order)
    ensures var (order', w) := InternItem(order, p);
      && Distinct(order') && order <= order' && |order'| <= |order| + 4
      && IndicesBelow(w, |order'|) && Resolve(order', w) == p
  {
    InternItemTable(order, p);
    InternItemResolves(order, p);
  }

  /** Interning an item's names grows the table at the end by at most four new strings. */
  lemma InternItemTable(order: seq<Text>, p: WorkItemProto)
    requires Distinct(order)
    ensures var order' := InternItem(order, p).0;
      Distinct(order') && order <= order' && |order'| <= |order| + 4
  {
    var o1 := Intern(order, p.categoryName).0;
    var o2 := Intern(o1, p.workerName).0;
    var o3 := Intern(o2, p.routineName).0;
    var o4 := Intern(o3, p.comment).0;
    InternDistinct(order, p.categoryName);
    InternDistinct(o1, p.workerName);
    InternDistinct(o2, p.routineName);
    InternDistinct(o3, p.comment);
    PrefixTrans(order, o1, o2);
    PrefixTrans(order, o2, o3);
    PrefixTrans(order, o3, o4);
  }

  /** Interning keeps the table free of duplicates and adds at most one string, at the end. */
  lemma InternDistinct(order: seq<Text>, t: Text)
    requires Distinct(order)
    ensures var order' := Intern(order, t).0;
      Distinct(order') && order <= order' && |order'| <= |order| + 1
  {
  }

  lemma PrefixTrans(a: seq<Text>, b: seq<Text>, c: seq<Text>)
    requires a <= b <= c
    ensures a <= c
  {
  }

  /** The record made from an item resolves, through the grown table, to the item. */
  lemma InternItemResolves(order: seq<Text>, p: WorkItemProto)
    ensures var (order', w) := InternItem(order, p);
      IndicesBelow(w, |order'|) && Resolve(order', w) == p
  {
    var (o1, category) := Intern(order, p.categoryName);
    var (o2, worker) := Intern(o1, p.workerName);
    var (o3, routine) := Intern(o2, p.routineName);
    var (o4, comment) := Intern(o3, p.comment);
    InternNames(order, p.categoryName);
    InternNames(o1, p.workerName);
    InternNames(o2, p.routineName);
    InternNames(o3, p.comment);
    PrefixAt(o1, o4, category);
    PrefixAt(o2, o4, worker);
    PrefixAt(o3, o4, routine);
  }

  /** Interning extends the table at the end, and the index returned names the string. */
  lemma InternNames(order: seq<Text>, t: Text)
    ensures var (order', idx) := Intern(order, t);
      order <= order' && idx < |order'| && order'[idx] == t
  {
  }

  lemma PrefixAt(a: seq<Text>, b: seq<Text>, i: nat)
    requires a <= b && i < |a|
    ensures b[i] == a[i]
  {
  }

  /**
   * After any sequence of pushes the table starts with "", holds no duplicate, grows by at most
   * four strings per item, and there is one record per item.
   */
  lemma {:induction false} InternAllTable(ps: seq<WorkItemProto>)
    ensures var (order, items) := InternAll(ps);
      && Distinct(order) && |order| >= 1 && order[0] == [] && |order| <= 1 + 4 * |ps|
      && |items| == |ps|
    decreases |ps|
  {
    if ps != [] {
      var prefix := ps[..|ps| - 1];
      InternAllTable(prefix);
      InternItemProperties(InternAll(prefix).0, ps[|ps| - 1]);
    }
  }

  /** Record `i` resolves, through the table, to item `i`. */
  predicate ResolvesTo(order: seq<Text>, items: seq<WorkItem>, ps: seq<WorkItemProto>)
  {
    |items| == |ps| && forall i :: 0 <= i < |ps| ==> IndicesBelow(items[i], |order|) && Resolve(order, items[i]) == ps[i]
  }

  /** Every record resolves, through the final table, to the item that was pushed. */
  lemma {:induction false} InternAllResolves(ps: seq<WorkItemProto>)
    ensures ResolvesTo(InternAll(ps).0, InternAll(ps).1, ps)
    decreases |ps|
  {
    if ps != [] {
      var prefix := ps[..|ps| - 1];
      var p := ps[|ps| - 1];
      var (order, items) := InternAll(prefix);
      InternAllTable(prefix);
      InternAllResolves(prefix);
      InternItemProperties(order, p);
      var (order', item) := InternItem(order, p);
      ResolvesToExtended(order, order', items, item, prefix, p);
      assert prefix + [p] == ps;
    }
  }

  lemma ResolvesToExtended(order: seq<Text>, order': seq<Text>, items: seq<WorkItem>, item: WorkItem,
                           ps: seq<WorkItemProto>, p: WorkItemProto)
    requires ResolvesTo(order, items, ps) && order <= order'
    requires IndicesBelow(item, |order'|) && Resolve(order', item) == p
    ensures ResolvesTo(order', items + [item], ps + [p])
  {
    forall i | 0 <= i < |ps|
      ensures IndicesBelow(items[i], |order'|) && Resolve(order', items[i]) == ps[i]
    {
      ResolveInLongerTable(order, order', items[i]);
    }
  }

  /** Growing the table at the end leaves what an earlier record resolves to unchanged. */
  lemma ResolveInLongerTable(order: seq<Text>, order': seq<Text>, w: WorkItem)
    requires order <= order' && IndicesBelow(w, |order|)
    ensures IndicesBelow(w, |order'|) && Resolve(order', w) == Resolve(order, w)
  {
    assert order'[w.categoryNameIdx] == order[w.categoryNameIdx];
    assert order'[w.workerNameIdx] == order[w.workerNameIdx];
    assert order'[w.routineNameIdx] == order[w.routineNameIdx];
    assert order'[w.commentNameIdx] == order[w.commentNameIdx];
  }

  lemma {:induction false} ItemRecordsAppend(ws: seq<WorkItem>, w: WorkItem)
    requires AllRepresentable(ws) && Representable(w)
    ensures AllRepresentable(ws + [w]) && ItemRecords(ws + [w]) == ItemRecords(ws) + ItemRecord(w)
    decreases |ws|
  {
    RepresentableSplit(ws, w);
    if ws != [] {
      var head, rest := ItemRecord(ws[0]), ItemRecords(ws[1..]);
      ItemRecordsAppend(ws[1..], w);
      assert ItemRecords(ws + [w]) == head + (rest + ItemRecord(w));
      Append(head, rest, ItemRecord(w));
    } else {
      assert (ws + [w])[1..] == [];
    }
  }

  /** Appending a representable item keeps every item representable, and so does dropping the first. */
  lemma RepresentableSplit(ws: seq<WorkItem>, w: WorkItem)
    requires AllRepresentable(ws) && Representable(w)
    ensures AllRepresentable(ws + [w])
    ensures ws != [] ==> AllRepresentable(ws[1..]) && (ws + [w])[0] == ws[0] && (ws + [w])[1..] == ws[1..] + [w]
  {
    var all := ws + [w];
    assert forall i :: 0 <= i < |all| ==> Representable(all[i]);
    if ws != [] {
      assert all[1..] == ws[1..] + [w];
      assert forall i :: 0 <= i < |ws[1..]| ==> ws[1..][i] == ws[i + 1];
    }
  }

  lemma {:induction false} StringRecordsAppend(d: seq<Text>, t: Text)
    requires ShortStrings(d) && |t| <= 255
    ensures ShortStrings(d + [t]) && StringRecords(d + [t]) == StringRecords(d) + StringRecord(t)
    decreases |d|
  {
    var all := d + [t];
    assert forall i :: 0 <= i < |all| ==> |all[i]| <= 255;
    if d != [] {
      assert all[1..] == d[1..] + [t];
      StringRecordsAppend(d[1..], t);
    } else {
      assert all[1..] == [];
    }
  }

  lemma Append(a: Text, b: Text, c: Text)
    ensures (a + b) + c == a + (b + c)
  {
  }

  /** The stream after the seven writes of `operator<<` has the record appended. */
  lemma RecordAppended(start: Text, f: Text, w: WorkItem)
    requires Representable(w)
    requires f == start + U64(w.startTimeNs) + U64(w.stopTimeNs)
      + U32(w.categoryNameIdx) + U32(w.workerNameIdx) + U32(w.routineNameIdx) + U32(w.commentNameIdx)
      + U32(w.taskId)
    ensures f == start + ItemRecord(w)
  {
    var a, b := U64(w.startTimeNs), U64(w.stopTimeNs);
    var c, d, e, g, h := U32(w.categoryNameIdx), U32(w.workerNameIdx), U32(w.routineNameIdx),
      U32(w.commentNameIdx), U32(w.taskId);
    Append(start, a, b);
    Append(start, a + b, c);
    Append(start, a + b + c, d);
    Append(start, a + b + c + d, e);
    Append(start, a + b + c + d + e, g);
    Append(start, a + b + c + d + e + g, h);
  }

  /** Four interning steps in field order are `InternItem`. */
  lemma InternItemSteps(o0: seq<Text>, o1: seq<Text>, o2: seq<Text>, o3: seq<Text>, o4: seq<Text>,
                        p: WorkItemProto, w: WorkItem)
    requires (o1, w.categoryNameIdx) == Intern(o0, p.categoryName)
    requires (o2, w.workerNameIdx) == Intern(o1, p.workerName)
    requires (o3, w.routineNameIdx) == Intern(o2, p.routineName)
    requires (o4, w.commentNameIdx) == Intern(o3, p.comment)
    requires w.startTimeNs == p.startTimeNs && w.stopTimeNs == p.stopTimeNs && w.taskId == p.taskId
    ensures InternItem(o0, p) == (o4, w)
  {
  }

  /** One more push: the table and records are those of interning the longer list. */
  lemma PushedState(ps: seq<WorkItemProto>, p: WorkItemProto, order: seq<Text>, items: seq<WorkItem>, w: WorkItem)
    requires InternAll(ps).1 == items && InternItem(InternAll(ps).0, p) == (order, w)
    ensures InternAll(ps + [p]) == (order, items + [w])
  {
    assert (ps + [p])[..|ps|] == ps;
  }

  /**
   * The writer's invariant over its state: the table and the records are what interning the
   * pushed items gives, the map indexes the table, and the stream is the banner and the records.
   */
  ghost predicate Consistent(protos: seq<WorkItemProto>, order: seq<Text>, items: seq<WorkItem>,
                             dictionary: map<Text, nat>, workItem0Pos: nat, head: Text, out: Text)
  {
    && (order, items) == InternAll(protos)
    && dictionary == IndexMap(order) && Distinct(order)
    && workItem0Pos == |head|
    && AllRepresentable(items)
    && out == head + ItemRecords(items)
  }

  /** What `operator<<` leaves: the interned record appended to the items and to the stream. */
  lemma Pushed(ps: seq<WorkItemProto>, p: WorkItemProto, order0: seq<Text>, order: seq<Text>, items: seq<WorkItem>, w: WorkItem,
               dictionary0: map<Text, nat>, dictionary: map<Text, nat>, workItem0Pos: nat, head: Text, out0: Text)
    requires Consistent(ps, order0, items, dictionary0, workItem0Pos, head, out0)
    requires InternItem(order0, p) == (order, w) && Representable(w)
    requires dictionary == IndexMap(order) && Distinct(order)
    ensures Consistent(ps + [p], order, items + [w], dictionary, workItem0Pos, head, out0 + ItemRecord(w))
    ensures IndicesBelow(w, |order|) && Resolve(order, w) == p
  {
    InternItemProperties(order0, p);
    PushedState(ps, p, order, items, w);
    ItemRecordsAppend(items, w);
    Append(head, ItemRecords(items), ItemRecord(w));
  }

  /** The stream after `Finish` is the whole file layout. */
  lemma FinishedBytes(head: Text, items: seq<WorkItem>, d: seq<Text>, body: Text, f: Text)
    requires AllRepresentable(items) && ShortStrings(d) && |d| < U32Limit
    requires |head| + ItemSize * |items| < U64Limit
    requires body == head + ItemRecords(items) + DictionaryChunk(d)
    requires f == body + Trailer(|head|, |head| + ItemSize * |items|)
    ensures f == FileBytes(head, items, d)
  {
  }

  /** Names, times and the task id that fit the record's fields. */
  predicate ProtoFits(p: WorkItemProto)
  {
    p.startTimeNs < U64Limit && p.stopTimeNs < U64Limit && p.taskId < U32Limit
  }

  /**
   * The loop of `OrderDictionaryDestructively`: every entry of the map is put in the slot its
   * index names. The map's values are a bijection onto its indices, so every slot is filled once
   * and the table comes back in first-seen order.
   */
  method OrderByIndex(dictionary: map<Text, nat>, ghost order: seq<Text>) returns (ordered: seq<Text>)
    requires dictionary == IndexMap(order) && Distinct(order)
    ensures ordered == order
  {
    IndexMapSize(order);
    var orderedDictionary := new Text[|dictionary|];
    var remaining := dictionary.Keys;
    while remaining != {}
      invariant orderedDictionary.Length == |order| && remaining <= dictionary.Keys
      invariant forall i :: 0 <= i < |order| && order[i] !in remaining ==> orderedDictionary[i] == order[i]
      decreases |remaining|
    {
      var text :| text in remaining;
      orderedDictionary[dictionary[text]] := text;
      remaining := remaining - {text};
      forall i | 0 <= i < |order| && order[i] == text
        ensures i == dictionary[text]
      {
        IndexOfDistinct(order, i);
      }
    }
    ordered := orderedDictionary[..];
  }

  class BinaryWriter {
    /** Everything the output stream holds; its length is the stream position `tellp`. */
    var out: Text
    /** `m_dictionary`. */
    var dictionary: map<Text, nat>
    /** `m_workItem0Pos`: where the first record starts. */
    var workItem0Pos: nat
    /** The stream up to and including the banner. */
    ghost var head: Text
    /** The items pushed so far. */
    ghost var protos: seq<WorkItemProto>
    /** The table by index and the records written, as interning `protos` gives them. */
    ghost var order: seq<Text>
    ghost var items: seq<WorkItem>

    ghost predicate Valid()
      reads this
    {
      Consistent(protos, order, items, dictionary, workItem0Pos, head, out)
    }

    /** Writes the banner after whatever `prior` the stream already held. */
    constructor(prior: Text)
      ensures Valid() && protos == [] && head == prior + Banner() && out == head
      ensures workItem0Pos == |prior| + BannerSize
      ensures dictionary == map[[] := 0]
    {
      out := prior + Banner();
      dictionary := map[[] := 0];
      workItem0Pos := |prior| + BannerSize;
      head := prior + Banner();
      protos := [];
      order := [[]];
      items := [];
      new;
      assert IndexMap([[]]) == map[[] := 0];
    }

    /** `IndexString`: the index of `t` in the table, adding it under the next index if new. */
    method IndexString(t: Text) returns (idx: nat)
      requires dictionary == IndexMap(order) && Distinct(order) && |order| < U32Limit
      modifies this
      ensures (order, idx) == Intern(old(order), t)
      ensures dictionary == IndexMap(order)
      ensures out == old(out) && workItem0Pos == old(workItem0Pos) && head == old(head)
      ensures protos == old(protos) && items == old(items)
    {
      IndexMapSize(order);
      idx := |dictionary|;
      if t in dictionary {
        idx := dictionary[t];
      } else {
        IndexMapAppend(order, t);
        dictionary := dictionary[t := idx];
        order := order + [t];
      }
    }

    /** `WriteTextIndexed`: the u32 index of `t` in the table, interning it first if new. */
    method WriteTextIndexed(t: Text) returns (idx: nat)
      requires dictionary == IndexMap(order) && Distinct(order) && |order| < U32Limit
      modifies this
      ensures (order, idx) == Intern(old(order), t)
      ensures dictionary == IndexMap(order) && Distinct(order) && old(order) <= order
      ensures |order| <= |old(order)| + 1 && idx < |order| && order[idx] == t
      ensures out == old(out) + U32(idx)
      ensures workItem0Pos == old(workItem0Pos) && head == old(head)
      ensures protos == old(protos) && items == old(items)
    {
      InternProperties(order, t);
      idx := IndexString(t);
      out := out + U32(idx);
    }

    /**
     * The seven writes of `operator<<`: the two times, the four name indices (interning the names
     * in field order) and the task id.
     */
    method WriteWorkItem(p: WorkItemProto) returns (w: WorkItem)
      requires dictionary == IndexMap(order) && Distinct(order) && |order| + 4 < U32Limit && ProtoFits(p)
      modifies this
      ensures InternItem(old(order), p) == (order, w) && Representable(w)
      ensures dictionary == IndexMap(order) && Distinct(order)
      ensures out == old(out) + ItemRecord(w)
      ensures workItem0Pos == old(workItem0Pos) && head == old(head)
      ensures protos == old(protos) && items == old(items)
    {
      ghost var order0 := order;
      ghost var start := out;
      out := out + U64(p.startTimeNs);
      out := out + U64(p.stopTimeNs);
      var category := WriteTextIndexed(p.categoryName);
      ghost var order1 := order;
      var worker := WriteTextIndexed(p.workerName);
      ghost var order2 := order;
      var routine := WriteTextIndexed(p.routineName);
      ghost var order3 := order;
      var comment := WriteTextIndexed(p.comment);
      out := out + U32(p.taskId);
      w := WorkItem(p.startTimeNs, p.stopTimeNs, category, worker, routine, comment, p.taskId);
      RecordAppended(start, out, w);
      InternItemSteps(order0, order1, order2, order3, order, p, w);
    }

    /** `operator<<`: appends one record for `p`. */
    method Push(p: WorkItemProto)
      requires Valid() && ProtoFits(p) && |order| + 4 < U32Limit
      modifies this
      ensures Valid() && protos == old(protos) + [p] && head == old(head) && workItem0Pos == old(workItem0Pos)
      ensures |items| == |old(items)| + 1 && items[..|old(items)|] == old(items)
      ensures out == old(out) + ItemRecord(items[|items| - 1])
      ensures IndicesBelow(items[|items| - 1], |order|) && Resolve(order, items[|items| - 1]) == p
    {
      ghost var order0, dictionary0, out0 := order, dictionary, out;
      var w := WriteWorkItem(p);
      Pushed(protos, p, order0, order, items, w, dictionary0, dictionary, workItem0Pos, head, out0);
      items := items + [w];
      protos := protos + [p];
      assert items[|items| - 1] == w && items[..|old(items)|] == old(items);
    }

    /**
     * `OrderDictionaryDestructively`: every entry of the map moved into the slot its index names,
     * in whatever order the entries come; the map is left empty.
     */
    method OrderDictionaryDestructively() returns (ordered: seq<Text>)
      requires dictionary == IndexMap(order) && Distinct(order)
      modifies this
      ensures ordered == old(order) && dictionary == map[]
      ensures out == old(out) && workItem0Pos == old(workItem0Pos) && head == old(head)
      ensures order == old(order) && protos == old(protos) && items == old(items)
    {
      ordered := OrderByIndex(dictionary, order);
      dictionary := map[];
    }

    /** `WriteTextImmediate`: a u8 length, then the bytes. */
    method WriteTextImmediate(t: Text)
      requires |t| <= 255
      modifies this
      ensures out == old(out) + StringRecord(t)
      ensures dictionary == old(dictionary) && workItem0Pos == old(workItem0Pos) && head == old(head)
      ensures order == old(order) && protos == old(protos) && items == old(items)
    {
      var textSize := |t|;
      out := out + U8(textSize);
      if textSize > 0 {
        out := out + t;
      } else {
        assert t == [];
      }
    }

    /** `WriteDictionaryDestructively`: the count, then each string; returns where it started. */
    method WriteDictionaryDestructively() returns (startPos: nat)
      requires dictionary == IndexMap(order) && Distinct(order) && |order| < U32Limit && ShortStrings(order)
      modifies this
      ensures order == old(order) && protos == old(protos) && items == old(items)
      ensures startPos == |old(out)| && out == old(out) + DictionaryChunk(order) && dictionary == map[]
      ensures workItem0Pos == old(workItem0Pos) && head == old(head)
    {
      startPos := |out|;
      var orderedDictionary := OrderDictionaryDestructively();
      var start := out;
      out := out + U32(|orderedDictionary|);
      var i := 0;
      assert orderedDictionary[..0] == [];
      while i < |orderedDictionary|
        invariant 0 <= i <= |orderedDictionary| && orderedDictionary == order
        invariant dictionary == map[] && workItem0Pos == old(workItem0Pos) && head == old(head)
        invariant protos == old(protos) && items == old(items)
        invariant out == start + U32(|order|) + StringRecords(order[..i])
        decreases |orderedDictionary| - i
      {
        WriteDictionaryEntry(orderedDictionary, i, start);
        i := i + 1;
      }
      assert order[..i] == order;
      Append(start, U32(|order|), StringRecords(order));
    }

    /** One turn of the loop of `WriteDictionaryDestructively`: entry `i` goes out as a string record. */
    method WriteDictionaryEntry(ordered: seq<Text>, i: nat, ghost start: Text)
      requires i < |ordered| && ShortStrings(ordered) && |ordered| < U32Limit
      requires out == start + U32(|ordered|) + StringRecords(ordered[..i])
      modifies this
      ensures out == start + U32(|ordered|) + StringRecords(ordered[..i + 1])
      ensures dictionary == old(dictionary) && workItem0Pos == old(workItem0Pos) && head == old(head)
      ensures order == old(order) && protos == old(protos) && items == old(items)
    {
      WriteTextImmediate(ordered[i]);
      StringRecordsAppend(ordered[..i], ordered[i]);
      assert ordered[..i + 1] == ordered[..i] + [ordered[i]];
    }

    /** `Finish`: the dictionary, then the trailer with the first record's and the dictionary's positions. */
    method Finish()
      requires Valid() && ShortStrings(order) && |order| < U32Limit && |out| < U64Limit
      modifies this
      ensures out == FileBytes(old(head), old(items), old(order)) && dictionary == map[]
      ensures protos == old(protos) && order == old(order) && items == old(items)
    {
      ghost var h, its, d := head, items, order;
      assert out == h + ItemRecords(its) && AllRepresentable(its) && workItem0Pos == |h|;
      var dictionaryPos := WriteDictionaryDestructively();
      ghost var body := out;
      assert body == h + ItemRecords(its) + DictionaryChunk(d);
      assert dictionaryPos == |h| + ItemSize * |its|;
      Append(body, U64(workItem0Pos), U64(dictionaryPos));
      out := out + U64(workItem0Pos);
      out := out + U64(dictionaryPos);
      assert out == body + Trailer(|h|, |h| + ItemSize * |its|);
      FinishedBytes(h, its, d, body, out);
    }
  }

  /** The names of an item, each short enough for `WriteTextImmediate`. */
  predicate NamesShort(p: WorkItemProto)
  {
    |p.categoryName| <= 255 && |p.workerName| <= 255 && |p.routineName| <= 255 && |p.comment| <= 255
  }

  lemma InternItemShort(order: seq<Text>, p: WorkItemProto)
    requires ShortStrings(order) && NamesShort(p)
    ensures ShortStrings(InternItem(order, p).0)
  {
    var o1 := Intern(order, p.categoryName).0;
    var o2 := Intern(o1, p.workerName).0;
    var o3 := Intern(o2, p.routineName).0;
    assert ShortStrings(o1) && ShortStrings(o2) && ShortStrings(o3);
  }

  /** The table holds only "" and names of the items, so it is short when the names are. */
  lemma {:induction false} InternAllShort(ps: seq<WorkItemProto>)
    requires forall i :: 0 <= i < |ps| ==> NamesShort(ps[i])
    ensures ShortStrings(InternAll(ps).0)
    decreases |ps|
  {
    if ps != [] {
      var prefix := ps[..|ps| - 1];
      InternAllShort(prefix);
      InternItemShort(InternAll(prefix).0, ps[|ps| - 1]);
    }
  }

  /** What the writer needs of a whole sequence of items: fields, names and positions that fit. */
  predicate TraceFits(prior: Text, ps: seq<WorkItemProto>)
  {
    && (forall i :: 0 <= i < |ps| ==> ProtoFits(ps[i]) && NamesShort(ps[i]))
    && 4 * |ps| + 1 < U32Limit
    && |prior| + BannerSize + ItemSize * |ps| < U64Limit
  }

  /** Under `TraceFits` the table and the records fit the file's fields. */
  lemma InternAllFits(prior: Text, ps: seq<WorkItemProto>)
    requires TraceFits(prior, ps)
    ensures ShortStrings(InternAll(ps).0) && |InternAll(ps).0| < U32Limit
    ensures AllRepresentable(InternAll(ps).1) && |InternAll(ps).1| == |ps|
  {
    InternAllTable(ps);
    InternAllShort(ps);
    InternAllResolves(ps);
    var (order, items) := InternAll(ps);
    forall i | 0 <= i < |items|
      ensures Representable(items[i])
    {
      assert ProtoFits(ps[i]) && Resolve(order, items[i]) == ps[i];
    }
  }

  /** The stream after a writer made on a stream holding `prior` has taken `ps` and finished. */
  function WrittenBytes(prior: Text, ps: seq<WorkItemProto>): (r: Text)
    requires TraceFits(prior, ps)
    ensures |r| > |prior| + BannerSize && r[..|prior|] == prior
  {
    InternAllFits(prior, ps);
    var f := FileBytes(prior + Banner(), InternAll(ps).1, InternAll(ps).0);
    assert f[..|prior|] == (prior + Banner())[..|prior|];
    f
  }

  /**
   * Round trip of the whole trace: the file a writer produces from `ps` reads back as the records
   * and the table, and every record resolves through the table to the item that was pushed.
   */
  lemma WrittenTraceReadsBack(prior: Text, ps: seq<WorkItemProto>)
    requires |ps| >= 1 && TraceFits(prior, ps)
    ensures ParseFile(WrittenBytes(prior, ps)) == Some(FileContent(InternAll(ps).1, InternAll(ps).0))
    ensures ResolvesTo(InternAll(ps).0, InternAll(ps).1, ps)
  {
    InternAllFits(prior, ps);
    InternAllResolves(ps);
    ReadFileBytes(prior + Banner(), InternAll(ps).1, InternAll(ps).0);
  }
}
