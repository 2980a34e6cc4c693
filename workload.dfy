/**
 * The analyser's `Workload` (workload.h, workload.cpp): the items of a trace file grouped per
 * worker name, each worker's items laid out on stack levels. `UpdateStackLevel` puts every item
 * on the lowest level that is free at its start, a level being free once the last item put on it
 * has stopped.
 */
module Workloads {
  import opened Bytes
  import opened Wrappers
  import TraceFile

  /** `Workload::WorkItem` (the float `durationRatio`, never set here, is left out). */
  datatype WorkItem = WorkItem(routineName: Text, startTimeNs: nat, stopTimeNs: nat, stackLevel: nat)

  /** The lowest level whose end time is at or before `start`; the stack size when there is none. */
  function FirstFree(ends: seq<nat>, start: nat): (l: nat)
    ensures l <= |ends|
    ensures l < |ends| ==> ends[l] <= start
    ensures forall k :: 0 <= k < l ==> ends[k] > start
  {
    if ends == [] then 0
    else if ends[0] <= start then 0
    else 1 + FirstFree(ends[1..], start)
  }

  /** The level of each item, and the end time of each level (`endTimesStack`). */
  datatype Layout = Layout(levels: seq<nat>, ends: seq<nat>)

  /** Placing one item on the lowest free level, pushing a new level when none is free. */
  function Step(prev: Layout, item: WorkItem): (r: Layout)
    ensures |r.levels| == |prev.levels| + 1
  {
    var l := FirstFree(prev.ends, item.startTimeNs);
    Layout(prev.levels + [l],
           if l < |prev.ends| then prev.ends[l := item.stopTimeNs] else prev.ends + [item.stopTimeNs])
  }

  /** The greedy layout `UpdateStackLevel` computes, item by item in vector order. */
  function Stack(items: seq<WorkItem>): (r: Layout)
    ensures |r.levels| == |items|
  {
    if items == [] then Layout([], [])
    else Step(Stack(items[..|items| - 1]), items[|items| - 1])
  }

  /** The items with their levels stored, truncated to the `uint8_t` field. */
  function Placed(items: seq<WorkItem>): (r: seq<WorkItem>)
    ensures |r| == |items|
  {
    var levels := Stack(items).levels;
    seq(|items|, i requires 0 <= i < |items| => items[i].(stackLevel := levels[i] % 256))
  }

  /** The stack grows by at most one level per item. */
  lemma {:induction false} StackGrowth(items: seq<WorkItem>)
    ensures |Stack(items).ends| <= |items|
  {
    if items != [] {
      StackGrowth(items[..|items| - 1]);
    }
  }

  /** The layout of a prefix is the prefix of the layout. */
  lemma {:induction false} StackPrefix(items: seq<WorkItem>, n: nat)
    requires n <= |items|
    ensures Stack(items[..n]).levels == Stack(items).levels[..n]
    decreases |items|
  {
    if n < |items| {
      var prefix := items[..|items| - 1];
      assert prefix[..n] == items[..n];
      StackPrefix(prefix, n);
    } else {
      assert items[..n] == items;
    }
  }

  /**
   * Each item goes on the lowest level free at its start: every lower level ends after the item
   * starts, and the chosen level, unless it is new, ended at or before it.
   */
  lemma LevelIsLowestFree(items: seq<WorkItem>, i: nat)
    requires i < |items|
    ensures var before := Stack(items[..i]).ends; var l := Stack(items).levels[i];
      && l <= |before|
      && (l < |before| ==> before[l] <= items[i].startTimeNs)
      && forall k :: 0 <= k < l ==> before[k] > items[i].startTimeNs
  {
    StackPrefix(items, i + 1);
    var prefix := items[..i + 1];
    assert prefix[..|prefix| - 1] == items[..i] && prefix[|prefix| - 1] == items[i];
    assert Stack(prefix) == Step(Stack(items[..i]), items[i]);
    assert Stack(items).levels[i] == Stack(prefix).levels[i];
  }

  /** No item with the same level comes between positions `i` and `j`. */
  predicate NoneBetween(levels: seq<nat>, i: nat, j: nat)
    requires i < |levels| && j <= |levels|
  {
    forall k :: i < k < j ==> levels[k] != levels[i]
  }

  /** Every level is below the stack size, and each level ends where its latest item stops. */
  predicate EndsTrack(items: seq<WorkItem>, r: Layout)
    requires |r.levels| == |items|
  {
    && (forall i :: 0 <= i < |items| ==> r.levels[i] < |r.ends|)
    && forall i :: 0 <= i < |items| && NoneBetween(r.levels, i, |items|) ==> r.ends[r.levels[i]] == items[i].stopTimeNs
  }

  /** An item starts no earlier than the previous item on its level stops. */
  predicate Separated(items: seq<WorkItem>, levels: seq<nat>)
    requires |levels| == |items|
  {
    forall i, j :: 0 <= i < j < |items| && levels[i] == levels[j] && NoneBetween(levels, i, j) ==>
      items[i].stopTimeNs <= items[j].startTimeNs
  }

  /** Placing an item keeps every level below the stack size and each level's end time. */
  lemma EndsTrackStep(prefix: seq<WorkItem>, x: WorkItem, prev: Layout)
    requires |prev.levels| == |prefix| && EndsTrack(prefix, prev)
    ensures EndsTrack(prefix + [x], Step(prev, x))
  {
    var items := prefix + [x];
    var n := |prefix|;
    var r := Step(prev, x);
    var l := FirstFree(prev.ends, x.startTimeNs);
    assert r.levels == prev.levels + [l];
    forall i | 0 <= i < n && NoneBetween(r.levels, i, |items|)
      ensures r.ends[r.levels[i]] == items[i].stopTimeNs
    {
      assert r.levels[n] != r.levels[i];
      NoneBetweenPrefix(prev.levels, l, i, n);
    }
  }

  /** A level run that has no same-level item between its ends in the extended layout has none before. */
  lemma NoneBetweenPrefix(levels: seq<nat>, l: nat, i: nat, j: nat)
    requires i < j <= |levels| && NoneBetween(levels + [l], i, j)
    ensures NoneBetween(levels, i, j)
  {
    forall k | i < k < j
      ensures levels[k] != levels[i]
    {
      assert (levels + [l])[k] == levels[k];
    }
  }

  /** The newly placed item starts no earlier than the latest earlier item on its level stops. */
  lemma SeparatedLast(prefix: seq<WorkItem>, x: WorkItem, prev: Layout, i: nat)
    requires |prev.levels| == |prefix| && EndsTrack(prefix, prev) && i < |prefix|
    requires Step(prev, x).levels[i] == Step(prev, x).levels[|prefix|]
    requires NoneBetween(Step(prev, x).levels, i, |prefix|)
    ensures prefix[i].stopTimeNs <= x.startTimeNs
  {
    var l := FirstFree(prev.ends, x.startTimeNs);
    assert Step(prev, x).levels == prev.levels + [l];
    NoneBetweenPrefix(prev.levels, l, i, |prefix|);
    assert prev.levels[i] == l;
  }

  /** A placed item starts no earlier than the latest item on its level stops. */
  lemma SeparatedStep(prefix: seq<WorkItem>, x: WorkItem, prev: Layout)
    requires |prev.levels| == |prefix| && EndsTrack(prefix, prev) && Separated(prefix, prev.levels)
    ensures Separated(prefix + [x], Step(prev, x).levels)
  {
    var items := prefix + [x];
    var n := |prefix|;
    var r := Step(prev, x);
    var l := FirstFree(prev.ends, x.startTimeNs);
    assert r.levels == prev.levels + [l];
    forall i, j | 0 <= i < j < |items| && r.levels[i] == r.levels[j] && NoneBetween(r.levels, i, j)
      ensures items[i].stopTimeNs <= items[j].startTimeNs
    {
      if j < n {
        NoneBetweenPrefix(prev.levels, l, i, j);
        assert prefix[i] == items[i] && prefix[j] == items[j];
      } else {
        SeparatedLast(prefix, x, prev, i);
      }
    }
  }

  /**
   * Items on one level never overlap: each starts at or after the stop of the item before it on
   * that level. Every level is below the stack size, and a level's end time is the stop of the
   * latest item on it.
   */
  lemma {:induction false} StackSeparates(items: seq<WorkItem>)
    ensures EndsTrack(items, Stack(items)) && Separated(items, Stack(items).levels)
  {
    if items != [] {
      var prefix := items[..|items| - 1];
      StackSeparates(prefix);
      EndsTrackStep(prefix, items[|items| - 1], Stack(prefix));
      SeparatedStep(prefix, items[|items| - 1], Stack(prefix));
      assert prefix + [items[|items| - 1]] == items;
    }
  }

  /** Every item starts no later than it stops. */
  predicate WellTimed(items: seq<WorkItem>)
  {
    forall k :: 0 <= k < |items| ==> items[k].startTimeNs <= items[k].stopTimeNs
  }

  /**
   * Separation of consecutive items carries over to any two items of a level when every item
   * starts no later than it stops: each item in between stops after it starts.
   */
  lemma {:induction false} SameLevelOrdered(items: seq<WorkItem>, levels: seq<nat>, i: nat, j: nat)
    requires |levels| == |items| && Separated(items, levels) && WellTimed(items)
    requires i < j < |items| && levels[i] == levels[j]
    ensures items[i].stopTimeNs <= items[j].startTimeNs
    decreases j - i
  {
    if !NoneBetween(levels, i, j) {
      var k :| i < k < j && levels[k] == levels[i];
      SameLevelOrdered(items, levels, i, k);
      SameLevelOrdered(items, levels, k, j);
    }
  }

  /** In the layout of items that start no later than they stop, no two items of a level overlap. */
  lemma StackDisjoint(items: seq<WorkItem>)
    requires WellTimed(items)
    ensures forall i, j :: 0 <= i < j < |items| && Stack(items).levels[i] == Stack(items).levels[j] ==>
      items[i].stopTimeNs <= items[j].startTimeNs
  {
    var levels := Stack(items).levels;
    StackSeparates(items);
    forall i, j | 0 <= i < j < |items| && levels[i] == levels[j]
      ensures items[i].stopTimeNs <= items[j].startTimeNs
    {
      SameLevelOrdered(items, levels, i, j);
    }
  }

  /** Every level the layout hands out is below the stack size. */
  lemma StackLevelsBelow(items: seq<WorkItem>)
    ensures forall i :: 0 <= i < |items| ==> Stack(items).levels[i] < |Stack(items).ends|
  {
    StackSeparates(items);
  }

  /**
   * Up to the `uint8_t` truncation: with fewer than 256 levels every stored level is below
   * `stackLevels`, the stored stack size.
   */
  lemma LevelsBelowCount(items: seq<WorkItem>)
    requires |Stack(items).ends| < 256
    ensures forall i :: 0 <= i < |items| ==> Placed(items)[i].stackLevel < |Stack(items).ends| % 256
  {
    var r := Stack(items);
    StackLevelsBelow(items);
    assert |r.ends| % 256 == |r.ends|;
    forall i | 0 <= i < |items|
      ensures Placed(items)[i].stackLevel < |r.ends|
    {
      assert r.levels[i] < |r.ends|;
      assert Placed(items)[i].stackLevel == r.levels[i] % 256 == r.levels[i];
    }
  }

  /** `Workload::Worker`: updated in place by `UpdateStackLevel`. */
  class Worker {
    const name: Text
    var workItems: seq<WorkItem>
    var stackLevels: nat

    /** `Workload::Worker{workerName}`. */
    constructor(name: Text)
      ensures this.name == name && workItems == [] && stackLevels == 0
    {
      this.name := name;
      workItems := [];
      stackLevels := 0;
    }
  }

  /** Laying out one more item extends the layout by that item's `Step`. */
  lemma PlacedStep(items: seq<WorkItem>, i: nat)
    requires i < |items|
    ensures Stack(items[..i + 1]) == Step(Stack(items[..i]), items[i])
    ensures Placed(items[..i + 1]) == Placed(items[..i])
      + [items[i].(stackLevel := FirstFree(Stack(items[..i]).ends, items[i].startTimeNs) % 256)]
  {
    var before, after := items[..i], items[..i + 1];
    assert after[..i] == before;
    var l := FirstFree(Stack(before).ends, items[i].startTimeNs);
    assert Stack(after).levels == Stack(before).levels + [l];
    var expected := Placed(before) + [items[i].(stackLevel := l % 256)];
    forall j | 0 <= j < i + 1
      ensures Placed(after)[j] == expected[j]
    {
      assert after[j] == items[j];
      if j < i {
        assert before[j] == items[j];
      }
    }
  }

  /** Storing the next item's level in a vector whose first `i` items are laid out. */
  lemma StoreLevel(done: seq<WorkItem>, items: seq<WorkItem>, i: nat, v: WorkItem)
    requires |done| == i < |items|
    ensures (done + items[i..])[i := v] == done + [v] + items[i + 1..]
  {
    assert items[i..] == [items[i]] + items[i + 1..];
  }

  /** One pass of `UpdateStackLevel`'s loop, in the terms the loop states it. */
  lemma PlaceStep(items: seq<WorkItem>, i: nat)
    requires i < |items|
    ensures var level := FirstFree(Stack(items[..i]).ends, items[i].startTimeNs);
      (Placed(items[..i]) + items[i..])[i := items[i].(stackLevel := level % 256)] == Placed(items[..i + 1]) + items[i + 1..] &&
      Step(Layout([], Stack(items[..i]).ends), items[i]).ends == Stack(items[..i + 1]).ends
  {
    var level := FirstFree(Stack(items[..i]).ends, items[i].startTimeNs);
    PlacedStep(items, i);
    StoreLevel(Placed(items[..i]), items, i, items[i].(stackLevel := level % 256));
  }

  /**
   * The inner loop of `UpdateStackLevel`: the first level whose last item has ended by the
   * time `workItem` starts, a new level pushed if none has, now ending with `workItem`.
   */
  method PushLevel(endTimesStack: seq<nat>, workItem: WorkItem) returns (stackLevel: nat, next: seq<nat>)
    ensures stackLevel == FirstFree(endTimesStack, workItem.startTimeNs)
    ensures next == Step(Layout([], endTimesStack), workItem).ends
  {
    ghost var level := FirstFree(endTimesStack, workItem.startTimeNs);
    next := endTimesStack;
    stackLevel := 0;
    while true
      invariant stackLevel <= level
      invariant next == endTimesStack || (next == endTimesStack + [0] && stackLevel == |endTimesStack|)
      decreases level - stackLevel
    {
      if stackLevel >= |next| {
        next := next + [0];
      }
      if workItem.startTimeNs >= next[stackLevel] {
        next := next[stackLevel := workItem.stopTimeNs];
        return;
      }
      stackLevel := stackLevel + 1;
    }
  }

  /**
   * `UpdateStackLevel`: only the items' `stackLevel` fields change, each to its greedy level
   * truncated to eight bits; `stackLevels` becomes the stack size, truncated likewise.
   */
  method UpdateStackLevel(worker: Worker)
    modifies worker
    ensures worker.workItems == Placed(old(worker.workItems))
    ensures worker.stackLevels == |Stack(old(worker.workItems)).ends| % 256
  {
    ghost var items := worker.workItems;
    var endTimesStack: seq<nat> := [];
    var i := 0;
    assert items[i..] == items;
    while i < |worker.workItems|
      invariant i <= |items| == |worker.workItems|
      invariant endTimesStack == Stack(items[..i]).ends
      invariant worker.workItems == Placed(items[..i]) + items[i..]
      decreases |items| - i
    {
      endTimesStack := PlaceItem(worker, endTimesStack, items, i);
      i := i + 1;
    }
    PlacedAll(items, i);
    worker.stackLevels := |endTimesStack| % 256;
  }

  /** Once the loop has gone through every item, the prefix is the whole list and nothing is left. */
  lemma PlacedAll(items: seq<WorkItem>, i: nat)
    requires i == |items|
    ensures Placed(items[..i]) + items[i..] == Placed(items) && Stack(items[..i]) == Stack(items)
  {
    assert items[..i] == items && items[i..] == [];
    assert Placed(items) + [] == Placed(items);
  }

  /** One pass of `UpdateStackLevel`'s loop: item `i` gets its level and the stack is updated. */
  method PlaceItem(worker: Worker, endTimesStack: seq<nat>, ghost items: seq<WorkItem>, i: nat) returns (next: seq<nat>)
    requires i < |items| && endTimesStack == Stack(items[..i]).ends
    requires worker.workItems == Placed(items[..i]) + items[i..]
    modifies worker
    ensures worker.stackLevels == old(worker.stackLevels)
    ensures next == Stack(items[..i + 1]).ends
    ensures worker.workItems == Placed(items[..i + 1]) + items[i + 1..] && |worker.workItems| == |items|
  {
    var workItem := worker.workItems[i];
    assert workItem == items[i];
    PlaceStep(items, i);
    var stackLevel;
    stackLevel, next := PushLevel(endTimesStack, workItem);
    worker.workItems := worker.workItems[i := workItem.(stackLevel := stackLevel % 256)];
  }

  /** `WorkItem::duration`: the difference of the two unsigned 64-bit times, wrapping around. */
  function Duration(w: WorkItem): (d: nat)
    requires w.startTimeNs < U64Limit && w.stopTimeNs < U64Limit
    ensures d < U64Limit
    ensures w.startTimeNs <= w.stopTimeNs ==> d == w.stopTimeNs - w.startTimeNs
    ensures w.stopTimeNs < w.startTimeNs ==> d == U64Limit - (w.startTimeNs - w.stopTimeNs)
  {
    (w.stopTimeNs - w.startTimeNs) % U64Limit
  }

  /** A dictionary entry seen through `c_str()`: everything before its first zero byte. */
  function CStr(s: Text): (r: Text)
    ensures r <= s && 0 !in r
    ensures |r| < |s| ==> s[|r|] == 0
  {
    if s == [] || s[0] == 0 then [] else [s[0]] + CStr(s[1..])
  }

  /** An unsigned 64-bit time stored in the signed 64-bit `startTimeNs`, wrapping modulo 2^64. */
  function Int64Of(v: nat): (r: int)
    requires v < U64Limit
    ensures r < U64Limit / 2 && r + U64Limit / 2 >= 0
    ensures r % U64Limit == v
  {
    if v < U64Limit / 2 then v else v - U64Limit
  }

  /** Every dictionary index in the records is in range: the source indexes the dictionary unchecked. */
  predicate IndicesValid(f: TraceFile.FileContent)
  {
    IndicesIn(f.dictionary, f.workItems)
  }

  /** Every worker and routine index of `ws` names an entry of `d`. */
  predicate IndicesIn(d: seq<Text>, ws: seq<TraceFile.WorkItem>)
  {
    forall k :: 0 <= k < |ws| ==> ws[k].workerNameIdx < |d| && ws[k].routineNameIdx < |d|
  }

  /** The worker name of a record, as the map key compares it. */
  function WorkerName(d: seq<Text>, w: TraceFile.WorkItem): Text
    requires w.workerNameIdx < |d|
  {
    CStr(d[w.workerNameIdx])
  }

  /** A record converted to the analyser's item, on level 0 until laid out. */
  function Converted(d: seq<Text>, w: TraceFile.WorkItem): (r: WorkItem)
    requires w.routineNameIdx < |d|
    ensures r.startTimeNs == w.startTimeNs && r.stopTimeNs == w.stopTimeNs && r.stackLevel == 0
  {
    WorkItem(CStr(d[w.routineNameIdx]), w.startTimeNs, w.stopTimeNs, 0)
  }

  /** The worker names the records mention. */
  function WorkerNames(d: seq<Text>, ws: seq<TraceFile.WorkItem>): (r: set<Text>)
    requires IndicesIn(d, ws)
  {
    if ws == [] then {}
    else WorkerNames(d, ws[..|ws| - 1]) + {WorkerName(d, ws[|ws| - 1])}
  }

  /** Every record's worker is among the names, and every name is some record's worker. */
  lemma {:induction false} WorkerNamesExact(d: seq<Text>, ws: seq<TraceFile.WorkItem>, name: Text)
    requires IndicesIn(d, ws)
    ensures name in WorkerNames(d, ws) <==> exists k :: 0 <= k < |ws| && WorkerName(d, ws[k]) == name
  {
    if ws != [] {
      var prefix := ws[..|ws| - 1];
      WorkerNamesExact(d, prefix, name);
      if exists k :: 0 <= k < |prefix| && WorkerName(d, prefix[k]) == name {
        var k :| 0 <= k < |prefix| && WorkerName(d, prefix[k]) == name;
        assert ws[k] == prefix[k];
      }
      if exists k :: 0 <= k < |ws| && WorkerName(d, ws[k]) == name {
        var k :| 0 <= k < |ws| && WorkerName(d, ws[k]) == name;
        if k < |prefix| {
          assert ws[k] == prefix[k];
        }
      }
    }
  }

  /** The items of worker `name`, converted, in file order. */
  function ItemsOf(d: seq<Text>, ws: seq<TraceFile.WorkItem>, name: Text): (r: seq<WorkItem>)
    requires IndicesIn(d, ws)
    ensures |r| <= |ws|
  {
    if ws == [] then []
    else
      var last := ws[|ws| - 1];
      ItemsOf(d, ws[..|ws| - 1], name) + if WorkerName(d, last) == name then [Converted(d, last)] else []
  }

  /** A worker exists exactly for the names whose list of items is not empty. */
  lemma {:induction false} ItemsOfNonEmpty(d: seq<Text>, ws: seq<TraceFile.WorkItem>, name: Text)
    requires IndicesIn(d, ws)
    ensures name in WorkerNames(d, ws) <==> ItemsOf(d, ws, name) != []
  {
    if ws != [] {
      ItemsOfNonEmpty(d, ws[..|ws| - 1], name);
    }
  }

  /** The number of items over a list of worker names. */
  function CountOver(d: seq<Text>, ws: seq<TraceFile.WorkItem>, names: seq<Text>): nat
    requires IndicesIn(d, ws)
  {
    if names == [] then 0 else |ItemsOf(d, ws, names[0])| + CountOver(d, ws, names[1..])
  }

  /** One more record adds one item to the count over any duplicate-free list holding its worker. */
  lemma {:induction false} CountOverStep(d: seq<Text>, ws: seq<TraceFile.WorkItem>, names: seq<Text>)
    requires ws != [] && IndicesIn(d, ws)
    requires forall i, j :: 0 <= i < j < |names| ==> names[i] != names[j]
    ensures CountOver(d, ws, names) == CountOver(d, ws[..|ws| - 1], names)
      + if WorkerName(d, ws[|ws| - 1]) in names then 1 else 0
  {
    if names != [] {
      CountOverStep(d, ws, names[1..]);
      assert WorkerName(d, ws[|ws| - 1]) in names[1..] ==> WorkerName(d, ws[|ws| - 1]) != names[0];
      assert forall n :: n in names[1..] ==> n in names;
      assert WorkerName(d, ws[|ws| - 1]) in names ==> WorkerName(d, ws[|ws| - 1]) == names[0] || WorkerName(d, ws[|ws| - 1]) in names[1..];
    }
  }

  /** Every record lands in exactly one worker: over all workers the item counts add up to the records. */
  lemma {:induction false} ItemsCounted(d: seq<Text>, ws: seq<TraceFile.WorkItem>, names: seq<Text>)
    requires IndicesIn(d, ws)
    requires forall i, j :: 0 <= i < j < |names| ==> names[i] != names[j]
    requires WorkerNames(d, ws) <= set n | n in names
    ensures CountOver(d, ws, names) == |ws|
  {
    if ws == [] {
      EmptyCount(d, names);
    } else {
      var prefix := ws[..|ws| - 1];
      ItemsCounted(d, prefix, names);
      CountOverStep(d, ws, names);
      assert WorkerName(d, ws[|ws| - 1]) in WorkerNames(d, ws);
    }
  }

  /** With no records every count is zero. */
  lemma {:induction false} EmptyCount(d: seq<Text>, names: seq<Text>)
    ensures CountOver(d, [], names) == 0
  {
    if names != [] {
      EmptyCount(d, names[1..]);
    }
  }

  /** `Workload`: the dictionary, the workers by name, and the first record's start. */
  class Workload {
    var dictionary: seq<Text>
    var workers: map<Text, Worker>
    /** `None` where the source leaves the field uninitialised (no records). */
    var startTimeNs: Option<int>

    constructor()
      ensures dictionary == [] && workers == map[] && startTimeNs == None
    {
      dictionary := [];
      workers := map[];
      startTimeNs := None;
    }
  }

  /** Distinct names own distinct workers, each carrying its own name. */
  predicate Owned(workers: map<Text, Worker>)
  {
    && (forall n :: n in workers ==> workers[n].name == n)
    && forall m, n :: m in workers && n in workers && m != n ==> workers[m] != workers[n]
  }

  /** One more record appends its converted item to its worker's list and leaves the others alone. */
  lemma ItemsOfStep(d: seq<Text>, ws: seq<TraceFile.WorkItem>, k: nat)
    requires k < |ws| && IndicesIn(d, ws)
    ensures IndicesIn(d, ws[..k + 1]) && IndicesIn(d, ws[..k])
    ensures WorkerNames(d, ws[..k + 1]) == WorkerNames(d, ws[..k]) + {WorkerName(d, ws[k])}
    ensures ItemsOf(d, ws[..k + 1], WorkerName(d, ws[k])) == ItemsOf(d, ws[..k], WorkerName(d, ws[k])) + [Converted(d, ws[k])]
    ensures forall n :: n != WorkerName(d, ws[k]) ==> ItemsOf(d, ws[..k + 1], n) == ItemsOf(d, ws[..k], n)
  {
    assert ws[..k + 1][..k] == ws[..k];
  }

  /** `workers.find`, and on a miss `workers.insert` of a fresh `Worker{workerName}`. */
  method FindOrInsert(workers: map<Text, Worker>, workerName: Text) returns (found: map<Text, Worker>, worker: Worker)
    requires Owned(workers)
    ensures Owned(found) && found.Keys == workers.Keys + {workerName}
    ensures workerName in workers ==> found == workers && worker == workers[workerName]
    ensures workerName !in workers ==>
      fresh(worker) && found == workers[workerName := worker] && worker.workItems == [] && worker.stackLevels == 0
  {
    if workerName in workers {
      found, worker := workers, workers[workerName];
    } else {
      worker := new Worker(workerName);
      found := workers[workerName := worker];
    }
  }

  /** The workers hold exactly the records of `ws`, grouped by name in file order. */
  predicate Grouped(workers: map<Text, Worker>, d: seq<Text>, ws: seq<TraceFile.WorkItem>)
    requires IndicesIn(d, ws)
    reads set n | n in workers :: workers[n]
  {
    && workers.Keys == WorkerNames(d, ws) && Owned(workers)
    && forall n :: n in workers ==> workers[n].workItems == ItemsOf(d, ws, n)
  }

  /** One pass of the first loop of `BuildWorkload`: find or create the record's worker and append the record. */
  method AddRecord(workers: map<Text, Worker>, dictionary: seq<Text>, ws: seq<TraceFile.WorkItem>, k: nat)
    returns (grown: map<Text, Worker>)
    requires k < |ws| && IndicesIn(dictionary, ws) && IndicesIn(dictionary, ws[..k])
    requires Grouped(workers, dictionary, ws[..k])
    modifies set n | n in workers :: workers[n]
    ensures IndicesIn(dictionary, ws[..k + 1]) && Grouped(grown, dictionary, ws[..k + 1])
    ensures forall n :: n in grown ==> (n in workers && grown[n] == workers[n]) || fresh(grown[n])
  {
    ItemsOfStep(dictionary, ws, k);
    var workerName := CStr(dictionary[ws[k].workerNameIdx]);
    ItemsOfNonEmpty(dictionary, ws[..k], workerName);
    var worker;
    grown, worker := FindOrInsert(workers, workerName);
    var routineName := CStr(dictionary[ws[k].routineNameIdx]);
    worker.workItems := worker.workItems + [WorkItem(routineName, ws[k].startTimeNs, ws[k].stopTimeNs, 0)];
    forall n | n in grown
      ensures grown[n].workItems == ItemsOf(dictionary, ws[..k + 1], n)
    {
      if n != workerName {
        assert grown[n] != worker;
      }
    }
  }

  /** The first loop of `BuildWorkload`: a worker per name, created on first sight, items appended in file order. */
  method GroupByWorker(dictionary: seq<Text>, ws: seq<TraceFile.WorkItem>) returns (workers: map<Text, Worker>)
    requires IndicesIn(dictionary, ws)
    ensures Grouped(workers, dictionary, ws)
    ensures forall n :: n in workers ==> fresh(workers[n])
  {
    workers := map[];
    var k := 0;
    while k < |ws|
      invariant k <= |ws| && IndicesIn(dictionary, ws[..k])
      invariant Grouped(workers, dictionary, ws[..k])
      invariant forall n :: n in workers ==> fresh(workers[n])
    {
      workers := AddRecord(workers, dictionary, ws, k);
      k := k + 1;
    }
    assert ws[..k] == ws;
  }

  /** The second loop of `BuildWorkload`: `UpdateStackLevel` on every worker, each left otherwise alone. */
  method LayOutWorkers(workers: map<Text, Worker>, ghost dictionary: seq<Text>, ghost ws: seq<TraceFile.WorkItem>)
    requires IndicesIn(dictionary, ws) && Owned(workers)
    requires forall n :: n in workers ==> workers[n].workItems == ItemsOf(dictionary, ws, n)
    modifies set n | n in workers :: workers[n]
    ensures Owned(workers)
    ensures forall n :: n in workers ==>
      && workers[n].workItems == Placed(ItemsOf(dictionary, ws, n))
      && workers[n].stackLevels == |Stack(ItemsOf(dictionary, ws, n)).ends| % 256
  {
    var remaining := workers.Keys;
    while remaining != {}
      invariant remaining <= workers.Keys && Owned(workers)
      invariant forall n :: n in remaining ==> workers[n].workItems == ItemsOf(dictionary, ws, n)
      invariant forall n :: n in workers && n !in remaining ==>
        && workers[n].workItems == Placed(ItemsOf(dictionary, ws, n))
        && workers[n].stackLevels == |Stack(ItemsOf(dictionary, ws, n)).ends| % 256
      decreases |remaining|
    {
      var n :| n in remaining;
      LayOutWorker(workers, dictionary, ws, remaining, n);
      remaining := remaining - {n};
    }
  }

  /** One turn of that loop: worker `n` is laid out and the other workers keep their lists. */
  method LayOutWorker(workers: map<Text, Worker>, ghost dictionary: seq<Text>, ghost ws: seq<TraceFile.WorkItem>,
                      ghost remaining: set<Text>, n: Text)
    requires IndicesIn(dictionary, ws) && Owned(workers) && n in remaining && remaining <= workers.Keys
    requires forall m :: m in remaining ==> workers[m].workItems == ItemsOf(dictionary, ws, m)
    requires forall m :: m in workers && m !in remaining ==>
      && workers[m].workItems == Placed(ItemsOf(dictionary, ws, m))
      && workers[m].stackLevels == |Stack(ItemsOf(dictionary, ws, m)).ends| % 256
    modifies workers[n]
    ensures forall m :: m in remaining - {n} ==> workers[m].workItems == ItemsOf(dictionary, ws, m)
    ensures forall m :: m in workers && m !in remaining - {n} ==>
      && workers[m].workItems == Placed(ItemsOf(dictionary, ws, m))
      && workers[m].stackLevels == |Stack(ItemsOf(dictionary, ws, m)).ends| % 256
  {
    UpdateStackLevel(workers[n]);
  }

  /**
   * `BuildWorkload`: the dictionary moves over unchanged; `startTimeNs` is the first record's
   * start when there is one; there is one worker per worker name, holding that worker's records
   * in file order, laid out by `UpdateStackLevel`.
   */
  method BuildWorkload(fileContent: TraceFile.FileContent) returns (workload: Workload)
    requires IndicesValid(fileContent)
    requires fileContent.workItems != [] ==> fileContent.workItems[0].startTimeNs < U64Limit
    ensures fresh(workload)
    ensures workload.dictionary == fileContent.dictionary
    ensures workload.startTimeNs ==
      if fileContent.workItems == [] then None else Some(Int64Of(fileContent.workItems[0].startTimeNs))
    ensures workload.workers.Keys == WorkerNames(fileContent.dictionary, fileContent.workItems)
    ensures Owned(workload.workers)
    ensures forall n :: n in workload.workers ==>
      && fresh(workload.workers[n])
      && workload.workers[n].workItems == Placed(ItemsOf(fileContent.dictionary, fileContent.workItems, n))
      && workload.workers[n].stackLevels == |Stack(ItemsOf(fileContent.dictionary, fileContent.workItems, n)).ends| % 256
  {
    workload := new Workload();
    workload.dictionary := fileContent.dictionary;
    if fileContent.workItems != [] {
      workload.startTimeNs := Some(Int64Of(fileContent.workItems[0].startTimeNs));
    }
    var workers := GroupByWorker(workload.dictionary, fileContent.workItems);
    LayOutWorkers(workers, workload.dictionary, fileContent.workItems);
    workload.workers := workers;
  }
}
