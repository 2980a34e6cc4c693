/**
 * `profane::PerfLogger<ActorBasedTraits>` and its `Tracer`: a vector of pre-sized event slots and a
 * claim counter. `TraceEvent` claims the next slot and stamps its start; the returned `Tracer`
 * stamps the stop. `Finish` turns the claimed slots into work items and writes them with a
 * `BinaryWriter`. The counter is an ordinary field here and `Clock::now()` is the parameter `now`;
 * time points are their nanosecond counts since the clock's epoch.
 */
module Logger {
  import opened Bytes
  import opened Wrappers
  import opened TraceFile
  import opened Writer

  /** The byte '.'. */
  const Dot: byte := 46

  /** `ActorBasedTraits::EventData`; `workerRoutineName` is None for a `nullptr` name. */
  datatype EventData = EventData(workerRoutineName: Option<Text>, workerId: int, taskId: nat)

  /** A value-initialised `EventData`. */
  const NoData: EventData := EventData(None, 0, 0)

  /** The two halves of a "Worker.Routine" name. */
  datatype NameParts = NameParts(worker: Text, routine: Text)

  /** Index of the first '.' of `s`. */
  function FirstDot(s: Text): (k: nat)
    requires Dot in s
    ensures k < |s| && s[k] == Dot && Dot !in s[..k]
  {
    if s[0] == Dot then 0
    else
      var k := 1 + FirstDot(s[1..]);
      assert s[..k] == [s[0]] + s[1..][..k - 1];
      k
  }

  /**
   * `SplitWorkerRoutineName`: the worker is everything before the first '.', the routine
   * everything after it (further dots included). A name without '.' fails the source's assertion.
   */
  function SplitWorkerRoutineName(name: Text): (r: NameParts)
    requires Dot in name
    ensures r.worker + [Dot] + r.routine == name && Dot !in r.worker
  {
    var k := FirstDot(name);
    assert name == name[..k] + [Dot] + name[k + 1..];
    NameParts(name[..k], name[k + 1..])
  }

  /** Splitting undoes joining with '.' whenever the worker name holds no dot. */
  lemma SplitJoin(worker: Text, routine: Text)
    requires Dot !in worker
    ensures Dot in worker + [Dot] + routine
    ensures SplitWorkerRoutineName(worker + [Dot] + routine) == NameParts(worker, routine)
  {
    var name := worker + [Dot] + routine;
    assert name[|worker|] == Dot;
    var r := SplitWorkerRoutineName(name);
    assert |r.worker| <= |worker|;
    assert |r.worker| >= |worker|;
    assert r.worker == name[..|worker|] == worker;
    assert r.routine == name[|worker| + 1..] == routine;
  }

  /** The source's demand on an event's name: a non-null "Worker.Routine" string. */
  predicate HasParts(data: EventData)
  {
    data.workerRoutineName.Some? && Dot in data.workerRoutineName.value
  }

  /** `ActorBasedTraits::OnWorkItem`: the name's halves become the item's worker and routine. */
  function OnWorkItem(data: EventData, proto: WorkItemProto): (r: WorkItemProto)
    requires HasParts(data)
    ensures r.workerName + [Dot] + r.routineName == data.workerRoutineName.value && Dot !in r.workerName
    ensures r == proto.(workerName := r.workerName, routineName := r.routineName)
  {
    var parts := SplitWorkerRoutineName(data.workerRoutineName.value);
    proto.(workerName := parts.worker, routineName := parts.routine)
  }

  /** `PerfLogger::Event`: one slot of `m_events`. */
  datatype Slot = Slot(startTime: nat, stopTime: nat, data: EventData)

  /** A value-initialised slot, as `resize` makes it. */
  const EmptySlot: Slot := Slot(0, 0, NoData)

  /** How many slots `Finish` drains: the claims made, but no more than there are slots. */
  function DrainCount(count: nat, size: nat): (n: nat)
    ensures n <= count && n <= size && (n == count || n == size)
  {
    if count < size then count else size
  }

  /** A span still open at `Finish` (stop time zero) is closed at the finish time. */
  function Stamp(s: Slot, finishTime: nat): (r: Slot)
    ensures r.startTime == s.startTime && r.data == s.data
    ensures r.stopTime == (if s.stopTime == 0 then finishTime else s.stopTime)
  {
    if s.stopTime == 0 then s.(stopTime := finishTime) else s
  }

  /** The slots after `Finish` has closed the first `n`. */
  function StampAll(slots: seq<Slot>, n: nat, finishTime: nat): (r: seq<Slot>)
    ensures |r| == |slots|
    ensures forall i :: 0 <= i < |slots| ==> r[i] == if i < n then Stamp(slots[i], finishTime) else slots[i]
  {
    seq(|slots|, i requires 0 <= i < |slots| => if i < n then Stamp(slots[i], finishTime) else slots[i])
  }

  /** Closing one more slot changes that slot only, and only if it is open. */
  lemma StampAllStep(slots: seq<Slot>, n: nat, finishTime: nat)
    requires n < |slots|
    ensures StampAll(slots, n + 1, finishTime) == StampAll(slots, n, finishTime)[n := Stamp(slots[n], finishTime)]
    ensures StampAll(slots, n, finishTime)[n] == slots[n]
    ensures slots[n].stopTime != 0 ==> Stamp(slots[n], finishTime) == slots[n]
  {
  }

  /** The item `Finish` makes of a slot: its two times, the split name, nothing else. */
  function ToProto(s: Slot): (r: WorkItemProto)
    requires HasParts(s.data)
    ensures r.startTimeNs == s.startTime && r.stopTimeNs == s.stopTime
    ensures r.categoryName == [] && r.comment == [] && r.taskId == 0
    ensures r.workerName + [Dot] + r.routineName == s.data.workerRoutineName.value && Dot !in r.workerName
  {
    OnWorkItem(s.data, WorkItemProto(s.startTime, s.stopTime, [], [], [], [], 0))
  }

  /** The items `Finish` writes, in slot order. */
  function Drained(slots: seq<Slot>, count: nat, finishTime: nat): (r: seq<WorkItemProto>)
    requires forall i :: 0 <= i < DrainCount(count, |slots|) ==> HasParts(slots[i].data)
    ensures |r| == DrainCount(count, |slots|)
    ensures forall i :: 0 <= i < |r| ==> r[i] == ToProto(Stamp(slots[i], finishTime))
  {
    seq(DrainCount(count, |slots|), i requires 0 <= i < DrainCount(count, |slots|) => ToProto(Stamp(slots[i], finishTime)))
  }

  /** What `Finish` needs of a slot it drains: a splittable name with short halves, times that fit. */
  predicate SlotFits(s: Slot)
  {
    && HasParts(s.data)
    && |SplitWorkerRoutineName(s.data.workerRoutineName.value).worker| <= 255
    && |SplitWorkerRoutineName(s.data.workerRoutineName.value).routine| <= 255
    && s.startTime < U64Limit && s.stopTime < U64Limit
  }

  /** The drained slots fit, and so do the file positions and string indices of their trace. */
  predicate DrainFits(prior: Text, slots: seq<Slot>, count: nat, finishTime: nat)
  {
    var n := DrainCount(count, |slots|);
    && finishTime < U64Limit
    && (forall i :: 0 <= i < n ==> SlotFits(slots[i]))
    && 4 * n + 1 < U32Limit
    && |prior| + BannerSize + ItemSize * n < U64Limit
  }

  lemma DrainedFits(prior: Text, slots: seq<Slot>, count: nat, finishTime: nat)
    requires DrainFits(prior, slots, count, finishTime)
    ensures TraceFits(prior, Drained(slots, count, finishTime))
  {
    var ps := Drained(slots, count, finishTime);
    forall i | 0 <= i < |ps|
      ensures ProtoFits(ps[i]) && NamesShort(ps[i])
    {
      var s := slots[i];
      var name := s.data.workerRoutineName.value;
      SplitJoin(ps[i].workerName, ps[i].routineName);
      assert SplitWorkerRoutineName(name) == NameParts(ps[i].workerName, ps[i].routineName);
    }
  }

  /** The bytes `Finish` leaves in a stream that held `prior`. */
  function DrainedTrace(prior: Text, slots: seq<Slot>, count: nat, finishTime: nat): (r: Text)
    requires DrainFits(prior, slots, count, finishTime)
    ensures |r| > |prior| + BannerSize && r[..|prior|] == prior
  {
    DrainedFits(prior, slots, count, finishTime);
    WrittenBytes(prior, Drained(slots, count, finishTime))
  }

  /**
   * What `Finish` writes reads back as one record per drained slot, in slot order: its start
   * time, its stop time or the finish time for a span left open, an empty category and comment,
   * task id 0, and a worker and a routine name that rejoin with '.' into the slot's name.
   */
  lemma FinishedTraceReadsBack(prior: Text, slots: seq<Slot>, count: nat, finishTime: nat)
    requires DrainCount(count, |slots|) >= 1 && DrainFits(prior, slots, count, finishTime)
    ensures TraceFits(prior, Drained(slots, count, finishTime))
    ensures
      var table := InternAll(Drained(slots, count, finishTime)).0;
      var items := InternAll(Drained(slots, count, finishTime)).1;
      && ParseFile(WrittenBytes(prior, Drained(slots, count, finishTime))) == Some(FileContent(items, table))
      && |items| == DrainCount(count, |slots|)
      && forall i :: 0 <= i < |items| ==>
        && IndicesBelow(items[i], |table|)
        && items[i].startTimeNs == slots[i].startTime
        && items[i].stopTimeNs == (if slots[i].stopTime == 0 then finishTime else slots[i].stopTime)
        && table[items[i].categoryNameIdx] == [] && table[items[i].commentNameIdx] == []
        && items[i].taskId == 0
        && table[items[i].workerNameIdx] + [Dot] + table[items[i].routineNameIdx] == slots[i].data.workerRoutineName.value
  {
    var ps := Drained(slots, count, finishTime);
    DrainedFits(prior, slots, count, finishTime);
    WrittenTraceReadsBack(prior, ps);
    DrainedItems(prior, slots, count, finishTime, InternAll(ps).0, InternAll(ps).1);
  }

  /** Records that resolve to the drained slots carry each slot's times and its name split at the dot. */
  lemma DrainedItems(prior: Text, slots: seq<Slot>, count: nat, finishTime: nat, table: seq<Text>, items: seq<WorkItem>)
    requires DrainFits(prior, slots, count, finishTime)
    requires ResolvesTo(table, items, Drained(slots, count, finishTime))
    ensures |items| == DrainCount(count, |slots|)
    ensures forall i :: 0 <= i < |items| ==>
      && IndicesBelow(items[i], |table|)
      && items[i].startTimeNs == slots[i].startTime
      && items[i].stopTimeNs == (if slots[i].stopTime == 0 then finishTime else slots[i].stopTime)
      && table[items[i].categoryNameIdx] == [] && table[items[i].commentNameIdx] == []
      && items[i].taskId == 0
      && table[items[i].workerNameIdx] + [Dot] + table[items[i].routineNameIdx] == slots[i].data.workerRoutineName.value
  {
    var ps := Drained(slots, count, finishTime);
    forall i | 0 <= i < |items|
      ensures IndicesBelow(items[i], |table|) && Resolve(table, items[i]) == ToProto(Stamp(slots[i], finishTime))
    {
      assert ResolvesTo(table, items, ps);
    }
  }

  /** The body of the loop of `Finish` after the stamp: the slot becomes an item and is written. */
  method WriteSlot(writer: BinaryWriter, event: Slot)
    requires HasParts(event.data) && ProtoFits(ToProto(event))
    requires writer.Valid() && 4 * |writer.protos| + 5 < U32Limit
    modifies writer
    ensures writer.Valid() && writer.head == old(writer.head)
    ensures writer.protos == old(writer.protos) + [ToProto(event)]
  {
    InternAllTable(writer.protos);
    var proto := WorkItemProto(event.startTime, event.stopTime, [], [], [], [], 0);
    proto := OnWorkItem(event.data, proto);
    writer.Push(proto);
  }

  /** An output stream: the bytes it holds. */
  class Stream {
    var bytes: Text

    constructor(bytes: Text)
      ensures this.bytes == bytes
    {
      this.bytes := bytes;
    }
  }

  /**
   * `PerfLogger::Tracer`. Its `Event*` is the slot `eventIdx` of `logger`'s vector; `logger`
   * is null for an inert handle.
   */
  class Tracer {
    var logger: PerfLogger?
    var eventIdx: nat

    /** The slot the handle points at still exists. */
    predicate Points()
      reads this, logger
    {
      logger != null ==> eventIdx < |logger.events|
    }

    /** `Tracer() = default`: an inert handle. */
    constructor Inert()
      ensures logger == null
    {
      logger := null;
      eventIdx := 0;
    }

    /** The private `Tracer(Event*)` that `TraceEvent` uses. */
    constructor Of(logger: PerfLogger, eventIdx: nat)
      ensures this.logger == logger && this.eventIdx == eventIdx
    {
      this.logger := logger;
      this.eventIdx := eventIdx;
    }

    /** The move constructor: the new handle takes the slot and leaves `other` inert. */
    constructor Move(other: Tracer)
      modifies other
      ensures logger == old(other.logger) && eventIdx == old(other.eventIdx) && other.logger == null
    {
      logger := other.logger;
      eventIdx := other.eventIdx;
      new;
      other.logger := null;
    }

    /** `TraceStop`: stamps the slot's stop time, if there is a slot; nothing else changes. */
    method TraceStop(now: nat)
      requires Points()
      modifies logger
      ensures logger != null ==> logger.events == old(logger.events)[eventIdx := old(logger.events)[eventIdx].(stopTime := now)]
      ensures logger != null ==> logger.Unchanged(old(logger.out), old(logger.outFileName), old(logger.startTime), old(logger.eventCount))
    {
      if logger != null {
        logger.events := logger.events[eventIdx := logger.events[eventIdx].(stopTime := now)];
      }
    }

    /** `Stop`: stamps the slot and lets go of it, so a later `Stop` or the destructor does nothing. */
    method Stop(now: nat)
      requires Points()
      modifies this, logger
      ensures logger == null && eventIdx == old(eventIdx)
      ensures old(logger) != null ==>
        && old(logger).events == old(logger.events)[eventIdx := old(logger.events)[eventIdx].(stopTime := now)]
        && old(logger).Unchanged(old(logger.out), old(logger.outFileName), old(logger.startTime), old(logger.eventCount))
    {
      TraceStop(now);
      logger := null;
    }

    /** `~Tracer`: stamps the slot if the handle still holds one. */
    method Destroy(now: nat)
      requires Points()
      modifies logger
      ensures logger != null ==> logger.events == old(logger.events)[eventIdx := old(logger.events)[eventIdx].(stopTime := now)]
      ensures logger != null ==> logger.Unchanged(old(logger.out), old(logger.outFileName), old(logger.startTime), old(logger.eventCount))
    {
      TraceStop(now);
    }
  }

  class PerfLogger {
    /** `m_out`: the stream the trace goes to, null until enabled with one. */
    var out: Stream?
    /** `m_outFileName`. */
    var outFileName: Option<Text>
    /** `m_startTime`. */
    var startTime: nat
    /** `m_eventCount`: how many slots have been claimed, including claims past the last slot. */
    var eventCount: nat
    /** `m_events`. */
    var events: seq<Slot>

    /** Every field but `events` holds the given values. */
    predicate Unchanged(out0: Stream?, outFileName0: Option<Text>, startTime0: nat, eventCount0: nat)
      reads this
    {
      out == out0 && outFileName == outFileName0 && startTime == startTime0 && eventCount == eventCount0
    }

    constructor()
      ensures out == null && outFileName == None && startTime == 0 && eventCount == 0 && events == []
    {
      out := null;
      outFileName := None;
      startTime := 0;
      eventCount := 0;
      events := [];
    }

    /** `m_events.resize(count)`: the first slots are kept, any new ones are value-initialised. */
    method Resize(count: nat)
      modifies this
      ensures |events| == count
      ensures forall i :: 0 <= i < count ==> events[i] == if i < |old(events)| then old(events)[i] else EmptySlot
      ensures Unchanged(old(out), old(outFileName), old(startTime), old(eventCount))
    {
      if count <= |events| {
        events := events[..count];
      } else {
        events := events + seq(count - |events|, _ => EmptySlot);
      }
    }

    /** `Enable(std::ostream&, eventCount)`. */
    method EnableStream(stream: Stream, count: nat, now: nat)
      requires count < U32Limit && outFileName == None
      modifies this
      ensures out == stream && outFileName == None && startTime == now && eventCount == old(eventCount)
      ensures |events| == count
      ensures forall i :: 0 <= i < count ==> events[i] == if i < |old(events)| then old(events)[i] else EmptySlot
    {
      startTime := now;
      Resize(count);
      out := stream;
    }

    /** `Enable(const char*, eventCount)`. */
    method EnableFile(fileName: Text, count: nat, now: nat)
      requires count < U32Limit && out == null
      modifies this
      ensures out == null && outFileName == Some(fileName) && startTime == now && eventCount == old(eventCount)
      ensures |events| == count
      ensures forall i :: 0 <= i < count ==> events[i] == if i < |old(events)| then old(events)[i] else EmptySlot
    {
      startTime := now;
      Resize(count);
      outFileName := Some(fileName);
    }

    /**
     * `TraceEvent`: claims the slot numbered by the counter before the increment. Past the last
     * slot the handle is inert and no slot is touched; otherwise only that slot's start time and
     * data are set.
     */
    method TraceEvent(data: EventData, now: nat) returns (t: Tracer)
      requires eventCount + 1 < U32Limit
      modifies this
      ensures eventCount == old(eventCount) + 1
      ensures out == old(out) && outFileName == old(outFileName) && startTime == old(startTime)
      ensures fresh(t) && t.Points()
      ensures old(eventCount) >= |old(events)| ==> t.logger == null && events == old(events)
      ensures old(eventCount) < |old(events)| ==>
        && t.logger == this && t.eventIdx == old(eventCount)
        && events == old(events)[old(eventCount) := old(events)[old(eventCount)].(startTime := now, data := data)]
    {
      var eventIdx := eventCount;
      eventCount := eventCount + 1;
      if eventIdx >= |events| {
        t := new Tracer.Inert();
        return;
      }
      events := events[eventIdx := events[eventIdx].(startTime := now, data := data)];
      t := new Tracer.Of(this, eventIdx);
    }

    /** `Finish` closes a slot still open (stop time zero) at the finish time; the slot is returned. */
    method StampSlot(eventIdx: nat, finishTime: nat) returns (event: Slot)
      requires eventIdx < |events|
      modifies this
      ensures Unchanged(old(out), old(outFileName), old(startTime), old(eventCount))
      ensures event == Stamp(old(events)[eventIdx], finishTime)
      ensures events == old(events)[eventIdx := event]
    {
      event := events[eventIdx];
      if event.stopTime == 0 {
        event := event.(stopTime := finishTime);
        events := events[eventIdx := event];
      }
    }

    /** The loop of `Finish` over the slots it drains. */
    method Drain(writer: BinaryWriter, count: nat, finishTime: nat, ghost prior: Text)
      requires count == DrainCount(eventCount, |events|)
      requires DrainFits(prior, events, eventCount, finishTime)
      requires writer.Valid() && writer.protos == [] && writer.head == prior + Banner()
      modifies this, writer
      ensures Unchanged(old(out), old(outFileName), old(startTime), old(eventCount))
      ensures writer.Valid() && writer.head == prior + Banner()
      ensures writer.protos == Drained(old(events), eventCount, finishTime)
      ensures events == StampAll(old(events), count, finishTime)
    {
      ghost var slots := events;
      ghost var ps := Drained(slots, eventCount, finishTime);
      DrainedFits(prior, slots, eventCount, finishTime);
      var eventIdx := 0;
      while eventIdx < count
        invariant 0 <= eventIdx <= count
        invariant Unchanged(old(out), old(outFileName), old(startTime), old(eventCount))
        invariant writer.Valid() && writer.head == prior + Banner() && writer.protos == ps[..eventIdx]
        invariant events == StampAll(slots, eventIdx, finishTime)
        decreases count - eventIdx
      {
        DrainSlot(writer, eventIdx, count, finishTime, prior, slots, ps);
        eventIdx := eventIdx + 1;
      }
      assert ps[..eventIdx] == ps;
    }

    /** One turn of that loop: slot `eventIdx` is stamped and pushed to the writer. */
    method DrainSlot(writer: BinaryWriter, eventIdx: nat, count: nat, finishTime: nat,
                     ghost prior: Text, ghost slots: seq<Slot>, ghost ps: seq<WorkItemProto>)
      requires eventIdx < count == DrainCount(eventCount, |slots|)
      requires DrainFits(prior, slots, eventCount, finishTime)
      requires ps == Drained(slots, eventCount, finishTime) && TraceFits(prior, ps)
      requires writer.Valid() && writer.head == prior + Banner() && writer.protos == ps[..eventIdx]
      requires events == StampAll(slots, eventIdx, finishTime)
      modifies this, writer
      ensures Unchanged(old(out), old(outFileName), old(startTime), old(eventCount))
      ensures writer.Valid() && writer.head == prior + Banner() && writer.protos == ps[..eventIdx + 1]
      ensures events == StampAll(slots, eventIdx + 1, finishTime)
    {
      StampAllStep(slots, eventIdx, finishTime);
      var event := StampSlot(eventIdx, finishTime);
      WriteSlot(writer, event);
      PrefixExtend(ps, eventIdx);
    }

    /**
     * The part of `Finish` after the stream is chosen: a `BinaryWriter` on a stream holding
     * `prior` takes the drained slots and finishes; the stream's bytes are returned.
     */
    method WriteTrace(prior: Text, finishTime: nat) returns (bytes: Text)
      requires DrainFits(prior, events, eventCount, finishTime)
      modifies this
      ensures Unchanged(old(out), old(outFileName), old(startTime), old(eventCount))
      ensures events == StampAll(old(events), DrainCount(eventCount, |old(events)|), finishTime)
      ensures bytes == DrainedTrace(prior, old(events), eventCount, finishTime)
    {
      ghost var ps := Drained(events, eventCount, finishTime);
      DrainedFits(prior, events, eventCount, finishTime);
      var count := DrainCount(eventCount, |events|);
      var writer := new BinaryWriter(prior);
      Drain(writer, count, finishTime, prior);
      InternAllFits(prior, ps);
      writer.Finish();
      bytes := writer.out;
    }

    /**
     * `Finish`: with neither a stream nor a file name it does nothing. Otherwise it writes, to the
     * stream or to a newly created file, the trace of the first `min(eventCount, |events|)` slots
     * in slot order, closing open spans at `now`; those slots keep the stop time given to them.
     */
    method Finish(now: nat) returns (outFile: Stream?)
      requires out != null || outFileName.Some? ==>
        DrainFits(if out != null then out.bytes else [], events, eventCount, now)
      modifies this, out
      ensures eventCount == old(eventCount) && outFileName == old(outFileName) && startTime == old(startTime)
      ensures old(out) == null && old(outFileName).None? ==> outFile == null && out == null && events == old(events)
      ensures old(out) != null ==>
        && outFile == null && out == old(out)
        && out.bytes == DrainedTrace(old(out.bytes), old(events), eventCount, now)
      ensures old(out) == null && old(outFileName).Some? ==>
        && outFile != null && fresh(outFile) && out == outFile
        && outFile.bytes == DrainedTrace([], old(events), eventCount, now)
      ensures old(out) != null || old(outFileName).Some? ==>
        events == StampAll(old(events), DrainCount(eventCount, |old(events)|), now)
    {
      var stopTime := now;
      outFile := null;
      if out == null {
        if outFileName.None? {
          return;
        }
        outFile := new Stream([]);
        out := outFile;
      }
      var bytes := WriteTrace(out.bytes, stopTime);
      out.bytes := bytes;
    }
  }
}
