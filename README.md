# profane: a verified model of the tracer and of the analyser's core

profane is a small C++ performance tracer and an SDL viewer for its traces.

**The tracer.** `c++11-tracer/include/profane/profane.h` is header-only:

- A `PerfLogger` pre-allocates event slots.
- `TraceEvent` claims the next slot with an atomic counter and stamps its start.
- The returned `Tracer` stamps the stop.
- `Finish` turns the claimed slots into work items and writes them with a `bin::BinaryWriter`.

**The file layout** written by `bin::BinaryWriter`:

1. A 64-byte banner.
2. One packed 36-byte record per work item.
3. A dictionary: a u32 count, then strings, each with a u8 length.
4. A trailer: two u64 positions, pointing at the first record and at the dictionary.

The writer interns every name into the dictionary: the index of its first occurrence, with "" at index 0. `bin::Read` parses such a file back. The model follows this layout exactly as the header writes and reads it.

**The analyser** (`profane_analyser/`):

- Groups a file's records by worker (`BuildWorkload`).
- Stacks each worker's overlapping items greedily onto levels (`UpdateStackLevel`).
- Maps time to pixels with a camera that the mouse drags.
- Draws the visible blocks, merging one-pixel blocks in a deferred renderer.
- Formats durations and time points as text into a fixed character buffer written from the right.
- Caches the rendered inscriptions, sweeping out the stale ones every 30 frames.
- Parses its command line.
- Holds a table of named configuration properties.

**How the model is written.**

- One Dafny module per source component, each verified against a specification function.
- Work that the source does in place keeps its form: the writer, the logger, the tracer, the workload's workers, the camera, the deferred renderer, the text renderer's cache and the configuration are classes whose methods update their fields.
- The fixed-size character buffers of the two formatters are arrays.
- Loops are `while` loops with invariants.
- Integer widths are written out where the source truncates or wraps:
  - `uint8_t` stack levels are taken `% 256`;
  - `uint64_t` differences are reinterpreted as `int64_t`;
  - `std::stoi` results are converted to `uint32_t`;
  - C++ integer division truncates toward zero.
- Strings are byte sequences, so `µ` is its two UTF-8 bytes.
- Clocks, file names and number parsing (`atoi`, `atoll`, `stod`, `stoi`) are parameters.

**The central results.**

- `Writer.WrittenTraceReadsBack`: a stream written by the writer from any non-empty list of items reads back, through `bin::Read`, as the interned records and the dictionary. Every record resolves through the dictionary to the item that was pushed.
- `Logger.FinishedTraceReadsBack`: the file `PerfLogger::Finish` writes holds one record per claimed slot, with the stamped times and the worker and routine halves of the slot's name.
- `Workloads.StackSeparates`, `Workloads.StackDisjoint` and `Workloads.LevelIsLowestFree`: consecutive items on the same level of a worker never overlap; when every item starts no later than it stops, no two items on a level overlap; and each item takes the lowest level free at its start.
- `TimePoints.TimePointReadsBack`: a formatted time point reads back exactly as the number of nanoseconds.
- `TextRendering.CutNumberTruncates`: a formatted duration is cut to its significant digits, so its text reads back only as the quotient by the unit truncated to those digits, not as the exact duration.
- `Inscriptions.Retention`: states exactly when a cached inscription survives.
- `CommandLine.UnlexThenLex` and `CommandLine.ParseMeaning`: the command line's meaning, with the last occurrence of each option winning.

## Model

| member | source | states |
|---|---|---|
| Bytes.LittleEndian | c++11-tracer/include/profane/profane.h:154-158 | `Write` of an unsigned integer is its little-endian bytes, exactly `n` of them |
| Bytes.FromLittleEndianInverse | c++11-tracer/include/profane/profane.h:76-79 | reading back `n` little-endian bytes gives the value written (the trailer's and records' reinterpretation) |
| TraceFile.Banner | c++11-tracer/include/profane/profane.h:175-178 | the banner is 64 bytes |
| TraceFile.ItemRecord | c++11-tracer/include/profane/profane.h:57-66 | a packed `FileContent::WorkItem` is 36 bytes: two u64 times and five u32 fields |
| TraceFile.ItemRecords | c++11-tracer/include/profane/profane.h:84-87 | the record block of `n` items is `36 n` bytes |
| TraceFile.DecodeItems | c++11-tracer/include/profane/profane.h:84-87 | reinterpreting `36 n` bytes yields exactly `n` items |
| TraceFile.DecodeItemRecord | c++11-tracer/include/profane/profane.h:57-66 | reinterpreting the bytes of a record gives back the record (field order and widths agree with the writer's) |
| TraceFile.ItemRecordsAt | c++11-tracer/include/profane/profane.h:84-87 | record `i` of the block sits at byte `36 i` |
| TraceFile.DecodeItemRecords | c++11-tracer/include/profane/profane.h:84-87 | reinterpreting a block of records gives back the whole item list |
| TraceFile.DecodeItemsAt | c++11-tracer/include/profane/profane.h:84-87 | item `i` of the decoded block is the `i`th record written |
| TraceFile.StringRecord | c++11-tracer/include/profane/profane.h:165-173 | a dictionary string is a u8 length equal to its size, then its bytes |
| TraceFile.DecodeStringRecords | c++11-tracer/include/profane/profane.h:95-106 | the string loop reads back every string written as length-prefixed records |
| TraceFile.TrailerFound | c++11-tracer/include/profane/profane.h:75-79 | the last 16 bytes of a finished file give the first record's and the dictionary's positions |
| TraceFile.RecordsFound | c++11-tracer/include/profane/profane.h:81-87 | with the trailer's positions the count `(dictionaryPos - workItem0Pos) / 36` covers exactly the records written |
| TraceFile.DictionaryFound | c++11-tracer/include/profane/profane.h:89-106 | the dictionary at `dictionaryPos` reads back as the strings written, in order |
| TraceFile.ParseRecordsSpan | c++11-tracer/include/profane/profane.h:81-87 | positions `36 n` apart give `n` records read in one piece |
| TraceFile.ParseRecordsFound | c++11-tracer/include/profane/profane.h:81-87 | the records read between the two positions are the ones stored there |
| TraceFile.ParseDictionaryFound | c++11-tracer/include/profane/profane.h:89-106 | a u32 count followed by that many string records reads back as those strings |
| TraceFile.ParseFileFound | c++11-tracer/include/profane/profane.h:73-109 | a file whose trailer points at readable records and dictionary reads as that content |
| TraceFile.LaidOutFound | c++11-tracer/include/profane/profane.h:73-109 | any stream of banner, records, dictionary and trailer reads back as those records and strings |
| TraceFile.ReadFileBytes | c++11-tracer/include/profane/profane.h:73-109 | round trip: the bytes of a file with at least one record read back as exactly its records and dictionary |
| TraceFile.ReadStrings | c++11-tracer/include/profane/profane.h:89-106 | the dictionary loop yields the `count` strings, the last one zero-padded when the stream ends inside it, or fails where a length byte would be read past the end or a string other than the last is cut short |
| TraceFile.ReadString | c++11-tracer/include/profane/profane.h:97-104 | a string the stream holds whole is its length byte's count of bytes, read only when that count is non-zero |
| TraceFile.Store | c++11-tracer/include/profane/profane.h:105 | storing a string keeps the strings read before it and puts it next |
| TraceFile.CutShort | c++11-tracer/include/profane/profane.h:97-106 | a string running past the end of the stream is kept zero-padded when it is the last to read, and otherwise ends the reading in failure |
| TraceFile.PaddedTail | c++11-tracer/include/profane/profane.h:100-104 | a string cut short by the end of the stream has its full length: the bytes that remain, then zeros |
| TraceFile.TruncatedStringPadded | c++11-tracer/include/profane/profane.h:95-106 | a last dictionary string whose first `k` bytes end the stream reads back as those bytes and zeros up to its length |
| TraceFile.Read | c++11-tracer/include/profane/profane.h:73-109 | the reading loop yields exactly what the layout determines: the records between the trailer's positions and the counted strings (a last string cut short by the end of the stream zero-padded), or none where the source would read a count or length past the end, size from a wrapped difference, or find no record |
| Writer.IndexOf | c++11-tracer/include/profane/profane.h:180-185 | the index found is the first position holding the string |
| Writer.IndexOfAppend | c++11-tracer/include/profane/profane.h:180-185 | adding a new string to the table keeps the indices of the strings already there |
| Writer.IndexOfDistinct | c++11-tracer/include/profane/profane.h:180-185 | in a table without repeats, the index of the `i`th string is `i` |
| Writer.InternProperties | c++11-tracer/include/profane/profane.h:180-185 | `IndexString` returns the existing index of a known string and leaves the table alone, or gives a new string the next index `size()`; the table stays repeat-free and the index names the string |
| Writer.IndexMapAppend | c++11-tracer/include/profane/profane.h:182-183 | inserting a new string into `m_dictionary` maps it to the old size |
| Writer.IndexMapSize | c++11-tracer/include/profane/profane.h:182 | `m_dictionary.size()` equals the number of strings interned |
| Writer.InternItemProperties | c++11-tracer/include/profane/profane.h:143-149 | interning an item's four names grows the table by at most four and the record's indices resolve back to the item |
| Writer.InternItemTable | c++11-tracer/include/profane/profane.h:145-148 | interning an item's names keeps the table repeat-free and only extends it |
| Writer.InternDistinct | c++11-tracer/include/profane/profane.h:180-185 | one interning keeps the table repeat-free and grows it by at most one |
| Writer.InternItemResolves | c++11-tracer/include/profane/profane.h:143-149 | every index of the record names the corresponding string of the item |
| Writer.InternNames | c++11-tracer/include/profane/profane.h:180-185 | the index returned names the interned string in the extended table |
| Writer.InternAllTable | c++11-tracer/include/profane/profane.h:114 | after any items the table has "" at index 0, no repeats, at most `1 + 4 n` strings, and one record per item |
| Writer.InternAllResolves | c++11-tracer/include/profane/profane.h:137-151 | every record written resolves through the final table to its item |
| Writer.ResolvesToExtended | c++11-tracer/include/profane/profane.h:137-151 | earlier records still resolve after the table grows and a record is added |
| Writer.ResolveInLongerTable | c++11-tracer/include/profane/profane.h:180-185 | growing the table at the end does not change what an existing record resolves to |
| Writer.ItemRecordsAppend | c++11-tracer/include/profane/profane.h:137-151 | one more `operator<<` appends its record to the record block |
| Writer.StringRecordsAppend | c++11-tracer/include/profane/profane.h:211-214 | one more `WriteTextImmediate` appends its string record |
| Writer.RecordAppended | c++11-tracer/include/profane/profane.h:143-149 | the seven writes of `operator<<` are exactly the packed record |
| Writer.InternItemSteps | c++11-tracer/include/profane/profane.h:145-148 | interning the four names in field order is interning the item |
| Writer.PushedState | c++11-tracer/include/profane/profane.h:137-151 | the state after one more push is that of interning the longer item list |
| Writer.Pushed | c++11-tracer/include/profane/profane.h:137-151 | `operator<<` keeps the writer's invariant (table, map and stream agree with the items pushed) and the new record resolves to the item |
| Writer.FinishedBytes | c++11-tracer/include/profane/profane.h:126-134 | after `Finish` the stream is banner, records, dictionary and trailer |
| Writer.OrderByIndex | c++11-tracer/include/profane/profane.h:189-195 | putting every map entry in the slot its index names rebuilds the table in first-seen order, whatever the iteration order |
| Writer.BinaryWriter.constructor | c++11-tracer/include/profane/profane.h:114-124 | the banner is written after what the stream held, `m_workItem0Pos` is the position after it, the dictionary holds only "" at 0 |
| Writer.BinaryWriter.IndexString | c++11-tracer/include/profane/profane.h:180-185 | returns the interned index and updates the map as `Intern` does; the stream is untouched |
| Writer.BinaryWriter.WriteTextIndexed | c++11-tracer/include/profane/profane.h:160-163 | appends the u32 index of the interned string to the stream |
| Writer.BinaryWriter.WriteWorkItem | c++11-tracer/include/profane/profane.h:140-149 | the seven writes append the record of the interned item |
| Writer.BinaryWriter.Push | c++11-tracer/include/profane/profane.h:137-151 | `operator<<` appends one record that resolves to the item, keeping the writer's invariant |
| Writer.BinaryWriter.OrderDictionaryDestructively | c++11-tracer/include/profane/profane.h:187-200 | returns the table in index order and leaves the map empty |
| Writer.BinaryWriter.WriteTextImmediate | c++11-tracer/include/profane/profane.h:165-173 | appends a u8 length and the bytes |
| Writer.BinaryWriter.WriteDictionaryDestructively | c++11-tracer/include/profane/profane.h:202-217 | appends the count and every string in index order, returning where it started |
| Writer.BinaryWriter.WriteDictionaryEntry | c++11-tracer/include/profane/profane.h:211-214 | one turn of the dictionary loop appends string `i` |
| Writer.BinaryWriter.Finish | c++11-tracer/include/profane/profane.h:126-134 | the stream becomes the whole file: records, dictionary, then the trailer of the two positions |
| Writer.InternItemShort | c++11-tracer/include/profane/profane.h:165-167 | names of at most 255 bytes keep every table string short enough for its u8 length |
| Writer.InternAllShort | c++11-tracer/include/profane/profane.h:165-167 | the table holds only "" and item names, so it is short when the names are |
| Writer.InternAllFits | c++11-tracer/include/profane/profane.h:137-151 | items whose fields fit give records and a table that fit the file's fields |
| Writer.WrittenBytes | c++11-tracer/include/profane/profane.h:118-134 | the writer only appends to what the stream held before it |
| Writer.WrittenTraceReadsBack | c++11-tracer/include/profane/profane.h:73-151 | round trip: the file written from any non-empty item list reads back as the interned records and table, and every record resolves to its item |
| Logger.FirstDot | c++11-tracer/include/profane/profane.h:249 | `std::find` gives the first '.' |
| Logger.SplitWorkerRoutineName | c++11-tracer/include/profane/profane.h:245-253 | the worker name, '.', and the routine name rejoin to the whole name, and the worker name has no '.' |
| Logger.SplitJoin | c++11-tracer/include/profane/profane.h:245-253 | splitting "worker.routine" with a dot-free worker gives back both halves |
| Logger.OnWorkItem | c++11-tracer/include/profane/profane.h:239-242 | sets only the worker and routine names, which rejoin to the event's name |
| Logger.DrainCount | c++11-tracer/include/profane/profane.h:356 | the count drained is `min(m_eventCount, m_events.size())` |
| Logger.Stamp | c++11-tracer/include/profane/profane.h:364-365 | an unset stop time becomes the finish time; a set one is kept |
| Logger.StampAll | c++11-tracer/include/profane/profane.h:360-366 | the first `n` slots are stamped, the others are unchanged |
| Logger.StampAllStep | c++11-tracer/include/profane/profane.h:360-366 | stamping one more slot changes only that slot |
| Logger.ToProto | c++11-tracer/include/profane/profane.h:367-369 | the item has the slot's times, empty category and comment, task id 0, and the split name |
| Logger.Drained | c++11-tracer/include/profane/profane.h:356-372 | one item per drained slot, in slot order, from the stamped slot |
| Logger.DrainedFits | c++11-tracer/include/profane/profane.h:356-372 | slots whose times and names fit give items the writer can take |
| Logger.DrainedTrace | c++11-tracer/include/profane/profane.h:341-375 | `Finish` only appends to what the stream held |
| Logger.FinishedTraceReadsBack | c++11-tracer/include/profane/profane.h:341-375 | the file `Finish` writes reads back with one record per claimed slot: start time, stop time (stamped if unset), empty category and comment, task id 0, worker and routine that rejoin to the slot's name |
| Logger.DrainedItems | c++11-tracer/include/profane/profane.h:360-372 | records resolving to the drained items carry exactly those slot facts |
| Logger.WriteSlot | c++11-tracer/include/profane/profane.h:367-371 | pushes the slot's item on the writer, keeping its invariant |
| Logger.Stream.constructor | c++11-tracer/include/profane/profane.h:273 | a stream holding the given bytes |
| Logger.Tracer.Inert | c++11-tracer/include/profane/profane.h:287 | the default tracer points at no slot |
| Logger.Tracer.Of | c++11-tracer/include/profane/profane.h:284 | a tracer bound to a slot |
| Logger.Tracer.Move | c++11-tracer/include/profane/profane.h:290 | the move constructor takes the slot and leaves the source pointing at none |
| Logger.Tracer.TraceStop | c++11-tracer/include/profane/profane.h:304-308 | stamps the slot's stop time, if bound, and changes nothing else |
| Logger.Tracer.Stop | c++11-tracer/include/profane/profane.h:297-301 | stamps the stop and unbinds, so a later stop or destruction does nothing |
| Logger.Tracer.Destroy | c++11-tracer/include/profane/profane.h:292-295 | the destructor stamps the stop of a bound slot |
| Logger.PerfLogger.constructor | c++11-tracer/include/profane/profane.h:273-277 | no output, no file name, counter 0, no slots |
| Logger.PerfLogger.Resize | c++11-tracer/include/profane/profane.h:322 | `resize` keeps the first slots and adds value-initialised ones |
| Logger.PerfLogger.EnableStream | c++11-tracer/include/profane/profane.h:319-325 | records the start time, sizes the slots and sets the output stream |
| Logger.PerfLogger.EnableFile | c++11-tracer/include/profane/profane.h:327-333 | records the start time, sizes the slots and sets the file name |
| Logger.PerfLogger.TraceEvent | c++11-tracer/include/profane/profane.h:378-389 | claims the next index; past the capacity returns an inert tracer and changes no slot, otherwise stamps the start and data of that slot and returns a tracer bound to it |
| Logger.PerfLogger.StampSlot | c++11-tracer/include/profane/profane.h:362-365 | stamps one slot's unset stop time |
| Logger.PerfLogger.Drain | c++11-tracer/include/profane/profane.h:360-372 | the loop pushes the items of the drained slots, in order, and stamps those slots |
| Logger.PerfLogger.DrainSlot | c++11-tracer/include/profane/profane.h:362-371 | one turn of the loop: one more slot stamped and pushed |
| Logger.PerfLogger.WriteTrace | c++11-tracer/include/profane/profane.h:356-374 | the bytes written are the banner, the drained items' records, the dictionary and the trailer |
| Logger.PerfLogger.Finish | c++11-tracer/include/profane/profane.h:341-375 | with no output does nothing; otherwise stamps the drained slots and appends the whole trace to the stream, or to a new file stream |
| Workloads.FirstFree | profane_analyser/workload.cpp:12-23 | the level taken is the first whose end is at or before the start, or a new one at the top |
| Workloads.Step | profane_analyser/workload.cpp:12-23 | placing one item records one level |
| Workloads.Stack | profane_analyser/workload.cpp:10-24 | one level per item |
| Workloads.Placed | profane_analyser/workload.cpp:10-24 | one placed item per item |
| Workloads.StackGrowth | profane_analyser/workload.cpp:14-15 | there are never more levels than items |
| Workloads.StackPrefix | profane_analyser/workload.cpp:10-24 | the levels of the first items do not depend on later ones |
| Workloads.LevelIsLowestFree | profane_analyser/workload.cpp:12-23 | each item goes to the lowest level whose last item has ended by its start |
| Workloads.EndsTrackStep | profane_analyser/workload.cpp:17-20 | each level's end is the stop of the last item placed on it |
| Workloads.NoneBetweenPrefix | profane_analyser/workload.cpp:17-20 | "no item between on this level" survives dropping the last item |
| Workloads.SeparatedLast | profane_analyser/workload.cpp:17-20 | the item placed on a level starts at or after the previous item there stops |
| Workloads.SeparatedStep | profane_analyser/workload.cpp:10-24 | placing one more item keeps consecutive items of each level non-overlapping |
| Workloads.StackSeparates | profane_analyser/workload.cpp:10-24 | in the layout, consecutive items on the same level never overlap |
| Workloads.SameLevelOrdered | profane_analyser/workload.cpp:10-24 | for items that start no later than they stop, separation of consecutive items extends to any two items of a level |
| Workloads.StackDisjoint | profane_analyser/workload.cpp:10-24 | in the layout of items that start no later than they stop, any two items on the same level are disjoint in time |
| Workloads.StackLevelsBelow | profane_analyser/workload.cpp:14-20 | every item's level is below the number of levels |
| Workloads.LevelsBelowCount | profane_analyser/workload.cpp:20-26 | with fewer than 256 levels, each stored `uint8_t` level is below the stored level count |
| Workloads.Worker.constructor | profane_analyser/workload.h:23-28 | a named worker with no items and no levels |
| Workloads.PlacedStep | profane_analyser/workload.cpp:10-24 | one more item placed extends the placed list by that item at its level `% 256` |
| Workloads.StoreLevel | profane_analyser/workload.cpp:20 | storing the level changes only that item |
| Workloads.PlaceStep | profane_analyser/workload.cpp:12-23 | one turn of the outer loop turns item `i` into its placed form and advances the end times |
| Workloads.PushLevel | profane_analyser/workload.cpp:12-23 | the inner loop returns the first free level and the updated end times |
| Workloads.UpdateStackLevel | profane_analyser/workload.cpp:6-27 | every item gets its greedy level `% 256` and the worker's level count is the number of levels `% 256` |
| Workloads.PlacedAll | profane_analyser/workload.cpp:10-24 | after the last item the worker holds the whole layout |
| Workloads.PlaceItem | profane_analyser/workload.cpp:10-24 | one turn of the outer loop places item `i` in the worker |
| Workloads.Duration | profane_analyser/workload.h:19 | `duration()` is the `uint64_t` difference, wrapping when the stop is before the start |
| Workloads.CStr | profane_analyser/workload.cpp:43 | `c_str()` compared with `strcmp` sees the string up to its first zero byte |
| Workloads.Int64Of | profane_analyser/workload.cpp:38 | the `uint64_t` start read as `int64_t` is the value congruent modulo 2^64 in the signed range |
| Workloads.Converted | profane_analyser/workload.cpp:50-55 | a workload item keeps the record's times and starts at level 0 |
| Workloads.WorkerNamesExact | profane_analyser/workload.cpp:41-47 | a worker exists exactly for the names some record refers to |
| Workloads.ItemsOf | profane_analyser/workload.cpp:41-56 | a worker has no more items than there are records |
| Workloads.ItemsOfNonEmpty | profane_analyser/workload.cpp:44-46 | a worker is created exactly when it gets at least one item |
| Workloads.CountOverStep | profane_analyser/workload.cpp:41-56 | one more record adds one item to exactly one worker |
| Workloads.ItemsCounted | profane_analyser/workload.cpp:41-56 | the workers' items together are as many as the records: none is lost or duplicated |
| Workloads.EmptyCount | profane_analyser/workload.cpp:41-56 | no records, no items |
| Workloads.Workload.constructor | profane_analyser/workload.h:6-37 | an empty dictionary and worker map and no start time yet |
| Workloads.ItemsOfStep | profane_analyser/workload.cpp:41-56 | one more record appends its converted item to its own worker only |
| Workloads.FindOrInsert | profane_analyser/workload.cpp:44-47 | finds the worker of that name or inserts a new empty one |
| Workloads.AddRecord | profane_analyser/workload.cpp:43-55 | one turn of the grouping loop appends the record's item to its worker |
| Workloads.GroupByWorker | profane_analyser/workload.cpp:41-56 | each worker ends up with its records' items, in file order |
| Workloads.LayOutWorkers | profane_analyser/workload.cpp:58-61 | every worker gets its greedy layout |
| Workloads.LayOutWorker | profane_analyser/workload.cpp:60 | one worker laid out, the others unchanged |
| Workloads.BuildWorkload | profane_analyser/workload.cpp:29-64 | the dictionary is moved in; the start is the first record's start; a worker per name, holding its records' items in order with their greedy levels |
| TimeScale.TruncDiv | profane_analyser/time_scale_view.cpp:8 | C++ division truncates toward zero: the quotient's magnitude is the floor of the magnitudes' quotient and its sign is the product of signs |
| TimeScale.TruncDivMonotone | profane_analyser/time_scale_view.cpp:8 | truncating division by a positive number is monotone |
| TimeScale.NsToPx | profane_analyser/time_scale_view.cpp:6-9 | `NsToPx` gives an `int64_t` pixel where no step overflows |
| TimeScale.PxToNs | profane_analyser/time_scale_view.cpp:11-14 | `PxToNs` gives an `int64_t` time where no step overflows |
| TimeScale.NsToPxAtLeft | profane_analyser/time_scale_view.cpp:6-9 | the camera's left edge is pixel 0 |
| TimeScale.PxToNsAtZero | profane_analyser/time_scale_view.cpp:11-14 | pixel 0 is the camera's left edge |
| TimeScale.NsToPxMonotone | profane_analyser/time_scale_view.cpp:6-9 | later times never map to earlier pixels |
| TimeScale.PxToNsMonotone | profane_analyser/time_scale_view.cpp:11-14 | pixels further right never map to earlier times |
| TimeScale.PxToNsToPx | profane_analyser/time_scale_view.cpp:6-14 | converting a pixel to time and back never lands right of it |
| TimeScale.Rel | profane_analyser/time_scale_view.cpp:24 | `static_cast<int64_t>(stop - start)` is the true difference when it fits |
| TimeScale.StopsWithinGrows | profane_analyser/time_scale_view.cpp:24 | a wider view still covers what it covered |
| TimeScale.WidestStop | profane_analyser/time_scale_view.cpp:22-25 | the width grows to the latest stop of the worker's items, and is that stop when it grows |
| TimeScale.Camera.constructor | profane_analyser/time_scale_view.h:12-15 | ten seconds across 800 pixels, scrolled to the top |
| TimeScale.Camera.ResetToViewAllWorkload | profane_analyser/time_scale_view.cpp:16-27 | the view starts at 0 and is exactly as wide as the latest stop relative to the start (or 0); the width is 0 exactly when no item stops after the start |
| TimeScale.ZeroWidthUndrawable | profane_analyser/time_scale_view.cpp:6-9 | a witness for the width-0 case of `Camera.ResetToViewAllWorkload`: items that all stop at the start meet its condition for width 0, and at width 0 none of them is drawable |
| TimeScale.Camera.WidenToWorker | profane_analyser/time_scale_view.cpp:20-26 | one worker more is covered, the others stay covered |
| TimeScale.Camera.MouseMotion | profane_analyser/time_scale_view.cpp:96-104 | a right-button drag shifts the view by the time between the two pixels and scrolls by `yrel`, never above the top; otherwise nothing changes |
| TimeScale.Camera.MouseMotionHorizontal | profane_analyser/time_scale_view.h:109-114 | the header's drag shifts the view horizontally only |
| TimeScale.DragKeepsGrabbedTime | profane_analyser/time_scale_view.cpp:98-100 | after a drag, the time under the mouse cursor is the time that was under it before the motion |
| TimeScale.DragBackRestores | profane_analyser/time_scale_view.cpp:98-100 | dragging back by the opposite motion restores the left edge |
| TimeScale.PixelWideBlockDeferredRenderer.constructor | profane_analyser/time_scale_view.cpp:30-33 | a renderer with the given block height that has drawn nothing |
| TimeScale.PixelWideBlockDeferredRenderer.Reset | profane_analyser/time_scale_view.cpp:35-37 | drops the pending block without drawing |
| TimeScale.PixelWideBlockDeferredRenderer.Render | profane_analyser/time_scale_view.cpp:66-76 | draws the pending block, if any, at least one pixel wide, and clears it |
| TimeScale.PixelWideBlockDeferredRenderer.MarkBlock | profane_analyser/time_scale_view.cpp:39-64 | starts a pending block, extends it when the new one is on the same row and adjacent, or draws it and starts a new one |
| TimeScale.Cull | profane_analyser/time_scale_view.cpp:185-192 | an item ending left of the view is skipped; one starting past the right edge ends the row; otherwise it is clamped to `[-1, width + 1]` |
| TimeScale.CullKeepsOrder | profane_analyser/time_scale_view.cpp:191-194 | a kept block is clamped with left at most right, as the source asserts |
| TimeScale.DrawableTail | profane_analyser/time_scale_view.cpp:177-231 | every later item can still be drawn |
| TimeScale.RowBlocks | profane_analyser/time_scale_view.cpp:177-231 | a row draws no more blocks than it has items |
| TimeScale.AllBlocks | profane_analyser/time_scale_view.h:186-236 | the header's loop draws no more blocks than items |
| TimeScale.RowBlocksOnScreen | profane_analyser/time_scale_view.cpp:177-231 | with items in time order every block drawn is on screen |
| TimeScale.RowBlocksPrefix | profane_analyser/time_scale_view.cpp:185-189 | stopping at the first item past the right edge draws a prefix of what skipping it would draw |
| TimeScale.RowStep | profane_analyser/time_scale_view.cpp:185-196 | one item of the row: skipped, end of row, or one clamped block at its level's height |
| TimeScale.AllStep | profane_analyser/time_scale_view.h:194-202 | one item of the header's loop: skipped or one clamped block |
| TimeScale.ItemPixels | profane_analyser/time_scale_view.cpp:179-183 | the item's two pixels are the camera's conversions of its times relative to the workload's start |
| TimeScale.DrawRow | profane_analyser/time_scale_view.cpp:177-231 | the worker's loop yields, in order, one block per item that ends on screen, clamped to `[-1, width + 1]` at height `offset + 40 * level`, and stops at the first item starting past the right edge |
| TimeScale.DrawRowItem | profane_analyser/time_scale_view.cpp:179-206 | one turn of that loop |
| TimeScale.DrawAll | profane_analyser/time_scale_view.h:182-238 | the header's loop over the items of the worker named "Main" yields, in order, one clamped block per visible item at height `38 + 40 * level`, times relative to its first item, skipping (not stopping at) items past the right edge |
| TimeScale.DrawAllItem | profane_analyser/time_scale_view.h:188-207 | one turn of that loop |
| TextRendering.Digit | profane_analyser/text_renderer.cpp:49 | `rem + '0'` is a digit character |
| TextRendering.DigitsOf | profane_analyser/text_renderer.cpp:45-59 | the digit loop writes only digits, and none for 0 |
| TextRendering.ValueOfDigits | profane_analyser/text_renderer.cpp:45-59 | the digits written read back as the number |
| TextRendering.LeadingDigitNonZero | profane_analyser/text_renderer.cpp:45-59 | no leading zero is written |
| TextRendering.DigitsAtMost | profane_analyser/text_renderer.cpp:45-59 | a number below `10^j` has at most `j` digits |
| TextRendering.DigitsMoreThan | profane_analyser/text_renderer.cpp:45-59 | a number of at least `10^j` has more than `j` digits |
| TextRendering.DropLowDigits | profane_analyser/text_renderer.cpp:45-59 | the digits before the dot are those of the number divided by the unit |
| TextRendering.StripZeros | profane_analyser/text_renderer.cpp:88-89 | the loop drops exactly the trailing zeros |
| TextRendering.DivisorLog10 | profane_analyser/text_renderer.cpp:19-38 | the unit is 10^9, 10^6, 10^3 or 1, and a unit's number has at least its exponent's digits |
| TextRendering.IntegerPart | profane_analyser/text_renderer.cpp:74-78 | the part before the dot is digits, "0" when empty |
| TextRendering.Fraction | profane_analyser/text_renderer.cpp:45-59 | the part after the dot has exactly the unit's exponent digits |
| TextRendering.Kept | profane_analyser/text_renderer.cpp:82-87 | no more fraction digits are kept than there are |
| TextRendering.FormatDuration | profane_analyser/text_renderer.cpp:12-106 | the right-to-left buffer algorithm yields the sign, the magnitude in s from 316200000 ns, in ms from 316200 ns, in µs from 316 ns, else in ns, cut to the significant digits without trailing zeros, then the unit (see `TextRendering.CutNumberTruncates`) |
| TextRendering.PrependSign | profane_analyser/text_renderer.cpp:93-94 | a minus sign goes in front of a negative number only |
| TextRendering.WholeNumberBody | profane_analyser/text_renderer.cpp:37-38 | below 316 ns the number is written whole |
| TextRendering.CutNumberTruncates | profane_analyser/text_renderer.cpp:80-91 | the integer part reads back as the whole units, and the text is the exact quotient truncated: the integer part alone, or a dot and a run of digits ending in a non-zero digit and fitting the significant digits |
| TextRendering.IntegerPartValue | profane_analyser/text_renderer.cpp:45-78 | the digits before the dot read back as the number divided by the unit |
| TextRendering.CutIsPrefix | profane_analyser/text_renderer.cpp:84-91 | cutting the fraction to the digits left over and stripping its zeros leaves a prefix of the full number: the integer part alone, or one ending in a non-zero digit within the significant digits |
| TextRendering.WholeNumberReadsBack | profane_analyser/text_renderer.cpp:37-59 | a nanosecond count is written as digits that read back as it |
| TextRendering.DurationExampleMicro | profane_analyser/text_renderer.cpp:12-106 | 1500 ns with four significant digits is "1.5 µs" |
| TextRendering.DurationExampleNano | profane_analyser/text_renderer.cpp:12-106 | -42 ns is "-42 ns" |
| TextRendering.NumberText | profane_analyser/text_renderer.cpp:45-78 | the buffer before cutting: integer part, dot and all fraction digits |
| TextRendering.WriteNumber | profane_analyser/text_renderer.cpp:40-78 | the digit loop and the leading zero leave the number ending at index 24 with the dot at `24 - k` |
| TextRendering.ShortenFraction | profane_analyser/text_renderer.cpp:80-91 | cutting leaves the integer part and the kept fraction in place |
| TextRendering.DigitsAfterDot | profane_analyser/text_renderer.cpp:80-91 | the characters after the dot are digits |
| TextRendering.CutInPlace | profane_analyser/text_renderer.cpp:80-91 | the buffer cut at the last kept character spells the cut number |
| TextRendering.CutAtDot | profane_analyser/text_renderer.cpp:88-91 | a bare dot is dropped with the zeros |
| TextRendering.FractionInPlace | profane_analyser/text_renderer.cpp:80-86 | the buffer holds the integer part, the dot and the fraction |
| TextRendering.CutNumberOfCut | profane_analyser/text_renderer.cpp:80-91 | the cut text is the integer part, then a dot and the kept digits when any are left |
| TextRendering.DigitsOfInt64 | profane_analyser/text_renderer.cpp:12-14 | an `int64_t` magnitude has at most 19 digits, so the buffer suffices |
| TextRendering.WriteDigits | profane_analyser/text_renderer.cpp:45-59 | the digit loop writes the number with the dot after the `k`th digit from the right |
| TextRendering.WriteNextDigit | profane_analyser/text_renderer.cpp:47-58 | one turn of the digit loop |
| TextRendering.PutDigit | profane_analyser/text_renderer.cpp:49-56 | one digit and, at the `k`th, the dot |
| TextRendering.DigitsStep | profane_analyser/text_renderer.cpp:47-58 | `std::div` by 10 takes off the last digit |
| TextRendering.WithDotPrepend | profane_analyser/text_renderer.cpp:49-56 | writing one digit in front keeps the dot in place |
| TextRendering.TrimFraction | profane_analyser/text_renderer.cpp:88-91 | the two loops drop the trailing zeros and a bare dot |
| TextRendering.Prepend | profane_analyser/text_renderer.cpp:74-75 | one character written in front |
| TextRendering.CopySuffix | profane_analyser/text_renderer.cpp:97-105 | the result is the kept characters and then the unit |
| TextRendering.NumberLaidOut | profane_analyser/text_renderer.cpp:45-78 | the buffer holds the digits, or "0" and a dot in front of a fraction-only number |
| TimePoints.GroupSuffix | profane_analyser/text_renderer.cpp:113 | each of the four group suffixes (nano, micro, milli, seconds) is one to three bytes |
| TimePoints.FormatTimePoint | profane_analyser/text_renderer.cpp:108-159 | the right-to-left buffer algorithm yields the sign and the digits in groups of three, each with its unit suffix up to seconds, dropping the trailing all-zero groups (see `TimePoints.TimePointReadsBack`) |
| TimePoints.WriteGroups | profane_analyser/text_renderer.cpp:121-150 | the digit loop lays out the groups with their suffixes and the text ends after the last non-zero group |
| TimePoints.PutTimeDigit | profane_analyser/text_renderer.cpp:144-147 | one digit written in front, noting a non-zero one |
| TimePoints.PutGroupSuffix | profane_analyser/text_renderer.cpp:125-142 | at every third digit the group's suffix goes in front, cutting the text there while all digits so far were zero |
| TimePoints.SuffixStep | profane_analyser/text_renderer.cpp:125-142 | the suffixes take at most 8 characters |
| TimePoints.PrependText | profane_analyser/text_renderer.cpp:139-140 | `strncpy` puts the suffix in front |
| TimePoints.RemainingPlain | profane_analyser/text_renderer.cpp:129 | beyond the seconds group no suffix is written |
| TimePoints.RemainingGroups | profane_analyser/text_renderer.cpp:121-150 | the loop writes all groups, dropping the trailing all-zero ones |
| TimePoints.TopGroup | profane_analyser/text_renderer.cpp:121-150 | the highest group is written whole |
| TimePoints.FullGroup | profane_analyser/text_renderer.cpp:121-150 | a full group of three digits and its suffix |
| TimePoints.SecondsGroup | profane_analyser/text_renderer.cpp:121-150 | the seconds are written whole with "s " |
| TimePoints.OpenStep | profane_analyser/text_renderer.cpp:125-147 | a digit that opens a group |
| TimePoints.PlainStep | profane_analyser/text_renderer.cpp:144-147 | a digit inside a group |
| TimePoints.ShortGroup | profane_analyser/text_renderer.cpp:121-150 | a group with fewer than three digits |
| TimePoints.GroupRest | profane_analyser/text_renderer.cpp:144-147 | the last digits of a short group |
| TimePoints.ThreeDigits | profane_analyser/text_renderer.cpp:121-150 | three digits and the suffix of a group |
| TimePoints.ZeroGroupDigits | profane_analyser/text_renderer.cpp:144 | a group is "000" exactly when its three digits are zero |
| TimePoints.DigitChars | profane_analyser/text_renderer.cpp:146 | the digits of a text |
| TimePoints.AllGroupsDigits | profane_analyser/text_renderer.cpp:121-150 | the digits of the grouped text are the digits of the number |
| TimePoints.Dropped | profane_analyser/text_renderer.cpp:134-137 | at most three trailing groups are dropped |
| TimePoints.Scaled | profane_analyser/text_renderer.cpp:134-137 | the number without its dropped groups is positive |
| TimePoints.SignificantScaled | profane_analyser/text_renderer.cpp:134-137 | dropping the zero groups divides by a power of 1000 |
| TimePoints.GroupsReadBack | profane_analyser/text_renderer.cpp:121-150 | the digits read back as the number over the unit of the last suffix |
| TimePoints.TimePointReadsBack | profane_analyser/text_renderer.cpp:108-159 | round trip: the text's digits times the unit of its last suffix give the time point back |
| TimePoints.AllGroupsSuffix | profane_analyser/text_renderer.cpp:121-150 | the text ends with its group's suffix |
| TimePoints.TimePointExamples | profane_analyser/text_renderer.cpp:152-153 | 0 is "0", and 1500 ns is "1µ 500n" |
| TimePoints.TimePointExamplesLarge | profane_analyser/text_renderer.cpp:134-137 | -5 s is "-5s ": the zero groups below are dropped |
| TimePoints.TimePointExamplesInner | profane_analyser/text_renderer.cpp:121-150 | inner zero groups are written: 1000001 ns is "1m 000µ 001n" |
| TimePoints.ScaleDown | profane_analyser/text_renderer.cpp:134-137 | a trailing zero group is dropped |
| Inscriptions.Collected | profane_analyser/text_renderer.cpp:217-233 | `Collect` keeps exactly the inscriptions used less than 60 frames ago, unchanged |
| Inscriptions.Update | profane_analyser/text_renderer.cpp:209-215 | `OnUpdate` advances the frame and collects on every 30th |
| Inscriptions.Updates | profane_analyser/text_renderer.cpp:209-215 | `j` updates advance the frame by `j` |
| Inscriptions.Prepare | profane_analyser/text_renderer.cpp:169-188 | the text gets a cached texture (the old one if cached, else the new one) stamped with the frame; the others are unchanged |
| Inscriptions.Retention | profane_analyser/text_renderer.cpp:209-233 | an inscription survives `j` updates exactly when no collection frame in them is 60 or more frames after its stamp |
| Inscriptions.KeptForSixtyFrames | profane_analyser/text_renderer.cpp:209-233 | an inscription used less than 60 frames ago is still cached, unchanged |
| Inscriptions.GoneAfterNinetyFrames | profane_analyser/text_renderer.cpp:209-233 | an inscription unused for 89 frames, over at least 30 updates, is gone |
| Inscriptions.PreparedStays | profane_analyser/text_renderer.cpp:169-233 | a prepared text keeps its texture for the next 59 updates |
| Inscriptions.UpdateConsistent | profane_analyser/text_renderer.h:23-24 | no stamp is ever later than the current frame |
| Inscriptions.TextRenderer.constructor | profane_analyser/text_renderer.h:23-24 | frame -1, no inscriptions |
| Inscriptions.TextRenderer.PrepareText | profane_analyser/text_renderer.cpp:169-188 | the cache becomes `Prepare`'s and the texture returned is the cached one |
| Inscriptions.TextRenderer.OnUpdate | profane_analyser/text_renderer.cpp:209-215 | the cache becomes `Update`'s |
| Inscriptions.TextRenderer.Collect | profane_analyser/text_renderer.cpp:217-233 | the cache becomes `Collected`'s |
| CommandLine.Words | profane_analyser/cli.cpp:13-37 | an option is one or two words |
| CommandLine.Unlex | profane_analyser/cli.cpp:13-37 | the words of the options, at least one per option |
| CommandLine.MaxSamples | profane_analyser/cli.cpp:31 | `stoi` succeeds within `int` range and the `uint32_t` stored is its value modulo 2^32; otherwise an error |
| CommandLine.ParseCommandLine | profane_analyser/cli.cpp:5-40 | the loop's result is the option list's meaning, or the first error |
| CommandLine.ReadOption | profane_analyser/cli.cpp:15-36 | one turn of the loop: an error, or the next option taken |
| CommandLine.ContinuePrepend | profane_analyser/cli.cpp:13-37 | options apply left to right |
| CommandLine.LexFrom | profane_analyser/cli.cpp:15-36 | "-h", a path, "-o path" or "-s count" is one option; "-o" or "-s" last is an error |
| CommandLine.ReadHelp | profane_analyser/cli.cpp:15-18 | "-h" sets the help flag |
| CommandLine.ReadInput | profane_analyser/cli.cpp:33-36 | any other word is the input path |
| CommandLine.ReadOutput | profane_analyser/cli.cpp:19-25 | "-o path" sets the output path |
| CommandLine.ReadSamples | profane_analyser/cli.cpp:26-32 | "-s count" sets the sample count or fails as `stoi` does |
| CommandLine.ReadAll | profane_analyser/cli.cpp:13 | past the last word the loop ends |
| CommandLine.ReadLastFlag | profane_analyser/cli.cpp:21-30 | "-o" or "-s" as the last word throws |
| CommandLine.LexThenUnlex | profane_analyser/cli.cpp:13-37 | round trip: the options read give back the words |
| CommandLine.LexToken | profane_analyser/cli.cpp:15-36 | an option's words read as that option |
| CommandLine.WellFormedTail | profane_analyser/cli.cpp:13-37 | the rest of a well-formed option list is well formed |
| CommandLine.UnlexThenLex | profane_analyser/cli.cpp:13-37 | round trip: the words of well-formed options read back as those options |
| CommandLine.TrailingFlag | profane_analyser/cli.cpp:21-30 | any options followed by a bare "-o" or "-s" fail with that flag's error |
| CommandLine.HelpOption | profane_analyser/cli.cpp:10-18 | help is set exactly when it was set or "-h" occurs |
| CommandLine.LastInputWins | profane_analyser/cli.cpp:33-36 | the input path is the last one given, or unset |
| CommandLine.LastOutputWins | profane_analyser/cli.cpp:19-25 | the output path is the last one given, or unset |
| CommandLine.LastSamplesWins | profane_analyser/cli.cpp:26-32 | the sample count is the last one given, or 0 |
| CommandLine.HelpWithoutArguments | profane_analyser/cli.cpp:7-11 | with no arguments help is printed and nothing else is set |
| CommandLine.ParseMeaning | profane_analyser/cli.cpp:5-40 | the program path is `args[0]`, help is set when alone, and the options apply in order |
| Configuration.Get | profane_analyser/config.h:70-86 | each member's value has the member's type |
| Configuration.SetThenGet | profane_analyser/config.h:37-45 | assigning through a property's reference changes that member only |
| Configuration.LexicalCast | profane_analyser/config.h:8-16 | `atoll`, `atoi`, `stod`, identity for strings, and a "Not implemented" error for colours |
| Configuration.Register | profane_analyser/config.h:53-60 | a new name is added with its property; a registered name is an error and nothing changes |
| Configuration.Names | profane_analyser/config.h:48 | the names of a list of properties |
| Configuration.RegisterDistinct | profane_analyser/config.h:53-60 | registering distinct new names succeeds and maps each to its property |
| Configuration.RegisterDuplicate | profane_analyser/config.h:53-60 | the first repeated name stops the registration with its error |
| Configuration.ConfigNamesDistinct | profane_analyser/config.h:88-107 | the 17 property names are distinct |
| Configuration.DistinctRows | profane_analyser/config.h:90-106 | rows of the table have distinct names |
| Configuration.FreshName | profane_analyser/config.h:88-107 | each name is new when registered |
| Configuration.NamesPrefix | profane_analyser/config.h:88-107 | one more registration adds one name |
| Configuration.RegisterStep | profane_analyser/config.h:88-107 | registrations happen in order |
| Configuration.ConfigPropertiesBound | profane_analyser/config.h:88-107 | each property's type is its member's type |
| Configuration.BoundRows | profane_analyser/config.h:90-106 | rows of the table have matching types |
| Configuration.Assign | profane_analyser/config.h:45 | `Value` sets the property's member to the converted text and nothing else, or fails as the conversion does |
| Configuration.AssignStringColor | profane_analyser/config.h:12-16 | a string member takes the text verbatim; a colour member always fails |
| Configuration.Config.RegisterProperty | profane_analyser/config.h:53-60 | inserts the property or reports the name already registered |
| Configuration.Config.Value | profane_analyser/config.h:45 | the settings become `Assign`'s |
| Configuration.Config.constructor | profane_analyser/config.h:70-107 | the defaults, and the 17 properties registered without error |
| Configuration.Config.RegisterConfigProperties | profane_analyser/config.h:88-107 | the constructor's 17 registrations |
| Configuration.Config.RegisterProperties | profane_analyser/config.h:88-107 | registering distinct, correctly typed properties gives exactly their names |

## Left out

- Concurrency: `m_eventCount` is a `std::atomic` that many threads increment. Here it is an ordinary field and every operation runs alone.
- Clocks: `Clock::now()` is the parameter `now`. Time points are their nanosecond counts.
- Logger.PerfLogger.TraceEvent: the `uint32_t` counter's wrap-around after 2^32 claims is not modelled; the precondition keeps the counter below 2^32 - 1.
- Logger.PerfLogger.Finish: with a file name, the source points `m_out` at a local `std::ofstream` that dies on return, so a second `Finish` (the destructor calls it) is undefined. The model returns the new stream and covers one `Finish`.
- `PerfLogger::~PerfLogger`: the destructor only calls `Finish`, so it has no member of its own.
- `PerfLogger::Trace`: it only forwards to `TraceEvent`.
- File and stream I/O: streams are byte sequences. `flush` is left out. Opening a file is a fresh `Stream`.
- TraceFile.Read: returns none in three cases. Reading the count or a length byte past the end of the stream leaves it uninitialised, which is undefined. A short read of the records fails the stream, so the count after them is never read. `front()` on an empty item vector is undefined. A dictionary position before the first record is a different case: the wrapped difference makes `resize` throw `std::length_error` or `std::bad_alloc`. The model does not tell that exception apart from the undefined cases.
- TraceFile.ReadStrings: a dictionary string cut short by the end of the stream is kept zero-padded only when it is the last one. An earlier one fails the stream, and the next length byte is then read uninitialised, so the model returns none.
- TimeScale.NsToPx: a zero width and `int64_t` overflow of the difference, the product or the quotient are excluded by `NsToPxDefined`, so `DrawRow` and `DrawAll` require every item to be drawable. The source does reach width 0: `ResetToViewAllWorkload`, called when a workload is loaded (time_scale_view.cpp:85), leaves it at 0 when no item stops after the start, and the next draw divides by zero. `TimeScale.ZeroWidthUndrawable` records this.
- Workloads.BuildWorkload: the source indexes the dictionary with the records' worker and routine indices unchecked (workload.cpp:43 and 49). The model requires every index to be in range (`Workloads.IndicesValid`) and does not model an out-of-range read.
- TextRendering.FormatDuration: the model requires `-100 <= significantDigits <= 100`, narrower than `int8_t`. Near the ends of that type the subtraction at text_renderer.cpp:82 and the cast at :85 wrap, and the buffer index can leave the array. It also requires the duration to be above -2^63, since negating `INT64_MIN` at :15 overflows.
- Workloads.BuildWorkload: `Workload::startTimeNs` is left uninitialised by the source when there are no records; it is modelled as none.
- `Workload::routineToWorkItemHistogramMap` and `WorkItem::durationRatio`: these belong to the histogram view, and `BuildWorkload` never fills them.
- Floating point:
  - mouse-wheel zoom;
  - `FitTimeScaleRuler`;
  - `LerpColor`;
  - `LexicalCast<double>` (here `stod` is a parameter, and doubles are opaque bit patterns).
- SDL: textures, fonts, colours on screen, rectangles drawn other than the block outlines.
- TimeScale.DrawAll: the `m_workload->workers["Main"]` lookup (time_scale_view.h:182 and 186) is abstracted as the `items` parameter. When there is no "Main" worker, `operator[]` inserts an empty one and `workItems[0]` on it is undefined; the model excludes that case with `requires items != []`. The hand-off of blocks at most one pixel wide to `MarkBlock` inside the loop (time_scale_view.h:204-208) is not modelled either; the loop's model yields the blocks it decides to draw.
- TimeScale.DrawRow: the text labels and selection highlight, and the hand-off of narrow blocks to `MarkBlock` inside the loop, are not modelled. The loop's model yields the blocks it decides to draw; `MarkBlock` and `Render` are modelled as methods of their own.
- TimeScale.Camera.MouseMotion: the `int` overflow of `topPx - yrel` and of the `int64_t` steps is excluded by the preconditions rather than modelled.
- `PrintHelp`: it only writes text to standard output.
- `TextRenderer::RenderText`: it only draws a texture.
- `std::map` iteration order: `Collect`, `OrderDictionaryDestructively`, `ResetToViewAllWorkload` and the layout loop of `BuildWorkload` visit entries in any order here. Their results do not depend on the order.
- TextRendering.FormatDuration: the source's zero-padding loop up to the dot is never entered, because a number at or above a unit's bound has at least the unit's exponent in digits. It is therefore absent.
- Inscriptions.Update: `++m_frameIdx` is unbounded here; `int64_t` overflow after 2^63 frames is not modelled.
- Configuration.Config.RegisterConfigProperties: the 17 `RegisterProperty` calls are one loop over a table of the 17 properties. A `T&` member reference is a `Field` tag read and written through `Get` and `Set`. `Properties()` is the `properties` field.
- Configuration.Config.constructor: its contract states the registration result. The set of registered names follows from `Configuration.RegisterDistinct` rather than being restated.
- Workloads.UpdateStackLevel: the `std::vector` of end times is a sequence value, and its `push_back` is a sequence append.
