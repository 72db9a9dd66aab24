# Presents list and hourly temperature report, in Dafny

This project models the sequential logic of two threading exercises.

**problem1.cpp: the birthday presents chain.** `ConcurrentLinkedList` is a
singly linked chain of `Present` nodes kept in ascending order of tag.
`addPresent` splices a new node into place. `removePresent` unlinks the first
node with a tag. `findPresent` tests membership. Servants run `ServantWork`
over a range of tags: even tags are added, and for odd tags a thank-you note
is written when the present can be removed.

- The chain is a Dafny class over heap-allocated `Present` nodes.
- Ghost sequences `Nodes` and `Contents` hold the chain's nodes and its tags in
  order from the head.
- Each method is proved against a function on the tag sequence in
  `sorted_tags.dfy` (`Insert`, `RemoveFirst`, `Served`, `Thanked`).
- Sortedness, the multiset of tags, and the order of the untouched presents
  are proved about those functions.

**problem2.cpp: the temperature monitor.** Eight sensors each take one reading
a minute and write it into a shared 480-slot buffer, at slot
`hour * 60 + minute`. The slot does not depend on the sensor, so all eight
sensors write the same slot each minute and the last write stays. Sensor 0 compiles an hourly report with three
parts:

- the 10-minute window with the largest spread between its highest and lowest
  reading, the earliest such window on a tie;
- the five highest distinct readings;
- the five lowest distinct readings.

A `reportHour` guard makes each hour's report happen once.
`TemperatureMonitor` keeps the buffer and the ready flags as arrays, and
`reportHour` as a field. The window scan is a method with a loop, proved
against the `Window` specification. The highest and lowest lines are functions
over the `std::set` the source builds, which is modelled as the sequence of
its members in iteration order. Printed values are returned instead.

The extreme readings are deduplicated, because the code builds them from a
`std::set`.

## Model

| member | source | states |
|---|---|---|
| SortedTags.FirstNotBelow | problem1.cpp:31-33 | the scan after the head stops at the first position whose tag is not below `tag`; every tag it passes is below `tag` |
| SortedTags.InsertPosition | problem1.cpp:26-33 | the splice point is 0 exactly when the list is empty or `tag` is below the head's tag; otherwise every tag before it from the head on is at most `tag` and the tag after it is not below `tag` |
| SortedTags.Insert | problem1.cpp:25-35 | the tags after `addPresent`: one more than before; InsertSplice, InsertKeepsSorted, InsertAddsTag and InsertIsSortedInsertion carry the rest of its contract |
| SortedTags.InsertFrom | problem1.cpp:31-35 | the walk after the head, moving on while the next tag is below `tag`, then splicing; one more tag than before; InsertFromSplice ties it to FirstNotBelow |
| SortedTags.InsertFromSplice | problem1.cpp:31-35 | the walk from a position splices `tag` in front of the first tag at or after that position that is not below `tag` |
| SortedTags.InsertSplice | problem1.cpp:25-35 | adding puts `tag` at the splice point and makes the list one longer; removing that position gives back the old tags in their old order |
| SortedTags.IndexOf | problem1.cpp:45-48 | the remove scan stops at the first node carrying `tag`, after only nodes with other tags, and runs off the end exactly when `tag` is absent |
| SortedTags.RemoveFirst | problem1.cpp:42-59 | the tags after `removePresent`; RemoveSplice, RemoveFirstTakesTag and RemoveFirstKeepsSorted carry its contract |
| SortedTags.RemoveFrom | problem1.cpp:45-56 | the prev/current walk that unlinks the first node carrying `tag`; RemoveFromSplice ties it to IndexOf |
| SortedTags.RemoveFromSplice | problem1.cpp:45-56 | a walk started before the first `tag` unlinks exactly that first occurrence, or changes nothing when there is none |
| SortedTags.RemoveSplice | problem1.cpp:45-59 | removal takes out the first occurrence of `tag` and keeps every other tag in order; it shortens the list by one when `tag` is present and leaves it unchanged when `tag` is absent |
| SortedTags.InsertKeepsSorted | problem1.cpp:26-35 | adding to an ascending chain keeps it ascending |
| SortedTags.InsertAddsTag | problem1.cpp:25-35 | the multiset of tags gains exactly one `tag` |
| SortedTags.RemoveFirstTakesTag | problem1.cpp:50-57 | removing a present tag takes exactly one copy of it out of the multiset |
| SortedTags.RemoveFirstKeepsSorted | problem1.cpp:50-57 | removal keeps an ascending chain ascending |
| SortedTags.SortedIsUnique | problem1.cpp:26-35 | two ascending tag sequences with the same multiset are equal |
| SortedTags.InsertIsSortedInsertion | problem1.cpp:26-35 | on an ascending chain, adding gives the one ascending arrangement of the old tags plus `tag` |
| SortedTags.ServantStep | problem1.cpp:85-89 | one turn of `ServantWork`: `addPresent` for an even tag, `removePresent` for an odd one; StepFromEvens and ServeTag carry its contract |
| SortedTags.Served | problem1.cpp:84-90 | the tags after a servant has handled a range, one turn per tag in increasing order; ServedFromEvens, ServedSplit and ServantWork carry its contract |
| SortedTags.Thanked | problem1.cpp:83-90 | the notes written over a range are odd tags of that range, in increasing order |
| SortedTags.EvensIn | problem1.cpp:84-86 | the tags a servant adds over a range: every even tag of the range exactly once, and nothing else |
| SortedTags.StepFromEvens | problem1.cpp:85-89 | on an ascending list of even tags, an even tag is added in order, and an odd tag finds nothing to remove and changes nothing |
| SortedTags.ServedFromEvens | problem1.cpp:83-90 | run from an ascending list of even tags, a servant adds exactly the even tags of its range, and the list stays ascending and all even |
| SortedTags.ThankedFromEvens | problem1.cpp:75-76 | run from an ascending list of even tags, every removal a servant attempts finds nothing, so no note is written |
| SortedTags.ServedSplit | problem1.cpp:83-90 | two servants run one after the other over adjacent ranges leave the same list as one servant over both ranges |
| SortedTags.ThankedSplit | problem1.cpp:83-90 | two servants run one after the other over adjacent ranges write the same notes, in the same order, as one servant over both ranges |
| SortedTags.SequentialServants | problem1.cpp:96-102 | the four servants of the program, run one after another from an empty list, leave the even tags below 100 in ascending order and write no note |
| SortedTags.IntendedThanksEvery | problem1.cpp:85-89 | with the corrected turn (an odd tag thanks the present tag - 1), a run over [0, 2n) from an empty list writes a note for each of the n presents, in order, and leaves the list empty |
| PresentList.Present.constructor | problem1.cpp:12 | a new node carries its tag and no successor |
| PresentList.ConcurrentLinkedList.constructor | problem1.cpp:21 | the list starts empty |
| PresentList.ConcurrentLinkedList.AddPresent | problem1.cpp:23-36 | the chain stays well formed and its tags become `Insert` of the old tags; an empty list or a tag below the head's puts the new node at the head |
| PresentList.ConcurrentLinkedList.LinkAsHead | problem1.cpp:26-28 | the new node becomes the head and the old chain follows it unchanged |
| PresentList.ConcurrentLinkedList.LinkAfter | problem1.cpp:34-35 | the new node is placed right after `current`, and every other node keeps its place and order |
| PresentList.ConcurrentLinkedList.RemovePresent | problem1.cpp:40-60 | returns true exactly when `tag` was in the list; the tags become `RemoveFirst` of the old tags |
| PresentList.ConcurrentLinkedList.Unlink | problem1.cpp:51-56 | the node at position i leaves the chain, its `next` is cleared, and the others keep their order |
| PresentList.ConcurrentLinkedList.FindPresent | problem1.cpp:62-72 | returns true exactly when some node carries `tag`, and changes nothing |
| PresentList.WriteThankYouNote | problem1.cpp:75-81 | a note is written exactly when `tag` was present, and that present leaves the list |
| PresentList.ServeTag | problem1.cpp:85-89 | one pass of the servant's loop: an even tag is added; for an odd tag a note is written exactly when it was present |
| PresentList.ServantWork | problem1.cpp:83-91 | the list ends as `Served` over [start, end] and the notes written are `Thanked` over that range |
| Window.Max | problem2.cpp:88 | the largest reading of a window, as `std::max_element` returns it; MaxIsLargest carries its contract |
| Window.Min | problem2.cpp:89 | the smallest reading of a window, as `std::min_element` returns it; MinIsSmallest carries its contract |
| Window.MaxIsLargest | problem2.cpp:88 | the window's maximum is one of its readings and no reading exceeds it |
| Window.MinIsSmallest | problem2.cpp:89 | the window's minimum is one of its readings and no reading is below it |
| Window.WindowSpread | problem2.cpp:88-90 | a window's spread is never negative |
| Window.SpreadIsLargestGap | problem2.cpp:88-90 | the spread is the largest difference between two readings of the window, and some two readings reach it |
| Window.EarliestLargestUnique | problem2.cpp:92-96 | at most one (difference, start) pair is the earliest window of largest spread |
| Window.SpreadBounded | problem2.cpp:47 | with readings drawn from [lo, hi] no spread exceeds hi - lo (170 for the sensors' range) |
| Extremes.SetInsert | problem2.cpp:104 | inserting into a std::set keeps its members strictly ordered by its comparator, adds `x` and drops a duplicate |
| Extremes.Members | problem2.cpp:115 | the set built from the readings holds exactly the readings, strictly ordered |
| Extremes.OrderedCount | problem2.cpp:107-110 | a strictly ordered set lists each distinct reading once, so its size is the number of distinct readings |
| Extremes.Listed | problem2.cpp:118-121 | a line lists the first min(5, #distinct readings) members in set order, all of them readings, and every reading left out comes after the last one listed |
| Extremes.Lowest | problem2.cpp:114-123 | the lowest line is strictly increasing, holds min(5, #distinct readings) readings, and every reading left out is larger than each listed one |
| Extremes.Highest | problem2.cpp:103-112 | the highest line is strictly decreasing, holds min(5, #distinct readings) readings, and every reading left out is smaller than each listed one |
| Monitor.RawIndex | problem2.cpp:46 | the slot the source computes, with no sensor in it; RawIndexInBuffer and RawIndexLeavesBuffer carry its contract |
| Monitor.RawIndexLeavesBuffer | problem2.cpp:44-47 | the slot the source computes for hour 8, minute 0 is the buffer's length, so a write there falls outside the buffer |
| Monitor.ReadingIndex | problem2.cpp:46 | for an hour below 8, the slot lies inside the 480-slot buffer and hour and minute are recovered from it |
| Monitor.RawIndexInBuffer | problem2.cpp:46 | the source's slot is inside the buffer exactly when hour < 8 |
| Monitor.TemperatureMonitor.constructor | problem2.cpp:20-23 | 480 zero readings, 8 cleared flags, reportHour = -1 |
| Monitor.TemperatureMonitor.RecordReading | problem2.cpp:46-47 | a write for (hour, minute) changes exactly slot `hour * 60 + minute` of the buffer, whichever sensor makes it, and leaves every other slot as it was |
| Monitor.TemperatureMonitor.AllSensorsReady | problem2.cpp:67-69 | true exactly when every sensor's flag is set |
| Monitor.TemperatureMonitor.MarkReady | problem2.cpp:51 | only this sensor's flag changes, to true; all sensors are then ready exactly when every other sensor already was |
| Monitor.TemperatureMonitor.LargestDifference | problem2.cpp:81-97 | the result is the earliest window of largest spread over all window starts in [0, 480 - 10], with endInterval = startInterval + 10 and a difference that is never negative |
| Monitor.TemperatureMonitor.CompileHourlyReport | problem2.cpp:71-79 | a report is produced and reportHour set to `hour` exactly when `hour > reportHour`; otherwise nothing changes; a report holds the scan's result and the highest and lowest lines of the buffer |
| Monitor.ReportSchedule | problem2.cpp:44-59 | sensor 0 asks for a report once a minute for 24 hours; each hour after the starting reportHour is reported exactly once, in order |

## Left out

- Threads, `std::mutex`, `std::condition_variable` and the wait for all sensors (problem2.cpp:49-55, problem1.cpp:24, 41, 63, and `run`/`main`). Every list operation runs under one lock, so each is modelled as a sequential routine. The program's four concurrent servants appear only as `SequentialServants`, run one after another.
- The unlocked reset of a sensor's ready flag (problem2.cpp:62) races with the other sensors' wait, and is not modelled.
- Random readings (problem2.cpp:37-41) are arbitrary integers passed to `RecordReading`. The distribution is declared over an unsigned result type with a minimum of -100; that is not modelled.
- Output to `std::cout`, the 1 ms pause in `writeThankYouNote` and the timing in `main` are left out. Printed values are returned instead: the list of notes from `ServantWork` and the `Report` value from `CompileHourlyReport`.
- `shared_ptr` reference counting: nodes are garbage-collected Dafny objects. An unlinked node stays in `Repr`.
- Monitor.ReportSchedule: sensor 0's loop is modelled only through its calls to `compileHourlyReport`. Its writes to the buffer are left out, because for hours 8 to 23 the slot lies outside the buffer (see Findings). `RecordReading` therefore requires hour < 8.
- Window.WindowSpread: integers are unbounded, so the 32-bit overflow of `localMax - localMin` is not modelled. `SpreadBounded` shows the spread stays at most 170 for readings in [-100, 70].
- SortedTags.Served: tags are unbounded integers, so the overflow of `tag++` at INT_MAX in `ServantWork` is not modelled.
- Monitor.TemperatureMonitor.LargestDifference: the loop bound `size() - step` is computed as an unsigned value. Since the buffer always has 480 slots, it cannot underflow, and the model uses the buffer length directly.
- PresentList.ServantWork models the turn as written. The corrected turn under Findings (`IntendedStep`, `IntendedServed`, `IntendedThanked`) is a specification only, with no list method that runs it.
- Monitor.Report: the report carries no hour number, because the source prints none.
- Monitor.TemperatureMonitor.RecordReading: the slot is `hour * 60 + minute` with no sensor in it, so every minute all eight sensors write the same slot and only the last write stays. Which sensor writes last depends on thread scheduling, which is not modelled. `RecordReading` takes no sensor, so a call stands for any sensor's write.

## Findings

| source | as written | input that shows it | evidently intended | confidence | as-written member | corrected member |
|---|---|---|---|---|---|---|
| problem2.cpp:44-47 | every sensor writes slot `hour * 60 + minute` for hours 0 to 23 into a buffer of 8 * 60 = 480 slots | hour = 8, minute = 0 gives slot 480, one past the end, and hour 23 reaches slot 1439 | every write lands inside the 480-slot buffer | high; not executed | Monitor.RawIndexLeavesBuffer | Monitor.ReadingIndex |
| problem1.cpp:83-110 | an odd tag's turn tries to remove that odd tag, but only even tags are ever added; main still prints that all thank-you notes have been written | the four servants of `main`, run one after another from an empty list: no removal succeeds and no note is written | every present added is later removed with a thank-you note | medium; not executed | SortedTags.SequentialServants | SortedTags.IntendedThanksEvery |
