# Site alive checker: a Dafny model of its core

The program is a PyQt desktop tool that checks whether a list of URLs is alive.
The user loads URLs into a four-column table ("URL", "Result", "Code", "Status") and presses Start.

- **Start.** The coordinator window resets the Result and Code columns. It splits the row numbers into one contiguous part per thread with `split_list`, and gives each part to a worker as a FIFO queue of `(row, url)` pairs.
- **Each worker** pops items while its `_running` flag is up. For every item it probes the URL and emits three signals: a "Checking ..." status, a result record, then a "Done" status. The record is alive exactly when the status code is 200 or 301.
- **Worker signals** go to the window's `onStatus` and `onResult` slots. These fill in the row and count progress.
- **Stop** lowers every worker's flag.
- **Threads.** Each thread's `started` and `finished` signals move a shared counter of active threads.
- **Table helpers.** The window lists the selected rows, inverts the selection, and scans the URL column for duplicates.

The model has one module per source file:

- `Utils` (`utils.dfy`) covers `split_list` as a pure function. It carries the lemmas for:
  - how many slices there are and how large each is;
  - contiguity and bounds;
  - balance;
  - empty trailing slices;
  - tiling: the slices, concatenated, give back the input.
- `Workers` (`workers.dfy`) covers the worker.
  - `CheckAliveWorker` is a class with the queue, the flag and the signals it has emitted so far.
  - Its methods `DoWork`, `CheckNext` and `Run` are proved against the specification functions `DrainEvents` and `DrainCount`. Lemmas cover the order of the signals and the result records.
  - `MyThread` and `ThreadCounter` model the shared `activeCount`. Under well-formed thread lifecycles the counter equals the number of running threads.
- `MainWindow` (`mainwindow.dfy`) covers the coordinator.
  - The window is a class holding the table (a sequence of rows), the view's selection, the spin-box values, the progress counters, and the threads and workers of the current batch.
  - `Start` builds the queues. It is proved to split the rows exactly as `split_list` would and to establish `BatchReady`, the state `RunBatch` needs. `RunBatch` runs the batch one thread at a time and delivers each worker's signals to the slots.
  - Every row a worker processed shows its own outcome, and the progress count reaches the total when nobody stops the batch.

The network probe `check_alive` is a parameter. A `Probe` maps a URL, the timeout and the probe's ordinal within its worker to a `CheckOutcome`. The ordinal lets the same URL answer differently at different times.

A concurrent `stop` becomes a parameter too. `stopAt` (or `stops(i)` for thread `i`) names the loop-head check just before which the worker's flag is lowered, or none. The flag is read only at the loop head. `Some(0)` is a stop landing after `run` raised the flag but before the first check: the worker takes nothing. `Some(j + 1)` is a stop landing while item `j` is probed or just after: that item still completes and no further item is taken.

## Model

| member | source | states |
|---|---|---|
| Utils.SplitList | application/utils.py:28-31 | `split_list(li, n)` yields exactly `n` slices for `n >= 1` and none for negative `n` (where `range(n)` is empty); `n == 0` is excluded, as `divmod` raises there |
| Utils.SliceBounds | application/utils.py:29-31 | the first slice starts at 0, slice `i + 1` starts where slice `i` ends, the step is `k + 1` for the first `m` slices and `k` after (`k, m = divmod(len, n)`), and no bound passes `len` |
| Utils.SliceStartMonotone | application/utils.py:31 | every slice bound lies in `[0, len]` and bounds never decrease |
| Utils.AllSliceBounds | application/utils.py:31 | the same for all pairs of bounds at once |
| Utils.SplitListSlice | application/utils.py:29-31 | slice `i` is exactly `li` between bound `i` and bound `i + 1`, and holds `k + 1` elements when `i < m` and `k` otherwise |
| Utils.SplitListBalanced | application/utils.py:29-31 | slice sizes differ by at most one and larger slices come first |
| Utils.SplitListTrailingEmpty | application/utils.py:29-31 | with more slices than elements, the first `len` slices hold one element each and the trailing ones are empty |
| Utils.SplitListPrefix | application/utils.py:31 | the first `j` slices, concatenated, are the prefix of `li` up to bound `j` |
| Utils.SplitListTiles | application/utils.py:31 | the slices, concatenated in order, are `li` itself: every element lands in exactly one slice and order is kept |
| Workers.DrainCount | application/workers.py:54-55 | a worker never takes more items than its queue holds; with its flag up and a stop before check `j` it takes `min(len, j)`, with no stop all of them, and with its flag down none |
| Workers.DrainEventsLength | application/workers.py:54-65 | processing `n` items emits exactly `3n` signals |
| Workers.DrainEventsAt | application/workers.py:54-65 | item `j` owns signals `3j`, `3j + 1` and `3j + 2`: its "Checking ..." status, its result record (own row and url, alive iff code 200 or 301, the code itself), then its "Done" status |
| Workers.ItemResults | application/workers.py:56-65 | one item's signals carry exactly one result record, for that item |
| Workers.DrainResults | application/workers.py:54-64 | items leave the queue in FIFO order and each yields exactly one result record with its own row and url |
| Workers.DrainEventsPrefix | application/workers.py:54-65 | a worker stopped after `p` items has emitted a prefix of what the full drain emits |
| Workers.CheckAliveWorker.constructor | application/workers.py:31-37 | a new worker holds its queue and timeout with the flag down and nothing emitted |
| Workers.CheckAliveWorker.DoWork | application/workers.py:51-65 | `doWork` takes exactly `DrainCount` items off the front of the queue. The rest stay queued. Its signals are `DrainEvents` of the items taken. The flag stays up exactly when it was up and no stop landed before the check that ended the loop, and then the queue is empty |
| Workers.CheckAliveWorker.CheckNext | application/workers.py:54-65 | one loop turn pops the first item and emits its three signals with that item's probe outcome; a stop landing before the next check lowers the flag, and nothing else does |
| Workers.CheckAliveWorker.Run | application/workers.py:39-43 | `run` raises the flag first, so an earlier stop is forgotten. It then drains as `DoWork` does and emits `finished` once, last. The flag ends up exactly when no stop landed before the check that ended the loop. Without a stop the queue ends empty and the flag up |
| Workers.ActiveCountIsRunning | application/workers.py:10-24 | when each thread starts at most once and finishes only while running, `activeCount` equals the number of running threads and is never negative |
| Workers.ThreadCounter.constructor | application/workers.py:11 | the shared counter starts at 0 with no signals seen |
| Workers.MyThread.IncreaseActiveThreads | application/workers.py:18-20 | `started` raises the shared counter by one and keeps it equal to the count over its signal history |
| Workers.MyThread.DecreaseActiveThreads | application/workers.py:22-24 | `finished` lowers the shared counter by one and keeps it equal to the count over its signal history |
| MainWindow.ItemsFor | application/mainwindow.py:130-132 | a queue built from some rows holds, position by position, each row paired with its URL cell |
| MainWindow.RowParts | application/mainwindow.py:122 | there is one part of row numbers per thread |
| MainWindow.RowPart | application/mainwindow.py:122 | part `i` counts up from its slice's start bound and names only existing rows |
| MainWindow.RowPartsInRange | application/mainwindow.py:122 | every row number in every part is a row of the table |
| MainWindow.QueueIsSlice | application/mainwindow.py:122-133 | queue `i` is slice `i` of the table's `(row, url)` pairs |
| MainWindow.QueuesAreSlices | application/mainwindow.py:122-133 | the queues `start` builds are `split_list` applied to the table's `(row, url)` pairs |
| MainWindow.QueuesTileRows | application/mainwindow.py:122-133 | the queues, concatenated, list every row once in ascending order with its own URL, and queue sizes differ by at most one |
| MainWindow.QueuedRows | application/mainwindow.py:122-133 | workers holding those queues hold `rowCount` items between them, all naming rows of the table, and no row is queued twice |
| MainWindow.RowPartsDisjoint | application/mainwindow.py:122 | two different positions of the row parts, in one part or in two, hold different row numbers |
| MainWindow.QueuesDisjoint | application/mainwindow.py:122-133 | the queues `start` builds never name a row twice, within a queue or across queues |
| MainWindow.TakenRows | application/workers.py:54-55 | what the workers take is a prefix of each queue, so it names only table rows and no row twice |
| MainWindow.RowCells | application/mainwindow.py:286 | `selectRow(i)` selects exactly the four cells of row `i` |
| MainWindow.RowsOfAppend | application/mainwindow.py:284-286 | selecting more cells adds exactly their rows to the selected rows |
| MainWindow.FirstOccurrencesElements | application/mainwindow.py:266-273 | the scan's `items` holds every URL of the table and nothing else, with no repeats |
| MainWindow.FirstOccurrencesOrdered | application/mainwindow.py:266-273 | `items` keeps the order in which URLs first appear in the table |
| MainWindow.FirstOccurrencesShorter | application/mainwindow.py:266-273 | `items` is never longer than the table, and is shorter exactly when some URL occurs twice |
| MainWindow.DuplicatesStep | application/mainwindow.py:270-273 | the URLs up to row `i` repeat exactly when those before row `i` repeat or row `i`'s URL is among them |
| MainWindow.Applied | application/mainwindow.py:167-184 | the slots handling any signals keep the row count and never write the URL column |
| MainWindow.AppliedAppend | application/mainwindow.py:167-184 | handling two runs of signals one after the other is handling their concatenation |
| MainWindow.SignalsInOrder | application/mainwindow.py:167-184 | the slots handle a status, a result and a status in the order they arrive |
| MainWindow.SlotsWriteProcessed | application/mainwindow.py:167-184 | "Checking ...", the result and "Done" on one row leave it with status "Done", the code and "OK" exactly for 200 or 301, and every other row alone |
| MainWindow.ItemEventsApplied | application/mainwindow.py:167-184 | one item's three signals leave its row with status "Done", the code, and "OK" or "Fail" by the result flag; every other row is unchanged |
| MainWindow.DrainLeavesRow | application/mainwindow.py:167-184 | a row no drained item names is unchanged by the worker's signals |
| MainWindow.DrainShowsRow | application/mainwindow.py:167-184 | the row of the `j`-th drained item shows that item's own outcome |
| MainWindow.DrainShowsOutcomes | application/mainwindow.py:167-184 | after a worker's signals each processed row shows "Done", its own code, and "OK" exactly when the code is 200 or 301; the other rows are as they were |
| MainWindow.AppliedFinished | application/workers.py:43 | the `finished` signal leaves the table alone |
| MainWindow.BatchStep | application/mainwindow.py:167-184 | when no row is taken twice, handling one more worker's signals makes the rows it took show their outcomes and keeps every row shown or untouched before |
| MainWindow.TableStep | application/mainwindow.py:167-185 | that step also raises the done count by the number of items the worker took |
| MainWindow.RunEvents | application/mainwindow.py:172-184 | a run that took `p` items delivers exactly `p` result records, all for rows of the table |
| MainWindow.MainWindow.constructor | application/mainwindow.py:57-61 | a new window has no threads, no workers and both progress counters at zero |
| MainWindow.MainWindow.ResetTable | application/mainwindow.py:204-208 | every row's Result and Code cells become blank; URL and Status are untouched and no row is added or removed |
| MainWindow.MainWindow.Start | application/mainwindow.py:119-133 | `start` resets the table. With a thread count of zero it then stops, as `split_list` raises. Otherwise: the total is `rowCount`, done is 0, there is one fresh thread and one idle worker per `split_list` part, worker `i` holds queue `i`, and `BatchReady` holds |
| MainWindow.MainWindow.PrepareBatch | application/mainwindow.py:122-133 | the same facts for the part of `start` after the table reset |
| MainWindow.MainWindow.CreateWorkers | application/mainwindow.py:125-140 | one fresh thread and one fresh worker per part, all distinct; each worker holds its part's `(row, url)` queue with the window's timeout and its flag down, and each thread moves the shared counter |
| MainWindow.MainWindow.QueueFor | application/mainwindow.py:129-132 | the inner loop puts each row of the part, with its URL, on the queue in order |
| MainWindow.MainWindow.Deliver | application/mainwindow.py:167-185 | the slots handling a worker's signals leave the table as `Applied` says, and raise the done count by the number of result records |
| MainWindow.MainWindow.RunThread | application/mainwindow.py:134-142 | one thread's turn: its worker takes `DrainCount` items off the front of its queue, emits their signals and then `finished`, and keeps its flag up exactly when no stop landed before the last check. The table becomes what the slots make of those signals, and the done count rises by exactly the number taken. The counter goes up on `started` and back down on `finished` |
| MainWindow.MainWindow.RunBatch | application/mainwindow.py:134-142 | from `BatchReady`: every worker has taken `DrainCount` items off the front of its queue, keeps the rest, and has emitted their signals then `finished`. Its flag is up exactly when no stop landed before its last check. Every row a worker took shows "Done", its own probe outcome's code, and "OK" exactly for 200 or 301; every other row is as it was. The done count rises by exactly the number of items taken, never passes the total, and equals it when no worker is stopped. The active-thread counter is back where it started |
| MainWindow.MainWindow.RunTurn | application/mainwindow.py:134-142 | one turn of the batch: thread `i`'s worker goes from waiting to having run, and the table and done count extend the batch's invariant to the first `i + 1` workers |
| MainWindow.MainWindow.BatchBegins | application/mainwindow.py:122-142 | the state after `start` is the batch's invariant for no thread run yet, and the total is the done count plus every queued item |
| MainWindow.MainWindow.BatchEnds | application/mainwindow.py:134-142 | the batch's invariant for every thread gives the final facts of `RunBatch`, including that the done count stays within the total |
| MainWindow.MainWindow.ReadyAfterCreate | application/mainwindow.py:122-133 | workers holding the queues `start` builds, with the window's timeout, distinct and paired with threads on the shared counter, are ready to run a batch |
| MainWindow.MainWindow.Stop | application/mainwindow.py:163-165 | every worker's flag is down afterwards, and no queue or emitted signal changes (so a second call, or one with no workers, changes nothing) |
| MainWindow.MainWindow.OnStatus | application/mainwindow.py:167-170 | the status text lands in column 3 of the given row and nowhere else; an index outside the table changes nothing |
| MainWindow.MainWindow.OnResult | application/mainwindow.py:172-184 | the done count rises by exactly one. The result's row gets the status code and "OK" or "Fail" by the result flag. Its URL and Status, and every other row, are unchanged |
| MainWindow.MainWindow.SelectedRows | application/mainwindow.py:253-258 | each row holding a selected cell is listed exactly once, and no other row is |
| MainWindow.MainWindow.InvertSelection | application/mainwindow.py:280-286 | the rows selected afterwards are exactly the table rows that had no selected cell before, and only real columns are selected |
| MainWindow.MainWindow.ScanDuplicates | application/mainwindow.py:265-273 | the scan yields the first occurrence of each URL in table order (see the lemmas above), and `foundDuplicates` is true exactly when some URL occurs twice |

## Left out

- `check_alive` (application/utils.py:11-26) is left out: it is HTTP HEAD/GET through `requests`, with timeouts and exceptions. It is the `Probe` parameter, and its exception text (`msg`) is carried but unused, as in the source.
- Qt threads and signal delivery are left out: `QThread`, `moveToThread`, queued connections and `deleteLater`. Workers on different threads really interleave their signals. `MainWindow.MainWindow.RunBatch` models one schedule only: thread 0 runs to completion, then thread 1, and so on.
- `MainWindow.MainWindow.RunBatch`: a `stop` is modelled as landing just before one loop-head check of the worker (`stops(i)`), including check 0 right after `run` raises the flag. A `stop` before a thread starts is overwritten by `run` raising the flag (`Workers.CheckAliveWorker.Run` states this), so it is not a separate case.
- `MainWindow.MainWindow.InvertSelection` assumes `selectRow` adds its row to the selection, as it does in the view's MultiSelection mode. The view's selection mode is set in a .ui file that is not part of this model. Under Qt's default ExtendedSelection mode `selectRow` replaces the selection, and only the last unselected row would end up selected.
- `MainWindow.MainWindow.OnResult` requires the result's row to exist. For any other row `item(row, 1)` is `None` and the slot raises, so there is no result to model.
- The progress bar's percentage, `int(float(done) / total * 100)` at application/mainwindow.py:185, is left out (floating point). Only the two counters are modelled.
- Fonts and colours set by `onResult` are left out. The `pulse` timer, the active-threads label and the button enabling and disabling are left out too (timers and widgets).
- The rewrite step of `removeDuplicates` (application/mainwindow.py:276-278) is left out. It calls `setData` on indices of a table `clearTable` has just emptied, so its effect rests on how Qt treats invalid indices. `MainWindow.MainWindow.ScanDuplicates` models the scan (lines 266-273).
- `removeSelected`, `clearTable`, import, export, settings, the about dialog, double-click to open a browser, window geometry and main.py are left out: they are UI and I/O.
- The thread count is a `nat`: it comes from a spin box, whose Qt default range is 0 to 99. The widget's range is set in a .ui file that is not part of this model. `Utils.SplitList` still covers negative `n`.
- An empty Code cell is `None` in the model. The source writes `""` in `resetTable` and `None` for a failed probe, and both show as blank.
- The timeout is passed through to the probe only. Its value is not otherwise constrained.
