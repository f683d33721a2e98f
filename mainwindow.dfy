/** Model of the coordinator in application/mainwindow.py: the table of URLs
    and results, the start and stop of a batch, the slots that receive the
    workers' signals, and the row-selection and duplicate-scan helpers. The
    Qt table model is a sequence of rows; the view's selection is the
    sequence of selected cell indices. */
module MainWindow {
  import opened Utils
  import opened Workers

  /** One table row, columns "URL", "Result", "Code" and "Status". An empty
      Code cell (the empty string, or a missing status code) is `None`. */
  datatype Row = Row(url: string, result: string, code: Option<int>, status: string)

  /** A `QModelIndex`: row and column of a cell. */
  datatype CellIndex = CellIndex(row: int, column: int)

  const ColumnCount: nat := 4

  /** The URL column, top to bottom. */
  function Urls(table: seq<Row>): (urls: seq<string>)
    ensures |urls| == |table|
    ensures forall i :: 0 <= i < |table| ==> urls[i] == table[i].url
  {
    seq(|table|, i requires 0 <= i < |table| => table[i].url)
  }

  /** The queue entries for some rows: each row paired with its URL cell. */
  function ItemsFor(table: seq<Row>, rows: seq<nat>): (items: seq<WorkItem>)
    requires forall x :: 0 <= x < |rows| ==> rows[x] < |table|
    ensures |items| == |rows|
    ensures forall x :: 0 <= x < |rows| ==> items[x] == WorkItem(rows[x], table[rows[x]].url)
  {
    if rows == [] then []
    else
      var row := rows[|rows| - 1];
      ItemsFor(table, rows[..|rows| - 1]) + [WorkItem(row, table[row].url)]
  }

  /** Every row of the table with its URL, in row order. */
  function AllItems(table: seq<Row>): seq<WorkItem>
  {
    ItemsFor(table, Range(|table|))
  }

  /** `split_list(range(rowCount), n)`: the row numbers each worker gets. */
  function RowParts(len: nat, n: int): (parts: seq<seq<nat>>)
    requires n != 0
    ensures |parts| == if n > 0 then n else 0
  {
    SplitList(Range(len), n)
  }

  /** Part `i` counts up from the slice's start bound, and stays below `len`. */
  lemma {:induction false} RowPart(len: nat, n: int, i: nat)
    requires n >= 1 && i < n
    ensures forall x :: 0 <= x < |RowParts(len, n)[i]| ==>
      RowParts(len, n)[i][x] == SliceStart(len, n, i) + x < len
  {
    SplitListSlice(Range(len), n, i);
  }

  lemma RowPartsInRange(len: nat, n: int)
    requires n != 0
    ensures forall i, x :: 0 <= i < |RowParts(len, n)| && 0 <= x < |RowParts(len, n)[i]| ==>
      RowParts(len, n)[i][x] < len
  {
    if n > 0 {
      forall i, x | 0 <= i < n && 0 <= x < |RowParts(len, n)[i]|
        ensures RowParts(len, n)[i][x] < len
      {
        RowPart(len, n, i);
      }
    }
  }

  /** The queues `start` builds: `split_list` over the row numbers with the
      thread count, each row paired with its URL cell. */
  function Queues(table: seq<Row>, n: int): (queues: seq<seq<WorkItem>>)
    requires n != 0
    ensures |queues| == |RowParts(|table|, n)|
  {
    RowPartsInRange(|table|, n);
    seq(|RowParts(|table|, n)|, i requires 0 <= i < |RowParts(|table|, n)| =>
      ItemsFor(table, RowParts(|table|, n)[i]))
  }

  lemma QueueAt(table: seq<Row>, n: int, i: nat)
    requires n != 0 && i < |RowParts(|table|, n)|
    ensures forall x :: 0 <= x < |RowParts(|table|, n)[i]| ==> RowParts(|table|, n)[i][x] < |table|
    ensures Queues(table, n)[i] == ItemsFor(table, RowParts(|table|, n)[i])
  {
    RowPartsInRange(|table|, n);
  }

  /** Queue `i` is slice `i` of all the rows: the queues are `split_list`
      applied to the table's `(row, url)` pairs. */
  lemma {:induction false} QueuesAreSlices(table: seq<Row>, n: int)
    requires n >= 1
    ensures Queues(table, n) == SplitList(AllItems(table), n)
  {
    forall i | 0 <= i < n
      ensures Queues(table, n)[i] == SplitList(AllItems(table), n)[i]
    {
      QueueIsSlice(table, n, i);
    }
  }

  lemma QueueIsSlice(table: seq<Row>, n: int, i: nat)
    requires n >= 1 && i < n
    ensures Queues(table, n)[i] == SplitList(AllItems(table), n)[i]
  {
    var all := AllItems(table);
    SplitListSlice(all, n, i);
    var a, b := SliceStart(|table|, n, i), SliceStart(|table|, n, i + 1);
    RowPart(|table|, n, i);
    QueueAt(table, n, i);
    var queue, slice := Queues(table, n)[i], SplitList(all, n)[i];
    assert |queue| == b - a == |slice|;
    forall x | 0 <= x < |queue|
      ensures queue[x] == slice[x]
    {
      assert slice[x] == all[a + x];
    }
  }

  /** Every row lands in exactly one worker queue, with its own URL, and the
      queues taken in order list the rows in ascending order; queue sizes
      differ by at most one. */
  lemma {:induction false} QueuesTileRows(table: seq<Row>, n: int)
    requires n >= 1
    ensures Flatten(Queues(table, n)) == AllItems(table)
    ensures forall r :: 0 <= r < |table| ==> AllItems(table)[r] == WorkItem(r, table[r].url)
    ensures forall i, j :: 0 <= i <= j < n ==>
      |Queues(table, n)[j]| <= |Queues(table, n)[i]| <= |Queues(table, n)[j]| + 1
  {
    QueuesAreSlices(table, n);
    SplitListTiles(AllItems(table), n);
    forall i, j | 0 <= i <= j < n
      ensures |Queues(table, n)[j]| <= |Queues(table, n)[i]| <= |Queues(table, n)[j]| + 1
    {
      SplitListBalanced(AllItems(table), n, i, j);
    }
  }

  /** The rows some selected cells lie in. */
  function RowsOf(selection: seq<CellIndex>): set<int>
  {
    set c | c in selection :: c.row
  }

  /** The cells `selectRow(row)` selects: every column of the row. */
  function RowCells(row: int): (cells: seq<CellIndex>)
    ensures forall c :: c in cells <==> c.row == row && 0 <= c.column < ColumnCount
  {
    [CellIndex(row, 0), CellIndex(row, 1), CellIndex(row, 2), CellIndex(row, 3)]
  }

  lemma RowsOfAppend(a: seq<CellIndex>, b: seq<CellIndex>)
    ensures RowsOf(a + b) == RowsOf(a) + RowsOf(b)
  {
    assert forall c :: c in a + b <==> c in a || c in b;
  }

  /** Position of the first occurrence of `u` in `urls`. */
  function FirstIndex(urls: seq<string>, u: string): (i: nat)
    requires u in urls
    ensures i < |urls| && urls[i] == u && u !in urls[..i]
  {
    if urls[0] == u then 0 else 1 + FirstIndex(urls[1..], u)
  }

  /** Some URL occurs twice. */
  predicate HasDuplicates(urls: seq<string>)
  {
    exists i, j :: 0 <= i < j < |urls| && urls[i] == urls[j]
  }

  /** No element occurs twice. */
  predicate NoRepeats<T(==)>(s: seq<T>)
  {
    forall x, y :: 0 <= x < y < |s| ==> s[x] != s[y]
  }

  /** The first occurrence of each URL, in the order of the table. */
  function FirstOccurrences(urls: seq<string>): seq<string>
  {
    if urls == [] then []
    else
      var init, last := FirstOccurrences(urls[..|urls| - 1]), urls[|urls| - 1];
      if last in init then init else init + [last]
  }

  /** The first occurrences hold every URL once and nothing else. */
  lemma {:induction false} FirstOccurrencesElements(urls: seq<string>)
    ensures NoRepeats(FirstOccurrences(urls))
    ensures forall u :: u in FirstOccurrences(urls) <==> u in urls
  {
    if urls != [] {
      var n := |urls| - 1;
      FirstOccurrencesElements(urls[..n]);
      assert urls == urls[..n] + [urls[n]];
    }
  }

  /** A position holding `u` with no `u` before it is the first index of `u`. */
  lemma {:induction false} FirstIndexUnique(urls: seq<string>, u: string, i: nat)
    requires i < |urls| && urls[i] == u && u !in urls[..i]
    ensures FirstIndex(urls, u) == i
  {
    if i > 0 {
      assert urls[..i][0] == urls[0];
      assert urls[1..][..i - 1] == urls[1..i];
      FirstIndexUnique(urls[1..], u, i - 1);
    }
  }

  lemma FirstIndexOfPrefix(urls: seq<string>, n: nat, u: string)
    requires n <= |urls| && u in urls[..n]
    ensures FirstIndex(urls[..n], u) == FirstIndex(urls, u)
  {
    var i := FirstIndex(urls[..n], u);
    assert urls[..n][..i] == urls[..i];
    FirstIndexUnique(urls, u, i);
  }

  /** The first occurrences keep the order in which URLs first appear. */
  lemma {:induction false} FirstOccurrencesOrdered(urls: seq<string>)
    ensures forall x, y :: 0 <= x < y < |FirstOccurrences(urls)| ==>
      && FirstOccurrences(urls)[x] in urls && FirstOccurrences(urls)[y] in urls
      && FirstIndex(urls, FirstOccurrences(urls)[x]) < FirstIndex(urls, FirstOccurrences(urls)[y])
  {
    if urls != [] {
      var n := |urls| - 1;
      var pre := urls[..n];
      var init, items := FirstOccurrences(pre), FirstOccurrences(urls);
      FirstOccurrencesOrdered(pre);
      FirstOccurrencesElements(pre);
      forall x | 0 <= x < |init|
        ensures init[x] in urls && FirstIndex(urls, init[x]) == FirstIndex(pre, init[x])
      {
        FirstIndexOfPrefix(urls, n, init[x]);
      }
      if urls[n] in init {
        assert items == init;
        forall x, y | 0 <= x < y < |items|
          ensures items[x] in urls && items[y] in urls && FirstIndex(urls, items[x]) < FirstIndex(urls, items[y])
        {
          assert FirstIndex(pre, init[x]) < FirstIndex(pre, init[y]);
        }
      } else {
        assert items == init + [urls[n]];
        assert urls[n] !in pre;
        FirstIndexUnique(urls, urls[n], n);
        forall x, y | 0 <= x < y < |items|
          ensures items[x] in urls && items[y] in urls && FirstIndex(urls, items[x]) < FirstIndex(urls, items[y])
        {
          if y == |init| {
            assert items[x] == init[x] && items[y] == urls[n];
          } else {
            assert items[x] == init[x] && items[y] == init[y];
          }
        }
      }
    } else {
      assert FirstOccurrences(urls) == [];
    }
  }

  /** Fewer first occurrences than URLs exactly when some URL repeats. */
  lemma {:induction false} FirstOccurrencesShorter(urls: seq<string>)
    ensures |FirstOccurrences(urls)| <= |urls|
    ensures |FirstOccurrences(urls)| < |urls| <==> HasDuplicates(urls)
  {
    if urls != [] {
      var n := |urls| - 1;
      var pre := urls[..n];
      FirstOccurrencesShorter(pre);
      FirstOccurrencesElements(pre);
      DuplicatesStep(urls, n);
      assert urls[..n + 1] == urls;
      if urls[n] in pre {
        assert FirstOccurrences(urls) == FirstOccurrences(pre);
        assert HasDuplicates(urls);
      } else {
        assert FirstOccurrences(urls) == FirstOccurrences(pre) + [urls[n]];
        assert HasDuplicates(urls) == HasDuplicates(pre);
      }
    }
  }

  /** The URLs up to `n + 1` repeat when those up to `n` do or the URL at `n`
      is among them. */
  lemma DuplicatesStep(urls: seq<string>, n: nat)
    requires n < |urls|
    ensures HasDuplicates(urls[..n + 1]) <==> HasDuplicates(urls[..n]) || urls[n] in urls[..n]
  {
    var pre, ext := urls[..n], urls[..n + 1];
    if HasDuplicates(ext) {
      var i, j :| 0 <= i < j < |ext| && ext[i] == ext[j];
      if j < n {
        assert pre[i] == pre[j];
      } else {
        assert pre[i] == urls[n];
      }
    }
    if urls[n] in pre {
      var i :| 0 <= i < n && pre[i] == urls[n];
      assert ext[i] == ext[n];
    }
    if HasDuplicates(pre) {
      var i, j :| 0 <= i < j < |pre| && pre[i] == pre[j];
      assert ext[i] == ext[j];
    }
  }

  /** The text `onResult` writes into the Result column. */
  function ResultText(alive: bool): string
  {
    if alive then "OK" else "Fail"
  }

  /** The table after `onStatus(row, status)`: an index outside the table is
      invalid, and `setData` leaves everything as it was. */
  function WithStatus(table: seq<Row>, row: int, status: string): seq<Row>
  {
    if 0 <= row < |table| then table[row := table[row].(status := status)] else table
  }

  /** The table after `onResult(record)`. */
  function WithResult(table: seq<Row>, record: ResultRecord): seq<Row>
    requires 0 <= record.row < |table|
  {
    table[record.row := table[record.row].(code := record.statusCode, result := ResultText(record.result))]
  }

  /** Every result among some signals names a row of a table of `n` rows. */
  predicate ResultRowsIn(events: seq<Event>, n: nat)
  {
    forall k :: 0 <= k < |events| && events[k].Result? ==> 0 <= events[k].record.row < n
  }

  /** The table after the window's slots have handled some signals in order;
      `finished` goes to the thread and leaves the table alone. The slots
      never add or remove rows and never write the URL column. */
  function Applied(table: seq<Row>, events: seq<Event>): (t: seq<Row>)
    requires ResultRowsIn(events, |table|)
    ensures |t| == |table|
    ensures forall r :: 0 <= r < |table| ==> t[r].url == table[r].url
  {
    if events == [] then table
    else
      var n := |events| - 1;
      ResultRowsInPrefix(events, n, |table|);
      var before := Applied(table, events[..n]);
      match events[n]
      case Status(row, text) => WithStatus(before, row, text)
      case Result(record) => WithResult(before, record)
      case Finished => before
  }

  lemma {:induction false} AppliedAppend(table: seq<Row>, a: seq<Event>, b: seq<Event>)
    requires ResultRowsIn(a + b, |table|)
    ensures ResultRowsIn(a, |table|) && ResultRowsIn(b, |table|)
    ensures Applied(table, a + b) == Applied(Applied(table, a), b)
  {
    assert forall k :: 0 <= k < |a| ==> (a + b)[k] == a[k];
    assert forall k :: 0 <= k < |b| ==> (a + b)[|a| + k] == b[k];
    if b != [] {
      var n := |b| - 1;
      assert (a + b)[..|a + b| - 1] == a + b[..n];
      assert ResultRowsIn(a + b[..n], |table|) by {
        forall k | 0 <= k < |a + b[..n]| && (a + b[..n])[k].Result?
          ensures 0 <= (a + b[..n])[k].record.row < |table|
        {
          assert (a + b[..n])[k] == (a + b)[k];
        }
      }
      AppliedAppend(table, a, b[..n]);
      assert (a + b)[|a + b| - 1] == b[n];
    } else {
      assert a + b == a;
    }
  }

  /** Handling the signals up to `k + 1` is handling those up to `k`, then
      the one at `k`. */
  lemma AppliedPrefixStep(table: seq<Row>, events: seq<Event>, k: nat)
    requires k < |events| && ResultRowsIn(events, |table|)
    ensures ResultRowsIn(events[..k], |table|) && ResultRowsIn(events[..k + 1], |table|)
    ensures events[k].Status? ==>
      Applied(table, events[..k + 1]) == WithStatus(Applied(table, events[..k]), events[k].row, events[k].text)
    ensures events[k].Result? ==>
      Applied(table, events[..k + 1]) == WithResult(Applied(table, events[..k]), events[k].record)
    ensures events[k].Finished? ==> Applied(table, events[..k + 1]) == Applied(table, events[..k])
  {
    ResultRowsInPrefix(events, k, |table|);
    ResultRowsInPrefix(events, k + 1, |table|);
    assert events[..k + 1][..k] == events[..k];
  }

  /** Rows of some work items are rows of the table, each row at most once. */
  predicate DistinctRowsIn(items: seq<WorkItem>, n: nat)
  {
    && (forall j :: 0 <= j < |items| ==> 0 <= items[j].row < n)
    && (forall j, k :: 0 <= j < k < |items| ==> items[j].row != items[k].row)
  }

  /** What a processed item leaves in its row: status "Done", the probe's
      status code, and "OK" exactly when that code is 200 or 301. */
  function Processed(before: Row, outcome: CheckOutcome): Row
  {
    before.(status := "Done", code := outcome.statusCode,
            result := if outcome.statusCode == Some(200) || outcome.statusCode == Some(301) then "OK" else "Fail")
  }

  lemma ResultRowsInPrefix(events: seq<Event>, k: nat, n: nat)
    requires k <= |events| && ResultRowsIn(events, n)
    ensures ResultRowsIn(events[..k], n)
  {
    assert forall x :: 0 <= x < k ==> events[..k][x] == events[x];
  }

  lemma ResultRowsInAppend(a: seq<Event>, b: seq<Event>, n: nat)
    requires ResultRowsIn(a, n) && ResultRowsIn(b, n)
    ensures ResultRowsIn(a + b, n)
  {
    forall k | 0 <= k < |a + b| && (a + b)[k].Result?
      ensures 0 <= (a + b)[k].record.row < n
    {
      if k < |a| {
        assert (a + b)[k] == a[k];
      } else {
        assert (a + b)[k] == b[k - |a|];
      }
    }
  }

  /** The window handling one item's three signals. */
  lemma ItemEventsApplied(table: seq<Row>, item: WorkItem, outcome: CheckOutcome)
    requires 0 <= item.row < |table|
    ensures ResultRowsIn(ItemEvents(item, outcome), |table|)
    ensures Applied(table, ItemEvents(item, outcome)) == table[item.row := Processed(table[item.row], outcome)]
  {
    var record := ResultRecord(item.row, item.url, IsAlive(outcome.statusCode), outcome.statusCode);
    SignalsInOrder(table, [Status(item.row, CheckingText), Result(record), Status(item.row, DoneText)]);
    SlotsWriteProcessed(table, item, outcome);
  }

  /** The window handles three signals in the order they come. */
  lemma SignalsInOrder(table: seq<Row>, events: seq<Event>)
    requires |events| == 3 && events[0].Status? && events[1].Result? && events[2].Status?
    requires 0 <= events[1].record.row < |table|
    ensures ResultRowsIn(events, |table|)
    ensures Applied(table, events) ==
      WithStatus(WithResult(WithStatus(table, events[0].row, events[0].text), events[1].record), events[2].row, events[2].text)
  {
    assert ResultRowsIn(events, |table|);
    AppliedPrefixStep(table, events, 0);
    AppliedPrefixStep(table, events, 1);
    AppliedPrefixStep(table, events, 2);
    assert events[..0] == [];
    assert events[..3] == events;
  }

  /** `onStatus` "Checking ...", `onResult` and `onStatus` "Done" on one row
      leave it processed and every other row alone. */
  lemma SlotsWriteProcessed(table: seq<Row>, item: WorkItem, outcome: CheckOutcome)
    requires 0 <= item.row < |table|
    ensures WithStatus(WithResult(WithStatus(table, item.row, CheckingText),
                                  ResultRecord(item.row, item.url, IsAlive(outcome.statusCode), outcome.statusCode)),
                       item.row, DoneText)
         == table[item.row := Processed(table[item.row], outcome)]
  {
    AliveIff(outcome.statusCode);
    var record := ResultRecord(item.row, item.url, IsAlive(outcome.statusCode), outcome.statusCode);
    var a1 := WithStatus(table, item.row, CheckingText);
    var a3 := WithStatus(WithResult(a1, record), item.row, DoneText);
    var t := table[item.row := Processed(table[item.row], outcome)];
    assert a3[item.row] == t[item.row];
    assert forall r :: 0 <= r < |table| && r != item.row ==> a3[r] == t[r];
  }

  /** Draining yields results only for the drained items' rows. */
  lemma {:induction false} DrainResultRows(items: seq<WorkItem>, probe: Probe, timeout: int, n: nat)
    requires forall j :: 0 <= j < |items| ==> 0 <= items[j].row < n
    ensures ResultRowsIn(DrainEvents(items, probe, timeout), n)
  {
    if items != [] {
      var m := |items| - 1;
      DrainResultRows(items[..m], probe, timeout, n);
      ResultRowsInAppend(DrainEvents(items[..m], probe, timeout),
                         ItemEvents(items[m], probe(items[m].url, timeout, m)), n);
    }
  }

  /** Handling a worker's signals is handling those of all but its last item,
      then the last item's. */
  lemma DrainLast(table: seq<Row>, items: seq<WorkItem>, probe: Probe, timeout: int)
    requires items != []
    requires forall j :: 0 <= j < |items| ==> 0 <= items[j].row < |table|
    ensures ResultRowsIn(DrainEvents(items, probe, timeout), |table|)
    ensures ResultRowsIn(DrainEvents(items[..|items| - 1], probe, timeout), |table|)
    ensures Applied(table, DrainEvents(items, probe, timeout)) ==
      Applied(table, DrainEvents(items[..|items| - 1], probe, timeout))[items[|items| - 1].row :=
        Processed(Applied(table, DrainEvents(items[..|items| - 1], probe, timeout))[items[|items| - 1].row],
                  probe(items[|items| - 1].url, timeout, |items| - 1))]
  {
    var n := |items| - 1;
    var front := DrainEvents(items[..n], probe, timeout);
    var last := ItemEvents(items[n], probe(items[n].url, timeout, n));
    DrainResultRows(items, probe, timeout, |table|);
    AppliedAppend(table, front, last);
    ItemEventsApplied(Applied(table, front), items[n], probe(items[n].url, timeout, n));
  }

  /** Rows the worker never took are as they were. */
  lemma {:induction false} DrainLeavesRow(table: seq<Row>, items: seq<WorkItem>, probe: Probe, timeout: int, r: int)
    requires 0 <= r < |table|
    requires forall j :: 0 <= j < |items| ==> 0 <= items[j].row < |table| && items[j].row != r
    ensures ResultRowsIn(DrainEvents(items, probe, timeout), |table|)
    ensures Applied(table, DrainEvents(items, probe, timeout))[r] == table[r]
  {
    DrainResultRows(items, probe, timeout, |table|);
    if items != [] {
      var n := |items| - 1;
      DrainLast(table, items, probe, timeout);
      assert forall j :: 0 <= j < n ==> items[..n][j] == items[j];
      DrainLeavesRow(table, items[..n], probe, timeout, r);
      var before := Applied(table, DrainEvents(items[..n], probe, timeout));
      assert Applied(table, DrainEvents(items, probe, timeout))[r] == before[r] by {
        assert items[n].row != r;
      }
    } else {
      assert DrainEvents(items, probe, timeout) == [];
    }
  }

  /** The row of the `j`-th item shows that item's outcome. */
  lemma {:induction false} DrainShowsRow(table: seq<Row>, items: seq<WorkItem>, probe: Probe, timeout: int, j: nat)
    requires DistinctRowsIn(items, |table|) && j < |items|
    ensures ResultRowsIn(DrainEvents(items, probe, timeout), |table|)
    ensures Applied(table, DrainEvents(items, probe, timeout))[items[j].row] ==
        Processed(table[items[j].row], probe(items[j].url, timeout, j))
  {
    var n := |items| - 1;
    var pre := items[..n];
    DrainLast(table, items, probe, timeout);
    if j == n {
      forall k | 0 <= k < |pre|
        ensures 0 <= pre[k].row < |table| && pre[k].row != items[n].row
      {
        assert pre[k] == items[k];
      }
      DrainLeavesRow(table, pre, probe, timeout, items[n].row);
      AliveIff(probe(items[n].url, timeout, n).statusCode);
    } else {
      DistinctPrefix(items, n, |table|);
      DrainShowsRow(table, pre, probe, timeout, j);
      assert pre[j] == items[j];
      assert items[j].row != items[n].row;
    }
  }

  lemma DistinctPrefix(items: seq<WorkItem>, n: nat, size: nat)
    requires n <= |items| && DistinctRowsIn(items, size)
    ensures DistinctRowsIn(items[..n], size)
  {
    assert forall k :: 0 <= k < n ==> items[..n][k] == items[k];
  }

  /** Once the window has handled a worker's signals, every row the worker
      processed shows its own outcome, and every other row is as it was. */
  lemma DrainShowsOutcomes(table: seq<Row>, items: seq<WorkItem>, probe: Probe, timeout: int)
    requires DistinctRowsIn(items, |table|)
    ensures ResultRowsIn(DrainEvents(items, probe, timeout), |table|)
    ensures forall j :: 0 <= j < |items| ==>
      Applied(table, DrainEvents(items, probe, timeout))[items[j].row] ==
        Processed(table[items[j].row], probe(items[j].url, timeout, j))
    ensures forall r :: 0 <= r < |table| && (forall j :: 0 <= j < |items| ==> items[j].row != r) ==>
      Applied(table, DrainEvents(items, probe, timeout))[r] == table[r]
  {
    DrainResultRows(items, probe, timeout, |table|);
    forall j | 0 <= j < |items|
      ensures Applied(table, DrainEvents(items, probe, timeout))[items[j].row] ==
        Processed(table[items[j].row], probe(items[j].url, timeout, j))
    {
      DrainShowsRow(table, items, probe, timeout, j);
    }
    forall r | 0 <= r < |table| && (forall j :: 0 <= j < |items| ==> items[j].row != r)
      ensures Applied(table, DrainEvents(items, probe, timeout))[r] == table[r]
    {
      DrainLeavesRow(table, items, probe, timeout, r);
    }
  }

  /** The signals of a worker's run that took the first `p` items of its queue
      name only rows the queue names, and carry one result per item taken. */
  lemma RunEvents(queue: seq<WorkItem>, p: nat, probe: Probe, timeout: int, size: nat)
    requires p <= |queue|
    requires forall x :: 0 <= x < |queue| ==> 0 <= queue[x].row < size
    ensures ResultRowsIn(DrainEvents(queue[..p], probe, timeout) + [Finished], size)
    ensures |ResultsOf(DrainEvents(queue[..p], probe, timeout) + [Finished])| == p
  {
    var drained := DrainEvents(queue[..p], probe, timeout);
    DrainResults(queue[..p], probe, timeout);
    ResultsOfAppend(drained, [Finished]);
    assert ResultsOf([Finished]) == [] by {
      assert [Finished][..0] == [];
    }
    assert forall x :: 0 <= x < p ==> queue[..p][x] == queue[x];
    DrainResultRows(queue[..p], probe, timeout, size);
    ResultRowsInAppend(drained, [Finished], size);
  }

  /** Items left in some workers' queues, all together. */
  ghost function QueuedItems(workers: seq<CheckAliveWorker>): nat
    reads workers
  {
    if workers == [] then 0 else |workers[0].queue| + QueuedItems(workers[1..])
  }

  lemma {:induction false} QueuedItemsOf(workers: seq<CheckAliveWorker>, queues: seq<seq<WorkItem>>)
    requires |workers| == |queues|
    requires forall i :: 0 <= i < |workers| ==> workers[i].queue == queues[i]
    ensures QueuedItems(workers) == SumLengths(queues)
  {
    if workers != [] {
      QueuedItemsOf(workers[1..], queues[1..]);
    }
  }

  lemma QueuesOfParts(table: seq<Row>, n: int)
    requires n != 0
    ensures forall i, x :: 0 <= i < |RowParts(|table|, n)| && 0 <= x < |RowParts(|table|, n)[i]| ==>
      RowParts(|table|, n)[i][x] < |table|
    ensures forall i :: 0 <= i < |RowParts(|table|, n)| ==>
      Queues(table, n)[i] == ItemsFor(table, RowParts(|table|, n)[i])
  {
    forall i | 0 <= i < |RowParts(|table|, n)|
      ensures forall x :: 0 <= x < |RowParts(|table|, n)[i]| ==> RowParts(|table|, n)[i][x] < |table|
      ensures Queues(table, n)[i] == ItemsFor(table, RowParts(|table|, n)[i])
    {
      QueueAt(table, n, i);
    }
  }

  /** Workers holding the queues `start` builds hold every row of the table
      once between them, and only rows of the table. */
  lemma QueuedRows(table: seq<Row>, n: int, workers: seq<CheckAliveWorker>)
    requires n >= 1 && |workers| == |Queues(table, n)|
    requires forall i :: 0 <= i < |workers| ==> workers[i].queue == Queues(table, n)[i]
    ensures QueuedItems(workers) == |table|
    ensures forall i, x :: 0 <= i < |workers| && 0 <= x < |workers[i].queue| ==>
      0 <= workers[i].queue[x].row < |table|
    ensures RowsIn(QueuesOf(workers), |table|) && DisjointRows(QueuesOf(workers))
  {
    var queues := Queues(table, n);
    assert RowsIn(queues, |table|) by {
      forall i, x | 0 <= i < |queues| && 0 <= x < |queues[i]|
        ensures 0 <= queues[i][x].row < |table|
      {
        QueueAt(table, n, i);
      }
    }
    QueuesDisjoint(table, n);
    assert QueuesOf(workers) == queues;
    assert QueuedItems(workers) == |table| by {
      QueuedItemsOf(workers, queues);
      QueuesTileRows(table, n);
      FlattenLength(queues);
    }
  }

  /** The queues of some workers, in order. */
  ghost function QueuesOf(workers: seq<CheckAliveWorker>): (queues: seq<seq<WorkItem>>)
    reads workers
    ensures |queues| == |workers|
    ensures forall i :: 0 <= i < |workers| ==> queues[i] == workers[i].queue
  {
    if workers == [] then [] else [workers[0].queue] + QueuesOf(workers[1..])
  }

  /** The signals some workers have emitted so far, in order. */
  ghost function TracesOf(workers: seq<CheckAliveWorker>): (traces: seq<seq<Event>>)
    reads workers
    ensures |traces| == |workers|
    ensures forall i :: 0 <= i < |workers| ==> traces[i] == workers[i].trace
  {
    if workers == [] then [] else [workers[0].trace] + TracesOf(workers[1..])
  }

  /** A worker whose thread has not run yet: queue and signals as they were. */
  ghost predicate Waiting(w: CheckAliveWorker, queue: seq<WorkItem>, trace: seq<Event>)
    reads w
  {
    w.queue == queue && w.trace == trace
  }

  /** A worker whose thread has run, taking `took` off the front of `queue`
      with `stop` reaching it at `stop`: the rest stays queued, the flag is up
      only if the stop came too late to matter, and the signals of the items
      taken, then `finished`, follow those emitted before. */
  ghost predicate Ran(w: CheckAliveWorker, queue: seq<WorkItem>, trace: seq<Event>, took: seq<WorkItem>,
                      stop: Option<nat>, probe: Probe, timeout: int)
    reads w
  {
    && |took| <= |queue|
    && w.queue == queue[|took|..]
    && w.running == (stop.None? || |took| < stop.value)
    && w.trace == trace + DrainEvents(took, probe, timeout) + [Finished]
  }

  /** Shorter sequences have a smaller total length. */
  lemma {:induction false} SumLengthsMonotone<T>(a: seq<seq<T>>, b: seq<seq<T>>)
    requires |a| == |b| && forall i :: 0 <= i < |a| ==> |a[i]| <= |b[i]|
    ensures SumLengths(a) <= SumLengths(b)
    ensures (forall i :: 0 <= i < |a| ==> |a[i]| == |b[i]|) ==> SumLengths(a) == SumLengths(b)
  {
    if a != [] {
      SumLengthsMonotone(a[1..], b[1..]);
    }
  }

  /** Every item of some queues names a row of a table of `n` rows. */
  predicate RowsIn(queues: seq<seq<WorkItem>>, n: nat)
  {
    forall i, x :: 0 <= i < |queues| && 0 <= x < |queues[i]| ==> 0 <= queues[i][x].row < n
  }

  /** No row is named twice, within a queue or across queues. */
  predicate DisjointRows(queues: seq<seq<WorkItem>>)
  {
    forall i, k, x, y ::
      && 0 <= i < |queues| && 0 <= k < |queues| && 0 <= x < |queues[i]| && 0 <= y < |queues[k]|
      && (i != k || x != y)
      ==> queues[i][x].row != queues[k][y].row
  }

  /** The items each worker of a batch takes from its queue when `stop`
      reaches worker `i` at `stops(i)` (see `DrainCount`). */
  function Taken(queues: seq<seq<WorkItem>>, stops: nat -> Option<nat>): (taken: seq<seq<WorkItem>>)
    ensures |taken| == |queues|
    ensures forall i :: 0 <= i < |queues| ==> taken[i] == queues[i][..DrainCount(|queues[i]|, true, stops(i))]
  {
    seq(|queues|, i requires 0 <= i < |queues| => queues[i][..DrainCount(|queues[i]|, true, stops(i))])
  }

  /** Every item taken shows, in its row of `t`, the outcome of its probe on
      top of what the row held in `t0`; worker `i` probes through `network(i)`,
      and its `j`-th item is its `j`-th probe. */
  predicate ShowsBatch(t: seq<Row>, t0: seq<Row>, taken: seq<seq<WorkItem>>, network: nat -> Probe, timeout: int)
  {
    forall i, j :: 0 <= i < |taken| && 0 <= j < |taken[i]| ==>
      && 0 <= taken[i][j].row < |t| && taken[i][j].row < |t0|
      && t[taken[i][j].row] == Processed(t0[taken[i][j].row], network(i)(taken[i][j].url, timeout, j))
  }

  /** No item taken names row `r`. */
  predicate Untouched(taken: seq<seq<WorkItem>>, r: int)
  {
    forall i, j :: 0 <= i < |taken| && 0 <= j < |taken[i]| ==> taken[i][j].row != r
  }

  /** Rows no item taken names are the same in `t` as in `t0`. */
  predicate KeepsUntouched(t: seq<Row>, t0: seq<Row>, taken: seq<seq<WorkItem>>)
  {
    && |t| == |t0|
    && forall r :: 0 <= r < |t| && Untouched(taken, r) ==> t[r] == t0[r]
  }

  /** Two positions of the row parts of `start` hold different rows. */
  lemma RowPartsDisjoint(len: nat, n: int, i: nat, k: nat, x: nat, y: nat)
    requires n >= 1 && i < n && k < n
    requires x < |RowParts(len, n)[i]| && y < |RowParts(len, n)[k]|
    requires i != k || x != y
    ensures RowParts(len, n)[i][x] != RowParts(len, n)[k][y]
  {
    RowPart(len, n, i);
    RowPart(len, n, k);
    SplitListSlice(Range(len), n, i);
    SplitListSlice(Range(len), n, k);
    if i < k {
      SliceStartMonotone(len, n, i + 1, k);
    } else if k < i {
      SliceStartMonotone(len, n, k + 1, i);
    }
  }

  /** The queues `start` builds never name a row twice. */
  lemma QueuesDisjoint(table: seq<Row>, n: int)
    requires n >= 1
    ensures DisjointRows(Queues(table, n))
  {
    var queues: seq<seq<WorkItem>> := Queues(table, n);
    forall i: nat, k: nat, x: nat, y: nat |
      i < |queues| && k < |queues| && x < |queues[i]| && y < |queues[k]| && (i != k || x != y)
      ensures queues[i][x].row != queues[k][y].row
    {
      QueueAt(table, n, i);
      QueueAt(table, n, k);
      RowPartsDisjoint(|table|, n, i, k, x, y);
    }
  }

  /** What each worker takes is a prefix of its queue, so it keeps the rows
      in range and disjoint. */
  lemma TakenRows(queues: seq<seq<WorkItem>>, stops: nat -> Option<nat>, n: nat)
    requires RowsIn(queues, n) && DisjointRows(queues)
    ensures RowsIn(Taken(queues, stops), n) && DisjointRows(Taken(queues, stops))
  {
    var taken := Taken(queues, stops);
    forall i, x | 0 <= i < |taken| && 0 <= x < |taken[i]|
      ensures taken[i][x] == queues[i][x]
    {
      assert taken[i] == queues[i][..DrainCount(|queues[i]|, true, stops(i))];
    }
  }

  /** `finished` leaves the table alone. */
  lemma AppliedFinished(table: seq<Row>, events: seq<Event>)
    requires ResultRowsIn(events, |table|)
    ensures ResultRowsIn(events + [Finished], |table|)
    ensures Applied(table, events + [Finished]) == Applied(table, events)
  {
    assert (events + [Finished])[..|events|] == events;
  }

  /** One more worker's signals handled: the rows it took show their
      outcomes, the rows earlier workers took still show theirs (no other
      worker names them), and the rows nobody took are as they were. */
  lemma BatchStep(t0: seq<Row>, before: seq<Row>, all: seq<seq<WorkItem>>, n: nat, network: nat -> Probe, timeout: int)
    requires n < |all| && |before| == |t0|
    requires RowsIn(all, |t0|) && DisjointRows(all)
    requires ShowsBatch(before, t0, all[..n], network, timeout) && KeepsUntouched(before, t0, all[..n])
    ensures ResultRowsIn(DrainEvents(all[n], network(n), timeout) + [Finished], |before|)
    ensures ShowsBatch(Applied(before, DrainEvents(all[n], network(n), timeout) + [Finished]), t0, all[..n + 1], network, timeout)
    ensures KeepsUntouched(Applied(before, DrainEvents(all[n], network(n), timeout) + [Finished]), t0, all[..n + 1])
  {
    var next := all[n];
    var events := DrainEvents(next, network(n), timeout);
    assert DistinctRowsIn(next, |before|);
    DrainShowsOutcomes(before, next, network(n), timeout);
    AppliedFinished(before, events);
    var after := Applied(before, events);
    BatchShowsStep(t0, before, after, all, n, network, timeout);
    BatchKeepsStep(t0, before, after, all, n);
  }

  lemma BatchShowsStep(t0: seq<Row>, before: seq<Row>, after: seq<Row>, all: seq<seq<WorkItem>>, n: nat,
                       network: nat -> Probe, timeout: int)
    requires n < |all| && |before| == |t0| == |after|
    requires RowsIn(all, |t0|) && DisjointRows(all)
    requires ShowsBatch(before, t0, all[..n], network, timeout) && KeepsUntouched(before, t0, all[..n])
    requires forall j :: 0 <= j < |all[n]| ==>
      after[all[n][j].row] == Processed(before[all[n][j].row], network(n)(all[n][j].url, timeout, j))
    requires forall r :: 0 <= r < |before| && (forall j :: 0 <= j < |all[n]| ==> all[n][j].row != r) ==> after[r] == before[r]
    ensures ShowsBatch(after, t0, all[..n + 1], network, timeout)
  {
    var upto: seq<seq<WorkItem>> := all[..n + 1];
    var earlier: seq<seq<WorkItem>> := all[..n];
    forall i: nat, j: nat | i < |upto| && j < |upto[i]|
      ensures 0 <= upto[i][j].row < |after| && upto[i][j].row < |t0|
      ensures after[upto[i][j].row] == Processed(t0[upto[i][j].row], network(i)(upto[i][j].url, timeout, j))
    {
      assert upto[i] == all[i];
      var r := all[i][j].row;
      if i < n {
        assert earlier[i] == all[i];
        assert forall k :: 0 <= k < |all[n]| ==> all[n][k].row != r;
      } else {
        assert Untouched(earlier, r) by {
          assert forall k :: 0 <= k < n ==> earlier[k] == all[k];
        }
      }
    }
  }

  lemma BatchKeepsStep(t0: seq<Row>, before: seq<Row>, after: seq<Row>, all: seq<seq<WorkItem>>, n: nat)
    requires n < |all| && |before| == |t0| == |after|
    requires KeepsUntouched(before, t0, all[..n])
    requires forall r :: 0 <= r < |before| && (forall j :: 0 <= j < |all[n]| ==> all[n][j].row != r) ==> after[r] == before[r]
    ensures KeepsUntouched(after, t0, all[..n + 1])
  {
    var upto: seq<seq<WorkItem>> := all[..n + 1];
    var earlier: seq<seq<WorkItem>> := all[..n];
    forall r | 0 <= r < |after| && Untouched(upto, r)
      ensures after[r] == t0[r]
    {
      assert upto[n] == all[n];
      assert forall k :: 0 <= k < |all[n]| ==> all[n][k].row != r;
      assert Untouched(earlier, r) by {
        assert forall k :: 0 <= k < n ==> earlier[k] == upto[k];
      }
    }
  }

  /** What stays fixed while a batch runs: threads and workers in pairs,
      distinct workers with the window's timeout, each worker's queue and
      signals at the start, and the items each takes, no row twice. */
  ghost predicate BatchShape(workers: seq<CheckAliveWorker>, threads: seq<MyThread>, counter: ThreadCounter, timeout: int,
                             q0: seq<seq<WorkItem>>, tr0: seq<seq<Event>>, taken: seq<seq<WorkItem>>,
                             stops: nat -> Option<nat>, t0: seq<Row>)
  {
    && |workers| == |threads| == |q0| == |tr0| == |taken|
    && (forall k :: 0 <= k < |threads| ==> threads[k].counter == counter)
    && (forall k, l :: 0 <= k < l < |workers| ==> workers[k] != workers[l])
    && (forall k :: 0 <= k < |workers| ==> workers[k].timeout == timeout)
    && RowsIn(q0, |t0|) && DisjointRows(taken) && RowsIn(taken, |t0|)
    && (forall k :: 0 <= k < |q0| ==> taken[k] == q0[k][..DrainCount(|q0[k]|, true, stops(k))])
  }

  /** The workers of threads before `i` have run; the others wait. */
  ghost predicate WorkersAt(workers: seq<CheckAliveWorker>, timeout: int, i: nat, q0: seq<seq<WorkItem>>,
                            tr0: seq<seq<Event>>, taken: seq<seq<WorkItem>>, network: nat -> Probe, stops: nat -> Option<nat>)
    reads workers
  {
    && i <= |workers| == |q0| == |tr0| == |taken|
    && (forall k :: i <= k < |workers| ==> Waiting(workers[k], q0[k], tr0[k]))
    && (forall k :: 0 <= k < i ==> Ran(workers[k], q0[k], tr0[k], taken[k], stops(k), network(k), timeout))
  }

  /** The table and the done count once the threads before `i` have run. */
  predicate TableAt(table: seq<Row>, done: int, i: nat, taken: seq<seq<WorkItem>>, network: nat -> Probe, timeout: int,
                    t0: seq<Row>, done0: int)
  {
    && i <= |taken|
    && |table| == |t0|
    && done == done0 + SumLengths(taken[..i])
    && ShowsBatch(table, t0, taken[..i], network, timeout)
    && KeepsUntouched(table, t0, taken[..i])
  }

  /** Thread `i`'s signals handled and its items counted. */
  lemma TableStep(before: seq<Row>, doneBefore: int, after: seq<Row>, done: int, i: nat,
                  taken: seq<seq<WorkItem>>, network: nat -> Probe, timeout: int, t0: seq<Row>, done0: int)
    requires i < |taken| && RowsIn(taken, |t0|) && DisjointRows(taken)
    requires TableAt(before, doneBefore, i, taken, network, timeout, t0, done0)
    requires ResultRowsIn(DrainEvents(taken[i], network(i), timeout) + [Finished], |before|)
    requires after == Applied(before, DrainEvents(taken[i], network(i), timeout) + [Finished])
    requires done == doneBefore + |taken[i]|
    ensures TableAt(after, done, i + 1, taken, network, timeout, t0, done0)
  {
    BatchStep(t0, before, taken, i, network, timeout);
    assert taken[..i + 1][..i] == taken[..i];
    SumLengthsSnoc(taken[..i + 1]);
  }

  /** The main window's state that the model keeps: the table, the view's
      selection, the two spin boxes, the progress counters and the threads and
      workers of the current batch. `counter` is the shared
      `MyThread.activeCount`. */
  class MainWindow {
    var table: seq<Row>
    var selection: seq<CellIndex>
    var threadsCount: nat
    var timeout: int
    var progressDone: int
    var progressTotal: int
    var threads: seq<MyThread>
    var workers: seq<CheckAliveWorker>
    const counter: ThreadCounter

    constructor(counter: ThreadCounter, threadsCount: nat, timeout: int)
      ensures this.counter == counter
      ensures this.threadsCount == threadsCount && this.timeout == timeout
      ensures table == [] && selection == [] && threads == [] && workers == []
      ensures progressDone == 0 && progressTotal == 0
    {
      this.counter := counter;
      this.threadsCount := threadsCount;
      this.timeout := timeout;
      table := [];
      selection := [];
      threads := [];
      workers := [];
      progressDone := 0;
      progressTotal := 0;
    }

    /** `resetTable`: blank the Result and Code cells of every row. */
    method ResetTable()
      modifies this`table
      ensures |table| == |old(table)|
      ensures forall i :: 0 <= i < |table| ==>
        && table[i].url == old(table)[i].url && table[i].status == old(table)[i].status
        && table[i].result == "" && table[i].code == None
    {
      for i := 0 to |table|
        invariant |table| == |old(table)|
        invariant forall k :: 0 <= k < i ==> table[k] == old(table)[k].(result := "", code := None)
        invariant forall k :: i <= k < |table| ==> table[k] == old(table)[k]
      {
        table := table[i := table[i].(result := "")];
        table := table[i := table[i].(code := None)];
      }
    }

    /** `start`, up to launching the threads: reset the table, split the row
        numbers into `threadsCount` queues, reset the progress counters and
        create one thread and one idle worker per queue. A thread count of
        zero makes `split_list` raise after the reset, and nothing else
        happens. */
    method Start() returns (ok: bool)
      requires counter.Valid()
      modifies this`table, this`progressTotal, this`progressDone, this`threads, this`workers
      ensures ok == (threadsCount != 0)
      ensures |table| == |old(table)|
      ensures forall i :: 0 <= i < |table| ==>
        && table[i].url == old(table)[i].url && table[i].status == old(table)[i].status
        && table[i].result == "" && table[i].code == None
      ensures !ok ==> && progressTotal == old(progressTotal) && progressDone == old(progressDone)
                      && threads == old(threads) && workers == old(workers)
      ensures ok ==> progressTotal == |table| && progressDone == 0
      ensures ok ==> |threads| == |workers| == |Queues(table, threadsCount)|
      ensures ok ==> forall i :: 0 <= i < |workers| ==>
        && fresh(workers[i]) && fresh(threads[i])
        && workers[i].queue == Queues(table, threadsCount)[i]
        && !workers[i].running && workers[i].trace == [] && workers[i].timeout == timeout
        && threads[i].counter == counter
      ensures ok ==> forall i, j :: 0 <= i < j < |workers| ==> workers[i] != workers[j] && threads[i] != threads[j]
      ensures ok ==> BatchReady()
    {
      ResetTable();
      if threadsCount == 0 {
        return false;
      }
      ok := true;
      PrepareBatch();
    }

    /** The part of `start` after `split_list` returns. */
    method PrepareBatch()
      requires counter.Valid() && threadsCount != 0
      modifies this`progressTotal, this`progressDone, this`threads, this`workers
      ensures progressTotal == |table| && progressDone == 0
      ensures |threads| == |workers| == |Queues(table, threadsCount)|
      ensures forall i :: 0 <= i < |workers| ==>
        && fresh(workers[i]) && fresh(threads[i])
        && workers[i].queue == Queues(table, threadsCount)[i]
        && !workers[i].running && workers[i].trace == [] && workers[i].timeout == timeout
        && threads[i].counter == counter
      ensures forall i, j :: 0 <= i < j < |workers| ==> workers[i] != workers[j] && threads[i] != threads[j]
      ensures BatchReady()
    {
      var parts := RowParts(|table|, threadsCount);
      QueuesOfParts(table, threadsCount);
      progressTotal, progressDone := |table|, 0;
      threads, workers := CreateWorkers(parts, Queues(table, threadsCount));
      ReadyAfterCreate();
    }

    /** The workers `start` creates, one per queue of `Queues`, are ready to run. */
    lemma ReadyAfterCreate()
      requires counter.Valid() && threadsCount >= 1
      requires |threads| == |workers| == |Queues(table, threadsCount)|
      requires forall i :: 0 <= i < |workers| ==>
        && workers[i].queue == Queues(table, threadsCount)[i]
        && workers[i].timeout == timeout && threads[i].counter == counter
      requires forall i, j :: 0 <= i < j < |workers| ==> workers[i] != workers[j]
      requires progressTotal == |table| && progressDone == 0
      ensures BatchReady()
    {
      QueuedRows(table, threadsCount, workers);
    }

    /** What holds between `start` and the threads' launch: one thread per
        worker, all moving the shared counter, distinct workers with the
        window's timeout whose queues name rows of the table, no row twice,
        and the progress total equal to what is done plus what is queued. */
    ghost predicate BatchReady()
      reads this, counter, workers
    {
      && |threads| == |workers|
      && counter.Valid()
      && (forall i :: 0 <= i < |threads| ==> threads[i].counter == counter)
      && (forall i, j :: 0 <= i < j < |workers| ==> workers[i] != workers[j])
      && (forall i :: 0 <= i < |workers| ==> workers[i].timeout == timeout)
      && RowsIn(QueuesOf(workers), |table|)
      && DisjointRows(QueuesOf(workers))
      && progressDone + QueuedItems(workers) == progressTotal
    }

    /** The window's slots handling one worker's signals in order. */
    method Deliver(events: seq<Event>)
      requires ResultRowsIn(events, |table|)
      modifies this`table, this`progressDone
      ensures table == Applied(old(table), events)
      ensures progressDone == old(progressDone) + |ResultsOf(events)|
    {
      for k := 0 to |events|
        invariant ResultRowsIn(events[..k], |old(table)|)
        invariant table == Applied(old(table), events[..k])
        invariant progressDone == old(progressDone) + |ResultsOf(events[..k])|
      {
        assert events[..k + 1][..k] == events[..k];
        assert events[..k + 1] == events[..k] + [events[k]];
        ResultRowsInPrefix(events, k + 1, |old(table)|);
        match events[k]
        case Status(row, text) => OnStatus(row, text);
        case Result(record) => OnResult(record);
        case Finished =>
      }
      assert events[..|events|] == events;
    }

    /** One schedule of the batch `start` launches, with the threads taking
        turns: thread `i`'s `started` raises the counter, its worker runs
        against `network(i)` with `stop` reaching it at `stops(i)`, the window
        handles the worker's signals, and `finished` lowers the counter.
        Every worker takes the items `Taken` says; each row taken shows its
        own outcome, every other row is as it was, and the count of items
        done rises by the number taken, so it reaches the total when nobody
        stops a worker. */
    method RunBatch(network: nat -> Probe, stops: nat -> Option<nat>)
      requires BatchReady()
      modifies this`table, this`progressDone, counter, workers
      ensures counter.Valid() && counter.activeCount == old(counter.activeCount)
      ensures forall i :: 0 <= i < |workers| ==>
        Ran(workers[i], old(QueuesOf(workers))[i], old(TracesOf(workers))[i], Taken(old(QueuesOf(workers)), stops)[i],
            stops(i), network(i), timeout)
      ensures ShowsBatch(table, old(table), Taken(old(QueuesOf(workers)), stops), network, timeout)
      ensures KeepsUntouched(table, old(table), Taken(old(QueuesOf(workers)), stops))
      ensures progressDone == old(progressDone) + SumLengths(Taken(old(QueuesOf(workers)), stops))
      ensures progressDone <= progressTotal
      ensures (forall i :: 0 <= i < |workers| ==> stops(i).None?) ==> progressDone == progressTotal
    {
      ghost var q0 := QueuesOf(workers);
      ghost var tr0 := TracesOf(workers);
      ghost var taken := Taken(q0, stops);
      BatchBegins(network, stops);
      for i := 0 to |workers|
        invariant BatchAt(i, q0, tr0, taken, network, stops, old(table), old(progressDone), old(counter.activeCount))
      {
        RunTurn(i, q0, tr0, taken, network, stops, old(table), old(progressDone), old(counter.activeCount));
      }
      BatchEnds(q0, tr0, taken, network, stops, old(table), old(progressDone), old(counter.activeCount));
    }

    /** The state of `RunBatch` once the threads before `i` have run. */
    ghost predicate BatchAt(i: nat, q0: seq<seq<WorkItem>>, tr0: seq<seq<Event>>, taken: seq<seq<WorkItem>>,
                            network: nat -> Probe, stops: nat -> Option<nat>, t0: seq<Row>, done0: int, active0: int)
      reads this, counter, workers
    {
      && BatchShape(workers, threads, counter, timeout, q0, tr0, taken, stops, t0)
      && counter.Valid() && counter.activeCount == active0
      && WorkersAt(workers, timeout, i, q0, tr0, taken, network, stops)
      && TableAt(table, progressDone, i, taken, network, timeout, t0, done0)
    }

    /** `BatchReady` is the state of `RunBatch` before any thread has run. */
    lemma BatchBegins(network: nat -> Probe, stops: nat -> Option<nat>)
      requires BatchReady()
      ensures BatchAt(0, QueuesOf(workers), TracesOf(workers), Taken(QueuesOf(workers), stops), network, stops,
                      table, progressDone, counter.activeCount)
      ensures progressTotal == progressDone + SumLengths(QueuesOf(workers))
    {
      var q0 := QueuesOf(workers);
      TakenRows(q0, stops, |table|);
      QueuedItemsOf(workers, q0);
      assert Taken(q0, stops)[..0] == [];
    }

    /** The state of `RunBatch` once every thread has run. */
    lemma BatchEnds(q0: seq<seq<WorkItem>>, tr0: seq<seq<Event>>, taken: seq<seq<WorkItem>>,
                    network: nat -> Probe, stops: nat -> Option<nat>, t0: seq<Row>, done0: int, active0: int)
      requires BatchAt(|workers|, q0, tr0, taken, network, stops, t0, done0, active0)
      requires progressTotal == done0 + SumLengths(q0)
      ensures counter.Valid() && counter.activeCount == active0
      ensures forall i :: 0 <= i < |workers| ==> Ran(workers[i], q0[i], tr0[i], taken[i], stops(i), network(i), timeout)
      ensures ShowsBatch(table, t0, taken, network, timeout)
      ensures KeepsUntouched(table, t0, taken)
      ensures progressDone == done0 + SumLengths(taken)
      ensures progressDone <= progressTotal
      ensures (forall i :: 0 <= i < |workers| ==> stops(i).None?) ==> progressDone == progressTotal
    {
      assert taken[..|workers|] == taken;
      SumLengthsMonotone(taken, q0);
    }

    /** One turn of `RunBatch`'s loop. */
    method RunTurn(i: nat, ghost q0: seq<seq<WorkItem>>, ghost tr0: seq<seq<Event>>, ghost taken: seq<seq<WorkItem>>,
                   network: nat -> Probe, stops: nat -> Option<nat>, ghost t0: seq<Row>, ghost done0: int, ghost active0: int)
      requires i < |workers| && BatchAt(i, q0, tr0, taken, network, stops, t0, done0, active0)
      modifies this`table, this`progressDone, counter, workers[i]
      ensures BatchAt(i + 1, q0, tr0, taken, network, stops, t0, done0, active0)
    {
      ghost var before, doneBefore := table, progressDone;
      assert Waiting(workers[i], q0[i], tr0[i]);
      var p := RunThread(i, network(i), stops(i));
      TableStep(before, doneBefore, table, progressDone, i, taken, network, timeout, t0, done0);
      assert WorkersAt(workers, timeout, i + 1, q0, tr0, taken, network, stops) by {
        assert Ran(workers[i], q0[i], tr0[i], taken[i], stops(i), network(i), timeout);
      }
    }

    /** Thread `i`'s turn in `RunBatch`: the worker runs, and the window
        handles all of its signals, `finished` last. */
    method RunThread(i: nat, probe: Probe, stop: Option<nat>) returns (p: nat)
      requires i < |workers| && i < |threads| && threads[i].counter == counter && counter.Valid()
      requires forall x :: 0 <= x < |workers[i].queue| ==> 0 <= workers[i].queue[x].row < |table|
      modifies this`table, this`progressDone, counter, workers[i]
      ensures p == DrainCount(|old(workers[i].queue)|, true, stop)
      ensures workers[i].queue == old(workers[i].queue)[p..]
      ensures workers[i].running == (stop.None? || p < stop.value)
      ensures workers[i].trace ==
        old(workers[i].trace) + DrainEvents(old(workers[i].queue)[..p], probe, workers[i].timeout) + [Finished]
      ensures ResultRowsIn(DrainEvents(old(workers[i].queue)[..p], probe, workers[i].timeout) + [Finished], |old(table)|)
      ensures table == Applied(old(table), DrainEvents(old(workers[i].queue)[..p], probe, workers[i].timeout) + [Finished])
      ensures progressDone == old(progressDone) + p
      ensures counter.Valid() && counter.activeCount == old(counter.activeCount)
    {
      var worker := workers[i];
      threads[i].IncreaseActiveThreads();
      var before := |worker.trace|;
      var queue := worker.queue;
      p := DrainCount(|queue|, true, stop);
      worker.Run(probe, stop);
      var events := worker.trace[before..];
      assert events == DrainEvents(queue[..p], probe, worker.timeout) + [Finished];
      RunEvents(queue, p, probe, worker.timeout, |table|);
      Deliver(events);
      threads[i].DecreaseActiveThreads();
    }

    /** The loop of `start` over the row parts: a thread and a worker for
        each part, the worker's queue holding the part's rows with their URLs. */
    method CreateWorkers(parts: seq<seq<nat>>, ghost queues: seq<seq<WorkItem>>)
      returns (ts: seq<MyThread>, ws: seq<CheckAliveWorker>)
      requires forall i, x :: 0 <= i < |parts| && 0 <= x < |parts[i]| ==> parts[i][x] < |table|
      requires |queues| == |parts| && forall i :: 0 <= i < |parts| ==> queues[i] == ItemsFor(table, parts[i])
      ensures |ts| == |ws| == |parts|
      ensures forall i :: 0 <= i < |ws| ==>
        && fresh(ws[i]) && fresh(ts[i])
        && ws[i].queue == queues[i]
        && !ws[i].running && ws[i].trace == [] && ws[i].timeout == timeout
        && ts[i].counter == counter
      ensures forall i, j :: 0 <= i < j < |ws| ==> ws[i] != ws[j] && ts[i] != ts[j]
    {
      ts, ws := [], [];
      for i := 0 to |parts|
        invariant |ts| == |ws| == i
        invariant forall k :: 0 <= k < i ==>
          && fresh(ws[k]) && fresh(ts[k])
          && ws[k].queue == queues[k]
          && !ws[k].running && ws[k].trace == [] && ws[k].timeout == timeout
          && ts[k].counter == counter
        invariant forall k, l :: 0 <= k < l < i ==> ws[k] != ws[l] && ts[k] != ts[l]
      {
        var thread := new MyThread(counter);
        var queue := QueueFor(parts[i]);
        var worker := new CheckAliveWorker(timeout, queue);
        ts := ts + [thread];
        ws := ws + [worker];
      }
    }

    /** The inner loop of `start`: queue `(row, url)` for each of some rows. */
    method QueueFor(rows: seq<nat>) returns (queue: seq<WorkItem>)
      requires forall x :: 0 <= x < |rows| ==> rows[x] < |table|
      ensures queue == ItemsFor(table, rows)
    {
      queue := [];
      for x := 0 to |rows|
        invariant queue == ItemsFor(table, rows[..x])
      {
        var row := rows[x];
        queue := queue + [WorkItem(row, table[row].url)];
        assert rows[..x + 1][..x] == rows[..x];
      }
      assert rows[..|rows|] == rows;
    }

    /** `stop`: lower every worker's flag; queues and emitted signals are
        untouched. A second call, or a call with no workers, changes nothing. */
    method Stop()
      modifies workers
      ensures forall w :: w in workers ==> !w.running
      ensures forall w :: w in workers ==> w.queue == old(w.queue) && w.trace == old(w.trace)
    {
      for i := 0 to |workers|
        invariant forall k :: 0 <= k < i ==> !workers[k].running
        invariant forall w :: w in workers ==> w.queue == old(w.queue) && w.trace == old(w.trace)
      {
        workers[i].running := false;
      }
    }

    /** `onStatus`: write the status text into column 3 of the row. An index
        outside the table is invalid and `setData` ignores it. */
    method OnStatus(row: int, status: string)
      modifies this`table
      ensures table == WithStatus(old(table), row, status)
      ensures forall i :: 0 <= i < |table| ==>
        table[i] == if i == row then old(table)[i].(status := status) else old(table)[i]
    {
      if 0 <= row < |table| {
        table := table[row := table[row].(status := status)];
      }
    }

    /** `onResult`: write the status code and "OK" or "Fail" into the result's
        row and count one more item done. (The row must exist: for any other
        row `item(row, 1)` is `None` and the slot raises.) */
    method OnResult(record: ResultRecord)
      requires 0 <= record.row < |table|
      modifies this`table, this`progressDone
      ensures progressDone == old(progressDone) + 1
      ensures |table| == |old(table)|
      ensures forall i :: 0 <= i < |table| && i != record.row ==> table[i] == old(table)[i]
      ensures table[record.row].url == old(table)[record.row].url
      ensures table[record.row].status == old(table)[record.row].status
      ensures table[record.row].code == record.statusCode
      ensures table[record.row].result == if record.result then "OK" else "Fail"
      ensures table == WithResult(old(table), record)
    {
      table := table[record.row := table[record.row].(code := record.statusCode)];
      if record.result {
        table := table[record.row := table[record.row].(result := "OK")];
      } else {
        table := table[record.row := table[record.row].(result := "Fail")];
      }
      progressDone := progressDone + 1;
    }

    /** `selectedRows`: each row holding a selected cell, once. */
    method SelectedRows() returns (rows: seq<int>)
      ensures NoRepeats(rows)
      ensures forall r :: r in rows <==> r in RowsOf(selection)
    {
      var found: set<int> := {};
      for x := 0 to |selection|
        invariant found == RowsOf(selection[..x])
      {
        assert selection[..x + 1] == selection[..x] + [selection[x]];
        found := found + {selection[x].row};
      }
      assert selection[..|selection|] == selection;
      rows := [];
      var rest := found;
      while rest != {}
        invariant rest <= found
        invariant forall r :: r in rows <==> r in found && r !in rest
        invariant NoRepeats(rows)
        decreases rest
      {
        var r :| r in rest;
        rows := rows + [r];
        rest := rest - {r};
      }
    }

    /** `invertSelection`: clear the selection, then select every row of the
        table that had no selected cell before. */
    method InvertSelection()
      modifies this`selection
      ensures forall r :: r in RowsOf(selection) <==> 0 <= r < |table| && r !in RowsOf(old(selection))
      ensures forall c :: c in selection ==> 0 <= c.column < ColumnCount
    {
      var previous := SelectedRows();
      selection := [];
      for i := 0 to |table|
        invariant forall r :: r in RowsOf(selection) <==> 0 <= r < i && r !in previous
        invariant forall c :: c in selection ==> 0 <= c.column < ColumnCount
      {
        if i !in previous {
          RowsOfAppend(selection, RowCells(i));
          assert RowsOf(RowCells(i)) == {i} by {
            assert CellIndex(i, 0) in RowCells(i);
          }
          selection := selection + RowCells(i);
        }
      }
    }

    /** The scan of `removeDuplicates`: collect the first occurrence of each
        URL in table order, and note whether any URL occurs again. */
    method ScanDuplicates() returns (items: seq<string>, foundDuplicates: bool)
      ensures items == FirstOccurrences(Urls(table))
      ensures foundDuplicates <==> HasDuplicates(Urls(table))
    {
      ghost var urls := Urls(table);
      items := [];
      foundDuplicates := false;
      for i := 0 to |table|
        invariant items == FirstOccurrences(urls[..i])
        invariant foundDuplicates <==> HasDuplicates(urls[..i])
      {
        var item := table[i].url;
        FirstOccurrencesElements(urls[..i]);
        DuplicatesStep(urls, i);
        assert urls[..i + 1][..i] == urls[..i];
        if item !in items {
          items := items + [item];
        } else {
          foundDuplicates := true;
        }
      }
      assert urls[..|table|] == urls;
    }
  }
}
