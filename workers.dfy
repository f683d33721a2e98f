/** Model of application/workers.py: the worker that drains one queue of
    `(row, url)` pairs (`CheckAliveWorker.doWork` with `Worker.run`), and the
    process-wide count of running threads (`MyThread.activeCount`). */
module Workers {
  import opened Utils

  /** A `(row, url)` pair as the coordinator puts it on a worker's queue. */
  datatype WorkItem = WorkItem(row: int, url: string)

  /** The dictionary a worker emits on its `result` signal. */
  datatype ResultRecord = ResultRecord(row: int, url: string, result: bool, statusCode: Option<int>)

  /** What `check_alive` returns: a status code (none when the request raised)
      and the text of the exception, if any. */
  datatype CheckOutcome = CheckOutcome(statusCode: Option<int>, msg: string)

  /** The network, seen from one worker: the outcome of its `j`-th probe
      (counting from 0) of `url` with the given timeout. The probe number lets
      the same URL answer differently over time. */
  type Probe = (string, int, nat) -> CheckOutcome

  /** The signals a worker emits, in the order it emits them. */
  datatype Event =
    | Status(row: int, text: string)   // `status` signal: `(row, text)`
    | Result(record: ResultRecord)     // `result` signal
    | Finished                         // `finished` signal, once `doWork` returns

  const CheckingText: string := "Checking ..."
  const DoneText: string := "Done"

  /** The status codes counted as alive. */
  const AliveCodes: seq<int> := [200, 301]

  predicate IsAlive(statusCode: Option<int>)
  {
    statusCode.Some? && statusCode.value in AliveCodes
  }

  /** The three signals one processed item produces. */
  function ItemEvents(item: WorkItem, outcome: CheckOutcome): seq<Event>
  {
    [ Status(item.row, CheckingText),
      Result(ResultRecord(item.row, item.url, IsAlive(outcome.statusCode), outcome.statusCode)),
      Status(item.row, DoneText) ]
  }

  /** The signals emitted while processing `items` in order, the `j`-th of
      them with the outcome of probe `j`. */
  function DrainEvents(items: seq<WorkItem>, probe: Probe, timeout: int): seq<Event>
  {
    if items == [] then []
    else
      var j := |items| - 1;
      DrainEvents(items[..j], probe, timeout) + ItemEvents(items[j], probe(items[j].url, timeout, j))
  }

  /** The result records among some signals, in order. */
  function ResultsOf(events: seq<Event>): seq<ResultRecord>
  {
    if events == [] then []
    else
      var last := events[|events| - 1];
      ResultsOf(events[..|events| - 1]) + (if last.Result? then [last.record] else [])
  }

  /** How many items `doWork` takes off a queue of `n` items. `stopAt` is
      when the coordinator's `stop` lands: just before the loop head's check
      number `j` (counting from 0), or never. Check 0 follows `run` raising the
      flag; check `j + 1` follows item `j`, so a stop landing while item `j` is
      probed still lets that item complete. The count is none when the flag
      is down at the first check, all items when nobody stops the worker, and
      otherwise the `j` items before the check the stop precedes. */
  function DrainCount(n: nat, running: bool, stopAt: Option<nat>): (p: nat)
    ensures p <= n
  {
    if !running then 0
    else match stopAt
      case None => n
      case Some(j) => Min(n, j)
  }

  /** Where the loop of `doWork` stops, given how many items it took (`j`)
      and its flag afterwards, is `DrainCount`. */
  lemma DrainCountAtStop(n: nat, running0: bool, stopAt: Option<nat>, j: nat, running: bool)
    requires j <= n
    requires running == (running0 && (stopAt.None? || j < stopAt.value))
    requires !running ==> (!running0 && j == 0) || (running0 && stopAt == Some(j))
    requires running ==> j == n
    ensures j == DrainCount(n, running0, stopAt)
  {
  }

  lemma DrainEventsSnoc(items: seq<WorkItem>, probe: Probe, timeout: int, j: nat)
    requires j < |items|
    ensures DrainEvents(items[..j + 1], probe, timeout) ==
      DrainEvents(items[..j], probe, timeout) + ItemEvents(items[j], probe(items[j].url, timeout, j))
  {
    assert items[..j + 1][..j] == items[..j];
  }

  /** An item is alive exactly when its status code is 200 or 301; a probe
      that raised (no code) never is. */
  lemma AliveIff(statusCode: Option<int>)
    ensures IsAlive(statusCode) <==> statusCode == Some(200) || statusCode == Some(301)
    ensures statusCode.None? ==> !IsAlive(statusCode)
  {
  }

  lemma {:induction false} DrainEventsLength(items: seq<WorkItem>, probe: Probe, timeout: int)
    ensures |DrainEvents(items, probe, timeout)| == 3 * |items|
  {
    if items != [] {
      DrainEventsLength(items[..|items| - 1], probe, timeout);
    }
  }

  /** Item `j` owns signals `3j`, `3j + 1` and `3j + 2`: first its "Checking ..."
      status, then its one result record (its own row and url, alive iff the
      code is 200 or 301), then its "Done" status. */
  lemma {:induction false} DrainEventsAt(items: seq<WorkItem>, probe: Probe, timeout: int, j: nat)
    requires j < |items|
    ensures |DrainEvents(items, probe, timeout)| == 3 * |items|
    ensures var events, code := DrainEvents(items, probe, timeout), probe(items[j].url, timeout, j).statusCode;
      && events[3 * j] == Status(items[j].row, "Checking ...")
      && events[3 * j + 1] == Result(ResultRecord(items[j].row, items[j].url,
                                                  code == Some(200) || code == Some(301), code))
      && events[3 * j + 2] == Status(items[j].row, "Done")
  {
    var n := |items| - 1;
    DrainEventsLength(items, probe, timeout);
    DrainEventsLength(items[..n], probe, timeout);
    AliveIff(probe(items[j].url, timeout, j).statusCode);
    if j < n {
      DrainEventsAt(items[..n], probe, timeout, j);
    }
  }

  lemma {:induction false} ResultsOfAppend(a: seq<Event>, b: seq<Event>)
    ensures ResultsOf(a + b) == ResultsOf(a) + ResultsOf(b)
  {
    if b == [] {
      assert a + b == a;
    } else {
      var n := |b| - 1;
      assert (a + b)[..|a + b| - 1] == a + b[..n];
      assert (a + b)[|a + b| - 1] == b[n];
      ResultsOfAppend(a, b[..n]);
    }
  }

  /** Draining yields exactly one result record per item, in queue order, each
      with the item's own row and url. */
  lemma {:induction false} DrainResults(items: seq<WorkItem>, probe: Probe, timeout: int)
    ensures |ResultsOf(DrainEvents(items, probe, timeout))| == |items|
    ensures forall j :: 0 <= j < |items| ==>
      && ResultsOf(DrainEvents(items, probe, timeout))[j].row == items[j].row
      && ResultsOf(DrainEvents(items, probe, timeout))[j].url == items[j].url
  {
    if items != [] {
      var n := |items| - 1;
      var out := probe(items[n].url, timeout, n);
      var front := DrainEvents(items[..n], probe, timeout);
      DrainResults(items[..n], probe, timeout);
      var record := ResultRecord(items[n].row, items[n].url, IsAlive(out.statusCode), out.statusCode);
      ResultsOfAppend(front, ItemEvents(items[n], out));
      ItemResults(items[n], out);
      assert DrainEvents(items, probe, timeout) == front + ItemEvents(items[n], out);
      var results, before := ResultsOf(DrainEvents(items, probe, timeout)), ResultsOf(front);
      assert results == before + [record];
      forall j | 0 <= j < |items|
        ensures results[j].row == items[j].row && results[j].url == items[j].url
      {
        if j < n {
          assert results[j] == before[j] && items[..n][j] == items[j];
        } else {
          assert results[j] == record;
        }
      }
    } else {
      assert DrainEvents(items, probe, timeout) == [];
    }
  }

  /** One item's signals carry exactly one result, for that item. */
  lemma ItemResults(item: WorkItem, outcome: CheckOutcome)
    ensures ResultsOf(ItemEvents(item, outcome)) ==
      [ResultRecord(item.row, item.url, IsAlive(outcome.statusCode), outcome.statusCode)]
  {
    var e := ItemEvents(item, outcome);
    assert e[..1][..0] == [];
    assert ResultsOf(e[..1]) == [];
    assert e[..2][..1] == e[..1];
    assert e[..3] == e;
  }

  /** Draining a longer queue only adds signals after those of its prefix. */
  lemma {:induction false} DrainEventsPrefix(items: seq<WorkItem>, probe: Probe, timeout: int, p: nat)
    requires p <= |items|
    ensures DrainEvents(items[..p], probe, timeout) <= DrainEvents(items, probe, timeout)
  {
    if p < |items| {
      var n := |items| - 1;
      assert items[..n][..p] == items[..p];
      DrainEventsPrefix(items[..n], probe, timeout, p);
    } else {
      assert items[..p] == items;
    }
  }

  /** A worker: its queue, its `_running` flag and the signals it has emitted.
      The coordinator's `stop` writes `running` directly, as the source does. */
  class CheckAliveWorker {
    var queue: seq<WorkItem>
    const timeout: int
    var running: bool
    var trace: seq<Event>

    constructor(timeout: int, queue: seq<WorkItem>)
      ensures this.timeout == timeout && this.queue == queue
      ensures !running && trace == []
    {
      this.timeout := timeout;
      this.queue := queue;
      running := false;
      trace := [];
    }

    /** `doWork`: while the flag is up and the queue is not empty, take the
        first item, emit "Checking ...", probe it, emit its result, emit
        "Done". `stopAt` is when the coordinator's `stop` lands (see
        `DrainCount`): `Some(0)` is a stop landing before the first check. */
    method DoWork(probe: Probe, stopAt: Option<nat>)
      modifies this`queue, this`running, this`trace
      ensures queue == old(queue)[DrainCount(|old(queue)|, old(running), stopAt)..]
      ensures trace == old(trace) + DrainEvents(old(queue)[..DrainCount(|old(queue)|, old(running), stopAt)], probe, timeout)
      ensures running == (old(running) && (stopAt.None? || DrainCount(|old(queue)|, old(running), stopAt) < stopAt.value))
      ensures running ==> queue == []
    {
      ghost var q0 := queue;
      if stopAt == Some(0) {
        running := false;
      }
      var j := 0;
      while running && queue != []
        invariant j <= |q0| && queue == q0[j..]
        invariant trace == old(trace) + DrainEvents(q0[..j], probe, timeout)
        invariant running == (old(running) && (stopAt.None? || j < stopAt.value))
        invariant !running ==> (!old(running) && j == 0) || (old(running) && stopAt == Some(j))
        decreases |queue|
      {
        var item := queue[0];
        CheckNext(probe, stopAt, j);
        DrainEventsSnoc(q0, probe, timeout, j);
        assert trace == old(trace) + (DrainEvents(q0[..j], probe, timeout) + ItemEvents(item, probe(item.url, timeout, j)));
        j := j + 1;
      }
      DrainCountAtStop(|q0|, old(running), stopAt, j, running);
    }

    /** One turn of the loop in `doWork`, item number `j`: pop the first item,
        emit "Checking ...", probe it, emit the result, emit "Done". A `stop`
        landing before the next check lowers the flag. */
    method CheckNext(probe: Probe, stopAt: Option<nat>, j: nat)
      requires queue != []
      modifies this`queue, this`running, this`trace
      ensures queue == old(queue)[1..]
      ensures trace == old(trace) + ItemEvents(old(queue)[0], probe(old(queue)[0].url, timeout, j))
      ensures running == (old(running) && stopAt != Some(j + 1))
    {
      var item := queue[0];
      queue := queue[1..];
      trace := trace + [Status(item.row, CheckingText)];
      var outcome := probe(item.url, timeout, j);
      var result := IsAlive(outcome.statusCode);
      trace := trace + [Result(ResultRecord(item.row, item.url, result, outcome.statusCode))];
      trace := trace + [Status(item.row, DoneText)];
      if stopAt == Some(j + 1) {
        running := false;
      }
    }

    /** `run`: raise the flag (so a `stop` that came before is forgotten),
        drain the queue, then emit `finished` once. */
    method Run(probe: Probe, stopAt: Option<nat>)
      modifies this`queue, this`running, this`trace
      ensures queue == old(queue)[DrainCount(|old(queue)|, true, stopAt)..]
      ensures trace == old(trace) + DrainEvents(old(queue)[..DrainCount(|old(queue)|, true, stopAt)], probe, timeout) + [Finished]
      ensures running == (stopAt.None? || DrainCount(|old(queue)|, true, stopAt) < stopAt.value)
      ensures stopAt.None? ==> queue == [] && running
    {
      running := true;
      DoWork(probe, stopAt);
      trace := trace + [Finished];
    }
  }

  /** `started` and `finished` signals of threads, as they reach the counter. */
  datatype ThreadSignal<T> = ThreadStarted(thread: T) | ThreadFinished(thread: T)

  /** The counter after some signals: one up per start, one down per finish. */
  function ActiveCount<T>(signals: seq<ThreadSignal<T>>): int
  {
    if signals == [] then 0
    else
      var last := signals[|signals| - 1];
      ActiveCount(signals[..|signals| - 1]) + (if last.ThreadStarted? then 1 else -1)
  }

  /** Threads that have started. */
  function StartedThreads<T>(signals: seq<ThreadSignal<T>>): set<T>
  {
    set i | 0 <= i < |signals| && signals[i].ThreadStarted? :: signals[i].thread
  }

  /** Threads that have started and not finished. */
  function RunningThreads<T>(signals: seq<ThreadSignal<T>>): set<T>
  {
    if signals == [] then {}
    else
      var last := signals[|signals| - 1];
      var before := RunningThreads(signals[..|signals| - 1]);
      if last.ThreadStarted? then before + {last.thread} else before - {last.thread}
  }

  /** Every thread starts at most once and finishes only while running, as
      a `QThread` does. */
  ghost predicate Lifecycles<T>(signals: seq<ThreadSignal<T>>)
  {
    forall p :: 0 <= p < |signals| ==>
      if signals[p].ThreadStarted? then signals[p].thread !in StartedThreads(signals[..p])
      else signals[p].thread in RunningThreads(signals[..p])
  }

  lemma RunningAreStarted<T>(signals: seq<ThreadSignal<T>>)
    ensures RunningThreads(signals) <= StartedThreads(signals)
  {
    if signals != [] {
      var n := |signals| - 1;
      RunningAreStarted(signals[..n]);
      assert forall i :: 0 <= i < n ==> signals[..n][i] == signals[i];
      assert StartedThreads(signals[..n]) <= StartedThreads(signals);
      if signals[n].ThreadStarted? {
        assert signals[n].thread in StartedThreads(signals);
      }
    }
  }

  /** Under well-formed lifecycles the counter equals the number of running
      threads: it is never negative, and it is back to zero once every started
      thread has finished. */
  lemma {:induction false} ActiveCountIsRunning<T>(signals: seq<ThreadSignal<T>>)
    requires Lifecycles(signals)
    ensures ActiveCount(signals) == |RunningThreads(signals)|
    ensures ActiveCount(signals) >= 0
  {
    if signals != [] {
      var n := |signals| - 1;
      var init := signals[..n];
      assert Lifecycles(init) by {
        forall p | 0 <= p < |init|
          ensures if init[p].ThreadStarted? then init[p].thread !in StartedThreads(init[..p])
                  else init[p].thread in RunningThreads(init[..p])
        {
          assert init[..p] == signals[..p];
        }
      }
      ActiveCountIsRunning(init);
      RunningAreStarted(init);
      assert signals[..n] == init;
    }
  }

  /** The shared `MyThread.activeCount`. The history of signals it has seen
      is ghost; `Valid` ties the count to it. */
  class ThreadCounter {
    var activeCount: int
    ghost var signals: seq<ThreadSignal<MyThread>>

    ghost predicate Valid()
      reads this
    {
      activeCount == ActiveCount(signals)
    }

    constructor()
      ensures Valid() && activeCount == 0 && signals == []
    {
      activeCount := 0;
      signals := [];
    }
  }

  /** A thread whose `started` and `finished` signals move the shared counter. */
  class MyThread {
    const counter: ThreadCounter

    constructor(counter: ThreadCounter)
      ensures this.counter == counter
    {
      this.counter := counter;
    }

    /** `increaseActiveThreads`, connected to `started`. */
    method IncreaseActiveThreads()
      requires counter.Valid()
      modifies counter
      ensures counter.Valid()
      ensures counter.activeCount == old(counter.activeCount) + 1
      ensures counter.signals == old(counter.signals) + [ThreadStarted(this)]
    {
      counter.activeCount := counter.activeCount + 1;
      counter.signals := counter.signals + [ThreadStarted(this)];
    }

    /** `decreaseActiveThreads`, connected to `finished`. */
    method DecreaseActiveThreads()
      requires counter.Valid()
      modifies counter
      ensures counter.Valid()
      ensures counter.activeCount == old(counter.activeCount) - 1
      ensures counter.signals == old(counter.signals) + [ThreadFinished(this)]
    {
      counter.activeCount := counter.activeCount - 1;
      counter.signals := counter.signals + [ThreadFinished(this)];
    }
  }
}
