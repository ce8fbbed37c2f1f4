/**
 Losing the pending set in a crash is harmless: a restart replays every block that could still
 hold an unsettled withdrawal (op-monitorism/withdrawals-v2/monitor.go, replayStartBlock).
*/
module RestartRecovery {
  import opened Basics
  import opened BlockPlan
  import opened BlockProcessor
  import opened PendingEvents
  import opened ProofRecovery
  import opened Replay
  import opened Sorting
  import opened VerdictProtocol

  /** The logs handed over by a sequence of completed rounds, in order. */
  function HandedOver(rounds: seq<Round>): seq<(int, Log)> {
    if rounds == [] then []
    else HandedOver(rounds[..|rounds| - 1]) + LogsDone(Done(rounds[|rounds| - 1].calls))
  }

  function LogsDone(items: seq<Item>): seq<(int, Log)> {
    if items == [] then []
    else LogsDone(items[..|items| - 1]) + LogDone(items[|items| - 1])
  }

  function LogDone(item: Item): seq<(int, Log)> {
    match item case OneLog(b, lg) => [(b, lg)] case _ => []
  }

  lemma {:induction false} LogsDoneHolds(items: seq<Item>, at: nat)
    requires at < |items|
    ensures forall entry :: entry in LogDone(items[at]) ==> entry in LogsDone(items)
  {
    if at < |items| - 1 {
      LogsDoneHolds(items[..|items| - 1], at);
    }
  }

  lemma {:induction false} LogInPlan(h: Handlers, node: Node, b: int, lg: Log)
    requires h.log && lg in LogsOf(h, node, b)
    ensures (b, lg) in LogsDone(Plan(h, node, b))
  {
    hide LogsDone, LogsOf;
    var logs := LogsOf(h, node, b);
    var i :| 0 <= i < |logs| && logs[i] == lg;
    var at := |BeforeLogs(h, node, b)| + 1 + i;
    assert Plan(h, node, b)[at] == OneLog(b, lg);
    LogsDoneHolds(Plan(h, node, b), at);
  }

  /** Every log of every completed block was handed over. */
  lemma {:induction false} LogHandedOver(h: Handlers, node: Node, first: int, rounds: seq<Round>, b: int, lg: Log)
    requires h.log && RoundsFrom(h, node, first, rounds)
    requires first <= b < first + |rounds| && lg in LogsOf(h, node, b)
    ensures (b, lg) in HandedOver(rounds)
  {
    var last := |rounds| - 1;
    var earlier, round := rounds[..last], rounds[last];
    assert HandedOver(rounds) == HandedOver(earlier) + LogsDone(Done(round.calls));
    if b == first + last {
      assert Complete(h, node, round) && round.block == b;
      LogInPlan(h, node, b, lg);
    } else {
      assert RoundsFrom(h, node, first, earlier) by {
        forall i | 0 <= i < |earlier| ensures earlier[i] == rounds[i] {}
      }
      LogHandedOver(h, node, first, earlier, b, lg);
    }
  }

  // ---- The logs handed over, exactly --------------------------------------------------------------

  /** The logs of a block, each with its block. */
  function EntriesOf(b: int, logs: seq<Log>): seq<(int, Log)> {
    seq(|logs|, i requires 0 <= i < |logs| => (b, logs[i]))
  }

  lemma {:induction false} LogsDoneAppend(a: seq<Item>, b: seq<Item>)
    ensures LogsDone(a + b) == LogsDone(a) + LogsDone(b)
  {
    if b == [] {
      assert a + b == a;
    } else {
      assert (a + b)[..|a + b| - 1] == a + b[..|b| - 1];
      LogsDoneAppend(a, b[..|b| - 1]);
    }
  }

  lemma {:induction false} NoLogsDone(items: seq<Item>)
    requires forall i :: 0 <= i < |items| ==> !items[i].OneLog?
    ensures LogsDone(items) == []
  {
    if items != [] {
      NoLogsDone(items[..|items| - 1]);
    }
  }

  lemma {:induction false} LogItemsDone(b: int, logs: seq<Log>)
    ensures LogsDone(LogItems(b, logs)) == EntriesOf(b, logs)
  {
    if logs != [] {
      var n := |logs| - 1;
      LogItemsDone(b, logs[..n]);
      assert LogItems(b, logs)[..n] == LogItems(b, logs[..n]);
    }
  }

  lemma {:induction false} PlanHandsOver(h: Handlers, node: Node, b: int)
    requires h.log
    ensures LogsDone(Plan(h, node, b)) == EntriesOf(b, LogsOf(h, node, b))
  {
    hide LogsOf, LogsDone;
    var before, logs := BeforeLogs(h, node, b) + [GetLogs(b)], LogItems(b, LogsOf(h, node, b));
    assert Plan(h, node, b) == before + logs;
    LogsDoneAppend(before, logs);
    NoLogsDone(before);
    LogItemsDone(b, LogsOf(h, node, b));
  }

  /** The times of these blocks do not decrease. */
  ghost predicate InTimeOrder(timeOf: int -> int, first: int, count: nat) {
    forall b, c :: first <= b <= c < first + count ==> timeOf(b) <= timeOf(c)
  }

  predicate SameLog(a: Log, b: Log) { a.txHash == b.txHash && a.index == b.index }

  /** Different logs, the second not from an earlier time. */
  predicate Before(timeOf: int -> int, x: (int, Log), y: (int, Log)) { timeOf(x.0) <= timeOf(y.0) && !SameLog(x.1, y.1) }

  /** On these blocks no log occurs twice: neither in one block nor in two. */
  ghost predicate LogsApart(h: Handlers, node: Node, first: int, count: nat) {
    forall b, c, i, j :: first <= b <= c < first + count && 0 <= i < |LogsOf(h, node, b)| && 0 <= j < |LogsOf(h, node, c)| ==>
      b < c || i < j ==> !SameLog(LogsOf(h, node, b)[i], LogsOf(h, node, c)[j])
  }

  /** Each entry is a log of one of the completed blocks. */
  lemma {:induction false} EntryFrom(h: Handlers, node: Node, first: int, rounds: seq<Round>, i: nat) returns (b: int, at: nat)
    requires h.log && RoundsFrom(h, node, first, rounds) && i < |HandedOver(rounds)|
    ensures first <= b < first + |rounds| && at < |LogsOf(h, node, b)| && HandedOver(rounds)[i] == (b, LogsOf(h, node, b)[at])
  {
    hide LogsOf, Plan, LogsDone, Orderly, Done;
    var n := |rounds| - 1;
    var earlier := HandedOver(rounds[..n]);
    assert Complete(h, node, rounds[n]);
    PlanHandsOver(h, node, first + n);
    if i < |earlier| {
      EarlierRounds(h, node, first, rounds);
      b, at := EntryFrom(h, node, first, rounds[..n], i);
    } else {
      b, at := first + n, i - |earlier|;
    }
  }

  lemma {:induction false} EarlierRounds(h: Handlers, node: Node, first: int, rounds: seq<Round>)
    requires RoundsFrom(h, node, first, rounds) && rounds != []
    ensures RoundsFrom(h, node, first, rounds[..|rounds| - 1])
  {
    hide Complete;
    assert forall i :: 0 <= i < |rounds| - 1 ==> rounds[..|rounds| - 1][i] == rounds[i];
  }

  /**
   What completed rounds hand over is a stream of distinct logs in time order, if the times of the
   blocks do not decrease and no log occurs twice on them: no block is done twice or out of turn.
  */
  lemma {:induction false} RoundsStream(h: Handlers, node: Node, first: int, rounds: seq<Round>, timeOf: int -> int)
    requires h.log && RoundsFrom(h, node, first, rounds)
    requires InTimeOrder(timeOf, first, |rounds|) && LogsApart(h, node, first, |rounds|)
    ensures IsLogStream(timeOf, HandedOver(rounds))
  {
    hide LogsOf, Plan, LogsDone, Orderly, Done;
    if rounds != [] {
      var n := |rounds| - 1;
      var earlier, logs := HandedOver(rounds[..n]), LogsOf(h, node, first + n);
      EarlierRounds(h, node, first, rounds);
      RoundsStream(h, node, first, rounds[..n], timeOf);
      assert Complete(h, node, rounds[n]);
      PlanHandsOver(h, node, first + n);
      forall i, j | 0 <= i < |earlier| && 0 <= j < |logs| ensures Before(timeOf, earlier[i], (first + n, logs[j])) {
        var b, at := EntryFrom(h, node, first, rounds[..n], i);
      }
      StreamAppend(timeOf, earlier, first + n, logs);
    }
  }

  lemma {:induction false} StreamAppend(timeOf: int -> int, earlier: seq<(int, Log)>, b: int, logs: seq<Log>)
    requires IsLogStream(timeOf, earlier)
    requires forall i, j :: 0 <= i < |earlier| && 0 <= j < |logs| ==> Before(timeOf, earlier[i], (b, logs[j]))
    requires forall i, j :: 0 <= i < j < |logs| ==> !SameLog(logs[i], logs[j])
    ensures IsLogStream(timeOf, earlier + EntriesOf(b, logs))
  {
    var n, all := |earlier|, earlier + EntriesOf(b, logs);
    forall i, j | 0 <= i < j < |all| ensures Before(timeOf, all[i], all[j]) {
      if j >= n {
        assert all[j] == (b, logs[j - n]);
        if i >= n { assert all[i] == (b, logs[i - n]); }
      }
    }
  }

  // ---- From logs to the protocol's feed --------------------------------------------------------

  /** What processLog does with a log: an event of the monitor, seen first at its block's time. */
  function EventOf(timeOf: int -> int, entry: (int, Log)): Event<string> {
    Event(PendingKey(entry.1), timeOf(entry.0))
  }

  /** The events processLog evaluates among the logs handed over. */
  function FeedOf(timeOf: int -> int, isEvent: Log -> bool, entries: seq<(int, Log)>): seq<Event<string>> {
    if entries == [] then []
    else (if isEvent(entries[0].1) then [EventOf(timeOf, entries[0])] else []) + FeedOf(timeOf, isEvent, entries[1..])
  }

  lemma {:induction false} FeedHolds(timeOf: int -> int, isEvent: Log -> bool, entries: seq<(int, Log)>, entry: (int, Log))
    requires entry in entries && isEvent(entry.1)
    ensures exists i :: 0 <= i < |FeedOf(timeOf, isEvent, entries)| && FeedOf(timeOf, isEvent, entries)[i] == EventOf(timeOf, entry)
  {
    var feed := FeedOf(timeOf, isEvent, entries);
    if entries[0] == entry {
      assert feed[0] == EventOf(timeOf, entry);
    } else {
      FeedHolds(timeOf, isEvent, entries[1..], entry);
      var rest := FeedOf(timeOf, isEvent, entries[1..]);
      var i :| 0 <= i < |rest| && rest[i] == EventOf(timeOf, entry);
      var head := |feed| - |rest|;
      assert feed[head + i] == rest[i];
    }
  }

  lemma {:induction false} FeedFrom(timeOf: int -> int, isEvent: Log -> bool, entries: seq<(int, Log)>, i: nat) returns (j: nat)
    requires i < |FeedOf(timeOf, isEvent, entries)|
    ensures j < |entries| && FeedOf(timeOf, isEvent, entries)[i] == EventOf(timeOf, entries[j])
  {
    if isEvent(entries[0].1) {
      if i == 0 {
        j := 0;
      } else {
        j := FeedFrom(timeOf, isEvent, entries[1..], i - 1);
        j := j + 1;
      }
    } else {
      j := FeedFrom(timeOf, isEvent, entries[1..], i);
      j := j + 1;
    }
  }

  /** Distinct logs from blocks in time order. */
  ghost predicate IsLogStream(timeOf: int -> int, entries: seq<(int, Log)>) {
    forall i, j :: 0 <= i < j < |entries| ==> Before(timeOf, entries[i], entries[j])
  }

  /** Such a stream is a feed of the protocol: its keys are distinct because pendingKey is injective. */
  lemma {:induction false} StreamIsFeed(timeOf: int -> int, isEvent: Log -> bool, entries: seq<(int, Log)>)
    requires IsLogStream(timeOf, entries)
    ensures IsFeed(FeedOf(timeOf, isEvent, entries))
  {
    if entries != [] {
      var first, rest := EventOf(timeOf, entries[0]), FeedOf(timeOf, isEvent, entries[1..]);
      StreamIsFeed(timeOf, isEvent, entries[1..]);
      forall i | 0 <= i < |rest| ensures first.key != rest[i].key && first.firstSeen <= rest[i].firstSeen {
        var j := FeedFrom(timeOf, isEvent, entries[1..], i);
        assert entries[1..][j] == entries[j + 1] && Before(timeOf, entries[0], entries[j + 1]);
        if first.key == rest[i].key {
          PendingKeyInjective(entries[0].1, entries[j + 1].1);
        }
      }
    }
  }

  // ---- The restart -----------------------------------------------------------------------------

  /** The scan that follows a replay cursor covers everything to be replayed. */
  ghost predicate Covers(reader: Reader, head: Head, lookback: uint64, window: uint64, firstBlock: int)
    requires ChainUpTo(reader, head)
  {
    forall b: uint64 :: b as int <= head.number && InReplay(reader(b).time, b as int, head, lookback, window) ==>
      firstBlock <= b as int
  }

  /**
   The scan after a restart covers the replay exactly when the cursor is not 0: the processor
   takes 0 for "no start block given" and begins after the latest block instead. A cursor of -1,
   a replay from genesis, is fine.
  */
  lemma {:induction false} ReplayCoveredExactly(reader: Reader, head: Head, lookback: uint64, window: uint64, cursor: int, latestAtStart: int)
    requires ChainUpTo(reader, head) && IsReplayCursor(reader, head, lookback, window, cursor)
    requires latestAtStart >= head.number
    ensures Covers(reader, head, lookback, window, FirstBlock(Some(cursor), Some(latestAtStart))) <==> cursor != 0
  {
    if cursor != 0 {
      forall b: uint64 | b as int <= head.number && InReplay(reader(b).time, b as int, head, lookback, window)
        ensures cursor + 1 <= b as int
      {
        CursorPrecedesReplay(reader, head, lookback, window, cursor, b);
      }
    } else {
      var first: int :| IsTimeFirst(reader, head, window, first) && cursor == Min(first, ConfiguredFirst(head.number, lookback)) - 1;
      var one: uint64 := 1;
      assert one as int <= head.number;
      assert InReplay(reader(one).time, 1, head, lookback, window);
    }
  }

  /**
   A restart: the monitor replays from its cursor, not 0, completes rounds of blocks, whose times do
   not decrease and whose logs are different ones, and evaluates the events among the logs handed
   over, in some interleaving with the retry loop, to the last one.
  */
  ghost predicate Restarted(reader: Reader, head: Head, lookback: uint64, window: uint64, cursor: int, latestAtStart: int,
                            h: Handlers, node: Node, rounds: seq<Round>, timeOf: int -> int, isEvent: Log -> bool, run: seq<State<string>>) {
    var entries := HandedOver(rounds);
    && ChainUpTo(reader, head) && IsReplayCursor(reader, head, lookback, window, cursor) && cursor != 0
    && latestAtStart >= head.number
    && var first := FirstBlock(Some(cursor), Some(latestAtStart));
    && h.log && RoundsFrom(h, node, first, rounds)
    && InTimeOrder(timeOf, first, |rounds|) && LogsApart(h, node, first, |rounds|)
    && IsExecution(FeedOf(timeOf, isEvent, entries), run)
    && run[|run| - 1].fed == |FeedOf(timeOf, isEvent, entries)| && run[|run| - 1].processor.Idle?
  }

  /** A prove event in a completed block that is young enough in time, or within the look-back. */
  ghost predicate MustReturn(reader: Reader, head: Head, lookback: uint64, window: uint64, cursor: int,
                             h: Handlers, node: Node, rounds: seq<Round>, isEvent: Log -> bool, b: uint64, lg: Log) {
    && b as int <= head.number && reader(b).Header? && InReplay(reader(b).time, b as int, head, lookback, window)
    && b as int <= cursor + |rounds| && lg in LogsOf(h, node, b as int) && isEvent(lg)
  }

  /**
   Restart recovery. After a crash that lost the pending set, let the monitor replay from its
   cursor (not 0), hand over the logs of the completed blocks, and evaluate them in any
   interleaving with the retry loop. Then every prove event in a completed block that is young
   enough in time, or within the look-back, is again pending, first seen at its block's time, or has its
   verdict.
  */
  lemma {:induction false} RestartRecovers(
    reader: Reader, head: Head, lookback: uint64, window: uint64, cursor: int, latestAtStart: int,
    h: Handlers, node: Node, rounds: seq<Round>, timeOf: int -> int, isEvent: Log -> bool,
    run: seq<State<string>>, b: uint64, lg: Log)
    requires Restarted(reader, head, lookback, window, cursor, latestAtStart, h, node, rounds, timeOf, isEvent, run)
    requires MustReturn(reader, head, lookback, window, cursor, h, node, rounds, isEvent, b, lg)
    ensures var books := run[|run| - 1].books; PendingKey(lg) in books.pending || books.Judged(PendingKey(lg))
    ensures var pending := run[|run| - 1].books.pending;
            PendingKey(lg) in pending ==> pending[PendingKey(lg)] == Event(PendingKey(lg), timeOf(b as int))
  {
    var feed := FeedOf(timeOf, isEvent, HandedOver(rounds));
    RoundsStream(h, node, cursor + 1, rounds, timeOf);
    StreamIsFeed(timeOf, isEvent, HandedOver(rounds));
    ReplayCoveredExactly(reader, head, lookback, window, cursor, latestAtStart);
    LogHandedOver(h, node, cursor + 1, rounds, b as int, lg);
    FeedHolds(timeOf, isEvent, HandedOver(rounds), (b as int, lg));
    var i :| 0 <= i < |feed| && feed[i] == EventOf(timeOf, (b as int, lg));
    NoEventLostOrJudgedTwice(feed, run, |run| - 1);
    if PendingKey(lg) in run[|run| - 1].books.pending {
      FirstSeenIsDelivery(feed, run, |run| - 1, i);
    }
  }

  // ---- An instance: replay from genesis ----------------------------------------------------------

  lemma {:induction false} OneLogPlan(h: Handlers, node: Node, lg: Log)
    requires h == Handlers(false, false, true, true) && node.filteredLogs(0) == [lg]
    ensures LogsOf(h, node, 0) == [lg]
    ensures Plan(h, node, 0) == [GetBlock(0), GetLogs(0), OneLog(0, lg)]
  {
    assert [lg][1..] == [];
    assert Sorted([lg][1..], IndexOf) == [] && Insert(lg, [], IndexOf) == [lg];
  }

  /** A history without failures that works off a plan. */
  lemma {:induction false} AllDone(plan: seq<Item>, k: nat) returns (calls: seq<Call>)
    requires k <= |plan|
    ensures Reached(calls, plan, k)
  {
    if k == 0 {
      calls := [];
    } else {
      calls := AllDone(plan, k - 1);
      ReachedStep(calls, plan, k - 1, true);
      calls := calls + [Call(plan[k - 1], true)];
    }
  }

  lemma {:induction false} OneLogRound(h: Handlers, node: Node, lg: Log) returns (rounds: seq<Round>)
    requires h == Handlers(false, false, true, true) && node.filteredLogs(0) == [lg]
    ensures |rounds| == 1 && RoundsFrom(h, node, 0, rounds) && HandedOver(rounds) == [(0, lg)]
  {
    hide Plan, LogsOf, Orderly, Done, Reached;
    OneLogPlan(h, node, lg);
    var plan := Plan(h, node, 0);
    var calls := AllDone(plan, 3);
    ReachedAll(calls, plan);
    rounds := [Round(0, calls)];
    var one, two := [GetBlock(0)], [GetBlock(0), GetLogs(0)];
    assert rounds[..0] == [] && one[..0] == [] && two[..1] == one && Done(calls)[..2] == two;
    assert LogsDone(one) == [];
    assert LogsDone(two) == [];
  }

  /** The processor alone judges one event valid. */
  function OneValidRun<K>(e: Event<K>): seq<State<K>> {
    [State(0, Idle, Idle, [], Books(map[], [], [], [])),
     State(1, Assessing(e), Idle, [], Books(map[], [], [], [])),
     State(1, Counted(e), Idle, [], Books(map[], [e.key], [], [])),
     State(1, Idle, Idle, [], Books(map[], [e.key], [], []))]
  }

  lemma {:induction false} OneValidRunIsExecution<K(!new)>(e: Event<K>)
    ensures IsExecution([e], OneValidRun(e))
  {
    var run := OneValidRun(e);
    assert Deliver([e], run[0], run[1]);
    assert Counts(run[1].processor, run[1].books, run[2].processor, run[2].books);
    var none: map<K, Event<K>> := map[];
    assert none - {e.key} == none;
    assert Releases(run[2].processor, run[2].books, run[3].processor, run[3].books);
    assert Next([e], run[0], run[1]) && Next([e], run[1], run[2]) && Next([e], run[2], run[3]);
  }

  lemma {:induction false} FeedOfOne(timeOf: int -> int, isEvent: Log -> bool, entry: (int, Log))
    requires isEvent(entry.1)
    ensures FeedOf(timeOf, isEvent, [entry]) == [EventOf(timeOf, entry)]
  {
    hide PendingKey;
    assert [entry][1..] == [];
  }

  ghost predicate JudgedAgain(lg: Log, run: seq<State<string>>) { run != [] && run[|run| - 1].books.Judged(PendingKey(lg)) }

  /**
   The assumptions can be met: a chain of one block is replayed from the cursor -1, its event is
   handed over again, and there are rounds and a run of all the program's parts in which it is judged.
  */
  lemma {:induction false} GenesisReplay(reader: Reader, node: Node, lg: Log)
    requires reader(0) == Header(0) && node.filteredLogs(0) == [lg]
    ensures exists h, rounds, timeOf, isEvent, run ::
              && Restarted(reader, Head(0, 0), 0, 0, -1, 0, h, node, rounds, timeOf, isEvent, run)
              && MustReturn(reader, Head(0, 0), 0, 0, -1, h, node, rounds, isEvent, 0, lg)
              && (0, lg) in HandedOver(rounds) && JudgedAgain(lg, run)
  {
    hide PendingKey, HandedOver, RoundsFrom, LogsOf, Plan, IsExecution, FeedOf;
    var h, head := Handlers(false, false, true, true), Head(0, 0);
    var timeOf, isEvent := (b: int) => 0, (l: Log) => true;
    assert IsTimeFirst(reader, head, 0, 0);
    OneLogPlan(h, node, lg);
    var rounds := OneLogRound(h, node, lg);
    var e := EventOf(timeOf, (0, lg));
    FeedOfOne(timeOf, isEvent, (0, lg));
    OneValidRunIsExecution(e);
    var run := OneValidRun(e);
    assert Restarted(reader, head, 0, 0, -1, 0, h, node, rounds, timeOf, isEvent, run);
    assert MustReturn(reader, head, 0, 0, -1, h, node, rounds, isEvent, 0, lg);
    assert JudgedAgain(lg, run);
  }

  /**
   The failing cursor is reached: with two blocks a second apart and no look-back, the replay cursor
   is 0, and the scan begins after the head although block 1 had to be scanned again.
  */
  lemma {:induction false} CursorZeroHappens(reader: Reader)
    requires reader(0) == Header(0) && reader(1) == Header(1)
    ensures ChainUpTo(reader, Head(1, 1)) && IsReplayCursor(reader, Head(1, 1), 0, 0, 0)
    ensures !Covers(reader, Head(1, 1), 0, 0, FirstBlock(Some(0), Some(1)))
  {
    var head := Head(1, 1);
    assert IsTimeFirst(reader, head, 0, 1);
    ReplayCoveredExactly(reader, head, 0, 0, 0, 1);
  }
}
