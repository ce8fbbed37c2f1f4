/** The block processor: cursor, retry loops and delivery (op-monitorism/processor/processor.go). */
module BlockProcessor {
  import opened Basics
  import opened Backoff
  import opened BigInts
  import opened BlockPlan

  /** A completed block with all calls made for it. */
  datatype Round = Round(block: int, calls: seq<Call>)

  ghost predicate Complete(h: Handlers, node: Node, r: Round) {
    Orderly(r.calls, Plan(h, node, r.block)) && Done(r.calls) == Plan(h, node, r.block)
  }

  /** The rounds of a run from block `first` on: complete, contiguous and in ascending order. */
  ghost predicate RoundsFrom(h: Handlers, node: Node, first: int, rounds: seq<Round>) {
    forall i :: 0 <= i < |rounds| ==> rounds[i].block == first + i && Complete(h, node, rounds[i])
  }

  /** Whether errors were met in each of the rounds: what the delay updates depend on. */
  function Errors(rounds: seq<Round>): (r: seq<bool>)
    ensures |r| == |rounds|
  {
    seq(|rounds|, i requires 0 <= i < |rounds| => Failed(rounds[i].calls))
  }

  lemma {:induction false} FailedAppend(calls: seq<Call>, c: Call)
    ensures Failed(calls + [c]) <==> Failed(calls) || !c.ok
  {
    var more := calls + [c];
    if Failed(calls) {
      var i :| 0 <= i < |calls| && !calls[i].ok;
      assert !more[i].ok;
    }
    if !c.ok { assert !more[|calls|].ok; }
  }

  lemma {:induction false} ErrorsAppend(before: seq<Round>, from: nat, after: seq<Round>)
    requires from <= |before| && |after| == |before| + 1 && after[..|before|] == before
    ensures Errors(after[from..]) == Errors(before[from..]) + [Failed(after[|before|].calls)]
  {
    assert after[from..] == before[from..] + [after[|before|]];
  }

  /** What one tick did: the rounds it completed, and whether it ended in an error. */
  datatype TickDone = TickDone(rounds: seq<Round>, failed: bool)

  function RoundsOf(done: seq<TickDone>): seq<Round> {
    if done == [] then [] else RoundsOf(done[..|done| - 1]) + done[|done| - 1].rounds
  }

  /** The delay updates of these ticks: one for each round, from its own errors, and one more with errors for a failed tick. */
  function UpdatesOf(done: seq<TickDone>): seq<bool> {
    if done == [] then []
    else
      var last := done[|done| - 1];
      UpdatesOf(done[..|done| - 1]) + Errors(last.rounds) + if last.failed then [true] else []
  }

  lemma {:induction false} TickAppend(done: seq<TickDone>, last: TickDone)
    ensures RoundsOf(done + [last]) == RoundsOf(done) + last.rounds
    ensures UpdatesOf(done + [last]) == UpdatesOf(done) + Errors(last.rounds) + if last.failed then [true] else []
  {
    assert (done + [last])[..|done|] == done;
  }

  lemma {:induction false} NoTicks()
    ensures RoundsOf([]) == [] && UpdatesOf([]) == []
  {
  }

  class Processor {
    const handlers: Handlers
    const node: Node
    const pace: PaceConfig
    var lastProcessed: BigInt?
    var errorsThisBlock: nat
    var currentDelay: int
    var stableCleanBlocks: int

    /** Outcomes of the calls still to come; the context is done when none is left. */
    var outcomes: seq<bool>

    ghost var first: int          // the first block of this run
    ghost var rounds: seq<Round>  // completed blocks, with every call made for them
    ghost var calls: seq<Call>    // calls made for the block in progress
    ghost var updates: seq<bool>  // delay updates so far: did they see errors?

    /**
     The state between any two calls of a run: blocks first, first + 1, ... are complete, in this
     order, and the one in progress has only an orderly beginning, left so only by cancellation.
    */
    ghost predicate Valid()
      reads this, lastProcessed
    {
      && lastProcessed != null
      && lastProcessed.value == first - 1 + |rounds|
      && RoundsFrom(handlers, node, first, rounds)
      && (calls != [] ==> outcomes == [])
      && PaceNow() == PaceAfter(pace, Pace(pace.min, 0), updates)
    }

    ghost function PaceNow(): Pace
      reads this
    {
      Pace(currentDelay, stableCleanBlocks)
    }

    constructor (handlers: Handlers, node: Node, pace: PaceConfig, startBlock: BigInt?, outcomes: seq<bool>)
      ensures this.handlers == handlers && this.node == node && this.pace == pace && this.outcomes == outcomes
      ensures lastProcessed == startBlock && currentDelay == pace.min && stableCleanBlocks == 0
      ensures rounds == [] && calls == [] && updates == []
    {
      this.handlers, this.node, this.pace, this.outcomes := handlers, node, pace, outcomes;
      lastProcessed := startBlock;
      errorsThisBlock, currentDelay, stableCleanBlocks := 0, pace.min, 0;
      rounds, calls, updates := [], [], [];
    }

    /** Works on the next item of the plan until it succeeds or the context is done. */
    method WithRetry(item: Item, ghost plan: seq<Item>, ghost k: nat) returns (ok: bool)
      requires Reached(calls, plan, k) && k < |plan| && plan[k] == item
      requires errorsThisBlock > 0 <==> Failed(calls)
      modifies this`outcomes, this`calls, this`errorsThisBlock
      ensures Reached(calls, plan, if ok then k + 1 else k)
      ensures errorsThisBlock > 0 <==> Failed(calls)
      ensures !ok ==> outcomes == []
    {
      while outcomes != []
        invariant Reached(calls, plan, k)
        invariant errorsThisBlock > 0 <==> Failed(calls)
        decreases |outcomes|
      {
        var success := outcomes[0];
        outcomes := outcomes[1..];
        ReachedStep(calls, plan, k, success);
        FailedAppend(calls, Call(item, success));
        calls := calls + [Call(item, success)];
        if success {
          return true;
        }
        errorsThisBlock := errorsThisBlock + 1;
      }
      return false;
    }

    /** The log part of processBlock: fetch, put in index order if filtered, hand over one by one. */
    method ProcessLogs(b: int, ghost k: nat) returns (ok: bool)
      requires handlers.log && k == |BeforeLogs(handlers, node, b)|
      requires Reached(calls, Plan(handlers, node, b), k)
      requires errorsThisBlock > 0 <==> Failed(calls)
      modifies this`outcomes, this`calls, this`errorsThisBlock
      ensures errorsThisBlock > 0 <==> Failed(calls)
      ensures ok ==> Reached(calls, Plan(handlers, node, b), |Plan(handlers, node, b)|)
      ensures !ok ==> outcomes == []
    {
      hide Failed, Orderly, Done, LogsOf, TxItems;
      ghost var plan := Plan(handlers, node, b);
      var logs := LogsOf(handlers, node, b);
      ok := WithRetry(GetLogs(b), plan, k);
      if !ok {
        return;
      }
      for i := 0 to |logs|
        invariant Reached(calls, plan, k + 1 + i)
        invariant errorsThisBlock > 0 <==> Failed(calls)
      {
        ok := WithRetry(OneLog(b, logs[i]), plan, k + 1 + i);
        if !ok {
          return;
        }
      }
      return true;
    }

    method ProcessTransactions(b: int) returns (ok: bool)
      requires handlers.tx
      requires Reached(calls, Plan(handlers, node, b), 1)
      requires errorsThisBlock > 0 <==> Failed(calls)
      modifies this`outcomes, this`calls, this`errorsThisBlock
      ensures errorsThisBlock > 0 <==> Failed(calls)
      ensures ok ==> Reached(calls, Plan(handlers, node, b), 1 + node.txCount(b))
      ensures !ok ==> outcomes == []
    {
      for i := 0 to node.txCount(b)
        invariant Reached(calls, Plan(handlers, node, b), 1 + i)
        invariant errorsThisBlock > 0 <==> Failed(calls)
      {
        assert Plan(handlers, node, b)[1 + i] == TxItems(node, b)[i];
        ok := WithRetry(OneTx(b, i), Plan(handlers, node, b), 1 + i);
        if !ok {
          return;
        }
      }
      return true;
    }

    /** Fetch, transactions, block and logs of one block, each retried until it succeeds. */
    method ProcessItems(b: int) returns (ok: bool)
      requires calls == [] && errorsThisBlock == 0
      modifies this`outcomes, this`calls, this`errorsThisBlock
      ensures errorsThisBlock > 0 <==> Failed(calls)
      ensures ok ==> Reached(calls, Plan(handlers, node, b), |Plan(handlers, node, b)|)
      ensures !ok ==> outcomes == []
    {
      ghost var k := 1;
      ok := WithRetry(GetBlock(b), Plan(handlers, node, b), 0);
      if ok && handlers.tx {
        ok := ProcessTransactions(b);
        k := k + node.txCount(b);
      }
      if ok && handlers.block {
        ok := WithRetry(WholeBlock(b), Plan(handlers, node, b), k);
        k := k + 1;
      }
      if ok && handlers.log {
        ok := ProcessLogs(b, k);
      }
    }

    /**
     One block. On success the cursor becomes a fresh object holding the block's number: neither
     the caller's big integer nor the old cursor is shared or changed.
    */
    method ProcessBlock(blockNumber: BigInt) returns (ok: bool)
      requires Valid() && calls == [] && errorsThisBlock == 0
      requires blockNumber != lastProcessed && blockNumber.value == lastProcessed.value + 1
      modifies this`lastProcessed, this`outcomes, this`calls, this`errorsThisBlock, this`rounds
      ensures Valid()
      ensures !ok ==> outcomes == [] && lastProcessed == old(lastProcessed) && rounds == old(rounds)
      ensures ok ==> fresh(lastProcessed) && calls == []
      ensures ok ==> |rounds| == |old(rounds)| + 1 && rounds[..|rounds| - 1] == old(rounds)
      ensures ok ==> (errorsThisBlock > 0 <==> Failed(rounds[|rounds| - 1].calls))
    {
      hide Orderly, Done, Plan, Reached, Failed, PaceAfter;
      ok := ProcessItems(blockNumber.value);
      if ok {
        ReachedAll(calls, Plan(handlers, node, blockNumber.value));
        rounds, calls := rounds + [Round(blockNumber.value, calls)], [];
        lastProcessed := new BigInt(blockNumber.value);
      }
    }

    /** Raises the delay after errors, lowers it after a stable window, and forgets the errors. */
    method UpdateBackoff()
      requires Valid()
      modifies this`errorsThisBlock, this`currentDelay, this`stableCleanBlocks, this`updates
      ensures Valid() && errorsThisBlock == 0
      ensures updates == old(updates) + [old(errorsThisBlock) > 0]
    {
      var hadErrors := errorsThisBlock > 0;
      errorsThisBlock := 0;
      if hadErrors {
        if currentDelay == 0 {
          currentDelay := pace.step;
        } else {
          currentDelay := Wrap64(currentDelay * 2);
        }
        if currentDelay > pace.max {
          currentDelay := pace.max;
        }
        stableCleanBlocks := 0;
      } else {
        stableCleanBlocks := stableCleanBlocks + 1;
        if stableCleanBlocks >= pace.window && currentDelay > pace.min {
          if currentDelay > Wrap64(pace.step + pace.min) {
            currentDelay := Wrap64(currentDelay - pace.step);
          } else {
            currentDelay := pace.min;
          }
          stableCleanBlocks := 0;
        }
      }
      updates := updates + [hadErrors];
    }

    /** The body of the block loop: the block, then one delay update from its errors alone. */
    method ProcessNext(nextBlock: BigInt) returns (ok: bool)
      requires Valid() && calls == [] && errorsThisBlock == 0
      requires nextBlock != lastProcessed && nextBlock.value == lastProcessed.value + 1
      modifies this`lastProcessed, this`outcomes, this`calls, this`errorsThisBlock, this`rounds
      modifies this`currentDelay, this`stableCleanBlocks, this`updates
      ensures Valid()
      ensures !ok ==> errorsThisBlock > 0 && outcomes == []
      ensures !ok ==> lastProcessed == old(lastProcessed) && rounds == old(rounds) && updates == old(updates)
      ensures ok ==> fresh(lastProcessed) && lastProcessed.value == nextBlock.value && calls == [] && errorsThisBlock == 0
      ensures ok ==> |rounds| == |old(rounds)| + 1 && rounds[..|rounds| - 1] == old(rounds)
      ensures ok ==> updates == old(updates) + [Failed(rounds[|rounds| - 1].calls)]
    {
      hide PaceAfter, Complete, Failed;
      ok := ProcessBlock(nextBlock);
      if ok {
        UpdateBackoff();
      } else {
        errorsThisBlock := errorsThisBlock + 1;
      }
    }

    /**
     One tick: all blocks up to the latest, one at a time. The block counter is advanced in place
     while the cursor points to objects of its own, so the cursor is never moved by it. Each
     completed block contributes one delay update, made from that block's own errors alone.
    */
    method ProcessNewBlocks(latest: Option<int>) returns (ok: bool)
      requires Valid() && (outcomes == [] ==> latest.None?)
      modifies this`lastProcessed, this`outcomes, this`calls, this`errorsThisBlock, this`rounds
      modifies this`currentDelay, this`stableCleanBlocks, this`updates
      ensures Valid()
      ensures old(rounds) <= rounds && updates == old(updates) + Errors(rounds[|old(rounds)|..])
      ensures lastProcessed == old(lastProcessed) || fresh(lastProcessed)
      ensures latest.None? ==> !ok && rounds == old(rounds) && outcomes == old(outcomes)
      ensures ok ==> lastProcessed.value == Max(old(lastProcessed.value), latest.value)
      ensures !ok ==> errorsThisBlock > 0 && (latest.Some? ==> outcomes == [])
    {
      hide Errors, PaceAfter, Complete, Failed;
      errorsThisBlock := 0;
      if latest.None? {
        errorsThisBlock := errorsThisBlock + 1;
        return false;
      }
      var nextBlock := new BigInt(lastProcessed.value + 1);
      while nextBlock.value <= latest.value
        invariant Valid() && calls == [] && errorsThisBlock == 0
        invariant fresh(nextBlock) && nextBlock != lastProcessed && nextBlock.value == lastProcessed.value + 1
        invariant lastProcessed == old(lastProcessed) || fresh(lastProcessed)
        invariant old(rounds) <= rounds && updates == old(updates) + Errors(rounds[|old(rounds)|..])
        invariant old(lastProcessed.value) <= lastProcessed.value <= Max(old(lastProcessed.value), latest.value)
        decreases latest.value - nextBlock.value
      {
        ghost var before := rounds;
        ok := ProcessNext(nextBlock);
        if !ok {
          return;
        }
        ErrorsAppend(before, |old(rounds)|, rounds);
        nextBlock.AddInt(nextBlock, 1);
      }
      return true;
    }

    /**
     The processing loop, over the answers the node gives for its latest block at start and at
     each tick. A start block of 0 counts as none given. Each round is followed by a delay update from
     its own errors, and a failed tick by one more, which raises the delay. Unless the context ended,
     a tick fails exactly if the node gives no latest block, and every block any tick reported as
     latest has been completed.
    */
    method Start(latestAtStart: Option<int>, ticks: seq<Option<int>>) returns (started: bool, ghost done: seq<TickDone>)
      requires rounds == [] && calls == [] && updates == [] && PaceNow() == Pace(pace.min, 0)
      modifies this`lastProcessed, this`outcomes, this`calls, this`errorsThisBlock, this`rounds
      modifies this`currentDelay, this`stableCleanBlocks, this`updates, this`first
      ensures started <==> old(UsesStartBlock()) || latestAtStart.Some?
      ensures started ==> Valid()
      ensures started ==> first == FirstBlock(if old(lastProcessed) == null then None else Some(old(lastProcessed.value)), latestAtStart)
      ensures if started then |done| == |ticks| && rounds == RoundsOf(done) && updates == UpdatesOf(done) else done == []
      ensures started ==> forall i :: 0 <= i < |ticks| && ticks[i].None? ==> done[i].failed
      ensures started && outcomes != [] ==> forall i :: 0 <= i < |ticks| && ticks[i].Some? ==> !done[i].failed
      ensures started && outcomes != [] ==>
                forall i :: 0 <= i < |ticks| && ticks[i].Some? ==> ticks[i].value <= lastProcessed.value
    {
      hide Errors, Complete, RoundsOf, UpdatesOf;
      done := [];
      NoTicks();
      if lastProcessed == null || lastProcessed.value == 0 {
        if latestAtStart.None? {
          return false, done;
        }
        lastProcessed := new BigInt(latestAtStart.value);
      }
      first := lastProcessed.value + 1;
      ghost var firstBlock := first;
      for n := 0 to |ticks|
        invariant Valid() && first == firstBlock && |done| == n && rounds == RoundsOf(done) && updates == UpdatesOf(done)
        invariant forall i :: 0 <= i < n && ticks[i].None? ==> done[i].failed
        invariant outcomes != [] ==> forall i :: 0 <= i < n && ticks[i].Some? ==> !done[i].failed
        invariant outcomes != [] ==> forall i :: 0 <= i < n && ticks[i].Some? ==> ticks[i].value <= lastProcessed.value
      {
        ghost var before := rounds;
        var latest := if outcomes == [] then None else ticks[n];
        var ok := ProcessNewBlocks(latest);
        if !ok {
          UpdateBackoff();
        }
        ghost var tick := TickDone(rounds[|before|..], !ok);
        TickAppend(done, tick);
        done := done + [tick];
      }
      return true, done;
    }

    ghost predicate UsesStartBlock()
      reads this, lastProcessed
    {
      lastProcessed != null && lastProcessed.value != 0
    }
  }

  /** The first block a run works on: after the start block, or after the latest if it is absent or 0. */
  function FirstBlock(startBlock: Option<int>, latestAtStart: Option<int>): int {
    if startBlock.Some? && startBlock.value != 0 then startBlock.value + 1
    else if latestAtStart.Some? then latestAtStart.value + 1 else 0
  }

  /** The cursor made of a configured start block, in 64-bit signed arithmetic: one below it, to include it. */
  function ConfiguredCursor(startBlock: nat): int
    requires 0 < startBlock < TWO_64
  {
    Wrap64((if startBlock > MAX_INT64 then startBlock - TWO_64 else startBlock) - 1)
  }

  /**
   The named start block is the first one scanned, exactly: unless it is 1, whose cursor 0 counts as
   absent, or beyond 2^63, where the signed cursor is negative.
  */
  lemma {:induction false} StartIsInclusiveExactly(startBlock: nat, latest: nat)
    requires 0 < startBlock < TWO_64
    ensures FirstBlock(Some(ConfiguredCursor(startBlock)), Some(latest)) == startBlock <==>
            (startBlock != 1 || latest == 0) && startBlock <= MAX_INT64 + 1
  {
  }

  /** With start block 1 the scan begins after the latest block, and skips all blocks up to it. */
  lemma {:induction false} StartOneSkips(latest: nat)
    requires latest > 0
    ensures FirstBlock(Some(ConfiguredCursor(1)), Some(latest)) == latest + 1 > 1
  {
  }
}
