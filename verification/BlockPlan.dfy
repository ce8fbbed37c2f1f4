/** What the processor owes each block, and what an orderly history of calls is. */
module BlockPlan {
  import opened ProofRecovery
  import opened Sorting

  /** The pieces of work on one block; fetches and callbacks are both retried until they succeed. */
  datatype Item =
    | GetBlock(block: int)
    | OneTx(block: int, position: nat)
    | WholeBlock(block: int)
    | GetLogs(block: int)
    | OneLog(block: int, lg: Log)

  /** One call, successful or not. */
  datatype Call = Call(item: Item, ok: bool)

  /** Which callbacks are configured, and whether logs come from the filtered query. */
  datatype Handlers = Handlers(tx: bool, block: bool, log: bool, filtered: bool)

  /** What the node answers for each block. */
  datatype Node = Node(txCount: int -> nat, filteredLogs: int -> seq<Log>, receipts: int -> seq<seq<Log>>)

  // ---- The plan of a block ---------------------------------------------------------------------

  function IndexOf(lg: Log): int { lg.index }

  function Flatten<T>(ss: seq<seq<T>>): seq<T> {
    if ss == [] then [] else ss[0] + Flatten(ss[1..])
  }

  /** The logs of a block in the order they are handed over. */
  function LogsOf(h: Handlers, node: Node, b: int): seq<Log> {
    if h.filtered then Sorted(node.filteredLogs(b), IndexOf) else Flatten(node.receipts(b))
  }

  function TxItems(node: Node, b: int): seq<Item> { seq(node.txCount(b), i requires 0 <= i => OneTx(b, i)) }

  function LogItems(b: int, logs: seq<Log>): seq<Item> {
    seq(|logs|, i requires 0 <= i < |logs| => OneLog(b, logs[i]))
  }

  function BeforeLogs(h: Handlers, node: Node, b: int): seq<Item> {
    [GetBlock(b)] + (if h.tx then TxItems(node, b) else []) + (if h.block then [WholeBlock(b)] else [])
  }

  /** Everything to be done for block b, in order. */
  function Plan(h: Handlers, node: Node, b: int): seq<Item> {
    BeforeLogs(h, node, b) + (if h.log then [GetLogs(b)] + LogItems(b, LogsOf(h, node, b)) else [])
  }

  // ---- Orderly histories -------------------------------------------------------------------------

  function Done(calls: seq<Call>): seq<Item> {
    if calls == [] then []
    else Done(calls[..|calls| - 1]) + (if calls[|calls| - 1].ok then [calls[|calls| - 1].item] else [])
  }

  predicate Failed(calls: seq<Call>) { exists i :: 0 <= i < |calls| && !calls[i].ok }

  /** Every call works on the first item of the plan that has not succeeded yet. */
  predicate Orderly(calls: seq<Call>, plan: seq<Item>) {
    forall i :: 0 <= i < |calls| ==> |Done(calls[..i])| < |plan| && calls[i].item == plan[|Done(calls[..i])|]
  }

  /** An orderly history that has finished exactly the first k items. */
  predicate Reached(calls: seq<Call>, plan: seq<Item>, k: nat) {
    k <= |plan| && Orderly(calls, plan) && Done(calls) == plan[..k]
  }

  lemma {:induction false} ReachedStep(calls: seq<Call>, plan: seq<Item>, k: nat, ok: bool)
    requires Reached(calls, plan, k) && k < |plan|
    ensures Reached(calls + [Call(plan[k], ok)], plan, if ok then k + 1 else k)
  {
    var calls' := calls + [Call(plan[k], ok)];
    assert calls'[..|calls|] == calls;
    forall i | 0 <= i < |calls'| ensures calls'[..i] == if i <= |calls| then calls[..i] else calls' {}
    assert plan[..k + 1] == plan[..k] + [plan[k]];
  }

  lemma {:induction false} ReachedAll(calls: seq<Call>, plan: seq<Item>)
    requires Reached(calls, plan, |plan|)
    ensures Orderly(calls, plan) && Done(calls) == plan
  {
    assert plan[..|plan|] == plan;
  }

  lemma {:induction false} DoneGrows(calls: seq<Call>, i: nat, j: nat)
    requires i <= j <= |calls|
    ensures |Done(calls[..i])| <= |Done(calls[..j])|
  {
    if i < j {
      assert calls[..j][..j - 1] == calls[..j - 1];
      DoneGrows(calls, i, j - 1);
    }
  }

  lemma {:induction false} SuccessAt(calls: seq<Call>, plan: seq<Item>, k: nat) returns (i: nat)
    requires Orderly(calls, plan) && k < |Done(calls)|
    ensures i < |calls| && calls[i] == Call(plan[k], true) && |Done(calls[..i])| == k
  {
    var last := |calls| - 1;
    assert calls[..|calls|] == calls;
    if |Done(calls[..last])| == k {
      i := last;
    } else {
      forall m | 0 <= m < last ensures calls[..last][..m] == calls[..m] {}
      i := SuccessAt(calls[..last], plan, k);
      assert calls[..last][..i] == calls[..i];
    }
  }

  /** The position in its plan that call j works on. */
  function Position(calls: seq<Call>, j: nat): nat
    requires j <= |calls|
  {
    |Done(calls[..j])|
  }

  /** Call i is the one success of plan position k, and separates earlier from later work. */
  ghost predicate SucceedsHere(calls: seq<Call>, k: nat, i: nat) {
    && i < |calls| && calls[i].ok && Position(calls, i) == k
    && (forall j :: 0 <= j < i ==> Position(calls, j) <= k && (Position(calls, j) == k ==> !calls[j].ok))
    && (forall j :: i < j < |calls| ==> k < Position(calls, j))
  }

  /**
   In an orderly history that finished its plan each item succeeds in exactly one call; every
   earlier call works on the same or an earlier item, every later call on a later one.
  */
  lemma {:induction false} ExactlyOnce(calls: seq<Call>, plan: seq<Item>, k: nat)
    requires Orderly(calls, plan) && Done(calls) == plan && k < |plan|
    ensures exists i: nat :: SucceedsHere(calls, k, i) && calls[i].item == plan[k]
  {
    var i := SuccessAt(calls, plan, k);
    assert calls[..i + 1][..i] == calls[..i];
    forall j | 0 <= j < i ensures Position(calls, j) <= k && (Position(calls, j) == k ==> !calls[j].ok) {
      DoneGrows(calls, j, i);
      DoneGrows(calls, j + 1, i);
      assert calls[..j + 1][..j] == calls[..j];
    }
    forall j | i < j < |calls| ensures k < Position(calls, j) {
      DoneGrows(calls, i + 1, j);
    }
    assert SucceedsHere(calls, k, i);
  }

  /**
   On the filtered path the log callbacks of a block come in ascending index order, cover exactly
   the logs returned, and do not depend on the order the node returned them in.
  */
  lemma {:induction false} FilteredLogsInOrder(h: Handlers, node: Node, other: Node, b: int)
    requires h.filtered && multiset(node.filteredLogs(b)) == multiset(other.filteredLogs(b))
    requires forall x, y :: x in node.filteredLogs(b) && y in node.filteredLogs(b) && x.index == y.index ==> x == y
    ensures var logs := LogsOf(h, node, b);
            && (forall i, j :: 0 <= i < j < |logs| ==> logs[i].index <= logs[j].index)
            && multiset(logs) == multiset(node.filteredLogs(b))
            && logs == LogsOf(h, other, b)
  {
    hide Sorted, Flatten;
    var mine, theirs := node.filteredLogs(b), other.filteredLogs(b);
    SortSorts(mine, IndexOf);
    forall x, y | x in multiset(mine) && y in multiset(mine) && IndexOf(x) == IndexOf(y) ensures x == y {
      assert x in mine && y in mine;
    }
    SortIgnoresOrder(mine, theirs, IndexOf);
    var logs := LogsOf(h, node, b);
    forall i, j | 0 <= i < j < |logs| ensures logs[i].index <= logs[j].index {
      assert IndexOf(logs[i]) <= IndexOf(logs[j]);
    }
  }

  // ---- Which callbacks a completed block got, without reference to the plan -----------------------

  /** Call i succeeded with this item, and no other call did. */
  ghost predicate OnlySuccess(calls: seq<Call>, item: Item, i: int) {
    0 <= i < |calls| && calls[i] == Call(item, true) && forall j :: 0 <= j < |calls| && j != i ==> calls[j] != Call(item, true)
  }

  ghost predicate SucceedsOnce(calls: seq<Call>, item: Item) { exists i :: OnlySuccess(calls, item, i) }

  /** The order in which the work on a block is due: the block, its transactions, the whole block, its logs. */
  function Stage(item: Item): (nat, nat) {
    match item
    case GetBlock(_) => (0, 0)
    case OneTx(_, position) => (1, position)
    case WholeBlock(_) => (2, 0)
    case GetLogs(_) => (3, 0)
    case OneLog(_, _) => (4, 0)
  }

  predicate Earlier(a: Item, b: Item) {
    Stage(a).0 < Stage(b).0 || (Stage(a).0 == Stage(b).0 && Stage(a).1 < Stage(b).1)
  }

  /** Whether the item is work on this block that these callbacks call for. */
  ghost predicate Due(h: Handlers, node: Node, b: int, item: Item) {
    match item
    case GetBlock(of) => of == b
    case OneTx(of, position) => of == b && h.tx && position < node.txCount(b)
    case WholeBlock(of) => of == b && h.block
    case GetLogs(of) => of == b && h.log
    case OneLog(of, lg) => of == b && h.log && lg in LogsOf(h, node, b)
  }

  /** What stands at each place of a plan. */
  lemma {:induction false} PlanAt(h: Handlers, node: Node, b: int, k: nat)
    requires k < |Plan(h, node, b)|
    ensures var item, txs, blocks := Plan(h, node, b)[k], if h.tx then node.txCount(b) else 0, if h.block then 1 else 0;
            if k == 0 then item == GetBlock(b)
            else if k <= txs then item == OneTx(b, k - 1)
            else if k <= txs + blocks then item == WholeBlock(b)
            else if k == txs + blocks + 1 then h.log && item == GetLogs(b)
            else h.log && k - txs - blocks - 2 < |LogsOf(h, node, b)| && item == OneLog(b, LogsOf(h, node, b)[k - txs - blocks - 2])
  {
    hide LogsOf;
  }

  lemma {:induction false} PlanSize(h: Handlers, node: Node, b: int)
    ensures |Plan(h, node, b)| == 1 + (if h.tx then node.txCount(b) else 0) + (if h.block then 1 else 0)
                                  + if h.log then 1 + |LogsOf(h, node, b)| else 0
  {
    hide LogsOf;
  }

  /** Items of a plan that are not of the same stage stand in the order of their stages; only logs share one. */
  lemma {:induction false} PlanInOrder(h: Handlers, node: Node, b: int, j: nat, k: nat)
    requires j < |Plan(h, node, b)| && k < |Plan(h, node, b)|
    ensures Earlier(Plan(h, node, b)[j], Plan(h, node, b)[k]) ==> j < k
    ensures Plan(h, node, b)[j] == Plan(h, node, b)[k] && !Plan(h, node, b)[k].OneLog? ==> j == k
    ensures Due(h, node, b, Plan(h, node, b)[k])
  {
    hide Plan, LogsOf;
    PlanAt(h, node, b, j);
    PlanAt(h, node, b, k);
  }

  /** Every due item stands somewhere. */
  lemma {:induction false} DueIsPlanned(h: Handlers, node: Node, b: int, item: Item) returns (k: nat)
    requires Due(h, node, b, item)
    ensures k < |Plan(h, node, b)| && Plan(h, node, b)[k] == item
  {
    hide Plan, LogsOf;
    var txs, blocks := if h.tx then node.txCount(b) else 0, if h.block then 1 else 0;
    PlanSize(h, node, b);
    match item {
      case GetBlock(_) => k := 0;
      case OneTx(_, position) => k := 1 + position;
      case WholeBlock(_) => k := 1 + txs;
      case GetLogs(_) => k := 1 + txs + blocks;
      case OneLog(_, lg) =>
        var i :| 0 <= i < |LogsOf(h, node, b)| && LogsOf(h, node, b)[i] == lg;
        k := 2 + txs + blocks + i;
    }
    PlanAt(h, node, b, k);
  }

  lemma {:induction false} CallAt(calls: seq<Call>, plan: seq<Item>, j: nat)
    requires Orderly(calls, plan) && j < |calls|
    ensures Position(calls, j) < |plan| && calls[j].item == plan[Position(calls, j)]
  {
  }

  /** An item that stands only once in its plan succeeds in exactly one call. */
  lemma {:induction false} OnceInPlan(calls: seq<Call>, plan: seq<Item>, k: nat)
    requires Orderly(calls, plan) && Done(calls) == plan && k < |plan|
    requires forall j :: 0 <= j < |plan| && plan[j] == plan[k] ==> j == k
    ensures SucceedsOnce(calls, plan[k])
  {
    hide Orderly, Done, Position;
    ExactlyOnce(calls, plan, k);
    var i: nat :| SucceedsHere(calls, k, i) && calls[i].item == plan[k];
    forall j | 0 <= j < |calls| && j != i ensures calls[j] != Call(plan[k], true) {
      CallAt(calls, plan, j);
    }
    assert OnlySuccess(calls, plan[k], i);
  }

  /** Work that stands later in the plan succeeds later. */
  lemma {:induction false} LaterSucceedsLater(calls: seq<Call>, plan: seq<Item>, i: nat, j: nat)
    requires Orderly(calls, plan) && Done(calls) == plan
    requires i < |calls| && j < |calls| && Position(calls, i) < Position(calls, j)
    ensures i < j
  {
    if j <= i {
      DoneGrows(calls, j, i);
    }
  }

  /**
   What a completed block got: every call works on something due for this block; the block, each of
   its transactions, the whole block and the log query, where configured, succeed in exactly one call
   each, and every due log in some call; and successes come in the order block, transactions
   ascending, whole block, log query, logs.
  */
  lemma {:induction false} CallbacksExactly(h: Handlers, node: Node, b: int, calls: seq<Call>)
    requires Orderly(calls, Plan(h, node, b)) && Done(calls) == Plan(h, node, b)
    ensures forall i :: 0 <= i < |calls| ==> Due(h, node, b, calls[i].item)
    ensures forall item :: Due(h, node, b, item) ==>
              if item.OneLog? then Call(item, true) in calls else SucceedsOnce(calls, item)
    ensures forall i, j :: 0 <= i < |calls| && 0 <= j < |calls| && Earlier(calls[i].item, calls[j].item) ==> i < j
  {
    hide Plan, Due, Stage, Earlier, Orderly, Done, Position, SucceedsOnce;
    var plan := Plan(h, node, b);
    forall i | 0 <= i < |calls| ensures Due(h, node, b, calls[i].item) {
      CallAt(calls, plan, i);
      PlanInOrder(h, node, b, Position(calls, i), Position(calls, i));
    }
    forall item | Due(h, node, b, item) ensures if item.OneLog? then Call(item, true) in calls else SucceedsOnce(calls, item) {
      var k := DueIsPlanned(h, node, b, item);
      if item.OneLog? {
        ExactlyOnce(calls, plan, k);
        var i: nat :| SucceedsHere(calls, k, i) && calls[i].item == plan[k];
        assert calls[i] == Call(item, true);
      } else {
        forall j | 0 <= j < |plan| && plan[j] == plan[k] ensures j == k {
          PlanInOrder(h, node, b, j, k);
        }
        OnceInPlan(calls, plan, k);
      }
    }
    forall i, j | 0 <= i < |calls| && 0 <= j < |calls| && Earlier(calls[i].item, calls[j].item) ensures i < j {
      CallAt(calls, plan, i);
      CallAt(calls, plan, j);
      PlanInOrder(h, node, b, Position(calls, i), Position(calls, j));
      LaterSucceedsLater(calls, plan, i, j);
    }
  }

  // ---- The logs of a block without a filter ------------------------------------------------------

  /** How many logs the first n receipts hold. */
  function LogsBefore(receipts: seq<seq<Log>>, n: nat): nat
    requires n <= |receipts|
  {
    if n == 0 then 0 else LogsBefore(receipts, n - 1) + |receipts[n - 1]|
  }

  /** Log j of receipt i comes after all of the receipts before. */
  ghost predicate StandsAt(logs: seq<Log>, receipts: seq<seq<Log>>, i: nat, j: nat) {
    && i < |receipts| && j < |receipts[i]|
    && LogsBefore(receipts, i) + j < |logs| && logs[LogsBefore(receipts, i) + j] == receipts[i][j]
  }

  /** Without a filter the logs are those of the receipts, all of them and in their order. */
  lemma {:induction false} UnfilteredLogsInOrder(h: Handlers, node: Node, b: int)
    requires !h.filtered
    ensures |LogsOf(h, node, b)| == LogsBefore(node.receipts(b), |node.receipts(b)|)
    ensures forall i: nat, j: nat :: i < |node.receipts(b)| && j < |node.receipts(b)[i]| ==> StandsAt(LogsOf(h, node, b), node.receipts(b), i, j)
  {
    hide StandsAt;
    FlattenSize(node.receipts(b));
    forall i: nat, j: nat | i < |node.receipts(b)| && j < |node.receipts(b)[i]|
      ensures StandsAt(LogsOf(h, node, b), node.receipts(b), i, j)
    {
      FlattenExactly(node.receipts(b), i, j);
    }
  }

  lemma {:induction false} LogsBeforeTail(receipts: seq<seq<Log>>, n: nat)
    requires 0 < n <= |receipts|
    ensures LogsBefore(receipts, n) == |receipts[0]| + LogsBefore(receipts[1..], n - 1)
  {
    if n > 1 {
      LogsBeforeTail(receipts, n - 1);
    }
  }

  lemma {:induction false} FlattenSize(receipts: seq<seq<Log>>)
    ensures |Flatten(receipts)| == LogsBefore(receipts, |receipts|)
  {
    if receipts != [] {
      FlattenSize(receipts[1..]);
      LogsBeforeTail(receipts, |receipts|);
    }
  }

  lemma {:induction false} FlattenExactly(receipts: seq<seq<Log>>, i: nat, j: nat)
    requires i < |receipts| && j < |receipts[i]|
    ensures StandsAt(Flatten(receipts), receipts, i, j)
  {
    if i > 0 {
      LogsBeforeTail(receipts, i);
      FlattenExactly(receipts[1..], i - 1, j);
    }
  }
}
