/**
 The search for a starting block by time (op-monitorism/faultproof_withdrawals/monitor.go,
 getBlockAtApproximateTimeBinarySearch).

 The loop moves its left end to the midpoint, not past it, so it need not terminate. The model
 cuts it off after a budget of iterations; the statements below say when some budget suffices.
*/
module TimeSearch {
  import opened Basics
  import opened BigInts

  const ACCEPTABLE_DIFF_SEC: int := 3600
  const MAX_UINT64: int := TWO_64 - 1

  /** The answer of HeaderByNumber: the block's timestamp, or an error. */
  type Times = int -> Option<int>

  datatype Cursor = Cursor(left: int, right: int, best: int, bestDiff: int)

  datatype Outcome = Block(best: int) | HeaderError | OutOfBudget

  function Abs(x: int): int { if x < 0 then -x else x }

  function Initial(latest: int): Cursor { Cursor(0, latest, 0, MAX_UINT64) }

  function Middle(c: Cursor): int { (c.left + c.right) / 2 }

  /** One loop iteration that neither fails nor stops the search. */
  function Moved(c: Cursor, ts: int, target: int): Cursor {
    var mid := Middle(c);
    var diff := Abs(ts - target);
    var better := if diff < c.bestDiff then c.(best := mid, bestDiff := diff) else c;
    if ts < target then better.(left := mid) else better.(right := mid - 1)
  }

  function Search(times: Times, target: int, c: Cursor, budget: nat): Outcome
    decreases budget
  {
    if c.left > c.right then Block(c.best)
    else if budget == 0 then OutOfBudget
    else
      var mid := Middle(c);
      match times(mid)
      case None => HeaderError
      case Some(ts) =>
        var diff := Abs(ts - target);
        if diff < c.bestDiff && diff <= ACCEPTABLE_DIFF_SEC then Block(mid)
        else Search(times, target, Moved(c, ts, target), budget - 1)
  }

  /** The caller's `latest` is only read: the search works on integer objects of its own. */
  method GetBlockAtApproximateTime(times: Times, latest: BigInt, now: int, hoursAgo: int, budget: nat) returns (r: Outcome)
    ensures r == Search(times, now - hoursAgo * 3600, Initial(latest.value), budget)
  {
    hide Search;
    var target := now - hoursAgo * 3600;
    var left := new BigInt(0);
    var right := new BigInt(0);
    right.Set(latest);
    var best := new BigInt(0);
    var bestDiffAbs := new BigInt(MAX_UINT64);
    ghost var c := Initial(latest.value);
    var spent := 0;
    while left.value <= right.value
      invariant fresh(left) && fresh(right) && fresh(best) && fresh(bestDiffAbs)
      invariant left != right && left != best && left != bestDiffAbs && right != best && right != bestDiffAbs && best != bestDiffAbs
      invariant c == Cursor(left.value, right.value, best.value, bestDiffAbs.value)
      invariant spent <= budget && Search(times, target, c, budget - spent) == Search(times, target, Initial(latest.value), budget)
      decreases budget - spent
    {
      if spent == budget {
        SearchStops(times, target, c, 0);
        return OutOfBudget;
      }
      SearchUnfolds(times, target, c, budget - spent);
      var mid := new BigInt(0);
      mid.Add(left, right);
      mid.DivInt(mid, 2);
      var hdr := times(mid.value);
      if hdr.None? {
        return HeaderError;
      }
      c := Moved(c, hdr.value, target);
      var found := Compare(hdr.value, target, mid, best, bestDiffAbs);
      if found {
        return Block(best.value);
      }
      if hdr.value < target {
        left.Set(mid);
      } else {
        right.AddInt(mid, -1);
      }
      spent := spent + 1;
    }
    SearchStops(times, target, c, budget - spent);
    return Block(best.value);
  }

  /** Remembers the midpoint if it is the closest block so far; true if it is close enough. */
  method Compare(blockTs: int, target: int, mid: BigInt, best: BigInt, bestDiffAbs: BigInt) returns (found: bool)
    requires mid != best && mid != bestDiffAbs && best != bestDiffAbs
    modifies best, bestDiffAbs
    ensures var diff := Abs(blockTs - target);
            && found == (diff < old(bestDiffAbs.value) && diff <= ACCEPTABLE_DIFF_SEC)
            && best.value == (if diff < old(bestDiffAbs.value) then mid.value else old(best.value))
            && bestDiffAbs.value == Min(diff, old(bestDiffAbs.value))
  {
    var diffAbs := Abs(blockTs - target);
    if diffAbs < bestDiffAbs.value {
      best.Set(mid);
      bestDiffAbs.value := diffAbs;
      return bestDiffAbs.value <= ACCEPTABLE_DIFF_SEC;
    }
    return false;
  }

  lemma {:induction false} SearchStops(times: Times, target: int, c: Cursor, budget: nat)
    ensures c.left > c.right ==> Search(times, target, c, budget) == Block(c.best)
    ensures c.left <= c.right && budget == 0 ==> Search(times, target, c, budget) == OutOfBudget
  {
  }

  lemma {:induction false} SearchUnfolds(times: Times, target: int, c: Cursor, budget: nat)
    requires c.left <= c.right && budget > 0
    ensures Search(times, target, c, budget) ==
            match times(Middle(c)) {
              case None => HeaderError
              case Some(ts) =>
                if Abs(ts - target) < c.bestDiff && Abs(ts - target) <= ACCEPTABLE_DIFF_SEC then Block(Middle(c))
                else Search(times, target, Moved(c, ts, target), budget - 1)
            }
  {
  }

  // ---- Which of the blocks looked at is returned -------------------------------------------------

  /** The blocks the search looks at. */
  function Visited(times: Times, target: int, c: Cursor, budget: nat): seq<int>
    decreases budget
  {
    if c.left > c.right || budget == 0 then []
    else
      var mid := Middle(c);
      if times(mid).None? || (Distance(times, target, mid) < c.bestDiff && Distance(times, target, mid) <= ACCEPTABLE_DIFF_SEC) then [mid]
      else [mid] + Visited(times, target, Moved(c, Time(times, mid), target), budget - 1)
  }

  function Distance(times: Times, target: int, b: int): int {
    var t := Time(times, b);
    if t < target then target - t else t - target
  }

  /** The i-th block looked at is closest to the target, and the first of those equally close. */
  ghost predicate FirstClosest(times: Times, target: int, visited: seq<int>, i: int) {
    && 0 <= i < |visited|
    && (forall j :: 0 <= j < i ==> Distance(times, target, visited[j]) > Distance(times, target, visited[i]))
    && (forall j :: i < j < |visited| ==> Distance(times, target, visited[j]) >= Distance(times, target, visited[i]))
  }

  /** A search that returns a block returns the first of the closest blocks it looked at, if that is closer than what it had. */
  lemma {:induction false} ReturnsFirstClosest(times: Times, target: int, c: Cursor, budget: nat, visited: seq<int>) returns (i: int)
    requires Search(times, target, c, budget).Block? && visited == Visited(times, target, c, budget) != []
    ensures FirstClosest(times, target, visited, i)
    ensures Search(times, target, c, budget).best ==
            if Distance(times, target, visited[i]) < c.bestDiff then visited[i] else c.best
    decreases budget
  {
    var mid := Middle(c);
    var next := Moved(c, Time(times, mid), target);
    i := 0;
    if !(Distance(times, target, mid) < c.bestDiff && Distance(times, target, mid) <= ACCEPTABLE_DIFF_SEC) {
      var rest := Visited(times, target, next, budget - 1);
      assert visited[0] == mid && forall j :: 0 < j < |visited| ==> visited[j] == rest[j - 1];
      if rest != [] {
        var k := ReturnsFirstClosest(times, target, next, budget - 1, rest);
        if Distance(times, target, rest[k]) < Distance(times, target, mid) {
          i := k + 1;
        }
      }
    }
  }

  // ---- When it ends, and with what ---------------------------------------------------------------

  /** A chain of readable blocks 0..latest with nondecreasing 63-bit timestamps. */
  ghost predicate IsChain(times: Times, latest: int) {
    && latest >= 0
    && (forall b :: 0 <= b <= latest ==> times(b).Some? && 0 <= times(b).value <= MAX_INT64)
    && forall a, b :: 0 <= a <= b <= latest ==> times(a).value <= times(b).value
  }

  function Time(times: Times, b: int): int {
    match times(b) case Some(t) => t case None => 0
  }

  /** Within an hour of the target. */
  predicate Near(times: Times, target: int, b: int) { -3600 <= Time(times, b) - target <= 3600 }

  /** Two neighbouring blocks are both close enough to the target. */
  ghost predicate NearPair(times: Times, latest: int, target: int, b: int) {
    0 <= b < latest && Near(times, target, b) && Near(times, target, b + 1)
  }

  ghost predicate NearBlock(times: Times, latest: int, target: int, b: int) {
    0 <= b <= latest && Near(times, target, b)
  }

  /** The search has not met a near block yet: everything near is still inside. */
  ghost predicate Searching(times: Times, latest: int, target: int, c: Cursor) {
    && IsChain(times, latest) && -MAX_INT64 <= target <= MAX_INT64
    && 0 <= c.left <= latest && -1 <= c.right <= latest && ACCEPTABLE_DIFF_SEC < c.bestDiff
    && (c.left > 0 ==> Time(times, c.left) < target - ACCEPTABLE_DIFF_SEC)
    && (c.right < latest ==> Time(times, c.right + 1) > target + ACCEPTABLE_DIFF_SEC)
  }

  lemma {:induction false} NearStaysInside(times: Times, latest: int, target: int, c: Cursor, b: int)
    requires Searching(times, latest, target, c) && NearBlock(times, latest, target, b)
    ensures c.left <= b <= c.right
  {
    assert b <= c.left ==> Time(times, b) <= Time(times, c.left);
    assert c.right < b ==> Time(times, c.right + 1) <= Time(times, b);
  }

  /** A near midpoint ends the search there. */
  lemma {:induction false} HitEnds(times: Times, latest: int, target: int, c: Cursor, budget: nat)
    requires Searching(times, latest, target, c) && c.left <= c.right && budget > 0
    requires Near(times, target, Middle(c))
    ensures Search(times, target, c, budget) == Block(Middle(c)) && NearBlock(times, latest, target, Middle(c))
  {
    assert times(Middle(c)).Some?;
  }

  /** A midpoint that is not near: the search moves on, and nothing near has left its range. */
  lemma {:induction false} MissMovesOn(times: Times, latest: int, target: int, c: Cursor, budget: nat)
    requires Searching(times, latest, target, c) && c.left <= c.right && budget > 0
    requires !Near(times, target, Middle(c))
    ensures var next := Moved(c, Time(times, Middle(c)), target);
            && Searching(times, latest, target, next)
            && Search(times, target, c, budget) == Search(times, target, next, budget - 1)
  {
    assert times(Middle(c)).Some?;
  }

  /** With a near pair ahead the search ends at a near block. */
  lemma {:induction false} PairIsFound(times: Times, latest: int, target: int, c: Cursor, b: int, budget: nat)
    requires Searching(times, latest, target, c) && NearPair(times, latest, target, b)
    requires budget > c.right - c.left
    ensures var r := Search(times, target, c, budget); r.Block? && NearBlock(times, latest, target, r.best)
    decreases budget
  {
    hide Search;
    hide IsChain;
    NearStaysInside(times, latest, target, c, b);
    NearStaysInside(times, latest, target, c, b + 1);
    if Near(times, target, Middle(c)) {
      HitEnds(times, latest, target, c, budget);
    } else {
      MissMovesOn(times, latest, target, c, budget);
      var next := Moved(c, Time(times, Middle(c)), target);
      NearStaysInside(times, latest, target, next, b);
      NearStaysInside(times, latest, target, next, b + 1);
      PairIsFound(times, latest, target, next, b, budget - 1);
    }
  }

  /** The best block so far in a walk down from the latest block: one of the time last looked at. */
  ghost predicate BestIsLast(times: Times, latest: int, target: int, c: Cursor) {
    if c.right == latest then c.bestDiff == MAX_UINT64
    else
      && c.right < latest && 0 <= c.best <= latest
      && Time(times, c.best) == Time(times, c.right + 1) && c.bestDiff == Time(times, c.best) - target
  }

  lemma {:induction false} WalkDown(times: Times, latest: int, target: int, c: Cursor)
    requires Searching(times, latest, target, c) && c.left == 0 <= c.right && target <= Time(times, 0)
    requires BestIsLast(times, latest, target, c)
    ensures var next := Moved(c, Time(times, Middle(c)), target);
            next.left == 0 && next.right < c.right && BestIsLast(times, latest, target, next)
  {
    assert Time(times, 0) <= Time(times, Middle(c));
    if c.right < latest { assert Time(times, Middle(c)) <= Time(times, c.right + 1); }
  }

  /** A target not after the first block: the search walks down and ends at that block's time. */
  lemma {:induction false} EarlyTargetEnds(times: Times, latest: int, target: int, c: Cursor, budget: nat)
    requires Searching(times, latest, target, c) && c.left == 0 && target <= Time(times, 0)
    requires BestIsLast(times, latest, target, c) && budget > c.right
    ensures var r := Search(times, target, c, budget);
            r.Block? && 0 <= r.best <= latest
            && (NearBlock(times, latest, target, r.best) || Time(times, r.best) == Time(times, 0))
    decreases budget
  {
    if c.left <= c.right {
      if Near(times, target, Middle(c)) {
        HitEnds(times, latest, target, c, budget);
      } else {
        MissMovesOn(times, latest, target, c, budget);
        WalkDown(times, latest, target, c);
        EarlyTargetEnds(times, latest, target, Moved(c, Time(times, Middle(c)), target), budget - 1);
      }
    }
  }

  /** After the first block and with nothing near, the search never ends. */
  lemma {:induction false} NothingNearNeverEnds(times: Times, latest: int, target: int, c: Cursor, budget: nat)
    requires Searching(times, latest, target, c) && c.left <= c.right && Time(times, 0) < target
    requires forall b :: !NearBlock(times, latest, target, b)
    ensures Search(times, target, c, budget) == OutOfBudget
    decreases budget
  {
    assert !NearBlock(times, latest, target, Middle(c));
    if budget > 0 {
      MissMovesOn(times, latest, target, c, budget);
      NothingNearNeverEnds(times, latest, target, Moved(c, Time(times, Middle(c)), target), budget - 1);
    }
  }

  /** Whether halving [left, right] in the program's way ever takes n as a midpoint. */
  predicate Halves(left: int, right: int, n: int)
    requires left <= n <= right
    decreases right - left
  {
    var mid := (left + right) / 2;
    if mid == n then true
    else if mid > n then Halves(left, mid - 1, n)
    else mid > left && Halves(mid, right, n)
  }

  ghost predicate LoneNear(times: Times, latest: int, target: int, n: int) {
    && Time(times, 0) < target
    && NearBlock(times, latest, target, n)
    && forall b :: NearBlock(times, latest, target, b) ==> b == n
  }

  /** With a single near block n, the search ends there if the halving meets n. */
  lemma {:induction false} LoneBlockIsFound(times: Times, latest: int, target: int, c: Cursor, n: int, budget: nat)
    requires Searching(times, latest, target, c) && LoneNear(times, latest, target, n)
    requires c.left <= n <= c.right && Halves(c.left, c.right, n) && budget > c.right - c.left
    ensures Search(times, target, c, budget) == Block(n)
    decreases budget
  {
    hide Search, IsChain, Near;
    if Middle(c) == n {
      HitEnds(times, latest, target, c, budget);
    } else {
      assert !NearBlock(times, latest, target, Middle(c));
      MissMovesOn(times, latest, target, c, budget);
      var next := Moved(c, Time(times, Middle(c)), target);
      NearStaysInside(times, latest, target, next, n);
      LoneBlockIsFound(times, latest, target, next, n, budget - 1);
    }
  }

  /** And it never ends if the halving does not. */
  lemma {:induction false} LoneBlockIsMissed(times: Times, latest: int, target: int, c: Cursor, n: int, budget: nat)
    requires Searching(times, latest, target, c) && LoneNear(times, latest, target, n)
    requires c.left <= n <= c.right && !Halves(c.left, c.right, n)
    ensures Search(times, target, c, budget) == OutOfBudget
    decreases budget
  {
    hide Search, IsChain, Near;
    SearchStops(times, target, c, budget);
    if budget > 0 {
      assert !NearBlock(times, latest, target, Middle(c));
      MissMovesOn(times, latest, target, c, budget);
      var next := Moved(c, Time(times, Middle(c)), target);
      NearStaysInside(times, latest, target, next, n);
      LoneBlockIsMissed(times, latest, target, next, n, budget - 1);
    }
  }

  ghost predicate Ends(times: Times, latest: int, target: int) {
    exists budget: nat :: Search(times, target, Initial(latest), budget) != OutOfBudget
  }

  /** What makes the search end. */
  ghost predicate EndsWhen(times: Times, latest: int, target: int)
    requires latest >= 0
  {
    || target <= Time(times, 0)
    || (exists b :: NearPair(times, latest, target, b))
    || (exists n :: NearBlock(times, latest, target, n) && Halves(0, latest, n))
  }

  lemma {:induction false} NearBlocksAreAdjacent(times: Times, latest: int, target: int, a: int, b: int)
    requires IsChain(times, latest) && NearBlock(times, latest, target, a) && NearBlock(times, latest, target, b) && a < b
    ensures NearPair(times, latest, target, a)
  {
    assert Time(times, a) <= Time(times, a + 1) <= Time(times, b);
  }

  /**
   Exact termination. On a readable chain with nondecreasing timestamps the search ends if and only
   if the target is not after block 0, or two neighbouring blocks lie within an hour of it, or a
   block within an hour of it is met by halving the block numbers.
  */
  lemma {:induction false} EndsExactly(times: Times, latest: int, target: int)
    requires IsChain(times, latest) && -MAX_INT64 <= target <= MAX_INT64
    ensures Ends(times, latest, target) <==> EndsWhen(times, latest, target)
  {
    var c := Initial(latest);
    var budget: nat := latest + 1;
    if target <= Time(times, 0) {
      EarlyTargetEnds(times, latest, target, c, budget);
    } else if b :| NearPair(times, latest, target, b) {
      PairIsFound(times, latest, target, c, b, budget);
    } else if n :| NearBlock(times, latest, target, n) {
      forall b | NearBlock(times, latest, target, b) ensures b == n {
        if b < n { NearBlocksAreAdjacent(times, latest, target, b, n); }
        if n < b { NearBlocksAreAdjacent(times, latest, target, n, b); }
      }
      if Halves(0, latest, n) {
        LoneBlockIsFound(times, latest, target, c, n, budget);
      } else {
        forall spent: nat { LoneBlockIsMissed(times, latest, target, c, n, spent); }
      }
    } else {
      forall spent: nat { NothingNearNeverEnds(times, latest, target, c, spent); }
    }
  }

  /**
   Accuracy. If consecutive timestamps are at most an hour apart and the target lies between the
   first and the last of them, the search ends within latest + 1 iterations at a block within an
   hour of the target; a target before the first block ends it as well, at a block of that time.
  */
  lemma {:induction false} AccurateOnDenseChains(times: Times, latest: int, target: int)
    requires IsChain(times, latest) && -MAX_INT64 <= target <= Time(times, latest)
    requires forall b :: 0 <= b < latest ==> Time(times, b + 1) - Time(times, b) <= ACCEPTABLE_DIFF_SEC
    ensures var r := Search(times, target, Initial(latest), latest + 1);
            r.Block? && 0 <= r.best <= latest
            && (Near(times, target, r.best) || (target < Time(times, 0) && Time(times, r.best) == Time(times, 0)))
  {
    if target <= Time(times, 0) {
      EarlyTargetEnds(times, latest, target, Initial(latest), latest + 1);
    } else {
      var b := LastBefore(times, latest, target);
      assert NearPair(times, latest, target, b);
      PairIsFound(times, latest, target, Initial(latest), b, latest + 1);
    }
  }

  lemma {:induction false} LastBefore(times: Times, latest: int, target: int) returns (b: int)
    requires IsChain(times, latest) && Time(times, 0) < target <= Time(times, latest)
    ensures 0 <= b < latest && Time(times, b) < target <= Time(times, b + 1)
  {
    b := 0;
    while Time(times, b + 1) < target
      invariant 0 <= b < latest && Time(times, b) < target
      decreases latest - b
    {
      b := b + 1;
    }
  }

  /**
   Two blocks 10000 seconds apart and a target equal to the second one's time: the search halves
   [0, 1] to [0, 1] for ever, although block 1 is an exact hit.
  */
  lemma {:induction false} ExactHitMayBeMissed(times: Times, budget: nat)
    requires times(0) == Some(0) && times(1) == Some(10000)
    ensures Near(times, 10000, 1) && Search(times, 10000, Initial(1), budget) == OutOfBudget
  {
    StuckBelow(times, Initial(1), budget);
  }

  lemma {:induction false} StuckBelow(times: Times, c: Cursor, budget: nat)
    requires times(0) == Some(0) && c.left == 0 && c.right == 1 && (c.bestDiff == 10000 || c.bestDiff == MAX_UINT64)
    ensures Search(times, 10000, c, budget) == OutOfBudget
    decreases budget
  {
    if budget > 0 { StuckBelow(times, Moved(c, 0, 10000), budget - 1); }
  }
}
