/** Where a restarted monitor begins: replayStartBlock (op-monitorism/withdrawals-v2/monitor.go). */
module Replay {
  import opened Basics

  newtype uint64 = x: int | 0 <= x < 0x1_0000_0000_0000_0000

  const REPLAY_SAFETY_MARGIN_SECONDS: nat := 24 * 60 * 60

  datatype ReplayError = HeaderUnavailable(block: nat) | HeaderNull(block: nat) | InvalidHead | MaturityOverflow

  /** One answer of HeaderByNumber. A search asks for each block at most once. */
  datatype HeaderReply = Header(time: uint64) | Missing | Failure

  type Reader = uint64 -> HeaderReply

  ghost predicate Nondecreasing(reader: Reader, head: uint64) {
    && (forall b :: b < head ==> reader(b).Header?)
    && forall a, b :: a <= b < head ==> reader(a).time <= reader(b).time
  }

  function Log2(n: nat): nat
    requires n > 0
  {
    if n == 1 then 0 else 1 + Log2(n / 2)
  }

  /** Header reads a search over n blocks may take. */
  function Reads(n: nat): nat { if n == 0 then 0 else Log2(n) + 1 }

  lemma {:induction false} ReadsMonotone(m: nat, n: nat)
    requires m <= n
    ensures Reads(m) <= Reads(n)
  {
    if m > 1 { ReadsMonotone(m / 2, n / 2); }
  }

  /**
   The least block with a timestamp at or after the target, or the head if there is none before it.
   The head itself is never read, no block is read twice, and the reads are logarithmic; the
   machine arithmetic on block numbers cannot overflow.
  */
  method FirstBlockAtOrAfter(reader: Reader, headNumber: uint64, target: uint64)
    returns (r: Result<uint64, ReplayError>, ghost asked: seq<uint64>)
    ensures Distinct(asked) && forall b :: b in asked ==> b < headNumber
    ensures |asked| <= Reads(headNumber as nat)
    ensures r.Err? ==>
              && asked != []
              && var last := asked[|asked| - 1];
                 (reader(last).Failure? && r.error == HeaderUnavailable(last as nat)) || (reader(last).Missing? && r.error == HeaderNull(last as nat))
    ensures r.Ok? ==> r.value <= headNumber && forall b :: b in asked ==> reader(b).Header?
    ensures r.Ok? && Nondecreasing(reader, headNumber) ==>
              && (forall b :: b < r.value ==> reader(b).time < target)
              && (forall b :: r.value <= b < headNumber ==> target <= reader(b).time)
    ensures Nondecreasing(reader, headNumber) ==> r.Ok?
  {
    asked := [];
    var lo, hi := 0, headNumber;
    while lo < hi
      invariant lo <= hi <= headNumber
      invariant Distinct(asked) && forall b :: b in asked ==> b < headNumber && !(lo <= b < hi) && reader(b).Header?
      invariant |asked| + Reads((hi - lo) as nat) <= Reads(headNumber as nat)
      invariant Nondecreasing(reader, headNumber) ==>
        && (forall b :: b < lo ==> reader(b).time < target)
        && (forall b :: hi <= b < headNumber ==> target <= reader(b).time)
      decreases hi - lo
    {
      var mid := lo + (hi - lo) / 2;
      var header := reader(mid);
      asked := asked + [mid];
      if header.Failure? {
        return Err(HeaderUnavailable(mid as nat)), asked;
      }
      if header.Missing? {
        return Err(HeaderNull(mid as nat)), asked;
      }
      ghost var half := (hi - lo) as nat / 2;
      ReadsMonotone((hi - mid - 1) as nat, half);
      if header.time >= target {
        hi := mid;
      } else {
        lo := mid + 1;
      }
    }
    return Ok(lo), asked;
  }

  /** The first block a replay should scan, were every block's time known. */
  ghost predicate IsFirstAtOrAfter(reader: Reader, head: uint64, target: uint64, first: uint64)
    requires Nondecreasing(reader, head)
  {
    && first <= head
    && (forall b :: b < first ==> reader(b).time < target)
    && (forall b :: first <= b < head ==> target <= reader(b).time)
  }

  /** The chain head; its number is a big integer that may not fit the program's integers. */
  datatype Head = Head(number: int, time: uint64)

  /** The timestamp replay reaches back to. */
  function ReplayTarget(headTime: uint64, window: uint64): uint64 {
    if headTime > window then headTime - window else 0
  }

  function ConfiguredFirst(headNumber: int, lookback: uint64): int {
    Max(headNumber - lookback as int, 0)
  }

  /** A cursor one below the earlier of the first block in the time window and the look-back's. */
  ghost predicate IsReplayCursor(reader: Reader, head: Head, lookback: uint64, window: uint64, cursor: int)
    requires 0 <= head.number < TWO_64 && Nondecreasing(reader, head.number as uint64)
  {
    exists first: int :: IsTimeFirst(reader, head, window, first) && cursor == Min(first, ConfiguredFirst(head.number, lookback)) - 1
  }

  ghost predicate IsTimeFirst(reader: Reader, head: Head, window: uint64, first: int)
    requires 0 <= head.number < TWO_64 && Nondecreasing(reader, head.number as uint64)
  {
    0 <= first < TWO_64 && IsFirstAtOrAfter(reader, head.number as uint64, ReplayTarget(head.time, window), first as uint64)
  }

  /**
   The already-processed cursor of a replay, one below the first block to scan: the earlier of
   the first block inside the time window and the configured look-back. It is never below -1.
  */
  method ReplayStartBlockFromHead(reader: Reader, head: Head, lookback: uint64, window: uint64)
    returns (r: Result<int, ReplayError>)
    ensures r == Err(InvalidHead) <==> !(0 <= head.number < TWO_64)
    ensures r.Ok? ==> -1 <= r.value < head.number
    ensures r.Ok? && Nondecreasing(reader, head.number as uint64) ==>
              IsReplayCursor(reader, head, lookback, window, r.value)
    ensures 0 <= head.number < TWO_64 && Nondecreasing(reader, head.number as uint64) ==> r.Ok?
  {
    if head.number < 0 || head.number >= TWO_64 {
      return Err(InvalidHead);
    }
    var configuredFirst := head.number - lookback as int;
    if configuredFirst < 0 {
      configuredFirst := 0;
    }
    var configuredCursor := configuredFirst - 1;
    var targetTimestamp := if head.time > window then head.time - window else 0;
    var timeFirst, _ := FirstBlockAtOrAfter(reader, head.number as uint64, targetTimestamp);
    if timeFirst.Err? {
      return Err(timeFirst.error);
    }
    var timeCursor := timeFirst.value as int - 1;
    assert Nondecreasing(reader, head.number as uint64) ==> IsTimeFirst(reader, head, window, timeFirst.value as int);
    if timeCursor < configuredCursor {
      return Ok(timeCursor);
    }
    return Ok(configuredCursor);
  }

  /** The replay window: proof maturity plus the safety margin, refused where it does not fit. */
  function ReplayWindow(maturity: nat): (r: Result<uint64, ReplayError>)
    ensures r.Ok? <==> maturity + 86400 < 0x1_0000_0000_0000_0000
    ensures r.Ok? ==> r.value as nat == maturity + 86400
  {
    if maturity >= TWO_64 || maturity > TWO_64 - 1 - REPLAY_SAFETY_MARGIN_SECONDS then Err(MaturityOverflow)
    else Ok(maturity as uint64 + REPLAY_SAFETY_MARGIN_SECONDS as uint64)
  }

  /** A block a restart must scan again: recent enough in time, or within the look-back. */
  predicate InReplay(time: uint64, number: int, head: Head, lookback: uint64, window: uint64) {
    time as int >= head.time as int - window as int || number >= head.number - lookback as int
  }

  /** The whole chain up to the head has nondecreasing times. */
  ghost predicate ChainUpTo(reader: Reader, head: Head) {
    && 0 <= head.number < TWO_64
    && Nondecreasing(reader, head.number as uint64)
    && reader(head.number as uint64) == Header(head.time)
    && forall b: uint64 :: b < head.number as uint64 ==> reader(b).time <= head.time
  }

  /** Scanning starts at or before every block a restart must scan again. */
  lemma {:induction false} CursorPrecedesReplay(reader: Reader, head: Head, lookback: uint64, window: uint64, cursor: int, number: uint64)
    requires ChainUpTo(reader, head) && number as int <= head.number
    requires IsReplayCursor(reader, head, lookback, window, cursor)
    requires InReplay(reader(number).time, number as int, head, lookback, window)
    ensures cursor < number as int
  {
    var first: int :| IsTimeFirst(reader, head, window, first) && cursor == Min(first, ConfiguredFirst(head.number, lookback)) - 1;
    if number as int < first {
      assert reader(number).time < ReplayTarget(head.time, window);
    }
  }
}
