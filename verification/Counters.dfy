/** Exporting monotone counts through delta counters (op-monitorism/faultproof_withdrawals/state.go). */
module Counters {
  import opened Basics
  import opened Ledger

  type Count = Unsigned64

  /** Subtraction of unsigned 64-bit integers. */
  function Delta(now: Count, previous: Count): nat { if previous <= now then now - previous else now + TWO_64 - previous }

  /** One exported counter with the reading it was last brought up to. */
  class DeltaCounter {
    var exported: nat
    var previous: Count
    ghost var readings: seq<Count>

    ghost predicate Valid()
      reads this
    {
      && previous == Latest(readings)
      && exported == previous + TWO_64 * Drops(readings)
    }

    constructor ()
      ensures Valid() && readings == []
    {
      exported, previous, readings := 0, 0, [];
      new;
      assert Valid();
    }

    /** Adds what the count grew by since the last update. */
    method Update(now: Count)
      requires Valid()
      modifies this
      ensures Valid() && readings == old(readings) + [now]
      ensures exported == old(exported) + Delta(now, old(previous))
    {
      var delta := Delta(now, previous);
      if delta > 0 {
        exported := exported + delta;
      }
      previous := now;
      ReadingsAppend(readings, now);
      readings := readings + [now];
    }
  }

  function Latest(readings: seq<Count>): Count { if readings == [] then 0 else readings[|readings| - 1] }

  /** How often a reading fell below the one before it. */
  function Drops(readings: seq<Count>): nat {
    if readings == [] then 0
    else Drops(readings[..|readings| - 1]) + if readings[|readings| - 1] < Latest(readings[..|readings| - 1]) then 1 else 0
  }

  lemma {:induction false} ReadingsAppend(readings: seq<Count>, now: Count)
    ensures Latest(readings + [now]) == now
    ensures Drops(readings + [now]) == Drops(readings) + if now < Latest(readings) then 1 else 0
  {
    assert (readings + [now])[..|readings|] == readings;
  }

  /** What the counter shows after a sequence of updates. */
  function Exported(readings: seq<Count>): nat {
    if readings == [] then 0
    else Exported(readings[..|readings| - 1]) + Delta(readings[|readings| - 1], Latest(readings[..|readings| - 1]))
  }

  /**
   The exported counter shows the state's own count after any sequence of updates exactly when that
   count never went back; each step back would add 2^64.
  */
  lemma {:induction false} Telescopes(readings: seq<Count>)
    ensures Exported(readings) == Latest(readings) + TWO_64 * Drops(readings)
    ensures Exported(readings) == Latest(readings) <==> forall i :: 0 < i < |readings| ==> readings[i - 1] <= readings[i]
  {
    if readings != [] {
      var n := |readings| - 1;
      Telescopes(readings[..n]);
      assert n > 0 ==> Latest(readings[..n]) == readings[n - 1];
    }
  }

  // ---- The counts of the state -------------------------------------------------------------------

  /** The counts of the books that are exported through delta counters. */
  datatype Export = EventsProcessed | WithdrawalsProcessed | PreIsthmusUnverifiable

  function CountOf(x: Export, b: Books): nat {
    match x
    case EventsProcessed => b.eventsProcessed
    case WithdrawalsProcessed => b.withdrawalsProcessed
    case PreIsthmusUnverifiable => b.preIsthmus
  }

  lemma {:induction false} CountStep(b: Books, e: Booking, x: Export)
    ensures CountOf(x, b) <= CountOf(x, Book(b, e)) <= CountOf(x, b) + 1
  {
  }

  /** None of these counts ever goes back, and none exceeds the number of consumed events. */
  lemma {:induction false} CountsNeverDecrease(history: seq<Booking>, i: nat, j: nat, x: Export)
    requires i <= j <= |history|
    ensures CountOf(x, After(history[..i])) <= CountOf(x, After(history[..j])) <= j
  {
    hide Book;
    if j == 0 {
      assert history[..0] == [];
    } else {
      assert history[..j][..j - 1] == history[..j - 1];
      CountsNeverDecrease(history, if i < j then i else j - 1, j - 1, x);
      CountStep(After(history[..j - 1]), history[j - 1], x);
    }
  }

  function ReadingAt(history: seq<Booking>, n: nat, x: Export): Count
    requires n <= |history| < TWO_64
  {
    CountsNeverDecrease(history, n, n, x);
    CountOf(x, After(history[..n]))
  }

  /** The readings taken after these numbers of consumed events. */
  function ReadingsAt(history: seq<Booking>, at: seq<nat>, x: Export): (r: seq<Count>)
    requires |history| < TWO_64 && forall k :: 0 <= k < |at| ==> at[k] <= |history|
    ensures |r| == |at| && forall k :: 0 <= k < |r| ==> r[k] == CountOf(x, After(history[..at[k]]))
  {
    if at == [] then []
    else
      var n := |at| - 1;
      ReadingsAt(history, at[..n], x) + [ReadingAt(history, at[n], x)]
  }

  /** Whenever the metrics are updated in the course of a run, the export shows the state's own count. */
  lemma {:induction false} ExportShowsState(history: seq<Booking>, at: seq<nat>, x: Export)
    requires |history| < TWO_64 && at != [] && forall k :: 0 <= k < |at| ==> at[k] <= |history|
    requires forall k :: 0 < k < |at| ==> at[k - 1] <= at[k]
    ensures Exported(ReadingsAt(history, at, x)) == CountOf(x, After(history[..at[|at| - 1]]))
  {
    var r := ReadingsAt(history, at, x);
    forall k | 0 < k < |r| ensures r[k - 1] <= r[k] {
      CountsNeverDecrease(history, at[k - 1], at[k], x);
    }
    Telescopes(r);
  }
}
