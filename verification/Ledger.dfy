/** The books of the fault-proof monitor as a function of what was booked (op-monitorism/faultproof_withdrawals/state.go). */
module Ledger {
  import opened Basics

  /** A transaction hash; the books only compare them. */
  type TxHash = nat

  /** How the consumption of one event ends. */
  datatype Class = Validated | DefenderWins | Suspicious | InProgress | PreIsthmus | UnknownStatus

  datatype Booking = Booking(key: TxHash, class_: Class)

  /** The counters of the state, and the transactions under watch because their game is in progress. */
  datatype Books = Books(
    eventsProcessed: nat,
    withdrawalsProcessed: nat,
    defenderWins: nat,
    suspicious: nat,
    preIsthmus: nat,
    inProgress: nat,
    tracked: set<TxHash>)

  const EMPTY: Books := Books(0, 0, 0, 0, 0, 0, {})

  /** Decrement of an unsigned 64-bit counter: below zero it wraps around. */
  function Decrement(n: nat): nat { if n == 0 then TWO_64 - 1 else n - 1 }

  function StopTracking(b: Books, key: TxHash): Books {
    if key in b.tracked then b.(inProgress := Decrement(b.inProgress), tracked := b.tracked - {key}) else b
  }

  function Book(b: Books, x: Booking): Books {
    var counted := b.(eventsProcessed := b.eventsProcessed + 1);
    match x.class_
    case Validated => counted.(withdrawalsProcessed := b.withdrawalsProcessed + 1)
    case DefenderWins =>
      StopTracking(counted.(withdrawalsProcessed := b.withdrawalsProcessed + 1, defenderWins := b.defenderWins + 1), x.key)
    case Suspicious =>
      StopTracking(counted.(withdrawalsProcessed := b.withdrawalsProcessed + 1, suspicious := b.suspicious + 1), x.key)
    case PreIsthmus => counted.(withdrawalsProcessed := b.withdrawalsProcessed + 1, preIsthmus := b.preIsthmus + 1)
    case InProgress =>
      if x.key in b.tracked then counted else counted.(inProgress := b.inProgress + 1, tracked := b.tracked + {x.key})
    case UnknownStatus => counted
  }

  /** The books after a history of consumed events. */
  function After(history: seq<Booking>): Books {
    if history == [] then EMPTY else Book(After(history[..|history| - 1]), history[|history| - 1])
  }

  /** How many of the consumed events ended in class c. */
  function Of(history: seq<Booking>, c: Class): nat {
    if history == [] then 0
    else Of(history[..|history| - 1], c) + if history[|history| - 1].class_ == c then 1 else 0
  }

  lemma {:induction false} AfterAppend(history: seq<Booking>, x: Booking)
    ensures After(history + [x]) == Book(After(history), x)
    ensures forall c :: Of(history + [x], c) == Of(history, c) + if x.class_ == c then 1 else 0
  {
    assert (history + [x])[..|history|] == history;
  }

  lemma {:induction false} NothingBooked()
    ensures After([]) == EMPTY && forall c :: Of([], c) == 0
  {
  }

  /** Booking keeps the in-progress counter equal to the number of transactions tracked. */
  lemma {:induction false} BookCountsTracked(b: Books, x: Booking)
    requires b.inProgress == |b.tracked|
    ensures Book(b, x).inProgress == |Book(b, x).tracked|
  {
    assert x.key in b.tracked ==> |b.tracked| > 0;
  }

  /**
   The ledger identities, at every event boundary of every run: the in-progress counter is the
   number of transactions tracked and never wraps; every processed withdrawal is exactly one of
   validated, defender wins, suspicious or pre-Isthmus; and the events that are not processed
   withdrawals are exactly those left open, so there are at least as many events as withdrawals.
  */
  lemma {:induction false} BooksBalance(history: seq<Booking>)
    ensures var b := After(history);
            && b.inProgress == |b.tracked|
            && b.eventsProcessed == |history|
            && b.defenderWins == Of(history, DefenderWins)
            && b.suspicious == Of(history, Suspicious)
            && b.preIsthmus == Of(history, PreIsthmus)
            && b.withdrawalsProcessed == Of(history, Validated) + b.defenderWins + b.suspicious + b.preIsthmus
            && b.eventsProcessed - b.withdrawalsProcessed == Of(history, InProgress) + Of(history, UnknownStatus)
  {
    hide After, Of;
    if history == [] {
      NothingBooked();
    } else {
      var before, x := history[..|history| - 1], history[|history| - 1];
      BooksBalance(before);
      AfterAppend(before, x);
      assert before + [x] == history;
      BookCountsTracked(After(before), x);
    }
  }

  /** A transaction is tracked exactly if its last decisive booking left it in progress. */
  lemma {:induction false} TrackedByLastBooking(history: seq<Booking>, key: TxHash)
    ensures key in After(history).tracked <==>
            exists i :: 0 <= i < |history| && history[i] == Booking(key, InProgress) && NotClosedAfter(history, key, i)
  {
    if history != [] {
      var n := |history| - 1;
      var before, x := history[..n], history[n];
      TrackedByLastBooking(before, key);
      if key in After(history).tracked {
        if x == Booking(key, InProgress) {
          assert NotClosedAfter(history, key, n);
        } else {
          var i :| 0 <= i < n && before[i] == Booking(key, InProgress) && NotClosedAfter(before, key, i);
          assert history[i] == Booking(key, InProgress) && NotClosedAfter(history, key, i);
        }
      }
      if i :| 0 <= i <= n && history[i] == Booking(key, InProgress) && NotClosedAfter(history, key, i) {
        if i < n { assert before[i] == Booking(key, InProgress) && NotClosedAfter(before, key, i); }
      }
    }
  }

  ghost predicate NotClosedAfter(history: seq<Booking>, key: TxHash, i: int) {
    forall j :: 0 <= j && i < j < |history| ==> !(history[j].key == key && (history[j].class_ == DefenderWins || history[j].class_ == Suspicious))
  }

  // ---- How often a transaction is booked -------------------------------------------------------

  /** The number of bookings of one transaction. */
  function Times(history: seq<Booking>, key: TxHash): nat {
    if history == [] then 0
    else Times(history[..|history| - 1], key) + if history[|history| - 1].key == key then 1 else 0
  }

  /** The transactions booked as attacks. */
  function Attacked(history: seq<Booking>): set<TxHash> {
    if history == [] then {}
    else Attacked(history[..|history| - 1]) + if history[|history| - 1].class_ == DefenderWins then {history[|history| - 1].key} else {}
  }

  lemma {:induction false} TimesAppend(history: seq<Booking>, x: Booking)
    ensures forall k :: Times(history + [x], k) == Times(history, k) + if x.key == k then 1 else 0
    ensures Attacked(history + [x]) == Attacked(history) + if x.class_ == DefenderWins then {x.key} else {}
  {
    assert (history + [x])[..|history|] == history;
  }

  lemma {:induction false} AttackedMembers(history: seq<Booking>)
    ensures forall k :: k in Attacked(history) <==> exists i :: 0 <= i < |history| && history[i] == Booking(k, DefenderWins)
  {
    if history != [] {
      var n := |history| - 1;
      AttackedMembers(history[..n]);
      forall k ensures k in Attacked(history) <==> exists i :: 0 <= i < |history| && history[i] == Booking(k, DefenderWins) {
        if k in Attacked(history[..n]) {
          var i :| 0 <= i < n && history[..n][i] == Booking(k, DefenderWins);
          assert history[i] == Booking(k, DefenderWins);
        }
        if i :| 0 <= i < |history| && history[i] == Booking(k, DefenderWins) {
          if i < n { assert history[..n][i] == Booking(k, DefenderWins); }
        }
      }
    }
  }

  ghost predicate AttackedTwice(history: seq<Booking>) {
    exists i, j :: 0 <= i < j < |history| && history[i] == history[j] && history[i].class_ == DefenderWins
  }

  /**
   The exported count of attacks is at least the number of attacks listed, and equal to it exactly if
   no transaction was booked as an attack twice, as an event of a block scanned twice is.
  */
  lemma {:induction false} AttackCountExactly(history: seq<Booking>)
    ensures |Attacked(history)| <= After(history).defenderWins
    ensures |Attacked(history)| == After(history).defenderWins <==> !AttackedTwice(history)
  {
    BooksBalance(history);
    AttacksCounted(history);
  }

  lemma {:induction false} AttacksCounted(history: seq<Booking>)
    ensures |Attacked(history)| <= Of(history, DefenderWins)
    ensures |Attacked(history)| == Of(history, DefenderWins) <==> !AttackedTwice(history)
  {
    if history != [] {
      var n := |history| - 1;
      var before, x := history[..n], history[n];
      AttacksCounted(before);
      AttackedMembers(before);
      assert AttackedTwice(history) <==> AttackedTwice(before) || (x.class_ == DefenderWins && x.key in Attacked(before)) by {
        TwiceStep(history);
      }
    }
  }

  lemma {:induction false} TwiceStep(history: seq<Booking>)
    requires history != []
    ensures var n := |history| - 1;
            AttackedTwice(history) <==>
            AttackedTwice(history[..n]) || (history[n].class_ == DefenderWins && history[n].key in Attacked(history[..n]))
  {
    var n := |history| - 1;
    var before, x := history[..n], history[n];
    AttackedMembers(before);
    assert forall i :: 0 <= i < n ==> before[i] == history[i];
    if i, j :| 0 <= i < j < |history| && history[i] == history[j] && history[i].class_ == DefenderWins {
      if j < n {
        assert before[i] == before[j];
      } else {
        assert before[i] == Booking(x.key, DefenderWins);
      }
    }
    if i, j :| 0 <= i < j < n && before[i] == before[j] && before[i].class_ == DefenderWins {
      assert history[i] == history[j];
    }
    if x.class_ == DefenderWins && x.key in Attacked(before) {
      var i :| 0 <= i < n && before[i] == Booking(x.key, DefenderWins);
      assert history[i] == history[n];
    }
  }
}
