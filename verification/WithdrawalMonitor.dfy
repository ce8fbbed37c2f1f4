/** The fault-proof withdrawals monitor: its state and the consumption of events (op-monitorism/faultproof_withdrawals). */
module WithdrawalMonitor {
  import opened Basics
  import opened Consumption
  import opened Enrichment
  import opened EventPass
  import opened Ledger
  import opened LruCaches

  /** A Go map of events: shared by reference, changed while it is being ranged over. */
  class EventMap {
    var m: map<TxHash, EnrichedEvent>

    constructor ()
      ensures m == map[]
    {
      m := map[];
    }
  }

  /** Every event of the map stands under its own hash, is judged, not valid and not blacklisted. */
  ghost predicate AllWatched(m: map<TxHash, EnrichedEvent>)
    reads m.Values
  {
    OwnKeys(m) && forall k :: k in m ==> Watched(m[k].Found())
  }

  lemma {:induction false} StillWatched(m: map<TxHash, EnrichedEvent>, e: EnrichedEvent, c: Class)
    requires AllWatched(m) && (c == InProgress ==> Watched(e.Found()))
    ensures var after := TrackedAfter(m, e, c);
            AllWatched(after) && forall k :: k in after ==> after[k] == e || (k in m && after[k] == m[k])
  {
  }

  class State {
    const inProgress: EventMap
    const suspicious: LruCache<TxHash, EnrichedEvent>
    const preIsthmus: LruCache<TxHash, EnrichedEvent>
    var defenderWins: map<TxHash, EnrichedEvent>
    var eventsProcessed: nat
    var withdrawalsProcessed: nat
    var numberOfDefenderWins: nat
    var numberOfInProgress: nat
    var numberOfSuspicious: nat
    var numberOfPreIsthmus: nat
    ghost var history: seq<Booking>

    constructor ()
      ensures Valid() && history == [] && inProgress.m == map[] && defenderWins == map[]
      ensures fresh(inProgress) && fresh(suspicious) && fresh(preIsthmus)
    {
      inProgress := new EventMap();
      suspicious := new LruCache<TxHash, EnrichedEvent>(SUSPICIOUS_CACHE_SIZE);
      preIsthmus := new LruCache<TxHash, EnrichedEvent>(PRE_ISTHMUS_CACHE_SIZE);
      defenderWins := map[];
      eventsProcessed, withdrawalsProcessed := 0, 0;
      numberOfDefenderWins, numberOfInProgress, numberOfSuspicious, numberOfPreIsthmus := 0, 0, 0, 0;
      history := [];
      new;
      assert Now() == EMPTY;
    }

    /** The counters and the tracked transactions, as one value. */
    ghost function Now(): Books
      reads this, inProgress
    {
      Books(eventsProcessed, withdrawalsProcessed, numberOfDefenderWins, numberOfSuspicious, numberOfPreIsthmus,
            numberOfInProgress, inProgress.m.Keys)
    }

    /** What the containers hold, as one value. */
    ghost function Held(): Contents
      reads this, inProgress, suspicious, preIsthmus
    {
      Contents(history, inProgress.m, defenderWins, suspicious.entries, preIsthmus.entries)
    }

    ghost predicate CachesOk()
      reads this, suspicious, preIsthmus
    {
      && suspicious != preIsthmus && suspicious.Valid() && preIsthmus.Valid()
      && suspicious.size == SUSPICIOUS_CACHE_SIZE && preIsthmus.size == PRE_ISTHMUS_CACHE_SIZE
    }

    ghost predicate Valid()
      reads this, inProgress, suspicious, preIsthmus, inProgress.m.Values
    {
      CachesOk() && AllWatched(inProgress.m) && Now() == After(history) && defenderWins.Keys == Attacked(history)
    }

    method IncrementPotentialAttackOnDefenderWinsGames(e: EnrichedEvent)
      modifies this`defenderWins, this`numberOfDefenderWins, this`numberOfInProgress, this`withdrawalsProcessed, inProgress
      ensures defenderWins == old(defenderWins)[e.txHash := e] && inProgress.m == old(inProgress.m) - {e.txHash}
      ensures Now().(eventsProcessed := eventsProcessed + 1) == Book(old(Now()), Booking(e.txHash, DefenderWins))
    {
      var key := e.txHash;
      defenderWins := defenderWins[key := e];
      numberOfDefenderWins := numberOfDefenderWins + 1;
      if key in inProgress.m {
        inProgress.m := inProgress.m - {key};
        numberOfInProgress := Decrement(numberOfInProgress);
      }
      withdrawalsProcessed := withdrawalsProcessed + 1;
    }

    method IncrementPotentialAttackOnInProgressGames(e: EnrichedEvent)
      modifies this`numberOfInProgress, inProgress
      ensures inProgress.m == old(inProgress.m)[e.txHash := e]
      ensures Now().(eventsProcessed := eventsProcessed + 1) == Book(old(Now()), Booking(e.txHash, InProgress))
    {
      var key := e.txHash;
      if key !in inProgress.m {
        numberOfInProgress := numberOfInProgress + 1;
      }
      inProgress.m := inProgress.m[key := e];
      assert inProgress.m.Keys == old(inProgress.m.Keys) + {key};
    }

    method IncrementSuspiciousEventsOnChallengerWinsGames(e: EnrichedEvent)
      requires CachesOk()
      modifies suspicious, this`numberOfSuspicious, this`numberOfInProgress, this`withdrawalsProcessed, inProgress
      ensures CachesOk() && suspicious.entries == AfterAdd(old(suspicious.entries), suspicious.size, e.txHash, e)
      ensures inProgress.m == old(inProgress.m) - {e.txHash}
      ensures Now().(eventsProcessed := eventsProcessed + 1) == Book(old(Now()), Booking(e.txHash, Suspicious))
    {
      var key := e.txHash;
      suspicious.Add(key, e);
      numberOfSuspicious := numberOfSuspicious + 1;
      if key in inProgress.m {
        inProgress.m := inProgress.m - {key};
        numberOfInProgress := Decrement(numberOfInProgress);
      }
      withdrawalsProcessed := withdrawalsProcessed + 1;
    }

    method IncrementPreIsthmusUnverifiable(e: EnrichedEvent)
      requires CachesOk()
      modifies preIsthmus, this`numberOfPreIsthmus, this`withdrawalsProcessed
      ensures CachesOk() && preIsthmus.entries == AfterAdd(old(preIsthmus.entries), preIsthmus.size, e.txHash, e)
      ensures Now().(eventsProcessed := eventsProcessed + 1) == Book(old(Now()), Booking(e.txHash, PreIsthmus))
    {
      preIsthmus.Add(e.txHash, e);
      numberOfPreIsthmus := numberOfPreIsthmus + 1;
      withdrawalsProcessed := withdrawalsProcessed + 1;
    }

    /** Books one event under the class its findings and its game's status give it. */
    method BookEvent(e: EnrichedEvent, ghost c: Class)
      requires CachesOk() && Classify(e.Found(), e.game.status) == Some(c)
      modifies this`defenderWins, this`eventsProcessed, this`withdrawalsProcessed, this`numberOfDefenderWins
      modifies this`numberOfInProgress, this`numberOfSuspicious, this`numberOfPreIsthmus, inProgress, suspicious, preIsthmus
      ensures CachesOk() && Now() == Book(old(Now()), Booking(e.txHash, c))
      ensures inProgress.m == TrackedAfter(old(inProgress.m), e, c)
      ensures defenderWins == if c == DefenderWins then old(defenderWins)[e.txHash := e] else old(defenderWins)
      ensures suspicious.entries == if c == Suspicious then AfterAdd(old(suspicious.entries), suspicious.size, e.txHash, e) else old(suspicious.entries)
      ensures preIsthmus.entries == if c == PreIsthmus then AfterAdd(old(preIsthmus.entries), preIsthmus.size, e.txHash, e) else old(preIsthmus.entries)
    {
      if e.preIsthmus {
        IncrementPreIsthmusUnverifiable(e);
      } else if e.trusted && e.present {
        withdrawalsProcessed := withdrawalsProcessed + 1;
      } else if e.blacklisted {
        IncrementSuspiciousEventsOnChallengerWinsGames(e);
      } else if e.game.status == CHALLENGER_WINS {
        IncrementSuspiciousEventsOnChallengerWinsGames(e);
      } else if e.game.status == DEFENDER_WINS {
        IncrementPotentialAttackOnDefenderWinsGames(e);
      } else if e.game.status == IN_PROGRESS {
        IncrementPotentialAttackOnInProgressGames(e);
      }
      eventsProcessed := eventsProcessed + 1;
    }

    /** The sweeps of the metrics update over both caches: nothing changes. */
    method PublishCaches()
      requires CachesOk()
      modifies suspicious, preIsthmus
      ensures CachesOk() && suspicious.entries == old(suspicious.entries) && preIsthmus.entries == old(preIsthmus.entries)
    {
      var _ := suspicious.Sweep();
      var _ := preIsthmus.Sweep();
    }

    /** One event at its boundary: booked once, in one class and its container, or refused without any change. */
    method ConsumeEvent(e: EnrichedEvent) returns (ok: bool)
      requires Valid()
      modifies this, inProgress, suspicious, preIsthmus
      ensures ok == Classify(e.Found(), e.game.status).Some? && Valid()
      ensures Held() == if ok then Consumed(old(Held()), e, Classify(e.Found(), e.game.status).value) else old(Held())
    {
      hide AfterAdd, AfterGet, After, Book, Watched, TrackedAfter, Attacked, AllWatched, DistinctKeys, Times;
      if !e.preIsthmus && !e.enriched {
        return false;
      }
      ghost var c := Classify(e.Found(), e.game.status).value;
      InProgressIsWatched(e.Found(), e.game.status);
      StillWatched(inProgress.m, e, c);
      AfterAppend(history, Booking(e.txHash, c));
      TimesAppend(history, Booking(e.txHash, c));
      ghost var tracked := TrackedAfter(inProgress.m, e, c);
      BookEvent(e, c);
      PublishCaches();
      assert AllWatched(tracked);
      history := history + [Booking(e.txHash, c)];
      return true;
    }

    /**
     Brings one event up to date and consumes it: the body of ConsumeEvents. The step goes through
     exactly if every answer it needs is there, and sees what those answers say; the status it
     stores in the game is seen by all events that share it.
    */
    method UpdateAndConsume(e: EnrichedEvent, a: Answers) returns (ok: bool, ghost sight: Sight)
      requires Valid()
      modifies this, inProgress, suspicious, preIsthmus, e, e.game
      ensures Valid()
      ensures ok <==> Succeeds(old(e.Found()), e.game.l2BlockNumber, old(e.game.status), a)
      ensures ok ==> sight == Seen(old(e.Found()), e.game.l2BlockNumber, old(e.game.status), a)
      ensures e.game.status == Refreshed(old(e.game.status), a)
      ensures ok ==> sight.Consistent() && sight.status == e.game.status && sight.found == e.Found()
      ensures ok && old(Tracks(e)) ==> Watched(sight.found)
      ensures Held() == if ok then Consumed(old(Held()), e, sight.class_) else old(Held())
    {
      hide Enrich, Classify, Watched, Valid, AllWatched, TrackedAfter, Consumed;
      sight := Seen(e.Found(), e.game.l2BlockNumber, e.game.status, a);
      EnrichDecides(e.Found(), e.game.l2BlockNumber, a, Refreshed(e.game.status, a));
      ok := Update(e, a);
      if !ok || a.l2HeadAfter.None? {
        return false, sight;
      }
      ok := ConsumeEvent(e);
    }

    /** Brings one event up to date; a watched one keeps its findings, so the state stays sound. */
    method Update(e: EnrichedEvent, a: Answers) returns (ok: bool)
      requires Valid()
      modifies e, e.game
      ensures Valid()
      ensures ok <==> Enrich(old(e.Found()), e.game.l2BlockNumber, a).1
                      && (old(e.game.status) == IN_PROGRESS ==> a.status.Some? && a.resolvedAt.Some?)
      ensures ok ==> e.Found() == Enrich(old(e.Found()), e.game.l2BlockNumber, a).0
      ensures ok && old(Tracks(e)) ==> Watched(e.Found())
      ensures e.game.status == Refreshed(old(e.game.status), a)
    {
      hide Enrich, Watched, After, Book, AfterAdd, Attacked;
      if Watched(e.Found()) {
        WatchedIsFinal(e.Found(), e.game.l2BlockNumber, a, e.game.status);
      }
      ok := UpdateEnrichedWithdrawalEvent(e, a);
      assert forall k :: k in inProgress.m ==> inProgress.m[k].Found() == old(inProgress.m[k].Found());
    }

    /** One visit of a pass: what it sees, what it does to the containers, and where it leaves the events that share its game. */
    method Visit(e: EnrichedEvent, answers: TxHash -> Answers, ghost s: Start, ghost order: seq<TxHash>, ghost todo: set<TxHash>)
      returns (ok: bool)
      requires Valid() && Walked(s, answers, order) && Stands(s, answers, order, todo)
      requires e.txHash in todo && e.txHash in s.all && s.all[e.txHash] == e && e.txHash !in order
      modifies this, inProgress, suspicious, preIsthmus, e, e.game
      ensures Valid() && Stands(s, answers, order + [e.txHash], todo - {e.txHash})
      ensures ok <==> LastSucceeds(s, answers, order + [e.txHash])
      ensures Held() == if ok then Consumed(old(Held()), e, LastSeen(s, answers, order + [e.txHash]).class_) else old(Held())
    {
      hide Valid, Walked, StatusAfter, Succeeds, Seen, LastSucceeds, LastSeen, Consumed, Watched, Sight.Consistent, Refreshed;
      StandsHere(s, answers, order, todo, e.txHash);
      WalkStep(s, answers, order, e.txHash);
      ghost var sight;
      ok, sight := UpdateAndConsume(e, answers(e.txHash));
      forall g | g in GamesOf(s.all) ensures g.status == StatusAfter(s, answers, order + [e.txHash], g) {
        StatusStep(s, answers, order, e.txHash, g);
      }
    }

    ghost predicate Tracks(e: EnrichedEvent)
      reads this, inProgress
    {
      e.txHash in inProgress.m && inProgress.m[e.txHash] == e
    }

    /**
     Consumes every event of a map, which may be the watched map itself, being changed while it is
     ranged over, in any order. What the events saw, each at its own step, the statuses of the games
     and the contents of all containers follow from the start, the answers and the order of visits.
    */
    method ConsumeEvents(events: EventMap, answers: TxHash -> Answers) returns (ok: bool, ghost order: seq<TxHash>)
      requires Valid() && OwnKeys(events.m)
      modifies this, inProgress, suspicious, preIsthmus, events.m.Values, GamesOf(events.m)
      ensures Valid()
      ensures PassEnds(old(StartOf(events.m)), answers, order, ok)
      ensures Stands(old(StartOf(events.m)), answers, order, {})
      ensures Held() == ConsumedAlong(old(Held()), old(StartOf(events.m)), answers, Through(order, ok))
      ensures events != inProgress ==> events.m == old(events.m)
    {
      hide Classify, Watched, Consumed, ConsumedAlong, GamesOf, CachesOk, AllWatched, Now, Parted, PassEnds, Through, Start.Ok;
      hide Valid, Sight.Consistent, Walked, LastSeen, LastSucceeds, Stands, StartOf;
      ghost var s, watch, held := StartOf(events.m), events == inProgress, Held();
      var todo := events.m.Keys;
      ok, order := true, [];
      WalkStarts(events.m, answers);
      NothingConsumed(held, s, answers);
      NothingParted(todo);
      while todo != {}
        invariant Valid() && (!watch ==> events.m == s.all) && Stands(s, answers, order, todo)
        invariant Walked(s, answers, order) && Parted(s.all.Keys, todo, order)
        invariant Held() == ConsumedAlong(held, s, answers, order)
        decreases |todo|
      {
        var hash :| hash in todo;
        PartedStep(s.all.Keys, todo, order, hash);
        MemberFacts(s, hash);
        if watch {
          UnvisitedIsTracked(held, s, answers, order, hash);
        }
        var e := events.m[hash];
        ghost var before := order;
        ok := Visit(e, answers, s, order, todo);
        todo, order := todo - {hash}, order + [hash];
        if !ok {
          PassStops(s, answers, before, hash);
          StandsLess(s, answers, order, todo);
          return;
        }
        AlongStep(held, s, answers, before, hash);
      }
      PassFinishes(s, answers, order);
      StandsLess(s, answers, order, todo);
    }
  }
}
