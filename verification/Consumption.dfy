/** What the consumption of events does to the containers of the state (op-monitorism/faultproof_withdrawals). */
module Consumption {
  import opened Basics
  import opened Enrichment
  import opened EventPass
  import opened Ledger
  import opened LruCaches

  const SUSPICIOUS_CACHE_SIZE: nat := 1000
  const PRE_ISTHMUS_CACHE_SIZE: nat := 1000

  /** The contents of a cache of events. */
  type Kept = Entries<TxHash, EnrichedEvent>

  /** What the state holds: the bookings made, the watched events, the attacks and the two caches. */
  datatype Contents = Contents(history: seq<Booking>, tracked: Events, attacks: Events, suspicious: Kept, preIsthmus: Kept)

  /** The watched map after an event was consumed in class c. */
  function TrackedAfter(m: Events, e: EnrichedEvent, c: Class): Events {
    match c
    case InProgress => m[e.txHash := e]
    case DefenderWins => m - {e.txHash}
    case Suspicious => m - {e.txHash}
    case _ => m
  }

  /** One event consumed in class c: a booking, and a place in the container of that class and no other. */
  function Consumed(held: Contents, e: EnrichedEvent, c: Class): Contents {
    Contents(
      held.history + [Booking(e.txHash, c)],
      TrackedAfter(held.tracked, e, c),
      if c == DefenderWins then held.attacks[e.txHash := e] else held.attacks,
      if c == Suspicious then AfterAdd(held.suspicious, SUSPICIOUS_CACHE_SIZE, e.txHash, e) else held.suspicious,
      if c == PreIsthmus then AfterAdd(held.preIsthmus, PRE_ISTHMUS_CACHE_SIZE, e.txHash, e) else held.preIsthmus)
  }

  /** The events of a pass consumed one after the other, each in the class it was seen in. */
  ghost function ConsumedAlong(held: Contents, s: Start, answers: TxHash -> Answers, order: seq<TxHash>): Contents
    requires Walked(s, answers, order)
  {
    if order == [] then held
    else
      var n := |order| - 1;
      Consumed(ConsumedAlong(held, s, answers, order[..n]), s.all[order[n]], LastSeen(s, answers, order).class_)
  }

  lemma {:induction false} NothingConsumed(held: Contents, s: Start, answers: TxHash -> Answers)
    requires s.Ok()
    ensures Walked(s, answers, []) && ConsumedAlong(held, s, answers, []) == held
  {
  }

  lemma {:induction false} AlongStep(held: Contents, s: Start, answers: TxHash -> Answers, order: seq<TxHash>, k: TxHash)
    requires Walked(s, answers, order) && k in s.all && k in s.found && k !in order && LastSucceeds(s, answers, order + [k])
    ensures Walked(s, answers, order + [k])
    ensures ConsumedAlong(held, s, answers, order + [k]) ==
            Consumed(ConsumedAlong(held, s, answers, order), s.all[k], LastSeen(s, answers, order + [k]).class_)
  {
    hide LastSucceeds, LastSeen;
    WalkStep(s, answers, order, k);
    assert (order + [k])[..|order|] == order;
  }

  // ---- What a pass leaves on record --------------------------------------------------------------

  /** The history grew by exactly one booking for each observed event, in its observed class. */
  ghost predicate HistoryGrew(past: seq<Booking>, history: seq<Booking>, observed: map<TxHash, Sight>) {
    && |history| == |past| + |observed|
    && past <= history
    && (forall k :: k in observed ==> Booking(k, observed[k].class_) in history[|past|..])
    && forall k :: Times(history, k) == Times(past, k) + if k in observed then 1 else 0
  }

  /** No attack was forgotten, and exactly the events observed as defender wins were added. */
  ghost predicate AttacksGrew(attacks: set<TxHash>, attacked: set<TxHash>, observed: map<TxHash, Sight>) {
    && attacks <= attacked
    && (forall k :: k in attacked ==> k in attacks || (k in observed && observed[k].class_ == DefenderWins))
    && forall k :: k in observed && observed[k].class_ == DefenderWins ==> k in attacked
  }

  /** Each class follows from what was seen; in a pass over the watched map every event was of the watched kind. */
  ghost predicate SeenRight(observed: map<TxHash, Sight>, watch: bool) {
    forall k :: k in observed ==> observed[k].Consistent() && (watch ==> Watched(observed[k].found))
  }

  /** What a pass leaves on record. */
  ghost predicate Recorded(past: seq<Booking>, history: seq<Booking>, attacks: set<TxHash>, attacked: set<TxHash>,
                           observed: map<TxHash, Sight>, watch: bool) {
    HistoryGrew(past, history, observed) && AttacksGrew(attacks, attacked, observed) && SeenRight(observed, watch)
  }

  lemma {:induction false} NothingRecorded(past: seq<Booking>, attacks: set<TxHash>, watch: bool)
    ensures Recorded(past, past, attacks, attacks, map[], watch)
  {
  }

  lemma {:induction false} HistoryStep(past: seq<Booking>, history: seq<Booking>, observed: map<TxHash, Sight>, k: TxHash, sight: Sight)
    requires HistoryGrew(past, history, observed) && k !in observed
    ensures HistoryGrew(past, history + [Booking(k, sight.class_)], observed[k := sight])
  {
    hide Times;
    var one := Booking(k, sight.class_);
    TimesAppend(history, one);
    assert (history + [one])[|past|..] == history[|past|..] + [one];
  }

  lemma {:induction false} AttacksStep(attacks: set<TxHash>, attacked: set<TxHash>, observed: map<TxHash, Sight>, k: TxHash, sight: Sight)
    requires AttacksGrew(attacks, attacked, observed) && k !in observed
    ensures AttacksGrew(attacks, attacked + if sight.class_ == DefenderWins then {k} else {}, observed[k := sight])
  {
  }

  lemma {:induction false} RecordedStep(past: seq<Booking>, history: seq<Booking>, attacks: set<TxHash>, attacked: set<TxHash>,
                                        observed: map<TxHash, Sight>, watch: bool, k: TxHash, sight: Sight)
    requires Recorded(past, history, attacks, attacked, observed, watch) && k !in observed
    requires sight.Consistent() && (watch ==> Watched(sight.found))
    ensures Recorded(past, history + [Booking(k, sight.class_)], attacks,
                     attacked + if sight.class_ == DefenderWins then {k} else {}, observed[k := sight], watch)
  {
    hide HistoryGrew, AttacksGrew, Sight.Consistent, Watched;
    HistoryStep(past, history, observed, k, sight);
    AttacksStep(attacks, attacked, observed, k, sight);
  }

  /** In a pass over the watched map every event was, and remains, of the watched kind. */
  ghost predicate OfWatched(s: Start, watch: bool) { watch ==> forall k :: k in s.found ==> Watched(s.found[k]) }

  lemma {:induction false} LastSeenRight(s: Start, answers: TxHash -> Answers, order: seq<TxHash>, watch: bool)
    requires Walked(s, answers, order) && order != [] && OfWatched(s, watch)
    ensures LastSeen(s, answers, order).Consistent() && (watch ==> Watched(LastSeen(s, answers, order).found))
  {
    hide Watched, Enrich, Classify, StatusAfter, Start.Ok;
    var n := |order| - 1;
    var k := order[n];
    if watch {
      var g := s.all[k].game;
      WatchedIsFinal(s.found[k], g.l2BlockNumber, answers(k), StatusAfter(s, answers, order[..n], g));
    }
  }

  /** What the consumed events left on record, from the start of the pass. */
  lemma {:induction false} AlongRecords(held: Contents, s: Start, answers: TxHash -> Answers, order: seq<TxHash>, watch: bool)
    requires Walked(s, answers, order) && OfWatched(s, watch)
    ensures var after := ConsumedAlong(held, s, answers, order);
            Recorded(held.history, after.history, held.attacks.Keys, after.attacks.Keys, Observed(s, answers, order), watch)
  {
    hide Recorded, Watched, Sight.Consistent, LastSeen, LastSucceeds, AfterAdd, TrackedAfter, OfWatched;
    if order == [] {
      NothingRecorded(held.history, held.attacks.Keys, watch);
    } else {
      var n := |order| - 1;
      var k, sight := order[n], LastSeen(s, answers, order);
      var before, after := ConsumedAlong(held, s, answers, order[..n]), ConsumedAlong(held, s, answers, order);
      AlongRecords(held, s, answers, order[..n], watch);
      LastSeenRight(s, answers, order, watch);
      OwnKeyOf(s, k);
      assert after.attacks.Keys == before.attacks.Keys + if sight.class_ == DefenderWins then {k} else {};
      RecordedStep(held.history, before.history, held.attacks.Keys, before.attacks.Keys, Observed(s, answers, order[..n]), watch, k, sight);
    }
  }

  lemma {:induction false} OwnKeyOf(s: Start, k: TxHash)
    requires s.Ok() && k in s.all
    ensures s.all[k].txHash == k
  {
  }

  // ---- What a pass leaves in the caches and among the attacks -------------------------------------

  /** The visited events that were seen in class c, in the order of the visits. */
  ghost function SeenIn(s: Start, observed: map<TxHash, Sight>, order: seq<TxHash>, c: Class): Kept
    requires forall k :: k in order ==> k in observed && k in s.all
  {
    if order == [] then []
    else
      var n := |order| - 1;
      SeenIn(s, observed, order[..n], c) + if observed[order[n]].class_ == c then [(order[n], s.all[order[n]])] else []
  }

  lemma {:induction false} AddedOneMore(kept: Kept, size: nat, adds: Kept, add: (TxHash, EnrichedEvent))
    ensures AfterAdds(kept, size, adds + [add]) == AfterAdd(AfterAdds(kept, size, adds), size, add.0, add.1)
  {
    assert (adds + [add])[..|adds|] == adds;
  }

  /** Observing one more event does not change what was seen of those before. */
  lemma {:induction false} SeenInGrows(s: Start, observed: map<TxHash, Sight>, order: seq<TxHash>, c: Class, k: TxHash, sight: Sight)
    requires (forall x :: x in order ==> x in observed && x in s.all) && k !in order
    ensures SeenIn(s, observed[k := sight], order, c) == SeenIn(s, observed, order, c)
  {
    if order != [] {
      var n := |order| - 1;
      assert order[n] in order;
      SeenInGrows(s, observed, order[..n], c, k, sight);
    }
  }

  lemma {:induction false} SeenInStep(s: Start, observed: map<TxHash, Sight>, order: seq<TxHash>, c: Class, k: TxHash, sight: Sight)
    requires (forall x :: x in order ==> x in observed && x in s.all) && k !in order && k in s.all
    ensures forall x :: x in order + [k] ==> x in observed[k := sight] && x in s.all
    ensures SeenIn(s, observed[k := sight], order + [k], c) ==
            SeenIn(s, observed, order, c) + if sight.class_ == c then [(k, s.all[k])] else []
  {
    assert (order + [k])[..|order|] == order;
    SeenInGrows(s, observed, order, c, k, sight);
  }

  lemma {:induction false} WalkedMembers(s: Start, answers: TxHash -> Answers, order: seq<TxHash>)
    requires Walked(s, answers, order)
    ensures forall k :: k in order ==> k in Observed(s, answers, order) && k in s.all
  {
    hide Observed;
  }

  /** What one more visit of a walk adds to what was observed and to the contents. */
  lemma {:induction false} LastOfWalk(held: Contents, s: Start, answers: TxHash -> Answers, order: seq<TxHash>)
    requires Walked(s, answers, order) && order != []
    ensures var n := |order| - 1;
            && Walked(s, answers, order[..n]) && order[n] !in order[..n] && order == order[..n] + [order[n]]
            && s.all[order[n]].txHash == order[n]
            && Observed(s, answers, order) == Observed(s, answers, order[..n])[order[n] := LastSeen(s, answers, order)]
            && ConsumedAlong(held, s, answers, order) ==
               Consumed(ConsumedAlong(held, s, answers, order[..n]), s.all[order[n]], LastSeen(s, answers, order).class_)
  {
    hide LastSucceeds, LastSeen, Consumed;
    OwnKeyOf(s, order[|order| - 1]);
  }

  /** Each cache got exactly the events seen in its own class, in the order of the visits. */
  lemma {:induction false} AlongCaches(held: Contents, s: Start, answers: TxHash -> Answers, order: seq<TxHash>)
    requires Walked(s, answers, order)
    ensures forall k :: k in order ==> k in Observed(s, answers, order) && k in s.all
    ensures var after, observed := ConsumedAlong(held, s, answers, order), Observed(s, answers, order);
            && after.suspicious == AfterAdds(held.suspicious, 1000, SeenIn(s, observed, order, Suspicious))
            && after.preIsthmus == AfterAdds(held.preIsthmus, 1000, SeenIn(s, observed, order, PreIsthmus))
  {
    hide AfterAdd, TrackedAfter, LastSucceeds, LastSeen, Walked, Observed, Start.Ok;
    WalkedMembers(s, answers, order);
    if order != [] {
      var n := |order| - 1;
      LastOfWalk(held, s, answers, order);
      AlongCaches(held, s, answers, order[..n]);
      CachesStep(held, s, answers, order);
    }
  }

  lemma {:induction false} CachesStep(held: Contents, s: Start, answers: TxHash -> Answers, order: seq<TxHash>)
    requires Walked(s, answers, order) && order != []
    ensures (forall k :: k in order ==> k in Observed(s, answers, order) && k in s.all) && Walked(s, answers, order[..|order| - 1])
    ensures forall k :: k in order[..|order| - 1] ==> k in Observed(s, answers, order[..|order| - 1]) && k in s.all
    ensures var before, n := ConsumedAlong(held, s, answers, order[..|order| - 1]), |order| - 1;
            var seen, now := Observed(s, answers, order[..n]), ConsumedAlong(held, s, answers, order);
            && (before.suspicious == AfterAdds(held.suspicious, 1000, SeenIn(s, seen, order[..n], Suspicious)) ==>
                  now.suspicious == AfterAdds(held.suspicious, 1000, SeenIn(s, Observed(s, answers, order), order, Suspicious)))
            && (before.preIsthmus == AfterAdds(held.preIsthmus, 1000, SeenIn(s, seen, order[..n], PreIsthmus)) ==>
                  now.preIsthmus == AfterAdds(held.preIsthmus, 1000, SeenIn(s, Observed(s, answers, order), order, PreIsthmus)))
  {
    hide AfterAdd, TrackedAfter, LastSucceeds, LastSeen, Walked, Observed, SeenIn, AfterAdds, ConsumedAlong, Start.Ok;
    var n := |order| - 1;
    LastOfWalk(held, s, answers, order);
    WalkedMembers(s, answers, order);
    WalkedMembers(s, answers, order[..n]);
    var k, sight, seen := order[n], LastSeen(s, answers, order), Observed(s, answers, order[..n]);
    SeenInStep(s, seen, order[..n], Suspicious, k, sight);
    SeenInStep(s, seen, order[..n], PreIsthmus, k, sight);
    AddedOneMore(held.suspicious, 1000, SeenIn(s, seen, order[..n], Suspicious), (k, s.all[k]));
    AddedOneMore(held.preIsthmus, 1000, SeenIn(s, seen, order[..n], PreIsthmus), (k, s.all[k]));
    assert SeenIn(s, seen, order[..n], Suspicious) + [] == SeenIn(s, seen, order[..n], Suspicious);
    assert SeenIn(s, seen, order[..n], PreIsthmus) + [] == SeenIn(s, seen, order[..n], PreIsthmus);
  }

  /** The attacks are those of before, and the very events that were seen as defender wins. */
  lemma {:induction false} AlongAttacks(held: Contents, s: Start, answers: TxHash -> Answers, order: seq<TxHash>, k: TxHash)
    requires Walked(s, answers, order)
    ensures var now, seen := ConsumedAlong(held, s, answers, order).attacks, Observed(s, answers, order);
            var attacked := k in seen && seen[k].class_ == DefenderWins;
            && (k in now <==> attacked || k in held.attacks)
            && (k in now ==> now[k] == if attacked then s.all[k] else held.attacks[k])
  {
    hide AfterAdd, TrackedAfter, LastSucceeds, LastSeen, Start.Ok;
    if order != [] {
      LastOfWalk(held, s, answers, order);
      AlongAttacks(held, s, answers, order[..|order| - 1], k);
    }
  }

  // ---- The watched events ------------------------------------------------------------------------

  lemma {:induction false} StillTrackedStep(m: Events, observed: map<TxHash, Sight>, key: TxHash, sight: Sight)
    requires key in m && key !in observed && m[key].txHash == key
    ensures TrackedAfter(StillTracked(m, observed), m[key], sight.class_) == StillTracked(m, observed[key := sight])
  {
  }

  lemma {:induction false} AllStillTracked(m: Events)
    ensures StillTracked(m, map[]) == m
  {
  }

  /** In a pass over the watched map those remain that were not closed at their own step. */
  lemma {:induction false} AlongTracks(held: Contents, s: Start, answers: TxHash -> Answers, order: seq<TxHash>)
    requires Walked(s, answers, order) && held.tracked == s.all
    ensures ConsumedAlong(held, s, answers, order).tracked == StillTracked(s.all, Observed(s, answers, order))
  {
    hide StillTracked, TrackedAfter, LastSeen, LastSucceeds, AfterAdd;
    if order == [] {
      AllStillTracked(s.all);
    } else {
      var n := |order| - 1;
      AlongTracks(held, s, answers, order[..n]);
      OwnKeyOf(s, order[n]);
      StillTrackedStep(s.all, Observed(s, answers, order[..n]), order[n], LastSeen(s, answers, order));
    }
  }

  /** Hence an event that was not visited is still watched, as it was. */
  lemma {:induction false} UnvisitedIsTracked(held: Contents, s: Start, answers: TxHash -> Answers, order: seq<TxHash>, k: TxHash)
    requires Walked(s, answers, order) && held.tracked == s.all && k in s.all && k !in order
    ensures var m := ConsumedAlong(held, s, answers, order).tracked; k in m && m[k] == s.all[k]
  {
    hide ConsumedAlong, Walked;
    AlongTracks(held, s, answers, order);
  }
}
