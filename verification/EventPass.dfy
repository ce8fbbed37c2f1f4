/**
 One pass over a map of events whose games may be shared: what each event meets at its own step
 (op-monitorism/faultproof_withdrawals/monitor.go, ConsumeEvents).
*/
module EventPass {
  import opened Basics
  import opened Enrichment
  import opened Ledger

  type Events = map<TxHash, EnrichedEvent>

  /** Every event is stored under its own transaction hash. */
  ghost predicate OwnKeys(m: Events) {
    forall k :: k in m ==> m[k].txHash == k
  }

  /** The game data of these events, shared or not. */
  ghost function GamesOf(m: Events): set<DisputeGameData> {
    set k | k in m :: m[k].game
  }

  /** What a pass starts from: the events, their findings and the statuses of their games. */
  datatype Start = Start(all: Events, found: map<TxHash, Findings>, status: map<DisputeGameData, Status>) {
    ghost predicate Ok() {
      OwnKeys(all) && found.Keys == all.Keys && status.Keys == GamesOf(all)
    }
  }

  ghost function StartOf(m: Events): (s: Start)
    reads m.Values, GamesOf(m)
    ensures s.all == m && (OwnKeys(m) ==> s.Ok())
  {
    Start(m, map k | k in m :: m[k].Found(), map g | g in GamesOf(m) :: g.status)
  }

  /** What an event's own step saw: its findings and game status then, and the class they gave. */
  datatype Sight = Sight(found: Findings, status: Status, class_: Class) {
    predicate Consistent() { Classify(found, status) == Some(class_) }
  }

  /** A step asks for the status only while it is IN_PROGRESS, and then stores what is answered. */
  function Refreshed(status: Status, a: Answers): Status {
    if status == IN_PROGRESS && a.status.Some? then a.status.value else status
  }

  /** Whether a step goes through for an event with these findings and this game status. */
  predicate Succeeds(f: Findings, l2BlockNumber: nat, status: Status, a: Answers) {
    && Enrich(f, l2BlockNumber, a).1
    && (status == IN_PROGRESS ==> a.status.Some? && a.resolvedAt.Some?)
    && a.l2HeadAfter.Some?
  }

  /** What a step sees that goes through. */
  function Seen(f: Findings, l2BlockNumber: nat, status: Status, a: Answers): (r: Sight)
    ensures Succeeds(f, l2BlockNumber, status, a) ==> r.Consistent()
  {
    var found, after := Enrich(f, l2BlockNumber, a).0, Refreshed(status, a);
    EnrichDecides(f, l2BlockNumber, a, after);
    Sight(found, after, match Classify(found, after) case None => UnknownStatus case Some(c) => c)
  }

  /** The node answered every question of a step. */
  predicate AllAnswered(a: Answers) {
    && a.status.Some? && a.resolvedAt.Some? && a.blacklisted.Some? && a.l2Head.Some?
    && a.header != HeaderFailed && a.present.Some? && a.l2HeadAfter.Some?
  }

  lemma {:induction false} AnsweredSucceeds(f: Findings, l2BlockNumber: nat, status: Status, a: Answers)
    requires AllAnswered(a)
    ensures Succeeds(f, l2BlockNumber, status, a)
  {
  }

  // ---- Game statuses along a pass --------------------------------------------------------------

  /** The status of a game after the events in `order` were visited; other games' visits pass it by. */
  ghost function StatusAfter(s: Start, answers: TxHash -> Answers, order: seq<TxHash>, g: DisputeGameData): Status {
    if order == [] then if g in s.status then s.status[g] else IN_PROGRESS
    else
      var before := StatusAfter(s, answers, order[..|order| - 1], g);
      if Visits(s, order, |order| - 1, g) then Refreshed(before, answers(order[|order| - 1])) else before
  }

  ghost predicate Visits(s: Start, order: seq<TxHash>, i: int, g: DisputeGameData) {
    0 <= i < |order| && order[i] in s.all && s.all[order[i]].game == g
  }

  lemma {:induction false} StatusStep(s: Start, answers: TxHash -> Answers, order: seq<TxHash>, k: TxHash, g: DisputeGameData)
    requires k in s.all
    ensures StatusAfter(s, answers, order + [k], g) ==
            if s.all[k].game == g then Refreshed(StatusAfter(s, answers, order, g), answers(k)) else StatusAfter(s, answers, order, g)
  {
    assert (order + [k])[..|order|] == order;
  }

  /** Visit i is the one that resolves the game: its answer is not IN_PROGRESS, all earlier ones of the game are. */
  ghost predicate ResolvedBy(s: Start, answers: TxHash -> Answers, order: seq<TxHash>, g: DisputeGameData, i: int) {
    && Visits(s, order, i, g) && ClosingAnswer(answers(order[i]))
    && forall j :: j < i && Visits(s, order, j, g) ==> !ClosingAnswer(answers(order[j]))
  }

  /** None of the first n visits got a closing answer for the game. */
  ghost predicate NoClosingAnswer(s: Start, answers: TxHash -> Answers, order: seq<TxHash>, n: int, g: DisputeGameData) {
    forall j :: j < n && Visits(s, order, j, g) ==> !ClosingAnswer(answers(order[j]))
  }

  predicate ClosingAnswer(a: Answers) { a.status.Some? && a.status.value != IN_PROGRESS }

  lemma {:induction false} SettledStays(s: Start, answers: TxHash -> Answers, order: seq<TxHash>, g: DisputeGameData)
    requires g in s.status && s.status[g] != IN_PROGRESS
    ensures StatusAfter(s, answers, order, g) == s.status[g]
  {
    if order != [] {
      SettledStays(s, answers, order[..|order| - 1], g);
    }
  }

  /** A visit to another prefix: the same events in the same places. */
  lemma {:induction false} VisitsOfPrefix(s: Start, order: seq<TxHash>, n: nat, g: DisputeGameData)
    requires n <= |order|
    ensures forall i :: Visits(s, order[..n], i, g) <==> i < n && Visits(s, order, i, g)
  {
    assert forall i :: 0 <= i < n ==> order[..n][i] == order[i];
    forall i ensures Visits(s, order[..n], i, g) <==> i < n && Visits(s, order, i, g) {}
  }

  lemma {:induction false} OpenExactly(s: Start, answers: TxHash -> Answers, order: seq<TxHash>, g: DisputeGameData)
    requires g in s.status && s.status[g] == IN_PROGRESS
    ensures StatusAfter(s, answers, order, g) == IN_PROGRESS <==> NoClosingAnswer(s, answers, order, |order|, g)
  {
    if order != [] {
      var n := |order| - 1;
      OpenExactly(s, answers, order[..n], g);
      NoClosingStep(s, answers, order, g);
    }
  }

  lemma {:induction false} NoClosingStep(s: Start, answers: TxHash -> Answers, order: seq<TxHash>, g: DisputeGameData)
    requires order != []
    ensures var n := |order| - 1;
            NoClosingAnswer(s, answers, order, |order|, g) <==>
            NoClosingAnswer(s, answers, order[..n], n, g) && (Visits(s, order, n, g) ==> !ClosingAnswer(answers(order[n])))
  {
    hide Visits, ClosingAnswer;
    var n := |order| - 1;
    NoClosingPrefix(s, answers, order, n, g);
    assert NoClosingAnswer(s, answers, order, |order|, g) ==> NoClosingAnswer(s, answers, order, n, g);
  }

  lemma {:induction false} NoClosingPrefix(s: Start, answers: TxHash -> Answers, order: seq<TxHash>, n: nat, g: DisputeGameData)
    requires n <= |order|
    ensures NoClosingAnswer(s, answers, order[..n], n, g) <==> NoClosingAnswer(s, answers, order, n, g)
  {
    hide ClosingAnswer;
    VisitsOfPrefix(s, order, n, g);
    if NoClosingAnswer(s, answers, order[..n], n, g) {
      forall j | j < n && Visits(s, order, j, g) ensures !ClosingAnswer(answers(order[j])) {
        assert Visits(s, order[..n], j, g) && order[..n][j] == order[j];
      }
    }
    if NoClosingAnswer(s, answers, order, n, g) {
      forall j | j < n && Visits(s, order[..n], j, g) ensures !ClosingAnswer(answers(order[..n][j])) {
        assert Visits(s, order, j, g) && order[..n][j] == order[j];
      }
    }
  }

  lemma {:induction false} ClosedByFirst(s: Start, answers: TxHash -> Answers, order: seq<TxHash>, g: DisputeGameData, i: int)
    requires g in s.status && s.status[g] == IN_PROGRESS && ResolvedBy(s, answers, order, g, i)
    ensures StatusAfter(s, answers, order, g) == answers(order[i]).status.value
  {
    var n := |order| - 1;
    var before := order[..n];
    if i < n {
      VisitsOfPrefix(s, order, n, g);
      assert before[i] == order[i] && forall j :: 0 <= j < n ==> before[j] == order[j];
      ClosedByFirst(s, answers, before, g, i);
    } else {
      assert NoClosingAnswer(s, answers, order, n, g);
      NoClosingPrefix(s, answers, order, n, g);
      OpenExactly(s, answers, before, g);
    }
  }

  /**
   Under any sharing of game data: a game that was not IN_PROGRESS at the start keeps its status;
   one that was takes the first closing answer given at a visit to any event sharing it, and stays
   IN_PROGRESS exactly as long as there is none.
  */
  lemma {:induction false} StatusIsFirstClosingAnswer(s: Start, answers: TxHash -> Answers, order: seq<TxHash>, g: DisputeGameData)
    requires g in s.status
    ensures s.status[g] != IN_PROGRESS ==> StatusAfter(s, answers, order, g) == s.status[g]
    ensures s.status[g] == IN_PROGRESS ==>
              && (StatusAfter(s, answers, order, g) == IN_PROGRESS <==> NoClosingAnswer(s, answers, order, |order|, g))
              && forall i :: ResolvedBy(s, answers, order, g, i) ==> StatusAfter(s, answers, order, g) == answers(order[i]).status.value
  {
    hide StatusAfter, NoClosingAnswer;
    if s.status[g] != IN_PROGRESS {
      SettledStays(s, answers, order, g);
    } else {
      OpenExactly(s, answers, order, g);
      forall i | ResolvedBy(s, answers, order, g, i) ensures StatusAfter(s, answers, order, g) == answers(order[i]).status.value {
        ClosedByFirst(s, answers, order, g, i);
      }
    }
  }

  // ---- What the steps of a pass saw ------------------------------------------------------------

  /** Whether the last visit of `order` goes through. */
  ghost predicate LastSucceeds(s: Start, answers: TxHash -> Answers, order: seq<TxHash>)
    requires order != [] && order[|order| - 1] in s.found && order[|order| - 1] in s.all
  {
    var k := order[|order| - 1];
    Succeeds(s.found[k], s.all[k].game.l2BlockNumber, StatusAfter(s, answers, order[..|order| - 1], s.all[k].game), answers(k))
  }

  /** What the last visit of `order` sees. */
  ghost function LastSeen(s: Start, answers: TxHash -> Answers, order: seq<TxHash>): Sight
    requires order != [] && order[|order| - 1] in s.found && order[|order| - 1] in s.all
  {
    var k := order[|order| - 1];
    Seen(s.found[k], s.all[k].game.l2BlockNumber, StatusAfter(s, answers, order[..|order| - 1], s.all[k].game), answers(k))
  }

  /** The visits so far: different events of the map, and every visit went through. */
  ghost predicate Walked(s: Start, answers: TxHash -> Answers, order: seq<TxHash>)
    ensures Walked(s, answers, order) ==>
              s.Ok() && forall i :: 0 <= i < |order| ==> order[i] in s.all && order[i] in s.found && s.all[order[i]].game in s.status
  {
    if order == [] then s.Ok()
    else
      var n := |order| - 1;
      assert s.Ok() && order[n] in s.all ==> order[n] in s.found && s.all[order[n]].game in GamesOf(s.all);
      Walked(s, answers, order[..n]) && order[n] in s.all && order[n] !in order[..n] && LastSucceeds(s, answers, order)
  }

  ghost function Observed(s: Start, answers: TxHash -> Answers, order: seq<TxHash>): (r: map<TxHash, Sight>)
    requires Walked(s, answers, order)
    ensures forall k :: k in r <==> k in order
    ensures r.Keys <= s.all.Keys
  {
    if order == [] then map[]
    else
      var n := |order| - 1;
      assert order == order[..n] + [order[n]];
      Observed(s, answers, order[..n])[order[n] := LastSeen(s, answers, order)]
  }

  lemma {:induction false} WalkStep(s: Start, answers: TxHash -> Answers, order: seq<TxHash>, k: TxHash)
    requires Walked(s, answers, order) && k in s.all && k !in order
    ensures LastSucceeds(s, answers, order + [k]) ==
            Succeeds(s.found[k], s.all[k].game.l2BlockNumber, StatusAfter(s, answers, order, s.all[k].game), answers(k))
    ensures LastSeen(s, answers, order + [k]) ==
            Seen(s.found[k], s.all[k].game.l2BlockNumber, StatusAfter(s, answers, order, s.all[k].game), answers(k))
    ensures LastSucceeds(s, answers, order + [k]) ==>
              && Walked(s, answers, order + [k])
              && Observed(s, answers, order + [k]) == Observed(s, answers, order)[k := LastSeen(s, answers, order + [k])]
  {
    assert (order + [k])[..|order|] == order;
  }

  /** Each event was seen at its own step, whatever later visits did to its game. */
  lemma {:induction false} SeenAtOwnStep(s: Start, answers: TxHash -> Answers, order: seq<TxHash>, i: nat)
    requires Walked(s, answers, order) && i < |order|
    ensures Walked(s, answers, order[..i + 1])
    ensures Observed(s, answers, order)[order[i]] == LastSeen(s, answers, order[..i + 1])
  {
    var n := |order| - 1;
    if i < n {
      assert order[..n][..i + 1] == order[..i + 1];
      SeenAtOwnStep(s, answers, order[..n], i);
    } else {
      assert order[..i + 1] == order;
    }
  }

  /** The visits that went through: all, or all but the last. */
  ghost function Through(order: seq<TxHash>, ok: bool): seq<TxHash> {
    if ok || order == [] then order else order[..|order| - 1]
  }

  /** How a pass ends: all events visited, or stopped at one whose step did not go through. */
  ghost predicate PassEnds(s: Start, answers: TxHash -> Answers, order: seq<TxHash>, ok: bool)
    ensures PassEnds(s, answers, order, ok) ==> Walked(s, answers, Through(order, ok))
  {
    if ok then
      Walked(s, answers, order) && forall k :: k in s.all ==> k in order
    else
      && order != [] && Walked(s, answers, order[..|order| - 1])
      && order[|order| - 1] in s.all && order[|order| - 1] !in order[..|order| - 1] && !LastSucceeds(s, answers, order)
  }

  /** The keys of a pass still to be visited, and those visited. */
  ghost predicate Parted(all: set<TxHash>, todo: set<TxHash>, order: seq<TxHash>) {
    && (forall k :: k in all <==> k in todo || k in order)
    && forall k :: k in todo ==> k !in order
  }

  lemma {:induction false} NothingParted(all: set<TxHash>)
    ensures Parted(all, all, [])
  {
  }

  lemma {:induction false} PartedStep(all: set<TxHash>, todo: set<TxHash>, order: seq<TxHash>, k: TxHash)
    requires Parted(all, todo, order) && k in todo
    ensures k in all && k !in order && Parted(all, todo - {k}, order + [k]) && |todo - {k}| < |todo|
  {
  }

  lemma {:induction false} PassFinishes(s: Start, answers: TxHash -> Answers, order: seq<TxHash>)
    requires Walked(s, answers, order) && Parted(s.all.Keys, {}, order)
    ensures PassEnds(s, answers, order, true) && Through(order, true) == order
  {
    assert forall k :: k in s.all <==> k in s.all.Keys;
  }

  lemma {:induction false} PassStops(s: Start, answers: TxHash -> Answers, order: seq<TxHash>, k: TxHash)
    requires Walked(s, answers, order) && k in s.all && k in s.found && k !in order && !LastSucceeds(s, answers, order + [k])
    ensures PassEnds(s, answers, order + [k], false) && Through(order + [k], false) == order
  {
    hide Walked, LastSucceeds;
    assert (order + [k])[..|order|] == order;
  }

  lemma {:induction false} MemberFacts(s: Start, k: TxHash)
    requires s.Ok() && k in s.all
    ensures k in s.found && s.all[k].txHash == k && s.all[k] in s.all.Values && s.all[k].game in GamesOf(s.all)
  {
  }

  /** Where the events stand after the visits in `order`: those still to come as at the start, the games as visited. */
  ghost predicate Stands(s: Start, answers: TxHash -> Answers, order: seq<TxHash>, todo: set<TxHash>)
    reads s.all.Values, GamesOf(s.all)
  {
    && (forall k :: k in todo && k in s.all && k in s.found ==> s.all[k].Found() == s.found[k])
    && forall g :: g in GamesOf(s.all) ==> g.status == StatusAfter(s, answers, order, g)
  }

  lemma {:induction false} WalkStarts(m: Events, answers: TxHash -> Answers)
    requires OwnKeys(m)
    ensures StartOf(m).all == m && Stands(StartOf(m), answers, [], m.Keys)
    ensures Walked(StartOf(m), answers, []) && Observed(StartOf(m), answers, []) == map[]
  {
  }

  lemma {:induction false} StandsHere(s: Start, answers: TxHash -> Answers, order: seq<TxHash>, todo: set<TxHash>, k: TxHash)
    requires s.Ok() && Stands(s, answers, order, todo) && k in todo && k in s.all
    ensures s.all[k].Found() == s.found[k] && s.all[k].game.status == StatusAfter(s, answers, order, s.all[k].game)
  {
    assert s.all[k].game in GamesOf(s.all);
  }

  lemma {:induction false} StandsLess(s: Start, answers: TxHash -> Answers, order: seq<TxHash>, todo: set<TxHash>)
    requires Stands(s, answers, order, todo)
    ensures Stands(s, answers, order, {})
  {
  }

  /** What makes a withdrawal genuine: its game's block is known, the header gives the root claim, and it is present. */
  predicate Proper(l2BlockNumber: nat, a: Answers) {
    a.l2Head.Some? && a.l2Head.value >= l2BlockNumber && a.header == HeaderRoot(true) && a.present == Some(true)
  }

  /** The node has the game's block, but its header is too old to hold a withdrawals root. */
  predicate TooOld(l2BlockNumber: nat, a: Answers) {
    a.l2Head.Some? && a.l2Head.value >= l2BlockNumber && a.header == HeaderPreIsthmus
  }

  /** The class a new event belongs in, by the answers and the status its game then has. */
  function NewClass(l2BlockNumber: nat, a: Answers, status: Status): Class {
    if TooOld(l2BlockNumber, a) then PreIsthmus
    else if Proper(l2BlockNumber, a) then Validated
    else if a.blacklisted == Some(true) || status == 1 then Suspicious
    else if status == 2 then DefenderWins
    else if status == 0 then InProgress
    else UnknownStatus
  }

  /** The answers a new event needs: all that are asked for, which depends on those before. */
  predicate Enough(l2BlockNumber: nat, status: Status, a: Answers) {
    && (status == 0 ==> a.status.Some? && a.resolvedAt.Some?)
    && a.blacklisted.Some? && a.l2Head.Some? && a.l2HeadAfter.Some?
    && (a.l2Head.value >= l2BlockNumber ==> a.header != HeaderFailed && (a.header.HeaderRoot? ==> a.present.Some?))
  }

  /** When a step goes through for a new event, and what it then sees: exactly. */
  lemma {:induction false} NewClassExactly(l2BlockNumber: nat, status: Status, a: Answers)
    ensures Succeeds(NOTHING_FOUND, l2BlockNumber, status, a) <==> Enough(l2BlockNumber, status, a)
    ensures Enough(l2BlockNumber, status, a) ==>
              var sight := Seen(NOTHING_FOUND, l2BlockNumber, status, a);
              && sight.status == (if status == 0 then a.status.value else status)
              && sight.class_ == NewClass(l2BlockNumber, a, sight.status)
  {
  }

  /**
   A new event of a pass is put in the class its own answers and its game's status at its step give,
   whatever happens to the game in the pass; in particular it is validated exactly if it is genuine.
  */
  lemma {:induction false} NewEventExactly(s: Start, answers: TxHash -> Answers, order: seq<TxHash>, k: TxHash)
    requires Walked(s, answers, order) && k in order && k in s.all && k in s.found && s.found[k] == NOTHING_FOUND
    ensures var sight, n := Observed(s, answers, order)[k], s.all[k].game.l2BlockNumber;
            sight.class_ == NewClass(n, answers(k), sight.status) && (sight.class_ == Validated <==> Proper(n, answers(k)))
  {
    hide Enrich, Classify, StatusAfter, Proper, TooOld, Succeeds, Seen, Enough;
    var i :| 0 <= i < |order| && order[i] == k;
    SeenAtOwnStep(s, answers, order, i);
    var upto := order[..i + 1];
    assert upto[|upto| - 1] == k;
    NewClassExactly(s.all[k].game.l2BlockNumber, StatusAfter(s, answers, upto[..i], s.all[k].game), answers(k));
    NotBoth(s.all[k].game.l2BlockNumber, answers(k));
  }

  lemma {:induction false} NotBoth(l2BlockNumber: nat, a: Answers)
    ensures !(Proper(l2BlockNumber, a) && TooOld(l2BlockNumber, a))
  {
  }

  // ---- The watched events ----------------------------------------------------------------------

  /** The watched events left after the observed ones were consumed. */
  ghost function StillTracked(m: Events, observed: map<TxHash, Sight>): Events {
    map k | k in m && (k in observed ==> observed[k].class_ != DefenderWins && observed[k].class_ != Suspicious) :: m[k]
  }

  /** The three statuses a game can have. */
  predicate KnownStatus(status: Status) { status <= DEFENDER_WINS }

  ghost predicate KnownStatuses(s: Start, answers: TxHash -> Answers) {
    && (forall g :: g in s.status ==> KnownStatus(s.status[g]))
    && forall k :: answers(k).status.Some? ==> KnownStatus(answers(k).status.value)
  }

  lemma {:induction false} StatusStaysKnown(s: Start, answers: TxHash -> Answers, order: seq<TxHash>, g: DisputeGameData)
    requires KnownStatuses(s, answers)
    ensures KnownStatus(StatusAfter(s, answers, order, g))
  {
    if order != [] {
      StatusStaysKnown(s, answers, order[..|order| - 1], g);
    }
  }

  /**
   The in-progress life cycle of one pass, under any sharing of games. With the three known
   statuses, a watched event that was visited stays watched exactly if its game was IN_PROGRESS at
   the start and no visit to an event of that game, up to its own, was answered otherwise. If it
   leaves, it is by the status its game had at its own step: a defender-wins attack or a suspicious
   event. It is never validated.
  */
  lemma {:induction false} PassOutcome(s: Start, answers: TxHash -> Answers, order: seq<TxHash>, i: nat)
    requires Walked(s, answers, order) && KnownStatuses(s, answers) && i < |order| && Watched(s.found[order[i]])
    ensures var k := order[i];
            var g := s.all[k].game;
            var left := StillTracked(s.all, Observed(s, answers, order));
            && (k in left <==> s.status[g] == IN_PROGRESS && NoClosingAnswer(s, answers, order, i + 1, g))
            && (k in left || Observed(s, answers, order)[k].class_ ==
                  if StatusAfter(s, answers, order[..i + 1], g) == DEFENDER_WINS then DefenderWins else Suspicious)
  {
    hide Walked, Observed, StatusAfter, Enrich, Visits, ResolvedBy, NoClosingAnswer, Start.Ok;
    var k, upto := order[i], order[..i + 1];
    var g := s.all[k].game;
    SeenAtOwnStep(s, answers, order, i);
    StatusStaysKnown(s, answers, upto, g);
    StatusIsFirstClosingAnswer(s, answers, upto, g);
    NoClosingPrefix(s, answers, order, i + 1, g);
    assert upto[..i] == order[..i] && order[..i] + [k] == upto;
    StatusStep(s, answers, order[..i], k, g);
    WatchedIsFinal(s.found[k], g.l2BlockNumber, answers(k), StatusAfter(s, answers, upto, g));
  }
}
