/** Runs of the fault-proof monitor and the blocks they cover (op-monitorism/faultproof_withdrawals/monitor.go). */
module WithdrawalRuns {
  import opened Basics
  import opened Consumption
  import opened Enrichment
  import opened EventFetch
  import opened EventPass
  import opened Ledger
  import opened LruCaches
  import opened WithdrawalMonitor

  type Height = Unsigned64

  /** Addition of unsigned 64-bit integers. */
  function WrappingSum(a: Height, b: Height): Height { if a + b < TWO_64 then a + b else a + b - TWO_64 }

  /** The last block of a run that starts here: one range ahead, with 64-bit wrap-around, but not past the head. */
  function LastBlock(next: Height, maxBlockRange: Height, latest: Height): Height {
    Min(WrappingSum(next, maxBlockRange), latest) as Height
  }

  /**
   Where a run ends, exactly: with heights that fit 64 bits it never goes back unless the head did, moves
   ahead whenever the head is ahead, by at most one range and not past the head, and reaches the head
   exactly if that is within one range. It goes back exactly if the head did or the sum overflows.
  */
  lemma {:induction false} LastBlockExactly(next: Height, maxBlockRange: Height, latest: Height)
    ensures var stop := LastBlock(next, maxBlockRange, latest);
            && stop <= latest
            && (next + maxBlockRange < TWO_64 && next <= latest ==>
                  && next <= stop <= next + maxBlockRange
                  && (next < latest && 0 < maxBlockRange ==> next < stop)
                  && (stop == latest <==> latest <= next + maxBlockRange)
                  && (stop < latest ==> stop == next + maxBlockRange))
            && (stop < next <==> latest < next || next + maxBlockRange >= TWO_64)
  {
  }

  /**
   What was consumed for one transaction: the proof its event carried, the game it was made against,
   what the nodes answered and the game's status at its step, and the class it was booked in.
  */
  datatype Taken = Taken(withdrawalHash: nat, proofSubmitter: nat, proxy: nat, l2BlockNumber: nat, answers: Answers, sight: Sight) {
    /** The class follows from the answers and the game's status: validated exactly if the withdrawal is genuine. */
    ghost predicate Judged() {
      && sight.Consistent() && sight.found == Enrich(NOTHING_FOUND, l2BlockNumber, answers).0
      && sight.class_ == NewClass(l2BlockNumber, answers, sight.status) && (sight.class_ == Validated <==> Proper(l2BlockNumber, answers))
    }
  }

  /** A range of blocks that was fetched and wholly consumed, both ends included, and the chain's head when it was. */
  datatype Range = Range(start: Height, stop: Height, head: Height, logs: seq<RawLog>, taken: map<TxHash, Taken>)

  /** Everything one run is told; the logs are asked for by the first and the last block of a range. */
  datatype World = World(
    latest: Option<Height>,
    watched: TxHash -> Answers,
    logs: (Height, Height) -> Option<seq<RawLog>>,
    replies: nat -> Reply,
    fetched: TxHash -> Answers)
  {
    /** Every question about these watched events is answered. */
    ghost predicate WatchAnswered(m: Events) { forall k :: k in m ==> AllAnswered(watched(k)) }

    /** The logs a run from this height asks for. */
    function LogsFrom(start: Height, maxBlockRange: Height): Option<seq<RawLog>> {
      if latest.None? then None else logs(start, LastBlock(start, maxBlockRange, latest.value))
    }

    /** The logs are returned, and the game of every readable one is found. */
    ghost predicate AllFound(logs: Option<seq<RawLog>>) {
      logs.Some? && forall i: nat :: i < |Readable(logs.value)| ==> Complete(replies(i))
    }

    /** Every question about the new events is answered; an iterator that stops early is not a question. */
    ghost predicate FetchAnswered(logs: Option<seq<RawLog>>) {
      && AllFound(logs)
      && forall k :: k in LastOfEach(Readable(logs.value)) ==> AllAnswered(fetched(k))
    }
  }

  /** The ranges follow each other without a gap, from the initial height to the next one. */
  ghost predicate Chained(initial: Height, ranges: seq<Range>, next: Height) {
    if ranges == [] then next == initial
    else
      var last := ranges[|ranges| - 1];
      next == last.stop && Chained(initial, ranges[..|ranges| - 1], last.start)
  }

  /** Every range was ended where its run had to end. */
  ghost predicate EndedRight(ranges: seq<Range>, maxBlockRange: Height) {
    forall r :: r in ranges ==> r.stop == LastBlock(r.start, maxBlockRange, r.head)
  }

  /** For each transaction of the range it is the last readable log whose proof was consumed, and the event was booked. */
  ghost predicate TookLast(r: Range, history: seq<Booking>) {
    var logs := Readable(r.logs);
    var last := LastOfEach(logs);
    && r.taken.Keys == last.Keys
    && forall k :: k in last ==>
         && r.taken[k].withdrawalHash == logs[last[k]].withdrawalHash && r.taken[k].proofSubmitter == logs[last[k]].proofSubmitter
         && r.taken[k].Judged() && Booking(k, r.taken[k].sight.class_) in history
  }

  ghost predicate AllTookLast(ranges: seq<Range>, history: seq<Booking>) {
    forall r :: r in ranges ==> TookLast(r, history)
  }

  /** In how many of the ranges a transaction was taken. */
  function TimesTaken(ranges: seq<Range>, k: TxHash): nat {
    if ranges == [] then 0 else TimesTaken(ranges[..|ranges| - 1], k) + if k in ranges[|ranges| - 1].taken then 1 else 0
  }

  /** Every range that took a transaction booked it anew. */
  ghost predicate BookedOften(ranges: seq<Range>, history: seq<Booking>) {
    forall k :: TimesTaken(ranges, k) <= Times(history, k)
  }

  lemma {:induction false} BookedOftenStill(ranges: seq<Range>, past: seq<Booking>, history: seq<Booking>, observed: map<TxHash, Sight>)
    requires BookedOften(ranges, past) && HistoryGrew(past, history, observed)
    ensures BookedOften(ranges, history)
  {
  }

  lemma {:induction false} BookedOftenStep(ranges: seq<Range>, range: Range, past: seq<Booking>, history: seq<Booking>, observed: map<TxHash, Sight>)
    requires BookedOften(ranges, past) && HistoryGrew(past, history, observed) && range.taken.Keys <= observed.Keys
    ensures BookedOften(ranges + [range], history)
  {
    assert (ranges + [range])[..|ranges|] == ranges;
    assert forall k :: k in range.taken ==> k in range.taken.Keys && k in observed;
  }

  /** One pass: where it started, what it was told, in which order it went, and how it ended. */
  datatype Pass = Pass(start: Start, answers: TxHash -> Answers, order: seq<TxHash>, ok: bool) {
    ghost predicate Ends() { PassEnds(start, answers, order, ok) }

    ghost function Seen(): map<TxHash, Sight>
      requires Ends()
    {
      Observed(start, answers, Through(order, ok))
    }

    ghost function After(held: Contents): Contents
      requires Ends()
    {
      ConsumedAlong(held, start, answers, Through(order, ok))
    }

    ghost function Taken(): map<TxHash, Taken>
      requires Ends()
    {
      TakenFrom(start.all, answers, Seen())
    }

    /** The statuses of these games after the pass. */
    ghost function Leaves(known: map<DisputeGameData, Status>): map<DisputeGameData, Status> {
      map g | g in known :: if g in start.status then StatusAfter(start, answers, order, g) else known[g]
    }

    /** A pass over events about which nothing was known, told these answers. */
    ghost predicate New(told: TxHash -> Answers) { Ends() && AllNew(start) && answers == told }

    /** The pass went over all events, and these carried the last readable logs of their transactions. */
    ghost predicate TookAll(logs: seq<RawLog>, games: seq<DisputeGameData>) { ok && GoesOver(logs, games) }

    /** The events of the pass carry the last readable logs of their transactions. */
    ghost predicate GoesOver(logs: seq<RawLog>, games: seq<DisputeGameData>) { HoldsLast(start.all, Readable(logs), games) }
  }

  /** No pass at all. */
  function NoPass(answers: TxHash -> Answers): Pass { Pass(Start(map[], map[], map[]), answers, [], true) }

  lemma {:induction false} NoPassEnds(answers: TxHash -> Answers)
    ensures var p := NoPass(answers);
            && p.New(answers) && p.Seen() == map[] && p.order == [] && (forall held :: p.After(held) == held)
            && forall known :: p.Leaves(known) == known
  {
  }

  /** What a pass records, whoever looks back at it. */
  lemma {:induction false} PassRecords(p: Pass, held: Contents, watch: bool)
    requires p.Ends() && OfWatched(p.start, watch)
    ensures Recorded(held.history, p.After(held).history, held.attacks.Keys, p.After(held).attacks.Keys, p.Seen(), watch)
  {
    AlongRecords(held, p.start, p.answers, Through(p.order, p.ok), watch);
  }

  lemma {:induction false} HistoryGoesOn(past: seq<Booking>, history: seq<Booking>, attacks: set<TxHash>, attacked: set<TxHash>,
                                         observed: map<TxHash, Sight>, watch: bool)
    requires Recorded(past, history, attacks, attacked, observed, watch)
    ensures past <= history && attacks <= attacked && forall k :: k in observed ==> Booking(k, observed[k].class_) in history
  {
    forall k | k in observed ensures Booking(k, observed[k].class_) in history {
      assert Booking(k, observed[k].class_) in history[|past|..];
    }
  }

  lemma {:induction false} StillTookLast(ranges: seq<Range>, past: seq<Booking>, history: seq<Booking>)
    requires AllTookLast(ranges, past) && past <= history
    ensures AllTookLast(ranges, history)
  {
    hide Taken.Judged, Readable, LastOfEach;
    forall r | r in ranges ensures TookLast(r, history) {
      assert TookLast(r, past);
      assert forall x :: x in past ==> x in history;
    }
  }

  /** A pass leaves its record, and what was taken before it stays on record. */
  lemma {:induction false} PassKeeps(p: Pass, held: Contents, after: Contents, ranges: seq<Range>, watch: bool)
    requires p.Ends() && OfWatched(p.start, watch) && after == p.After(held)
    requires AllTookLast(ranges, held.history) && BookedOften(ranges, held.history)
    ensures Recorded(held.history, after.history, held.attacks.Keys, after.attacks.Keys, p.Seen(), watch)
    ensures BookedOften(ranges, after.history)
    ensures forall range: Range :: range.taken.Keys <= p.Seen().Keys ==> BookedOften(ranges + [range], after.history)
    ensures AllTookLast(ranges, after.history) && forall k :: k in p.Seen() ==> Booking(k, p.Seen()[k].class_) in after.history
  {
    hide Recorded, AllTookLast, OfWatched, ConsumedAlong, PassEnds, Observed, Walked, BookedOften;
    PassRecords(p, held, watch);
    HistoryGoesOn(held.history, after.history, held.attacks.Keys, after.attacks.Keys, p.Seen(), watch);
    StillTookLast(ranges, held.history, after.history);
    StillBooked(ranges, held, after, p.Seen(), watch);
  }

  lemma {:induction false} StillBooked(ranges: seq<Range>, held: Contents, after: Contents, observed: map<TxHash, Sight>, watch: bool)
    requires BookedOften(ranges, held.history)
    requires Recorded(held.history, after.history, held.attacks.Keys, after.attacks.Keys, observed, watch)
    ensures BookedOften(ranges, after.history)
    ensures forall range: Range :: range.taken.Keys <= observed.Keys ==> BookedOften(ranges + [range], after.history)
  {
    hide HistoryGrew, AttacksGrew, SeenRight, BookedOften;
    BookedOftenStill(ranges, held.history, after.history, observed);
    forall range: Range | range.taken.Keys <= observed.Keys ensures BookedOften(ranges + [range], after.history) {
      BookedOftenStep(ranges, range, held.history, after.history, observed);
    }
  }

  /** What was taken from the events of a pass. */
  function TakenFrom(m: Events, answers: TxHash -> Answers, observed: map<TxHash, Sight>): map<TxHash, Taken> {
    map k | k in m && k in observed ::
      Taken(m[k].withdrawalHash, m[k].proofSubmitter, m[k].game.proxy, m[k].game.l2BlockNumber, answers(k), observed[k])
  }

  /** Nothing was known about the events when the pass began. */
  ghost predicate AllNew(s: Start) { forall k :: k in s.found ==> s.found[k] == NOTHING_FOUND }

  /** The new events of a finished pass were judged by their answers alone. */
  lemma {:induction false} NewEventsJudged(p: Pass, k: TxHash)
    requires p.Ends() && p.ok && AllNew(p.start) && k in p.start.all
    ensures k in p.Seen() && k in p.Taken() && p.Taken()[k].Judged()
  {
    hide Proper, NewClass, StatusAfter, Enrich, Classify, Succeeds, Seen, Walked, Observed, Sight.Consistent;
    assert k in p.order;
    NewEventExactly(p.start, p.answers, p.order, k);
    SeenFromAnswers(p.start, p.answers, p.order, k);
  }

  /** What was found out about an event of a pass are its findings at the start, brought up to date by its own answers. */
  lemma {:induction false} SeenFromAnswers(s: Start, answers: TxHash -> Answers, order: seq<TxHash>, k: TxHash)
    requires Walked(s, answers, order) && k in order && k in s.all && k in s.found
    ensures var sight := Observed(s, answers, order)[k];
            sight.Consistent() && sight.found == Enrich(s.found[k], s.all[k].game.l2BlockNumber, answers(k)).0
  {
    hide StatusAfter, Enrich, Classify, Observed, Walked, Sight.Consistent;
    var i :| 0 <= i < |order| && order[i] == k;
    SeenAtOwnStep(s, answers, order, i);
    var upto := order[..i + 1];
    assert upto[|upto| - 1] == k;
    LastSeenRight(s, answers, upto, false);
  }

  lemma {:induction false} TookLastIf(r: Range, history: seq<Booking>)
    requires var last := LastOfEach(Readable(r.logs));
             && r.taken.Keys == last.Keys
             && forall k :: k in last ==>
                  && r.taken[k].withdrawalHash == Readable(r.logs)[last[k]].withdrawalHash
                  && r.taken[k].proofSubmitter == Readable(r.logs)[last[k]].proofSubmitter
                  && r.taken[k].Judged() && Booking(k, r.taken[k].sight.class_) in history
    ensures TookLast(r, history)
  {
  }

  lemma {:induction false} RangeTaken(ranges: seq<Range>, range: Range, p: Pass, games: seq<DisputeGameData>, history: seq<Booking>)
    requires AllTookLast(ranges, history) && p.Ends() && p.ok && AllNew(p.start)
    requires forall k :: k in p.Seen() ==> Booking(k, p.Seen()[k].class_) in history
    requires HoldsLast(p.start.all, Readable(range.logs), games) && range.taken == p.Taken()
    ensures AllTookLast(ranges + [range], history)
  {
    hide Readable, LastOfEach, TookLast, Taken.Judged, PassEnds, Observed, Walked;
    var logs := Readable(range.logs);
    var last := LastOfEach(logs);
    forall k | k in p.start.all ensures k in p.Seen() && range.taken[k].Judged() {
      NewEventsJudged(p, k);
    }
    forall k | k in last
      ensures k in range.taken && range.taken[k].withdrawalHash == logs[last[k]].withdrawalHash
      ensures range.taken[k].proofSubmitter == logs[last[k]].proofSubmitter && Booking(k, range.taken[k].sight.class_) in history
    {
      assert Carries(p.start.all[k], logs[last[k]], games[last[k]]);
    }
    TookLastIf(range, history);
  }

  lemma {:induction false} EndedRightStep(ranges: seq<Range>, range: Range, maxBlockRange: Height)
    requires EndedRight(ranges, maxBlockRange) && range.stop == LastBlock(range.start, maxBlockRange, range.head)
    ensures EndedRight(ranges + [range], maxBlockRange)
  {
    hide LastBlock;
  }

  lemma {:induction false} OnlySeenTaken(p: Pass)
    requires p.Ends()
    ensures p.Taken().Keys <= p.Seen().Keys
  {
    hide PassEnds, Observed, Walked;
  }

  lemma {:induction false} ChainedStep(initial: Height, ranges: seq<Range>, next: Height, range: Range)
    requires Chained(initial, ranges, next) && range.start == next
    ensures Chained(initial, ranges + [range], range.stop)
  {
    assert (ranges + [range])[..|ranges|] == ranges;
  }

  lemma {:induction false} AnyPass(s: Start)
    ensures OfWatched(s, false)
  {
  }

  lemma {:induction false} WatchedOwnKeys(state: State)
    requires state.Valid()
    ensures OwnKeys(state.inProgress.m) && OfWatched(StartOf(state.inProgress.m), true)
  {
  }

  lemma {:induction false} GamesOfMembers(m: Events)
    ensures forall g :: g in GamesOf(m) ==> exists k :: k in m && g == m[k].game
  {
  }

  /** A pass whose questions are all answered does not stop. */
  lemma {:induction false} AnsweredPassFinishes(p: Pass)
    requires p.Ends() && forall k :: k in p.start.all ==> AllAnswered(p.answers(k))
    ensures p.ok
  {
    if !p.ok {
      var k := p.order[|p.order| - 1];
      AnsweredSucceeds(p.start.found[k], p.start.all[k].game.l2BlockNumber,
                       StatusAfter(p.start, p.answers, p.order[..|p.order| - 1], p.start.all[k].game), p.answers(k));
      assert false;
    }
  }

  /** The statuses of the cached games. */
  ghost function CachedStatuses(entries: GameEntries): map<DisputeGameData, Status>
    reads Games(entries)
  {
    map g | g in Games(entries) :: g.status
  }

  /** The cache is the fold of the lookups; a new game starts with its reply's status, a cached one with what was known. */
  ghost predicate GamesFetched(before: GameEntries, after: GameEntries, size: nat, replies: nat -> Reply, games: seq<DisputeGameData>,
                               known: map<DisputeGameData, Status>, s: Start) {
    && after == CacheAfter(before, size, games) && AllLookedUp(before, size, replies, games)
    && (forall i: nat :: i < |games| && MissesCache(before, size, games, i) && games[i] in s.status ==>
          replies(i).game.Some? && s.status[games[i]] == replies(i).game.value.status)
    && forall g :: g in known && g in s.status ==> s.status[g] == known[g]
  }

  /** What two passes leave: every event of either is booked once more, one of both twice, and no attack is forgotten. */
  ghost predicate RecordedRun(held: Contents, after: Contents, review: Pass, intake: Pass) {
    && review.Ends() && intake.Ends() && after == intake.After(review.After(held))
    && held.history <= after.history && held.attacks.Keys <= after.attacks.Keys
    && (forall k :: Times(after.history, k) ==
                    Times(held.history, k) + (if k in review.Seen() then 1 else 0) + if k in intake.Seen() then 1 else 0)
    && (forall k :: k in review.Seen() ==> Booking(k, review.Seen()[k].class_) in after.history[|held.history|..])
    && forall k :: k in intake.Seen() ==> Booking(k, intake.Seen()[k].class_) in after.history[|held.history|..]
  }

  lemma {:induction false} RecordedTwice(past: seq<Booking>, between: seq<Booking>, history: seq<Booking>,
                                         reviewed: map<TxHash, Sight>, taken: map<TxHash, Sight>)
    requires HistoryGrew(past, between, reviewed) && HistoryGrew(between, history, taken)
    ensures past <= history
    ensures forall k :: Times(history, k) == Times(past, k) + (if k in reviewed then 1 else 0) + if k in taken then 1 else 0
    ensures forall k :: k in reviewed ==> Booking(k, reviewed[k].class_) in history[|past|..]
    ensures forall k :: k in taken ==> Booking(k, taken[k].class_) in history[|past|..]
  {
    hide Times;
    assert history[|past|..] == between[|past|..] + history[|between|..];
  }

  lemma {:induction false} RunRecorded(held: Contents, review: Pass, intake: Pass)
    requires review.Ends() && intake.Ends()
    ensures RecordedRun(held, intake.After(review.After(held)), review, intake)
  {
    hide PassEnds, Observed, ConsumedAlong, Times, HistoryGrew, OfWatched;
    var between, after := review.After(held), intake.After(review.After(held));
    AnyPass(review.start);
    AnyPass(intake.start);
    PassRecords(review, held, false);
    PassRecords(intake, between, false);
    RecordedTwice(held.history, between.history, after.history, review.Seen(), intake.Seen());
  }

  lemma {:induction false} StatusesLeft(entries: GameEntries, p: Pass, known: map<DisputeGameData, Status>)
    requires known.Keys == Games(entries)
    requires forall g :: g in p.start.status ==> g.status == StatusAfter(p.start, p.answers, p.order, g)
    requires forall g :: g in known && g !in p.start.status ==> g.status == known[g]
    ensures CachedStatuses(entries) == p.Leaves(known)
  {
  }

  /** Where nothing was fetched, nothing is taken. */
  lemma {:induction false} NothingTaken(answers: TxHash -> Answers, entries: GameEntries, size: nat, replies: nat -> Reply)
    ensures forall known :: GamesFetched(entries, entries, size, replies, [], known, NoPass(answers).start)
  {
  }

  class Monitor {
    const state: State
    const gameCache: GameCache
    const maxBlockRange: Height
    var nextL1Height: Height
    var latestL1Height: Height
    ghost const initial: Height
    ghost var ranges: seq<Range>

    /** A configured start beyond the head is pulled back to the head. */
    constructor (startingL1BlockHeight: Height, latestL1Height: Height, maxBlockRange: Height)
      ensures Valid() && ranges == [] && gameCache.size == 1000
      ensures initial == nextL1Height == Min(startingL1BlockHeight, latestL1Height) as Height
    {
      state := new State();
      gameCache := new LruCache<nat, DisputeGameData>(GAME_CACHE_SIZE);
      this.maxBlockRange := maxBlockRange;
      this.latestL1Height := latestL1Height;
      nextL1Height := if startingL1BlockHeight > latestL1Height then latestL1Height else startingL1BlockHeight;
      initial := if startingL1BlockHeight > latestL1Height then latestL1Height else startingL1BlockHeight;
      ranges := [];
    }

    ghost predicate Valid()
      reads this, gameCache, state, state.inProgress, state.suspicious, state.preIsthmus, state.inProgress.m.Values
    {
      && state.Valid()
      && {gameCache as object} !! {state.suspicious, state.preIsthmus}
      && gameCache.Valid() && OwnAddresses(gameCache.entries)
      && Chained(initial, ranges, nextL1Height)
      && AllTookLast(ranges, state.history) && BookedOften(ranges, state.history)
      && EndedRight(ranges, maxBlockRange)
    }

    /** Asks for the head, and says where this run ends. */
    method GetMaxBlock(latest: Option<Height>) returns (stop: Option<Height>)
      modifies this`latestL1Height
      ensures stop.Some? <==> latest.Some?
      ensures stop.Some? ==> stop.value == LastBlock(nextL1Height, maxBlockRange, latest.value)
      ensures latestL1Height == if latest.Some? then latest.value else old(latestL1Height)
    {
      if latest.None? {
        return None;
      }
      latestL1Height := latest.value;
      var end := WrappingSum(nextL1Height, maxBlockRange);
      if end > latest.value {
        end := latest.value;
      }
      stop := Some(end);
    }

    /** Goes over the watched events again: a pass over the watched map itself. */
    method ReviewWatched(answers: TxHash -> Answers) returns (ok: bool, ghost review: Pass)
      requires Valid()
      modifies state, state.inProgress, state.suspicious, state.preIsthmus, state.inProgress.m.Values, GamesOf(state.inProgress.m)
      ensures Valid() && review == Pass(old(StartOf(state.inProgress.m)), answers, review.order, ok) && review.Ends()
      ensures state.Held() == review.After(old(state.Held())) && state.inProgress.m == StillTracked(review.start.all, review.Seen())
      ensures Recorded(old(state.history), state.history, old(state.defenderWins.Keys), state.defenderWins.Keys, review.Seen(), true)
      ensures CachedStatuses(gameCache.entries) == review.Leaves(old(CachedStatuses(gameCache.entries)))
      ensures (forall k :: k in review.start.all ==> AllAnswered(answers(k))) ==> ok
    {
      hide Recorded, AllTookLast, BookedOften, EndedRight, Chained, AfterAdd, AfterGet, PassEnds, ConsumedAlong, StatusAfter, Observed, Walked;
      hide State.CachesOk, State.Now, Consumed, Pass.Leaves, AllWatched, AllAnswered, StillTracked, Through;
      WatchedOwnKeys(state);
      ghost var start, held, known := StartOf(state.inProgress.m), state.Held(), CachedStatuses(gameCache.entries);
      ghost var order;
      ok, order := state.ConsumeEvents(state.inProgress, answers);
      review := Pass(start, answers, order, ok);
      PassKeeps(review, held, state.Held(), ranges, true);
      StatusesLeft(gameCache.entries, review, known);
      AlongTracks(held, start, answers, Through(order, ok));
      if forall k :: k in start.all ==> AllAnswered(answers(k)) {
        AnsweredPassFinishes(review);
      }
    }

    /** Consumes all the events fetched for the range up to `stop`, and moves on to its end. */
    method TakeNew(fetched: EventMap, stop: Height, ghost head: Height, ghost logs: seq<RawLog>, ghost games: seq<DisputeGameData>, answers: TxHash -> Answers)
      returns (advanced: bool, ghost intake: Pass)
      requires Valid() && fetched != state.inProgress && HoldsLast(fetched.m, Readable(logs), games) && AllNew(StartOf(fetched.m))
      requires stop == LastBlock(nextL1Height, maxBlockRange, head)
      modifies this`nextL1Height, this`ranges, state, state.inProgress, state.suspicious, state.preIsthmus
      modifies fetched.m.Values, GamesOf(fetched.m)
      ensures Valid() && intake == Pass(old(StartOf(fetched.m)), answers, intake.order, advanced) && intake.Ends()
      ensures state.Held() == intake.After(old(state.Held()))
      ensures Recorded(old(state.history), state.history, old(state.defenderWins.Keys), state.defenderWins.Keys, intake.Seen(), false)
      ensures !advanced ==> nextL1Height == old(nextL1Height) && ranges == old(ranges)
      ensures advanced ==> nextL1Height == stop
      ensures advanced ==> ranges == old(ranges) + [Range(old(nextL1Height), stop, head, logs, intake.Taken())]
    {
      hide Recorded, AllTookLast, BookedOften, EndedRight, Chained, AfterAdd, AfterGet, PassEnds, ConsumedAlong, Observed, Walked, GamesOf, StartOf, Stands;
      hide State.CachesOk, State.Now, Consumed, HoldsLast, LastOfEach, Readable, TakenFrom, AllNew;
      HoldsOwnKeys(fetched.m, Readable(logs), games);
      ghost var start, held := StartOf(fetched.m), state.Held();
      ghost var order;
      advanced, order := state.ConsumeEvents(fetched, answers);
      intake := Pass(start, answers, order, advanced);
      AnyPass(start);
      PassKeeps(intake, held, state.Held(), ranges, false);
      if advanced {
        ghost var range := Range(nextL1Height, stop, head, logs, intake.Taken());
        RangeTaken(ranges, range, intake, games, state.history);
        OnlySeenTaken(intake);
        EndedRightStep(ranges, range, maxBlockRange);
        ChainedStep(initial, ranges, nextL1Height, range);
        ranges := ranges + [range];
        nextL1Height := stop;
      }
    }

    /** Fetches the events of a range of blocks; a game starts from its reply if it is new, and as the cache has it otherwise. */
    method Fetch(start: Height, stop: Height, w: World) returns (events: Option<EventMap>, ghost games: seq<DisputeGameData>)
      requires gameCache.Valid() && OwnAddresses(gameCache.entries)
      modifies gameCache
      ensures gameCache.Valid() && OwnAddresses(gameCache.entries)
      ensures events.Some? ==> w.logs(start, stop).Some? && fresh(events.value) && HoldsLast(events.value.m, Readable(w.logs(start, stop).value), games)
      ensures events.Some? ==> AllNew(StartOf(events.value.m)) && forall e :: e in events.value.m.Values ==> fresh(e)
      ensures events.Some? ==> forall g :: g in GamesOf(events.value.m) ==> fresh(g) || g in old(Games(gameCache.entries))
      ensures GamesFetched(old(gameCache.entries), gameCache.entries, gameCache.size, w.replies, games, old(CachedStatuses(gameCache.entries)),
                           if events.Some? then StartOf(events.value.m) else NoPass(w.fetched).start)
      ensures w.AllFound(w.logs(start, stop)) ==> events.Some?
      ensures w.FetchAnswered(w.logs(start, stop)) ==> events.Some? && forall k :: k in events.value.m ==> AllAnswered(w.fetched(k))
    {
      hide CacheAfter, AllLookedUp, Find, LastOfEach, Readable, OwnAddresses, HoldsLast, AfterAdd, AfterGet, OwnKeys, Start.Ok, DistinctKeys, MissesCache, AllAnswered, Complete;
      events, games := GetEnrichedWithdrawalsEventsMap(gameCache, w.logs(start, stop), w.replies);
      if events.Some? {
        GamesOfMembers(events.value.m);
        HoldsOwnKeys(events.value.m, Readable(w.logs(start, stop).value), games);
      }
    }

    /**
     Fetches the events of the range up to `stop` and consumes them. Nothing is known about them
     before, so the answers alone decide which are validated.
    */
    method FetchAndTake(stop: Height, ghost head: Height, w: World) returns (advanced: bool, ghost intake: Pass, ghost games: seq<DisputeGameData>)
      requires Valid() && stop == LastBlock(nextL1Height, maxBlockRange, head)
      modifies this`nextL1Height, this`ranges, gameCache, state, state.inProgress, state.suspicious, state.preIsthmus
      modifies Games(gameCache.entries)
      ensures Valid() && intake.New(w.fetched) && state.Held() == intake.After(old(state.Held()))
      ensures GamesFetched(old(gameCache.entries), gameCache.entries, gameCache.size, w.replies, games, old(CachedStatuses(gameCache.entries)), intake.start)
      ensures w.AllFound(w.logs(old(nextL1Height), stop)) ==> intake.GoesOver(w.logs(old(nextL1Height), stop).value, games) && advanced == intake.ok
      ensures w.FetchAnswered(w.logs(old(nextL1Height), stop)) ==> advanced
      ensures !advanced ==> nextL1Height == old(nextL1Height) && ranges == old(ranges)
      ensures advanced ==> nextL1Height == stop && w.logs(old(nextL1Height), stop).Some? && intake.TookAll(w.logs(old(nextL1Height), stop).value, games)
      ensures advanced ==> ranges == old(ranges) + [Range(old(nextL1Height), stop, head, w.logs(old(nextL1Height), stop).value, intake.Taken())]
    {
      hide State.Valid, AllTookLast, BookedOften, EndedRight, LastBlock, LastOfEach, Readable, Chained, OwnAddresses, HoldsLast, AfterAdd, AfterGet, PassEnds, Walked, Recorded;
      hide CacheAfter, AllLookedUp, Find, ConsumedAlong, Observed, Taken.Judged, TakenFrom, GamesFetched, AllNew, CachedStatuses, StartOf, World.FetchAnswered, NoPass, StatusAfter, AllAnswered;
      NoPassEnds(w.fetched);
      NothingTaken(w.fetched, gameCache.entries, gameCache.size, w.replies);
      intake := NoPass(w.fetched);
      var start := nextL1Height;
      var events;
      events, games := Fetch(start, stop, w);
      assert state.Held() == old(state.Held());
      if events.None? {
        return false, intake, games;
      }
      advanced, intake := TakeNew(events.value, stop, head, w.logs(start, stop).value, games, w.fetched);
      if w.FetchAnswered(w.logs(start, stop)) {
        AnsweredPassFinishes(intake);
      }
    }

    /** The watched events, then the fetch up to `stop`, then the new events: each only if the one before went through. */
    method RunTo(stop: Height, ghost head: Height, w: World) returns (advanced: bool, ghost review: Pass, ghost intake: Pass, ghost games: seq<DisputeGameData>)
      requires Valid() && stop == LastBlock(nextL1Height, maxBlockRange, head)
      modifies this`nextL1Height, this`ranges, gameCache, state, state.inProgress, state.suspicious, state.preIsthmus
      modifies state.inProgress.m.Values, GamesOf(state.inProgress.m), Games(gameCache.entries)
      ensures Valid() && RecordedRun(old(state.Held()), state.Held(), review, intake) && intake.New(w.fetched)
      ensures review == Pass(old(StartOf(state.inProgress.m)), w.watched, review.order, review.ok)
      ensures !review.ok ==> intake.order == [] && games == []
      ensures GamesFetched(old(gameCache.entries), gameCache.entries, gameCache.size, w.replies, games,
                           review.Leaves(old(CachedStatuses(gameCache.entries))), intake.start)
      ensures review.ok && w.AllFound(w.logs(old(nextL1Height), stop)) ==> intake.GoesOver(w.logs(old(nextL1Height), stop).value, games) && advanced == intake.ok
      ensures w.WatchAnswered(review.start.all) && w.FetchAnswered(w.logs(old(nextL1Height), stop)) ==> advanced
      ensures !advanced ==> nextL1Height == old(nextL1Height) && ranges == old(ranges)
      ensures advanced ==> review.ok && nextL1Height == stop && w.logs(old(nextL1Height), stop).Some? && intake.TookAll(w.logs(old(nextL1Height), stop).value, games)
      ensures advanced ==> ranges == old(ranges) + [Range(old(nextL1Height), stop, head, w.logs(old(nextL1Height), stop).value, intake.Taken())]
    {
      hide State.Valid, AllTookLast, BookedOften, EndedRight, LastBlock, Readable, Chained, OwnAddresses, PassEnds, Recorded, World.FetchAnswered, CacheAfter, AllLookedUp;
      hide HoldsLast, StatusAfter, Walked, ConsumedAlong, Observed, TakenFrom, RecordedRun, GamesFetched, Pass.TookAll, Pass.GoesOver, World.AllFound, AllNew, StartOf, AllAnswered;
      hide CachedStatuses, Pass.Leaves, NoPass, Consumed, AfterAdd, Through, State.Now, State.CachesOk;
      intake, games := NoPass(w.fetched), [];
      NoPassEnds(w.fetched);
      ghost var held := state.Held();
      var ok;
      ok, review := ReviewWatched(w.watched);
      NothingTaken(w.fetched, gameCache.entries, gameCache.size, w.replies);
      if ok {
        advanced, intake, games := FetchAndTake(stop, head, w);
      } else {
        advanced := false;
      }
      RunRecorded(held, review, intake);
    }

    /**
     One run. It advances only if the watched events, then the fetch and then all the new events went
     through without error, and then exactly to the end of what it fetched; otherwise the same start
     is used again. With every question answered it does advance, and if the head is ahead and the
     heights fit, by at least one block and at most one range, not past the head. Whatever happens, the containers
     hold what the two passes leave, and every event of either pass is booked once more.
    */
    method Run(w: World) returns (advanced: bool, ghost review: Pass, ghost intake: Pass, ghost games: seq<DisputeGameData>)
      requires Valid()
      modifies this, gameCache, state, state.inProgress, state.suspicious, state.preIsthmus
      modifies state.inProgress.m.Values, GamesOf(state.inProgress.m), Games(gameCache.entries)
      ensures Valid()
      ensures w.latest.None? ==> !advanced && state.Held() == old(state.Held()) && gameCache.entries == old(gameCache.entries)
      ensures w.latest.Some? ==>
                && RecordedRun(old(state.Held()), state.Held(), review, intake) && intake.New(w.fetched)
                && review == Pass(old(StartOf(state.inProgress.m)), w.watched, review.order, review.ok)
                && (!review.ok ==> intake.order == [] && games == [])
                && GamesFetched(old(gameCache.entries), gameCache.entries, gameCache.size, w.replies, games,
                                review.Leaves(old(CachedStatuses(gameCache.entries))), intake.start)
                && (review.ok && w.AllFound(w.LogsFrom(old(nextL1Height), maxBlockRange)) ==> intake.GoesOver(w.LogsFrom(old(nextL1Height), maxBlockRange).value, games) && advanced == intake.ok)
                && (w.WatchAnswered(review.start.all) && w.FetchAnswered(w.LogsFrom(old(nextL1Height), maxBlockRange)) ==> advanced)
      ensures !advanced ==> nextL1Height == old(nextL1Height) && ranges == old(ranges)
      ensures advanced ==> review.ok && w.latest.Some? && w.logs(old(nextL1Height), nextL1Height).Some? && intake.New(w.fetched) && intake.TookAll(w.logs(old(nextL1Height), nextL1Height).value, games)
      ensures advanced && old(nextL1Height) < w.latest.value && 0 < maxBlockRange && old(nextL1Height) + maxBlockRange < TWO_64 ==>
                && old(nextL1Height) < nextL1Height <= old(nextL1Height) + maxBlockRange && nextL1Height <= w.latest.value
                && (nextL1Height == w.latest.value <==> w.latest.value <= old(nextL1Height) + maxBlockRange)
      ensures advanced ==> nextL1Height == LastBlock(old(nextL1Height), maxBlockRange, w.latest.value)
      ensures advanced ==> ranges == old(ranges) + [Range(old(nextL1Height), nextL1Height, w.latest.value, w.logs(old(nextL1Height), nextL1Height).value, intake.Taken())]
    {
      hide State.Valid, AllTookLast, BookedOften, EndedRight, Readable, Chained, OwnAddresses, PassEnds, World.FetchAnswered, World.WatchAnswered;
      hide StatusAfter, Walked, ConsumedAlong, Observed, TakenFrom, RecordedRun, GamesFetched, Pass.TookAll, Pass.GoesOver, World.AllFound, AllNew, StartOf;
      hide Pass.Leaves, Consumed, AfterAdd, Through, State.Now, State.CachesOk, LastBlock;
      review, intake, games := NoPass(w.watched), NoPass(w.fetched), [];
      var stop := GetMaxBlock(w.latest);
      if stop.None? {
        return false, review, intake, games;
      }
      LastBlockExactly(nextL1Height, maxBlockRange, w.latest.value);
      advanced, review, intake, games := RunTo(stop.value, w.latest.value, w);
    }
  }

  ghost predicate InRange(b: nat, r: Range) { r.start <= b <= r.stop }

  /**
   Coverage without gaps: after any runs, with any failures in between and the head moving either
   way, every block from the initial height up to the next one lay in a range that was fetched and
   wholly consumed.
  */
  lemma {:induction false} BlockCoverage(initial: Height, ranges: seq<Range>, next: Height, b: nat)
    requires Chained(initial, ranges, next) && ranges != [] && initial <= b <= next
    ensures exists r :: r in ranges && InRange(b, r)
  {
    var n := |ranges| - 1;
    var last := ranges[n];
    if InRange(b, last) {
      assert last in ranges;
    } else {
      assert Chained(initial, ranges[..n], last.start);
      BlockCoverage(initial, ranges[..n], last.start, b);
      var r :| r in ranges[..n] && InRange(b, r);
      assert r in ranges;
    }
  }

  /** With a standing head and heights that fit, the next height is as many ranges ahead as there were completed runs, up to the head. */
  lemma {:induction false} HeadIsApproached(initial: Height, ranges: seq<Range>, next: Height, maxBlockRange: Height, head: Height)
    requires Chained(initial, ranges, next) && EndedRight(ranges, maxBlockRange)
    requires (forall r :: r in ranges ==> r.head == head) && initial <= head && head + maxBlockRange < TWO_64
    ensures next == Min(head, initial + |ranges| * maxBlockRange)
  {
    hide LastBlock;
    if ranges != [] {
      var n := |ranges| - 1;
      var last := ranges[n];
      assert last in ranges;
      HeadIsApproached(initial, ranges[..n], last.start, maxBlockRange, head);
      LastBlockExactly(last.start, maxBlockRange, head);
      OneMore(n, maxBlockRange);
    } else {
      assert 0 * maxBlockRange == 0;
    }
  }

  lemma {:induction false} OneMore(n: nat, step: nat)
    ensures (n + 1) * step == n * step + step && n * step >= 0
  {
  }

  /** So the head is reached after exactly ceil((head - initial) / range) completed runs, and not before. */
  lemma {:induction false} HeadReachedExactly(initial: Height, ranges: seq<Range>, next: Height, maxBlockRange: Height, head: Height)
    requires Chained(initial, ranges, next) && EndedRight(ranges, maxBlockRange) && 0 < maxBlockRange
    requires (forall r :: r in ranges ==> r.head == head) && initial <= head && head + maxBlockRange < TWO_64
    ensures next == head <==> |ranges| >= (head - initial + maxBlockRange - 1) / maxBlockRange
  {
    HeadIsApproached(initial, ranges, next, maxBlockRange, head);
    CeilExactly(head - initial, maxBlockRange, |ranges|);
  }

  lemma {:induction false} CeilExactly(distance: nat, step: nat, n: nat)
    requires step > 0
    ensures n * step >= distance <==> n >= (distance + step - 1) / step
  {
    var q := (distance + step - 1) / step;
    assert q * step <= distance + step - 1 < q * step + step;
    if n >= q {
      assert n * step == q * step + (n - q) * step;
    } else {
      assert q * step == n * step + step + (q - n - 1) * step;
    }
  }

  /** Consecutive ranges share a block: the end of one is the start of the next. */
  lemma {:induction false} SharedBoundary(initial: Height, ranges: seq<Range>, next: Height, i: nat)
    requires Chained(initial, ranges, next) && i + 1 < |ranges|
    ensures ranges[i].stop == ranges[i + 1].start
  {
    var n := |ranges| - 1;
    if i + 1 < n {
      SharedBoundary(initial, ranges[..n], ranges[n].start, i);
    }
  }

  /** The node returned every log of the range's blocks. */
  ghost predicate Honest(r: Range, chain: nat -> seq<ProvenLog>) {
    forall b, i :: InRange(b, r) && 0 <= i < |chain(b)| ==> Returned(r, chain(b)[i])
  }

  ghost predicate Returned(r: Range, log: ProvenLog) {
    exists j :: 0 <= j < |r.logs| && r.logs[j].log == log
  }

  /** Of the logs returned for this transaction, the last is the one whose proof was consumed and booked. */
  ghost predicate TookLastReturned(r: Range, k: TxHash, history: seq<Booking>) {
    k in r.taken && exists j ::
      && 0 <= j < |r.logs| && r.logs[j].log.txHash == k && (forall n :: j < n < |r.logs| ==> r.logs[n].log.txHash != k)
      && r.taken[k].withdrawalHash == r.logs[j].log.withdrawalHash && r.taken[k].proofSubmitter == r.logs[j].log.proofSubmitter
      && r.taken[k].Judged() && Booking(k, r.taken[k].sight.class_) in history
  }

  /** What a range took, exactly: the transactions with a log before the first that does not unpack. */
  lemma {:induction false} TakenExactly(r: Range, history: seq<Booking>, k: TxHash)
    requires TookLast(r, history)
    ensures k !in r.taken <==> forall i :: 0 <= i < |r.logs| && r.logs[i].log.txHash == k ==> exists j :: 0 <= j <= i && !r.logs[j].decodes
  {
    MissedExactly(r.logs, k);
  }

  lemma {:induction false} DecodableTaken(r: Range, history: seq<Booking>, log: ProvenLog)
    requires TookLast(r, history) && AllDecode(r.logs) && Returned(r, log)
    ensures TookLastReturned(r, log.txHash, history)
  {
    var i :| 0 <= i < |r.logs| && r.logs[i].log == log;
    AllDecodeReadsAll(r.logs, i);
    var j := LastOfEach(Readable(r.logs))[log.txHash];
    assert Readable(r.logs)[j] == r.logs[j].log;
  }

  /**
   Every proven withdrawal in a block between the heights was returned for a range over that block;
   if all logs of that range unpack, its transaction was consumed by its last event and booked.
  */
  lemma {:induction false} NoTransactionMissed(initial: Height, ranges: seq<Range>, next: Height, history: seq<Booking>,
                                               chain: nat -> seq<ProvenLog>, b: nat, i: nat)
    requires Chained(initial, ranges, next) && AllTookLast(ranges, history) && ranges != []
    requires forall r :: r in ranges ==> Honest(r, chain)
    requires initial <= b <= next && i < |chain(b)|
    ensures exists r :: r in ranges && InRange(b, r) && Returned(r, chain(b)[i])
                        && (AllDecode(r.logs) ==> TookLastReturned(r, chain(b)[i].txHash, history))
  {
    BlockCoverage(initial, ranges, next, b);
    var r :| r in ranges && InRange(b, r);
    assert Returned(r, chain(b)[i]);
    if AllDecode(r.logs) {
      DecodableTaken(r, history, chain(b)[i]);
    }
  }

  lemma {:induction false} TakenOften(ranges: seq<Range>, i: nat, j: nat, k: TxHash)
    requires i < j < |ranges| && k in ranges[i].taken && k in ranges[j].taken
    ensures TimesTaken(ranges, k) >= 2
  {
    var n := |ranges| - 1;
    if j < n {
      TakenOften(ranges[..n], i, j, k);
    } else {
      TakenOnce(ranges[..n], i, k);
    }
  }

  lemma {:induction false} TakenOnce(ranges: seq<Range>, i: nat, k: TxHash)
    requires i < |ranges| && k in ranges[i].taken
    ensures TimesTaken(ranges, k) >= 1
  {
    var n := |ranges| - 1;
    if i < n {
      TakenOnce(ranges[..n], i, k);
    }
  }

  /**
   A withdrawal proven in a block where one range ends and the next one starts is consumed again by
   the next run, and so booked at least twice.
  */
  lemma {:induction false} BoundaryBookedTwice(initial: Height, ranges: seq<Range>, next: Height, history: seq<Booking>,
                                               chain: nat -> seq<ProvenLog>, n: nat, i: nat)
    requires Chained(initial, ranges, next) && AllTookLast(ranges, history) && BookedOften(ranges, history) && n + 1 < |ranges|
    requires forall r :: r in ranges[n..n + 2] ==> Honest(r, chain) && AllDecode(r.logs)
    requires ranges[n].start <= ranges[n].stop && ranges[n + 1].start <= ranges[n + 1].stop && i < |chain(ranges[n].stop)|
    ensures Times(history, chain(ranges[n].stop)[i].txHash) >= 2
  {
    hide Readable, LastOfEach, TookLast, AllDecode, Taken.Judged;
    var b := ranges[n].stop;
    var log := chain(b)[i];
    SharedBoundary(initial, ranges, next, n);
    assert ranges[n] == ranges[n..n + 2][0] && ranges[n + 1] == ranges[n..n + 2][1];
    assert InRange(b, ranges[n]) && InRange(b, ranges[n + 1]);
    DecodableTaken(ranges[n], history, log);
    DecodableTaken(ranges[n + 1], history, log);
    TakenOften(ranges, n, n + 1, log.txHash);
  }
}
