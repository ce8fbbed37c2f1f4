/** Fetching proven withdrawals and their games (op-monitorism/faultproof_withdrawals/validator). */
module EventFetch {
  import opened Basics
  import opened Enrichment
  import opened EventPass
  import opened Ledger
  import opened LruCaches
  import opened WithdrawalMonitor

  const GAME_CACHE_SIZE: nat := 1000

  /** A WithdrawalProvenExtension1 log. */
  datatype ProvenLog = ProvenLog(block: nat, txHash: TxHash, withdrawalHash: nat, proofSubmitter: nat)

  /** A log as the node returned it; the iterator stops for good at one that does not unpack. */
  datatype RawLog = RawLog(log: ProvenLog, decodes: bool)

  /** What the node answers for one log: the game the proof was made against, and that game's data. */
  datatype Reply = Reply(proxy: Option<nat>, game: Option<GameReply>)

  datatype GameReply = GameReply(l2BlockNumber: nat, status: Status, resolvedAt: nat)

  type GameCache = LruCache<nat, DisputeGameData>

  /** Every game is cached under its own address. */
  ghost predicate OwnAddresses(entries: Entries<nat, DisputeGameData>) {
    forall i :: 0 <= i < |entries| ==> entries[i].1.proxy == entries[i].0
  }

  ghost function Games(entries: Entries<nat, DisputeGameData>): set<DisputeGameData> {
    set i | 0 <= i < |entries| :: entries[i].1
  }

  lemma {:induction false} AfterGetKeeps(entries: Entries<nat, DisputeGameData>, proxy: nat)
    requires OwnAddresses(entries)
    ensures OwnAddresses(AfterGet(entries, proxy)) && Games(AfterGet(entries, proxy)) == Games(entries)
  {
    var after := AfterGet(entries, proxy);
    match Find(entries, proxy)
    case None =>
    case Some(i) =>
      assert after == entries[..i] + entries[i + 1..] + [entries[i]];
      forall j | 0 <= j < |entries| ensures entries[j].1 in Games(after) {
        assert after[if j < i then j else if j == i then |entries| - 1 else j - 1] == entries[j];
      }
  }

  lemma {:induction false} AfterAddKeeps(entries: Entries<nat, DisputeGameData>, size: nat, game: DisputeGameData)
    requires OwnAddresses(entries) && Find(entries, game.proxy).None?
    ensures OwnAddresses(AfterAdd(entries, size, game.proxy, game))
    ensures Games(AfterAdd(entries, size, game.proxy, game)) <= Games(entries) + {game}
  {
  }

  /**
   The game behind an address: the cached object itself if there is one, otherwise a new object that
   is cached from then on. A failed lookup caches nothing.
  */
  method GetDisputeGameProxyFromAddress(cache: GameCache, proxy: nat, reply: Option<GameReply>) returns (game: Option<DisputeGameData>)
    requires cache.Valid() && OwnAddresses(cache.entries)
    modifies cache
    ensures cache.Valid() && OwnAddresses(cache.entries)
    ensures game.Some? <==> Find(old(cache.entries), proxy).Some? || reply.Some?
    ensures game.Some? ==> game.value.proxy == proxy
    ensures match Find(old(cache.entries), proxy)
            case Some(i) => game == Some(old(cache.entries)[i].1) && cache.entries == AfterGet(old(cache.entries), proxy)
            case None =>
              if reply.None? then cache.entries == old(cache.entries)
              else
                && fresh(game.value) && game.value.l2BlockNumber == reply.value.l2BlockNumber
                && game.value.status == reply.value.status && game.value.resolvedAt == reply.value.resolvedAt
                && cache.entries == AfterAdd(old(cache.entries), cache.size, proxy, game.value)
    ensures Games(cache.entries) <= Games(old(cache.entries)) + if game.Some? then {game.value} else {}
    ensures game.Some? ==> game.value in Games(old(cache.entries)) || fresh(game.value)
  {
    AfterGetKeeps(cache.entries, proxy);
    game := cache.Get(proxy);
    if game.None? {
      if reply.None? {
        return;
      }
      var created := new DisputeGameData(proxy, reply.value.l2BlockNumber, reply.value.status, reply.value.resolvedAt);
      AfterAddKeeps(cache.entries, cache.size, created);
      cache.Add(proxy, created);
      game := Some(created);
    }
  }

  /** The logs the iterator yields: those before the first that does not unpack. */
  function Readable(raw: seq<RawLog>): (r: seq<ProvenLog>)
    ensures |r| <= |raw| && forall i :: 0 <= i < |r| ==> raw[i].decodes && r[i] == raw[i].log
    ensures |r| < |raw| ==> !raw[|r|].decodes
  {
    if raw == [] || !raw[0].decodes then [] else [raw[0].log] + Readable(raw[1..])
  }

  ghost predicate AllDecode(raw: seq<RawLog>) { forall i :: 0 <= i < |raw| ==> raw[i].decodes }

  /** For each transaction, the position of its last log. */
  function LastOfEach(logs: seq<ProvenLog>): (r: map<TxHash, nat>)
    ensures forall k :: k in r ==> r[k] < |logs| && logs[r[k]].txHash == k
  {
    if logs == [] then map[]
    else LastOfEach(logs[..|logs| - 1])[logs[|logs| - 1].txHash := |logs| - 1]
  }

  ghost predicate IsLast(logs: seq<ProvenLog>, i: nat) {
    i < |logs| && forall j :: i < j < |logs| ==> logs[j].txHash != logs[i].txHash
  }

  /** Exactly the transactions with a log have an entry, and log i is the one taken exactly if it is the last. */
  lemma {:induction false} LastOfEachExactly(logs: seq<ProvenLog>)
    ensures forall i :: 0 <= i < |logs| ==> logs[i].txHash in LastOfEach(logs)
    ensures forall k :: k in LastOfEach(logs) ==> IsLast(logs, LastOfEach(logs)[k])
    ensures forall i: nat :: i < |logs| ==> (LastOfEach(logs)[logs[i].txHash] == i <==> IsLast(logs, i))
  {
    EachHasLast(logs);
    forall i: nat | i < |logs| && IsLast(logs, i) ensures LastOfEach(logs)[logs[i].txHash] == i {
      OneLast(logs, i, LastOfEach(logs)[logs[i].txHash]);
    }
  }

  lemma {:induction false} EachHasLast(logs: seq<ProvenLog>)
    ensures forall i :: 0 <= i < |logs| ==> logs[i].txHash in LastOfEach(logs)
    ensures forall k :: k in LastOfEach(logs) ==> IsLast(logs, LastOfEach(logs)[k])
  {
    if logs != [] {
      EachHasLast(logs[..|logs| - 1]);
    }
  }

  lemma {:induction false} OneLast(logs: seq<ProvenLog>, i: nat, j: nat)
    requires IsLast(logs, i) && IsLast(logs, j) && logs[i].txHash == logs[j].txHash
    ensures i == j
  {
  }

  /** Of two withdrawals proven in one transaction only the second is looked at. */
  lemma {:induction false} SecondHidesFirst(first: ProvenLog, second: ProvenLog)
    requires first.txHash == second.txHash
    ensures LastOfEach([first, second]) == map[second.txHash := 1]
  {
    assert [first, second][..1] == [first] && [first][..0] == [];
  }

  /**
   A transaction is missed exactly if all its logs come at or after the first one that does not
   unpack: the loop ends there as if the logs had ended.
  */
  lemma {:induction false} MissedExactly(raw: seq<RawLog>, k: TxHash)
    ensures k !in LastOfEach(Readable(raw)) <==>
            forall i :: 0 <= i < |raw| && raw[i].log.txHash == k ==> exists j :: 0 <= j <= i && !raw[j].decodes
  {
    var logs := Readable(raw);
    LastOfEachExactly(logs);
    if k in LastOfEach(logs) {
      var i := LastOfEach(logs)[k];
      assert raw[i].log.txHash == k && forall j :: 0 <= j <= i ==> raw[j].decodes;
    } else {
      forall i | 0 <= i < |raw| && raw[i].log.txHash == k ensures exists j :: 0 <= j <= i && !raw[j].decodes {
        assert forall j :: 0 <= j < |logs| ==> logs[j].txHash == raw[j].log.txHash;
        assert !raw[|logs|].decodes;
      }
    }
  }

  /** If the first log does not unpack, nothing of the range is consumed at all. */
  lemma {:induction false} FirstUndecodableHidesAll(first: RawLog, rest: seq<RawLog>)
    requires !first.decodes
    ensures LastOfEach(Readable([first] + rest)) == map[]
  {
  }

  /** If all logs unpack, the last log of every transaction is the last one returned. */
  lemma {:induction false} AllDecodeReadsAll(raw: seq<RawLog>, i: nat)
    requires AllDecode(raw) && i < |raw|
    ensures |Readable(raw)| == |raw| && raw[i].log.txHash in LastOfEach(Readable(raw))
    ensures var j := LastOfEach(Readable(raw))[raw[i].log.txHash];
            raw[j].log.txHash == raw[i].log.txHash && forall n :: j < n < |raw| ==> raw[n].log.txHash != raw[i].log.txHash
  {
    LastOfEachExactly(Readable(raw));
    assert Readable(raw)[i] == raw[i].log;
    var j := LastOfEach(Readable(raw))[raw[i].log.txHash];
    assert IsLast(Readable(raw), j);
    assert forall n :: 0 <= n < |raw| ==> Readable(raw)[n] == raw[n].log;
  }

  // ---- The games of the fetched events -----------------------------------------------------------

  type GameEntries = Entries<nat, DisputeGameData>

  /** The cache after these games were looked up, one after the other. */
  function CacheAfter(before: GameEntries, size: nat, games: seq<DisputeGameData>): GameEntries {
    if games == [] then before
    else
      var mid, g := CacheAfter(before, size, games[..|games| - 1]), games[|games| - 1];
      if Find(mid, g.proxy).Some? then AfterGet(mid, g.proxy) else AfterAdd(mid, size, g.proxy, g)
  }

  /** Whether the i-th lookup found nothing in the cache. */
  ghost predicate MissesCache(before: GameEntries, size: nat, games: seq<DisputeGameData>, i: nat)
    requires i < |games|
  {
    Find(CacheAfter(before, size, games[..i]), games[i].proxy).None?
  }

  /**
   The i-th lookup gives the game its reply names: the very object the cache holds under that
   address, or else one made from the reply, and not seen before.
  */
  ghost predicate LookedUp(before: GameEntries, size: nat, replies: nat -> Reply, games: seq<DisputeGameData>, i: nat)
    requires i < |games|
  {
    && replies(i).proxy == Some(games[i].proxy)
    && var held := CacheAfter(before, size, games[..i]);
       match Find(held, games[i].proxy)
       case Some(j) => games[i] == held[j].1
       case None => replies(i).game.Some? && games[i].l2BlockNumber == replies(i).game.value.l2BlockNumber && games[i] !in games[..i]
  }

  ghost predicate AllLookedUp(before: GameEntries, size: nat, replies: nat -> Reply, games: seq<DisputeGameData>) {
    forall i: nat :: i < |games| ==> LookedUp(before, size, replies, games, i)
  }

  /** Games that were not in the cache have the data of their replies. */
  ghost predicate AsReplied(before: GameEntries, size: nat, replies: nat -> Reply, games: seq<DisputeGameData>)
    reads games
  {
    forall i: nat :: i < |games| && MissesCache(before, size, games, i) ==>
      replies(i).game.Some? && games[i].status == replies(i).game.value.status && games[i].resolvedAt == replies(i).game.value.resolvedAt
  }

  /** Those games are new objects; all others are new as well, or the cache's own. */
  twostate predicate NewOrCached(before: GameEntries, size: nat, new games: seq<DisputeGameData>) {
    forall i: nat :: i < |games| ==> fresh(games[i]) || (!MissesCache(before, size, games, i) && games[i] in Games(before))
  }

  lemma {:induction false} LookupsAppend(before: GameEntries, size: nat, replies: nat -> Reply, games: seq<DisputeGameData>, g: DisputeGameData)
    requires AllLookedUp(before, size, replies, games) && LookedUp(before, size, replies, games + [g], |games|)
    ensures AllLookedUp(before, size, replies, games + [g])
    ensures forall i: nat :: i < |games| ==> MissesCache(before, size, games + [g], i) == MissesCache(before, size, games, i)
  {
    hide CacheAfter;
    var more := games + [g];
    forall i: nat | i < |games|
      ensures LookedUp(before, size, replies, more, i) && MissesCache(before, size, more, i) == MissesCache(before, size, games, i)
    {
      assert more[..i] == games[..i] && more[i] == games[i];
      assert LookedUp(before, size, replies, games, i);
    }
  }

  lemma {:induction false} AsRepliedAppend(before: GameEntries, size: nat, replies: nat -> Reply, games: seq<DisputeGameData>, g: DisputeGameData)
    requires AllLookedUp(before, size, replies, games) && LookedUp(before, size, replies, games + [g], |games|)
    requires AsReplied(before, size, replies, games)
    requires Find(CacheAfter(before, size, games), g.proxy).None? ==>
               replies(|games|).game.Some? && g.status == replies(|games|).game.value.status && g.resolvedAt == replies(|games|).game.value.resolvedAt
    ensures AsReplied(before, size, replies, games + [g])
  {
    hide CacheAfter, AllLookedUp, LookedUp, MissesCache;
    LookupsAppend(before, size, replies, games, g);
    NewAppend(before, size, games, g);
  }

  lemma {:induction false} CacheAppend(before: GameEntries, size: nat, games: seq<DisputeGameData>, g: DisputeGameData)
    ensures var held := CacheAfter(before, size, games);
            CacheAfter(before, size, games + [g]) == if Find(held, g.proxy).Some? then AfterGet(held, g.proxy) else AfterAdd(held, size, g.proxy, g)
  {
    assert (games + [g])[..|games|] == games;
  }

  /** Lookups of one address give one shared object for as long as the cache holds it. */
  lemma {:induction false} SharedWhileHeld(before: GameEntries, size: nat, replies: nat -> Reply, games: seq<DisputeGameData>, j: nat, i: nat)
    requires AllLookedUp(before, size, replies, games) && j < i < |games| && games[i].proxy == games[j].proxy
    requires var held := CacheAfter(before, size, games[..i]); DistinctKeys(held) && OwnAddresses(held) && games[j] in Games(held)
    ensures games[i] == games[j]
  {
    hide CacheAfter, Find;
    assert LookedUp(before, size, replies, games, i);
    var held := CacheAfter(before, size, games[..i]);
    var n :| 0 <= n < |held| && held[n].1 == games[j];
    assert held[n].0 == games[i].proxy;
  }

  /** The event carries the proof of this log, and the game looked up for it. */
  ghost predicate Carries(e: EnrichedEvent, log: ProvenLog, game: DisputeGameData) {
    && e.txHash == log.txHash && e.withdrawalHash == log.withdrawalHash && e.proofSubmitter == log.proofSubmitter
    && e.game == game
  }

  /** The map holds, for each transaction, an event that carries its last log and that log's game. */
  ghost predicate HoldsLast(m: Events, logs: seq<ProvenLog>, games: seq<DisputeGameData>) {
    && |games| == |logs| && m.Keys == LastOfEach(logs).Keys
    && forall k :: k in m ==> Carries(m[k], logs[LastOfEach(logs)[k]], games[LastOfEach(logs)[k]])
  }

  lemma {:induction false} HoldsNothing()
    ensures HoldsLast(map[], [], [])
  {
  }

  lemma {:induction false} HoldsLastStep(m: Events, logs: seq<ProvenLog>, games: seq<DisputeGameData>,
                                         log: ProvenLog, game: DisputeGameData, e: EnrichedEvent)
    requires HoldsLast(m, logs, games) && Carries(e, log, game)
    ensures HoldsLast(m[log.txHash := e], logs + [log], games + [game])
  {
    assert (logs + [log])[..|logs|] == logs;
  }

  lemma {:induction false} HoldsOwnKeys(m: Events, logs: seq<ProvenLog>, games: seq<DisputeGameData>)
    requires HoldsLast(m, logs, games)
    ensures OwnKeys(m) && m.Keys == LastOfEach(logs).Keys && forall g :: g in GamesOf(m) ==> g in games
  {
    forall k | k in m ensures m[k].txHash == k && m[k].game in games {
      assert Carries(m[k], logs[LastOfEach(logs)[k]], games[LastOfEach(logs)[k]]);
    }
  }

  /** The events are new, and nothing has been found out about them. */
  twostate predicate NothingKnown(new m: Events)
    reads m.Values
  {
    forall k :: k in m ==> fresh(m[k]) && m[k].Found() == NOTHING_FOUND
  }

  predicate Complete(reply: Reply) { reply.proxy.Some? && reply.game.Some? }

  lemma {:induction false} NothingLookedUp(before: GameEntries, size: nat, replies: nat -> Reply)
    ensures CacheAfter(before, size, []) == before && AllLookedUp(before, size, replies, []) && AsReplied(before, size, replies, [])
  {
  }

  /** Whether the newest of the games was not in the cache. */
  lemma {:induction false} NewAppend(before: GameEntries, size: nat, games: seq<DisputeGameData>, g: DisputeGameData)
    ensures MissesCache(before, size, games + [g], |games|) == Find(CacheAfter(before, size, games), g.proxy).None?
  {
    assert (games + [g])[..|games|] == games;
  }

  /** One log's event, before anything is known about it, with the game its proof was made against. */
  method GetEnrichedWithdrawalEvent(cache: GameCache, log: ProvenLog, reply: Reply,
                                    ghost before: GameEntries, ghost replies: nat -> Reply, ghost games: seq<DisputeGameData>)
    returns (event: Option<EnrichedEvent>)
    requires cache.Valid() && OwnAddresses(cache.entries) && reply == replies(|games|)
    requires cache.entries == CacheAfter(before, cache.size, games)
    modifies cache
    ensures cache.Valid() && OwnAddresses(cache.entries)
    ensures event.None? ==> !Complete(reply) && cache.entries == old(cache.entries)
    ensures event.Some? ==> fresh(event.value) && event.value.Found() == NOTHING_FOUND && Carries(event.value, log, event.value.game)
    ensures event.Some? ==> cache.entries == CacheAfter(before, cache.size, games + [event.value.game])
    ensures event.Some? ==> LookedUp(before, cache.size, replies, games + [event.value.game], |games|)
    ensures event.Some? ==>
              var g := event.value.game;
              if Find(old(cache.entries), g.proxy).None?
              then fresh(g) && reply.game.Some? && g.status == reply.game.value.status && g.resolvedAt == reply.game.value.resolvedAt
              else g in old(Games(cache.entries))
    ensures Games(cache.entries) <= old(Games(cache.entries)) + if event.Some? then {event.value.game} else {}
  {
    hide AfterAdd, AfterGet, CacheAfter, OwnAddresses, DistinctKeys, Find;
    if reply.proxy.None? {
      return None;
    }
    var game := GetDisputeGameProxyFromAddress(cache, reply.proxy.value, reply.game);
    if game.None? {
      return None;
    }
    var e := new EnrichedEvent(log.txHash, log.withdrawalHash, log.proofSubmitter, game.value);
    event := Some(e);
    CacheAppend(before, cache.size, games, game.value);
    assert (games + [game.value])[..|games|] == games;
  }

  /**
   Events by transaction hash: a later log of the same transaction replaces the earlier ones. The
   iterator's error is not asked for, so a log that does not unpack silently ends the loop. Nothing is
   known about the events yet; their games are looked up, and shared, through the cache.
  */
  method GetEnrichedWithdrawalsEventsMap(cache: GameCache, logs: Option<seq<RawLog>>, replies: nat -> Reply)
    returns (events: Option<EventMap>, ghost games: seq<DisputeGameData>)
    requires cache.Valid() && OwnAddresses(cache.entries)
    modifies cache
    ensures cache.Valid() && OwnAddresses(cache.entries)
    ensures cache.entries == CacheAfter(old(cache.entries), cache.size, games)
    ensures AllLookedUp(old(cache.entries), cache.size, replies, games) && AsReplied(old(cache.entries), cache.size, replies, games)
    ensures NewOrCached(old(cache.entries), cache.size, games)
    ensures events.Some? ==> logs.Some? && fresh(events.value) && HoldsLast(events.value.m, Readable(logs.value), games)
    ensures events.Some? ==> NothingKnown(events.value.m)
    ensures logs.Some? && (forall i: nat :: i < |Readable(logs.value)| ==> Complete(replies(i))) ==> events.Some?
    ensures forall g :: g in Games(cache.entries) ==> g in old(Games(cache.entries)) || fresh(g)
  {
    hide HoldsLast, OwnAddresses, AfterAdd, AfterGet, Games, Readable, LastOfEach, DistinctKeys, Find, CacheAfter, AllLookedUp, AsReplied, MissesCache;
    ghost var before := cache.entries;
    games := [];
    NothingLookedUp(before, cache.size, replies);
    if logs.None? {
      return None, games;
    }
    HoldsNothing();
    var all := logs.value;
    ghost var read := Readable(all);
    var result := new EventMap();
    var i := 0;
    while i < |all| && all[i].decodes
      invariant i == |games| <= |read| && cache.Valid() && OwnAddresses(cache.entries) && fresh(result)
      invariant HoldsLast(result.m, read[..i], games) && NothingKnown(result.m)
      invariant cache.entries == CacheAfter(before, cache.size, games)
      invariant AllLookedUp(before, cache.size, replies, games) && AsReplied(before, cache.size, replies, games)
      invariant NewOrCached(before, cache.size, games)
      invariant forall g :: g in Games(cache.entries) ==> g in old(Games(cache.entries)) || fresh(g)
    {
      ghost var size := cache.size;
      assert !Complete(replies(i)) ==> exists j: nat :: j < |read| && !Complete(replies(j));
      var e := GetEnrichedWithdrawalEvent(cache, all[i].log, replies(i), before, replies, games);
      if e.None? {
        return None, games;
      }
      ghost var game := e.value.game;
      assert NothingKnown(result.m) && AsReplied(before, size, replies, games);
      HoldsLastStep(result.m, read[..i], games, all[i].log, game, e.value);
      LookupsAppend(before, size, replies, games, game);
      AsRepliedAppend(before, size, replies, games, game);
      assert read[..i + 1] == read[..i] + [all[i].log];
      NewAppend(before, size, games, game);
      result.m := result.m[all[i].log.txHash := e.value];
      games := games + [game];
      i := i + 1;
    }
    assert read[..|read|] == read;
    events := Some(result);
  }
}
