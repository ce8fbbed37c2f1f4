/** A least-recently-used cache, and the metrics sweep over it (op-monitorism/faultproof_withdrawals/state.go). */
module LruCaches {
  import opened Basics

  /** Entries from the oldest to the newest; keys are distinct. */
  type Entries<K, V> = seq<(K, V)>

  function Find<K(==), V>(entries: Entries<K, V>, key: K): (r: Option<nat>)
    ensures r.Some? ==> r.value < |entries| && entries[r.value].0 == key
    ensures r.Some? ==> forall j :: 0 <= j < r.value ==> entries[j].0 != key
    ensures r.None? ==> forall j :: 0 <= j < |entries| ==> entries[j].0 != key
  {
    if entries == [] then None
    else if entries[0].0 == key then Some(0)
    else match Find(entries[1..], key)
      case None => None
      case Some(i) => Some(i + 1)
  }

  predicate DistinctKeys<K(==), V>(entries: Entries<K, V>) {
    forall i, j :: 0 <= i < j < |entries| ==> entries[i].0 != entries[j].0
  }

  /** The i-th entry becomes the newest, with the given value. */
  function Renewed<K, V>(entries: Entries<K, V>, i: nat, value: V): (r: Entries<K, V>)
    requires i < |entries|
    ensures |r| == |entries|
  {
    entries[..i] + entries[i + 1..] + [(entries[i].0, value)]
  }

  function AfterGet<K(==), V>(entries: Entries<K, V>, key: K): Entries<K, V> {
    match Find(entries, key)
    case None => entries
    case Some(i) => Renewed(entries, i, entries[i].1)
  }

  function AfterAdd<K(==), V>(entries: Entries<K, V>, size: nat, key: K, value: V): Entries<K, V> {
    match Find(entries, key)
    case Some(i) => Renewed(entries, i, value)
    case None =>
      var all := entries + [(key, value)];
      if |all| > size then all[1..] else all
  }

  /** The keys, oldest to newest. */
  function KeysOf<K, V>(entries: Entries<K, V>): (r: seq<K>)
    ensures |r| == |entries|
  {
    seq(|entries|, i requires 0 <= i < |entries| => entries[i].0)
  }

  class LruCache<K(==), V> {
    const size: nat
    var entries: Entries<K, V>

    constructor (size: nat)
      requires size > 0
      ensures this.size == size && entries == []
    {
      this.size, entries := size, [];
    }

    ghost predicate Valid()
      reads this
    {
      0 < size && |entries| <= size && DistinctKeys(entries)
    }

    method Add(key: K, value: V)
      requires Valid()
      modifies this
      ensures Valid() && entries == AfterAdd(old(entries), size, key, value)
    {
      var found := Find(entries, key);
      if found.Some? {
        var i := found.value;
        entries := entries[..i] + entries[i + 1..] + [(key, value)];
      } else {
        entries := entries + [(key, value)];
        if |entries| > size {
          entries := entries[1..];
        }
      }
    }

    method Get(key: K) returns (value: Option<V>)
      requires Valid()
      modifies this
      ensures Valid() && entries == AfterGet(old(entries), key)
      ensures match Find(old(entries), key) { case None => value == None case Some(i) => value == Some(old(entries)[i].1) }
    {
      var found := Find(entries, key);
      if found.None? {
        return None;
      }
      var i := found.value;
      value := Some(entries[i].1);
      entries := entries[..i] + entries[i + 1..] + [entries[i]];
    }

    function Keys(): (r: seq<K>)
      reads this
      ensures |r| == |entries|
    {
      KeysOf(entries)
    }

    /**
     The metrics sweep: a Get on each of the keys, oldest to newest. It yields every entry once,
     oldest first, and leaves contents and eviction order as they were.
    */
    method Sweep() returns (rows: seq<(K, V)>)
      requires Valid()
      modifies this
      ensures Valid() && entries == old(entries) && rows == entries
    {
      ghost var before := entries;
      var keys := Keys();
      rows := [];
      for i := 0 to |keys|
        invariant Valid() && before == old(entries) && |keys| == |before|
        invariant forall j :: 0 <= j < |keys| ==> keys[j] == before[j].0
        invariant entries == before[i..] + before[..i] && rows == before[..i]
      {
        RotateOne(before, i);
        var value := Get(keys[i]);
        if value.Some? {
          rows := rows + [(keys[i], value.value)];
        }
      }
    }
  }

  /** A Get on the oldest entry of a rotated cache rotates it by one more. */
  lemma {:induction false} RotateOne<K, V>(entries: Entries<K, V>, i: nat)
    requires DistinctKeys(entries) && i < |entries|
    ensures var now := entries[i..] + entries[..i];
            Find(now, entries[i].0) == Some(0) && AfterGet(now, entries[i].0) == entries[i + 1..] + entries[..i + 1]
  {
    var now := entries[i..] + entries[..i];
    assert now[0] == entries[i];
    assert entries[..i + 1] == entries[..i] + [entries[i]];
    assert now[1..] == entries[i + 1..] + entries[..i];
  }

  /** All keys read once, in the order given. */
  function AfterGets<K(==), V>(entries: Entries<K, V>, keys: seq<K>): Entries<K, V>
    decreases |keys|
  {
    if keys == [] then entries else AfterGets(AfterGet(entries, keys[0]), keys[1..])
  }

  /** Publishing metrics never changes which entry is evicted next, however the cache is used afterwards. */
  lemma {:induction false} SweepIsInvisible<K, V>(entries: Entries<K, V>)
    requires DistinctKeys(entries)
    ensures AfterGets(entries, KeysOf(entries)) == entries
  {
    SweepFrom(entries, 0);
    assert entries[0..] + entries[..0] == entries;
    assert KeysOf(entries)[0..] == KeysOf(entries);
  }

  lemma {:induction false} SweepFrom<K, V>(entries: Entries<K, V>, i: nat)
    requires DistinctKeys(entries) && i <= |entries|
    ensures AfterGets(entries[i..] + entries[..i], KeysOf(entries)[i..]) == entries
    decreases |entries| - i
  {
    if i < |entries| {
      RotateOne(entries, i);
      SweepFrom(entries, i + 1);
      assert KeysOf(entries)[i..][1..] == KeysOf(entries)[i + 1..];
    }
  }

  // ---- What a cache holds, without reference to how it is kept ------------------------------------

  /** The cache after all of these were added. */
  function AfterAdds<K(==), V>(entries: Entries<K, V>, size: nat, adds: seq<(K, V)>): Entries<K, V> {
    if adds == [] then entries
    else AfterAdd(AfterAdds(entries, size, adds[..|adds| - 1]), size, adds[|adds| - 1].0, adds[|adds| - 1].1)
  }

  /** The i-th addition is the last of its key. */
  ghost predicate IsLatest<K(!new), V(!new)>(adds: seq<(K, V)>, i: nat) {
    i < |adds| && forall j :: i < j < |adds| ==> adds[j].0 != adds[i].0
  }

  /** The entries are the additions at these positions, in order, each the last of its key. */
  ghost predicate StandFor<K(!new), V(!new)>(entries: Entries<K, V>, adds: seq<(K, V)>, positions: seq<nat>) {
    && |entries| == |positions|
    && (forall p :: 0 <= p < |positions| ==> IsLatest(adds, positions[p]) && entries[p] == adds[positions[p]])
    && (forall p, q :: 0 <= p < q < |positions| ==> positions[p] < positions[q])
  }

  /** A key's last addition is missing only if the cache is full and all of the entries are newer. */
  ghost predicate OldestMissing<K(!new), V(!new)>(size: nat, adds: seq<(K, V)>, positions: seq<nat>) {
    forall i :: IsLatest(adds, i) && i !in positions ==> |positions| == size && forall p :: 0 <= p < |positions| ==> i < positions[p]
  }

  ghost predicate Shows<K(!new), V(!new)>(entries: Entries<K, V>, size: nat, adds: seq<(K, V)>, positions: seq<nat>) {
    |entries| <= size && StandFor(entries, adds, positions) && OldestMissing(size, adds, positions)
  }

  lemma {:induction false} LatestGrows<K(!new), V(!new)>(adds: seq<(K, V)>, add: (K, V))
    ensures forall i: nat :: IsLatest(adds + [add], i) <==> i == |adds| || (IsLatest(adds, i) && adds[i].0 != add.0)
  {
    var more := adds + [add];
    assert more[|adds|] == add && forall j :: 0 <= j < |adds| ==> more[j] == adds[j];
    forall i: nat ensures IsLatest(more, i) <==> i == |adds| || (IsLatest(adds, i) && adds[i].0 != add.0) {
      if IsLatest(more, i) && i < |adds| {
        assert forall j :: i < j < |adds| ==> more[j].0 != more[i].0;
      }
    }
  }

  lemma {:induction false} RenewShows<K(!new), V(!new)>(entries: Entries<K, V>, size: nat, adds: seq<(K, V)>, positions: seq<nat>, i: nat, add: (K, V))
    requires Shows(entries, size, adds, positions) && i < |entries| && entries[i].0 == add.0
    ensures Shows(Renewed(entries, i, add.1), size, adds + [add], positions[..i] + positions[i + 1..] + [|adds|])
  {
    hide IsLatest;
    var renewed, now := Renewed(entries, i, add.1), positions[..i] + positions[i + 1..] + [|adds|];
    LatestGrows(adds, add);
    forall p | 0 <= p < |now| ensures now[p] <= |adds| && IsLatest(adds + [add], now[p]) && renewed[p] == (adds + [add])[now[p]] {
      if p < |now| - 1 {
        var q := if p < i then p else p + 1;
        assert now[p] == positions[q] && renewed[p] == entries[q];
        OtherKey(entries, size, adds, positions, q, i);
      }
    }
    forall n: nat | IsLatest(adds + [add], n) && n !in now ensures |renewed| == size && forall p :: 0 <= p < |now| ==> n < now[p] {
      assert n != |adds| by { assert now[|now| - 1] == |adds|; }
      StillMissing(positions, i, |adds|, n);
      InAdds(adds, n);
    }
    NowAscends(entries, size, adds, positions, i);
  }

  lemma {:induction false} InAdds<K(!new), V(!new)>(adds: seq<(K, V)>, n: nat)
    ensures IsLatest(adds, n) ==> n < |adds|
  {
  }

  lemma {:induction false} OtherKey<K(!new), V(!new)>(entries: Entries<K, V>, size: nat, adds: seq<(K, V)>, positions: seq<nat>, p: nat, q: nat)
    requires Shows(entries, size, adds, positions) && p < |entries| && q < |entries| && p != q
    ensures entries[p].0 != entries[q].0 && positions[p] < |adds|
  {
  }

  lemma {:induction false} StillMissing(positions: seq<nat>, i: nat, last: nat, n: nat)
    requires i < |positions| && n !in positions[..i] + positions[i + 1..] + [last]
    ensures n !in positions || n == positions[i]
  {
    var now := positions[..i] + positions[i + 1..] + [last];
    forall p | 0 <= p < |positions| && p != i ensures positions[p] in now {
      assert now[if p < i then p else p - 1] == positions[p];
    }
  }

  lemma {:induction false} NowAscends<K(!new), V(!new)>(entries: Entries<K, V>, size: nat, adds: seq<(K, V)>, positions: seq<nat>, i: nat)
    requires Shows(entries, size, adds, positions) && i < |entries|
    ensures var now := positions[..i] + positions[i + 1..] + [|adds|]; forall p, q :: 0 <= p < q < |now| ==> now[p] < now[q]
  {
    forall p | 0 <= p < |positions| ensures positions[p] < |adds| {
      InAdds(adds, positions[p]);
    }
  }

  lemma {:induction false} AppendStands<K(!new), V(!new)>(entries: Entries<K, V>, adds: seq<(K, V)>, positions: seq<nat>, add: (K, V))
    requires StandFor(entries, adds, positions) && forall p :: 0 <= p < |entries| ==> entries[p].0 != add.0
    ensures StandFor(entries + [add], adds + [add], positions + [|adds|])
  {
    hide IsLatest;
    LatestGrows(adds, add);
    var all := positions + [|adds|];
    forall p | 0 <= p < |all| ensures all[p] <= |adds| && IsLatest(adds + [add], all[p]) && (entries + [add])[p] == (adds + [add])[all[p]] {
      if p < |positions| {
        InAdds(adds, positions[p]);
      }
    }
    forall p | 0 <= p < |positions| ensures positions[p] < |adds| {
      InAdds(adds, positions[p]);
    }
  }

  lemma {:induction false} TailStands<K(!new), V(!new)>(entries: Entries<K, V>, adds: seq<(K, V)>, positions: seq<nat>)
    requires StandFor(entries, adds, positions) && entries != []
    ensures StandFor(entries[1..], adds, positions[1..])
  {
    hide IsLatest;
    assert forall p :: 0 <= p < |positions| - 1 ==> positions[1..][p] == positions[p + 1] && entries[1..][p] == entries[p + 1];
  }

  lemma {:induction false} AppendShows<K(!new), V(!new)>(entries: Entries<K, V>, size: nat, adds: seq<(K, V)>, positions: seq<nat>, add: (K, V))
    returns (now: seq<nat>)
    requires size > 0 && Shows(entries, size, adds, positions) && forall p :: 0 <= p < |entries| ==> entries[p].0 != add.0
    ensures Shows(var all := entries + [add]; if |all| > size then all[1..] else all, size, adds + [add], now)
  {
    hide IsLatest, StandFor;
    var all := positions + [|adds|];
    SameLength(entries, adds, positions);
    AppendStands(entries, adds, positions, add);
    TailStands(entries + [add], adds + [add], all);
    now := if |all| > size then all[1..] else all;
    AppendMissing(entries, size, adds, positions, add);
  }

  lemma {:induction false} SameLength<K(!new), V(!new)>(entries: Entries<K, V>, adds: seq<(K, V)>, positions: seq<nat>)
    requires StandFor(entries, adds, positions)
    ensures |entries| == |positions| && forall p :: 0 <= p < |positions| ==> positions[0] <= positions[p] < |adds|
  {
  }

  lemma {:induction false} AppendMissing<K(!new), V(!new)>(entries: Entries<K, V>, size: nat, adds: seq<(K, V)>, positions: seq<nat>, add: (K, V))
    requires size > 0 && Shows(entries, size, adds, positions)
    ensures var all := positions + [|adds|]; OldestMissing(size, adds + [add], if |all| > size then all[1..] else all)
  {
    hide IsLatest;
    var all := positions + [|adds|];
    var now := if |all| > size then all[1..] else all;
    LatestGrows(adds, add);
    SameLength(entries, adds, positions);
    forall n: nat | IsLatest(adds + [add], n) && n !in now ensures |now| == size && forall p :: 0 <= p < |now| ==> n < now[p] {
      InAdds(adds, n);
      assert now[|now| - 1] == |adds|;
      OnlyFirstLeft(positions, |adds|, n);
    }
  }

  lemma {:induction false} OnlyFirstLeft(positions: seq<nat>, last: nat, n: nat)
    ensures n !in positions + [last] ==> n !in positions
    ensures n !in (positions + [last])[1..] ==> n !in positions || n == positions[0]
  {
    var all := positions + [last];
    forall p | 0 <= p < |positions| ensures positions[p] in all && (p > 0 ==> positions[p] in all[1..]) {
      assert all[p] == positions[p] && (p > 0 ==> all[1..][p - 1] == positions[p]);
    }
  }

  /** After any additions the cache holds the values last added for the most recently added keys, in order. */
  lemma {:induction false} CacheHoldsLatest<K(!new), V(!new)>(size: nat, adds: seq<(K, V)>) returns (positions: seq<nat>)
    requires size > 0
    ensures Shows(AfterAdds([], size, adds), size, adds, positions)
  {
    hide Find, IsLatest;
    if adds == [] {
      positions := [];
      NothingShown<K, V>(size);
    } else {
      var before, add := adds[..|adds| - 1], adds[|adds| - 1];
      var entries := AfterAdds([], size, before);
      positions := CacheHoldsLatest(size, before);
      assert adds == before + [add];
      match Find(entries, add.0) {
        case Some(i) =>
          RenewShows(entries, size, before, positions, i, add);
          positions := positions[..i] + positions[i + 1..] + [|before|];
        case None =>
          positions := AppendShows(entries, size, before, positions, add);
      }
    }
  }

  lemma {:induction false} NothingShown<K(!new), V(!new)>(size: nat)
    ensures Shows<K, V>([], size, [], [])
  {
  }

  /** Reading a held key counts like adding its value again. */
  lemma {:induction false} GetIsAdd<K, V>(entries: Entries<K, V>, size: nat, key: K)
    ensures match Find(entries, key)
            case None => AfterGet(entries, key) == entries
            case Some(i) => AfterGet(entries, key) == AfterAdd(entries, size, key, entries[i].1)
  {
  }
}
