/** The observe-only learner: per-packet hit statistics and the eviction of one low-worth
    candidate from the older half. */
module Learning {
  import opened Bytes
  import opened Numbers
  import opened Splitter
  import opened Sorting
  import opened Sums

  const TWO64: int := 0x1_0000_0000_0000_0000
  const DICTIONARY_MAX_BYTES: nat := 0x10_0000
  const CANDIDATE_OVERHEAD: nat := 32

  datatype PatternKey = PatternKey(hash: nat)

  // Stands for makePatternKey; nothing is assumed about it.
  type KeyFn = (bytes, bytes) -> PatternKey

  /** The values of one candidate's statistics. */
  datatype StatVal = StatVal(hits: u32, size: u32, first: nat, last: nat)

  type StatMap = map<PatternKey, StatVal>

  // ---- observing, on values ----

  /** One observation: a first sight creates the entry; a packet counts once per key. */
  function ObserveOne(m: StatMap, seen: set<PatternKey>, key: PatternKey, size: u32, packet: nat): StatMap {
    var v := if key in m then m[key] else StatVal(0, size, packet, packet);
    m[key := if key in seen then v else StatVal((v.hits + 1) % TWO32, v.size, v.first, packet)]
  }

  function ObserveAll(keyOf: KeyFn, m: StatMap, seen: set<PatternKey>, obs: seq<SpanObservation>, packet: nat): StatMap
    decreases |obs|
  {
    if obs == [] then m
    else
      var key := keyOf(obs[0].constA, obs[0].constB);
      ObserveAll(keyOf, ObserveOne(m, seen, key, obs[0].spanSize, packet), seen + {key}, obs[1..], packet)
  }

  /** First seen, then last seen, then now; never more hits than packets since the first.
      A live counter is nonzero until 2^32 packets have passed, when it may wrap. */
  predicate StatOk(v: StatVal, now: nat) {
    1 <= v.first <= v.last <= now && v.hits <= v.last - v.first + 1 && (now < TWO32 ==> v.hits >= 1)
  }

  predicate StatsOk(m: StatMap, now: nat) {
    forall k <- m :: StatOk(m[k], now)
  }

  /** Partway through a packet: only keys seen in it carry its id. */
  predicate MidPacket(m: StatMap, seen: set<PatternKey>, packet: nat) {
    seen <= m.Keys && forall k <- m :: StatOk(m[k], packet) && (k in seen || m[k].last < packet)
  }

  lemma ObserveOneKeeps(m: StatMap, seen: set<PatternKey>, key: PatternKey, size: u32, packet: nat)
    requires MidPacket(m, seen, packet) && packet >= 1
    ensures MidPacket(ObserveOne(m, seen, key, size, packet), seen + {key}, packet)
  {
    var m1 := ObserveOne(m, seen, key, size, packet);
    forall k | k in m1
      ensures StatOk(m1[k], packet) && (k in seen + {key} || m1[k].last < packet)
    {
      if k != key {
        assert m1[k] == m[k];
      }
    }
  }

  lemma {:induction false} ObserveKeepsStats(
    keyOf: KeyFn, m: StatMap, seen: set<PatternKey>, obs: seq<SpanObservation>, packet: nat)
    requires MidPacket(m, seen, packet) && packet >= 1
    ensures StatsOk(ObserveAll(keyOf, m, seen, obs, packet), packet)
    decreases |obs|
  {
    if obs != [] {
      var key := keyOf(obs[0].constA, obs[0].constB);
      ObserveOneKeeps(m, seen, key, obs[0].spanSize, packet);
      hide ObserveOne, MidPacket;
      ObserveKeepsStats(
        keyOf, ObserveOne(m, seen, key, obs[0].spanSize, packet), seen + {key}, obs[1..], packet);
    }
  }

  /** With increasing packet ids the statistics stay sound after every packet, whatever is
      observed and whatever is evicted. */
  lemma PacketKeepsStats(
    keyOf: KeyFn, m: StatMap, obs: seq<SpanObservation>, last: nat, packet: nat, gone: set<PatternKey>)
    requires StatsOk(m, last) && last < packet
    ensures StatsOk(ObserveAll(keyOf, m, {}, obs, packet) - gone, packet)
  {
    forall k | k in m
      ensures StatOk(m[k], packet) && m[k].last < packet
    {
      assert StatOk(m[k], last);
    }
    ObserveKeepsStats(keyOf, m, {}, obs, packet);
    hide StatOk, ObserveAll;
  }

  /** A packet with nothing to observe changes nothing. */
  lemma TimePasses(m: StatMap, last: nat, packet: nat)
    requires StatsOk(m, last) && last <= packet
    ensures StatsOk(m, packet)
  {
    forall k | k in m
      ensures StatOk(m[k], packet)
    {
      assert StatOk(m[k], last);
    }
  }

  /** The keys a packet shows. */
  function KeysIn(keyOf: KeyFn, obs: seq<SpanObservation>): set<PatternKey> {
    set o | o in obs :: keyOf(o.constA, o.constB)
  }

  /** The span size of the first observation with this key. */
  function FirstSize(keyOf: KeyFn, obs: seq<SpanObservation>, key: PatternKey): u32
    requires key in KeysIn(keyOf, obs)
  {
    if keyOf(obs[0].constA, obs[0].constB) == key then obs[0].spanSize else FirstSize(keyOf, obs[1..], key)
  }

  /** What one packet makes of one key's statistics: one hit, however often it shows. */
  predicate CountedOnce(
    keyOf: KeyFn, before: StatMap, obs: seq<SpanObservation>, packet: nat, k: PatternKey, after: StatMap)
    requires k in KeysIn(keyOf, obs)
  {
    && k in after
    && after[k] ==
         if k in before then StatVal((before[k].hits + 1) % TWO32, before[k].size, before[k].first, packet)
         else StatVal(1, FirstSize(keyOf, obs, k), packet, packet)
  }

  lemma KeysInStep(keyOf: KeyFn, obs: seq<SpanObservation>)
    requires obs != []
    ensures KeysIn(keyOf, obs) == {keyOf(obs[0].constA, obs[0].constB)} + KeysIn(keyOf, obs[1..])
  {
    assert forall o :: o in obs <==> o == obs[0] || o in obs[1..];
  }

  /** Partway through a packet: keys already seen stay as they are, every other key shown is
      counted once, and keys not shown do not change. */
  lemma {:induction false} ObserveRest(
    keyOf: KeyFn, m: StatMap, seen: set<PatternKey>, obs: seq<SpanObservation>, packet: nat)
    requires seen <= m.Keys
    ensures var after := ObserveAll(keyOf, m, seen, obs, packet);
            && after.Keys == m.Keys + KeysIn(keyOf, obs)
            && (forall k :: k in m && (k in seen || k !in KeysIn(keyOf, obs)) ==> after[k] == m[k])
            && (forall k :: k in KeysIn(keyOf, obs) && k !in seen ==> CountedOnce(keyOf, m, obs, packet, k, after))
    decreases |obs|
  {
    hide ObserveOne, CountedOnce, KeysIn;
    if obs == [] {
      assert KeysIn(keyOf, obs) == {} by {
        NoKeys(keyOf);
      }
    } else {
      var key, rest := keyOf(obs[0].constA, obs[0].constB), obs[1..];
      var m1 := ObserveOne(m, seen, key, obs[0].spanSize, packet);
      KeysInStep(keyOf, obs);
      ObserveOneAt(m, seen, key, obs[0].spanSize, packet);
      ObserveRest(keyOf, m1, seen + {key}, rest, packet);
      var after := ObserveAll(keyOf, m, seen, obs, packet);
      hide ObserveAll;
      forall k | k in KeysIn(keyOf, obs) && k !in seen
        ensures CountedOnce(keyOf, m, obs, packet, k, after)
      {
        if k == key {
          assert after[k] == m1[k];
          CountedFirst(keyOf, m, obs, packet, after);
        } else {
          CountedLater(keyOf, m, m1, obs, packet, k, after);
        }
      }
    }
  }

  lemma NoKeys(keyOf: KeyFn)
    ensures KeysIn(keyOf, []) == {}
  {}

  lemma ObserveOneAt(m: StatMap, seen: set<PatternKey>, key: PatternKey, size: u32, packet: nat)
    requires seen <= m.Keys
    ensures var after := ObserveOne(m, seen, key, size, packet);
            && after.Keys == m.Keys + {key} && (forall k :: k in m && (k != key || k in seen) ==> after[k] == m[k])
            && (key !in seen ==>
                  after[key] == (if key in m then StatVal((m[key].hits + 1) % TWO32, m[key].size, m[key].first, packet)
                                 else StatVal(1, size, packet, packet)))
  {}

  lemma CountedFirst(keyOf: KeyFn, m: StatMap, obs: seq<SpanObservation>, packet: nat, after: StatMap)
    requires obs != []
    requires var key := keyOf(obs[0].constA, obs[0].constB);
             && key in KeysIn(keyOf, obs) && key in after
             && after[key] == if key in m then StatVal((m[key].hits + 1) % TWO32, m[key].size, m[key].first, packet)
                              else StatVal(1, obs[0].spanSize, packet, packet)
    ensures CountedOnce(keyOf, m, obs, packet, keyOf(obs[0].constA, obs[0].constB), after)
  {}

  lemma CountedLater(
    keyOf: KeyFn, m: StatMap, m1: StatMap, obs: seq<SpanObservation>, packet: nat, k: PatternKey, after: StatMap)
    requires obs != [] && k != keyOf(obs[0].constA, obs[0].constB)
    requires k in KeysIn(keyOf, obs) && k in KeysIn(keyOf, obs[1..])
    requires (k in m <==> k in m1) && (k in m ==> m1[k] == m[k])
    requires CountedOnce(keyOf, m1, obs[1..], packet, k, after)
    ensures CountedOnce(keyOf, m, obs, packet, k, after)
  {}

  /** A packet counts every key it shows exactly once and touches no other key. */
  lemma PacketCountsOnce(keyOf: KeyFn, m: StatMap, obs: seq<SpanObservation>, packet: nat)
    ensures var after := ObserveAll(keyOf, m, {}, obs, packet);
            && after.Keys == m.Keys + KeysIn(keyOf, obs)
            && (forall k :: k in m && k !in KeysIn(keyOf, obs) ==> after[k] == m[k])
            && (forall k :: k in KeysIn(keyOf, obs) ==> CountedOnce(keyOf, m, obs, packet, k, after))
  {
    ObserveRest(keyOf, m, {}, obs, packet);
  }

  // ---- what the counters say, over runs ----

  /** One packet of a run: what it shows, and what is evicted after it. */
  datatype Packet = Packet(id: nat, obs: seq<SpanObservation>, gone: set<PatternKey>)

  ghost function LearnRun(keyOf: KeyFn, ps: seq<Packet>): StatMap {
    if ps == [] then map[]
    else
      var p := ps[|ps| - 1];
      ObserveAll(keyOf, LearnRun(keyOf, ps[..|ps| - 1]), {}, p.obs, p.id) - p.gone
  }

  /** How many packets have shown a key since it was last absent. */
  ghost function Shown(keyOf: KeyFn, ps: seq<Packet>, k: PatternKey): nat {
    if ps == [] then 0
    else
      var p := ps[|ps| - 1];
      if k in p.gone then 0
      else Shown(keyOf, ps[..|ps| - 1], k) + if k in KeysIn(keyOf, p.obs) then 1 else 0
  }

  /** Over any run the table holds exactly the keys shown since they were last absent, and each
      counter is the number of packets that showed its key since then, modulo 2^32: it reads
      zero exactly when that number is a multiple of 2^32. */
  lemma {:induction false} RunCounts(keyOf: KeyFn, ps: seq<Packet>, k: PatternKey)
    ensures k in LearnRun(keyOf, ps) <==> Shown(keyOf, ps, k) > 0
    ensures k in LearnRun(keyOf, ps) ==> LearnRun(keyOf, ps)[k].hits == Shown(keyOf, ps, k) % TWO32
  {
    hide ObserveAll, KeysIn;
    if ps != [] {
      var init, p := ps[..|ps| - 1], ps[|ps| - 1];
      RunCounts(keyOf, init, k);
      PacketCountsOnce(keyOf, LearnRun(keyOf, init), p.obs, p.id);
      ModSucc(Shown(keyOf, init, k));
    }
  }

  // ---- worth, age and the victim, on values ----

  /** `Worth`. */
  function Worth(v: StatVal): nat {
    v.hits * v.size
  }

  lemma MulUpTo(x: nat, y: nat, a: nat, b: nat)
    requires x <= a && y <= b
    ensures x * y <= a * b
  {
    assert x * y <= a * y;
    assert a * y <= a * b;
  }

  /** The worth of a span is the bytes it would have saved: hits times size, which never wraps
      in 64 bits. */
  lemma WorthFits(v: StatVal)
    ensures v.hits * v.size < TWO64 && Worth(v) == (v.hits * v.size) % TWO64
  {
    MulUpTo(v.hits, v.size, TWO32 - 1, TWO32 - 1);
  }

  /** Epochs since last seen, on 64 bits. */
  function Age(now: nat, v: StatVal): nat {
    (now - v.last) % TWO64
  }

  /** `safe` is a newest half: floor(n/2) keys, none older than any key outside. */
  ghost predicate NewerHalf(m: StatMap, safe: set<PatternKey>, now: nat) {
    && safe <= m.Keys && |safe| == |m| / 2
    && forall p, e :: p in safe && e in m && e !in safe ==> Age(now, m[p]) <= Age(now, m[e])
  }

  /** `k` lies outside a protected newest half and no key there is worth less. */
  ghost predicate VictimBeside(m: StatMap, k: PatternKey, safe: set<PatternKey>, now: nat) {
    && k in m && k !in safe && NewerHalf(m, safe, now)
    && forall e :: e in m && e !in safe ==> m[k].hits * m[k].size <= m[e].hits * m[e].size
  }

  ghost predicate Victim(m: StatMap, k: PatternKey, now: nat) {
    exists safe :: VictimBeside(m, k, safe, now)
  }

  lemma AgeIs(now: nat, v: StatVal)
    requires v.last <= now < TWO64
    ensures Age(now, v) == now - v.last
  {}

  lemma VictimFound(m: StatMap, k: PatternKey, safe: set<PatternKey>, now: nat)
    requires k in m && k !in safe && NewerHalf(m, safe, now)
    requires forall e :: e in m && e !in safe ==> m[k].hits * m[k].size <= m[e].hits * m[e].size
    ensures Victim(m, k, now)
  {
    hide NewerHalf;
    assert VictimBeside(m, k, safe, now);
  }

  /** Among evictable entries hit equally often the one evicted is no larger than any other, and
      among those of one size it has been hit no more often. */
  lemma VictimIsCheap(m: StatMap, k: PatternKey, safe: set<PatternKey>, now: nat, e: PatternKey)
    requires VictimBeside(m, k, safe, now) && e in m && e !in safe
    ensures m[e].hits == m[k].hits > 0 ==> m[k].size <= m[e].size
    ensures m[e].size == m[k].size > 0 ==> m[k].hits <= m[e].hits
  {
    var x, y := m[k], m[e];
    assert x.hits * x.size <= y.hits * y.size;
    if y.hits == x.hits > 0 && y.size < x.size {
      Larger(x.hits, y.size, x.size);
    }
    if y.size == x.size > 0 && y.hits < x.hits {
      Larger(x.size, y.hits, x.hits);
    }
  }

  lemma Larger(n: nat, x: nat, y: nat)
    requires n > 0 && x < y
    ensures n * x < n * y && x * n < y * n
  {
    assert n * y == n * x + n * (y - x);
    MulUpTo(1, 1, n, y - x);
  }

  /** While nothing was seen in the future, a victim was seen no later than anything in the
      protected half. */
  lemma VictimIsOld(m: StatMap, k: PatternKey, safe: set<PatternKey>, now: nat)
    requires VictimBeside(m, k, safe, now) && StatsOk(m, now) && now < TWO64
    ensures safe <= m.Keys - {k} && |safe| == |m| / 2
    ensures forall p <- safe :: m[k].last <= m[p].last
    ensures forall p, e :: p in safe && e in m && e !in safe ==> m[e].last <= m[p].last
  {
    forall p, e | p in safe && e in m && e !in safe
      ensures m[e].last <= m[p].last
    {
      assert StatOk(m[p], now) && StatOk(m[e], now);
      AgeIs(now, m[p]);
      AgeIs(now, m[e]);
      assert Age(now, m[p]) <= Age(now, m[e]);
    }
    hide Age;
    forall p | p in safe
      ensures m[k].last <= m[p].last
    {
      assert StatOk(m[p], now) && StatOk(m[k], now);
      AgeIs(now, m[p]);
      AgeIs(now, m[k]);
      assert Age(now, m[p]) <= Age(now, m[k]);
    }
  }

  ghost function SizeMap(m: StatMap): map<PatternKey, nat> {
    map k | k in m :: m[k].size + CANDIDATE_OVERHEAD
  }

  /** The approximate size, kept in 32 bits. */
  ghost function TotalSize(m: StatMap): nat {
    Wrap32(Sum(SizeMap(m)))
  }

  /** It is 0 for the empty table, and each entry adds its size and 32 bytes, modulo 2^32. */
  lemma TotalExact(m: StatMap, k: PatternKey, v: StatVal)
    requires k !in m
    ensures TotalSize(map[]) == 0
    ensures TotalSize(m[k := v]) == (TotalSize(m) + v.size + 32) % 0x1_0000_0000
  {
    var size := v.size + CANDIDATE_OVERHEAD;
    assert SizeMap(map[]) == map[];
    assert SizeMap(m[k := v]) == SizeMap(m)[k := size];
    SumAdd(SizeMap(m), k, size);
    hide Sum, SizeMap;
    WrapAdd(Sum(SizeMap(m)), size);
  }

  lemma WrapAdd(x: nat, y: nat)
    ensures Wrap32(x + y) == (Wrap32(x) + y) % 0x1_0000_0000
  {}

  // ---- the objects ----

  class CandidateStats {
    var hits: u32
    var size: u32
    var firstSeenEpoch: nat
    var lastSeenEpoch: nat

    function Val(): StatVal
      reads this
    {
      StatVal(hits, size, firstSeenEpoch, lastSeenEpoch)
    }

    constructor (spanSize: u32, packet: nat)
      ensures Val() == StatVal(0, spanSize, packet, packet)
    {
      hits, size, firstSeenEpoch, lastSeenEpoch := 0, spanSize, packet, packet;
    }
  }

  type StatTable = map<PatternKey, CandidateStats>

  ghost function Vals(stats: StatTable): StatMap
    reads stats.Values
  {
    map k | k in stats :: stats[k].Val()
  }

  /** Every key has its own object. */
  ghost predicate Unshared(stats: StatTable) {
    forall j, k :: j in stats && k in stats && stats[j] == stats[k] ==> j == k
  }

  /** Distinct objects of the table belong to as many keys. */
  lemma {:induction false} KeysOfObjects(stats: StatTable, objs: seq<CandidateStats>)
    requires Unshared(stats) && NoDup(objs) && forall s <- objs :: s in stats.Values
    ensures |set k | k in stats && stats[k] in objs| == |objs|
  {
    var keys := set k | k in stats && stats[k] in objs;
    if objs == [] {
      assert keys == {};
    } else {
      var init, last := objs[..|objs| - 1], objs[|objs| - 1];
      assert last in objs;
      assert forall s <- init :: s in objs;
      KeysOfObjects(stats, init);
      var k :| k in stats && stats[k] == last;
      var before := set j | j in stats && stats[j] in init;
      assert k !in before;
      assert forall s :: s in objs <==> s in init || s == last;
      assert keys == before + {k};
    }
  }

  /** `PartitionStatsByAge`: newest half protected, the rest evictable. */
  method PartitionStatsByAge(stats: seq<CandidateStats>, now: nat)
    returns (protected: seq<CandidateStats>, evictable: seq<CandidateStats>)
    requires NoDup(stats)
    ensures Rearranged(protected + evictable, stats) && |protected| == |stats| / 2
    ensures forall i, j :: 0 <= i < |protected| && 0 <= j < |evictable| ==>
              Age(now, protected[i].Val()) <= Age(now, evictable[j].Val())
  {
    hide Age, NoDup, Rearranged, Sorted;
    var ages := map s | s in stats :: Age(now, s.Val());
    var sorted := SortBy(stats, ages);
    SameLength(sorted, stats);
    assert forall s <- sorted :: s in ages && ages[s] == Age(now, s.Val());
    var half := |sorted| / 2;
    SortedHalves(sorted, ages, half);
    protected, evictable := sorted[..half], sorted[half..];
    forall i, j | 0 <= i < |protected| && 0 <= j < |evictable|
      ensures Age(now, protected[i].Val()) <= Age(now, evictable[j].Val())
    {
      var p, e := protected[i], evictable[j];
      assert p in sorted[..half] && e in sorted[half..];
      assert p == sorted[i] && e == sorted[half + j];
      assert p in sorted && e in sorted;
      assert ages[p] == Age(now, p.Val()) && ages[e] == Age(now, e.Val());
      assert ages[p] <= ages[e];
    }
  }

  class Aggregator {
    const keyOf: KeyFn
    var windowStart: nat
    var windowEnd: nat
    var stats: StatTable

    ghost predicate Valid()
      reads this`stats
    {
      Unshared(stats)
    }

    constructor (keys: KeyFn, windowSize: nat)
      ensures Valid() && keyOf == keys && stats == map[]
      ensures windowStart == 0 && windowEnd == windowSize
    {
      keyOf, windowStart, windowEnd, stats := keys, 0, windowSize, map[];
    }

    /** The evictable objects of a nonempty table: those outside some newest half. */
    method EvictableObjects(now: nat) returns (evictable: seq<CandidateStats>, ghost safe: set<PatternKey>)
      requires Valid() && stats != map[]
      ensures NewerHalf(Vals(stats), safe, now)
      ensures forall k :: k in stats ==> (k !in safe <==> stats[k] in evictable)
      ensures exists k :: k in stats && stats[k] in evictable
    {
      hide Age, NewerHalf;
      var all := Objects();
      var protected;
      protected, evictable := PartitionStatsByAge(all, now);
      safe := set k | k in stats && stats[k] in protected;
      HalfIsNewer(protected, evictable, now);
      assert evictable[0] in protected + evictable;
    }

    /** `EvictOne`: from a nonempty table exactly one entry goes, and it is a victim. */
    method EvictOne(now: nat) returns (evicted: bool, ghost gone: PatternKey)
      requires Valid()
      modifies this`stats
      ensures Valid() && stats.Values <= old(stats.Values)
      ensures evicted <==> old(stats) != map[]
      ensures if evicted then Victim(old(Vals(stats)), gone, now) && stats == old(stats) - {gone}
              else stats == old(stats)
    {
      hide Age, NewerHalf, VictimBeside, Victim;
      gone := PatternKey(0);
      if stats == map[] {
        return false, gone;
      }
      ghost var safe;
      var evictable;
      evictable, safe := EvictableObjects(now);
      var lowest := LowestWorth(evictable);
      if lowest.None? {
        return false, gone;
      }
      VictimFound(Vals(stats), lowest.value, safe, now);
      gone := lowest.value;
      stats := stats - {lowest.value};
      return true, gone;
    }

    /** The search loops of EvictOne: a key of least worth among the evictable objects. */
    method LowestWorth(evictable: seq<CandidateStats>) returns (lowest: Option<PatternKey>)
      ensures lowest.Some? ==> lowest.value in stats && stats[lowest.value] in evictable
      ensures forall k :: k in stats && stats[k] in evictable ==>
                lowest.Some?
                && stats[lowest.value].hits * stats[lowest.value].size <= stats[k].hits * stats[k].size
    {
      lowest := None;
      var lowestWorth := 0;
      var keys := stats.Keys;
      while keys != {}
        invariant keys <= stats.Keys
        invariant lowest.Some? ==>
                    lowest.value in stats && stats[lowest.value] in evictable
                    && lowestWorth == stats[lowest.value].hits * stats[lowest.value].size
        invariant forall k :: k in stats && k !in keys && stats[k] in evictable ==>
                    lowest.Some? && lowestWorth <= stats[k].hits * stats[k].size
        decreases |keys|
      {
        var key :| key in keys;
        keys := keys - {key};
        var s := stats[key];
        ghost var before, least, worth := lowest, lowestWorth, s.hits * s.size;
        for i := 0 to |evictable|
          invariant (lowest == before && lowestWorth == least && s !in evictable[..i])
                    || (lowest == Some(key) && lowestWorth == worth && s in evictable
                        && (before.Some? ==> lowestWorth < least))
                    || (lowest == before && before.Some? && lowestWorth == least && least <= worth)
        {
          assert evictable[..i + 1] == evictable[..i] + [evictable[i]];
          if s == evictable[i] {
            var w := Worth(s.Val());
            if lowest.None? || w < lowestWorth {
              lowestWorth := w;
              lowest := Some(key);
            }
          }
        }
        assert evictable[..|evictable|] == evictable;
      }
    }

    /** The 32-bit running total of maybeEvict, in any order. */
    method ApproximateSize() returns (total: u32)
      requires Valid()
      ensures total == TotalSize(Vals(stats))
    {
      hide PartTotal, Wrap32, Add32, SizeMap, Vals, SplitInto;
      total := 0;
      ghost var sizes, done := SizeMap(Vals(stats)), {};
      SizesAre(stats);
      var keys := stats.Keys;
      TotalStart(sizes);
      KeysStart(stats.Keys);
      while keys != {}
        invariant sizes.Keys == stats.Keys && SplitInto(stats.Keys, done, keys)
        invariant total == PartTotal(sizes, done)
        decreases |keys|
      {
        var k :| k in keys;
        KeysStep(stats.Keys, done, keys, k);
        var size := stats[k].size + CANDIDATE_OVERHEAD;
        TotalStep(sizes, done, k, size);
        total := Add32(total, Wrap32(size));
        keys := keys - {k};
        done := done + {k};
      }
      KeysEnd(stats.Keys, done);
    }

    /** `maybeEvict`: at most one entry goes, and only when the table is over its budget. */
    method MaybeEvict(now: nat) returns (ghost gone: Option<PatternKey>)
      requires Valid()
      modifies this`stats
      ensures Valid() && stats.Values <= old(stats.Values)
      ensures gone.Some? <==> TotalSize(old(Vals(stats))) > 1024 * 1024
      ensures match gone
              case None => stats == old(stats)
              case Some(k) => Victim(old(Vals(stats)), k, now) && stats == old(stats) - {k}
    {
      hide Victim, TotalSize;
      EmptyTotal();
      assert stats == map[] ==> Vals(stats) == map[];
      var total := ApproximateSize();
      if total <= DICTIONARY_MAX_BYTES {
        return None;
      }
      ghost var k;
      var evicted;
      evicted, k := EvictOne(now);
      return Some(k);
    }

    /** One observation of `ObservePacket`. */
    method ObserveSpan(key: PatternKey, size: u32, packet: nat, ghost seen: set<PatternKey>, already: bool)
      requires Valid() && (already <==> key in seen)
      modifies this`stats, stats.Values
      ensures Valid() && fresh(stats.Values - old(stats.Values))
      ensures Vals(stats) == ObserveOne(old(Vals(stats)), seen, key, size, packet)
    {
      hide ObserveOne;
      if key !in stats {
        var s := new CandidateStats(size, packet);
        stats := stats[key := s];
      }
      if !already {
        CountPacket(stats[key], packet, key);
      }
      ObservedOne(old(Vals(stats)), Vals(stats), seen, key, size, packet);
    }

    /** `s.Hits++` and the packet id, for one candidate and no other. */
    method CountPacket(s: CandidateStats, packet: nat, ghost key: PatternKey)
      requires Valid() && key in stats && stats[key] == s
      modifies s
      ensures s.Val() == old(s.Val()).(hits := (old(s.hits) + 1) % TWO32, last := packet)
      ensures forall k :: k in stats && k != key ==> stats[k].Val() == old(stats[k].Val())
    {
      s.hits := (s.hits + 1) % TWO32;
      s.lastSeenEpoch := packet;
    }

    /** `ObservePacket`: the statistics move by ObserveAll, then at most one entry goes. */
    method ObservePacket(packet: nat, obs: seq<SpanObservation>) returns (ghost gone: Option<PatternKey>)
      requires Valid()
      modifies this`stats, stats.Values
      ensures Valid() && fresh(stats.Values - old(stats.Values))
      ensures var seen := ObserveAll(keyOf, old(Vals(stats)), {}, obs, packet);
              && (gone.Some? <==> TotalSize(seen) > 1024 * 1024)
              && match gone
                 case None => Vals(stats) == seen
                 case Some(k) => Victim(seen, k, packet) && Vals(stats) == seen - {k}
    {
      hide Victim, TotalSize, ObserveOne;
      var seenThisPacket: set<PatternKey> := {};
      ghost var goal := ObserveAll(keyOf, Vals(stats), {}, obs, packet);
      var i := 0;
      while i < |obs|
        invariant 0 <= i <= |obs|
        invariant Valid() && fresh(stats.Values - old(stats.Values))
        invariant ObserveAll(keyOf, Vals(stats), seenThisPacket, obs[i..], packet) == goal
      {
        var key := keyOf(obs[i].constA, obs[i].constB);
        ObserveSpan(key, obs[i].spanSize, packet, seenThisPacket, key in seenThisPacket);
        seenThisPacket := seenThisPacket + {key};
        assert obs[i..][0] == obs[i] && obs[i..][1..] == obs[i + 1..];
        i := i + 1;
      }
      ghost var after := stats;
      gone := MaybeEvict(packet);
      assert gone.Some? ==> Vals(stats) == Vals(after) - {gone.value};
    }

    /** What the loop body does to the values is ObserveOne. */
    lemma ObservedOne(m: StatMap, m1: StatMap, seen: set<PatternKey>, key: PatternKey, size: u32, packet: nat)
      requires m1.Keys == m.Keys + {key} && forall k :: k in m && k != key ==> m1[k] == m[k]
      requires var v := if key in m then m[key] else StatVal(0, size, packet, packet);
               m1[key] == if key in seen then v else StatVal((v.hits + 1) % TWO32, v.size, v.first, packet)
      ensures m1 == ObserveOne(m, seen, key, size, packet)
    {}

    lemma SizesAre(stats: StatTable)
      ensures var sizes := SizeMap(Vals(stats));
              sizes.Keys == stats.Keys && forall k :: k in stats ==> sizes[k] == stats[k].size + CANDIDATE_OVERHEAD
    {}

    /** The 32-bit total of the entries already added. */
    ghost function PartTotal(sizes: map<PatternKey, nat>, done: set<PatternKey>): u32 {
      Wrap32(Sum(Restrict(sizes, done)))
    }

    lemma TotalStart(sizes: map<PatternKey, nat>)
      ensures PartTotal(sizes, {}) == 0
      ensures PartTotal(sizes, sizes.Keys) == Wrap32(Sum(sizes))
    {
      assert Restrict(sizes, {}) == map[];
      assert Restrict(sizes, sizes.Keys) == sizes;
    }

    /** Taking one key off the remaining ones keeps the split of the keys. */
    lemma KeysStep(all: set<PatternKey>, done: set<PatternKey>, left: set<PatternKey>, k: PatternKey)
      requires SplitInto(all, done, left) && k in left
      ensures k in all && k !in done && SplitInto(all, done + {k}, left - {k}) && |left - {k}| < |left|
    {}

    ghost predicate SplitInto(all: set<PatternKey>, done: set<PatternKey>, left: set<PatternKey>) {
      done + left == all && done !! left
    }

    lemma KeysStart(all: set<PatternKey>)
      ensures SplitInto(all, {}, all)
    {}

    lemma KeysEnd(all: set<PatternKey>, done: set<PatternKey>)
      ensures SplitInto(all, done, {}) ==> done == all
    {}

    lemma TotalStep(sizes: map<PatternKey, nat>, done: set<PatternKey>, k: PatternKey, size: nat)
      requires k in sizes && k !in done && sizes[k] == size
      ensures PartTotal(sizes, done + {k}) == Add32(PartTotal(sizes, done), Wrap32(size))
    {
      hide Sum, Wrap32, Add32;
      var part := Restrict(sizes, done);
      assert Restrict(sizes, done + {k}) == part[k := size];
      SumAdd(part, k, size);
      AddWrapped(Sum(part), size);
    }

    lemma EmptyTotal()
      ensures TotalSize(map[]) == 0
    {
      assert SizeMap(map[]) == map[];
    }

    /** The table's objects, each once, in any order. */
    method Objects() returns (all: seq<CandidateStats>)
      requires Valid()
      ensures NoDup(all) && |all| == |stats|
      ensures (forall s <- all :: s in stats.Values) && forall k <- stats :: stats[k] in all
    {
      all := [];
      var keys := stats.Keys;
      while keys != {}
        invariant keys <= stats.Keys && |all| + |keys| == |stats| && NoDup(all)
        invariant forall s <- all :: exists k :: k in stats && k !in keys && stats[k] == s
        invariant forall k <- stats :: k in keys || stats[k] in all
        decreases |keys|
      {
        var key :| key in keys;
        assert stats[key] !in all;
        all := all + [stats[key]];
        keys := keys - {key};
      }
    }

    /** The keys of the protected objects form a newer half, and every other key's object is
        evictable. */
    lemma HalfIsNewer(protected: seq<CandidateStats>, evictable: seq<CandidateStats>, now: nat)
      requires Valid()
      requires NoDup(protected + evictable) && |protected| == |stats| / 2
      requires (forall s <- protected + evictable :: s in stats.Values)
      requires forall k <- stats :: stats[k] in protected + evictable
      requires forall i, j :: 0 <= i < |protected| && 0 <= j < |evictable| ==>
                 Age(now, protected[i].Val()) <= Age(now, evictable[j].Val())
      ensures var safe := set k | k in stats && stats[k] in protected;
              && NewerHalf(Vals(stats), safe, now)
              && forall k :: k in stats ==> (k !in safe <==> stats[k] in evictable)
    {
      var both := protected + evictable;
      forall i, j | 0 <= i < |protected| && 0 <= j < |evictable|
        ensures protected[i] != evictable[j]
      {
        assert both[i] == protected[i] && both[|protected| + j] == evictable[j];
      }
      assert forall i :: 0 <= i < |protected| ==> both[i] == protected[i];
      assert forall s <- protected :: s in both;
      KeysOfObjects(stats, protected);
      assert Vals(stats).Keys == stats.Keys;
      assert forall s <- both :: s in protected || s in evictable;
      assert forall s <- protected :: s !in evictable;
    }
  }
}
