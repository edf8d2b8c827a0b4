/** The bounded store of promoted templates: insertion that evicts the lowest scores among the
    older half, with its byte account kept in 32 bits. */
module PromotedDictionary {
  import opened Bytes
  import opened Numbers
  import opened Sorting
  import opened Sums

  datatype DictionaryEntry = DictionaryEntry(id: u32, constA: bytes, constB: bytes, score: nat, lastSeenOffset: nat)

  type Entries = map<u32, DictionaryEntry>

  datatype Store = Store(max: u32, used: u32, entries: Entries)

  /** What an entry is charged, in 32 bits. */
  function Cost(e: DictionaryEntry): u32 {
    Wrap32(|e.constA| + |e.constB|)
  }

  /** The capacity test, in 32 bits. */
  predicate Fits(d: Store, used: u32, need: u32) {
    Add32(used, need) <= d.max
  }

  ghost function Costs(m: Entries): map<u32, nat> {
    map i | i in m :: Cost(m[i])
  }

  /** The account is exact and within the limit. */
  ghost predicate Accounted(d: Store) {
    d.used == Sum(Costs(d.entries)) && d.used <= d.max
  }

  // ---- eviction ----

  /** floor(n/2) entries, none last seen after any other entry. */
  ghost predicate OlderHalf(m: Entries, o: set<u32>) {
    && o <= m.Keys && |o| == |m| / 2
    && forall x, y :: x in o && y in m && y !in o ==> m[x].lastSeenOffset <= m[y].lastSeenOffset
  }

  /** An older half, lowest score first. */
  ghost predicate EvictionOrder(m: Entries, ids: seq<u32>) {
    && NoDup(ids) && OlderHalf(m, Items(ids)) && (forall i <- ids :: i in m)
    && forall a, b :: 0 <= a < b < |ids| ==> m[ids[a]].score <= m[ids[b]].score
  }

  /** Evicted bytes come off the account, which never goes below zero. */
  function Less(used: u32, freed: u32): u32 {
    if used >= freed then used - freed else 0
  }

  ghost function Drained(m: Entries, used: u32, ids: seq<u32>): u32
    requires forall i <- ids :: i in m
  {
    if ids == [] then used
    else
      var init, last := ids[..|ids| - 1], ids[|ids| - 1];
      Less(Drained(m, used, init), Cost(m[last]))
  }

  /** The first `t` of an eviction order went; every shorter front left too little room. When
      it ends without success, the whole older half is gone. */
  ghost predicate Evicts(d: Store, need: u32, ids: seq<u32>, t: nat, ok: bool, after: Store) {
    && EvictionOrder(d.entries, ids) && t <= |ids| && after.max == d.max
    && after.entries == d.entries - Items(ids[..t])
    && after.used == Drained(d.entries, d.used, ids[..t])
    && (forall s :: 1 <= s < t ==> !Fits(d, Drained(d.entries, d.used, ids[..s]), need))
    && (ok <==> t > 0 && Fits(d, after.used, need))
    && (!ok ==> t == |ids|)
  }

  ghost predicate Evicted(d: Store, need: u32, ok: bool, after: Store) {
    exists ids, t :: Evicts(d, need, ids, t, ok, after)
  }

  function Put(d: Store, e: DictionaryEntry): Store {
    d.(entries := d.entries[e.id := e], used := Add32(d.used, Cost(e)))
  }

  /** `TryInsert` as a relation: ties in age and score leave a choice. */
  ghost predicate Inserted(d: Store, e: DictionaryEntry, ok: bool, after: Store) {
    if Fits(d, d.used, Cost(e)) then ok && after == Put(d, e)
    else exists room :: Evicted(d, Cost(e), ok, room) && after == if ok then Put(room, e) else room
  }

  // ---- the account ----

  lemma CostsWithoutOne(m: Entries, id: u32)
    requires id in m
    ensures Sum(Costs(m)) == Sum(Costs(m - {id})) + Cost(m[id])
  {
    hide Cost;
    SumRemove(Costs(m), id);
    assert Costs(m) - {id} == Costs(m - {id});
  }

  lemma CostsWith(m: Entries, id: u32, e: DictionaryEntry)
    ensures Sum(Costs(m[id := e])) == Sum(Costs(m - {id})) + Cost(e)
  {
    hide Cost;
    CostsWithoutOne(m[id := e], id);
    assert m[id := e] - {id} == m - {id};
  }

  /** Draining an exact account takes off exactly what the drained entries cost: the account of
      the remaining entries, never clamped. */
  lemma {:induction false} DrainIsExact(d: Store, ids: seq<u32>)
    requires Accounted(d) && NoDup(ids) && forall i <- ids :: i in d.entries
    ensures Accounted(d.(entries := d.entries - Items(ids), used := Drained(d.entries, d.used, ids)))
    ensures Drained(d.entries, d.used, ids) <= d.used
  {
    hide Cost, Sum, Costs;
    if ids == [] {
      assert d.entries - Items(ids) == d.entries;
    } else {
      var init, last := ids[..|ids| - 1], ids[|ids| - 1];
      DrainIsExact(d, init);
      var rest := d.entries - Items(init);
      assert last !in init && last in rest;
      CostsWithoutOne(rest, last);
      assert rest - {last} == d.entries - Items(ids);
    }
  }

  /** Putting an entry keeps the account exact exactly when the 32-bit total does not overflow
      and the entry replaces nothing that was charged. */
  lemma PutExact(d: Store, e: DictionaryEntry)
    requires Accounted(d) && Fits(d, d.used, Cost(e))
    ensures Accounted(Put(d, e)) <==>
            d.used + Cost(e) < TWO32 && (e.id in d.entries ==> Cost(d.entries[e.id]) == 0)
  {
    hide Cost, Sum, Costs;
    CostsWith(d.entries, e.id, e);
    if e.id in d.entries {
      CostsWithoutOne(d.entries, e.id);
    } else {
      assert d.entries - {e.id} == d.entries;
    }
  }

  /** Evicting keeps the account exact and never touches the newer half. Unless the 32-bit test
      overflows, it succeeds exactly when the newer half alone leaves room, and then one
      eviction fewer would not have done. */
  lemma EvictionExact(d: Store, need: u32, ids: seq<u32>, t: nat, ok: bool, after: Store)
    requires Accounted(d) && Evicts(d, need, ids, t, ok, after) && ids != []
    ensures Accounted(after)
    ensures forall y :: y in d.entries && y !in Items(ids) ==> y in after.entries
    ensures d.used + need < TWO32 ==>
              && (ok <==> Sum(Costs(d.entries - Items(ids))) + need <= d.max)
              && (ok && t > 1 ==> after.used + Cost(d.entries[ids[t - 1]]) + need > d.max)
  {
    hide Cost, Sum, Costs, OlderHalf;
    FrontOfOrder(d.entries, ids, t);
    DrainIsExact(d, ids[..t]);
    if d.used + need < TWO32 {
      assert ids[..|ids|] == ids;
      FewerCost(d.entries, Items(ids[..t]), Items(ids));
      assert Fits(d, after.used, need) <==> after.used + need <= d.max;
      if ok && t > 1 {
        LastWasNeeded(d, need, ids, t, after);
      }
    }
  }

  lemma LastWasNeeded(d: Store, need: u32, ids: seq<u32>, t: nat, after: Store)
    requires Accounted(d) && Evicts(d, need, ids, t, true, after) && t > 1 && d.used + need < TWO32
    ensures after.used + Cost(d.entries[ids[t - 1]]) + need > d.max
  {
    hide Cost, Sum, Costs, OlderHalf;
    FrontOfOrder(d.entries, ids, t - 1);
    DrainIsExact(d, ids[..t - 1]);
    assert ids[..t][..t - 1] == ids[..t - 1];
    assert !Fits(d, Drained(d.entries, d.used, ids[..t - 1]), need);
  }

  lemma FrontOfOrder(m: Entries, ids: seq<u32>, t: nat)
    requires EvictionOrder(m, ids) && t <= |ids|
    ensures NoDup(ids[..t]) && (forall i <- ids[..t] :: i in m) && Items(ids[..t]) <= Items(ids)
  {}

  lemma FewerCost(m: Entries, s: set<u32>, t: set<u32>)
    requires s <= t
    ensures Sum(Costs(m - t)) <= Sum(Costs(m - s))
  {
    hide Cost;
    SumSplit(Costs(m - s), t);
    assert Costs(m - s) - t == Costs(m - t);
  }

  /** With a fresh id and no 32-bit overflow, TryInsert keeps the account exact and within the
      limit, whether or not the entry gets in. */
  lemma TryInsertKeeps(d: Store, e: DictionaryEntry, ok: bool, after: Store)
    requires Accounted(d) && Inserted(d, e, ok, after)
    requires e.id !in d.entries && d.used + Cost(e) < TWO32
    ensures Accounted(after)
    ensures ok <==> e.id in after.entries
  {
    hide Cost, Sum, Costs, EvictionOrder;
    if Fits(d, d.used, Cost(e)) {
      PutExact(d, e);
    } else {
      var room :| Evicted(d, Cost(e), ok, room) && after == if ok then Put(room, e) else room;
      RoomAccounted(d, Cost(e), ok, room);
      if ok {
        PutExact(room, e);
      }
    }
  }

  /** For any entry at all: the insertion keeps the account exact if and only if it is refused,
      or the 32-bit total does not overflow in the room that eviction left (all of it when
      nothing had to go) and the entry replaces nothing charged there. */
  lemma TryInsertExact(d: Store, e: DictionaryEntry, ok: bool, room: Store, after: Store)
    requires Accounted(d)
    requires if Fits(d, d.used, Cost(e)) then ok && room == d else Evicted(d, Cost(e), ok, room)
    requires after == if ok then Put(room, e) else room
    ensures Inserted(d, e, ok, after)
    ensures Accounted(after) <==>
            (ok ==> room.used + Cost(e) < TWO32 && (e.id in room.entries ==> Cost(room.entries[e.id]) == 0))
  {
    hide Cost, Sum, Costs, Evicted;
    if !Fits(d, d.used, Cost(e)) {
      RoomAccounted(d, Cost(e), ok, room);
    }
    if ok {
      PutExact(room, e);
    }
  }

  lemma RoomAccounted(d: Store, need: u32, ok: bool, room: Store)
    requires Accounted(d) && Evicted(d, need, ok, room)
    ensures Accounted(room) && room.used <= d.used && room.max == d.max
    ensures room.entries.Keys <= d.entries.Keys
    ensures ok ==> Fits(room, room.used, need)
  {
    hide Cost, Sum, Costs, OlderHalf;
    var ids, t :| Evicts(d, need, ids, t, ok, room);
    FrontOfOrder(d.entries, ids, t);
    DrainIsExact(d, ids[..t]);
  }

  // ---- bytes in, bytes charged ----

  /** The bytes of all constants, each entry's taken on 32 bits. */
  ghost function BytesEach(m: Entries): map<u32, nat> {
    map i | i in m :: (|m[i].constA| + |m[i].constB|) % 0x1_0000_0000
  }

  ghost function BytesOf(m: Entries): nat {
    Sum(BytesEach(m))
  }

  /** The account is exact when it is the bytes of the constants held, and within the limit. */
  lemma AccountedIs(d: Store)
    ensures Accounted(d) <==> d.used == BytesOf(d.entries) <= d.max
  {
    BytesAreCosts(d.entries);
    hide Sum, Costs, BytesOf;
  }

  /** `o` is half of the entries, none last seen after any other. Room was made if and only if
      losing all of it is enough; what is outside stays as it is, and what went out of it has no
      higher score than what stayed. */
  ghost predicate MakesRoom(d: Store, need: nat, ok: bool, after: Entries, o: set<u32>) {
    && o <= d.entries.Keys && |o| == |d.entries| / 2
    && (forall x, y :: x in o && y in d.entries - o ==>
          d.entries[x].lastSeenOffset <= d.entries[y].lastSeenOffset)
    && (ok <==> o != {} && BytesOf(d.entries - o) + need <= d.max)
    && (forall y :: y in d.entries - o ==> y in after && after[y] == d.entries[y])
    && (forall x, y :: x in o && x !in after && y in o && y in after ==>
          d.entries[x].score <= d.entries[y].score)
  }

  /** What an insertion with a new id does, in bytes: with room for both constants it takes them
      at once and charges exactly them; without, it gets in if and only if an older half is there
      whose loss makes room, and whatever goes is out of that half. */
  lemma InsertOutcome(d: Store, e: DictionaryEntry, ok: bool, after: Store)
    requires d.used == BytesOf(d.entries) <= d.max && Inserted(d, e, ok, after) && e.id !in d.entries
    requires d.used + |e.constA| + |e.constB| < 0x1_0000_0000
    ensures var n := |e.constA| + |e.constB|;
            && after.used == BytesOf(after.entries) <= after.max == d.max
            && (ok <==> e.id in after.entries) && (ok ==> after.entries[e.id] == e)
            && (d.used + n <= d.max ==> ok && after.entries == d.entries[e.id := e] && after.used == d.used + n)
            && (d.used + n > d.max ==>
                  exists o :: MakesRoom(d, n, ok, after.entries, o))
  {
    hide Accounted, BytesOf, Inserted, Put, Cost, MakesRoom, Fits, Costs, Sum;
    var n := |e.constA| + |e.constB|;
    AccountedIs(d);
    CostIs(e);
    TryInsertKeeps(d, e, ok, after);
    AccountedIs(after);
    Outcome(d, e, ok, after);
    if d.used + n > d.max {
      var o := OutcomeRoom(d, e, ok, after);
    } else {
      PutOthers(d, e);
    }
  }

  /** When the sum leaves 32 bits the test always passes: the entry comes in at once, nothing
      goes, and the account falls short of what is held by 2^32. */
  lemma InsertOverflow(d: Store, e: DictionaryEntry, ok: bool, after: Store)
    requires d.used <= d.max && Inserted(d, e, ok, after)
    requires d.used + (|e.constA| + |e.constB|) % 0x1_0000_0000 >= 0x1_0000_0000
    ensures ok && after.entries == d.entries[e.id := e]
    ensures after.used == d.used + (|e.constA| + |e.constB|) % 0x1_0000_0000 - 0x1_0000_0000 < d.used
  {
    hide Evicted;
    assert Cost(e) == (|e.constA| + |e.constB|) % 0x1_0000_0000;
    hide Cost;
    AddOver(d.used, Cost(e));
    hide Add32;
  }

  lemma AddOver(x: u32, y: u32)
    requires x + y >= 0x1_0000_0000
    ensures Add32(x, y) == x + y - 0x1_0000_0000
  {}

  lemma OutcomeRoom(d: Store, e: DictionaryEntry, ok: bool, after: Store) returns (o: set<u32>)
    requires Accounted(d) && Inserted(d, e, ok, after) && e.id !in d.entries
    requires d.max < d.used + Cost(e) < 0x1_0000_0000
    ensures MakesRoom(d, Cost(e), ok, after.entries, o)
    ensures after.max == d.max && (ok ==> e.id in after.entries && after.entries[e.id] == e)
  {
    hide Accounted, BytesOf, Inserted, Put, Cost, Evicted, Costs, Sum;
    UsedWithin(d);
    Outcome(d, e, ok, after);
    var room :| Evicted(d, Cost(e), ok, room) && after == if ok then Put(room, e) else room;
    o := HalfGone(d, Cost(e), ok, room);
    PutOthers(room, e);
  }

  lemma UsedWithin(d: Store)
    requires Accounted(d)
    ensures d.used <= d.max
  {}

  lemma CostIs(e: DictionaryEntry)
    ensures |e.constA| + |e.constB| < 0x1_0000_0000 ==> Cost(e) == |e.constA| + |e.constB|
  {}

  lemma Outcome(d: Store, e: DictionaryEntry, ok: bool, after: Store)
    requires Inserted(d, e, ok, after)
    requires d.used <= d.max && d.used + Cost(e) < 0x1_0000_0000
    ensures d.used + Cost(e) <= d.max ==> ok && after == Put(d, e)
    ensures d.used + Cost(e) > d.max ==>
              exists room :: Evicted(d, Cost(e), ok, room) && after == if ok then Put(room, e) else room
  {
    hide Cost, Put, Evicted;
  }

  lemma PutOthers(d: Store, e: DictionaryEntry)
    ensures var after := Put(d, e);
            && after.max == d.max && after.entries == d.entries[e.id := e]
            && (d.used + Cost(e) < 0x1_0000_0000 ==> after.used == d.used + Cost(e))
  {
    hide Cost;
  }

  /** The older half that eviction went through. */
  lemma HalfGone(d: Store, need: u32, ok: bool, room: Store) returns (o: set<u32>)
    requires Accounted(d) && Evicted(d, need, ok, room) && d.used + need < 0x1_0000_0000
    ensures MakesRoom(d, need, ok, room.entries, o)
    ensures room.max == d.max && room.entries.Keys <= d.entries.Keys
  {
    hide Accounted, BytesOf, Evicts, EvictionOrder, Items;
    var ids, t :| Evicts(d, need, ids, t, ok, room);
    o := Items(ids);
    HalfIs(d, need, ids, t, ok, room);
    HalfAccount(d, need, ids, t, ok, room);
    LowestGo(d, need, ids, t, ok, room);
  }

  lemma HalfIs(d: Store, need: u32, ids: seq<u32>, t: nat, ok: bool, room: Store)
    requires Evicts(d, need, ids, t, ok, room)
    ensures var o := Items(ids);
            && o <= d.entries.Keys && |o| == |d.entries| / 2
            && (forall x, y :: x in o && y in d.entries - o ==>
                  d.entries[x].lastSeenOffset <= d.entries[y].lastSeenOffset)
            && (forall y :: y in d.entries - o ==> y in room.entries && room.entries[y] == d.entries[y])
    ensures room.max == d.max && room.entries.Keys <= d.entries.Keys
  {
    FrontOfOrder(d.entries, ids, t);
    hide Items, NoDup, Drained;
  }

  lemma HalfAccount(d: Store, need: u32, ids: seq<u32>, t: nat, ok: bool, room: Store)
    requires Accounted(d) && Evicts(d, need, ids, t, ok, room) && d.used + need < 0x1_0000_0000
    ensures ok <==> Items(ids) != {} && BytesOf(d.entries - Items(ids)) + need <= d.max
  {
    hide Sum, Accounted, Costs, BytesOf, OlderHalf, Drained;
    BytesAreCosts(d.entries - Items(ids));
    if ids != [] {
      EvictionExact(d, need, ids, t, ok, room);
      assert ids[0] in Items(ids);
    }
  }

  /** The front of an eviction order has the lowest scores of it. */
  lemma LowestGo(d: Store, need: u32, ids: seq<u32>, t: nat, ok: bool, room: Store)
    requires Evicts(d, need, ids, t, ok, room)
    ensures forall x, y :: x in Items(ids) && x !in room.entries && y in Items(ids) && y in room.entries ==>
              x in d.entries && y in d.entries && d.entries[x].score <= d.entries[y].score
  {
    hide OlderHalf, Drained;
    forall x, y | x in Items(ids) && x !in room.entries && y in Items(ids) && y in room.entries
      ensures x in d.entries && y in d.entries && d.entries[x].score <= d.entries[y].score
    {
      assert x in Items(ids[..t]) && y !in Items(ids[..t]);
      var a :| 0 <= a < t && ids[a] == x;
      var b :| 0 <= b < |ids| && ids[b] == y;
      assert forall k :: 0 <= k < t ==> ids[..t][k] == ids[k];
    }
  }

  lemma BytesAreCosts(m: Entries)
    ensures BytesOf(m) == Sum(Costs(m))
  {
    hide Sum;
    assert Costs(m) == BytesEach(m);
  }

  // ---- the object ----

  class Dictionary {
    const maxBytes: u32
    var usedBytes: u32
    var entries: Entries

    function State(): Store
      reads this
    {
      Store(maxBytes, usedBytes, entries)
    }

    constructor (max: u32)
      ensures State() == Store(max, 0, map[])
    {
      maxBytes, usedBytes, entries := max, 0, map[];
    }

    /** `insert`. */
    method Insert(entry: DictionaryEntry, need: u32)
      requires need == Cost(entry)
      modifies this
      ensures State() == Put(old(State()), entry)
    {
      entries := entries[entry.id := entry];
      usedBytes := Add32(usedBytes, need);
    }

    /** The ids of all entries, each once, in map order. */
    method Collect() returns (items: seq<u32>)
      ensures NoDup(items) && Items(items) == entries.Keys
    {
      items := [];
      var keys := entries.Keys;
      hide NoDup, Items;
      NothingCollected(entries.Keys);
      while keys != {}
        invariant keys <= entries.Keys && NoDup(items) && Items(items) == entries.Keys - keys
        decreases |keys|
      {
        var key :| key in keys;
        CollectOne(items, key);
        items := items + [key];
        keys := keys - {key};
      }
    }

    /** Sort by age, keep the older half, sort that by score. */
    method Eligible() returns (evictable: seq<u32>)
      ensures EvictionOrder(entries, evictable)
      ensures |evictable| == |entries| / 2
    {
      hide NoDup, Items, Sorted, Rearranged;
      var items := Collect();
      var age := map i | i in entries :: entries[i].lastSeenOffset;
      assert forall i <- items :: i in Items(items) by {
        ItemsAre(items);
      }
      var sorted := SortBy(items, age);
      var cut := |sorted| / 2;
      OlderItems(entries, items, sorted, age, cut);
      var score := map i | i in entries :: entries[i].score;
      evictable := SortBy(sorted[..cut], score);
      ScoreOrder(entries, sorted[..cut], evictable, score);
    }

    /** The eviction loop of evictFor and EnsureCapacity. */
    method Evict(evictable: seq<u32>, need: u32) returns (ok: bool, t: nat)
      requires EvictionOrder(entries, evictable)
      modifies this`entries, this`usedBytes
      ensures Evicts(old(State()), need, evictable, t, ok, State())
    {
      hide EvictionOrder, Cost, Items, Drained, NoDup;
      t := 0;
      ghost var was := State();
      OrderListed(entries, evictable);
      NoneDrained(was, evictable);
      while t < |evictable|
        invariant t <= |evictable|
        invariant entries == was.entries - Items(evictable[..t])
        invariant usedBytes == Drained(was.entries, was.used, evictable[..t])
        invariant forall s :: 1 <= s <= t ==> !Fits(was, Drained(was.entries, was.used, evictable[..s]), need)
      {
        DrainStep(was, evictable, t);
        var id := evictable[t];
        var freed := Cost(entries[id]);
        entries := entries - {id};
        if usedBytes >= freed {
          usedBytes := usedBytes - freed;
        } else {
          usedBytes := 0;
        }
        t := t + 1;
        if Add32(usedBytes, need) <= maxBytes {
          return true, t;
        }
      }
      return false, t;
    }

    /** `evictFor`: without an older half nothing happens; otherwise eviction runs until the
        need fits, and what it removed stays removed even when it never does. */
    method EvictFor(need: u32) returns (ok: bool)
      modifies this`entries, this`usedBytes
      ensures Evicted(old(State()), need, ok, State())
    {
      hide EvictionOrder, Evicts;
      var evictable := Eligible();
      var t;
      ok, t := Evict(evictable, need);
    }

    /** `TryInsert`. */
    method TryInsert(entry: DictionaryEntry) returns (ok: bool)
      modifies this
      ensures Inserted(old(State()), entry, ok, State())
    {
      hide Cost, Evicted, Put;
      var need := Cost(entry);
      if Add32(usedBytes, need) <= maxBytes {
        Insert(entry, need);
        return true;
      }
      ok := EvictFor(need);
      if !ok {
        return false;
      }
      Insert(entry, need);
    }

    /** `EnsureCapacity`. */
    method EnsureCapacity(needBytes: u32) returns (ok: bool)
      modifies this`entries, this`usedBytes
      ensures if Fits(old(State()), old(usedBytes), needBytes) then ok && State() == old(State())
              else Evicted(old(State()), needBytes, ok, State())
    {
      hide Evicted;
      if Add32(usedBytes, needBytes) <= maxBytes {
        return true;
      }
      ok := EvictFor(needBytes);
    }
  }

  lemma NothingCollected(all: set<u32>)
    ensures NoDup<u32>([]) && Items<u32>([]) == all - all
  {}

  lemma CollectOne(items: seq<u32>, key: u32)
    requires NoDup(items) && key !in Items(items)
    ensures NoDup(items + [key]) && Items(items + [key]) == Items(items) + {key}
  {}

  lemma ItemsAre(s: seq<u32>)
    ensures forall x :: x in s <==> x in Items(s)
  {}

  /** The front half of the age order is an older half. */
  lemma OlderItems(m: Entries, items: seq<u32>, sorted: seq<u32>, age: map<u32, int>, cut: nat)
    requires NoDup(items) && Items(items) == m.Keys && Rearranged(sorted, items)
    requires age == map i | i in m :: m[i].lastSeenOffset
    requires (forall x <- sorted :: x in age) && Sorted(sorted, age)
    requires cut == |sorted| / 2
    ensures NoDup(sorted[..cut]) && (forall i <- sorted[..cut] :: i in m)
    ensures OlderHalf(m, Items(sorted[..cut])) && cut == |m| / 2
  {
    ItemsCount(items);
    assert |m.Keys| == |m|;
    ItemsCount(sorted[..cut]);
    SortedHalves(sorted, age, cut);
    forall x, y | x in Items(sorted[..cut]) && y in m && y !in Items(sorted[..cut])
      ensures m[x].lastSeenOffset <= m[y].lastSeenOffset
    {
      assert y in Items(items) && y in sorted;
      assert y in sorted[..cut] + sorted[cut..];
      assert age[x] <= age[y];
    }
  }

  lemma ScoreOrder(m: Entries, half: seq<u32>, ids: seq<u32>, score: map<u32, int>)
    requires NoDup(half) && OlderHalf(m, Items(half)) && (forall i <- half :: i in m)
    requires score == map i | i in m :: m[i].score
    requires Rearranged(ids, half) && (forall x <- ids :: x in score) && Sorted(ids, score)
    ensures EvictionOrder(m, ids) && |ids| == |half|
  {
    hide OlderHalf;
    assert Items(ids) == Items(half);
    forall a, b | 0 <= a < b < |ids|
      ensures m[ids[a]].score <= m[ids[b]].score
    {
      assert score[ids[a]] <= score[ids[b]];
    }
  }

  lemma OrderListed(m: Entries, ids: seq<u32>)
    requires EvictionOrder(m, ids)
    ensures NoDup(ids) && forall i <- ids :: i in m
  {}

  lemma NoneDrained(d: Store, ids: seq<u32>)
    ensures d.entries - Items(ids[..0]) == d.entries && Drained(d.entries, d.used, ids[..0]) == d.used
  {
    assert Items(ids[..0]) == {};
  }

  /** One more entry off the account. */
  lemma DrainStep(d: Store, ids: seq<u32>, t: nat)
    requires NoDup(ids) && (forall i <- ids :: i in d.entries) && t < |ids|
    ensures ids[t] in d.entries - Items(ids[..t])
    ensures d.entries - Items(ids[..t]) - {ids[t]} == d.entries - Items(ids[..t + 1])
    ensures Drained(d.entries, d.used, ids[..t + 1]) ==
            Less(Drained(d.entries, d.used, ids[..t]), Cost(d.entries[ids[t]]))
  {
    hide Cost;
    assert ids[..t + 1][..t] == ids[..t];
  }
}
