/** The bounded pattern cache: two indexes, two clocks, and eviction of least recently used
    entries from the older half only, planned before anything is touched. */
module MemoryDictionary {
  import opened Bytes
  import opened Numbers
  import opened Sorting
  import opened Sums

  /** A cached pattern under its id. */
  datatype Entry = Entry(key: string, data: bytes, created: nat, used: nat)

  type Entries = map<u32, Entry>

  /** Everything a dictionary holds. */
  datatype Dict = Dict(cap: nat, entries: Entries, byKey: map<string, u32>, usedBytes: int, nextID: u32, nextSeq: nat)

  // ---- which entries an insertion may cost ----

  function Free(d: Dict): int {
    d.cap - d.usedBytes
  }

  ghost function Sizes(m: Entries): map<u32, nat> {
    map i | i in m :: |m[i].data|
  }

  ghost function SizeOf(m: Entries, s: set<u32>): nat {
    Sum(Restrict(Sizes(m), s))
  }

  ghost function Creation(m: Entries): map<u32, int> {
    map i | i in m :: m[i].created
  }

  /** The floor(n/2) entries created first. */
  ghost function OlderHalf(m: Entries): set<u32> {
    Lowest(Creation(m), |m| / 2)
  }

  /** The entries of the older half used before `id`. */
  ghost function UsedBefore(m: Entries, id: u32): set<u32>
    requires id in m
  {
    set j | j in OlderHalf(m) && m[j].used < m[id].used
  }

  /** An entry of the older half goes when those used before it do not free enough. */
  ghost function Victims(d: Dict, need: nat): set<u32> {
    set i | i in OlderHalf(d.entries) && Free(d) + SizeOf(d.entries, UsedBefore(d.entries, i)) < need
  }

  ghost predicate CanFit(d: Dict, need: nat) {
    Free(d) + SizeOf(d.entries, OlderHalf(d.entries)) >= need
  }

  // ---- the operations, on values ----

  datatype Op =
    | GetByID(id: u32)
    | GetByKey(key: string)
    | AddCandidate(key: string, data: bytes)
    | Delete(id: u32)
    | Clear

  function Touch(d: Dict, id: u32): Dict {
    if id in d.entries
    then d.(entries := d.entries[id := d.entries[id].(used := d.nextSeq)], nextSeq := d.nextSeq + 1)
    else d
  }

  /** The id a key leads to. */
  predicate Known(d: Dict, key: string) {
    key in d.byKey && d.byKey[key] in d.entries
  }

  function TouchKey(d: Dict, key: string): Dict {
    if key in d.byKey then Touch(d, d.byKey[key]) else d
  }

  function Remove(d: Dict, id: u32): Dict {
    if id !in d.entries then d
    else
      var left := d.usedBytes - |d.entries[id].data|;
      d.(entries := d.entries - {id}, byKey := d.byKey - {d.entries[id].key},
         usedBytes := if left < 0 then 0 else left)
  }

  ghost function KeysOf(m: Entries, s: set<u32>): set<string> {
    set i | i in m && i in s :: m[i].key
  }

  /** All of `s` removed at once. */
  ghost function RemoveAll(d: Dict, s: set<u32>): Dict {
    d.(entries := d.entries - s, byKey := d.byKey - KeysOf(d.entries, s),
       usedBytes := d.usedBytes - SizeOf(d.entries, s))
  }

  function Insert(d: Dict, key: string, data: bytes): Dict {
    d.(entries := d.entries[d.nextID := Entry(key, data, d.nextSeq, d.nextSeq)], byKey := d.byKey[key := d.nextID],
       usedBytes := d.usedBytes + |data|, nextID := Add32(d.nextID, 1), nextSeq := d.nextSeq + 1)
  }

  /** `evictToFit`: nothing when there is room, the victims when they suffice, else nothing. */
  ghost function Evicted(d: Dict, need: nat): Dict {
    if Free(d) < need && CanFit(d, need) then RemoveAll(d, Victims(d, need)) else d
  }

  /** The candidate is new and gets in. */
  ghost predicate Inserts(d: Dict, key: string, data: bytes) {
    data != [] && !Known(d, key) && |data| <= d.cap && (Free(d) >= |data| || CanFit(d, |data|))
  }

  ghost function Apply(d: Dict, op: Op): Dict {
    match op
    case GetByID(id) => Touch(d, id)
    case GetByKey(key) => TouchKey(d, key)
    case AddCandidate(key, data) =>
      if data == [] then d
      else if Known(d, key) then TouchKey(d, key)
      else if Inserts(d, key, data) then Insert(Evicted(d, |data|), key, data)
      else d
    case Delete(id) => Remove(d, id)
    case Clear => d.(entries := map[], byKey := map[], usedBytes := 0)
  }

  ghost function Run(d: Dict, ops: seq<Op>): Dict {
    if ops == [] then d else Apply(Run(d, ops[..|ops| - 1]), ops[|ops| - 1])
  }

  // ---- what every reachable state keeps ----

  /** The clocks: no two entries share a creation time or a use time, and all lie in the past. */
  predicate Distinct(m: Entries, now: nat) {
    && (forall i <- m :: m[i].created < now && m[i].used < now)
    && (forall i, j :: i in m && j in m && i != j ==> m[i].created != m[j].created && m[i].used != m[j].used)
  }

  /** Holds whatever happens, even after the id counter has wrapped. */
  ghost predicate Consistent(d: Dict) {
    && Distinct(d.entries, d.nextSeq)
    && (forall i <- d.entries :: d.entries[i].data != [])
    && Sum(Sizes(d.entries)) <= d.usedBytes <= d.cap
  }

  /** The two indexes are mutually inverse. */
  predicate Indexed(d: Dict) {
    && (forall k <- d.byKey :: d.byKey[k] in d.entries && d.entries[d.byKey[k]].key == k)
    && (forall i <- d.entries :: d.entries[i].key in d.byKey && d.byKey[d.entries[i].key] == i)
  }

  ghost predicate Sound(d: Dict) {
    Consistent(d) && Indexed(d) && d.usedBytes == Sum(Sizes(d.entries))
  }

  predicate IdsBelow(d: Dict) {
    d.nextID >= 1 && forall i <- d.entries :: 1 <= i < d.nextID
  }

  // ---- sums of sizes ----

  lemma SizeOfAdd(m: Entries, s: set<u32>, id: u32)
    requires id in m && id !in s
    ensures SizeOf(m, s + {id}) == SizeOf(m, s) + |m[id].data|
  {
    var part := Restrict(Sizes(m), s);
    assert Restrict(Sizes(m), s + {id}) == part[id := |m[id].data|];
    SumAdd(part, id, |m[id].data|);
  }

  lemma SizeOfNone(m: Entries)
    ensures SizeOf(m, {}) == 0
  {
    assert Restrict(Sizes(m), {}) == map[];
  }

  lemma SizeOfMonotone(m: Entries, s: set<u32>, t: set<u32>)
    requires s <= t
    ensures SizeOf(m, s) <= SizeOf(m, t)
  {
    SumSplit(Restrict(Sizes(m), t), s);
    assert Restrict(Restrict(Sizes(m), t), s) == Restrict(Sizes(m), s);
  }

  lemma SizesWithout(m: Entries, s: set<u32>)
    ensures Sum(Sizes(m)) == Sum(Sizes(m - s)) + SizeOf(m, s)
  {
    SumSplit(Sizes(m), s);
    assert Sizes(m) - s == Sizes(m - s);
  }

  lemma SizesWithoutOne(m: Entries, id: u32)
    requires id in m
    ensures Sum(Sizes(m)) == Sum(Sizes(m - {id})) + |m[id].data|
  {
    SumRemove(Sizes(m), id);
    assert Sizes(m) - {id} == Sizes(m - {id});
  }

  lemma SizesWith(m: Entries, id: u32, e: Entry)
    ensures Sum(Sizes(m[id := e])) == Sum(Sizes(m - {id})) + |e.data|
  {
    SizesWithoutOne(m[id := e], id);
    assert m[id := e] - {id} == m - {id};
  }

  // ---- eviction is exact ----

  /** The older half holds floor(n/2) entries, all created before the rest. */
  lemma OlderHalfSplits(m: Entries, now: nat)
    requires Distinct(m, now)
    ensures |OlderHalf(m)| == |m| / 2 && OlderHalf(m) <= m.Keys
    ensures forall o, y :: o in OlderHalf(m) && y in m && y !in OlderHalf(m) ==> m[o].created < m[y].created
  {
    assert Creation(m).Keys == m.Keys && |Creation(m).Keys| == |m|;
    assert |Creation(m)| == |m|;
    LowestSplits(Creation(m), |m| / 2);
    hide Lowest;
    assert forall i <- m :: Creation(m)[i] == m[i].created;
  }

  /** A front of the older half in order of use. */
  ghost predicate LruPrefix(m: Entries, p: set<u32>) {
    p <= OlderHalf(m) && forall v, w :: v in p && w in OlderHalf(m) && m[w].used < m[v].used ==> w in p
  }

  /** When the older half can free enough, the victims are the shortest sufficient least
      recently used front of it. */
  lemma VictimsExact(d: Dict, need: nat)
    requires Consistent(d) && CanFit(d, need)
    ensures var m := d.entries;
            && LruPrefix(m, Victims(d, need))
            && d.cap - d.usedBytes + SizeOf(m, Victims(d, need)) >= need
            && forall p :: LruPrefix(m, p) && d.cap - d.usedBytes + SizeOf(m, p) >= need ==> Victims(d, need) <= p
  {
    hide SizeOf, OlderHalf, Sum;
    var m, vs := d.entries, Victims(d, need);
    assert OlderHalf(m) <= m.Keys by {
      OlderHalfSplits(m, d.nextSeq);
    }
    forall v, w | v in vs && w in OlderHalf(m) && m[w].used < m[v].used
      ensures w in vs
    {
      SizeOfMonotone(m, UsedBefore(m, w), UsedBefore(m, v));
    }
    VictimsSuffice(d, need);
    forall p | LruPrefix(m, p) && Free(d) + SizeOf(m, p) >= need
      ensures vs <= p
    {
      forall v | v in vs
        ensures v in p
      {
        if v !in p {
          forall j | j in p
            ensures j in UsedBefore(m, v)
          {
            assert j != v;
          }
          SizeOfMonotone(m, p, UsedBefore(m, v));
        }
      }
    }
  }

  lemma VictimsSuffice(d: Dict, need: nat)
    requires Consistent(d) && CanFit(d, need)
    ensures Free(d) + SizeOf(d.entries, Victims(d, need)) >= need
  {
    hide SizeOf, OlderHalf, Victims, Sum, Consistent;
    var m, vs := d.entries, Victims(d, need);
    ConsistentDistinct(d);
    hide Distinct;
    OlderHalfSplits(m, d.nextSeq);
    VictimsOlder(d, need);
    if vs != OlderHalf(m) {
      var w :| w in OlderHalf(m) && w !in vs;
      SomeSpared(d, need, w);
    }
  }

  lemma SomeSpared(d: Dict, need: nat, w0: u32)
    requires Consistent(d) && OlderHalf(d.entries) <= d.entries.Keys
    requires w0 in OlderHalf(d.entries) && w0 !in Victims(d, need)
    ensures Free(d) + SizeOf(d.entries, Victims(d, need)) >= need
  {
    hide SizeOf, OlderHalf, Victims, Consistent;
    var recency := map i | i in OlderHalf(d.entries) && i !in Victims(d, need) :: 0 - d.entries[i].used;
    assert w0 in recency;
    var w := MaxExists(recency);
    FirstSpared(d, need, w, recency);
  }

  lemma VictimsOlder(d: Dict, need: nat)
    ensures Victims(d, need) <= OlderHalf(d.entries)
  {
    hide SizeOf, OlderHalf, UsedBefore;
  }

  /** The victims are the entries used before the first one spared. */
  lemma FirstSpared(d: Dict, need: nat, w: u32, recency: map<u32, int>)
    requires Consistent(d) && OlderHalf(d.entries) <= d.entries.Keys
    requires recency == map i | i in OlderHalf(d.entries) && i !in Victims(d, need) :: 0 - d.entries[i].used
    requires w in recency && forall j <- recency :: recency[j] <= recency[w]
    ensures Free(d) + SizeOf(d.entries, Victims(d, need)) >= need
  {
    hide SizeOf, OlderHalf, Sum;
    var m := d.entries;
    forall j | j in Victims(d, need)
      ensures j in UsedBefore(m, w)
    {
      if m[w].used < m[j].used {
        SizeOfMonotone(m, UsedBefore(m, w), UsedBefore(m, j));
      }
    }
    assert forall j <- recency :: recency[j] <= recency[w] && recency[j] == 0 - m[j].used;
    assert Victims(d, need) == UsedBefore(m, w);
  }

  // ---- what every operation keeps ----

  lemma RemoveAllKeeps(d: Dict, s: set<u32>)
    requires Consistent(d)
    ensures Consistent(RemoveAll(d, s))
    ensures Sound(d) ==> Sound(RemoveAll(d, s))
  {
    hide SizeOf, Sum, Distinct, Indexed, KeysOf;
    SizesWithout(d.entries, s);
    RemoveAllClocks(d.entries, d.nextSeq, s);
    if Indexed(d) {
      RemoveAllIndexed(d, s);
    }
  }

  lemma RemoveAllClocks(m: Entries, now: nat, s: set<u32>)
    requires Distinct(m, now)
    ensures Distinct(m - s, now)
  {}

  lemma RemoveAllIndexed(d: Dict, s: set<u32>)
    requires Indexed(d)
    ensures Indexed(RemoveAll(d, s))
  {
    hide SizeOf;
  }

  /** The negative clamp of Delete never fires. */
  lemma RemoveIs(d: Dict, id: u32)
    requires Consistent(d) && id in d.entries
    ensures Remove(d, id) == RemoveAll(d, {id})
    ensures Remove(d, id).usedBytes == d.usedBytes - |d.entries[id].data| >= 0
  {
    hide SizeOf, Sum;
    SizesWithoutOne(d.entries, id);
    SizesWithout(d.entries, {id});
    assert KeysOf(d.entries, {id}) == {d.entries[id].key};
  }

  lemma TouchKeeps(d: Dict, id: u32)
    requires Consistent(d)
    ensures Consistent(Touch(d, id))
    ensures Sound(Touch(d, id)) <==> Sound(d)
  {
    hide Sum, Distinct, Indexed;
    if id in d.entries {
      var e := d.entries[id].(used := d.nextSeq);
      ClockedIn(d.entries, d.nextSeq, id, e);
      var after := Touch(d, id);
      assert Sizes(after.entries) == Sizes(d.entries);
      IndexedKeys(d, after);
    }
  }

  /** Only the use time of this entry has changed, and it is later than every other's. */
  predicate UsedNow(before: Entries, after: Entries, id: u32) {
    && id in before && after.Keys == before.Keys
    && (forall j <- before :: j != id ==> after[j] == before[j] && after[j].used < after[id].used)
    && after[id] == before[id].(used := after[id].used)
    && before[id].used < after[id].used
  }

  /** After a lookup by id or by key, or a candidate already known, that entry is the one used
      last, and nothing else has changed. */
  lemma LookupUses(d: Dict, id: u32)
    requires Consistent(d) && id in d.entries
    ensures UsedNow(d.entries, Apply(d, GetByID(id)).entries, id)
    ensures forall key :: key in d.byKey && d.byKey[key] == id ==>
              UsedNow(d.entries, Apply(d, GetByKey(key)).entries, id)
    ensures forall key, data :: key in d.byKey && d.byKey[key] == id && data != [] ==>
              UsedNow(d.entries, Apply(d, AddCandidate(key, data)).entries, id)
  {
    hide Sum;
    TouchUses(d, id);
    hide Touch, UsedNow, Consistent;
  }

  lemma TouchUses(d: Dict, id: u32)
    requires Consistent(d) && id in d.entries
    ensures UsedNow(d.entries, Touch(d, id).entries, id)
  {
    hide Sum;
  }

  /** A new or touched entry takes the current time. */
  lemma ClockedIn(m: Entries, now: nat, id: u32, e: Entry)
    requires Distinct(m, now) && e.used == now
    requires e.created == now || (id in m && e.created == m[id].created)
    ensures Distinct(m[id := e], now + 1)
  {
    var n := m[id := e];
    forall i | i in n
      ensures n[i].created < now + 1 && n[i].used < now + 1
    {}
  }

  lemma IndexedKeys(d: Dict, e: Dict)
    requires d.byKey == e.byKey && d.entries.Keys == e.entries.Keys
    requires forall i <- d.entries :: e.entries[i].key == d.entries[i].key
    ensures Indexed(d) <==> Indexed(e)
  {}

  /** Inserting keeps the clocks and the bound; it keeps the exact account exactly when the id
      handed out is not in use. */
  lemma InsertKeeps(d: Dict, key: string, data: bytes)
    requires Consistent(d) && data != [] && Free(d) >= |data|
    ensures Consistent(Insert(d, key, data))
    ensures Sound(d) && key !in d.byKey ==> (Sound(Insert(d, key, data)) <==> d.nextID !in d.entries)
  {
    hide Sum, Distinct, Indexed;
    var e := Entry(key, data, d.nextSeq, d.nextSeq);
    ClockedIn(d.entries, d.nextSeq, d.nextID, e);
    SizesWith(d.entries, d.nextID, e);
    if d.nextID in d.entries {
      SizesWithoutOne(d.entries, d.nextID);
    } else {
      assert d.entries - {d.nextID} == d.entries;
      if Sound(d) && key !in d.byKey {
        InsertIndexed(d, key, data);
      }
    }
  }

  lemma InsertIndexed(d: Dict, key: string, data: bytes)
    requires Indexed(d) && key !in d.byKey && d.nextID !in d.entries
    ensures Indexed(Insert(d, key, data))
  {}

  lemma EvictedKeeps(d: Dict, need: nat)
    requires Consistent(d)
    ensures Consistent(Evicted(d, need)) && (Sound(d) ==> Sound(Evicted(d, need)))
    ensures CanFit(d, need) ==> Free(Evicted(d, need)) >= need
    ensures Evicted(d, need).nextID == d.nextID
    ensures Evicted(d, need).entries.Keys <= d.entries.Keys && Evicted(d, need).byKey.Keys <= d.byKey.Keys
  {
    hide Sum, SizeOf, Consistent, Sound, Victims, CanFit;
    if Free(d) < need && CanFit(d, need) {
      RemoveAllKeeps(d, Victims(d, need));
      VictimsSuffice(d, need);
    }
  }

  /** The state in which an insertion hands out its id. */
  ghost predicate FreshId(d: Dict, op: Op) {
    match op
    case AddCandidate(key, data) => Inserts(d, key, data) ==> d.nextID !in Evicted(d, |data|).entries
    case _ => true
  }

  /** Every operation keeps the clocks and the byte bound; it keeps the account and the indexes
      exactly when the id it hands out, if any, is not in use. */
  lemma ApplyKeeps(d: Dict, op: Op)
    requires Consistent(d)
    ensures Consistent(Apply(d, op))
    ensures Sound(d) ==> (Sound(Apply(d, op)) <==> FreshId(d, op))
  {
    hide Consistent, Sound, CanFit, Indexed, Remove, Touch, Evicted;
    match op
    case GetByID(id) => TouchKeeps(d, id);
    case GetByKey(key) =>
      if key in d.byKey {
        TouchKeeps(d, d.byKey[key]);
      }
    case AddCandidate(key, data) =>
      if data != [] && Known(d, key) {
        TouchKeeps(d, d.byKey[key]);
      } else if Inserts(d, key, data) {
        AddKeeps(d, key, data);
      }
    case Delete(id) =>
      DeleteKeeps(d, id);
    case Clear =>
      ClearKeeps(d);
  }

  lemma AddKeeps(d: Dict, key: string, data: bytes)
    requires Consistent(d) && Inserts(d, key, data)
    ensures Consistent(Insert(Evicted(d, |data|), key, data))
    ensures Sound(d) ==> (Sound(Insert(Evicted(d, |data|), key, data)) <==> d.nextID !in Evicted(d, |data|).entries)
  {
    hide Consistent, CanFit, Insert, Distinct;
    EvictedKeeps(d, |data|);
    InsertKeeps(Evicted(d, |data|), key, data);
  }

  lemma DeleteKeeps(d: Dict, id: u32)
    requires Consistent(d)
    ensures Consistent(Remove(d, id)) && (Sound(d) ==> Sound(Remove(d, id)))
  {
    hide Consistent, Sound;
    if id in d.entries {
      RemoveIs(d, id);
      RemoveAllKeeps(d, {id});
    }
  }

  lemma ClearKeeps(d: Dict)
    requires Consistent(d)
    ensures Consistent(Apply(d, Clear)) && Sound(Apply(d, Clear))
  {
    hide Sum;
    SizesWithout(d.entries, d.entries.Keys);
    assert Sizes(map[]) == map[];
    assert Sum<u32>(map[]) == 0 by {
      SizeOfNone(d.entries);
      assert Restrict(Sizes(d.entries), {}) == map[];
    }
  }

  /** With room short, a new key that could fit at all is inserted exactly when the older half
      can free enough; a rejection changes nothing, and no entry of the younger half is lost. */
  lemma AddExact(d: Dict, key: string, data: bytes)
    requires Consistent(d) && data != [] && !Known(d, key) && |data| <= d.cap && d.cap - d.usedBytes < |data|
    ensures var m, after := d.entries, Apply(d, AddCandidate(key, data));
            && (after == d <==> d.cap - d.usedBytes + SizeOf(m, OlderHalf(m)) < |data|)
            && (after != d ==>
                  && after.entries == (m - Victims(d, |data|))[d.nextID := Entry(key, data, d.nextSeq, d.nextSeq)]
                  && after.usedBytes <= after.cap
                  && forall y :: y in m && y !in OlderHalf(m) && y != d.nextID ==>
                       y in after.entries && after.entries[y] == m[y])
  {
    hide SizeOf, OlderHalf, Consistent;
    EvictedKeeps(d, |data|);
  }

  /** With room for it, down to the last byte, a new key comes in and nothing goes; and nothing
      ever changes for an empty candidate or one larger than the whole cache. */
  lemma AddWithRoom(d: Dict, key: string, data: bytes)
    requires Consistent(d) && !Known(d, key)
    ensures data != [] && |data| <= d.cap - d.usedBytes ==>
              var after := Apply(d, AddCandidate(key, data));
              && after.entries == d.entries[d.nextID := Entry(key, data, d.nextSeq, d.nextSeq)]
              && after.byKey == d.byKey[key := d.nextID] && after.usedBytes == d.usedBytes + |data|
    ensures data == [] || |data| > d.cap ==> Apply(d, AddCandidate(key, data)) == d
  {
    hide SizeOf, OlderHalf, Consistent;
    assert d.usedBytes >= 0 by {
      UsedIsPositive(d);
    }
  }

  lemma UsedIsPositive(d: Dict)
    requires Consistent(d)
    ensures d.usedBytes >= 0
  {
    hide Distinct;
  }

  // ---- runs ----

  function New(cap: nat): Dict {
    Dict(cap, map[], map[], 0, 1, 1)
  }

  function Adds(ops: seq<Op>): nat {
    if ops == [] then 0 else Adds(ops[..|ops| - 1]) + if ops[|ops| - 1].AddCandidate? then 1 else 0
  }

  /** The ids handed out over a run, in order. */
  ghost function Issued(d: Dict, ops: seq<Op>): seq<u32> {
    if ops == [] then []
    else
      var init, op := ops[..|ops| - 1], ops[|ops| - 1];
      Issued(d, init)
      + if op.AddCandidate? && Inserts(Run(d, init), op.key, op.data) then [Run(d, init).nextID] else []
  }

  lemma NewKeeps(cap: nat)
    ensures Sound(New(cap)) && IdsBelow(New(cap))
  {
    assert Sizes(map[]) == map[];
    assert Sum<u32>(map[]) == 0;
  }

  lemma StepIds(d: Dict, op: Op)
    requires IdsBelow(d) && (op.AddCandidate? ==> d.nextID + 1 < TWO32)
    ensures FreshId(d, op) && IdsBelow(Apply(d, op))
    ensures Apply(d, op).nextID ==
            if op.AddCandidate? && Inserts(d, op.key, op.data) then d.nextID + 1 else d.nextID
  {
    hide Victims, CanFit, KeysOf, SizeOf;
  }

  /** Every reachable state: the clocks and the byte bound always hold; and while fewer than
      2^32 - 1 insertions have been tried, the account is exact, the indexes are inverse, and
      the ids handed out are 1, 2, 3, ... with none used twice, whatever was deleted or
      cleared in between. */
  lemma {:induction false} RunKeeps(cap: nat, ops: seq<Op>)
    ensures Consistent(Run(New(cap), ops))
    ensures Adds(ops) < TWO32 - 1 ==>
              var d, ids := Run(New(cap), ops), Issued(New(cap), ops);
              && Sound(d) && IdsBelow(d) && d.nextID == |ids| + 1 && |ids| <= Adds(ops)
              && forall k :: 0 <= k < |ids| ==> ids[k] == k + 1
  {
    hide Consistent, Sound, IdsBelow, Inserts, Apply, FreshId;
    if ops == [] {
      NewKeeps(cap);
      ConsistentIfSound(New(cap));
    } else {
      var init, op := ops[..|ops| - 1], ops[|ops| - 1];
      RunKeeps(cap, init);
      ApplyKeeps(Run(New(cap), init), op);
      if Adds(ops) < TWO32 - 1 {
        StepIds(Run(New(cap), init), op);
      }
    }
  }

  lemma ConsistentIfSound(d: Dict)
    requires Sound(d)
    ensures Consistent(d)
  {}

  // ---- the cache as a map from keys to bytes ----

  function Contents(d: Dict): map<string, bytes> {
    map k | k in d.byKey && d.byKey[k] in d.entries :: d.entries[d.byKey[k]].data
  }

  /** What each operation does to the keyed contents. */
  lemma ContentsStep(d: Dict, op: Op)
    requires Sound(d) && FreshId(d, op)
    ensures Contents(Apply(d, op)) ==
            match op
            case AddCandidate(key, data) =>
              if Inserts(d, key, data)
              then (Contents(d) - (if Free(d) < |data| then KeysOf(d.entries, Victims(d, |data|)) else {}))[key := data]
              else Contents(d)
            case Delete(id) => if id in d.entries then Contents(d) - {d.entries[id].key} else Contents(d)
            case Clear => map[]
            case _ => Contents(d)
  {
    hide Contents, Consistent, Sound, Victims, CanFit, Touch, Remove, RemoveAll, Insert, KeysOf;
    match op
    case GetByID(id) => ContentsTouched(d, id);
    case GetByKey(key) => ContentsTouchedKey(d, key);
    case AddCandidate(key, data) =>
      if Inserts(d, key, data) {
        ConsistentIfSound(d);
        EvictedKeeps(d, |data|);
        ContentsRemoved(d, Victims(d, |data|));
        ContentsInserted(Evicted(d, |data|), key, data);
        assert Contents(d) - {} == Contents(d);
      } else {
        ContentsTouchedKey(d, key);
      }
    case Delete(id) =>
      ContentsDeleted(d, id);
    case Clear =>
      ContentsCleared(d);
  }

  lemma ContentsTouched(d: Dict, id: u32)
    ensures Contents(Touch(d, id)) == Contents(d)
  {}

  lemma ContentsTouchedKey(d: Dict, key: string)
    ensures Contents(TouchKey(d, key)) == Contents(d)
  {}

  lemma ContentsCleared(d: Dict)
    ensures Contents(d.(entries := map[], byKey := map[], usedBytes := 0)) == map[]
  {}

  lemma ContentsRemoved(d: Dict, s: set<u32>)
    requires Sound(d)
    ensures Contents(RemoveAll(d, s)) == Contents(d) - KeysOf(d.entries, s)
  {
    hide Consistent, Sum, SizeOf;
  }

  lemma ContentsDeleted(d: Dict, id: u32)
    requires Sound(d)
    ensures Contents(Remove(d, id)) ==
            if id in d.entries then Contents(d) - {d.entries[id].key} else Contents(d)
  {
    hide Consistent, Sum;
  }

  lemma ContentsInserted(d: Dict, key: string, data: bytes)
    requires Sound(d) && d.nextID !in d.entries
    ensures Contents(Insert(d, key, data)) == Contents(d)[key := data]
  {
    hide Consistent, Sum;
  }

  /** A key gives back the bytes first inserted under it for as long as it is not removed. */
  lemma {:induction false} FirstBytesStay(cap: nat, ops: seq<Op>, i: nat, j: nat)
    requires Adds(ops) < TWO32 - 1 && i < j <= |ops|
    requires ops[i].AddCandidate? && Inserts(Run(New(cap), ops[..i]), ops[i].key, ops[i].data)
    requires forall k :: i < k <= j ==> ops[i].key in Contents(Run(New(cap), ops[..k]))
    ensures Contents(Run(New(cap), ops[..j]))[ops[i].key] == ops[i].data
    decreases j
  {
    hide Contents, Sound, Inserts, Apply, FreshId, IdsBelow, Victims, KeysOf, Run, Consistent;
    var d := Run(New(cap), ops[..j - 1]);
    AddsPrefix(ops, j);
    AddsPrefix(ops, j - 1);
    RunKeeps(cap, ops[..j - 1]);
    RunSnoc(New(cap), ops, j);
    StepIds(d, ops[j - 1]);
    ContentsStep(d, ops[j - 1]);
    if j - 1 > i {
      FirstBytesStay(cap, ops, i, j - 1);
      KnownNotInserted(d, ops[i].key);
    }
  }

  lemma RunSnoc(d: Dict, ops: seq<Op>, j: nat)
    requires 1 <= j <= |ops|
    ensures Run(d, ops[..j]) == Apply(Run(d, ops[..j - 1]), ops[j - 1])
  {
    hide Apply;
    assert ops[..j][..j - 1] == ops[..j - 1];
  }

  lemma {:induction false} AddsPrefix(ops: seq<Op>, j: nat)
    requires j <= |ops|
    ensures Adds(ops[..j]) <= Adds(ops)
    ensures j < |ops| && ops[j].AddCandidate? ==> Adds(ops[..j]) < Adds(ops)
    decreases |ops|
  {
    if j < |ops| {
      assert ops[..|ops| - 1][..j] == ops[..j];
      AddsPrefix(ops[..|ops| - 1], j);
    } else {
      assert ops[..j] == ops;
    }
  }

  lemma KnownNotInserted(d: Dict, key: string)
    requires key in Contents(d)
    ensures forall data :: !Inserts(d, key, data)
  {}

  // ---- planning and committing, on ids ----

  /** The older half, least recently used first. */
  ghost predicate LruOrder(m: Entries, ids: seq<u32>) {
    && NoDup(ids) && Items(ids) == OlderHalf(m) && OlderHalf(m) <= m.Keys
    && (forall i <- ids :: i in m)
    && forall a, b :: 0 <= a < b < |ids| ==> m[ids[a]].used < m[ids[b]].used
  }

  lemma ItemsStep(ids: seq<u32>, k: nat)
    requires NoDup(ids) && k < |ids|
    ensures Items(ids[..k + 1]) == Items(ids[..k]) + {ids[k]} && ids[k] !in Items(ids[..k])
  {
    assert ids[..k + 1] == ids[..k] + [ids[k]];
  }

  lemma UsedBeforeAt(m: Entries, ids: seq<u32>, k: nat)
    requires LruOrder(m, ids) && k < |ids|
    ensures UsedBefore(m, ids[k]) == Items(ids[..k])
  {
    hide OlderHalf;
    forall i | i in UsedBefore(m, ids[k])
      ensures i in Items(ids[..k])
    {
      assert i in Items(ids);
      var a :| 0 <= a < |ids| && ids[a] == i;
      assert a < k;
      assert ids[..k][a] == i;
    }
    forall i | i in Items(ids[..k])
      ensures i in UsedBefore(m, ids[k])
    {
      var a :| 0 <= a < k && ids[a] == i;
      assert i in Items(ids);
    }
  }

  /** The plan loop stops after exactly the victims. */
  lemma PlanIsVictims(d: Dict, ids: seq<u32>, t: nat, need: nat)
    requires LruOrder(d.entries, ids) && 1 <= t <= |ids|
    requires Free(d) + SizeOf(d.entries, Items(ids[..t])) >= need
    requires Free(d) + SizeOf(d.entries, Items(ids[..t - 1])) < need
    ensures Items(ids[..t]) == Victims(d, need) && CanFit(d, need)
  {
    hide SizeOf, OlderHalf;
    var m := d.entries;
    assert Items(ids[..t]) <= Items(ids);
    SizeOfMonotone(m, Items(ids[..t]), OlderHalf(m));
    forall k | 0 <= k < |ids|
      ensures ids[k] in Victims(d, need) <==> k < t
    {
      UsedBeforeAt(m, ids, k);
      assert ids[k] in Items(ids);
      if k < t {
        assert Items(ids[..k]) <= Items(ids[..t - 1]);
        SizeOfMonotone(m, Items(ids[..k]), Items(ids[..t - 1]));
      } else {
        assert Items(ids[..t]) <= Items(ids[..k]);
        SizeOfMonotone(m, Items(ids[..t]), Items(ids[..k]));
      }
    }
    hide UsedBefore, Victims;
    VictimsListed(d, ids, t, need);
  }

  lemma VictimsListed(d: Dict, ids: seq<u32>, t: nat, need: nat)
    requires LruOrder(d.entries, ids) && t <= |ids|
    requires forall k :: 0 <= k < |ids| ==> (ids[k] in Victims(d, need) <==> k < t)
    ensures Items(ids[..t]) == Victims(d, need)
  {
    hide OlderHalf, UsedBefore, SizeOf;
    forall i | i in Victims(d, need)
      ensures i in Items(ids[..t])
    {
      assert i in Items(ids);
      var k :| 0 <= k < |ids| && ids[k] == i;
      assert ids[..t][k] == i;
    }
  }

  lemma RemoveOneMore(d: Dict, s: set<u32>, id: u32)
    requires Consistent(d) && id in d.entries && id !in s
    ensures Remove(RemoveAll(d, s), id) == RemoveAll(d, s + {id})
  {
    hide Consistent, Sound, SizeOf, KeysOf;
    RemoveAllKeeps(d, s);
    RemoveIs(RemoveAll(d, s), id);
    SizeOfAdd(d.entries, s, id);
    KeysOfAdd(d, s, id);
    assert d.entries - s - {id} == d.entries - (s + {id});
  }

  lemma KeysOfAdd(d: Dict, s: set<u32>, id: u32)
    requires id in d.entries && id !in s
    ensures d.byKey - KeysOf(d.entries, s) - {d.entries[id].key} == d.byKey - KeysOf(d.entries, s + {id})
  {
    assert KeysOf(d.entries, s + {id}) == KeysOf(d.entries, s) + {d.entries[id].key};
  }

  lemma RemoveNone(d: Dict)
    ensures RemoveAll(d, {}) == d
  {
    SizeOfNone(d.entries);
    assert d.entries - {} == d.entries && KeysOf(d.entries, {}) == {} && d.byKey - {} == d.byKey;
  }

  lemma ConsistentDistinct(d: Dict)
    requires Consistent(d)
    ensures Distinct(d.entries, d.nextSeq)
  {}

  /** Fewer than two entries: none of them is in the older half. */
  lemma NothingOlder(d: Dict)
    requires |d.entries| < 2
    ensures OlderHalf(d.entries) == {} && SizeOf(d.entries, OlderHalf(d.entries)) == 0
  {
    SizeOfNone(d.entries);
    assert OlderHalf(d.entries) == {};
  }

  /** Planning through the whole order without reaching the need means it cannot be met. */
  lemma PlanFails(d: Dict, ids: seq<u32>, need: nat)
    requires LruOrder(d.entries, ids) && Free(d) + SizeOf(d.entries, Items(ids[..|ids|])) < need
    ensures !CanFit(d, need)
  {
    hide SizeOf, OlderHalf;
    assert ids[..|ids|] == ids;
  }

  lemma LruOrderParts(m: Entries, ids: seq<u32>)
    requires LruOrder(m, ids)
    ensures NoDup(ids) && |ids| == |OlderHalf(m)|
  {
    hide OlderHalf;
    ItemsCount(ids);
  }

  // ---- the objects ----

  class DictEntry {
    const id: u32
    const key: string
    const data: bytes
    const size: nat
    const createdSeq: nat
    var lastUsedSeq: nat

    constructor (id: u32, key: string, data: bytes, seqNo: nat)
      ensures this.id == id && size == |data| && Val() == Entry(key, data, seqNo, seqNo)
    {
      this.id, this.key, this.data := id, key, data;
      size, createdSeq, lastUsedSeq := |data|, seqNo, seqNo;
    }

    function Val(): Entry
      reads this
    {
      Entry(key, data, createdSeq, lastUsedSeq)
    }
  }

  ghost function Ids(es: seq<DictEntry>): (ids: seq<u32>)
    ensures |ids| == |es| && forall i :: 0 <= i < |es| ==> ids[i] == es[i].id
  {
    seq(|es|, i requires 0 <= i < |es| => es[i].id)
  }

  lemma IdsPrefix(es: seq<DictEntry>, k: nat)
    requires k <= |es|
    ensures Ids(es[..k]) == Ids(es)[..k] && Ids(es[..k])[..k] == Ids(es[..k])
    ensures k > 0 ==> Ids(es[..k])[..k - 1] == Ids(es)[..k - 1]
  {
    assert Ids(es[..k]) == Ids(es)[..k];
  }

  /** The values of a table of entries. */
  ghost function Vals(m: map<u32, DictEntry>): Entries
    reads m.Values
  {
    map i | i in m :: m[i].Val()
  }

  lemma ValsWithout(m: map<u32, DictEntry>, id: u32)
    ensures Vals(m - {id}) == Vals(m) - {id}
  {}

  lemma ValsWith(m: map<u32, DictEntry>, id: u32, e: DictEntry)
    ensures Vals(m[id := e]) == Vals(m)[id := e.Val()]
  {}

  lemma RemovedParts(d: Dict, id: u32)
    requires id in d.entries
    ensures var left := d.usedBytes - |d.entries[id].data|;
            Remove(d, id) == Dict(d.cap, d.entries - {id}, d.byKey - {d.entries[id].key}, if left < 0 then 0 else left,
                                  d.nextID, d.nextSeq)
  {}

  lemma FreeAfter(d: Dict, s: set<u32>)
    ensures Free(RemoveAll(d, s)) == Free(d) + SizeOf(d.entries, s)
    ensures RemoveAll(d, s).entries == d.entries - s
  {}

  lemma ValsTouched(m: map<u32, DictEntry>, id: u32, was: Entries)
    requires id in m && m.Keys == was.Keys
    requires forall i <- m :: i != id ==> m[i].Val() == was[i]
    ensures Vals(m) == was[id := m[id].Val()]
  {}

  class Dictionary {
    const capBytes: nat
    var usedBytes: int
    var nextID: u32
    var nextSeq: nat
    var entries: map<u32, DictEntry>
    var byKey: map<string, u32>

    ghost function State(): Dict
      reads this, entries.Values
    {
      Dict(capBytes, Vals(entries), byKey, usedBytes, nextID, nextSeq)
    }

    /** Every object knows its own id and size. */
    ghost predicate Own()
      reads this`entries
    {
      forall i <- entries :: entries[i].id == i && entries[i].size == |entries[i].data|
    }

    ghost predicate Valid()
      reads this, entries.Values
    {
      Own() && Consistent(State())
    }

    constructor (capacity: nat)
      requires capacity > 0
      ensures Valid() && State() == New(capacity)
    {
      capBytes, usedBytes, nextID, nextSeq, entries, byKey := capacity, 0, 1, 1, map[], map[];
      new;
      NewKeeps(capacity);
      assert State().entries == map[];
    }

    lemma SameCount()
      ensures |State().entries| == |entries|
    {
      assert State().entries.Keys == entries.Keys;
      assert |State().entries.Keys| == |State().entries| && |entries.Keys| == |entries|;
    }

    lemma EntryVals()
      ensures Vals(entries).Keys == entries.Keys && forall i <- entries :: Vals(entries)[i] == entries[i].Val()
    {}

    method FreeBytes() returns (n: int)
      ensures n == Free(State())
    {
      n := capBytes - usedBytes;
    }

    /** `touch`. */
    method TouchEntry(e: DictEntry)
      requires Valid() && e.id in entries && entries[e.id] == e
      modifies this`nextSeq, e
      ensures Valid() && State() == Touch(old(State()), e.id)
      ensures UsedNow(old(State()).entries, State().entries, e.id)
    {
      hide Consistent, Vals, UsedNow;
      TouchKeeps(State(), e.id);
      EntryVals();
      TouchUses(State(), e.id);
      ghost var was := Vals(entries);
      e.lastUsedSeq := nextSeq;
      nextSeq := nextSeq + 1;
      ValsTouched(entries, e.id, was);
    }

    /** `GetByID`: the entry, marked as used. */
    method GetByID(id: u32) returns (e: Option<DictEntry>)
      requires Valid()
      modifies this`nextSeq, entries.Values
      ensures Valid() && State() == Apply(old(State()), Op.GetByID(id))
      ensures e == if id in entries then Some(entries[id]) else None
      ensures e.Some? ==> UsedNow(old(State()).entries, State().entries, id)
    {
      hide Consistent, UsedNow;
      if id !in entries {
        return None;
      }
      TouchEntry(entries[id]);
      e := Some(entries[id]);
    }

    /** `GetByKey`: the entry the key leads to, marked as used; its bytes are the contents. */
    method GetByKey(key: string) returns (e: Option<DictEntry>)
      requires Valid()
      modifies this`nextSeq, entries.Values
      ensures Valid() && State() == Apply(old(State()), Op.GetByKey(key))
      ensures e == if key in byKey && byKey[key] in entries then Some(entries[byKey[key]]) else None
      ensures e.Some? <==> key in Contents(old(State()))
      ensures e.Some? ==> e.value.data == Contents(old(State()))[key]
      ensures e.Some? ==> UsedNow(old(State()).entries, State().entries, byKey[key])
    {
      hide Consistent, UsedNow;
      if key !in byKey {
        return None;
      }
      e := GetByID(byKey[key]);
    }

    /** `Delete`. */
    method Delete(id: u32) returns (ok: bool)
      requires Valid()
      modifies this`entries, this`byKey, this`usedBytes
      ensures Valid() && State() == Apply(old(State()), Op.Delete(id))
      ensures (ok <==> id in old(entries)) && entries == old(entries) - {id}
    {
      hide Consistent, Vals;
      EntryVals();
      if id !in entries {
        assert entries - {id} == entries;
        return false;
      }
      Unlink(entries[id]);
      return true;
    }

    /** The body of Delete, for an entry that is there. */
    method Unlink(e: DictEntry)
      requires Valid() && e.id in entries && entries[e.id] == e
      modifies this`entries, this`byKey, this`usedBytes
      ensures Valid() && State() == Remove(old(State()), e.id)
      ensures entries == old(entries) - {e.id}
    {
      hide Consistent, Vals, Remove;
      ghost var goal := Remove(State(), e.id);
      Unlinked(e);
      entries := entries - {e.id};
      byKey := byKey - {e.key};
      usedBytes := usedBytes - e.size;
      if usedBytes < 0 {
        usedBytes := 0;
      }
      assert State() == goal;
    }

    /** The parts of the state without an entry. */
    lemma Unlinked(e: DictEntry)
      requires Valid() && e.id in entries && entries[e.id] == e
      ensures var left, d := usedBytes - e.size, Remove(State(), e.id);
              && d == Dict(capBytes, Vals(entries - {e.id}), byKey - {e.key}, if left < 0 then 0 else left,
                           nextID, nextSeq)
              && Consistent(d)
    {
      hide Consistent, Remove;
      DeleteKeeps(State(), e.id);
      RemovedParts(State(), e.id);
      ValsWithout(entries, e.id);
    }

    /** `Clear`. */
    method Clear()
      requires Valid()
      modifies this`entries, this`byKey, this`usedBytes
      ensures Valid() && State() == Apply(old(State()), Op.Clear)
    {
      hide Consistent;
      ClearKeeps(State());
      entries := map[];
      byKey := map[];
      usedBytes := 0;
      assert State().entries == map[];
    }

    // ---- guarded eviction ----

    /** These objects are entries of this dictionary. */
    ghost predicate Held(es: seq<DictEntry>)
      reads this`entries
    {
      forall e <- es :: e.id in entries && entries[e.id] == e
    }

    /** The entries, each once, in whatever order the map yields them. */
    method Objects() returns (all: seq<DictEntry>)
      requires Own()
      ensures NoDup(all) && Held(all) && forall i <- entries :: entries[i] in all
    {
      all := [];
      var keys := entries.Keys;
      while keys != {}
        invariant keys <= entries.Keys && NoDup(all) && Held(all)
        invariant forall e <- all :: e.id !in keys
        invariant forall i <- entries :: i in keys || entries[i] in all
        decreases |keys|
      {
        var key :| key in keys;
        all := all + [entries[key]];
        keys := keys - {key};
      }
    }

    /** The entries, oldest first. */
    method ByAge() returns (all: seq<DictEntry>)
      requires Own()
      ensures NoDup(all) && Held(all) && forall i <- entries :: entries[i] in all
      ensures forall a, b :: 0 <= a < b < |all| ==> all[a].createdSeq <= all[b].createdSeq
    {
      hide NoDup;
      var found := Objects();
      var created := map e | e in found :: e.createdSeq;
      all := SortBy(found, created);
      assert forall e <- all :: created[e] == e.createdSeq;
    }

    /** These entries, least recently used first. */
    static method ByUse(es: seq<DictEntry>) returns (r: seq<DictEntry>)
      requires NoDup(es)
      ensures Rearranged(r, es)
      ensures forall a, b :: 0 <= a < b < |r| ==> r[a].lastUsedSeq <= r[b].lastUsedSeq
    {
      hide NoDup;
      var recency := map e | e in es :: e.lastUsedSeq;
      r := SortBy(es, recency);
      assert forall e <- r :: recency[e] == e.lastUsedSeq;
    }

    /** The older half by creation, sorted least recently used first. */
    method OlderByUse() returns (older: seq<DictEntry>)
      requires Valid()
      ensures Held(older) && LruOrder(State().entries, Ids(older))
    {
      hide Consistent, LruOrder, NoDup, Rearranged, OlderHalf, Distinct;
      ConsistentDistinct(State());
      var all := ByAge();
      var half := |all| / 2;
      AgeSplit(all, half);
      older := ByUse(all[..half]);
      UseOrder(all[..half], older);
    }

    /** Cutting the creation order in the middle gives the older half. */
    lemma AgeSplit(all: seq<DictEntry>, half: nat)
      requires Own() && Distinct(State().entries, nextSeq)
      requires NoDup(all) && Held(all) && forall i <- entries :: entries[i] in all
      requires forall a, b :: 0 <= a < b < |all| ==> all[a].createdSeq <= all[b].createdSeq
      requires half == |all| / 2
      ensures NoDup(all[..half]) && Held(all[..half])
      ensures Items(Ids(all[..half])) == OlderHalf(State().entries)
    {
      hide Lowest, Listing, Creation, Injective, Distinct, Items, Vals;
      AllListed(all);
      LowestIs(Ids(all), Creation(State().entries), half);
      IdsPrefix(all, half);
      SameCount();
    }

    lemma AllListed(all: seq<DictEntry>)
      requires Own() && Distinct(State().entries, nextSeq)
      requires NoDup(all) && Held(all) && forall i <- entries :: entries[i] in all
      requires forall a, b :: 0 <= a < b < |all| ==> all[a].createdSeq <= all[b].createdSeq
      ensures Listing(Ids(all), Creation(State().entries)) && Injective(Creation(State().entries))
      ensures |all| == |entries|
    {
      hide NoDup, Items, Sorted;
      AllIds(all);
      ItemsCount(Ids(all));
      assert forall i <- Ids(all) :: i in Creation(State().entries);
      assert Creation(State().entries).Keys == entries.Keys;
      SortedByCreation(all, Ids(all), Creation(State().entries));
    }

    lemma SortedByCreation(all: seq<DictEntry>, ids: seq<u32>, rank: map<u32, int>)
      requires Own() && Held(all) && ids == Ids(all) && rank == Creation(State().entries)
      requires forall a, b :: 0 <= a < b < |all| ==> all[a].createdSeq <= all[b].createdSeq
      requires forall i <- ids :: i in rank
      ensures Sorted(ids, rank)
    {
      forall a, b | 0 <= a < b < |ids|
        ensures rank[ids[a]] <= rank[ids[b]]
      {
        assert all[a].createdSeq <= all[b].createdSeq;
        assert entries[ids[a]] == all[a] && entries[ids[b]] == all[b];
      }
    }

    lemma AllIds(all: seq<DictEntry>)
      requires Own() && NoDup(all) && Held(all) && forall i <- entries :: entries[i] in all
      ensures NoDup(Ids(all)) && Items(Ids(all)) == entries.Keys
    {
      forall i | i in entries
        ensures i in Items(Ids(all))
      {
        var n :| 0 <= n < |all| && all[n] == entries[i];
        assert Ids(all)[n] == i;
      }
    }

    /** Sorting the older half by use gives the order in which it may go. */
    lemma UseOrder(olderHalf: seq<DictEntry>, older: seq<DictEntry>)
      requires Own() && Distinct(State().entries, nextSeq)
      requires Held(olderHalf) && Items(Ids(olderHalf)) == OlderHalf(State().entries)
      requires Rearranged(older, olderHalf)
      requires forall a, b :: 0 <= a < b < |older| ==> older[a].lastUsedSeq <= older[b].lastUsedSeq
      ensures Held(older) && LruOrder(State().entries, Ids(older))
    {
      IdsWithin(older, olderHalf);
      IdsWithin(olderHalf, older);
      assert Held(older) && NoDup(Ids(older));
      hide OlderHalf, Items, Rearranged, NoDup;
      var m, ids := State().entries, Ids(older);
      forall a, b | 0 <= a < b < |ids|
        ensures m[ids[a]].used < m[ids[b]].used
      {
        assert ids[a] != ids[b];
      }
    }

    static lemma IdsWithin(x: seq<DictEntry>, y: seq<DictEntry>)
      requires forall e <- x :: e in y
      ensures Items(Ids(x)) <= Items(Ids(y))
    {
      forall i | i in Ids(x)
        ensures i in Ids(y)
      {
        var n :| 0 <= n < |x| && x[n].id == i;
        assert x[n] in y;
        var k :| 0 <= k < |y| && y[k] == x[n];
        assert Ids(y)[k] == i;
      }
    }

    /** Phase 1 of evictToFit: the front of the order that frees enough, or all of it. */
    method Plan(older: seq<DictEntry>, free: int, need: nat) returns (victims: seq<DictEntry>, freed: nat)
      requires Own() && Held(older) && NoDup(Ids(older)) && older != [] && free < need
      ensures 1 <= |victims| <= |older| && victims == older[..|victims|]
      ensures freed == SizeOf(State().entries, Items(Ids(older)[..|victims|]))
      ensures free + SizeOf(State().entries, Items(Ids(older)[..|victims| - 1])) < need
      ensures free + freed >= need || |victims| == |older|
    {
      hide SizeOf;
      freed, victims := 0, [];
      ghost var m, ids := State().entries, Ids(older);
      SizeOfNone(m);
      assert Items(ids[..0]) == {};
      var i := 0;
      while i < |older|
        invariant i == |victims| <= |older| && victims == older[..i]
        invariant freed == SizeOf(m, Items(ids[..i])) && free + freed < need
        invariant i > 0 ==> free + SizeOf(m, Items(ids[..i - 1])) < need
      {
        ItemsStep(ids, i);
        SizeOfAdd(m, Items(ids[..i]), ids[i]);
        freed := freed + older[i].size;
        victims := victims + [older[i]];
        i := i + 1;
        if free + freed >= need {
          return;
        }
      }
    }

    /** Phase 2: the planned victims go, all of them and nothing else. */
    method Commit(victims: seq<DictEntry>, need: nat) returns (ok: bool)
      requires Valid() && Held(victims) && NoDup(Ids(victims)) && victims != []
      requires var m, ids := State().entries, Ids(victims);
               Free(State()) + SizeOf(m, Items(ids[..|ids| - 1])) < need <= Free(State()) + SizeOf(m, Items(ids))
      modifies this`entries, this`byKey, this`usedBytes
      ensures Valid() && ok && entries.Values <= old(entries.Values)
      ensures State() == RemoveAll(old(State()), Items(Ids(victims)))
    {
      hide Consistent, SizeOf, Remove, RemoveAll, KeysOf, Vals, Free, Items, Ids, Held, NoDup;
      ghost var was, ids := State(), Ids(victims);
      ghost var gone: set<u32> := {};
      CommitStart(was, ids);
      HeldIds(victims);
      var i := 0;
      while i < |victims|
        invariant 0 <= i <= |victims| && Valid() && gone == Items(ids[..i])
        invariant State() == RemoveAll(was, gone)
        invariant entries.Values <= old(entries.Values)
        invariant i == |victims| ==> Free(State()) < need
      {
        CommitStep(was, ids, i, gone, entries, victims[i]);
        var _ := Delete(victims[i].id);
        gone := gone + {ids[i]};
        i := i + 1;
        var free := FreeBytes();
        if free >= need {
          NotBefore(was.entries, ids, i, Free(was), need);
          return true;
        }
      }
      return false;
    }

    lemma HeldIds(es: seq<DictEntry>)
      requires Held(es)
      ensures forall i :: 0 <= i < |es| ==> Ids(es)[i] == es[i].id && Ids(es)[i] in State().entries
    {
      EntryVals();
    }

    lemma CommitStart(was: Dict, ids: seq<u32>)
      ensures Items(ids[..0]) == {} && ids[..|ids|] == ids && RemoveAll(was, {}) == was
      ensures Free(RemoveAll(was, Items(ids))) == Free(was) + SizeOf(was.entries, Items(ids))
    {
      hide SizeOf;
      assert Items(ids[..0]) == {};
      RemoveNone(was);
      FreeAfter(was, Items(ids));
    }

    /** Deleting the next victim is removing one more. */
    lemma CommitStep(was: Dict, ids: seq<u32>, i: nat, gone: set<u32>, now: map<u32, DictEntry>, v: DictEntry)
      requires Consistent(was) && NoDup(ids) && i < |ids| && gone == Items(ids[..i]) && ids[i] in was.entries
      requires Vals(now) == RemoveAll(was, gone).entries && v.id == ids[i]
      ensures v.id in now
      ensures Remove(RemoveAll(was, gone), ids[i]) == RemoveAll(was, gone + {ids[i]})
      ensures gone + {ids[i]} == Items(ids[..i + 1])
      ensures Free(RemoveAll(was, gone + {ids[i]})) == Free(was) + SizeOf(was.entries, gone + {ids[i]})
    {
      hide Consistent, SizeOf, Remove, KeysOf, Free;
      ItemsStep(ids, i);
      RemoveOneMore(was, gone, ids[i]);
      FreeAfter(was, gone + {ids[i]});
      assert ids[i] in Vals(now);
    }

    /** Any shorter front than all of the ids frees too little. */
    lemma NotBefore(m: Entries, ids: seq<u32>, i: nat, free: int, need: nat)
      requires 1 <= i <= |ids|
      requires free + SizeOf(m, Items(ids[..|ids| - 1])) < need <= free + SizeOf(m, Items(ids[..i]))
      ensures i == |ids|
    {
      hide SizeOf;
      if i < |ids| {
        assert Items(ids[..i]) <= Items(ids[..|ids| - 1]);
        SizeOfMonotone(m, Items(ids[..i]), Items(ids[..|ids| - 1]));
      }
    }

    /** `evictToFit`: room is made exactly when the older half allows it, at the cost of
        exactly the victims; otherwise nothing changes. */
    method EvictToFit(need: nat) returns (ok: bool)
      requires Valid()
      modifies this`entries, this`byKey, this`usedBytes
      ensures Valid() && entries.Values <= old(entries.Values)
      ensures ok <==> Free(old(State())) >= need || CanFit(old(State()), need)
      ensures State() == Evicted(old(State()), need)
    {
      hide Consistent, SizeOf, RemoveAll, OlderHalf, Victims;
      var free := FreeBytes();
      if free >= need {
        return true;
      }
      SameCount();
      if |entries| == 0 {
        NothingOlder(State());
        return false;
      }
      var half := |entries| / 2;
      if half == 0 {
        NothingOlder(State());
        return false;
      }
      ok := EvictOlder(free, need);
    }

    /** The rest of evictToFit, with at least one entry eligible: plan, then commit. */
    method EvictOlder(free: int, need: nat) returns (ok: bool)
      requires Valid() && free == Free(State()) < need && |entries| >= 2
      modifies this`entries, this`byKey, this`usedBytes
      ensures Valid() && entries.Values <= old(entries.Values)
      ensures ok <==> CanFit(old(State()), need)
      ensures State() == if ok then RemoveAll(old(State()), Victims(old(State()), need)) else old(State())
    {
      hide Consistent, SizeOf, RemoveAll, LruOrder, OlderHalf, Victims, CanFit, Items;
      SameCount();
      ConsistentDistinct(State());
      OlderHalfSplits(State().entries, nextSeq);
      var olderHalf := OlderByUse();
      LruOrderParts(State().entries, Ids(olderHalf));
      var victims, freed := Plan(olderHalf, free, need);
      if free + freed < need {
        PlanFails(State(), Ids(olderHalf), need);
        return false;
      }
      IdsPrefix(olderHalf, |victims|);
      PlanIsVictims(State(), Ids(olderHalf), |victims|, need);
      ok := Commit(victims, need);
    }

    /** The new entry takes the next id and the next tick, and both counters move on. */
    method Store(e: DictEntry)
      requires Valid() && e.data != [] && Free(State()) >= |e.data|
      requires e.id == nextID && e.createdSeq == e.lastUsedSeq == nextSeq && e.size == |e.data|
      modifies this`entries, this`byKey, this`usedBytes, this`nextID, this`nextSeq
      ensures Valid() && State() == Insert(old(State()), e.key, e.data)
      ensures entries == old(entries)[e.id := e]
    {
      hide Consistent, Vals;
      InsertKeeps(State(), e.key, e.data);
      ValsWith(entries, e.id, e);
      nextID := Add32(nextID, 1);
      nextSeq := nextSeq + 1;
      entries := entries[e.id := e];
      byKey := byKey[e.key := e.id];
      usedBytes := usedBytes + e.size;
    }

    method InsertNew(key: string, b: bytes) returns (e: DictEntry)
      requires Valid() && b != [] && Free(State()) >= |b|
      modifies this`entries, this`byKey, this`usedBytes, this`nextID, this`nextSeq
      ensures Valid() && State() == Insert(old(State()), key, b)
      ensures e.id in entries && entries[e.id] == e && fresh(e)
      ensures entries == old(entries)[e.id := e]
    {
      hide Consistent, Insert;
      e := new DictEntry(nextID, key, b, nextSeq);
      Store(e);
    }

    /** `AddCandidate`: the known key is touched, the newcomer goes in if room can be made. */
    method AddCandidate(key: string, b: bytes) returns (entry: Option<DictEntry>, inserted: bool)
      requires Valid()
      modifies this, entries.Values
      ensures Valid() && State() == Apply(old(State()), Op.AddCandidate(key, b))
      ensures inserted <==> Inserts(old(State()), key, b)
      ensures entry.Some? ==> entry.value.id in entries && entries[entry.value.id] == entry.value
      ensures entry.Some? <==> inserted || (b != [] && Known(old(State()), key))
      ensures entry.Some? && !inserted ==> UsedNow(old(State()).entries, State().entries, byKey[key])
    {
      hide UsedNow, Consistent, Touch, Evicted, Insert, CanFit, Vals;
      if |b| == 0 {
        return None, false;
      }
      EntryVals();
      UnknownKey(State(), key);
      var existing := GetByKey(key);
      if existing.Some? {
        return existing, false;
      }
      entry := AddNew(key, b);
      inserted := entry.Some?;
    }

    /** The rest of AddCandidate, for a key that leads nowhere. */
    method AddNew(key: string, b: bytes) returns (entry: Option<DictEntry>)
      requires Valid() && b != [] && !Known(State(), key)
      modifies this
      ensures Valid()
      ensures entry.Some? <==> Inserts(old(State()), key, b)
      ensures State() == if entry.Some? then Insert(Evicted(old(State()), |b|), key, b) else old(State())
      ensures entry.Some? ==> entry.value.id in entries && entries[entry.value.id] == entry.value
      ensures entries.Values - old(entries.Values) <= if entry.Some? then {entry.value} else {}
      ensures entry.Some? ==> fresh(entry.value)
    {
      hide Consistent, RemoveAll, Victims, CanFit, Insert, Vals;
      var need := |b|;
      if need > capBytes {
        return None;
      }
      var free := FreeBytes();
      if free < need {
        EvictedKeeps(State(), need);
        var ok := EvictToFit(need);
        if !ok {
          return None;
        }
      }
      var e := InsertNew(key, b);
      return Some(e);
    }
  }

  /** Looking up a key that leads nowhere changes nothing. */
  lemma UnknownKey(d: Dict, key: string)
    ensures !Known(d, key) ==> TouchKey(d, key) == d
  {}
}
