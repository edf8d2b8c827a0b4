/** The two clocks of the pattern cache mean what they are for: the order of use is the order in
    which the operations used the entries, and the order of creation that in which they came. */
module Recency {
  import opened Numbers
  import opened Sums
  import opened MemoryDictionary

  /** The operation looks up, finds again or inserts this entry. */
  ghost predicate Uses(d: Dict, op: Op, id: u32) {
    match op
    case GetByID(i) => i == id && id in d.entries
    case GetByKey(key) => key in d.byKey && d.byKey[key] == id && id in d.entries
    case AddCandidate(key, data) =>
      || (data != [] && key in d.byKey && d.byKey[key] == id && id in d.entries)
      || (Inserts(d, key, data) && id == d.nextID)
    case _ => false
  }

  /** The operation brings this entry into the cache. */
  ghost predicate Brings(d: Dict, op: Op, id: u32) {
    op.AddCandidate? && Inserts(d, op.key, op.data) && id == d.nextID
  }

  /** The last operation of a run that used the entry, or -1. */
  ghost function LastUse(d: Dict, ops: seq<Op>, id: u32): int {
    if ops == [] then -1
    else
      var n := |ops| - 1;
      if Uses(Run(d, ops[..n]), ops[n], id) then n else LastUse(d, ops[..n], id)
  }

  ghost function LastBrought(d: Dict, ops: seq<Op>, id: u32): int {
    if ops == [] then -1
    else
      var n := |ops| - 1;
      if Brings(Run(d, ops[..n]), ops[n], id) then n else LastBrought(d, ops[..n], id)
  }

  /** One operation: the entry used becomes the latest, an entry brought is also the youngest,
      and every other entry still there keeps both its times. */
  lemma StepTimes(d: Dict, op: Op, id: u32)
    requires Consistent(d) && id in Apply(d, op).entries
    ensures var after := Apply(d, op).entries;
            && (if Uses(d, op, id) then after[id].used == d.nextSeq
                else id in d.entries && after[id].used == d.entries[id].used)
            && (if Brings(d, op, id) then after[id].created == d.nextSeq
                else id in d.entries && after[id].created == d.entries[id].created)
  {
    hide Victims, CanFit, KeysOf, SizeOf, Consistent;
  }

  /** The clock moves on exactly when an entry is used, the id counter exactly when one is brought
      in (on 32 bits), and nothing, Clear included, sets either back. */
  lemma CountersMove(d: Dict, op: Op)
    requires Consistent(d)
    ensures Apply(d, op).nextSeq == d.nextSeq + if exists id :: Uses(d, op, id) then 1 else 0
    ensures Apply(d, op).nextID == (d.nextID + if exists id :: Brings(d, op, id) then 1 else 0) % 0x1_0000_0000
  {
    hide Victims, CanFit, KeysOf, SizeOf, Consistent;
    match op
    case GetByID(id) => assert id in d.entries ==> Uses(d, op, id);
    case GetByKey(key) => assert Known(d, key) ==> Uses(d, op, d.byKey[key]);
    case AddCandidate(key, data) =>
      assert data != [] && Known(d, key) ==> Uses(d, op, d.byKey[key]);
      assert Inserts(d, key, data) ==> Uses(d, op, d.nextID) && Brings(d, op, d.nextID);
    case _ =>
  }

  lemma {:induction false} LastUseBounds(d: Dict, ops: seq<Op>, id: u32)
    ensures -1 <= LastUse(d, ops, id) < |ops| && -1 <= LastBrought(d, ops, id) < |ops|
  {
    hide Uses, Brings, Run;
    if ops != [] {
      LastUseBounds(d, ops[..|ops| - 1], id);
    }
  }

  /** In every reachable state an entry was used before another exactly when its last use came
      before the other's, and created before it exactly when it was brought in before it. */
  lemma {:induction false} TimesAreHistory(cap: nat, ops: seq<Op>, i: u32, j: u32)
    requires i != j && i in Run(New(cap), ops).entries && j in Run(New(cap), ops).entries
    ensures var m := Run(New(cap), ops).entries;
            && (m[i].used < m[j].used <==> LastUse(New(cap), ops, i) < LastUse(New(cap), ops, j))
            && (m[i].created < m[j].created <==> LastBrought(New(cap), ops, i) < LastBrought(New(cap), ops, j))
  {
    hide Uses, Brings, Apply, Consistent;
    var n := |ops| - 1;
    var init, op := ops[..n], ops[n];
    var d := Run(New(cap), init);
    RunKeeps(cap, init);
    StepTimes(d, op, i);
    StepTimes(d, op, j);
    LastUseBounds(New(cap), init, i);
    LastUseBounds(New(cap), init, j);
    Past(d);
    Alternatives(d, op, i, j);
    if i in d.entries && j in d.entries {
      TimesAreHistory(cap, init, i, j);
    }
  }

  lemma Past(d: Dict)
    requires Consistent(d)
    ensures forall i <- d.entries :: d.entries[i].used < d.nextSeq && d.entries[i].created < d.nextSeq
  {
    hide Sum;
  }

  lemma Alternatives(d: Dict, op: Op, i: u32, j: u32)
    requires i != j
    ensures !(Uses(d, op, i) && Uses(d, op, j)) && !(Brings(d, op, i) && Brings(d, op, j))
    ensures (Brings(d, op, i) ==> Uses(d, op, i)) && (Brings(d, op, j) ==> Uses(d, op, j))
  {
    hide CanFit;
  }

  // ---- what a use protects ----

  /** The entry used last goes only with all the rest of the older half. */
  lemma LastUsedGoesLast(d: Dict, id: u32, need: nat)
    requires Consistent(d) && id in d.entries
    requires forall j <- d.entries :: j != id ==> d.entries[j].used < d.entries[id].used
    requires id in Victims(d, need)
    ensures Victims(d, need) == OlderHalf(d.entries)
  {
    hide SizeOf, OlderHalf, Sum;
    var m := d.entries;
    OlderHalfSplits(m, d.nextSeq);
    forall j | j in OlderHalf(m)
      ensures j in Victims(d, need)
    {
      SizeOfMonotone(m, UsedBefore(m, j), UsedBefore(m, id));
    }
  }
}
