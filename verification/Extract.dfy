/** The exhaustive span scan of a packet: every start, every end of the first constant, every
    closing byte, counted per pair of constants. */
module Extract {
  import opened Bytes
  import opened Numbers
  import opened Splitter

  /** constA is [i, iA), the lane [iA, iB), constB the byte at iB. */
  datatype Triple = Triple(i: nat, iA: nat, iB: nat)

  datatype Key = Key(constA: bytes, constB: bytes)

  type Table = map<Key, SpanObservation>

  function KeyOf(o: SpanObservation): Key {
    Key(o.constA, o.constB)
  }

  predicate InPacket(t: Triple, n: nat) {
    t.i < t.iA < t.iB < n
  }

  /** The order in which the loops visit. */
  predicate Before(t: Triple, u: Triple) {
    t.i < u.i || (t.i == u.i && (t.iA < u.iA || (t.iA == u.iA && t.iB < u.iB)))
  }

  function KeyAt(b: bytes, t: Triple): Key
    requires InPacket(t, |b|)
  {
    Key(b[t.i..t.iA], [b[t.iB]])
  }

  /** All places where the two constants enclose a lane. */
  ghost function Occurrences(b: bytes, k: Key): set<Triple> {
    set i, iA, iB | 0 <= i < iA < iB < |b| && b[i..iA] == k.constA && [b[iB]] == k.constB :: Triple(i, iA, iB)
  }

  ghost predicate First(t: Triple, s: set<Triple>) {
    t in s && forall u <- s :: u == t || Before(t, u)
  }

  ghost predicate Last(t: Triple, s: set<Triple>) {
    t in s && forall u <- s :: u == t || Before(u, t)
  }

  function SizeAt(t: Triple): u32
    requires t.i <= t.iB
  {
    Wrap32(t.iB + 1 - t.i)
  }

  /** The size is that of the first place. */
  ghost predicate SizeOfFirst(size: u32, s: set<Triple>) {
    exists t :: First(t, s) && t.i <= t.iB && size == (t.iB + 1 - t.i) % 0x1_0000_0000
  }

  /** The offset is that of the last place. */
  ghost predicate OffsetOfLast(at: nat, s: set<Triple>, offset: nat) {
    exists t :: Last(t, s) && at == offset + t.iB
  }

  /** What the table must say about a key with these occurrences. */
  ghost predicate Describes(o: SpanObservation, k: Key, s: set<Triple>, offset: nat) {
    && o.constA == k.constA && o.constB == k.constB && o.intraHits == |s| % TWO16
    && SizeOfFirst(o.spanSize, s) && OffsetOfLast(o.lastSeenOffset, s, offset)
  }

  ghost function With(b: bytes, done: set<Triple>, k: Key): set<Triple> {
    set t | t in done && InPacket(t, |b|) && KeyAt(b, t) == k
  }

  /** The table after the visits `done`. */
  ghost predicate Tallied(m: Table, b: bytes, done: set<Triple>, offset: nat) {
    && (forall t <- done :: InPacket(t, |b|) && KeyAt(b, t) in m)
    && (forall k <- m :: Describes(m[k], k, With(b, done, k), offset))
  }

  /** One visit. */
  function Visit(m: Table, b: bytes, t: Triple, offset: nat): Table
    requires InPacket(t, |b|)
  {
    var k := KeyAt(b, t);
    var o := if k in m then m[k] else SpanObservation(k.constA, k.constB, 0, SizeAt(t), offset + t.iB);
    m[k := o.(intraHits := (o.intraHits + 1) % TWO16, lastSeenOffset := offset + t.iB)]
  }

  lemma VisitTallies(m: Table, b: bytes, done: set<Triple>, t: Triple, offset: nat)
    requires Tallied(m, b, done, offset) && InPacket(t, |b|)
    requires forall u <- done :: Before(u, t)
    ensures Tallied(Visit(m, b, t, offset), b, done + {t}, offset)
  {
    hide Describes, SizeAt;
    var m1, k := Visit(m, b, t, offset), KeyAt(b, t);
    forall j | j in m1
      ensures Describes(m1[j], j, With(b, done + {t}, j), offset)
    {
      if j != k {
        assert With(b, done + {t}, j) == With(b, done, j);
      } else {
        assert With(b, done + {t}, k) == With(b, done, k) + {t};
        DescribesMore(m, b, With(b, done, k), t, offset);
      }
    }
  }

  lemma DescribesMore(m: Table, b: bytes, s: set<Triple>, t: Triple, offset: nat)
    requires InPacket(t, |b|) && forall u <- s :: Before(u, t)
    requires KeyAt(b, t) in m ==> Describes(m[KeyAt(b, t)], KeyAt(b, t), s, offset)
    requires KeyAt(b, t) !in m ==> s == {}
    ensures Describes(Visit(m, b, t, offset)[KeyAt(b, t)], KeyAt(b, t), s + {t}, offset)
  {
    hide SizeAt, KeyAt, SizeOfFirst, OffsetOfLast, Before;
    var k := KeyAt(b, t);
    CountOneMore(|s|);
    OneMore(s, t);
    LastIsNew(s, t, offset);
    if k in m {
      FirstKept(m[k].spanSize, s, t);
    } else {
      FirstIsNew(t);
      assert s + {t} == {t};
    }
  }

  lemma OneMore(s: set<Triple>, t: Triple)
    requires forall u <- s :: Before(u, t)
    ensures t !in s && |s + {t}| == |s| + 1
  {}

  lemma FirstKept(size: u32, s: set<Triple>, t: Triple)
    requires SizeOfFirst(size, s) && forall u <- s :: Before(u, t)
    ensures SizeOfFirst(size, s + {t})
  {
    var f :| First(f, s) && f.i <= f.iB && size == (f.iB + 1 - f.i) % 0x1_0000_0000;
    assert First(f, s + {t});
  }

  lemma FirstIsNew(t: Triple)
    requires t.i <= t.iB
    ensures SizeOfFirst(SizeAt(t), {t})
  {
    assert First(t, {t});
  }

  lemma LastIsNew(s: set<Triple>, t: Triple, offset: nat)
    requires forall u <- s :: Before(u, t)
    ensures OffsetOfLast(offset + t.iB, s + {t}, offset)
  {
    assert Last(t, s + {t});
  }

  lemma CountOneMore(n: nat)
    ensures (n % TWO16 + 1) % TWO16 == (n + 1) % TWO16
  {}

  lemma LaterClose(b: bytes, k: Key, t: Triple, j: nat)
    requires t in Occurrences(b, k) && t.iB < j < |b| && b[j] == b[t.iB]
    ensures Triple(t.i, t.iA, j) in Occurrences(b, k)
  {
    assert KeyAt(b, Triple(t.i, t.iA, j)) == KeyAt(b, t);
  }

  /** The last place of a key closes at the last such byte of the packet. */
  lemma LastClosesLast(b: bytes, k: Key, t: Triple)
    requires Last(t, Occurrences(b, k))
    ensures k.constB == [b[t.iB]] && forall j :: t.iB < j < |b| ==> b[j] != b[t.iB]
  {
    forall j | t.iB < j < |b|
      ensures b[j] != b[t.iB]
    {
      if b[j] == b[t.iB] {
        LaterClose(b, k, t, j);
      }
    }
  }

  /** What ExtractSpans returns: one observation for exactly the pairs of constants that occur,
      with the number of occurrences on 16 bits, the size of the first one, and the offset of
      the last closing byte. */
  ghost predicate Extracted(b: bytes, offset: nat, out: seq<SpanObservation>) {
    && (forall x, y :: 0 <= x < y < |out| ==> KeyOf(out[x]) != KeyOf(out[y]))
    && (forall k :: Occurrences(b, k) != {} <==> exists x :: 0 <= x < |out| && KeyOf(out[x]) == k)
    && (forall o <- out :: Exact(b, offset, o))
  }

  ghost predicate Exact(b: bytes, offset: nat, o: SpanObservation) {
    var s := Occurrences(b, KeyOf(o));
    && o.intraHits == |s| % TWO16
    && SizeOfFirst(o.spanSize, s)
    && offset <= o.lastSeenOffset < offset + |b|
    && var last := o.lastSeenOffset - offset;
       o.constB == [b[last]] && forall j :: last < j < |b| ==> b[j] != b[last]
  }

  /** All visits before (i, iA, iB) are done. */
  ghost predicate DoneBefore(done: set<Triple>, n: nat, i: nat, iA: nat, iB: nat) {
    forall t :: t in done <==> InPacket(t, n) && Before(t, Triple(i, iA, iB))
  }

  lemma AllDone(m: Table, b: bytes, done: set<Triple>, offset: nat)
    requires Tallied(m, b, done, offset) && DoneBefore(done, |b|, |b|, 0, 0)
    ensures forall k <- m :: Occurrences(b, k) != {} && Exact(b, offset, m[k]) && KeyOf(m[k]) == k
    ensures forall k :: Occurrences(b, k) != {} ==> k in m
  {
    hide Describes, Exact, SizeAt;
    forall k
      ensures With(b, done, k) == Occurrences(b, k)
    {
      forall t | t in With(b, done, k)
        ensures t in Occurrences(b, k)
      {
        assert Triple(t.i, t.iA, t.iB) == t;
      }
    }
    forall k | Occurrences(b, k) != {}
      ensures k in m
    {
      var t :| t in Occurrences(b, k);
      assert KeyAt(b, t) in m;
    }
    forall k | k in m
      ensures Occurrences(b, k) != {} && Exact(b, offset, m[k]) && KeyOf(m[k]) == k
    {
      assert Describes(m[k], k, Occurrences(b, k), offset);
      DescribesExact(m[k], k, b, offset);
    }
  }

  /** A description by all occurrences is exact. */
  lemma DescribesExact(o: SpanObservation, k: Key, b: bytes, offset: nat)
    requires Describes(o, k, Occurrences(b, k), offset)
    ensures Occurrences(b, k) != {} && Exact(b, offset, o) && KeyOf(o) == k
  {
    hide First;
    var t :| Last(t, Occurrences(b, k)) && o.lastSeenOffset == offset + t.iB;
    LastClosesLast(b, k, t);
  }

  /** `ExtractSpans`. */
  method ExtractSpans(b: bytes, packetOffset: nat) returns (out: seq<SpanObservation>)
    ensures Extracted(b, packetOffset, out)
  {
    hide Tallied, Visit;
    var n := |b|;
    var obs: Table := map[];
    ghost var done: set<Triple> := {};
    assert Tallied(obs, b, done, packetOffset) by {
      NothingTallied(b, packetOffset);
    }
    for i := 0 to n
      invariant Tallied(obs, b, done, packetOffset) && DoneBefore(done, n, i, 0, 0)
    {
      var iA := i + 1;
      while iA < n - 1
        invariant i + 1 <= iA
        invariant Tallied(obs, b, done, packetOffset) && DoneBefore(done, n, i, iA, 0)
      {
        for iB := iA + 1 to n
          invariant Tallied(obs, b, done, packetOffset) && DoneBefore(done, n, i, iA, iB)
        {
          ghost var t := Triple(i, iA, iB);
          VisitTallies(obs, b, done, t, packetOffset);
          obs := Count(obs, b, i, iA, iB, packetOffset);
          done := done + {t};
        }
        iA := iA + 1;
      }
    }
    AllDone(obs, b, done, packetOffset);
    out := ListTable(b, packetOffset, obs);
  }

  lemma NothingTallied(b: bytes, offset: nat)
    ensures Tallied(map[], b, {}, offset)
  {}

  /** The loop body: a first sight creates the observation; every sight counts, and the last
      one gives the offset. */
  method Count(obs: Table, b: bytes, i: nat, iA: nat, iB: nat, offset: nat) returns (r: Table)
    requires i < iA < iB < |b|
    ensures r == Visit(obs, b, Triple(i, iA, iB), offset)
  {
    var constA, varPart, constB := b[i..iA], b[iA..iB], b[iB..iB + 1];
    assert constB == [b[iB]];
    var k := Key(constA, constB);
    r := obs;
    if k !in r {
      var size := Wrap32(|constA| + |varPart| + |constB|);
      r := r[k := SpanObservation(constA, constB, 0, size, offset + iB)];
    }
    var o := r[k];
    r := r[k := o.(intraHits := (o.intraHits + 1) % TWO16, lastSeenOffset := offset + iB)];
  }

  /** The table's observations, in map order. */
  method ListTable(b: bytes, offset: nat, obs: Table) returns (out: seq<SpanObservation>)
    requires forall k <- obs ::
               Occurrences(b, k) != {} && Exact(b, offset, obs[k]) && KeyOf(obs[k]) == k
    requires forall k :: Occurrences(b, k) != {} ==> k in obs
    ensures Extracted(b, offset, out)
  {
    hide Exact, Occurrences;
    out := [];
    var keys := obs.Keys;
    while keys != {}
      invariant keys <= obs.Keys
      invariant forall x, y :: 0 <= x < y < |out| ==> KeyOf(out[x]) != KeyOf(out[y])
      invariant forall x :: 0 <= x < |out| ==>
                  KeyOf(out[x]) in obs && KeyOf(out[x]) !in keys
      invariant forall k :: k in obs && k !in keys ==> exists x :: 0 <= x < |out| && KeyOf(out[x]) == k
      invariant forall o <- out :: Exact(b, offset, o)
      decreases |keys|
    {
      var key :| key in keys;
      ghost var was := out;
      out := out + [obs[key]];
      keys := keys - {key};
      assert out[|out| - 1] == obs[key];
      assert forall x :: 0 <= x < |was| ==> out[x] == was[x];
    }
  }
}
