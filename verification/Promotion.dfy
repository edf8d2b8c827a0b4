/** When a piece becomes a template, seen from outside: from its bytes and the pieces before it
    to the frames that go out. */
module Promotion {
  import opened Bytes
  import opened Numbers
  import opened Protocol
  import opened Splitter
  import opened EncoderSpec

  /** A segment leaves a trace in the encoder exactly when its constants outweigh its lane. */
  lemma GateExact(h: IdFn, st: EncState, a: bytes, l: bytes, b: bytes)
    ensures Emit(h, st, Seg(a, l, b)).st != st <==> |a| + |b| > |l|
    ensures |a| + |b| <= |l| ==> Emit(h, st, Seg(a, l, b)).frames == [Frame(RAW_DATA, a + l + b)]
  {
    hide DefinePayload, RefPayload;
    var p, id := Seg(a, l, b), h(a, b);
    EmitStat(h, st, p, id);
  }

  /** What is no segment goes out as it is and leaves no trace. */
  lemma RawGoesOut(h: IdFn, st: EncState, data: bytes)
    ensures Emit(h, st, Raw(data)) == Emission(st, [Frame(RAW_DATA, data)])
  {}

  /** How often this template has been seen where its constants outweigh the lane. */
  function Seen(ps: seq<Piece>, a: bytes, b: bytes): nat {
    if ps == [] then 0
    else
      var p := ps[|ps| - 1];
      Seen(ps[..|ps| - 1], a, b) + if p.Seg? && p.constA == a && p.constB == b && |a| + |b| > |p.lane| then 1 else 0
  }

  /** Nothing else in the run goes under the id of this template. */
  predicate Alone(h: IdFn, ps: seq<Piece>, a: bytes, b: bytes) {
    forall p <- ps :: p.Seg? && h(p.constA, p.constB) == h(a, b) ==> p.constA == a && p.constB == b
  }

  lemma {:induction false} SeenIsHits(h: IdFn, ps: seq<Piece>, a: bytes, b: bytes)
    requires Alone(h, ps, a, b)
    ensures Hits(h, ps, h(a, b)) == Seen(ps, a, b)
  {
    if ps != [] {
      assert forall p <- ps[..|ps| - 1] :: p in ps;
      assert ps[|ps| - 1] in ps;
      SeenIsHits(h, ps[..|ps| - 1], a, b);
    }
  }

  lemma AloneFront(h: IdFn, ps: seq<Piece>, a: bytes, b: bytes, i: nat)
    requires Alone(h, ps, a, b) && i <= |ps|
    ensures Alone(h, ps[..i], a, b)
  {}

  lemma {:induction false} SeenGrows(ps: seq<Piece>, a: bytes, b: bytes, i: nat)
    requires i < |ps| && ps[i].Seg? && ps[i].constA == a && ps[i].constB == b && |a| + |b| > |ps[i].lane|
    ensures Seen(ps[..i], a, b) < Seen(ps, a, b)
  {
    var init := ps[..|ps| - 1];
    if i < |init| {
      assert init[..i] == ps[..i];
      SeenGrows(init, a, b, i);
    } else {
      assert init == ps[..i];
    }
  }

  /** Where a template came for the third time. */
  lemma {:induction false} ThirdSeen(ps: seq<Piece>, a: bytes, b: bytes) returns (i: nat)
    requires Seen(ps, a, b) >= 3
    ensures i < |ps| && Seen(ps[..i], a, b) == 2
    ensures ps[i].Seg? && ps[i].constA == a && ps[i].constB == b && |a| + |b| > |ps[i].lane|
  {
    var init := ps[..|ps| - 1];
    if Seen(init, a, b) >= 3 {
      i := ThirdSeen(init, a, b);
      assert init[..i] == ps[..i];
    } else {
      i := |ps| - 1;
    }
  }

  /** Until 2^32 sightings, a template alone under its id was defined before exactly when it has
      been seen three times and its definition fits a frame. */
  lemma AloneDefined(h: IdFn, done: seq<Piece>, a: bytes, b: bytes)
    requires Alone(h, done, a, b) && Seen(done, a, b) < TWO32 - 1
    ensures WasDefined(h, done, h(a, b)) <==> Seen(done, a, b) >= 3 && 12 + |a| + |b| <= MAX_PAYLOAD
  {
    var id := h(a, b);
    hide Hits, Seen, WasDefined, Alone;
    if Seen(done, a, b) >= 3 && 12 + |a| + |b| <= MAX_PAYLOAD {
      var i := ThirdSeen(done, a, b);
      AloneFront(h, done, a, b, i);
      SeenIsHits(h, done[..i], a, b);
      assert DefinedAt(h, done, id, i);
      DefinedWhen(h, done, id, i);
    }
    if WasDefined(h, done, id) {
      var i := WhenDefined(h, done, id);
      AloneHere(h, done, a, b, i);
      AloneFront(h, done, a, b, i);
      SeenIsHits(h, done[..i], a, b);
      SeenGrows(done, a, b, i);
    }
  }

  lemma AloneHere(h: IdFn, ps: seq<Piece>, a: bytes, b: bytes, i: nat)
    requires Alone(h, ps, a, b) && i < |ps| && HitsId(h, ps[i], h(a, b))
    ensures ps[i].constA == a && ps[i].constB == b
  {}

  lemma DefinedWhen(h: IdFn, ps: seq<Piece>, id: u16, i: nat)
    requires i < |ps| && DefinedAt(h, ps, id, i)
    ensures WasDefined(h, ps, id)
  {}

  lemma WhenDefined(h: IdFn, ps: seq<Piece>, id: u16) returns (i: nat)
    requires WasDefined(h, ps, id)
    ensures i < |ps| && DefinedAt(h, ps, id, i)
  {
    i :| 0 <= i < |ps| && DefinedAt(h, ps, id, i);
  }

  /** A template alone under its id, seen n times before: its pieces go out raw twice, then as
      definition and reference, and from then on as a reference; raw again when the reference
      would be no shorter, and always when the lane outweighs the constants or the definition
      is over the limit. */
  lemma AloneRule(h: IdFn, done: seq<Piece>, a: bytes, l: bytes, b: bytes)
    requires Alone(h, done, a, b) && Seen(done, a, b) < TWO32 - 1
    ensures var n, id := Seen(done, a, b), h(a, b);
            var raw := Frame(RAW_DATA, a + l + b);
            var ref := if 5 + |l| <= MAX_PAYLOAD && 5 < |a| + |b| then Frame(TEMPLATE_REF, RefPayload(id, l)) else raw;
            Emit(h, EmitAll(h, START, done).st, Seg(a, l, b)).frames ==
              if |a| + |b| <= |l| || n < 2 || 12 + |a| + |b| > MAX_PAYLOAD then [raw]
              else if n == 2 then [Frame(TEMPLATE_DEFINE, DefinePayload(id, a, b)), ref]
              else [ref]
  {
    hide Hits, Seen, WasDefined, Alone, EmitAll, Emit, DefinePayload, RefPayload;
    SeenIsHits(h, done, a, b);
    AloneDefined(h, done, a, b);
    PromotionRule(h, done, a, l, b);
    var n := Seen(done, a, b);
    assert (n + 1) % TWO32 == n + 1;
  }
}
