/** The bounded worst case: what the wire can cost beyond one header per piece, for every id
    function and every run, and when it costs nothing beyond that. */
module WorstCase {
  import opened Bytes
  import opened Numbers
  import opened Sorting
  import opened Protocol
  import opened Splitter
  import opened EncoderSpec
  import opened Agreement
  import opened Sessions
  import opened ByteExact
  import opened WireCost

  // ---- one piece ----

  /** What a definition costs beyond its raw piece: 20 bytes and both constants, of which the
      reference that follows at once saves all but 25 bytes when it pays. */
  function NetCost(p: Piece): nat
    requires p.Seg?
  {
    if |p.constA| + |p.constB| < 5 then 20 + |p.constA| + |p.constB| else 25
  }

  /** The bytes by which one piece exceeds itself and its frame header. */
  function EmitLoss(h: IdFn, st: EncState, p: Piece): int {
    if DefinesNow(h, st, p) then NetCost(p)
    else if Promoted(h, st, p) && StatOf(st, IdOf(h, p)).defined && RefPays(p) then 5 - (|p.constA| + |p.constB|)
    else 0
  }

  lemma EmitLossIs(h: IdFn, st: EncState, p: Piece)
    ensures |WireOf(Emit(h, st, p).frames)| == 8 + |PieceBytes(p)| + EmitLoss(h, st, p)
    ensures EmitLoss(h, st, p) <= if DefinesNow(h, st, p) then 25 else 0
  {
    hide RefPayload, DefinePayload, FrameBytes, WireOf;
    var e := Emit(h, st, p);
    if DefinesNow(h, st, p) {
      var d, f := DefineFrame(DefinitionOf(h, p)), RefOrRaw(h, p);
      assert e.frames == [d] + [f];
      WireOfAppend([d], [f]);
      WireOfOne(d);
      WireOfOne(f);
    } else {
      WireOfOne(e.frames[0]);
    }
  }

  // ---- the bound, with nothing assumed about the ids ----

  /** The bytes by which a run exceeds the truth bytes and its frame headers. */
  function RunLoss(h: IdFn, st: EncState, ps: seq<Piece>): int
    decreases |ps|
  {
    if ps == [] then 0 else EmitLoss(h, st, ps[0]) + RunLoss(h, Emit(h, st, ps[0]).st, ps[1..])
  }

  /** For any id function and from any state: a header per piece and at most 25 bytes per
      definition beyond the truth bytes. */
  lemma {:induction false} DefinitionsCost(h: IdFn, st: EncState, ps: seq<Piece>)
    ensures |WireOf(EmitAll(h, st, ps).frames)| == |PiecesBytes(ps)| + 8 * |ps| + RunLoss(h, st, ps)
    ensures RunLoss(h, st, ps) <= 25 * |Defs(h, st, ps)|
    decreases |ps|
  {
    hide Emit, PieceBytes, EmitLoss, WireOf, DefinesNow;
    if ps == [] {
      NothingCosts();
    } else {
      var e := Emit(h, st, ps[0]);
      EmitLossIs(h, st, ps[0]);
      DefinitionsCost(h, e.st, ps[1..]);
      WireOfAppend(e.frames, EmitAll(h, e.st, ps[1..]).frames);
    }
  }

  lemma {:induction false} RunLossAppend(h: IdFn, st: EncState, x: seq<Piece>, y: seq<Piece>)
    ensures RunLoss(h, st, x + y) == RunLoss(h, st, x) + RunLoss(h, EmitAll(h, st, x).st, y)
    decreases |x|
  {
    hide Emit, EmitLoss;
    if x == [] {
      assert x + y == y;
    } else {
      assert (x + y)[0] == x[0] && (x + y)[1..] == x[1..] + y;
      RunLossAppend(h, Emit(h, st, x[0]).st, x[1..], y);
    }
  }

  /** The hits of several ids. */
  function HitsOf(h: IdFn, ps: seq<Piece>, ids: seq<u16>): nat {
    if ids == [] then 0 else Hits(h, ps, ids[0]) + HitsOf(h, ps, ids[1..])
  }

  /** Every piece hits at most one id. */
  lemma {:induction false} HitsShared(h: IdFn, ps: seq<Piece>, ids: seq<u16>)
    requires NoDup(ids)
    ensures HitsOf(h, ps, ids) <= |ps|
  {
    hide NoDup;
    if ps == [] {
      NoHits(h, ids);
    } else {
      var init, p := ps[..|ps| - 1], ps[|ps| - 1];
      HitsShared(h, init, ids);
      OneHit(h, init, p, ids);
      assert ps == init + [p];
    }
  }

  lemma {:induction false} NoHits(h: IdFn, ids: seq<u16>)
    ensures HitsOf(h, [], ids) == 0
  {
    if ids != [] {
      NoHits(h, ids[1..]);
    }
  }

  lemma {:induction false} OneHit(h: IdFn, ps: seq<Piece>, p: Piece, ids: seq<u16>)
    requires NoDup(ids)
    ensures HitsOf(h, ps + [p], ids) <= HitsOf(h, ps, ids) + 1
    ensures !(p.Seg? && HitsId(h, p, IdOf(h, p)) && IdOf(h, p) in ids) ==>
              HitsOf(h, ps + [p], ids) == HitsOf(h, ps, ids)
  {
    if ids != [] {
      assert (ps + [p])[..|ps|] == ps;
      OneHit(h, ps, p, ids[1..]);
      assert forall id <- ids[1..] :: id != ids[0];
    }
  }

  lemma {:induction false} OftenHit(h: IdFn, ps: seq<Piece>, ids: seq<u16>)
    requires forall id <- ids :: Hits(h, ps, id) >= 3
    ensures 3 * |ids| <= HitsOf(h, ps, ids)
  {
    hide Hits;
    if ids != [] {
      assert forall id <- ids[1..] :: id in ids;
      assert ids[0] in ids;
      OftenHit(h, ps, ids[1..]);
    }
  }

  lemma {:induction false} IdsLength(ds: seq<Definition>)
    ensures |IdsOf(ds)| == |ds|
    ensures forall id <- IdsOf(ds) :: exists d <- ds :: d.id == id
  {
    if ds != [] {
      IdsLength(ds[1..]);
      forall id | id in IdsOf(ds)
        ensures exists d <- ds :: d.id == id
      {
        if id == ds[0].id {
          assert ds[0] in ds;
        } else {
          var d :| d in ds[1..] && d.id == id;
          assert d in ds;
        }
      }
    }
  }

  /** A run defines at most one template for every three pieces, with no assumption on the ids. */
  lemma FewDefinitions(h: IdFn, ps: seq<Piece>)
    ensures 3 * |Defs(h, START, ps)| <= |ps|
  {
    hide EmitAll, Defs, Hits, DefineIds, NoDup;
    var ds, e := Defs(h, START, ps), EmitAll(h, START, ps);
    DefsAreDictionary(h, START, ps);
    DefinedOnce(h, START, ps);
    EmitAllReflects(h, ps);
    EmitAllKeepsInv(h, START, ps);
    IdsLength(ds);
    var ids := IdsOf(ds);
    forall id | id in ids
      ensures Hits(h, ps, id) >= 3
    {
      var d :| d in ds && d.id == id;
      assert Recorded(e.st.table, d);
      assert ReflectsAt(h, e.st, ps, id);
    }
    hide Reflects, EncInv;
    OftenHit(h, ps, ids);
    HitsShared(h, ps, ids);
  }

  /** The bounded worst case: for every id function, three times the wire bytes are at most
      three times the truth bytes and 49 a piece. */
  lemma WorstCaseBound(h: IdFn, ps: seq<Piece>)
    ensures 3 * |WireOf(EmitAll(h, START, ps).frames)| <= 3 * |PiecesBytes(ps)| + 49 * |ps|
  {
    hide EmitAll, Defs, WireOf, PiecesBytes;
    DefinitionsCost(h, START, ps);
    FewDefinitions(h, ps);
  }

  // ---- the exact loss, on the history ----

  /** The piece comes third or later under its id (the counter is 32 bits). */
  predicate Late(h: IdFn, done: seq<Piece>, p: Piece) {
    p.Seg? && HitsId(h, p, IdOf(h, p)) && (Hits(h, done, IdOf(h, p)) + 1) % TWO32 >= PROMOTE_AFTER_HITS
  }

  /** What this piece adds to the cost of definitions, given the pieces before it. */
  function DefinitionLoss(h: IdFn, done: seq<Piece>, p: Piece): nat {
    if Late(h, done, p) && !WasDefined(h, done, IdOf(h, p)) && DefineFits(p.constA, p.constB) then NetCost(p) else 0
  }

  /** What this piece saves by a reference to a template defined before it. */
  function ReferenceGain(h: IdFn, done: seq<Piece>, p: Piece): int {
    if Late(h, done, p) && WasDefined(h, done, IdOf(h, p)) && RefPays(p) then |p.constA| + |p.constB| - 5 else 0
  }

  function DefinitionLosses(h: IdFn, ps: seq<Piece>): nat {
    if ps == [] then 0
    else DefinitionLosses(h, ps[..|ps| - 1]) + DefinitionLoss(h, ps[..|ps| - 1], ps[|ps| - 1])
  }

  function ReferenceGains(h: IdFn, ps: seq<Piece>): int {
    if ps == [] then 0
    else ReferenceGains(h, ps[..|ps| - 1]) + ReferenceGain(h, ps[..|ps| - 1], ps[|ps| - 1])
  }

  lemma LossOnHistory(h: IdFn, done: seq<Piece>, p: Piece)
    ensures EmitLoss(h, EmitAll(h, START, done).st, p) == DefinitionLoss(h, done, p) - ReferenceGain(h, done, p)
    ensures ReferenceGain(h, done, p) >= 0
  {
    hide EmitAll, WasDefined, Hits, DefineFits, Reflects;
    if Gated(p) {
      EmitAllReflects(h, done);
      DefinedIs(h, done, IdOf(h, p));
      ReflectsHere(h, EmitAll(h, START, done).st, done, IdOf(h, p));
      ModSucc(Hits(h, done, IdOf(h, p)));
    }
  }

  lemma PiecesBytesSnoc(ps: seq<Piece>, p: Piece)
    ensures |PiecesBytes(ps + [p])| == |PiecesBytes(ps)| + |PieceBytes(p)|
  {
    hide PieceBytes;
    PiecesBytesAppend(ps, [p]);
    assert [p][1..] == [];
  }

  /** The wire bytes of a run, from the history of its pieces alone. */
  lemma {:induction false} LossExact(h: IdFn, ps: seq<Piece>)
    ensures |WireOf(EmitAll(h, START, ps).frames)| ==
            |PiecesBytes(ps)| + 8 * |ps| + DefinitionLosses(h, ps) - ReferenceGains(h, ps)
    ensures ReferenceGains(h, ps) >= 0
  {
    hide EmitLoss, DefinitionLoss, ReferenceGain, WireOf, Emit, PiecesBytes, PieceBytes;
    if ps == [] {
      NothingCosts();
      NoBytes();
    } else {
      var done, p := ps[..|ps| - 1], ps[|ps| - 1];
      assert ps == done + [p];
      var e := EmitAll(h, START, done);
      LossExact(h, done);
      EmitAllAppend(h, START, done, [p]);
      EmitAllOne(h, e.st, p);
      hide EmitAll;
      WireOfAppend(e.frames, Emit(h, e.st, p).frames);
      EmitLossIs(h, e.st, p);
      LossOnHistory(h, done, p);
      PiecesBytesSnoc(done, p);
    }
  }

  lemma NoBytes()
    ensures PiecesBytes([]) == []
  {}

  /** The loss is the frame headers and nothing more if and only if the references to templates
      defined before have saved what the definitions cost: 25 bytes each, or less when the
      constants are shorter than five bytes together. */
  lemma HeaderOnlyLoss(h: IdFn, ps: seq<Piece>)
    ensures |WireOf(EmitAll(h, START, ps).frames)| <= |PiecesBytes(ps)| + 8 * |ps|
            <==> DefinitionLosses(h, ps) <= ReferenceGains(h, ps)
  {
    hide EmitAll, WireOf, PiecesBytes, DefinitionLosses, ReferenceGains;
    LossExact(h, ps);
  }

  // ---- whole runs over a client's bytes ----

  /** The cost of whole runs over an input stream: the equation; the bound that holds whatever
      the ids are; the bound that holds when they tell templates apart; and when the loss is the
      frame headers alone. */
  lemma InputCost(h: IdFn, input: bytes)
    ensures var ps := RunPieces(Accepted(input));
            var truth := Flatten(Truths(Accepted(input)));
            && |Wire(h, input)| == |truth| + 8 * |ps| + DefCost(Defs(h, START, ps)) - Saved(h, START, ps)
            && Saved(h, START, ps) >= 0
            && |Wire(h, input)| <= |truth| + 8 * |ps| + 25 * |Defs(h, START, ps)|
            && 3 * |Wire(h, input)| <= 3 * |truth| + 49 * |ps|
            && (InjectiveOn(h, ps) ==> 3 * |Wire(h, input)| <= 4 * |truth| + 44 * |ps|)
            && (|Wire(h, input)| <= |truth| + 8 * |ps| <==> DefinitionLosses(h, ps) <= ReferenceGains(h, ps))
  {
    var ms := Accepted(input);
    RunPartition(ms);
    hide Accepted, InjectiveOn, Defs, EmitAll, WireOf, Saved, DefCost, RunPieces, Truths, Flatten, PiecesBytes,
         DefinitionLosses, ReferenceGains;
    var ps := RunPieces(ms);
    RunCostExact(h, START, ps);
    DefinitionsCost(h, START, ps);
    WorstCaseBound(h, ps);
    HeaderOnlyLoss(h, ps);
    if InjectiveOn(h, ps) {
      AmortisedCost(h, ps);
    }
  }
}
