/** What a run costs on the wire, and why templates pay for themselves. */
module WireCost {
  import opened Numbers
  import opened Sorting
  import opened Protocol
  import opened Splitter
  import opened EncoderSpec
  import opened Agreement
  import opened DecoderSpec

  function NewDefs(h: IdFn, st: EncState, p: Piece): seq<Definition> {
    if DefinesNow(h, st, p) then [DefinitionOf(h, p)] else []
  }

  /** The definitions a run puts on the wire, in order. */
  function Defs(h: IdFn, st: EncState, ps: seq<Piece>): seq<Definition>
    decreases |ps|
  {
    if ps == [] then [] else NewDefs(h, st, ps[0]) + Defs(h, Emit(h, st, ps[0]).st, ps[1..])
  }

  /** The frame of a definition: 8 header bytes, 12 layout bytes, the constants. */
  function DefSize(d: Definition): nat {
    20 + |d.constA| + |d.constB|
  }

  function DefCost(ds: seq<Definition>): nat {
    if ds == [] then 0 else DefSize(ds[0]) + DefCost(ds[1..])
  }

  lemma {:induction false} DefCostAppend(x: seq<Definition>, y: seq<Definition>)
    ensures DefCost(x + y) == DefCost(x) + DefCost(y)
  {
    if x == [] {
      assert x + y == y;
    } else {
      assert (x + y)[0] == x[0] && (x + y)[1..] == x[1..] + y;
      DefCostAppend(x[1..], y);
    }
  }

  lemma WireOfOne(f: Frame)
    ensures |WireOf([f])| == 8 + |f.payload|
  {
    hide FrameBytes;
    assert [f][1..] == [];
  }

  /** A reference is sent only when it is strictly shorter than the raw piece it replaces. */
  lemma RefIsShorter(h: IdFn, st: EncState, p: Piece, i: nat)
    requires i < |Emit(h, st, p).frames| && Emit(h, st, p).frames[i].kind == TEMPLATE_REF
    ensures |Emit(h, st, p).frames[i].payload| < |PieceBytes(p)|
  {
    assert p.Seg? ==> |RefPayload(IdOf(h, p), p.lane)| == 5 + |p.lane|;
    hide RefPayload, DefinePayload;
  }

  /** What the last frame of a piece saves when it is a reference: both constants, less the
      five bytes of the reference itself. */
  function RefSaving(h: IdFn, st: EncState, p: Piece): int {
    var fs := Emit(h, st, p).frames;
    if p.Seg? && fs != [] && fs[|fs| - 1].kind == TEMPLATE_REF then |p.constA| + |p.constB| - 5 else 0
  }

  /** The savings of all references of a run. */
  function Saved(h: IdFn, st: EncState, ps: seq<Piece>): int
    decreases |ps|
  {
    if ps == [] then 0 else RefSaving(h, st, ps[0]) + Saved(h, Emit(h, st, ps[0]).st, ps[1..])
  }

  lemma EmitCost(h: IdFn, st: EncState, p: Piece)
    ensures |WireOf(Emit(h, st, p).frames)| == 8 + |PieceBytes(p)| + DefCost(NewDefs(h, st, p)) - RefSaving(h, st, p)
    ensures RefSaving(h, st, p) >= 0
  {
    var e := Emit(h, st, p);
    var ds := NewDefs(h, st, p);
    assert ds != [] ==> ds[1..] == [];
    hide RefPayload, DefinePayload;
    if DefinesNow(h, st, p) {
      var d, f := DefineFrame(DefinitionOf(h, p)), RefOrRaw(h, p);
      assert e.frames == [d] + [f];
      WireOfAppend([d], [f]);
      WireOfOne(d);
      WireOfOne(f);
    } else {
      WireOfOne(e.frames[0]);
    }
  }

  /** The wire cost of a run, for any h: the truth bytes, eight header bytes a piece and the
      definitions, less what the references save. */
  lemma {:induction false} RunCostExact(h: IdFn, st: EncState, ps: seq<Piece>)
    ensures |WireOf(EmitAll(h, st, ps).frames)| ==
            |PiecesBytes(ps)| + 8 * |ps| + DefCost(Defs(h, st, ps)) - Saved(h, st, ps)
    ensures Saved(h, st, ps) >= 0
    decreases |ps|
  {
    hide Emit, NewDefs, PieceBytes, RefSaving, WireOf, DefCost;
    if ps == [] {
      assert |WireOf([])| == 0 && DefCost([]) == 0 by {
        NothingCosts();
      }
    } else {
      var e := Emit(h, st, ps[0]);
      EmitCost(h, st, ps[0]);
      RunCostExact(h, e.st, ps[1..]);
      WireOfAppend(e.frames, EmitAll(h, e.st, ps[1..]).frames);
      DefCostAppend(NewDefs(h, st, ps[0]), Defs(h, e.st, ps[1..]));
    }
  }

  lemma NothingCosts()
    ensures WireOf([]) == [] && DefCost([]) == 0
  {}

  /** The wire bound, for any h: the truth bytes, a header per piece, and the definitions. */
  lemma RunCost(h: IdFn, st: EncState, ps: seq<Piece>)
    ensures |WireOf(EmitAll(h, st, ps).frames)| <= |PiecesBytes(ps)| + 8 * |ps| + DefCost(Defs(h, st, ps))
  {
    hide EmitAll, Defs, Saved, WireOf, PiecesBytes, DefCost;
    RunCostExact(h, st, ps);
  }

  // ---- the definitions counted are exactly the dictionary's ----

  function IdsOf(ds: seq<Definition>): seq<u16> {
    if ds == [] then [] else [ds[0].id] + IdsOf(ds[1..])
  }

  predicate Recorded(table: Table, d: Definition) {
    d.id in table && table[d.id] == d
  }

  lemma EmitKeepsEntries(h: IdFn, st: EncState, p: Piece)
    requires EncInv(h, st)
    ensures var e := Emit(h, st, p);
            && IdsOf(NewDefs(h, st, p)) == DefineIds(e.frames)
            && (forall d <- NewDefs(h, st, p) :: Recorded(e.st.table, d))
            && (forall d :: Recorded(st.table, d) ==> Recorded(e.st.table, d))
  {
    EmitDefineIds(h, st, p);
    var ds := NewDefs(h, st, p);
    assert ds != [] ==> ds[1..] == [];
    hide RefPayload, DefinePayload, DefineIds;
  }

  lemma {:induction false} IdsOfAppend(x: seq<Definition>, y: seq<Definition>)
    ensures IdsOf(x + y) == IdsOf(x) + IdsOf(y)
  {
    if x == [] {
      assert x + y == y;
    } else {
      assert (x + y)[0] == x[0] && (x + y)[1..] == x[1..] + y;
      IdsOfAppend(x[1..], y);
    }
  }

  /** Defs lists, in order, the ids of the DEFINE frames, and each definition as the final
      dictionary holds it; by DefinedOnce no id repeats. */
  lemma {:induction false} DefsAreDictionary(h: IdFn, st: EncState, ps: seq<Piece>)
    requires EncInv(h, st)
    ensures var e := EmitAll(h, st, ps);
            && IdsOf(Defs(h, st, ps)) == DefineIds(e.frames)
            && (forall d <- Defs(h, st, ps) :: Recorded(e.st.table, d))
            && (forall d :: Recorded(st.table, d) ==> Recorded(e.st.table, d))
    decreases |ps|
  {
    hide Emit, NewDefs, EncInv, Recorded;
    if ps != [] {
      var p, e := ps[0], Emit(h, st, ps[0]);
      EmitKeepsEntries(h, st, p);
      EmitKeepsInv(h, st, p);
      DefsAreDictionary(h, e.st, ps[1..]);
      DefineIdsAppend(e.frames, EmitAll(h, e.st, ps[1..]).frames);
      IdsOfAppend(NewDefs(h, st, p), Defs(h, e.st, ps[1..]));
    }
  }

  // ---- amortisation ----

  predicate Uses(p: Piece, d: Definition) {
    Gated(p) && p.constA == d.constA && p.constB == d.constB
  }

  function Occurs(ps: seq<Piece>, d: Definition): nat {
    if ps == [] then 0 else (if Uses(ps[0], d) then 1 else 0) + Occurs(ps[1..], d)
  }

  function Without(ps: seq<Piece>, d: Definition): seq<Piece> {
    if ps == [] then [] else (if Uses(ps[0], d) then [] else [ps[0]]) + Without(ps[1..], d)
  }

  /** What the pieces can pay towards definitions. */
  function Weight(ps: seq<Piece>): nat {
    if ps == [] then 0 else |PieceBytes(ps[0])| + 20 + Weight(ps[1..])
  }

  lemma {:induction false} WeightIs(ps: seq<Piece>)
    ensures Weight(ps) == |PiecesBytes(ps)| + 20 * |ps|
  {
    if ps != [] {
      WeightIs(ps[1..]);
    }
  }

  /** `DefSize(d)` for every use of `d`. */
  function UsesWeight(ps: seq<Piece>, d: Definition): nat {
    if ps == [] then 0 else (if Uses(ps[0], d) then DefSize(d) else 0) + UsesWeight(ps[1..], d)
  }

  /** Taking out the pieces of one template takes out at least its size for each of them. */
  lemma {:induction false} WithoutWeight(ps: seq<Piece>, d: Definition)
    ensures Weight(ps) >= UsesWeight(ps, d) + Weight(Without(ps, d))
  {
    if ps != [] {
      WithoutWeight(ps[1..], d);
      var rest := Without(ps[1..], d);
      if Uses(ps[0], d) {
        assert [] + rest == rest;
        assert |PieceBytes(ps[0])| + 20 >= DefSize(d);
      } else {
        assert ([ps[0]] + rest)[1..] == rest;
      }
    }
  }

  lemma {:induction false} UsesWeightIs(ps: seq<Piece>, d: Definition)
    ensures Occurs(ps, d) >= 3 ==> UsesWeight(ps, d) >= 3 * DefSize(d)
    ensures Occurs(ps, d) >= 2 ==> UsesWeight(ps, d) >= 2 * DefSize(d)
    ensures Occurs(ps, d) >= 1 ==> UsesWeight(ps, d) >= DefSize(d)
  {
    hide Uses, DefSize;
    if ps != [] {
      UsesWeightIs(ps[1..], d);
    }
  }

  lemma {:induction false} WithoutOthers(ps: seq<Piece>, d: Definition, e: Definition)
    requires d.constA != e.constA || d.constB != e.constB
    ensures Occurs(Without(ps, d), e) == Occurs(ps, e)
  {
    if ps != [] {
      WithoutOthers(ps[1..], d, e);
      var rest := Without(ps[1..], d);
      if Uses(ps[0], d) {
        assert [] + rest == rest;
      } else {
        assert ([ps[0]] + rest)[1..] == rest;
      }
    }
  }

  predicate DistinctConsts(ds: seq<Definition>) {
    forall i, j :: 0 <= i < j < |ds| ==> ds[i].constA != ds[j].constA || ds[i].constB != ds[j].constB
  }

  predicate OftenUsed(ps: seq<Piece>, d: Definition) {
    Occurs(ps, d) >= 3
  }

  /** Distinct templates used three times each are paid for by the pieces that use them. */
  lemma {:induction false} UsesPay(ds: seq<Definition>, ps: seq<Piece>)
    requires DistinctConsts(ds) && forall d <- ds :: OftenUsed(ps, d)
    ensures 3 * DefCost(ds) <= Weight(ps)
    decreases |ds|
  {
    if ds != [] {
      var d, rest := ds[0], Without(ps, ds[0]);
      assert d in ds;
      WithoutWeight(ps, d);
      UsesWeightIs(ps, d);
      assert OftenUsed(ps, d);
      hide Weight, Occurs, Without, UsesWeight, DefSize;
      forall e | e in ds[1..]
        ensures OftenUsed(rest, e)
      {
        assert e in ds;
        WithoutOthers(ps, d, e);
      }
      hide OftenUsed;
      UsesPay(ds[1..], rest);
    }
  }

  // ---- from scratch, with h injective on the run ----

  lemma EmitFromPieces(h: IdFn, st: EncState, all: seq<Piece>, p: Piece)
    requires FromPieces(h, st.table, all) && p in all
    ensures FromPieces(h, Emit(h, st, p).st.table, all)
  {
    hide RefPayload, DefinePayload;
    if Gated(p) {
      assert Source(h, DefinitionOf(h, p), p);
    }
  }

  lemma {:induction false} TableFromPieces(h: IdFn, st: EncState, all: seq<Piece>, ps: seq<Piece>)
    requires FromPieces(h, st.table, all) && forall p <- ps :: p in all
    ensures FromPieces(h, EmitAll(h, st, ps).st.table, all)
    decreases |ps|
  {
    hide Emit, FromPieces;
    if ps != [] {
      EmitFromPieces(h, st, all, ps[0]);
      TableFromPieces(h, Emit(h, st, ps[0]).st, all, ps[1..]);
    }
  }

  /** Under injectivity the hits of an id are uses of its one template. */
  lemma {:induction false} HitsAreUses(h: IdFn, all: seq<Piece>, d: Definition, ps: seq<Piece>)
    requires InjectiveOn(h, all) && forall p <- ps :: p in all
    requires exists q <- all :: Source(h, d, q)
    ensures Hits(h, ps, d.id) <= Occurs(ps, d)
    decreases |ps|
  {
    if ps != [] {
      var init, last := ps[..|ps| - 1], ps[|ps| - 1];
      assert ps == init + [last] && last in ps;
      HitsAreUses(h, all, d, init);
      OccursSnoc(init, last, d);
      var q :| q in all && Source(h, d, q);
      assert IdOf(h, q) == d.id;
    }
  }

  lemma {:induction false} OccursSnoc(ps: seq<Piece>, p: Piece, d: Definition)
    ensures Occurs(ps + [p], d) == Occurs(ps, d) + if Uses(p, d) then 1 else 0
  {
    if ps == [] {
      assert [p][1..] == [];
      assert ps + [p] == [p];
    } else {
      assert (ps + [p])[0] == ps[0] && (ps + [p])[1..] == ps[1..] + [p];
      OccursSnoc(ps[1..], p, d);
    }
  }

  lemma DistinctDefs(h: IdFn, ds: seq<Definition>)
    requires NoDup(IdsOf(ds)) && forall d <- ds :: h(d.constA, d.constB) == d.id
    ensures DistinctConsts(ds)
  {
    hide IdsOf;
    forall i, j | 0 <= i < j < |ds|
      ensures ds[i].constA != ds[j].constA || ds[i].constB != ds[j].constB
    {
      IdsAt(ds, i);
      IdsAt(ds, j);
      assert IdsOf(ds)[i] != IdsOf(ds)[j];
      assert ds[i] in ds && ds[j] in ds;
    }
  }

  lemma {:induction false} IdsAt(ds: seq<Definition>, j: nat)
    requires j < |ds|
    ensures |IdsOf(ds)| == |ds| && IdsOf(ds)[j] == ds[j].id
  {
    if j == 0 {
      if |ds| > 1 {
        IdsAt(ds[1..], 0);
      }
    } else {
      IdsAt(ds[1..], j - 1);
    }
  }

  /** Amortisation: with distinct ids for distinct templates, every definition is paid for by
      the three raw-cost hits that led to it, so the wire never exceeds four thirds of the
      truth stream plus a fixed charge per piece. */
  lemma AmortisedCost(h: IdFn, ps: seq<Piece>)
    requires InjectiveOn(h, ps)
    ensures 3 * |WireOf(EmitAll(h, START, ps).frames)| <= 4 * |PiecesBytes(ps)| + 44 * |ps|
  {
    var e, ds := EmitAll(h, START, ps), Defs(h, START, ps);
    RunCost(h, START, ps);
    DefinedOnce(h, START, ps);
    DefsAreDictionary(h, START, ps);
    TableFromPieces(h, START, ps, ps);
    EmitAllReflects(h, ps);
    EmitAllKeepsInv(h, START, ps);
    hide EmitAll, Defs, WireOf, InjectiveOn;
    forall d | d in ds
      ensures OftenUsed(ps, d) && h(d.constA, d.constB) == d.id
    {
      assert Recorded(e.st.table, d);
      assert ReflectsAt(h, e.st, ps, d.id);
      HitsAreUses(h, ps, d, ps);
    }
    hide Reflects, OftenUsed;
    DistinctDefs(h, ds);
    UsesPay(ds, ps);
    WeightIs(ps);
  }
}
