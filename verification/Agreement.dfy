/** Encoder and decoder together: when a piece survives the wire, and why whole runs are
    byte-exact. */
module Agreement {
  import opened Bytes
  import opened Numbers
  import opened Protocol
  import opened Splitter
  import opened DecoderSpec
  import opened EncoderSpec
  import opened Framing

  // ---- one piece ----

  /** The guard the program leaves unwritten: a definition must fit its 16-bit lengths, and a
      reference must find its own template under its id and fit its lane length. */
  predicate Faithful(h: IdFn, st: EncState, p: Piece) {
    Promoted(h, st, p) ==>
      var id := IdOf(h, p);
      && (RefPays(p) && (StatOf(st, id).defined || DefineFits(p.constA, p.constB)) ==> |p.lane| < TWO16)
      && (if StatOf(st, id).defined then
            RefPays(p) ==> id in st.table && st.table[id] == DefinitionOf(h, p)
          else
            DefineFits(p.constA, p.constB) ==> |p.constA| < TWO16 && |p.constB| < TWO16)
  }

  /** The frames leave the decoder's table at `after` and feed exactly `data`. */
  predicate Delivers(table: Table, fs: seq<Frame>, after: Table, data: bytes) {
    || (|fs| == 1 && EffectOf(table, fs[0]) == Feeds(after, data))
    || (|fs| == 2 && EffectOf(table, fs[0]) == Defines(after) && EffectOf(after, fs[1]) == Feeds(after, data))
  }

  predicate ShapedConsts(a: bytes, b: bytes) {
    || (b == CRLF && |a| >= 3 && a[|a| - 2..] == COLON_SPACE)
    || (|b| == 1 && IsDelim(b[0]) && |a| >= 1 && a[|a| - 1] == EQUALS)
  }

  predicate TableOk(table: Table) {
    forall id <- table :: ShapedConsts(table[id].constA, table[id].constB) && |table[id].constA| < TWO16
  }

  /** Two templates that expand one lane to the same bytes are the same template. */
  lemma ExpansionInjective(a: bytes, b: bytes, c: bytes, d: bytes, lane: bytes)
    requires ShapedConsts(a, b) && ShapedConsts(c, d)
    requires a + lane + b == c + lane + d
    ensures a == c && b == d
  {
    if |b| == |d| {
      Assoc(a, lane, b);
      Assoc(c, lane, d);
      SameSplit(a, lane + b, c, lane + d);
      SameSplit(lane, b, lane, d);
    } else if |b| == 2 {
      NoMixedExpansion(a, c, d, lane);
    } else {
      NoMixedExpansion(c, a, b, lane);
    }
  }

  lemma SameSplit(x: bytes, y: bytes, z: bytes, w: bytes)
    requires x + y == z + w && |x| == |z|
    ensures x == z && y == w
  {
    assert x == (x + y)[..|x|] && z == (z + w)[..|z|];
    assert y == (x + y)[|x|..] && w == (z + w)[|z|..];
  }

  /** A header template and a body template never expand one lane alike: the body key ends in
      `=`, which would have to run through the whole lane and meet the CR. */
  lemma NoMixedExpansion(a: bytes, c: bytes, d: bytes, lane: bytes)
    requires |d| == 1 && c != [] && c[|c| - 1] == EQUALS
    ensures a + lane + CRLF != c + lane + d
  {
    if a + lane + CRLF == c + lane + d {
      var x := a + lane + CRLF;
      assert |c| == |a| + 1;
      assert x[|a|] == (c + lane + d)[|a|] == EQUALS;
      assert x[|a| + |lane|] == CR;
      var k := 0;
      while k < |lane|
        invariant k <= |lane|
        invariant x[|a| + k] == EQUALS
      {
        assert x[|a| + k] == lane[k];
        assert (c + lane + d)[|c| + k] == lane[k];
        k := k + 1;
      }
      assert false;
    }
  }

  /** A lane that overflows its length field always loses bytes. */
  lemma LongLaneLoses(table: Table, id: u16, p: Piece)
    requires id in table && TableOk(table)
    requires Gated(p) && |p.lane| >= TWO16
    ensures EffectOf(table, Frame(TEMPLATE_REF, RefPayload(id, p.lane))).Feeds?
    ensures |EffectOf(table, Frame(TEMPLATE_REF, RefPayload(id, p.lane))).data| < |PieceBytes(p)|
  {
    var payload := RefPayload(id, p.lane);
    assert payload[0..2] == U16(id);
    U16RoundTrip(id, payload, 0);
    RefEffect(table, id, p.lane);
    hide RefPayload, U16At;
  }

  lemma RefDelivers(h: IdFn, table: Table, p: Piece)
    requires p.Seg? && IdOf(h, p) in table && TableOk(table) && table[IdOf(h, p)].id == IdOf(h, p)
    requires Gated(p) && ShapedConsts(p.constA, p.constB) && RefPays(p)
    ensures EffectOf(table, RefOrRaw(h, p)) == Feeds(table, PieceBytes(p))
            <==> |p.lane| < TWO16 && table[IdOf(h, p)] == DefinitionOf(h, p)
  {
    var id := IdOf(h, p);
    RefEffect(table, id, p.lane);
    if |p.lane| >= TWO16 {
      LongLaneLoses(table, id, p);
    } else if EffectOf(table, RefOrRaw(h, p)) == Feeds(table, PieceBytes(p)) {
      ExpansionInjective(table[id].constA, table[id].constB, p.constA, p.constB, p.lane);
    }
    hide RefPayload, EffectOf, TableOk, ShapedConsts;
  }

  /** A piece survives the wire exactly when it is faithful. */
  lemma PieceSurvives(h: IdFn, st: EncState, p: Piece)
    requires EncInv(h, st) && TableOk(st.table) && AnyShape(p)
    ensures var e := Emit(h, st, p);
            Delivers(st.table, e.frames, e.st.table, PieceBytes(p)) <==> Faithful(h, st, p)
    ensures Faithful(h, st, p) ==> TableOk(Emit(h, st, p).st.table)
  {
    var e := Emit(h, st, p);
    if !Promoted(h, st, p) {
      assert e.frames == [RawFrame(PieceBytes(p))];
    } else {
      var id, stat := IdOf(h, p), StatOf(st, IdOf(h, p));
      if stat.defined {
        if RefPays(p) {
          RefDelivers(h, st.table, p);
        }
        hide EffectOf, RefPayload, TableOk;
      } else if DefineFits(p.constA, p.constB) {
        DefineSurvives(h, st, p);
      }
    }
  }

  lemma DefineSurvives(h: IdFn, st: EncState, p: Piece)
    requires TableOk(st.table) && p.Seg? && ShapedConsts(p.constA, p.constB) && DefinesNow(h, st, p)
    ensures var e := Emit(h, st, p);
            Delivers(st.table, e.frames, e.st.table, PieceBytes(p)) <==> Faithful(h, st, p)
    ensures Faithful(h, st, p) ==> TableOk(Emit(h, st, p).st.table)
  {
    var e, d := Emit(h, st, p), DefinitionOf(h, p);
    var after := st.table[d.id := d];
    DefineEffect(st.table, d);
    if |p.constA| < TWO16 && |p.constB| < TWO16 {
      assert TableOk(after);
      if RefPays(p) {
        RefDelivers(h, after, p);
      }
    }
    assert !RefPays(p) ==> EffectOf(after, RefOrRaw(h, p)) == Feeds(after, PieceBytes(p));
    hide EffectOf, RefPayload, DefinePayload, TableOk;
  }

  // ---- when every piece of a run is faithful ----

  predicate FaithfulRun(h: IdFn, st: EncState, ps: seq<Piece>)
    decreases |ps|
  {
    ps == [] || (Faithful(h, st, ps[0]) && FaithfulRun(h, Emit(h, st, ps[0]).st, ps[1..]))
  }

  lemma {:induction false} FaithfulRunAppend(h: IdFn, st: EncState, x: seq<Piece>, y: seq<Piece>)
    ensures FaithfulRun(h, st, x + y) <==> FaithfulRun(h, st, x) && FaithfulRun(h, EmitAll(h, st, x).st, y)
    decreases |x|
  {
    hide Emit, Faithful;
    if x == [] {
      assert x + y == y;
    } else {
      var xy := x + y;
      assert xy[0] == x[0] && xy[1..] == x[1..] + y;
      FaithfulRunAppend(h, Emit(h, st, x[0]).st, x[1..], y);
    }
  }

  /** The frames of the i-th piece feed the decoder exactly data[i]. */
  predicate DeliversAs(h: IdFn, st: EncState, ps: seq<Piece>, data: seq<bytes>)
    decreases |ps|
  {
    |ps| == |data|
    && (ps == []
        || (var e := Emit(h, st, ps[0]);
            Delivers(st.table, e.frames, e.st.table, data[0]) && DeliversAs(h, e.st, ps[1..], data[1..])))
  }

  /** Every piece of the run reaches the decoder as it was cut, by its own frames. */
  predicate DeliversAll(h: IdFn, st: EncState, ps: seq<Piece>) {
    DeliversAs(h, st, ps, PieceData(ps))
  }

  /** A run delivers all its pieces exactly when it is faithful. */
  lemma {:induction false} RunSurvives(h: IdFn, st: EncState, ps: seq<Piece>)
    requires EncInv(h, st) && TableOk(st.table) && forall p <- ps :: AnyShape(p)
    ensures DeliversAll(h, st, ps) <==> FaithfulRun(h, st, ps)
    decreases |ps|
  {
    hide EncInv, TableOk, AnyShape, Emit, Delivers, Faithful;
    if ps != [] {
      assert AnyShape(ps[0]);
      assert PieceData(ps)[0] == PieceBytes(ps[0]) && PieceData(ps)[1..] == PieceData(ps[1..]);
      PieceSurvives(h, st, ps[0]);
      EmitKeepsInv(h, st, ps[0]);
      if Faithful(h, st, ps[0]) {
        RunSurvives(h, Emit(h, st, ps[0]).st, ps[1..]);
      }
    }
  }

  /** Different templates of the run have different ids. */
  predicate InjectiveOn(h: IdFn, ps: seq<Piece>) {
    forall p, q :: p in ps && q in ps && Gated(p) && Gated(q) && IdOf(h, p) == IdOf(h, q) ==>
      p.constA == q.constA && p.constB == q.constB
  }

  /** The constants fit the length fields, and so does any lane that passes the gate. */
  predicate ShortConsts(p: Piece) {
    p.Seg? ==> |p.constA| < TWO16 && |p.constB| < TWO16 && |p.constA| + |p.constB| <= TWO16
  }

  predicate Source(h: IdFn, d: Definition, q: Piece) {
    Gated(q) && DefinitionOf(h, q) == d
  }

  predicate FromPieces(h: IdFn, table: Table, ps: seq<Piece>) {
    forall id <- table :: exists q <- ps :: Source(h, table[id], q)
  }

  lemma {:induction false} InjectiveFaithful(h: IdFn, st: EncState, all: seq<Piece>, ps: seq<Piece>)
    requires EncInv(h, st) && FromPieces(h, st.table, all)
    requires InjectiveOn(h, all) && forall p <- all :: ShortConsts(p)
    requires forall p <- ps :: p in all
    ensures FaithfulRun(h, st, ps)
    decreases |ps|
  {
    if ps != [] {
      var p := ps[0];
      FaithfulHere(h, st, all, p);
      EmitKeepsInv(h, st, p);
      hide EncInv, InjectiveOn, ShortConsts, FromPieces, Emit, Faithful;
      InjectiveFaithful(h, Emit(h, st, p).st, all, ps[1..]);
    }
  }

  lemma FaithfulHere(h: IdFn, st: EncState, all: seq<Piece>, p: Piece)
    requires EncInv(h, st) && FromPieces(h, st.table, all)
    requires InjectiveOn(h, all) && ShortConsts(p) && p in all
    ensures Faithful(h, st, p)
    ensures FromPieces(h, Emit(h, st, p).st.table, all)
  {
    hide RefPayload, DefinePayload;
    if Gated(p) {
      assert Source(h, DefinitionOf(h, p), p);
      var id := IdOf(h, p);
      if id in st.table {
        var q :| q in all && Source(h, st.table[id], q);
        assert IdOf(h, q) == id;
      }
    }
  }

  /** Distinct ids and short constants make every run from scratch faithful. */
  lemma InjectiveRunFaithful(h: IdFn, ps: seq<Piece>)
    requires InjectiveOn(h, ps) && forall p <- ps :: ShortConsts(p)
    ensures FaithfulRun(h, START, ps)
  {
    InjectiveFaithful(h, START, ps, ps);
  }

  // ---- one message ----

  /** Decoding the frames of a delivered piece is pushing its bytes. */
  lemma DeliveredPush(ds: DecState, fs: seq<Frame>, after: Table, data: bytes)
    requires Delivers(ds.table, fs, after, data)
    ensures RunFrames(ds, fs) ==
            match Push(ds.asm, data)
            case Err(e) => Err(e)
            case Ok(asm) => Ok(DecState(after, ds.epoch, asm))
    ensures |fs| == 2 ==> RunFrames(ds, fs[..1]) == Ok(ds.(table := after))
    ensures 1 <= |fs| <= 2
  {
    hide EffectOf, Push;
    if |fs| == 1 {
      assert fs[1..] == [];
    } else {
      var ds1 := ds.(table := after);
      assert Step(ds, fs[0]) == Ok(ds1);
      assert fs[1..][0] == fs[1] && fs[1..][1..] == [];
      assert RunFrames(ds1, fs[1..]) == Step(ds1, fs[1]);
      assert fs[..1][0] == fs[0] && fs[..1][1..] == [];
    }
  }

  /** Decoding the frames of any run is pushing, piece by piece, what they deliver. */
  lemma {:induction false} RunIsPushes(h: IdFn, st: EncState, ps: seq<Piece>, data: seq<bytes>, ds: DecState)
    requires DeliversAs(h, st, ps, data) && ds.table == st.table
    ensures var e := EmitAll(h, st, ps);
            var r := PushAll(ds.asm, data);
            if r.Ok? then RunFrames(ds, e.frames) == Ok(DecState(e.st.table, ds.epoch, r.value))
            else RunFrames(ds, e.frames) == Err(r.error)
    decreases |ps|
  {
    hide Emit, Delivers, Push, Step;
    if ps == [] {
      assert DecState(st.table, ds.epoch, ds.asm) == ds;
    } else {
      var e := Emit(h, st, ps[0]);
      DeliveredPush(ds, e.frames, e.st.table, data[0]);
      RunFramesAppend(ds, e.frames, EmitAll(h, e.st, ps[1..]).frames);
      var r := Push(ds.asm, data[0]);
      if r.Ok? {
        RunIsPushes(h, e.st, ps[1..], data[1..], DecState(e.st.table, ds.epoch, r.value));
      }
    }
  }

  /** After `now` of the message has been fed: still partial, or written and idle again. */
  function Fed(m: Message, now: bytes, flushed: seq<bytes>): Assembler {
    if |now| >= Awaited(m) then Idle(flushed + [now]) else Partial(m, now, flushed)
  }

  /** The frames of one piece: the last one feeds the piece, an earlier one writes nothing. */
  lemma PieceDecodes(h: IdFn, st: EncState, m: Message, pre: bytes, p: Piece, ds: DecState, flushed: seq<bytes>)
    requires Headed(m) && pre + PieceBytes(p) <= Truth(m)
    requires EncInv(h, st) && TableOk(st.table) && Faithful(h, st, p) && AnyShape(p)
    requires ds.table == st.table && ds.asm == Partial(m, pre, flushed)
    ensures var e := Emit(h, st, p);
            && EncInv(h, e.st) && TableOk(e.st.table) && 1 <= |e.frames|
            && RunFrames(ds, e.frames) ==
                 Ok(DecState(e.st.table, ds.epoch, Fed(m, pre + PieceBytes(p), flushed)))
            && forall j :: 0 <= j < |e.frames| ==>
                 RunFrames(ds, e.frames[..j]).Ok? && RunFrames(ds, e.frames[..j]).value.asm == ds.asm
  {
    hide Emit, EncInv, TableOk, Faithful, Push, Step, Delivers, Headed, Truth, Partial, Awaited;
    var e := Emit(h, st, p);
    PieceSurvives(h, st, p);
    EmitKeepsInv(h, st, p);
    PushPart(m, pre, PieceBytes(p), flushed);
    DeliveredPush(ds, e.frames, e.st.table, PieceBytes(p));
    assert e.frames[..0] == [];
  }

  /** The frames of one message, cut anywhere: nothing is written before the last of them,
      and the last one writes exactly the message. */
  lemma {:induction false} MessageDecodes(
    h: IdFn, st: EncState, m: Message, pre: bytes, ps: seq<Piece>, ds: DecState, flushed: seq<bytes>, j: nat)
    requires Headed(m) && OnlyLast(m, ps) && pre + PiecesBytes(ps) == Truth(m)
    requires EncInv(h, st) && TableOk(st.table) && FaithfulRun(h, st, ps)
    requires forall p <- ps :: AnyShape(p)
    requires ds.table == st.table && ds.asm == Partial(m, pre, flushed)
    requires j <= |EmitAll(h, st, ps).frames|
    ensures var e := EmitAll(h, st, ps);
            var r := RunFrames(ds, e.frames[..j]);
            && EncInv(h, e.st) && TableOk(e.st.table)
            && r.Ok?
            && (j < |e.frames| ==> r.value.asm.flushed == flushed)
            && (j == |e.frames| ==> r.value == DecState(e.st.table, ds.epoch, Idle(flushed + [Truth(m)])))
    decreases |ps|
  {
    hide Emit, EncInv, TableOk, Faithful, Headed, Truth, Step, AnyShape, Awaited, PieceBytes, PiecesBytes, Nonempty;
    var p, rest := ps[0], ps[1..];
    var e := Emit(h, st, p);
    var now := pre + PieceBytes(p);
    ShapedNonempty(ps);
    NextPiece(m, pre, ps);
    PieceDecodes(h, st, m, pre, p, ds, flushed);
    var more := EmitAll(h, e.st, rest).frames;
    var fs := e.frames + more;
    if j < |e.frames| {
      assert fs[..j] == e.frames[..j];
    }
    if rest == [] {
      assert fs == e.frames && fs[..|fs|] == fs;
    } else {
      assert rest[|rest| - 1] == ps[|ps| - 1];
      var ds1 := DecState(e.st.table, ds.epoch, Partial(m, now, flushed));
      var k := if j < |e.frames| then 0 else j - |e.frames|;
      MessageDecodes(h, e.st, m, now, rest, ds1, flushed, k);
      if j >= |e.frames| {
        assert fs[..j] == e.frames + more[..k];
        RunFramesAppend(ds, e.frames, more[..k]);
      }
    }
  }

  lemma ShapedNonempty(ps: seq<Piece>)
    requires forall p <- ps :: AnyShape(p)
    ensures Nonempty(ps)
  {}
}
