/** A key of 64 KiB whose definition the decoder reads as another, shorter one: the reference
    after it falls behind, and the next key, which shares its id with a longer one, makes up for
    it. The backend gets exactly the truth although the run is not faithful, with header and body
    templates under different ids: the equivalence of byte-exactness and faithfulness does need
    the keys to be short. */
module LongKeyRun {
  import opened Bytes
  import opened Numbers
  import opened Protocol
  import opened Splitter
  import opened DecoderSpec
  import opened EncoderSpec
  import opened Framing
  import opened Agreement
  import opened HttpRequest
  import opened Normalizer
  import opened Sessions
  import opened ByteExact
  import opened Requests
  import Divergence
  import MendedRun
  import TemplateCodec
  import W = WrongRuns

  // The lane of the long piece: what stands between two constants of a DEFINE payload, when the
  // second has 65530 bytes
  const LANE: bytes := [2, 97, 97, 1, 255, 250]
  const ONE: bytes := [49]
  // "kkkk=", and the lane, a comma and "kkkk="
  const KEY: bytes := [107, 107, 107, 107, 61]
  const AHEAD: bytes := LANE + [COMMA] + KEY

  // 65529 times "a", then "="
  function Filler(): bytes {
    seq(TWO16 - 7, _ => 97) + [EQUALS]
  }

  function LongKey(): bytes {
    [97] + LANE + Filler()
  }

  /** The ids: AHEAD and KEY share one. */
  function Mending(a: bytes, b: bytes): u16 {
    if a == LENGTH_PREFIX then 3 else if |a| > 100 then 1 else 2
  }

  const F: Piece := Seg(AHEAD, ONE, [COMMA])
  const K: Piece := Seg(KEY, ONE, [COMMA])
  const END: Piece := Raw([LF])

  function P(): (p: Piece)
    ensures p.Seg?
  {
    Seg(LongKey(), LANE, [COMMA])
  }

  // Three times AHEAD, three times the long key, and KEY, in one line
  function Segments(): seq<Piece> {
    [F, F] + ([F] + [P(), P()]) + [P(), K]
  }

  function LongBody(): bytes {
    PiecesBytes(Segments()) + [LF]
  }

  // ---- the pieces ----

  lemma LongKeyIs()
    ensures |LongKey()| == TWO16 + 1 && |Filler()| == TWO16 - 6
    ensures KeyShape(LongKey()) && LF !in LongKey()
  {
    var a, init := LongKey(), [97] + LANE + seq(TWO16 - 7, _ => 97);
    assert a == init + [EQUALS];
    assert a[..|a| - 1] == init;
  }

  lemma PieceIs(p: Piece)
    requires p == P()
    ensures p.Seg? && p.constA == LongKey() && p.lane == LANE && p.constB == [COMMA]
    ensures W.CommaSeg(p) && |PieceBytes(p)| == TWO16 + 8
    ensures Gated(p) && RefPays(p) && DefineFits(p.constA, p.constB) && IdOf(Mending, p) == 1
  {
    LongKeyIs();
    hide LongKey, KeyShape;
    assert LENGTH_PREFIX[0] == 67 && |LENGTH_PREFIX| == 16;
  }

  lemma ShortPieces()
    ensures W.CommaSeg(F) && W.CommaSeg(K)
    ensures Gated(F) && Gated(K) && RefPays(F) && RefPays(K) && DefineFits(AHEAD, [COMMA])
    ensures IdOf(Mending, F) == 2 && IdOf(Mending, K) == 2
    ensures |PieceBytes(F)| == 14 && |PieceBytes(K)| == 7
  {
    AheadShape();
    hide KeyShape;
    assert LENGTH_PREFIX[0] == 67;
  }

  lemma AheadShape()
    ensures KeyShape(AHEAD) && KeyShape(KEY) && |AHEAD| == 12 && AHEAD[0] == 2 && LF !in AHEAD
  {
    assert AHEAD == [2, 97, 97, 1, 255, 250, 44, 107, 107, 107, 107, 61];
    assert AHEAD[..11] == [2, 97, 97, 1, 255, 250, 44, 107, 107, 107, 107];
    assert KEY[..4] == [107, 107, 107, 107];
  }

  lemma BodyIs()
    ensures BodyPieces(LongBody()) == Segments() + [END] && |LongBody()| <= MAX_BODY
  {
    PieceIs(P());
    ShortPieces();
    hide P, PieceBytes, W.CommaSeg, BodyPieces, PiecesBytes, Gated, RefPays;
    SegmentsClosed();
    W.CommaBody(Segments());
    PairBytes(F, F);
    PairBytes(P(), P());
    PairBytes(P(), K);
    OneBytes(F);
    PiecesBytesAppend([F], [P(), P()]);
    PiecesBytesAppend([F, F], [F] + [P(), P()]);
    PiecesBytesAppend([F, F] + ([F] + [P(), P()]), [P(), K]);
  }

  lemma SegmentsClosed()
    ensures W.CommaSegs(Segments())
  {
    PieceIs(P());
    ShortPieces();
    hide P, PieceBytes, W.CommaSeg, Gated, RefPays;
  }

  lemma PairBytes(p: Piece, q: Piece)
    ensures PiecesBytes([p, q]) == PieceBytes(p) + PieceBytes(q)
  {
    hide PieceBytes;
    OneBytes(q);
    assert [p, q][1..] == [q];
  }

  // ---- what the long definition says to the decoder ----

  const WRONG_END: bytes := [SEG_VAR] + U16(0) + [SEG_CONST] + U16(1) + [COMMA]

  function Misread(): Definition {
    Definition(1, [97], Filler())
  }

  /** The builder's payload is, byte for byte, one that says something else. */
  lemma DefinitionMisread()
    ensures ParseDefine(DefinePayload(1, LongKey(), [COMMA])) == Parsed(Misread())
  {
    LongKeyIs();
    LengthBytes();
    hide ParseDefine, Filler, U16;
    var p := DefinePayload(1, LongKey(), [COMMA]);
    var front := U16(1) + [3] + [SEG_CONST] + U16(1);
    assert p == front + ([97] + LANE + Filler()) + WRONG_END;
    assert LANE == [SEG_VAR] + [97, 97] + [SEG_CONST] + U16(|Filler()|);
    Regroup(front, [97], [SEG_VAR], [97, 97], [SEG_CONST], U16(|Filler()|), Filler(), WRONG_END);
    assert TemplateCodec.DefineGrammar(p, Misread(), [97, 97], WRONG_END);
    TemplateCodec.DefineAccepts(p, Misread());
  }

  lemma LengthBytes()
    ensures U16(TWO16 + 1) == U16(1) && U16(TWO16 - 6) == [255, 250]
  {}

  lemma Regroup(f: bytes, a: bytes, v: bytes, gap: bytes, c: bytes, n: bytes, b: bytes, rest: bytes)
    ensures f + (a + (v + gap + c + n) + b) + rest == f + a + v + gap + c + n + b + rest
  {}

  // ---- what the run leaves in counters and tables ----

  lemma {:induction false} Untouched(h: IdFn, st: EncState, ps: seq<Piece>, id: u16)
    requires forall p <- ps :: Gated(p) ==> IdOf(h, p) != id
    ensures StatOf(EmitAll(h, st, ps).st, id) == StatOf(st, id)
    decreases |ps|
  {
    hide Emit, StatOf, Gated;
    if ps != [] {
      assert ps[0] in ps && forall p <- ps[1..] :: p in ps;
      EmitStat(h, st, ps[0], id);
      Untouched(h, Emit(h, st, ps[0]).st, ps[1..], id);
    }
  }

  /** The first two of a kind go out raw. */
  lemma TwiceRaw(h: IdFn, st: EncState, p: Piece, other: u16)
    requires Gated(p) && IdOf(h, p) != other && StatOf(st, IdOf(h, p)) == SpanInfo(0, false)
    ensures DeliversAs(h, st, [p, p], [PieceBytes(p), PieceBytes(p)])
    ensures var after := EmitAll(h, st, [p, p]).st;
            && after.table == st.table && StatOf(after, IdOf(h, p)) == SpanInfo(2, false)
            && StatOf(after, other) == StatOf(st, other)
  {
    hide PieceBytes, DefinePayload, RefPayload, Gated, EffectOf;
    var s1 := Emit(h, st, p).st;
    OnceRaw(h, st, p, other);
    OnceRaw(h, s1, p, other);
    hide Emit, StatOf;
    DeliversNone(h, Emit(h, s1, p).st);
    DeliversCons(h, s1, p, PieceBytes(p), [], []);
    DeliversCons(h, st, p, PieceBytes(p), [p] + [], [PieceBytes(p)] + []);
    assert [p] + [] == [p] && [p] + [p] == [p, p] && [PieceBytes(p)] + [] == [PieceBytes(p)];
    assert [p, p][1..] == [p];
    EmitAllOne(h, s1, p);
  }

  lemma OnceRaw(h: IdFn, st: EncState, p: Piece, other: u16)
    requires Gated(p) && IdOf(h, p) != other
    requires StatOf(st, IdOf(h, p)).hits < 2 && !StatOf(st, IdOf(h, p)).defined
    ensures var e := Emit(h, st, p);
            && Delivers(st.table, e.frames, e.st.table, PieceBytes(p)) && e.st.table == st.table
            && StatOf(e.st, IdOf(h, p)) == SpanInfo(StatOf(st, IdOf(h, p)).hits + 1, false)
            && StatOf(e.st, other) == StatOf(st, other)
  {
    EmitStat(h, st, p, other);
    EmitStat(h, st, p, IdOf(h, p));
    GoesRaw(h, st, p);
    RawDelivered(st.table, PieceBytes(p));
    hide PieceBytes, Emit, StatOf, EffectOf, Gated;
  }

  lemma GoesRaw(h: IdFn, st: EncState, p: Piece)
    requires Gated(p) && StatOf(st, IdOf(h, p)).hits < 2
    ensures var e := Emit(h, st, p);
            e.frames == [RawFrame(PieceBytes(p))] && e.st.table == st.table && !DefinesNow(h, st, p)
  {
    hide PieceBytes, DefinePayload, RefPayload;
  }

  /** The third is defined and sent by reference. */
  lemma ThirdDefines(h: IdFn, st: EncState, p: Piece, other: u16)
    requires Gated(p) && RefPays(p) && DefineFits(p.constA, p.constB) && IdOf(h, p) != other
    requires StatOf(st, IdOf(h, p)) == SpanInfo(2, false)
    ensures var e, d := Emit(h, st, p), DefinitionOf(h, p);
            && e.frames == [DefineFrame(d), Frame(TEMPLATE_REF, RefPayload(d.id, p.lane))]
            && e.st.table == st.table[d.id := d]
            && StatOf(e.st, d.id) == SpanInfo(3, true) && StatOf(e.st, other) == StatOf(st, other)
  {
    hide PieceBytes, DefinePayload, RefPayload;
    EmitStat(h, st, p, other);
  }

  lemma ShortDelivers(h: IdFn, st: EncState, p: Piece, other: u16)
    requires Gated(p) && RefPays(p) && DefineFits(p.constA, p.constB) && IdOf(h, p) != other
    requires StatOf(st, IdOf(h, p)) == SpanInfo(2, false)
    requires |p.constA| < TWO16 && |p.constB| < TWO16 && |p.lane| < TWO16
    ensures var e := Emit(h, st, p);
            Delivers(st.table, e.frames, e.st.table, PieceBytes(p))
  {
    hide EffectOf, DefinePayload, RefPayload, Emit;
    ThirdDefines(h, st, p, other);
    var d := DefinitionOf(h, p);
    DefineEffect(st.table, d);
    RefEffect(st.table[d.id := d], d.id, p.lane);
  }

  // ---- the run up to the third long piece ----

  function Header(): seq<Piece> {
    HeaderPieces(Block(LinesOf(W.GET, [], |LongBody()|)))
  }

  lemma HeaderIs()
    ensures var hs := Header();
            && hs == [Raw(W.GET + CRLF), LengthPiece(|LongBody()|), Raw(CRLF)]
            && (forall p <- hs :: Gated(p) ==> p.constA == LENGTH_PREFIX && p.constB == CRLF)
            && DeliversAll(Mending, START, hs) && EmitAll(Mending, START, hs).st.table == map[]
  {
    hide LongBody, HeaderPieces, Block, DeliversAs, EmitAll, FaithfulRun, Mending, LinesOf;
    W.GetGood();
    hide GoodFirst, DeclaredLength;
    var n := |LongBody()|;
    W.PlainPieces(W.GET, n);
    MendedRun.GetPiece();
    LengthIs(n);
    W.PlainHeaderDelivers(Mending, W.GET, n);
    assert HeaderLinePiece(LengthLine(n) + CRLF) == LengthPiece(n);
  }

  const AHEAD_BYTES: bytes := AHEAD + ONE + [COMMA]

  function Front(): seq<Piece> {
    Header() + ([F, F] + ([F] + [P(), P()]))
  }

  function FrontData(): seq<bytes> {
    PieceData(Header()) + PieceData([F, F] + ([F] + [P(), P()]))
  }

  /** Everything before the third long piece arrives as it was sent. */
  lemma FrontRuns()
    ensures DeliversAs(Mending, START, Front(), FrontData())
    ensures var st := EmitAll(Mending, START, Front()).st;
            && st.table == map[2 := Definition(2, AHEAD, [COMMA])]
            && StatOf(st, 1) == SpanInfo(2, false) && StatOf(st, 2) == SpanInfo(3, true)
  {
    HeaderIs();
    HeaderIds(1);
    HeaderIds(2);
    PieceIs(P());
    ShortPieces();
    hide Header, P, Mending, Emit, EmitAll, DeliversAs, StatOf, Gated, RefPays, PieceBytes, W.CommaSeg;
    var s0 := EmitAll(Mending, START, Header()).st;
    var s1 := EmitAll(Mending, s0, [F, F]).st;
    TwiceRaw(Mending, s0, F, 1);
    var s2 := Emit(Mending, s1, F).st;
    ThirdDefines(Mending, s1, F, 1);
    ShortDelivers(Mending, s1, F, 1);
    TwiceRaw(Mending, s2, P(), 2);
    var f, b := PieceBytes(F), PieceBytes(P());
    DeliversCons(Mending, s1, F, f, [P(), P()], [b, b]);
    EmitAllOne(Mending, s1, F);
    EmitAllAppend(Mending, s1, [F], [P(), P()]);
    DeliversAppend(Mending, s0, [F, F], [F] + [P(), P()], [f, f], [f] + [b, b]);
    EmitAllAppend(Mending, s0, [F, F], [F] + [P(), P()]);
    FiveData(F, P());
    DeliversAppend(Mending, START, Header(), [F, F] + ([F] + [P(), P()]), PieceData(Header()), [f, f] + ([f] + [b, b]));
    EmitAllAppend(Mending, START, Header(), [F, F] + ([F] + [P(), P()]));
  }

  lemma FiveData(x: Piece, y: Piece)
    ensures var a, b := PieceBytes(x), PieceBytes(y);
            PieceData([x, x] + ([x] + [y, y])) == [a, a] + ([a] + [b, b])
  {
    hide PieceBytes;
    TwoData(x);
    TwoData(y);
    DataCons(x, [y, y]);
    PieceDataAppend([x, x], [x] + [y, y]);
  }

  lemma TwoData(x: Piece)
    ensures PieceData([x, x]) == [PieceBytes(x), PieceBytes(x)]
  {
    hide PieceBytes;
    assert [x, x][1..] == [x] && [x][1..] == [] && PieceData([]) == [];
    assert PieceData([x]) == [PieceBytes(x)];
  }

  lemma HeaderIds(id: u16)
    requires id == 1 || id == 2
    ensures StatOf(EmitAll(Mending, START, Header()).st, id) == SpanInfo(0, false)
  {
    HeaderIs();
    hide Header, EmitAll, DeliversAs, Gated;
    Untouched(Mending, START, Header(), id);
  }

  // ---- the rest of the run ----

  /** Frames that define and then feed leave what pushing the data leaves. */
  lemma DefineAndFeeds(ds: DecState, f: Frame, g1: Frame, g2: Frame, g3: Frame, t: Table, x: bytes, y: bytes, z: bytes)
    requires EffectOf(ds.table, f) == Defines(t) && EffectOf(t, g1) == Feeds(t, x)
    requires EffectOf(t, g2) == Feeds(t, y) && EffectOf(t, g3) == Feeds(t, z)
    ensures var r := PushAll(ds.asm, [x] + ([y] + ([z] + [])));
            r.Ok? ==> RunFrames(ds, [f, g1] + ([g2] + ([g3] + []))) == Ok(DecState(t, ds.epoch, r.value))
  {
    hide EffectOf, Push;
    var d0 := DecState(t, ds.epoch, ds.asm);
    PushCons(ds.asm, x, [y] + ([z] + []));
    assert Step(ds, f) == Ok(d0);
    assert [f, g1] + ([g2] + ([g3] + [])) == [f] + ([g1] + ([g2] + ([g3] + [])));
    RunCons(ds, f, [g1] + ([g2] + ([g3] + [])));
    RunCons(d0, g1, [g2] + ([g3] + []));
    if Push(ds.asm, x).Ok? {
      var d1 := DecState(t, ds.epoch, Push(ds.asm, x).value);
      PushCons(d1.asm, y, [z] + []);
      RunCons(d1, g2, [g3] + []);
      if Push(d1.asm, y).Ok? {
        var d2 := DecState(t, ds.epoch, Push(d1.asm, y).value);
        PushCons(d2.asm, z, []);
        RunCons(d2, g3, []);
      }
    }
  }

  lemma RunCons(ds: DecState, f: Frame, fs: seq<Frame>)
    ensures Step(ds, f).Ok? ==> RunFrames(ds, [f] + fs) == RunFrames(Step(ds, f).value, fs)
    ensures RunFrames(ds, []) == Ok(ds)
  {
    hide Step;
    assert ([f] + fs)[0] == f && ([f] + fs)[1..] == fs;
  }

  lemma PushCons(a: Assembler, x: bytes, xs: seq<bytes>)
    ensures if Push(a, x).Ok? then PushAll(a, [x] + xs) == PushAll(Push(a, x).value, xs) else PushAll(a, [x] + xs).Err?
    ensures PushAll(a, []) == Ok(a)
  {
    hide Push;
    assert ([x] + xs)[0] == x && ([x] + xs)[1..] == xs;
  }

  // What the decoder holds after it, and what it is fed
  function WrongTable(): Table {
    map[2 := Definition(2, AHEAD, [COMMA])][1 := Misread()]
  }

  function RestData(): seq<bytes> {
    [LongKey()] + ([AHEAD_BYTES] + ([[LF]] + []))
  }

  function Rest(): seq<Piece> {
    [P()] + ([K] + ([END] + []))
  }

  /** The long piece comes out without its lane and comma, and KEY as AHEAD. */
  lemma RestRuns(st: EncState, ds: DecState)
    requires st.table == ds.table == map[2 := Definition(2, AHEAD, [COMMA])]
    requires StatOf(st, 1) == SpanInfo(2, false) && StatOf(st, 2) == SpanInfo(3, true)
    ensures var r := PushAll(ds.asm, RestData());
            r.Ok? ==> RunFrames(ds, EmitAll(Mending, st, Rest()).frames)
                      == Ok(DecState(WrongTable(), ds.epoch, r.value))
  {
    var p := P();
    PieceIs(p);
    ShortPieces();
    hide P, Mending, Emit, StatOf, EffectOf, PushAll, LongKey, Filler, RefPays, Gated, PieceBytes, W.CommaSeg,
         DefinePayload, RefPayload;
    ThirdDefines(Mending, st, p, 2);
    var s1 := Emit(Mending, st, p).st;
    Refers(s1);
    var s2 := Emit(Mending, s1, K).st;
    RestFrames(st, s1, s2);
    MisreadEffects(ds.table);
    var d := DefinitionOf(Mending, p);
    DefineAndFeeds(ds, DefineFrame(d), Frame(TEMPLATE_REF, RefPayload(1, LANE)),
                   Frame(TEMPLATE_REF, RefPayload(2, ONE)), RawFrame([LF]),
                   WrongTable(), LongKey(), AHEAD_BYTES, [LF]);
  }

  lemma RestFrames(st: EncState, s1: EncState, s2: EncState)
    requires s1 == Emit(Mending, st, P()).st && s2 == Emit(Mending, s1, K).st
    ensures EmitAll(Mending, st, Rest()).frames ==
            Emit(Mending, st, P()).frames + (Emit(Mending, s1, K).frames + ([RawFrame([LF])] + []))
  {
    hide Emit, P;
    EmitCons(Mending, st, P(), [K] + ([END] + []));
    EmitCons(Mending, s1, K, [END] + []);
    EmitCons(Mending, s2, END, []);
    RawEmits(s2);
  }

  lemma RawEmits(st: EncState)
    ensures Emit(Mending, st, END).frames == [RawFrame([LF])]
  {}

  lemma EmitCons(h: IdFn, st: EncState, p: Piece, ps: seq<Piece>)
    ensures EmitAll(h, st, [p] + ps).frames == Emit(h, st, p).frames + EmitAll(h, Emit(h, st, p).st, ps).frames
    ensures EmitAll(h, st, []).frames == []
  {
    hide Emit;
    assert ([p] + ps)[0] == p && ([p] + ps)[1..] == ps;
  }

  lemma Refers(st: EncState)
    requires StatOf(st, 2) == SpanInfo(3, true)
    ensures Emit(Mending, st, K).frames == [Frame(TEMPLATE_REF, RefPayload(2, ONE))]
  {
    ShortPieces();
    hide Mending, RefPayload, DefinePayload, RefPays, W.CommaSeg;
  }

  lemma MisreadEffects(table: Table)
    requires table == map[2 := Definition(2, AHEAD, [COMMA])]
    ensures EffectOf(table, DefineFrame(Definition(1, LongKey(), [COMMA]))) == Defines(WrongTable())
    ensures EffectOf(WrongTable(), Frame(TEMPLATE_REF, RefPayload(1, LANE))) == Feeds(WrongTable(), LongKey())
    ensures EffectOf(WrongTable(), Frame(TEMPLATE_REF, RefPayload(2, ONE))) == Feeds(WrongTable(), AHEAD_BYTES)
    ensures EffectOf(WrongTable(), RawFrame([LF])) == Feeds(WrongTable(), [LF])
  {
    DefinitionMisread();
    RefEffect(WrongTable(), 1, LANE);
    RefEffect(WrongTable(), 2, ONE);
    hide Filler, DefinePayload, RefPayload, ParseDefine;
  }

  // ---- the bytes ----

  // The same bytes, as the decoder gets them
  function Seen(): seq<Piece> {
    Front() + [Raw(LongKey()), Raw(AHEAD_BYTES), END]
  }

  lemma SeenBytes()
    ensures PiecesBytes(Seen()) == Truth(W.PlainMessage(W.GET, LongBody()))
    ensures PieceData(Seen()) == FrontData() + RestData()
    ensures Nonempty(Seen())
  {
    var m, five, hs := W.PlainMessage(W.GET, LongBody()), [F, F] + ([F] + [P(), P()]), Header();
    var last := [Raw(LongKey()), Raw(AHEAD_BYTES), END];
    HeaderPartition(m.hdr);
    LastBytes();
    LastData();
    SeenNonempty();
    hide HeaderPieces, Block, P, PieceBytes, PiecesBytes, LongKey, LinesOf, PieceData, WellShaped;
    PiecesBytesAppend(hs, five);
    PiecesBytesAppend(hs + five, last);
    PiecesBytesAppend(five, [P(), K]);
    PieceDataAppend(hs, five);
    PieceDataAppend(hs + five, last);
    var x, y, z := PiecesBytes(hs), PiecesBytes(five), PiecesBytes([P(), K]);
    Assoc(x, y, z + [LF]);
    Assoc(y, z, [LF]);
  }

  lemma LastBytes()
    ensures PiecesBytes([Raw(LongKey()), Raw(AHEAD_BYTES), END]) == PiecesBytes([P(), K]) + [LF]
  {
    var a, p := LongKey(), P();
    PieceIs(p);
    hide LongKey, P, W.CommaSeg;
    var r1, r2 := Raw(a), Raw(AHEAD_BYTES);
    assert [r1, r2, END][1..] == [r2, END] && [r2, END][1..] == [END] && [p, K][1..] == [K];
    OneBytes(END);
    OneBytes(K);
    assert PiecesBytes([r1, r2, END]) == a + (AHEAD_BYTES + [LF]);
    assert PiecesBytes([p, K]) == a + LANE + [COMMA] + (KEY + ONE + [COMMA]);
    assert a + LANE + [COMMA] + (KEY + ONE + [COMMA]) == a + AHEAD_BYTES;
    Assoc(a, AHEAD_BYTES, [LF]);
  }

  lemma LastData()
    ensures PieceData([Raw(LongKey()), Raw(AHEAD_BYTES), END]) == RestData()
  {
    hide LongKey;
    var r1, r2 := Raw(LongKey()), Raw(AHEAD_BYTES);
    DataCons(r1, [r2, END]);
    DataCons(r2, [END]);
    DataCons(END, []);
    assert [r1] + [r2, END] == [r1, r2, END] && [r2] + [END] == [r2, END];
  }

  lemma SeenNonempty()
    ensures Nonempty(Seen())
  {
    FiveNonempty();
    HeaderNonempty();
    LastNonempty();
    hide Header, P, Nonempty, LongKey;
    var five := [F, F] + ([F] + [P(), P()]);
    NonemptyAppend(Header(), five);
    NonemptyAppend(Header() + five, [Raw(LongKey()), Raw(AHEAD_BYTES), END]);
  }

  lemma FiveNonempty()
    ensures Nonempty([F, F] + ([F] + [P(), P()]))
  {
    ShortPieces();
    PieceIs(P());
    hide P, PieceBytes, W.CommaSeg, Gated, RefPays, LongKey;
    assert Nonempty([F, F]) && Nonempty([F]) && Nonempty([P(), P()]);
    NonemptyAppend([F], [P(), P()]);
    NonemptyAppend([F, F], [F] + [P(), P()]);
  }

  lemma NonemptyAppend(x: seq<Piece>, y: seq<Piece>)
    requires Nonempty(x) && Nonempty(y)
    ensures Nonempty(x + y)
  {}

  lemma LastNonempty()
    ensures Nonempty([Raw(LongKey()), Raw(AHEAD_BYTES), END])
  {
    LongKeyIs();
    hide LongKey;
  }

  lemma HeaderNonempty()
    ensures Nonempty(Header())
  {
    HeaderIs();
    ThreeNonempty(LengthPiece(|LongBody()|));
    hide Header, PieceBytes, LengthPiece, LongBody, DeliversAs, EmitAll, Gated;
  }

  lemma ThreeNonempty(p: Piece)
    requires p == LengthPiece(|LongBody()|)
    ensures Nonempty([Raw(W.GET + CRLF), p, Raw(CRLF)])
  {
    LengthShaped(p, |LongBody()|);
    RawIs(W.GET + CRLF);
    RawIs(CRLF);
    hide PieceBytes, LengthPiece, LongBody, AnyShape;
  }

  // ---- the whole run ----

  lemma RunIs()
    ensures RunPieces([W.PlainMessage(W.GET, LongBody())]) == Front() + Rest()
  {
    BodyIs();
    hide HeaderPieces, BodyPieces, Block, LongBody, P, LinesOf;
    OnePieces(W.PlainMessage(W.GET, LongBody()));
    var hs, five := Header(), [F, F] + ([F] + [P(), P()]);
    assert five + [P(), K] + [END] == five + Rest();
    Assoc(hs, five, Rest());
  }

  lemma NotFaithful()
    ensures !FaithfulRun(Mending, START, Front() + Rest())
  {
    var st := EmitAll(Mending, START, Front()).st;
    FrontRuns();
    Unfaithful(st, P());
    hide Front, P, EmitAll, DeliversAs, FrontData, Mending, Faithful;
    FaithfulRunAppend(Mending, START, Front(), Rest());
    assert Rest()[0] == P();
  }

  lemma Unfaithful(st: EncState, p: Piece)
    requires p == P() && StatOf(st, 1) == SpanInfo(2, false)
    ensures !Faithful(Mending, st, p)
  {
    PieceIs(p);
    LongKeyIs();
    hide P, LongKey, KeyShape, RefPays, W.CommaSeg, PieceBytes, Mending;
  }

  predicate Laned(p: Piece) {
    Gated(p) ==> p.constB == if IdOf(Mending, p) == 3 then CRLF else [COMMA]
  }

  lemma Apart()
    ensures Divergence.LanesApart(Mending, Front() + Rest())
  {
    HeaderLaned();
    BodyLaned();
    hide P, Header, Laned;
    LanedApart(Header(), [F, F] + ([F] + [P(), P()]), Rest());
  }

  lemma BodyLaned()
    ensures Laned(F) && Laned(K) && Laned(P()) && Laned(END)
  {
    PieceIs(P());
    ShortPieces();
    hide P, LongKey, RefPays, W.CommaSeg, PieceBytes, Mending;
  }

  lemma HeaderLaned()
    ensures forall p <- Header() :: Laned(p)
  {
    HeaderIs();
    hide EmitAll, DeliversAs, Header, LongBody, LengthPiece, Gated;
  }

  lemma LanedApart(x: seq<Piece>, y: seq<Piece>, z: seq<Piece>)
    requires (forall p <- x :: Laned(p)) && (forall p <- y :: Laned(p)) && forall p <- z :: Laned(p)
    ensures Divergence.LanesApart(Mending, x + y + z)
  {
    hide Mending;
    assert forall p <- x + y + z :: Laned(p);
    hide Gated;
  }

  /** The client's request arrives at the backend exactly, by a run that is not faithful. */
  lemma LongKeyRunIsExact()
    ensures var input := SentBytes(W.Plain(W.GET, LongBody()));
            var out := RunBytes(FRESH, Wire(Mending, input));
            && Accepted(input) == [W.PlainMessage(W.GET, LongBody())] && HonestInput(input)
            && out.ending == CleanEnd && out.st.asm == Idle(Truths(Accepted(input)))
            && !FaithfulRun(Mending, START, RunPieces(Accepted(input)))
            && Divergence.LanesApart(Mending, RunPieces(Accepted(input))) && !ShortKeys(input)
  {
    BodyIs();
    W.GetGood();
    hide LongBody, Front, Rest, Mending, FaithfulRun, Accepted, RunPieces, HonestInput, SentBytes, GoodFirst,
         DeclaredLength, Divergence.LanesApart, Truth, BodyPieces, ValidSent, ReadRequests, EmitAll, RunBytes;
    var input, m := SentBytes(W.Plain(W.GET, LongBody())), W.PlainMessage(W.GET, LongBody());
    W.PlainAccepted(W.GET, LongBody());
    W.NoneDeclared(LongBody());
    RunIs();
    NotFaithful();
    Apart();
    FramesRun();
    WholeRun(input);
    assert Truths([m]) == [Truth(m)] by {
      assert [m][1..] == [];
    }
    hide ShortKeys;
    if ShortKeys(input) {
      Divergence.ByteExactExactly(Mending, input);
    }
  }

  lemma SeenPushes()
    ensures PushAll(Idle([]), FrontData() + RestData()) == Ok(Idle([Truth(W.PlainMessage(W.GET, LongBody()))]))
  {
    BodyIs();
    W.GetGood();
    hide LongBody, Seen, FrontData, RestData, GoodFirst, DeclaredLength, Truth, Push, BodyPieces, PiecesBytes,
         PieceData, ContentLengthOf, Headed, Nonempty, W.PlainMessage, PostMessage;
    var m := W.PlainMessage(W.GET, LongBody());
    SeenBytes();
    MessageIs();
    CutPushes(m, Seen(), []);
    assert [] + [Truth(m)] == [Truth(m)];
  }

  lemma MessageIs()
    ensures var m := W.PlainMessage(W.GET, LongBody());
            Headed(m) && ContentLengthOf(m.hdr) == |m.body|
  {
    BodyIs();
    W.GetGood();
    hide LongBody, GoodFirst, DeclaredLength, ContentLengthOf, Headed, Block, BodyPieces;
    PostHeaded(W.GET, [], LongBody());
  }

  lemma FramesRun()
    ensures var e := EmitAll(Mending, START, Front());
            RunFrames(FRESH, e.frames + EmitAll(Mending, e.st, Rest()).frames)
            == Ok(DecState(WrongTable(), 0, Idle([Truth(W.PlainMessage(W.GET, LongBody()))])))
  {
    hide LongBody, Front, FrontData, Rest, RestData, Mending, EmitAll, DeliversAs, Truth, Push, WrongTable, StatOf,
         W.PlainMessage, Step;
    SeenPushes();
    FrontRuns();
    var e := EmitAll(Mending, START, Front());
    PushAllAppend(Idle([]), FrontData(), RestData());
    RunIsPushes(Mending, START, Front(), FrontData(), FRESH);
    var ds := DecState(e.st.table, 0, PushAll(Idle([]), FrontData()).value);
    RunFramesAppend(FRESH, e.frames, EmitAll(Mending, e.st, Rest()).frames);
    RestRuns(e.st, ds);
  }

  /** From the frames of the two parts to the bytes on the wire. */
  lemma WholeRun(input: bytes)
    requires RunPieces(Accepted(input)) == Front() + Rest()
    ensures var fs := EmitAll(Mending, START, Front()).frames;
            var r := RunFrames(FRESH, fs + EmitAll(Mending, EmitAll(Mending, START, Front()).st, Rest()).frames);
            r.Ok? ==> RunBytes(FRESH, Wire(Mending, input)) == Outcome(r.value, CleanEnd)
  {
    EncoderNeverFails(Mending, input);
    hide Accepted, RunPieces, EmitAll, Step, Front, Rest, Mending;
    EmitAllAppend(Mending, START, Front(), Rest());
    var fs := RunEmission(Mending, START, Accepted(input)).frames;
    FramesRoundTrip(fs);
    RunBytesIsRunFrames(FRESH, WireOf(fs));
  }
}
