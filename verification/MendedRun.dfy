/** Two requests whose pieces go out under wrong ids and whose wrong bytes cancel: a header
    template answers for a body key and runs ahead by the rest of the line, and the next header
    falls behind by as much. The backend gets exactly the truth, with nothing pending, although
    the run is not faithful: the equivalence of byte-exactness and faithfulness does need header
    and body templates to keep their ids apart. */
module MendedRun {
  import opened Bytes
  import opened Numbers
  import opened Protocol
  import opened Splitter
  import opened DecoderSpec
  import opened EncoderSpec
  import opened Framing
  import opened Agreement
  import opened HttpRequest
  import opened Normalizer
  import opened Sessions
  import opened ByteExact
  import opened Requests
  import Divergence
  import WireCost
  import WrongRuns
  import Limits

  // "kkkk=v a b: " and "kkkk="
  const AHEAD: bytes := [107, 107, 107, 107, 61, 118, 32, 97, 32, 98, 58, 32]
  const SHORT_KEY: bytes := [107, 107, 107, 107, 61]
  // "a b: " and "q="
  const LINE_NAME: bytes := [97, 32, 98, 58, 32]
  const QUICK: bytes := [113, 61]
  // "nn: " and "q=v,nn: "
  const NAME: bytes := [110, 110, 58, 32]
  const LONG_NAME: bytes := [113, 61, 118, 44, 110, 110, 58, 32]
  const V: bytes := [118]
  const X: bytes := [120]

  /** The ids: each pair above shares one, and nothing else does. */
  function Mending(a: bytes, b: bytes): u16 {
    if a == AHEAD || a == SHORT_KEY then 1
    else if a == LINE_NAME || a == QUICK then 2
    else if a == NAME || a == LONG_NAME then 3
    else 4
  }

  const N: Piece := Seg(AHEAD, X, CRLF)
  const T: Piece := Seg(NAME, X, CRLF)
  const Q: Piece := Seg(QUICK, V, [COMMA])
  const U: Piece := Seg(SHORT_KEY, V, [SPACE])
  const Y: Piece := Seg(LINE_NAME, V, CRLF)
  const Z: Piece := Seg(LONG_NAME, X, CRLF)
  const END: Piece := Raw([LF])

  const FIELD_PIECES: seq<Piece> := [N, N, N, T, T, T]

  // "a b: v", a header line, a request line, and what the first request ends with
  const LINE: bytes := LINE_NAME + V

  const FIELDS: seq<bytes> := [AHEAD + X, AHEAD + X, AHEAD + X, NAME + X, NAME + X, NAME + X]

  // "q=v,q=v,q=v," LF, then "kkkk=v a b: v" CRLF
  function Body1(): bytes {
    PiecesBytes([Q, Q, Q]) + [LF] + (PieceBytes(U) + (LINE + CRLF))
  }

  function First(): Sent {
    Post(WrongRuns.GET, FIELDS, Body1())
  }

  function Second(): Sent {
    Post(LINE, [LONG_NAME + X], [])
  }

  function Message1(): Message {
    PostMessage(WrongRuns.GET, FIELDS, Body1())
  }

  function Message2(): Message {
    PostMessage(LINE, [LONG_NAME + X], [])
  }

  // ---- the requests are good, and how they are cut ----

  lemma Names()
    ensures NameShape(AHEAD) && NameShape(LINE_NAME) && NameShape(NAME) && NameShape(LONG_NAME)
  {
    assert AHEAD[10..] == COLON_SPACE && LINE_NAME[3..] == COLON_SPACE;
    assert NAME[2..] == COLON_SPACE && LONG_NAME[6..] == COLON_SPACE;
    NoColonBefore(AHEAD, 10);
    NoColonBefore(LINE_NAME, 3);
    NoColonBefore(NAME, 2);
    NoColonBefore(LONG_NAME, 6);
  }

  lemma NotFraming(f: bytes)
    requires f != [] && f[0] != 116 && f[0] != 84 && f[0] != 99 && f[0] != 67
    ensures !IsFraming(f) && DeclaredLength(f) == None
  {
    assert ToLower(f)[0] == LowerByte(f[0]);
  }

  lemma GoodLines()
    ensures GoodFields(FIELDS) && GoodFields([LONG_NAME + X])
    ensures GoodFirst(WrongRuns.GET) && DeclaredLength(WrongRuns.GET) == None
    ensures GoodFirst(LINE) && DeclaredLength(LINE) == None
  {
    WrongRuns.GetGood();
    LineGood();
    GoodOnes();
    hide GoodField, RequestLineParts, DeclaredLength;
    assert forall f <- FIELDS :: f == AHEAD + X || f == NAME + X;
    assert forall f <- [LONG_NAME + X] :: f == LONG_NAME + X;
  }

  lemma GoodOnes()
    ensures GoodField(AHEAD + X) && GoodField(NAME + X) && GoodField(LONG_NAME + X)
  {
    GoodOne(AHEAD);
    GoodOne(NAME);
    GoodOne(LONG_NAME);
    hide GoodField;
  }

  lemma LineGood()
    ensures GoodFirst(LINE) && DeclaredLength(LINE) == None
  {
    LineParts();
    NotFraming(LINE);
    hide RequestLineParts, DeclaredLength;
  }

  lemma GoodOne(name: bytes)
    requires name != [] && |name| < 100 && name[0] != 116 && name[0] != 84 && name[0] != 99 && name[0] != 67
    requires LF !in name && !IsSpace(name[0])
    ensures GoodField(name + X)
  {
    NotFraming(name + X);
  }

  lemma LineParts()
    ensures |RequestLineParts(LINE)| == 3 && LF !in LINE
  {
    hide Index, TrimSpace;
    assert LINE == [97, 32, 98, 58, 32, 118];
    Limits.TrimLineEnd(LINE);
    Limits.SpaceAt(LINE, 1);
    Limits.SpaceAt(LINE[2..], 2);
    Limits.SpaceAt(LINE[5..], -1);
    assert LINE[2..][3..] == LINE[5..];
    assert |Split(LINE[5..], [SPACE])| == 1;
    assert |Split(LINE[2..], [SPACE])| == 2;
  }

  lemma Segs()
    ensures BodyShape(Q) && BodyShape(U) && WrongRuns.CommaSeg(Q)
    ensures (forall b <- Q.lane :: !IsDelim(b)) && forall b <- U.lane :: !IsDelim(b)
  {
    assert QUICK[..1] == [113] && SHORT_KEY[..4] == [107, 107, 107, 107];
  }

  /** The body of the first request: three quick segments, a bare line end, a segment whose
      delimiter is a space, and the rest of the line raw. */
  lemma Body1Pieces()
    ensures BodyPieces(Body1()) == [Q, Q, Q] + [END] + [U, Raw(LINE + CRLF)]
    ensures |Body1()| <= 100
  {
    Segs();
    hide WrongRuns.CommaSeg, BodyShape;
    WrongRuns.CommaFirst([Q, Q, Q], PieceBytes(U) + (LINE + CRLF));
    LastLine();
    BodyLength();
  }

  lemma BodyLength()
    ensures |Body1()| <= 100
  {
    assert [Q, Q, Q][1..] == [Q, Q] && [Q, Q][1..] == [Q] && [Q][1..] == [];
    assert |PieceBytes(Q)| == 4 && |PieceBytes(U)| == 7;
    assert |PiecesBytes([Q])| == 4 && |PiecesBytes([Q, Q])| == 8;
  }

  lemma LastLine()
    ensures BodyPieces(PieceBytes(U) + (LINE + CRLF)) == [U, Raw(LINE + CRLF)]
  {
    LastSegments();
    hide IndexByte, SegmentEnd, Segment, BodyShape, LinePieces;
    var line := PieceBytes(U) + (LINE + CRLF);
    assert line[13] == CR && line[14] == LF && |line| == 15 && LF !in line[..14];
    IndexByteIs(line, LF, 14);
    assert line[..15] == line && line[15..] == [] && BodyPieces([]) == [];
    assert [U, Raw(LINE + CRLF)] + [] == [U, Raw(LINE + CRLF)];
  }

  lemma LastSegments()
    ensures LinePieces(PieceBytes(U) + (LINE + CRLF)) == [U, Raw(LINE + CRLF)]
  {
    Segs();
    hide IndexByte, SegmentEnd, Segment, BodyShape;
    var rest := LINE + CRLF;
    var line := PieceBytes(U) + rest;
    assert PieceBytes(U) == [107, 107, 107, 107, 61, 118, 32] && rest == [97, 32, 98, 58, 32, 118, 13, 10];
    WrongRuns.SegmentHere(U, rest);
    KeyValueStep(line);
    assert line[SegmentEnd(line) + 1..] == rest;
    assert AfterSegment(line) == [Raw(rest)];
    assert KeyValuePieces(line) == [U] + [Raw(rest)];
    assert LinePieces(line) == KeyValuePieces(line);
  }

  // "GET / HTTP/1.1" has no colon: its line goes out raw.
  lemma GetPiece()
    ensures HeaderLinePiece(WrongRuns.GET + CRLF) == Raw(WrongRuns.GET + CRLF)
  {
    NoColonBefore(WrongRuns.GET + CRLF, |WrongRuns.GET + CRLF|);
    hide Index;
    var i := Index(WrongRuns.GET + CRLF, COLON_SPACE);
    assert i < 0;
  }

  lemma Header1Pieces()
    ensures HeaderPieces(Message1().hdr) ==
            [Raw(WrongRuns.GET + CRLF)] + FIELD_PIECES + [LengthPiece(|Body1()|), Raw(CRLF)]
  {
    GoodLines();
    GetPiece();
    Names();
    hide NameShape, GoodFirst, GoodFields, HeaderLinePiece, HeaderPieces, Block, Body1, LengthLine, DeclaredLength;
    PostPieces(WrongRuns.GET, FIELDS, |Body1()|);
    SegLine(AHEAD, X);
    SegLine(NAME, X);
    var a, b := AHEAD + X, NAME + X;
    assert [a, a, a, b, b, b][1..] == [a, a, b, b, b] && [a, a, b, b, b][1..] == [a, b, b, b];
    assert [a, b, b, b][1..] == [b, b, b] && [b, b, b][1..] == [b, b] && [b, b][1..] == [b] && [b][1..] == [];
    assert FieldPieces([b]) == [T];
    assert FieldPieces([b, b]) == [T, T] && FieldPieces([b, b, b]) == [T, T, T];
    assert FieldPieces([a, b, b, b]) == [N, T, T, T] && FieldPieces([a, a, b, b, b]) == [N, N, T, T, T];
  }

  lemma Header2Pieces()
    ensures HeaderPieces(Message2().hdr) == [Y] + [Z] + [LengthPiece(0), Raw(CRLF)]
  {
    GoodLines();
    Names();
    hide NameShape, GoodFirst, GoodFields, HeaderLinePiece, HeaderPieces, Block, LengthLine, DeclaredLength;
    var a := LONG_NAME + X;
    PostPieces(LINE, [a], 0);
    SegLine(LINE_NAME, V);
    SegLine(LONG_NAME, X);
    assert [a][1..] == [] && FieldPieces([a]) == [Z] + FieldPieces([]);
  }

  // ---- the front of the run, where every template is its id's first ----

  function Front(): seq<Piece> {
    [Raw(WrongRuns.GET + CRLF)] + FIELD_PIECES + [LengthPiece(|Body1()|), Raw(CRLF)] + [Q, Q, Q] + [END]
  }

  predicate Frontal(p: Piece) {
    p.Raw? || p == N || p == T || p == Q || (p.constA == LENGTH_PREFIX && p.constB == CRLF)
  }

  lemma FrontMembers()
    ensures forall p <- Front() :: (p.Raw? && p.data != []) || p in {N, T, Q, LengthPiece(|Body1()|)}
  {
    hide LengthPiece, Body1;
    assert CRLF != [] && WrongRuns.GET + CRLF != [];
  }

  lemma FrontPieces()
    ensures forall p <- Front() :: Frontal(p)
  {
    LengthIs(|Body1()|);
    FrontMembers();
    hide LengthPiece, Body1, Front;
  }

  lemma FrontApart()
    ensures InjectiveOn(Mending, Front()) && forall p <- Front() :: ShortConsts(p)
  {
    FrontPieces();
    hide Front;
    assert LENGTH_PREFIX[0] == 67;
    assert LENGTH_PREFIX != AHEAD && LENGTH_PREFIX != NAME && LENGTH_PREFIX != QUICK && LENGTH_PREFIX != LINE_NAME
           && LENGTH_PREFIX != SHORT_KEY && LENGTH_PREFIX != LONG_NAME by {
      assert AHEAD[0] == 107 && NAME[0] == 110 && QUICK[0] == 113;
      assert LINE_NAME[0] == 97 && SHORT_KEY[0] == 107 && LONG_NAME[0] == 113;
    }
    Ids();
  }

  lemma Ids()
    ensures IdOf(Mending, N) == 1 && IdOf(Mending, T) == 3 && IdOf(Mending, Q) == 2
    ensures IdOf(Mending, U) == 1 && IdOf(Mending, Y) == 2 && IdOf(Mending, Z) == 3
    ensures Mending(LENGTH_PREFIX, CRLF) == 4
  {
    assert LINE_NAME[0] == 97 && QUICK[0] == 113 && AHEAD[0] == 107 && SHORT_KEY[0] == 107;
    assert NAME[0] == 110 && LONG_NAME[0] == 113 && |LONG_NAME| == 8 && |QUICK| == 2 && LENGTH_PREFIX[0] == 67;
  }

  lemma FrontFaithful()
    ensures FaithfulRun(Mending, START, Front()) && DeliversAll(Mending, START, Front())
  {
    hide Front, FaithfulRun, DeliversAs, AnyShape, InjectiveOn, ShortConsts, Mending, EncInv;
    FrontApart();
    InjectiveRunFaithful(Mending, Front());
    FrontShaped();
    StartOfAll();
    RunSurvives(Mending, START, Front());
  }

  lemma FrontShaped()
    ensures forall p <- Front() :: AnyShape(p) && PieceBytes(p) != []
  {
    Names();
    Segs();
    LengthShaped(LengthPiece(|Body1()|), |Body1()|);
    FrontMembers();
    hide LengthPiece, Body1, NameShape, KeyShape, WrongRuns.CommaSeg, IsDelim, Front;
  }

  // ---- what the ids hold after it ----

  /** The id is defined, three times hit, and holds this template. */
  predicate Holds(st: EncState, id: u16, a: bytes, b: bytes) {
    StatOf(st, id) == SpanInfo(3, true) && id in st.table && st.table[id] == Definition(id, a, b)
  }

  lemma {:induction false} HitsAppend(h: IdFn, x: seq<Piece>, y: seq<Piece>, id: u16)
    ensures Hits(h, x + y, id) == Hits(h, x, id) + Hits(h, y, id)
    decreases |y|
  {
    hide Gated;
    if y == [] {
      assert x + y == x;
    } else {
      var init, p := y[..|y| - 1], y[|y| - 1];
      assert (x + y)[..|x + y| - 1] == x + init && (x + y)[|x + y| - 1] == p;
      HitsAppend(h, x, init, id);
    }
  }

  lemma ThreeHits(h: IdFn, p: Piece, id: u16)
    requires Gated(p)
    ensures Hits(h, [p, p, p], id) == if IdOf(h, p) == id then 3 else 0
  {
    assert [p, p, p][..2] == [p, p] && [p, p][..1] == [p] && [p][..0] == [];
    assert Hits(h, [], id) == 0;
    assert Hits(h, [p], id) == Hits(h, [], id) + if IdOf(h, p) == id then 1 else 0;
    assert Hits(h, [p, p], id) == Hits(h, [p], id) + if IdOf(h, p) == id then 1 else 0;
  }

  lemma RawHits(h: IdFn, raw: bytes, id: u16)
    ensures Hits(h, [Raw(raw)], id) == 0
  {
    assert [Raw(raw)][..0] == [];
  }

  lemma LengthHits(n: nat, id: u16)
    requires n < 100
    ensures Hits(Mending, [LengthPiece(n), Raw(CRLF)], id) == if id == 4 then 1 else 0
  {
    LengthIs(n);
    Ids();
    var p, q := LengthPiece(n), Raw(CRLF);
    ItoaShort(n, 2);
    assert Gated(p);
    assert [p, q][..1] == [p] && [p][..0] == [];
    assert Hits(Mending, [], id) == 0;
    assert Hits(Mending, [p], id) == Hits(Mending, [], id) + if IdOf(Mending, p) == id then 1 else 0;
  }

  lemma FrontHits(id: u16)
    ensures Hits(Mending, Front(), id) == if id in {1, 2, 3} then 3 else if id == 4 then 1 else 0
  {
    BodyLength();
    BodyShorter();
    Ids();
    ThreeHits(Mending, N, id);
    ThreeHits(Mending, T, id);
    ThreeHits(Mending, Q, id);
    RawHits(Mending, WrongRuns.GET + CRLF, id);
    RawHits(Mending, [LF], id);
    LengthHits(|Body1()|, id);
    hide Hits, Gated, LengthPiece, Body1;
    var a, e := [Raw(WrongRuns.GET + CRLF)], [LengthPiece(|Body1()|), Raw(CRLF)];
    assert [N, N, N] + [T, T, T] == FIELD_PIECES;
    HitsAppend(Mending, [N, N, N], [T, T, T], id);
    HitsAppend(Mending, a, FIELD_PIECES, id);
    HitsAppend(Mending, a + FIELD_PIECES, e, id);
    HitsAppend(Mending, a + FIELD_PIECES + e, [Q, Q, Q], id);
    HitsAppend(Mending, a + FIELD_PIECES + e + [Q, Q, Q], [END], id);
  }

  lemma BodyShorter()
    ensures |Body1()| == 28
  {
    assert [Q, Q, Q][1..] == [Q, Q] && [Q, Q][1..] == [Q] && [Q][1..] == [];
    assert |PieceBytes(Q)| == 4 && |PieceBytes(U)| == 7;
    assert |PiecesBytes([Q])| == 4 && |PiecesBytes([Q, Q])| == 8;
  }

  lemma AfterFront()
    ensures var st := EmitAll(Mending, START, Front()).st;
            && EncInv(Mending, st)
            && Holds(st, 1, AHEAD, CRLF) && Holds(st, 2, QUICK, [COMMA]) && Holds(st, 3, NAME, CRLF)
            && StatOf(st, 4) == SpanInfo(1, false)
  {
    hide Front, EmitAll, EncInv, Mending, StatOf, FromPieces;
    var st := EmitAll(Mending, START, Front()).st;
    StartOfAll();
    EmitAllKeepsInv(Mending, START, Front());
    WireCost.TableFromPieces(Mending, START, Front(), Front());
    Counted(1);
    Counted(2);
    Counted(3);
    Counted(4);
    Held(st, 1);
    Held(st, 2);
    Held(st, 3);
  }

  lemma StartOfAll()
    ensures EncInv(Mending, START) && FromPieces(Mending, START.table, Front())
  {
    hide Front;
  }

  /** The counter of each id, and that three hits have defined it. */
  lemma Counted(id: u16)
    requires id in {1, 2, 3, 4}
    ensures var st := EmitAll(Mending, START, Front()).st;
            && StatOf(st, id) == (if id == 4 then SpanInfo(1, false) else SpanInfo(3, true))
            && (EncInv(Mending, st) && id != 4 ==> id in st.table)
  {
    hide Front, EmitAll, Hits, Reflects;
    var st := EmitAll(Mending, START, Front()).st;
    EmitAllReflects(Mending, Front());
    ReflectsHere(Mending, st, Front(), id);
    FrontFit();
    FrontHits(id);
    hide AllDefineFit;
    if id != 4 && EncInv(Mending, st) {
      DefinedInTable(st, id);
    }
  }

  lemma DefinedInTable(st: EncState, id: u16)
    requires EncInv(Mending, st) && StatOf(st, id).defined
    ensures id in st.table
  {}

  lemma FrontFit()
    ensures AllDefineFit(Front())
  {
    FrontPieces();
    hide Front;
    assert |LENGTH_PREFIX| == 16;
  }

  /** A defined id holds the front's one template of that id. */
  lemma Held(st: EncState, id: u16)
    requires EncInv(Mending, st) && FromPieces(Mending, st.table, Front()) && id in {1, 2, 3} && id in st.table
    ensures id == 1 ==> st.table[id] == Definition(1, AHEAD, CRLF)
    ensures id == 2 ==> st.table[id] == Definition(2, QUICK, [COMMA])
    ensures id == 3 ==> st.table[id] == Definition(3, NAME, CRLF)
  {
    FrontPieces();
    Ids();
    var q :| q in Front() && Source(Mending, st.table[id], q);
    hide Front, Mending;
    assert Frontal(q);
    assert st.table[id].id == id;
  }

  // ---- the rest of the run, where wrong bytes cancel ----

  /** A reference under an id that holds some template delivers that template's bytes. */
  lemma RefersTo(st: EncState, p: Piece, a: bytes, b: bytes)
    requires p.Seg? && Gated(p) && RefPays(p) && |p.lane| < TWO16 && Holds(st, IdOf(Mending, p), a, b)
    ensures var e := Emit(Mending, st, p);
            && Delivers(st.table, e.frames, e.st.table, a + p.lane + b) && e.st.table == st.table
            && forall id: u16 :: id != IdOf(Mending, p) ==> StatOf(e.st, id) == StatOf(st, id)
  {
    hide Mending, RefPayload, DefinePayload, EffectOf;
    RefEffect(st.table, IdOf(Mending, p), p.lane);
    var e := Emit(Mending, st, p);
    assert e.frames == [Frame(TEMPLATE_REF, RefPayload(IdOf(Mending, p), p.lane))];
    forall id: u16 | id != IdOf(Mending, p)
      ensures StatOf(e.st, id) == StatOf(st, id)
    {
      EmitStat(Mending, st, p, id);
    }
  }

  lemma StillHolds(st: EncState, after: EncState, id: u16, a: bytes, b: bytes)
    requires Holds(st, id, a, b) && after.table == st.table && StatOf(after, id) == StatOf(st, id)
    ensures Holds(after, id, a, b)
  {}

  /** The second length line comes second under its id and goes out raw. */
  lemma LengthRaw(st: EncState, n: nat)
    requires StatOf(st, 4) == SpanInfo(1, false)
    ensures var p := LengthPiece(n);
            var e := Emit(Mending, st, p);
            Delivers(st.table, e.frames, e.st.table, PieceBytes(p))
  {
    LengthIs(n);
    Ids();
    hide Mending, LengthPiece, RefPayload, DefinePayload;
  }

  function Rest(): seq<Piece> {
    [U] + ([Raw(LINE + CRLF)] + ([Y] + ([Z] + ([LengthPiece(0)] + ([Raw(CRLF)] + [])))))
  }

  // The line the first request ends with, whole
  const WHOLE: bytes := AHEAD + V + CRLF

  function RestData(): seq<bytes> {
    [WHOLE] + ([LINE + CRLF] + ([QUICK + V + [COMMA]]
    + ([NAME + X + CRLF] + ([PieceBytes(LengthPiece(0))] + ([CRLF] + [])))))
  }

  lemma RestDelivers(st: EncState)
    requires Holds(st, 1, AHEAD, CRLF) && Holds(st, 2, QUICK, [COMMA]) && Holds(st, 3, NAME, CRLF)
    requires StatOf(st, 4) == SpanInfo(1, false)
    ensures DeliversAs(Mending, st, Rest(), RestData())
  {
    Ids();
    Pays();
    hide Mending, Holds, StatOf, Emit, Delivers, DeliversAs, LengthPiece, PieceBytes, Gated, RefPays;
    var line := LINE + CRLF;
    var s1 := Emit(Mending, st, U).st;
    RefersTo(st, U, AHEAD, CRLF);
    StillHolds(st, s1, 2, QUICK, [COMMA]);
    StillHolds(st, s1, 3, NAME, CRLF);
    var s2 := Emit(Mending, s1, Raw(line)).st;
    RawDelivers(Mending, s1, line);
    var s3 := Emit(Mending, s2, Y).st;
    RefersTo(s2, Y, QUICK, [COMMA]);
    StillHolds(s2, s3, 3, NAME, CRLF);
    var s4 := Emit(Mending, s3, Z).st;
    RefersTo(s3, Z, NAME, CRLF);
    var s5 := Emit(Mending, s4, LengthPiece(0)).st;
    LengthRaw(s4, 0);
    RawDelivers(Mending, s5, CRLF);
    DeliversNone(Mending, Emit(Mending, s5, Raw(CRLF)).st);
    DeliversCons(Mending, s5, Raw(CRLF), CRLF, [], []);
    var d5, p5 := [CRLF] + [], [Raw(CRLF)] + [];
    DeliversCons(Mending, s4, LengthPiece(0), PieceBytes(LengthPiece(0)), p5, d5);
    var d4, p4 := [PieceBytes(LengthPiece(0))] + d5, [LengthPiece(0)] + p5;
    DeliversCons(Mending, s3, Z, NAME + X + CRLF, p4, d4);
    var d3, p3 := [NAME + X + CRLF] + d4, [Z] + p4;
    DeliversCons(Mending, s2, Y, QUICK + V + [COMMA], p3, d3);
    var d2, p2 := [QUICK + V + [COMMA]] + d3, [Y] + p3;
    DeliversCons(Mending, s1, Raw(line), line, p2, d2);
    DeliversCons(Mending, st, U, WHOLE, [Raw(line)] + p2, [line] + d2);
  }

  lemma Pays()
    ensures Gated(U) && RefPays(U) && Gated(Y) && RefPays(Y) && Gated(Z) && RefPays(Z)
  {
    assert |PieceBytes(U)| == 7 && |PieceBytes(Y)| == 8 && |PieceBytes(Z)| == 11;
  }

  // ---- the two messages, as the decoder sees them ----

  /** What the decoder is fed up to the end of the first request. */
  function Seen1(): seq<Piece> {
    Front() + [Raw(WHOLE)]
  }

  function Seen2(): seq<Piece> {
    [Raw(LINE + CRLF), Q, T, LengthPiece(0), Raw(CRLF)]
  }

  lemma DataSplit()
    ensures PieceData(Front()) + RestData() == PieceData(Seen1()) + PieceData(Seen2())
  {
    hide Front, LengthPiece, PieceData, PieceBytes;
    var l, line := LengthPiece(0), LINE + CRLF;
    PieceDataAppend(Front(), [Raw(WHOLE)]);
    DataCons(Raw(WHOLE), []);
    RawIs(WHOLE);
    RawIs(CRLF);
    PlainBytes(line);
    FiveData(Raw(line), Q, T, l, Raw(CRLF));
    Assoc(PieceData(Front()), [WHOLE], PieceData(Seen2()));
  }

  lemma FiveData(a: Piece, b: Piece, c: Piece, d: Piece, e: Piece)
    ensures PieceData([a, b, c, d, e]) ==
            [PieceBytes(a)] + ([PieceBytes(b)] + ([PieceBytes(c)] + ([PieceBytes(d)] + ([PieceBytes(e)] + []))))
  {
    hide PieceBytes, PieceData;
    DataCons(a, [b, c, d, e]);
    DataCons(b, [c, d, e]);
    DataCons(c, [d, e]);
    DataCons(d, [e]);
    DataCons(e, []);
    assert [a] + [b, c, d, e] == [a, b, c, d, e] && [b] + [c, d, e] == [b, c, d, e];
    assert [c] + [d, e] == [c, d, e] && [d] + [e] == [d, e];
  }

  lemma PlainBytes(line: bytes)
    ensures PieceBytes(T) == NAME + X + CRLF && PieceBytes(Q) == QUICK + V + [COMMA] && PieceBytes(Raw(line)) == line
  {}

  /** Through the wrong template the last line comes whole, in one piece. */
  lemma WholeLine()
    ensures WHOLE == PieceBytes(U) + (LINE + CRLF)
  {}

  lemma Seen1Bytes()
    ensures PiecesBytes(Seen1()) == Truth(Message1()) && Nonempty(Seen1())
  {
    HeaderPartition(Message1().hdr);
    WholeLine();
    hide HeaderPieces, LengthPiece, PieceBytes, WellShaped, Block, AnyShape;
    var hs, q, e := HeaderPieces(Message1().hdr), [Q, Q, Q], [END];
    Seen1Is();
    PiecesBytesAppend(hs, q + (e + [Raw(WHOLE)]));
    PiecesBytesAppend(q, e + [Raw(WHOLE)]);
    PiecesBytesAppend(e, [Raw(WHOLE)]);
    OneBytes(END);
    OneBytes(Raw(WHOLE));
    RawIs([LF]);
    RawIs(WHOLE);
    Assoc(PiecesBytes(q), [LF], WHOLE);
    Seen1Nonempty();
  }

  lemma Seen1Is()
    ensures Seen1() == HeaderPieces(Message1().hdr) + ([Q, Q, Q] + ([END] + [Raw(WHOLE)]))
  {
    Header1Pieces();
    hide HeaderPieces, LengthPiece, Message1;
    var hs, q, e := HeaderPieces(Message1().hdr), [Q, Q, Q], [END];
    assert Front() == hs + q + e;
    assert hs + q + e + [Raw(WHOLE)] == hs + (q + (e + [Raw(WHOLE)]));
  }

  lemma Seen1Nonempty()
    ensures Nonempty(Seen1())
  {
    FrontShaped();
    hide Front, PieceBytes, AnyShape;
    RawIs(WHOLE);
    forall p | p in Seen1()
      ensures PieceBytes(p) != []
    {
      assert p in Front() || p == Raw(WHOLE);
    }
  }

  lemma Seen2Bytes()
    ensures PiecesBytes(Seen2()) == Truth(Message2()) && Nonempty(Seen2())
  {
    hide HeaderPieces, LengthPiece, PieceBytes, PiecesBytes, WellShaped, Message2, Seen2;
    var l, line := LengthPiece(0), Raw(LINE + CRLF);
    Header2Pieces();
    HeaderPartition(Message2().hdr);
    Aligned();
    assert [Y] + [Z] + [l, Raw(CRLF)] == [Y, Z] + [l, Raw(CRLF)];
    assert Seen2() == [line, Q, T] + [l, Raw(CRLF)] by {
      Seen2Is();
    }
    PiecesBytesAppend([Y, Z], [l, Raw(CRLF)]);
    PiecesBytesAppend([line, Q, T], [l, Raw(CRLF)]);
    Truth2();
    Seen2Nonempty();
  }

  lemma Seen2Is()
    ensures Seen2() == [Raw(LINE + CRLF), Q, T] + [LengthPiece(0), Raw(CRLF)]
  {
    hide LengthPiece;
  }

  lemma Truth2()
    ensures Truth(Message2()) == Message2().hdr
  {
    hide Block;
    assert Message2().hdr + [] == Message2().hdr;
  }

  lemma Seen2Nonempty()
    ensures Nonempty(Seen2())
  {
    LengthShaped(LengthPiece(0), 0);
    Aligned();
    RawIs(CRLF);
    RawIs(LINE + CRLF);
    hide LengthPiece, PieceBytes, AnyShape;
  }

  /** The two wrong pieces together are the two lines they stand for. */
  lemma Aligned()
    ensures PiecesBytes([Raw(LINE + CRLF), Q, T]) == PiecesBytes([Y, Z])
    ensures PieceBytes(Q) != [] && PieceBytes(T) != []
  {
    var line := Raw(LINE + CRLF);
    assert [line, Q, T][1..] == [Q, T] && [Q, T][1..] == [T] && [Y, Z][1..] == [Z];
    OneBytes(T);
    OneBytes(Z);
    assert QUICK + V + [COMMA] + (NAME + X + CRLF) == LONG_NAME + X + CRLF;
  }

  lemma MendedPushes()
    ensures PushAll(Idle([]), PieceData(Front()) + RestData()) == Ok(Idle([Truth(Message1()), Truth(Message2())]))
  {
    hide Front, Seen1, Seen2, RestData, Message1, Message2, Push, Truth, PieceData;
    DataSplit();
    Pushes1();
    Pushes2();
    PushAllAppend(Idle([]), PieceData(Seen1()), PieceData(Seen2()));
    assert [Truth(Message1())] + [Truth(Message2())] == [Truth(Message1()), Truth(Message2())];
  }

  lemma Pushes1()
    ensures PushAll(Idle([]), PieceData(Seen1())) == Ok(Idle([Truth(Message1())]))
  {
    hide Seen1, Message1, Message2, Push, Truth, PieceData, PiecesBytes, Nonempty, Headed, Body1;
    MessagesHeaded();
    Seen1Bytes();
    CutPushes(Message1(), Seen1(), []);
    assert [] + [Truth(Message1())] == [Truth(Message1())];
  }

  lemma Pushes2()
    ensures PushAll(Idle([Truth(Message1())]), PieceData(Seen2()))
            == Ok(Idle([Truth(Message1())] + [Truth(Message2())]))
  {
    hide Seen2, Message1, Message2, Push, Truth, PieceData, PiecesBytes, Nonempty, Headed, Body1;
    MessagesHeaded();
    Seen2Bytes();
    CutPushes(Message2(), Seen2(), [Truth(Message1())]);
  }

  lemma MessagesHeaded()
    ensures Headed(Message1()) && ContentLengthOf(Message1().hdr) == |Body1()|
    ensures Headed(Message2()) && ContentLengthOf(Message2().hdr) == 0
    ensures Message1().body == Body1() && Message2().body == []
  {
    GoodLines();
    BodyLength();
    hide GoodFirst, GoodFields, DeclaredLength, Index, ContentLengthOf, Block, Body1;
    PostHeaded(WrongRuns.GET, FIELDS, Body1());
    PostHeaded(LINE, [LONG_NAME + X], []);
  }

  // ---- the whole run ----

  lemma MendedPieces()
    ensures RunPieces([Message1(), Message2()]) == Front() + Rest()
  {
    Header1Pieces();
    Header2Pieces();
    Body1Pieces();
    hide HeaderPieces, BodyPieces, LengthPiece, Body1, Block;
    TwoPieces(Message1(), Message2());
    EmptyPieces();
    assert MessagePieces(Message2()) == HeaderPieces(Message2().hdr) + BodyPieces([]);
    var l1, l2, line := LengthPiece(|Body1()|), LengthPiece(0), Raw(LINE + CRLF);
    var hs := [Raw(WrongRuns.GET + CRLF)] + FIELD_PIECES + [l1, Raw(CRLF)];
    assert Front() == hs + [Q, Q, Q] + [END];
    assert Rest() == [U, line] + ([Y] + [Z] + [l2, Raw(CRLF)]);
    assert MessagePieces(Message1()) == hs + ([Q, Q, Q] + [END] + [U, line]);
  }

  lemma EmptyPieces()
    ensures BodyPieces([]) == []
  {}

  /** The first piece of the rest is unfaithful: its id holds a header template. */
  lemma NotFaithful()
    ensures !FaithfulRun(Mending, START, Front() + Rest())
    ensures !Divergence.LanesApart(Mending, Front() + Rest())
  {
    AfterFront();
    Ids();
    Pays();
    var st := EmitAll(Mending, START, Front()).st;
    assert U in Rest() && N in Front();
    assert Gated(N);
    hide Front, EmitAll, Mending, RefPays;
    FaithfulRunAppend(Mending, START, Front(), Rest());
    assert Rest()[0] == U;
    assert !Faithful(Mending, st, U) by {
      Unfaithful(st);
    }
    assert N in Front() + Rest() && U in Front() + Rest();
  }

  lemma Unfaithful(st: EncState)
    requires Holds(st, 1, AHEAD, CRLF)
    ensures !Faithful(Mending, st, U)
  {
    Ids();
    Pays();
    hide Mending, RefPays;
    assert |AHEAD| == 12 && |SHORT_KEY| == 5;
  }

  /** The client's two requests arrive at the backend exactly, each once and whole and with
      nothing pending, by a run that is not faithful. */
  lemma MendedRunIsExact()
    ensures var input := SentAll([First(), Second()]);
            var out := RunBytes(FRESH, Wire(Mending, input));
            && Accepted(input) == [Message1(), Message2()] && HonestInput(input) && ShortKeys(input)
            && out.ending == CleanEnd && out.st.asm == Idle(Truths(Accepted(input)))
            && !FaithfulRun(Mending, START, RunPieces(Accepted(input)))
            && !Divergence.LanesApart(Mending, RunPieces(Accepted(input)))
  {
    GoodLines();
    BodyLength();
    MendedInput();
    FrontFaithful();
    AfterFront();
    hide Front, Rest, RestData, Message1, Message2, First, Second, Mending, EmitAll, FaithfulRun, DeliversAs, Holds,
         EncInv, StatOf, Accepted, RunPieces, HonestInput, ShortKeys, SentAll, GoodFirst, GoodFields, DeclaredLength,
         Divergence.LanesApart, Truth, Push;
    var input := SentAll([First(), Second()]);
    MendedPieces();
    NotFaithful();
    RestDelivers(EmitAll(Mending, START, Front()).st);
    DeliversAppend(Mending, START, Front(), Rest(), PieceData(Front()), RestData());
    MendedPushes();
    Outcomes(Mending, input, PieceData(Front()) + RestData());
    TwoTruths(Message1(), Message2());
  }

  lemma TwoTruths(m: Message, n: Message)
    ensures Truths([m, n]) == [Truth(m), Truth(n)]
  {
    hide Truth;
    assert [m, n][1..] == [n] && [n][1..] == [];
    assert Truths([n]) == [Truth(n)] + Truths([]);
  }

  lemma MendedInput()
    ensures var input := SentAll([First(), Second()]);
            && Accepted(input) == [Message1(), Message2()] && HonestInput(input) && ShortKeys(input)
  {
    GoodLines();
    BodyLength();
    hide GoodFirst, GoodFields, DeclaredLength, ReadRequests, SentAll, ValidSent, Accepted, Body1, MessageFor, Received,
         ShortBody;
    PostSent(WrongRuns.GET, FIELDS, Body1());
    PostSent(LINE, [LONG_NAME + X], []);
    TwoAccepted(First(), Second());
    ShortBodies();
  }

  lemma ShortBodies()
    ensures ShortBody(Body1()) && ShortBody([])
  {
    Body1Pieces();
    EmptyPieces();
    hide BodyPieces, Body1;
  }
}
