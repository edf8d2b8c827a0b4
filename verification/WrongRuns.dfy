/** Whole runs that go wrong, from a client's bytes to what the decoder writes: one for each
    hypothesis of byte-exactness. */
module WrongRuns {
  import opened Bytes
  import opened Numbers
  import opened Protocol
  import opened Splitter
  import opened DecoderSpec
  import opened EncoderSpec
  import opened Framing
  import opened Agreement
  import opened HttpRequest
  import opened Normalizer
  import opened Sessions
  import opened ByteExact
  import TemplateCodec
  import Limits
  import opened WorstCase
  import opened Requests

  // ---- a request with one header line ----

  function Plain(l: bytes, body: bytes): Sent {
    Post(l, [], body)
  }

  function PlainMessage(l: bytes, body: bytes): Message {
    PostMessage(l, [], body)
  }

  /** Such a request is accepted and sent on as it is. */
  lemma PlainAccepted(l: bytes, body: bytes)
    requires GoodFirst(l) && |body| <= MAX_BODY
    ensures ValidSent(Plain(l, body))
    ensures ReadRequests(SentBytes(Plain(l, body))).requests == [Received(Plain(l, body))]
    ensures Received(Plain(l, body)).lines == LinesOf(l, [], |body|) && Received(Plain(l, body)).body == body
    ensures Accepted(SentBytes(Plain(l, body))) == [PlainMessage(l, body)]
  {
    hide RequestLineParts, ValidSent, ReadRequests, SentBytes, Post, Accepted, MessageFor;
    PostSent(l, [], body);
    OneAccepted(Plain(l, body));
  }

  /** The header of such a request: three pieces, the last one a bare CRLF. */
  lemma PlainPieces(l: bytes, n: nat)
    requires GoodFirst(l)
    ensures HeaderPieces(Block(LinesOf(l, [], n))) ==
            [HeaderLinePiece(l + CRLF), HeaderLinePiece(LengthLine(n) + CRLF), Raw(CRLF)]
  {
    hide RequestLineParts, HeaderPieces, HeaderLinePiece, LengthLine;
    PostPieces(l, [], n);
    assert FieldPieces([]) == [];
  }

  /** What a single accepted message leaves behind, when its frames deliver the given data. */
  lemma OneOutcome(h: IdFn, input: bytes, m: Message, data: seq<bytes>)
    requires Accepted(input) == [m] && DeliversAs(h, START, MessagePieces(m), data)
    ensures var out, r := RunBytes(FRESH, Wire(h, input)), PushAll(Idle([]), data);
            r.Ok? ==> out == Outcome(DecState(EmitAll(h, START, MessagePieces(m)).st.table, 0, r.value), CleanEnd)
  {
    hide Accepted, MessagePieces, DeliversAs, EmitAll, Push, RunBytes, Wire;
    OnePieces(m);
    Outcomes(h, input, data);
  }

  /** A template that has been hit fewer than three times and is not defined. */
  predicate Young(st: EncState, id: u16, hits: nat) {
    StatOf(st, id).hits <= hits && !StatOf(st, id).defined
  }

  predicate AllYoung(st: EncState, hits: nat) {
    st.table == map[] && forall id: u16 :: Young(st, id, hits)
  }

  lemma YoungStep(h: IdFn, st: EncState, p: Piece, hits: nat)
    requires AllYoung(st, hits) && hits < 2
    ensures AllYoung(Emit(h, st, p).st, hits + 1) && Faithful(h, st, p)
  {
    if p.Seg? {
      assert Young(st, IdOf(h, p), hits);
    }
    var after, next := Emit(h, st, p).st, hits + 1;
    forall id: u16
      ensures Young(after, id, next)
    {
      assert Young(st, id, hits);
      EmitStat(h, st, p, id);
    }
  }

  /** Three pieces, the last one raw, are always faithful, and promote nothing. */
  lemma HeaderFaithful(h: IdFn, p: Piece, q: Piece, raw: bytes)
    ensures var ps := [p, q, Raw(raw)];
            FaithfulRun(h, START, ps) && AllYoung(EmitAll(h, START, ps).st, 2)
  {
    hide Emit, Faithful;
    var ps, s1 := [p, q, Raw(raw)], Emit(h, START, p).st;
    var s2 := Emit(h, s1, q).st;
    YoungStep(h, START, p, 0);
    YoungStep(h, s1, q, 1);
    RawFaithful(h, s2, raw);
    assert ps[1..] == [q, Raw(raw)] && ps[1..][1..] == [Raw(raw)] && [Raw(raw)][1..] == [];
    assert FaithfulRun(h, Emit(h, s2, Raw(raw)).st, []);
    assert FaithfulRun(h, s2, [Raw(raw)]);
    assert [q, Raw(raw)][1..] == [Raw(raw)];
    assert FaithfulRun(h, s1, [q, Raw(raw)]);
    EmitAllOne(h, s2, Raw(raw));
    assert EmitAll(h, s1, [q, Raw(raw)]).st == EmitAll(h, s2, [Raw(raw)]).st;
    assert EmitAll(h, START, ps).st == EmitAll(h, s1, [q, Raw(raw)]).st;
  }

  lemma RawFaithful(h: IdFn, st: EncState, raw: bytes)
    ensures Faithful(h, st, Raw(raw)) && Emit(h, st, Raw(raw)) == Emission(st, [RawFrame(raw)])
  {}

  /** The header of a plain request is delivered, and leaves every template young. */
  lemma PlainHeaderDelivers(h: IdFn, l: bytes, n: nat)
    requires GoodFirst(l)
    ensures var ps := HeaderPieces(Block(LinesOf(l, [], n)));
            && DeliversAll(h, START, ps) && FaithfulRun(h, START, ps)
            && AllYoung(EmitAll(h, START, ps).st, 2) && EncInv(h, EmitAll(h, START, ps).st)
  {
    var hdr := Block(LinesOf(l, [], n));
    PlainPieces(l, n);
    HeaderPartition(hdr);
    var ps := HeaderPieces(hdr);
    hide HeaderLinePiece, HeaderPieces, Block, LengthLine, RequestLineParts, FaithfulRun, EmitAll, AllYoung, DeliversAs,
         PiecesBytes, WellShaped;
    HeaderFaithful(h, HeaderLinePiece(l + CRLF), HeaderLinePiece(LengthLine(n) + CRLF), CRLF);
    assert forall p <- ps :: AnyShape(p);
    RunSurvives(h, START, ps);
    EmitAllKeepsInv(h, START, ps);
  }

  // ---- a request line that declares a length ----

  // The request line "Content-Length:  5", no body.
  const HANGING: Sent := Plain(Limits.LENGTH_AS_REQUEST_LINE, [])

  /** The request is accepted and sent, and the run ends without an error, but the decoder goes
      on waiting for five more bytes: it never writes the request. */
  lemma RequestLineHangs(h: IdFn)
    ensures ValidSent(HANGING)
    ensures var input := SentBytes(HANGING);
            var m := PlainMessage(Limits.LENGTH_AS_REQUEST_LINE, []);
            var out := RunBytes(FRESH, Wire(h, input));
            && ReadRequests(input).requests == [Received(HANGING)] && Accepted(input) == [m]
            && out.ending == CleanEnd && out.st.asm.flushed == [] && out.st.asm.req == Truth(m)
            && !HonestInput(input)
  {
    var l, m := Limits.LENGTH_AS_REQUEST_LINE, PlainMessage(Limits.LENGTH_AS_REQUEST_LINE, []);
    hide RequestLineParts, DeclaredLength, ContentLengthOf, Index, Block, ReadRequests, SentBytes, Accepted,
         HeaderPieces, DeliversAs, EmitAll, FaithfulRun, AllYoung, EncInv, Partial, Push, PiecesBytes, PieceBytes,
         ValidSent;
    FirstLineGood();
    PlainAccepted(l, []);
    PostHeaded(l, [], []);
    PlainHeaderDelivers(h, l, 0);
    assert BodyPieces([]) == [];
    var ps := MessagePieces(m);
    assert ps == HeaderPieces(m.hdr) + [] == HeaderPieces(m.hdr);
    MessagePartition(m);
    StartPartial(m, []);
    PiecesHeld(m, [], ps, []);
    OneOutcome(h, SentBytes(HANGING), m, PieceData(ps));
    AllHeld(m);
    assert Received(HANGING) in ReadRequests(SentBytes(HANGING)).requests;
    EmptyLast();
  }

  lemma EmptyLast()
    ensures !ReachedLast(5, [])
  {}

  lemma AllHeld(m: Message)
    ensures Partial(m, Truth(m), []).flushed == [] && Partial(m, Truth(m), []).req == Truth(m)
  {}

  lemma FirstLineGood()
    ensures GoodFirst(Limits.LENGTH_AS_REQUEST_LINE) && DeclaredLength(Limits.LENGTH_AS_REQUEST_LINE) == Some(5)
  {
    hide RequestLineParts, DeclaredLength;
    Limits.RequestLineDeclaresLength();
  }

  // ---- bodies that are cut where they were joined ----

  /** A comma-closed segment of a line. */
  predicate CommaSeg(p: Piece) {
    && BodyShape(p) && p.constB == [COMMA] && LF !in PieceBytes(p)
    && forall b <- p.lane :: !IsDelim(b)
  }

  lemma CommaSegment(p: Piece, rest: bytes)
    requires CommaSeg(p)
    ensures KeyValuePieces(PieceBytes(p) + rest) == [p] + KeyValuePieces(rest)
  {
    hide SegmentEnd, Segment, KeyValuePieces, PieceBytes;
    var s := PieceBytes(p) + rest;
    SegmentHere(p, rest);
    KeyValueStep(s);
    assert s[SegmentEnd(s) + 1..] == rest;
    assert AfterSegment(s) == KeyValuePieces(rest);
  }

  /** A segment with no delimiter in its value is cut where it was joined to the rest. */
  lemma SegmentHere(p: Piece, rest: bytes)
    requires BodyShape(p) && forall b <- p.lane :: !IsDelim(b)
    ensures var s := PieceBytes(p) + rest;
            && 0 <= SegmentEnd(s) == |PieceBytes(p)| - 1 && s[|PieceBytes(p)| - 1] == p.constB[0] && Segment(s) == p
  {
    hide IndexByte, FirstDelim;
    var d := p.constB[0];
    assert p.constB == [d];
    var value := p.lane + ([d] + rest);
    var s := PieceBytes(p) + rest;
    JoinedValue(p.constA, p.lane, d, rest);
    assert s == p.constA + value;
    DelimAfter(p.lane, d, rest);
    KeyFirst(p.constA, value);
  }

  lemma JoinedValue(a: bytes, lane: bytes, d: byte, rest: bytes)
    ensures a + lane + [d] + rest == a + (lane + ([d] + rest))
    ensures var s, value := a + (lane + ([d] + rest)), lane + ([d] + rest);
            && s[|a|..] == value && s[|a|..|a| + |lane|] == lane && s[..|a|] == a && s[|a| + |lane|] == d
  {}

  lemma KeyFirst(a: bytes, value: bytes)
    requires KeyShape(a)
    ensures IndexByte(a + value, EQUALS) == |a| - 1
  {
    hide IndexByte;
    var s := a + value;
    assert s[|a| - 1] == EQUALS && s[..|a| - 1] == a[..|a| - 1];
    IndexByteIs(s, EQUALS, |a| - 1);
  }

  lemma DelimAfter(lane: bytes, d: byte, rest: bytes)
    requires IsDelim(d) && forall b <- lane :: !IsDelim(b)
    ensures FirstDelim(lane + ([d] + rest)) == |lane|
  {
    hide FirstDelim;
    var s := lane + ([d] + rest);
    assert s[|lane|] == d;
    forall k | 0 <= k < |lane|
      ensures !IsDelim(s[k])
    {
      assert s[k] == lane[k] && lane[k] in lane;
    }
  }

  predicate CommaSegs(ps: seq<Piece>) {
    forall p <- ps :: CommaSeg(p)
  }

  lemma {:induction false} CommaLine(ps: seq<Piece>)
    requires CommaSegs(ps)
    ensures KeyValuePieces(PiecesBytes(ps) + [LF]) == ps + [Raw([LF])]
    ensures LF !in PiecesBytes(ps)
  {
    hide CommaSeg, PieceBytes, KeyValuePieces;
    if ps == [] {
      LfAlone();
      assert [] + [LF] == [LF] && ps + [Raw([LF])] == [Raw([LF])];
    } else {
      assert ps[0] in ps && forall p <- ps[1..] :: p in ps;
      CommaLine(ps[1..]);
      Assoc(PieceBytes(ps[0]), PiecesBytes(ps[1..]), [LF]);
      CommaSegment(ps[0], PiecesBytes(ps[1..]) + [LF]);
      assert [ps[0]] + (ps[1..] + [Raw([LF])]) == ps + [Raw([LF])];
      assert LF !in PieceBytes(ps[0]) by {
        SegNoLf(ps[0]);
      }
    }
  }

  lemma SegNoLf(p: Piece)
    requires CommaSeg(p)
    ensures LF !in PieceBytes(p) && PieceBytes(p) != []
  {}

  lemma LfAlone()
    ensures KeyValuePieces([LF]) == [Raw([LF])]
  {
    assert [LF][1..] == [];
    assert IndexByte([LF], EQUALS) == -1;
  }

  lemma SomeBytes(ps: seq<Piece>)
    requires CommaSegs(ps) && ps != []
    ensures PiecesBytes(ps) != []
  {
    hide CommaSeg, PieceBytes;
    assert ps[0] in ps;
    SegNoLf(ps[0]);
  }

  /** A line of comma-closed segments in front of a body is cut into exactly those. */
  lemma CommaFirst(ps: seq<Piece>, rest: bytes)
    requires CommaSegs(ps) && ps != []
    ensures BodyPieces(PiecesBytes(ps) + [LF] + rest) == ps + [Raw([LF])] + BodyPieces(rest)
  {
    hide IndexByte, KeyValuePieces, CommaSeg, PiecesBytes;
    var line := PiecesBytes(ps) + [LF];
    var body := line + rest;
    CommaLine(ps);
    assert body[..|line| - 1] == PiecesBytes(ps) && body[|line| - 1] == LF;
    IndexByteIs(body, LF, |line| - 1);
    assert body[..|line|] == line && body[|line|..] == rest;
    assert PiecesBytes(ps) != [] by {
      SomeBytes(ps);
    }
    assert LinePieces(line) == KeyValuePieces(line);
  }

  /** A body made of one line of comma-closed segments is cut into exactly those. */
  lemma CommaBody(ps: seq<Piece>)
    requires CommaSegs(ps) && ps != []
    ensures BodyPieces(PiecesBytes(ps) + [LF]) == ps + [Raw([LF])]
  {
    hide KeyValuePieces, CommaSegs, PiecesBytes;
    CommaFirst(ps, []);
    assert BodyPieces([]) == [];
    assert PiecesBytes(ps) + [LF] + [] == PiecesBytes(ps) + [LF];
    assert ps + [Raw([LF])] + [] == ps + [Raw([LF])];
  }

  // ---- two keys with one id ----

  // "GET / HTTP/1.1"
  const GET: bytes := [71, 69, 84, 32, 47, 32, 72, 84, 84, 80, 47, 49, 46, 49]

  lemma GetGood()
    ensures GoodFirst(GET) && DeclaredLength(GET) == None
  {
    hide Index, Split, ToLower;
    Limits.TrimLineEnd(GET);
    GetParts();
    assert ToLower(GET)[0] == 103;
  }

  lemma GetParts()
    ensures |Split(GET, [SPACE])| == 3
  {
    hide Index;
    Limits.SpaceAt(GET, 3);
    Limits.SpaceAt(GET[4..], 1);
    Limits.SpaceAt(GET[6..], -1);
    assert GET[4..][2..] == GET[6..];
    assert |Split(GET[6..], [SPACE])| == 1;
    assert |Split(GET[4..], [SPACE])| == 2;
  }

  const SEEN_TWICE: seq<Piece> := [Limits.SEEN, Limits.SEEN, Limits.SEEN, Limits.LATER]
  const SEEN_ONLY: seq<Piece> := [Limits.SEEN, Limits.SEEN, Limits.SEEN, Limits.SEEN]

  // "aaaa=1,aaaa=1,aaaa=1,bbbb=1," and "aaaa=1,aaaa=1,aaaa=1,aaaa=1,", each closed by LF
  function MixedBody(): bytes {
    PiecesBytes(SEEN_TWICE) + [LF]
  }

  function SeenBody(): bytes {
    PiecesBytes(SEEN_ONLY) + [LF]
  }

  lemma Segments()
    ensures CommaSeg(Limits.SEEN) && CommaSeg(Limits.LATER)
    ensures CommaSegs(SEEN_TWICE) && CommaSegs(SEEN_ONLY)
    ensures |MixedBody()| == |SeenBody()| == 29 && MixedBody() != SeenBody()
  {
    var a, b := Limits.SEEN, Limits.LATER;
    assert CommaSeg(a) && CommaSeg(b);
    Four(a, a, a, b);
    Four(a, a, a, a);
    assert |PieceBytes(a)| == |PieceBytes(b)| == 7;
    assert MixedBody()[21] == 98 && SeenBody()[21] == 97;
  }

  lemma Four(a: Piece, b: Piece, c: Piece, d: Piece)
    ensures PiecesBytes([a, b, c, d]) == PieceBytes(a) + PieceBytes(b) + PieceBytes(c) + PieceBytes(d)
  {
    hide PieceBytes;
    assert [a, b, c, d][1..] == [b, c, d] && [b, c, d][1..] == [c, d] && [c, d][1..] == [d] && [d][1..] == [];
    assert PiecesBytes([d]) == PieceBytes(d) + [];
    assert PiecesBytes([c, d]) == PieceBytes(c) + PiecesBytes([d]);
    assert PiecesBytes([b, c, d]) == PieceBytes(b) + PiecesBytes([c, d]);
  }

  /** The id belongs to the template seen first, and has been hit often enough to say so. */
  predicate Owned(h: IdFn, st: EncState, hits: nat) {
    var id := IdOf(h, Limits.SEEN);
    && EncInv(h, st)
    && hits <= StatOf(st, id).hits <= hits + 2
    && (StatOf(st, id).defined <==> StatOf(st, id).hits >= PROMOTE_AFTER_HITS)
    && (StatOf(st, id).defined ==> id in st.table && st.table[id] == DefinitionOf(h, Limits.SEEN))
  }

  lemma SeenDelivers(h: IdFn, st: EncState, hits: nat)
    requires Owned(h, st, hits) && hits < 3
    ensures var e := Emit(h, st, Limits.SEEN);
            Delivers(st.table, e.frames, e.st.table, PieceBytes(Limits.SEEN)) && Owned(h, e.st, hits + 1)
  {
    var id := IdOf(h, Limits.SEEN);
    hide Emit, Delivers;
    if StatOf(st, id).hits + 1 < PROMOTE_AFTER_HITS {
      SeenRaw(h, st, hits);
    } else if StatOf(st, id).defined {
      SeenAgain(h, st, hits);
    } else {
      SeenDefined(h, st, hits);
    }
  }

  lemma SeenRaw(h: IdFn, st: EncState, hits: nat)
    requires Owned(h, st, hits) && StatOf(st, IdOf(h, Limits.SEEN)).hits + 1 < PROMOTE_AFTER_HITS
    ensures var e := Emit(h, st, Limits.SEEN);
            Delivers(st.table, e.frames, e.st.table, PieceBytes(Limits.SEEN)) && Owned(h, e.st, hits + 1)
  {
    var p := Limits.SEEN;
    hide EffectOf, DefinePayload, RefPayload, EncInv;
    EmitKeepsInv(h, st, p);
    assert Emit(h, st, p).frames == [RawFrame(PieceBytes(p))];
    RawDelivered(st.table, PieceBytes(p));
  }

  lemma SeenAgain(h: IdFn, st: EncState, hits: nat)
    requires Owned(h, st, hits) && StatOf(st, IdOf(h, Limits.SEEN)).defined && hits < 3
    ensures var e := Emit(h, st, Limits.SEEN);
            Delivers(st.table, e.frames, e.st.table, PieceBytes(Limits.SEEN)) && Owned(h, e.st, hits + 1)
  {
    var p := Limits.SEEN;
    hide EffectOf, DefinePayload, RefPayload, EncInv;
    EmitKeepsInv(h, st, p);
    SeenRefers(h, st.table, RefOrRaw(h, p));
  }

  lemma SeenDefined(h: IdFn, st: EncState, hits: nat)
    requires Owned(h, st, hits) && !StatOf(st, IdOf(h, Limits.SEEN)).defined
    requires StatOf(st, IdOf(h, Limits.SEEN)).hits + 1 == PROMOTE_AFTER_HITS
    ensures var e := Emit(h, st, Limits.SEEN);
            Delivers(st.table, e.frames, e.st.table, PieceBytes(Limits.SEEN)) && Owned(h, e.st, hits + 1)
  {
    var p, d := Limits.SEEN, DefinitionOf(h, Limits.SEEN);
    hide EffectOf, DefineFrame, EncInv, RefOrRaw, PieceBytes;
    EmitKeepsInv(h, st, p);
    DefineTaken(st.table, d);
    SeenRefers(h, st.table[d.id := d], RefOrRaw(h, p));
    SeenEmits(h, st);
  }

  lemma DefineTaken(table: Table, d: Definition)
    requires |d.constA| < TWO16 && |d.constB| < TWO16
    ensures EffectOf(table, DefineFrame(d)) == Defines(table[d.id := d])
  {
    hide EffectOf;
    DefineEffect(table, d);
  }

  lemma SeenEmits(h: IdFn, st: EncState)
    requires !StatOf(st, IdOf(h, Limits.SEEN)).defined
    requires StatOf(st, IdOf(h, Limits.SEEN)).hits + 1 == PROMOTE_AFTER_HITS
    ensures var p, d, id := Limits.SEEN, DefinitionOf(h, Limits.SEEN), IdOf(h, Limits.SEEN);
            Emit(h, st, p) == Emission(EncState(st.table[id := d], st.spans[id := SpanInfo(3, true)]),
                                       [DefineFrame(d), RefOrRaw(h, p)])
  {
    hide DefineFrame, RefOrRaw;
  }

  lemma SeenRefers(h: IdFn, table: Table, f: Frame)
    requires f == RefOrRaw(h, Limits.SEEN)
    requires IdOf(h, Limits.SEEN) in table && table[IdOf(h, Limits.SEEN)] == DefinitionOf(h, Limits.SEEN)
    ensures EffectOf(table, f) == Feeds(table, PieceBytes(Limits.SEEN))
  {
    hide EffectOf, RefPayload;
    RefEffect(table, IdOf(h, Limits.SEEN), Limits.SEEN.lane);
  }

  /** With the id owned by the other key, the later key is delivered as that one. */
  lemma LaterDelivers(h: IdFn, st: EncState)
    requires Owned(h, st, 3) && IdOf(h, Limits.LATER) == IdOf(h, Limits.SEEN)
    ensures var e := Emit(h, st, Limits.LATER);
            Delivers(st.table, e.frames, e.st.table, PieceBytes(Limits.SEEN))
  {
    hide EffectOf, DefinePayload, RefPayload;
    RefEffect(st.table, IdOf(h, Limits.SEEN), Limits.LATER.lane);
  }

  lemma OneDelivers(h: IdFn, st: EncState, p: Piece, data: bytes)
    requires Delivers(st.table, Emit(h, st, p).frames, Emit(h, st, p).st.table, data)
    ensures DeliversAs(h, st, [p], [data]) && EmitAll(h, st, [p]).st == Emit(h, st, p).st
  {
    hide Emit, Delivers;
    EmitAllOne(h, st, p);
    assert [p][1..] == [] && [data][1..] == [];
    assert DeliversAs(h, Emit(h, st, p).st, [], []);
  }

  /** The body after any header that leaves its templates young: the later key comes out as
      the one seen before. */
  lemma MixedDelivers(h: IdFn, st: EncState)
    requires AllYoung(st, 2) && EncInv(h, st)
    requires IdOf(h, Limits.LATER) == IdOf(h, Limits.SEEN)
    ensures DeliversAs(h, st, SEEN_TWICE + [Raw([LF])], PieceData(SEEN_ONLY + [Raw([LF])]))
  {
    hide Emit, Delivers, Owned, AllYoung, EncInv, PieceBytes, DeliversAs, EmitAll, PieceData;
    var p, x := Limits.SEEN, PieceBytes(Limits.SEEN);
    YoungOwned(h, st);
    var s1 := Emit(h, st, p).st;
    var s2 := Emit(h, s1, p).st;
    var s3 := Emit(h, s2, p).st;
    var s4 := Emit(h, s3, Limits.LATER).st;
    SeenDelivers(h, st, 0);
    SeenDelivers(h, s1, 1);
    SeenDelivers(h, s2, 2);
    LaterDelivers(h, s3);
    RawDelivers(h, s4, [LF]);
    OneDelivers(h, st, p, x);
    OneDelivers(h, s1, p, x);
    OneDelivers(h, s2, p, x);
    OneDelivers(h, s3, Limits.LATER, x);
    OneDelivers(h, s4, Raw([LF]), [LF]);
    MixedPieces();
    Five(h, st, SEEN_TWICE + [Raw([LF])], [x, x, x, x, [LF]], s1, s2, s3, s4);
    FiveData(p);
  }

  lemma YoungOwned(h: IdFn, st: EncState)
    requires AllYoung(st, 2) && EncInv(h, st)
    ensures Owned(h, st, 0)
  {
    hide EncInv;
    assert Young(st, IdOf(h, Limits.SEEN), 2);
  }

  lemma MixedPieces()
    ensures var a, b, end := Limits.SEEN, Limits.LATER, Raw([LF]);
            SEEN_TWICE + [end] == [a, a, a, b, end] && SEEN_ONLY + [end] == [a, a, a, a, end]
  {}

  lemma Five(h: IdFn, st: EncState, ps: seq<Piece>, data: seq<bytes>,
             s1: EncState, s2: EncState, s3: EncState, s4: EncState)
    requires |ps| == |data| == 5
    requires DeliversAs(h, st, [ps[0]], [data[0]]) && EmitAll(h, st, [ps[0]]).st == s1
    requires DeliversAs(h, s1, [ps[1]], [data[1]]) && EmitAll(h, s1, [ps[1]]).st == s2
    requires DeliversAs(h, s2, [ps[2]], [data[2]]) && EmitAll(h, s2, [ps[2]]).st == s3
    requires DeliversAs(h, s3, [ps[3]], [data[3]]) && EmitAll(h, s3, [ps[3]]).st == s4
    requires DeliversAs(h, s4, [ps[4]], [data[4]])
    ensures DeliversAs(h, st, ps, data)
  {
    hide DeliversAs, EmitAll;
    DeliversAppend(h, s3, [ps[3]], [ps[4]], [data[3]], [data[4]]);
    DeliversAppend(h, s2, [ps[2]], [ps[3]] + [ps[4]], [data[2]], [data[3]] + [data[4]]);
    DeliversAppend(h, s1, [ps[1]], [ps[2]] + ([ps[3]] + [ps[4]]), [data[1]], [data[2]] + ([data[3]] + [data[4]]));
    DeliversAppend(h, st, [ps[0]], [ps[1]] + ([ps[2]] + ([ps[3]] + [ps[4]])),
                   [data[0]], [data[1]] + ([data[2]] + ([data[3]] + [data[4]])));
    assert ps == [ps[0]] + ([ps[1]] + ([ps[2]] + ([ps[3]] + [ps[4]])));
    assert data == [data[0]] + ([data[1]] + ([data[2]] + ([data[3]] + [data[4]])));
  }

  lemma FiveData(p: Piece)
    ensures PieceData([p, p, p, p, Raw([LF])]) ==
            [PieceBytes(p), PieceBytes(p), PieceBytes(p), PieceBytes(p), [LF]]
  {
    var q := Raw([LF]);
    assert PieceBytes(q) == [LF];
    hide PieceBytes;
    assert [p, p, p, p, q][1..] == [p, p, p, q] && [p, p, p, q][1..] == [p, p, q];
    assert [p, p, q][1..] == [p, q] && [p, q][1..] == [q] && [q][1..] == [];
    assert PieceData([]) == [];
    assert PieceData([q]) == [[LF]];
    assert PieceData([p, q]) == [PieceBytes(p), [LF]];
    assert PieceData([p, p, q]) == [PieceBytes(p), PieceBytes(p), [LF]];
  }

  /** A client posts one line; the two keys share an id. The run ends without an error and the
      decoder writes one request of the right length, with the wrong key in it. */
  lemma CollisionReachesBackend(h: IdFn)
    requires IdOf(h, Limits.LATER) == IdOf(h, Limits.SEEN)
    ensures var input := SentBytes(Plain(GET, MixedBody()));
            var hdr := PlainMessage(GET, MixedBody()).hdr;
            var out := RunBytes(FRESH, Wire(h, input));
            && HonestInput(input) && Accepted(input) == [Message(hdr, MixedBody())]
            && out.ending == CleanEnd && out.st.asm.flushed == [hdr + SeenBody()]
            && SeenBody() != MixedBody() && |SeenBody()| == |MixedBody()|
  {
    var body, hdr := MixedBody(), PlainMessage(GET, MixedBody()).hdr;
    var m, wrong := Message(hdr, body), Message(hdr, SeenBody());
    Segments();
    GetGood();
    hide RequestLineParts, DeclaredLength, ContentLengthOf, Index, Block, ReadRequests, SentBytes, Accepted,
         HeaderPieces, BodyPieces, DeliversAs, EmitAll, FaithfulRun, AllYoung, EncInv, Push, PiecesBytes, PieceBytes,
         ValidSent,
         CommaSeg, MixedBody, SeenBody, CommaSegs, LastPieceStart;
    PlainAccepted(GET, body);
    PostHeaded(GET, [], body);
    PlainHeaderDelivers(h, GET, |body|);
    CommaBodies();
    var hs := HeaderPieces(hdr);
    var st := EmitAll(h, START, hs).st;
    MixedDelivers(h, st);
    DeliversAppend(h, START, hs, BodyPieces(body), PieceData(hs), PieceData(BodyPieces(SeenBody())));
    PieceDataAppend(hs, BodyPieces(SeenBody()));
    assert PieceData(MessagePieces(wrong)) == PieceData(hs) + PieceData(BodyPieces(SeenBody()));
    PushesExactly(wrong, []);
    OneOutcome(h, SentBytes(Plain(GET, body)), m, PieceData(MessagePieces(wrong)));
    assert Truth(wrong) == hdr + SeenBody();
    assert [] + [Truth(wrong)] == [Truth(wrong)];
  }

  lemma CommaBodies()
    ensures BodyPieces(MixedBody()) == SEEN_TWICE + [Raw([LF])]
    ensures BodyPieces(SeenBody()) == SEEN_ONLY + [Raw([LF])]
  {
    Segments();
    hide CommaSegs, PiecesBytes, BodyPieces;
    CommaBody(SEEN_TWICE);
    CommaBody(SEEN_ONLY);
  }

  // ---- a key of 64 KiB ----

  // 65536 times "a", then "=1,"
  function LongKey(): bytes {
    seq(TWO16, _ => 97) + [EQUALS]
  }

  function LongPiece(): (p: Piece)
    ensures p.Seg?
  {
    Seg(LongKey(), [49], [COMMA])
  }

  function LongBody(): bytes {
    PiecesBytes([LongPiece(), LongPiece(), LongPiece()]) + [LF]
  }

  lemma LongPieceIs()
    ensures CommaSeg(LongPiece()) && |LongKey()| == TWO16 + 1 && |PieceBytes(LongPiece())| == TWO16 + 3
    ensures LongKey()[0] == 97 && LongKey()[1] == 97
  {
    assert LongKey()[..TWO16] == seq(TWO16, _ => 97);
  }

  /** Its definition says that the key is one byte long, and the decoder cannot parse it. */
  lemma LongDefineFails(table: Table, id: u16)
    ensures EffectOf(table, DefineFrame(Definition(id, LongKey(), [COMMA]))) == Fails(BadPayload)
  {
    var a := LongKey();
    LongPieceIs();
    hide LongKey, U16, U16At, DefinePayload;
    LongLayout(id, a);
    assert ParseDefine(DefinePayload(id, a, [COMMA])) == Malformed;
  }

  lemma LongLayout(id: u16, a: bytes)
    requires |a| == TWO16 + 1 && a[0] == 97 && a[1] == 97
    ensures var p := DefinePayload(id, a, [COMMA]);
            && |p| > 12 && p[2] == 3 && p[3] == SEG_CONST && U16At(p, 4) == 1 && p[7] == 97
  {
    hide U16, U16At;
    var b: bytes := [COMMA];
    var p := DefinePayload(id, a, b);
    assert p == p + [];
    TemplateCodec.DefineLayout(p, U16(id), U16(|a|), a, U16(0), U16(|b|), b, []);
    hide DefinePayload;
    U16RoundTrip(|a|, p, 4);
    assert p[6..6 + |a|][1] == p[7];
  }

  /** One more long piece: raw while the template is young, else the definition that fails. */
  lemma LongStep(h: IdFn, st: EncState, ds: DecState, hits: nat)
    requires var id := IdOf(h, LongPiece());
             !StatOf(st, id).defined && StatOf(st, id).hits == hits < PROMOTE_AFTER_HITS
    ensures var e, id := Emit(h, st, LongPiece()), IdOf(h, LongPiece());
            if hits + 1 < PROMOTE_AFTER_HITS then !StatOf(e.st, id).defined && StatOf(e.st, id).hits == hits + 1
            else RunFrames(ds, e.frames).Err?
  {
    hide LongPiece, PieceBytes, Emit, Step;
    var p, id := LongPiece(), IdOf(h, LongPiece());
    LongParts(p);
    EmitStat(h, st, p, id);
    if hits + 1 == PROMOTE_AFTER_HITS {
      LongDefined(h, st, p);
      LongDefineFails(ds.table, id);
      FirstFails(ds, Emit(h, st, p).frames);
    }
  }

  lemma LongDefined(h: IdFn, st: EncState, p: Piece)
    requires p.Seg? && Gated(p) && DefineFits(p.constA, p.constB)
    requires !StatOf(st, IdOf(h, p)).defined && StatOf(st, IdOf(h, p)).hits + 1 == PROMOTE_AFTER_HITS
    ensures Emit(h, st, p).frames == [DefineFrame(DefinitionOf(h, p)), RefOrRaw(h, p)]
  {
    hide DefineFrame, RefOrRaw, PieceBytes;
  }

  lemma FirstFails(ds: DecState, fs: seq<Frame>)
    requires fs != [] && EffectOf(ds.table, fs[0]).Fails?
    ensures RunFrames(ds, fs).Err?
  {
    hide EffectOf;
  }

  lemma LongParts(p: Piece)
    requires p == LongPiece()
    ensures p.Seg? && p.constA == LongKey() && p.constB == [COMMA] && Gated(p) && DefineFits(p.constA, p.constB)
  {
    LongPieceIs();
    hide LongKey, CommaSeg;
  }

  /** By the third long piece at the latest the decoder has failed. */
  lemma {:induction false} LongRun(h: IdFn, st: EncState, ds: DecState, hits: nat, ps: seq<Piece>, tail: seq<Piece>)
    requires var id := IdOf(h, LongPiece());
             !StatOf(st, id).defined && StatOf(st, id).hits == hits < PROMOTE_AFTER_HITS
    requires |ps| + hits >= PROMOTE_AFTER_HITS && forall p <- ps :: p == LongPiece()
    ensures RunFrames(ds, EmitAll(h, st, ps + tail).frames).Err?
    decreases |ps|
  {
    hide LongPiece, Emit, Step, StatOf;
    var e := Emit(h, st, LongPiece());
    var all := ps + tail;
    assert ps[0] in ps && forall p <- ps[1..] :: p in ps;
    assert all[0] == ps[0] == LongPiece() && all[1..] == ps[1..] + tail;
    LongStep(h, st, ds, hits);
    RunFramesAppend(ds, e.frames, EmitAll(h, e.st, ps[1..] + tail).frames);
    if hits + 1 < PROMOTE_AFTER_HITS && RunFrames(ds, e.frames).Ok? {
      LongRun(h, e.st, RunFrames(ds, e.frames).value, hits + 1, ps[1..], tail);
    }
  }

  lemma LongBodyPieces()
    ensures BodyPieces(LongBody()) == [LongPiece(), LongPiece(), LongPiece()] + [Raw([LF])]
    ensures |LongBody()| <= MAX_BODY
  {
    LongPieceIs();
    hide LongPiece, CommaSeg, PieceBytes, BodyPieces;
    var p := LongPiece();
    CommaBody([p, p, p]);
    assert [p, p, p][1..] == [p, p] && [p, p][1..] == [p] && [p][1..] == [];
    assert |PiecesBytes([p])| == |PieceBytes(p)| && |PiecesBytes([p, p])| == 2 * |PieceBytes(p)|;
  }

  /** A client posts one line with such a key three times: the request is accepted and sent,
      and the decoder stops with a protocol error. */
  lemma LongKeyBreaksRun(h: IdFn)
    ensures var input := SentBytes(Plain(GET, LongBody()));
            && Accepted(input) == [PlainMessage(GET, LongBody())] && HonestInput(input)
            && RunBytes(FRESH, Wire(h, input)).ending.BadStream?
  {
    GetGood();
    LongBodyPieces();
    hide LongBody, LongPiece, RequestLineParts, DeclaredLength, Block, ReadRequests, SentBytes, Accepted,
         HeaderPieces, BodyPieces, DeliversAs, EmitAll, FaithfulRun, EncInv, Step, AllYoung, ValidSent, HonestInput;
    var body := LongBody();
    PlainAccepted(GET, body);
    PlainHeaderDelivers(h, GET, |body|);
    var m := PlainMessage(GET, body);
    LongTail(h, HeaderPieces(m.hdr));
    OneFailure(h, SentBytes(Plain(GET, body)), m);
    NoneDeclared(body);
  }

  lemma NoneDeclared(body: bytes)
    requires GoodFirst(GET) && DeclaredLength(GET) == None && |body| <= MAX_BODY
    ensures HonestInput(SentBytes(Plain(GET, body)))
  {
    hide RequestLineParts, DeclaredLength, ReadRequests, SentBytes, ValidSent;
    PlainAccepted(GET, body);
  }

  /** After a header that leaves its templates young, three long pieces break the run. */
  lemma LongTail(h: IdFn, hs: seq<Piece>)
    requires AllYoung(EmitAll(h, START, hs).st, 2)
    ensures var ps := hs + ([LongPiece(), LongPiece(), LongPiece()] + [Raw([LF])]);
            RunFrames(FRESH, EmitAll(h, START, ps).frames).Err?
  {
    hide LongPiece, EmitAll, Step, AllYoung;
    var p, st := LongPiece(), EmitAll(h, START, hs).st;
    var long := [p, p, p] + [Raw([LF])];
    EmitAllAppend(h, START, hs, long);
    RunFramesAppend(FRESH, EmitAll(h, START, hs).frames, EmitAll(h, st, long).frames);
    YoungHits(h, st);
    var r := RunFrames(FRESH, EmitAll(h, START, hs).frames);
    if r.Ok? {
      LongRun(h, st, r.value, StatOf(st, IdOf(h, p)).hits, [p, p, p], [Raw([LF])]);
    }
  }

  lemma OneFailure(h: IdFn, input: bytes, m: Message)
    requires Accepted(input) == [m] && RunFrames(FRESH, EmitAll(h, START, MessagePieces(m)).frames).Err?
    ensures RunBytes(FRESH, Wire(h, input)).ending.BadStream?
  {
    EncoderNeverFails(h, input);
    hide Accepted, MessagePieces, EmitAll, Step;
    OnePieces(m);
    var fs := EmitAll(h, START, MessagePieces(m)).frames;
    FramesRoundTrip(fs);
    RunBytesIsRunFrames(FRESH, WireOf(fs));
  }

  lemma YoungHits(h: IdFn, st: EncState)
    requires AllYoung(st, 2)
    ensures var id := IdOf(h, LongPiece());
            !StatOf(st, id).defined && StatOf(st, id).hits < PROMOTE_AFTER_HITS
  {
    hide LongPiece, StatOf;
    assert Young(st, IdOf(h, LongPiece()), 2);
  }

  // ---- a loss beyond the headers ----

  const SEEN_THRICE: seq<Piece> := [Limits.SEEN, Limits.SEEN, Limits.SEEN]

  function ThriceBody(): bytes {
    PiecesBytes(SEEN_THRICE) + [LF]
  }

  /** What one more sight of the template adds to the loss. */
  lemma SeenLoss(h: IdFn, st: EncState)
    requires StatOf(st, IdOf(h, Limits.SEEN)).hits < 10
    ensures var id, p := IdOf(h, Limits.SEEN), Limits.SEEN;
            var stat, after := StatOf(st, id), StatOf(Emit(h, st, p).st, id);
            && EmitLoss(h, st, p) == (if stat.hits + 1 < PROMOTE_AFTER_HITS then 0 else if stat.defined then -1 else 25)
            && after == SpanInfo(stat.hits + 1, stat.defined || stat.hits + 1 >= PROMOTE_AFTER_HITS)
  {
    hide DefinePayload, RefPayload;
    EmitStat(h, st, Limits.SEEN, IdOf(h, Limits.SEEN));
  }

  lemma ThreeLosses(h: IdFn, st: EncState)
    requires AllYoung(st, 2)
    ensures RunLoss(h, st, SEEN_THRICE + [Raw([LF])]) >= 23
  {
    hide Emit, EmitLoss, StatOf;
    var p, id := Limits.SEEN, IdOf(h, Limits.SEEN);
    assert Young(st, id, 2);
    var s1 := Emit(h, st, p).st;
    var s2 := Emit(h, s1, p).st;
    var s3 := Emit(h, s2, p).st;
    SeenLoss(h, st);
    SeenLoss(h, s1);
    SeenLoss(h, s2);
    RawLoss(h, s3, [LF]);
    var end := Raw([LF]);
    assert SEEN_THRICE + [end] == [p, p, p, end];
    assert [p, p, p, end][1..] == [p, p, end] && [p, p, end][1..] == [p, end] && [p, end][1..] == [end];
    assert [end][1..] == [] && RunLoss(h, Emit(h, s3, end).st, []) == 0;
    assert RunLoss(h, s3, [end]) == 0;
    assert RunLoss(h, s2, [p, end]) == EmitLoss(h, s2, p) + RunLoss(h, s3, [end]);
    assert RunLoss(h, s1, [p, p, end]) == EmitLoss(h, s1, p) + RunLoss(h, s2, [p, end]);
    assert RunLoss(h, st, [p, p, p, end]) == EmitLoss(h, st, p) + RunLoss(h, s1, [p, p, end]);
  }

  lemma RawLoss(h: IdFn, st: EncState, raw: bytes)
    ensures EmitLoss(h, st, Raw(raw)) == 0
  {}

  /** Pieces that promote nothing lose nothing. */
  lemma HeaderLoss(h: IdFn, p: Piece, q: Piece, raw: bytes)
    ensures RunLoss(h, START, [p, q, Raw(raw)]) == 0
  {
    var end, s1 := Raw(raw), Emit(h, START, p).st;
    YoungLoss(h, START, p, 0);
    YoungStep(h, START, p, 0);
    YoungLoss(h, s1, q, 1);
    hide Emit, EmitLoss;
    RawLoss(h, Emit(h, s1, q).st, raw);
    assert [p, q, end][1..] == [q, end] && [q, end][1..] == [end] && [end][1..] == [];
    assert RunLoss(h, Emit(h, s1, q).st, [end]) == 0;
    assert RunLoss(h, s1, [q, end]) == 0;
  }

  lemma YoungLoss(h: IdFn, st: EncState, p: Piece, hits: nat)
    requires AllYoung(st, hits) && hits < 2
    ensures EmitLoss(h, st, p) == 0
  {
    if p.Seg? {
      assert Young(st, IdOf(h, p), hits);
    }
  }

  /** A client posts one line with one key three times: whatever the ids are, the wire carries
      more than the request and one frame header per piece. */
  lemma LossBeyondHeaders(h: IdFn)
    ensures var input := SentBytes(Plain(GET, ThriceBody()));
            && Accepted(input) == [PlainMessage(GET, ThriceBody())]
            && |Wire(h, input)| > |Flatten(Truths(Accepted(input)))| + 8 * |RunPieces(Accepted(input))|
  {
    GetGood();
    ThricePieces();
    hide ThriceBody, RequestLineParts, DeclaredLength, Block, SentBytes, Accepted, HeaderPieces, BodyPieces, EmitAll,
         AllYoung, FaithfulRun, EncInv, DeliversAs, ValidSent, ReadRequests, WireOf, PiecesBytes, RunLoss, Flatten,
         Truths, HeaderLinePiece, LengthLine;
    var body := ThriceBody();
    PlainAccepted(GET, body);
    PlainHeaderDelivers(h, GET, |body|);
    PlainPieces(GET, |body|);
    var input, m := SentBytes(Plain(GET, body)), PlainMessage(GET, body);
    var hs := HeaderPieces(m.hdr);
    HeaderLoss(h, HeaderLinePiece(GET + CRLF), HeaderLinePiece(LengthLine(|body|) + CRLF), CRLF);
    ThreeLosses(h, EmitAll(h, START, hs).st);
    RunLossAppend(h, START, hs, BodyPieces(body));
    OnePieces(m);
    RunPartition([m]);
    DefinitionsCost(h, START, MessagePieces(m));
  }

  lemma ThricePieces()
    ensures BodyPieces(ThriceBody()) == SEEN_THRICE + [Raw([LF])] && |ThriceBody()| <= MAX_BODY
  {
    Segments();
    assert |PieceBytes(Limits.SEEN)| == 7;
    assert SEEN_THRICE[1..] == [Limits.SEEN, Limits.SEEN] && SEEN_THRICE[1..][1..] == [Limits.SEEN];
    hide PieceBytes, CommaSeg;
    CommaBody(SEEN_THRICE);
  }

  // ---- requests the reader and the normaliser treat differently, or the reader refuses ----

  // A transfer-encoding line led by a space
  const INDENTED: bytes := [SPACE] + TRANSFER_ENCODING + CHUNKED
  const NO_CHUNKS: Last := Last([48], [], [])

  // An indented chunked line, and an empty chunked body
  const INDENTED_REQUEST: Sent := WithChunks([GET, INDENTED], [], NO_CHUNKS)

  lemma IndentedFields()
    ensures LF !in INDENTED && INDENTED != [] && Kept([INDENTED]) == [INDENTED] && IsChunked([INDENTED])
    ensures LastField([INDENTED], CONTENT_LENGTH) == []
  {
    hide IsFraming, FieldValue;
    Limits.IndentedChunkedStays();
    Limits.IndentedValue();
    assert [INDENTED][..0] == [] && LastField([], CONTENT_LENGTH) == [];
    assert FieldValue(INDENTED, CONTENT_LENGTH) == None by {
      OtherKey(INDENTED);
    }
  }

  /** A line is a value of one framing field at most. */
  lemma OtherKey(l: bytes)
    requires FieldValue(l, TRANSFER_ENCODING).Some?
    ensures FieldValue(l, CONTENT_LENGTH) == None
  {
    hide TrimSpace;
    assert TRANSFER_ENCODING[0] == 116 && CONTENT_LENGTH[0] == 99;
  }

  lemma IndentedSent()
    ensures ValidSent(INDENTED_REQUEST)
    ensures Received(INDENTED_REQUEST) == Request([GET, INDENTED], true, -1, [])
  {
    IndentedFields();
    IndentedHead();
    NoChunksValid();
    hide ValidHead, ValidLast, IsChunked, LastField, Kept;
    assert [GET, INDENTED][1..] == [INDENTED] && ChunksData([]) == [];
  }

  lemma IndentedHead()
    ensures ValidHead([GET, INDENTED], MAX_HEADER)
  {
    hide RequestLineParts, DeclaredLength, Lines, Kept, IsChunked, LastField, Block;
    GetGood();
    IndentedFields();
    TwoLines(GET, INDENTED);
    assert [GET, INDENTED][1..] == [INDENTED];
  }

  lemma NoChunksValid()
    ensures ValidLast(NO_CHUNKS)
  {
    var zero: bytes := [48];
    assert zero[..0] == [] && DigitsValue(zero, 16) == Some(0);
  }

  /** A request with an indented chunked line is accepted as chunked; sent on, it still says so
      beside its Content-Length, and the same reader cannot read it again. */
  lemma IndentedRequestUnreadable()
    ensures ValidSent(INDENTED_REQUEST)
    ensures ReadRequests(SentBytes(INDENTED_REQUEST)).requests == [Received(INDENTED_REQUEST)]
    ensures var r := Received(INDENTED_REQUEST);
            && HeaderFor(r) == Block([GET, INDENTED, LengthLine(0)])
            && ReadRequest(HeaderFor(r) + r.body, MAX_HEADER, MAX_BODY) == Err(HttpError.Eof)
  {
    IndentedSent();
    IndentedFields();
    GetGood();
    hide RequestLineParts, IsChunked, LastField, DeclaredLength, ReadRequests, SentBytes, Kept, Block, Normalize;
    OneAccepted(INDENTED_REQUEST);
    var r := Received(INDENTED_REQUEST);
    assert r.lines[1..] == [INDENTED];
    assert ValidHead(r.lines, MAX_HEADER);
    HeadOf(r);
    assert NormalLines(r.lines, 0) == [GET, INDENTED, LengthLine(0)];
    IndentedAgain();
    assert HeaderFor(r) + r.body == HeaderFor(r);
  }

  lemma IndentedAgain()
    ensures ReadRequest(Block([GET, INDENTED, LengthLine(0)]), MAX_HEADER, MAX_BODY) == Err(HttpError.Eof)
  {
    hide RequestLineParts, DeclaredLength, LengthLine, ReadHead, Itoa, ParseInt, IsChunked, LastField, Block,
         ReadChunks;
    var ls := [GET, INDENTED, LengthLine(0)];
    AgainFields();
    AgainHead();
    ItoaRoundTrip(0);
    assert Block(ls) + [] == Block(ls);
    HeadExact(Block(ls), MAX_HEADER, ls, []);
    NoMoreChunks();
  }

  lemma AgainHead()
    ensures ValidHead([GET, INDENTED, LengthLine(0)], MAX_HEADER)
  {
    hide RequestLineParts, DeclaredLength, LengthLine, Lines, Kept, IsChunked, LastField;
    var f := LengthLine(0);
    GetGood();
    IndentedFields();
    LengthLineValid(0);
    LengthLineShort(0);
    ThreeLines(GET, INDENTED, f);
    assert [GET, INDENTED, f][1..] == [INDENTED, f];
  }

  lemma AgainFields()
    ensures var ls := [GET, INDENTED, LengthLine(0)];
            IsChunked(ls[1..]) && LastField(ls[1..], CONTENT_LENGTH) == Itoa(0)
  {
    hide LengthLine, FieldValue, LastField, Kept;
    IndentedFields();
    LengthLineFields(0);
    var f := LengthLine(0);
    assert [GET, INDENTED, f][1..] == [INDENTED] + [f];
    LastFieldSnoc([INDENTED], f, CONTENT_LENGTH);
    LastFieldSnoc([INDENTED], f, TRANSFER_ENCODING);
  }

  lemma ThreeLines(a: bytes, b: bytes, c: bytes)
    ensures |Block([a, b, c])| == |a| + |b| + |c| + 8
  {
    LinesFirst(a, [b, c]);
    LinesFirst(b, [c]);
    LinesFirst(c, []);
    assert [a] + [b, c] == [a, b, c] && [b] + [c] == [b, c] && [c] + [] == [c];
  }

  lemma NoMoreChunks()
    ensures ReadChunks([], 0, MAX_BODY) == Err(HttpError.Eof)
  {}

  // "GET / HTTP/1.1" CRLF, a plain chunked line, "1 ;x" CRLF "A" CRLF, "0" CRLF CRLF
  const SPACED_INPUT: bytes :=
    Block([GET, TRANSFER_ENCODING + CHUNKED])
    + ([49, 32, 59, 120] + CRLF + ([65] + (CRLF + ([48] + CRLF + CRLF))))

  /** A whole request whose one chunk has a blank before its extension: the reader refuses it. */
  lemma SpacedRequestRefused()
    ensures ReadRequests(SPACED_INPUT) == RequestLog([], BadRequest)
  {
    var ls := [GET, TRANSFER_ENCODING + CHUNKED];
    var body := [49, 32, 59, 120] + CRLF + ([65] + (CRLF + ([48] + CRLF + CRLF)));
    PlainChunkedHead();
    hide ReadHead, ReadChunk, ValidHead, IsChunked, LastField;
    HeadExact(SPACED_INPUT, MAX_HEADER, ls, body);
    Limits.SpacedExtensionRefused([48] + CRLF + CRLF, 0, MAX_BODY);
    assert ReadChunks(body, 0, MAX_BODY) == Err(BadRequest);
    hide ReadChunks;
  }

  lemma PlainChunkedHead()
    ensures var ls := [GET, TRANSFER_ENCODING + CHUNKED];
            && ValidHead(ls, MAX_HEADER)
            && LastField(ls[1..], CONTENT_LENGTH) == [] && IsChunked(ls[1..])
  {
    hide RequestLineParts, DeclaredLength, FieldValue, Block;
    var l := TRANSFER_ENCODING + CHUNKED;
    GetGood();
    ChunkedLine();
    TwoLines(GET, l);
    assert [GET, l][1..] == [l] && [l][..0] == [] && LastField([], CONTENT_LENGTH) == [];
    assert MatchAt(CHUNKED, CHUNKED, 0);
  }

  lemma TwoLines(a: bytes, b: bytes)
    ensures |Block([a, b])| == |a| + |b| + 6
  {
    LinesFirst(a, [b]);
    LinesFirst(b, []);
    assert [a] + [b] == [a, b] && [b] + [] == [b];
  }

  lemma ChunkedLine()
    ensures var l := TRANSFER_ENCODING + CHUNKED;
            && l != [] && LF !in l && FieldValue(l, TRANSFER_ENCODING) == Some(CHUNKED)
            && FieldValue(l, CONTENT_LENGTH) == None
  {
    hide TrimSpace, ToLower;
    var l := TRANSFER_ENCODING + CHUNKED;
    Limits.TrimLineEnd(l);
    Limits.LowerAlready(l);
    assert l[|TRANSFER_ENCODING|..] == CHUNKED;
    Limits.TrimNothing(CHUNKED);
    OtherKey(l);
  }

  // "GET / HTTP/1.1" CRLF CRLF
  const BARE_INPUT: bytes := Block([GET])

  /** A request with no framing field, which has an empty body: the reader refuses it. */
  lemma BareRequestUnsupported()
    ensures ReadRequests(BARE_INPUT) == RequestLog([], Unsupported)
  {
    GetGood();
    NothingChunked();
    assert [GET][1..] == [] && [GET] + [] == [GET];
    LinesFirst(GET, []);
    hide RequestLineParts, DeclaredLength;
    assert LastField([], CONTENT_LENGTH) == [] && LastField([], TRANSFER_ENCODING) == [];
    UnsupportedExactly([GET], [], MAX_HEADER, MAX_BODY);
    assert Block([GET]) + [] == Block([GET]);
    hide ReadRequest;
  }
}
