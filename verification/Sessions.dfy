/** Whole runs: from the client's byte stream, through the encoder and the wire, to what the
    decoder writes. */
module Sessions {
  import opened Bytes
  import opened Numbers
  import opened Protocol
  import opened Splitter
  import opened EncoderSpec
  import opened Framing
  import opened Agreement
  import opened HttpRequest
  import opened Normalizer
  import D = DecoderSpec

  /** What is sent for an accepted request. */
  function MessageFor(r: Request): Message {
    Message(HeaderFor(r), r.body)
  }

  function MessagesFor(rs: seq<Request>): seq<Message> {
    if rs == [] then [] else [MessageFor(rs[0])] + MessagesFor(rs[1..])
  }

  /** The truth stream: each normalised header followed by its body. */
  function Truths(ms: seq<Message>): seq<bytes> {
    if ms == [] then [] else [Truth(ms[0])] + Truths(ms[1..])
  }

  function RunPieces(ms: seq<Message>): seq<Piece> {
    if ms == [] then [] else MessagePieces(ms[0]) + RunPieces(ms[1..])
  }

  /** All frames of a run. */
  function RunEmission(h: IdFn, st: EncState, ms: seq<Message>): Emission {
    EmitAll(h, st, RunPieces(ms))
  }

  lemma {:induction false} RunPartition(ms: seq<Message>)
    ensures PiecesBytes(RunPieces(ms)) == Flatten(Truths(ms))
    ensures forall p <- RunPieces(ms) :: AnyShape(p)
  {
    if ms != [] {
      MessagePartition(ms[0]);
      hide MessagePieces, AnyShape, Truth;
      RunPartition(ms[1..]);
      PiecesBytesAppend(MessagePieces(ms[0]), RunPieces(ms[1..]));
      assert Truths(ms)[1..] == Truths(ms[1..]);
    }
  }

  // ---- which requests are framed for the decoder ----

  /** The request line declares no length, or one that the body reaches with its last piece. */
  predicate HonestRequestLine(r: Request) {
    && r.lines != []
    && match D.DeclaredLength(r.lines[0])
       case None => true
       case Some(v) => ReachedLast(v, r.body)
  }

  lemma EmptyRequestLine()
    ensures |RequestLineParts([])| == 1
  {
    var empty: bytes := [];
    assert empty + CRLF == CRLF;
    assert CRLF[1..] == [LF] && CRLF[1..][1..] == [];
    assert TrimSpace(CRLF) == [];
  }

  /** A normalised request ends its header where the decoder looks and declares a length, and
      it is framed exactly when its request line is honest. */
  lemma FramedExactly(r: Request, maxHeader: nat)
    requires ValidHead(r.lines, maxHeader) && |r.body| < TWO63
    ensures Headed(MessageFor(r))
    ensures Framed(MessageFor(r)) <==> HonestRequestLine(r)
  {
    hide LastPieceStart, RequestLineParts, D.DeclaredLength, D.ContentLengthOf, Kept, NormalLines, Normalize,
         ValidFields, Index, Block;
    EmptyRequestLine();
    NormalizeBlock(r.lines, |r.body|);
    NormalFields(r.lines, |r.body|);
    var ns := NormalLines(r.lines, |r.body|);
    assert ns == [ns[0]] + ns[1..];
    ValidFieldsSplit(ns[0], ns[1..]);
    MarkerLast(ns);
    DeclaredIs(r.lines, |r.body|);
  }

  // ---- byte-exactness ----

  /** One framed message through both machines, cut after any number of its frames. */
  lemma OneMessage(h: IdFn, st: EncState, m: Message, ds: D.DecState, flushed: seq<bytes>, j: nat)
    requires Framed(m) && EncInv(h, st) && TableOk(st.table) && FaithfulRun(h, st, MessagePieces(m))
    requires ds.table == st.table && ds.asm == D.Idle(flushed)
    requires j <= |EmitAll(h, st, MessagePieces(m)).frames|
    ensures var e := EmitAll(h, st, MessagePieces(m));
            var r := D.RunFrames(ds, e.frames[..j]);
            && EncInv(h, e.st) && TableOk(e.st.table) && e.frames != []
            && r.Ok?
            && (j < |e.frames| ==> r.value.asm.flushed == flushed)
            && (j == |e.frames| ==> r.value == D.DecState(e.st.table, ds.epoch, D.Idle(flushed + [Truth(m)])))
  {
    hide MessagePieces, EncInv, TableOk, FaithfulRun, EmitAll, Emit, Headed, ReachedLast, OnlyLast, PiecesBytes,
         Truth, Partial, Awaited;
    var ps := MessagePieces(m);
    MessagePartition(m);
    FramedIsOnlyLast(m);
    StartPartial(m, flushed);
    MessageDecodes(h, st, m, [], ps, ds, flushed, j);
    SomeFrames(h, st, ps);
  }

  lemma SomeFrames(h: IdFn, st: EncState, ps: seq<Piece>)
    requires ps != []
    ensures EmitAll(h, st, ps).frames != []
  {}

  /** How many messages have all their frames within the first `j` frames of the run. */
  function WholeMessages(h: IdFn, st: EncState, ms: seq<Message>, j: nat): (k: nat)
    ensures k <= |ms|
    decreases |ms|
  {
    if ms == [] then 0
    else
      var e := EmitAll(h, st, MessagePieces(ms[0]));
      if j < |e.frames| then 0 else 1 + WholeMessages(h, e.st, ms[1..], j - |e.frames|)
  }

  /** The run invariant: after any number of frames the decoder is error-free and has written
      exactly the messages whose frames are all in, each once and whole; at the end of the
      run both dictionaries are equal and nothing is pending. */
  lemma {:induction false} RunDecodes(
    h: IdFn, st: EncState, ms: seq<Message>, ds: D.DecState, flushed: seq<bytes>, j: nat)
    requires forall m <- ms :: Framed(m)
    requires EncInv(h, st) && TableOk(st.table) && FaithfulRun(h, st, RunPieces(ms))
    requires ds.table == st.table && ds.asm == D.Idle(flushed)
    requires j <= |RunEmission(h, st, ms).frames|
    ensures var e := RunEmission(h, st, ms);
            var r := D.RunFrames(ds, e.frames[..j]);
            && r.Ok?
            && r.value.asm.flushed == flushed + Truths(ms[..WholeMessages(h, st, ms, j)])
            && (j == |e.frames| ==>
                  r.value == D.DecState(e.st.table, ds.epoch, D.Idle(flushed + Truths(ms))))
    decreases |ms|
  {
    hide EncInv, TableOk, Framed, MessagePieces, EmitAll, Emit, D.Step, RunEmission, FaithfulRun, Truth;
    if ms == [] {
      assert flushed + Truths(ms) == flushed && ms[..0] == [];
      RunOfNone(h, st);
    } else {
      var m, ps := ms[0], MessagePieces(ms[0]);
      var e := EmitAll(h, st, ps);
      var more := RunEmission(h, e.st, ms[1..]).frames;
      RunSplit(h, st, ms);
      CutConcat(e.frames, more, j);
      if j < |e.frames| {
        OneMessage(h, st, m, ds, flushed, j);
        assert ms[..0] == [] && flushed + [] == flushed;
      } else {
        OneMessage(h, st, m, ds, flushed, |e.frames|);
        assert e.frames[..|e.frames|] == e.frames;
        var k := j - |e.frames|;
        var w := WholeMessages(h, e.st, ms[1..], k);
        var ds1 := D.DecState(e.st.table, ds.epoch, D.Idle(flushed + [Truth(m)]));
        RunDecodes(h, e.st, ms[1..], ds1, flushed + [Truth(m)], k);
        D.RunFramesAppend(ds, e.frames, more[..k]);
        TruthsCons(ms, w + 1, flushed);
        TruthsCons(ms, |ms|, flushed);
        assert ms[..|ms|] == ms && ms[1..][..|ms| - 1] == ms[1..];
      }
    }
  }

  /** A run is its first message and then the rest. */
  lemma RunSplit(h: IdFn, st: EncState, ms: seq<Message>)
    requires ms != []
    ensures var e := EmitAll(h, st, MessagePieces(ms[0]));
            var rest := RunEmission(h, e.st, ms[1..]);
            && RunEmission(h, st, ms) == Emission(rest.st, e.frames + rest.frames)
            && (FaithfulRun(h, st, RunPieces(ms)) <==>
                FaithfulRun(h, st, MessagePieces(ms[0])) && FaithfulRun(h, e.st, RunPieces(ms[1..])))
  {
    hide MessagePieces, EmitAll, FaithfulRun;
    FaithfulRunAppend(h, st, MessagePieces(ms[0]), RunPieces(ms[1..]));
    EmitAllAppend(h, st, MessagePieces(ms[0]), RunPieces(ms[1..]));
  }

  lemma RunOfNone(h: IdFn, st: EncState)
    ensures RunEmission(h, st, []) == Emission(st, [])
  {}

  // ---- when exactly a run of messages is written one by one ----

  lemma {:induction false} RunNonempty(ms: seq<Message>)
    ensures Nonempty(RunPieces(ms)) && AllNonempty(PieceData(RunPieces(ms)))
  {
    hide MessagePieces, PieceBytes;
    if ms != [] {
      MessagePartition(ms[0]);
      RunNonempty(ms[1..]);
    }
    assert PieceData(RunPieces(ms)) + [] == PieceData(RunPieces(ms));
    DataNonempty(RunPieces(ms), []);
  }

  /** Pushed the pieces of a run, the decoder's first write is the first message alone exactly
      when that message is framed. */
  lemma FirstMessage(ms: seq<Message>, flushed: seq<bytes>)
    requires ms != [] && Headed(ms[0])
    ensures var m, data := ms[0], PieceData(RunPieces(ms));
            var r := D.PushAll(D.Idle(flushed), data);
            && (Framed(m) ==> r == D.PushAll(D.Idle(flushed + [Truth(m)]), PieceData(RunPieces(ms[1..]))))
            && (!Framed(m) ==> r.Err? || !(flushed + [Truth(m)] <= r.value.flushed))
  {
    hide Headed, Framed, MessagePieces, PiecesBytes, PieceBytes, Truth, Partial, Awaited, OnlyLast, Nonempty,
         AllNonempty, D.Push;
    var m, ps, rest := ms[0], MessagePieces(ms[0]), RunPieces(ms[1..]);
    var flat := PieceData(ps) + PieceData(rest);
    PieceDataAppend(ps, rest);
    FramedIsOnlyLast(m);
    MessagePartition(m);
    assert Nonempty(ps) by {
      ShapedNonempty(ps);
    }
    StartPartial(m, flushed);
    RunNonempty(ms[1..]);
    var r := D.PushAll(D.Idle(flushed), flat);
    if Framed(m) {
      PushesExactly(m, flushed);
      D.PushAllAppend(D.Idle(flushed), PieceData(ps), PieceData(rest));
    } else if r.Ok? && flushed + [Truth(m)] <= r.value.flushed {
      FirstWrite(m, [], ps, PieceData(rest), flushed);
    }
  }

  /** Pushed the pieces of a run of messages, the decoder writes them one by one, each whole,
      exactly when every one of them is framed; and then nothing stays pending. */
  lemma {:induction false} RunPushesExactly(ms: seq<Message>, flushed: seq<bytes>)
    requires forall m <- ms :: Headed(m)
    ensures var r := D.PushAll(D.Idle(flushed), PieceData(RunPieces(ms)));
            && (r.Ok? && r.value.flushed == flushed + Truths(ms) <==> forall m <- ms :: Framed(m))
            && ((forall m <- ms :: Framed(m)) ==> r == Ok(D.Idle(flushed + Truths(ms))))
    decreases |ms|
  {
    hide Headed, Framed, MessagePieces, Truth, PieceData, D.Push;
    if ms == [] {
      assert flushed + Truths(ms) == flushed;
      assert PieceData(RunPieces(ms)) == [] by {
        NoData();
      }
    } else {
      var t := Truth(ms[0]);
      FirstMessage(ms, flushed);
      RunPushesExactly(ms[1..], flushed + [t]);
      Assoc(flushed, [t], Truths(ms[1..]));
      assert flushed + [t] <= flushed + Truths(ms) by {
        assert flushed + Truths(ms) == flushed + [t] + Truths(ms[1..]);
      }
      FirstOrRest(ms);
    }
  }

  lemma NoData()
    ensures PieceData([]) == []
  {}

  lemma FirstOrRest(ms: seq<Message>)
    requires ms != []
    ensures (forall m <- ms :: Framed(m)) <==> Framed(ms[0]) && forall m <- ms[1..] :: Framed(m)
  {
    hide Framed;
    assert forall m :: m in ms <==> m == ms[0] || m in ms[1..];
  }

  /** A faithful run over the wire: the decoder ends having written exactly the messages, each
      once and whole, exactly when every one of them is framed. */
  lemma RunDecodesExactly(h: IdFn, st: EncState, ms: seq<Message>, ds: D.DecState, flushed: seq<bytes>)
    requires forall m <- ms :: Headed(m)
    requires EncInv(h, st) && TableOk(st.table) && FaithfulRun(h, st, RunPieces(ms))
    requires ds.table == st.table && ds.asm == D.Idle(flushed)
    ensures var r := D.RunFrames(ds, RunEmission(h, st, ms).frames);
            r.Ok? && r.value.asm.flushed == flushed + Truths(ms) <==> forall m <- ms :: Framed(m)
  {
    hide EncInv, TableOk, FaithfulRun, Headed, Framed, EmitAll, Truth, MessagePieces, DeliversAs, D.Step, AnyShape;
    var ps := RunPieces(ms);
    RunPartition(ms);
    RunSurvives(h, st, ps);
    RunIsPushes(h, st, ps, PieceData(ps), ds);
    RunPushesExactly(ms, flushed);
  }

  lemma TruthsCons(ms: seq<Message>, k: nat, flushed: seq<bytes>)
    requires 1 <= k <= |ms|
    ensures flushed + [Truth(ms[0])] + Truths(ms[1..][..k - 1]) == flushed + Truths(ms[..k])
  {
    hide Truth;
    assert ms[..k][0] == ms[0] && ms[..k][1..] == ms[1..][..k - 1];
    Assoc(flushed, [Truth(ms[0])], Truths(ms[1..][..k - 1]));
  }

  lemma {:induction false} RunWritable(h: IdFn, st: EncState, ms: seq<Message>)
    requires forall m <- ms :: SmallMessage(m)
    ensures AllWritable(RunEmission(h, st, ms).frames)
  {
    RunPiecesSmall(ms);
    EmitAllWritable(h, st, RunPieces(ms));
  }

  /** Header and body each fit one frame. */
  predicate SmallMessage(m: Message) {
    |m.hdr| <= MAX_PAYLOAD && |m.body| <= MAX_PAYLOAD
  }

  lemma {:induction false} RunPiecesSmall(ms: seq<Message>)
    requires forall m <- ms :: SmallMessage(m)
    ensures forall p <- RunPieces(ms) :: |PieceBytes(p)| <= MAX_PAYLOAD
  {
    hide PieceBytes, PiecesBytes, HeaderPieces, BodyPieces, SmallMessage;
    if ms != [] {
      var m := ms[0];
      RunPiecesSmall(ms[1..]);
      forall p | p in MessagePieces(m)
        ensures |PieceBytes(p)| <= MAX_PAYLOAD
      {
        PieceSmall(m, p);
      }
      hide MessagePieces;
    }
  }

  lemma PieceSmall(m: Message, p: Piece)
    requires SmallMessage(m) && p in MessagePieces(m)
    ensures |PieceBytes(p)| <= MAX_PAYLOAD
  {
    HeaderPartition(m.hdr);
    BodyPartition(m.body);
    if p in HeaderPieces(m.hdr) {
      PieceWithin(HeaderPieces(m.hdr), p);
    } else {
      PieceWithin(BodyPieces(m.body), p);
    }
    hide HeaderPieces, BodyPieces, PiecesBytes, PieceBytes;
  }

  lemma {:induction false} PieceWithin(ps: seq<Piece>, p: Piece)
    requires p in ps
    ensures |PieceBytes(p)| <= |PiecesBytes(ps)|
  {
    if p != ps[0] {
      PieceWithin(ps[1..], p);
    }
  }

  /** Every accepted request normalises to a message the writer takes. */
  lemma AcceptedSmall(r: Request)
    requires ValidHead(r.lines, MAX_HEADER) && |r.body| <= MAX_BODY
    ensures SmallMessage(MessageFor(r))
    ensures |HeaderFor(r)| <= MAX_HEADER + 26
  {
    hide RequestLineParts, NormalLines, Normalize, Block, LengthLine, ValidFields;
    NormalizeBlock(r.lines, |r.body|);
    NormalLength(r.lines, |r.body|);
    LengthLineShort(|r.body|);
  }

  /** The length line of a body within the limit takes at most 24 bytes. */
  lemma LengthLineShort(n: nat)
    requires n <= MAX_BODY
    ensures |LengthLine(n)| <= 24
  {
    hide Itoa;
    assert Pow10(8) == 100000000 by {
      assert Pow10(4) == 10000;
      assert Pow10(8) == 10000 * Pow10(4);
    }
    ItoaShort(n, 8);
  }

  /** Normalising adds at most the length line. */
  lemma NormalLength(ls: seq<bytes>, n: nat)
    requires ls != []
    ensures |Block(NormalLines(ls, n))| <= |Block(ls)| + |LengthLine(n)| + 2
  {
    hide IsFraming, Kept, LengthLine, Lines;
    var l0, kept, l := ls[0], Kept(ls[1..]), LengthLine(n);
    KeptShorter(ls[1..]);
    assert ls == [l0] + ls[1..];
    LinesFirst(l0, ls[1..]);
    LinesFirst(l0, kept);
    LinesAppend([l0] + kept, [l]);
    LinesFirst(l, []);
    assert [l] + [] == [l];
  }

  lemma LinesFirst(l: bytes, more: seq<bytes>)
    ensures |Lines([l] + more)| == |l| + 2 + |Lines(more)| && |Lines([])| == 0
  {
    assert ([l] + more)[1..] == more;
  }

  lemma {:induction false} KeptShorter(ls: seq<bytes>)
    ensures |Lines(Kept(ls))| <= |Lines(ls)|
  {
    hide IsFraming;
    if ls != [] && ls[0] != [] {
      KeptShorter(ls[1..]);
      if !IsFraming(ls[0]) {
        assert Kept(ls)[1..] == Kept(ls[1..]);
      }
    }
  }
}
