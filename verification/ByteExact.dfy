/** The headline results for arbitrary client input: what goes in comes out, byte for byte,
    however the wire is cut. */
module ByteExact {
  import opened Bytes
  import opened Numbers
  import opened Protocol
  import opened Splitter
  import opened EncoderSpec
  import opened Framing
  import opened Agreement
  import opened HttpRequest
  import opened Normalizer
  import opened Sessions
  import D = DecoderSpec

  /** The messages an input stream gives rise to: its accepted requests, normalised. */
  function Accepted(input: bytes): seq<Message> {
    MessagesFor(ReadRequests(input).requests)
  }

  /** The bytes the encoder puts on the wire for an input stream. */
  function Wire(h: IdFn, input: bytes): bytes {
    WireOf(RunEmission(h, START, Accepted(input)).frames)
  }

  /** Every accepted request line is honest about the length, as far as the decoder can tell. */
  predicate HonestInput(input: bytes) {
    forall r <- ReadRequests(input).requests :: HonestRequestLine(r)
  }

  lemma {:induction false} MessagesFramed(rs: seq<Request>)
    requires forall r <- rs :: AcceptedRequest(r)
    ensures forall m <- MessagesFor(rs) :: SmallMessage(m)
    ensures forall m <- MessagesFor(rs) :: Headed(m)
    ensures (forall r <- rs :: HonestRequestLine(r)) <==> forall m <- MessagesFor(rs) :: Framed(m)
  {
    hide Framed, Headed, HonestRequestLine, ValidHead, MessageFor, SmallMessage;
    if rs != [] {
      FirstOrRest(MessagesFor(rs));
      assert forall r :: r in rs <==> r == rs[0] || r in rs[1..];
      assert MessagesFor(rs)[1..] == MessagesFor(rs[1..]);
      assert AcceptedRequest(rs[0]);
      FramedExactly(rs[0], MAX_HEADER);
      AcceptedSmall(rs[0]);
      MessagesFramed(rs[1..]);
      assert rs[0] in rs;
    }
  }

  predicate AcceptedRequest(r: Request) {
    ValidHead(r.lines, MAX_HEADER) && |r.body| <= MAX_BODY
  }

  lemma InputMessages(input: bytes)
    ensures forall m <- Accepted(input) :: SmallMessage(m)
    ensures forall m <- Accepted(input) :: Headed(m)
    ensures HonestInput(input) <==> forall m <- Accepted(input) :: Framed(m)
  {
    AllAcceptedBounded(input);
    hide ReadRequests, ValidHead, Framed, Headed, SmallMessage, HonestRequestLine;
    assert forall r <- ReadRequests(input).requests :: AcceptedRequest(r);
    MessagesFramed(ReadRequests(input).requests);
  }

  /** The encoder never has a frame refused, whatever the input and whatever h. */
  lemma EncoderNeverFails(h: IdFn, input: bytes)
    ensures AllWritable(RunEmission(h, START, Accepted(input)).frames)
  {
    InputMessages(input);
    hide Accepted, SmallMessage, RunEmission;
    RunWritable(h, START, Accepted(input));
  }

  /** Byte-exactness: for every input stream whose accepted requests are honest and whose run
      is faithful, a fresh decoder reading the encoder's bytes ends cleanly, with nothing
      pending, the same dictionary, and exactly the truth stream written, one write per
      request. */
  lemma RunIsByteExact(h: IdFn, input: bytes)
    requires HonestInput(input) && FaithfulRun(h, START, RunPieces(Accepted(input)))
    ensures var out := D.RunBytes(D.FRESH, Wire(h, input));
            && out.ending == D.CleanEnd
            && out.st == D.DecState(RunEmission(h, START, Accepted(input)).st.table, 0,
                                    D.Idle(Truths(Accepted(input))))
            && D.Written(out.st) == Flatten(Truths(Accepted(input)))
  {
    var ms := Accepted(input);
    var fs := RunEmission(h, START, ms).frames;
    InputMessages(input);
    EncoderNeverFails(h, input);
    hide Accepted, HonestInput, Framed, SmallMessage, RunEmission, FaithfulRun;
    RunDecodes(h, START, ms, D.FRESH, [], |fs|);
    assert fs[..|fs|] == fs && [] + Truths(ms) == Truths(ms);
    FramesRoundTrip(fs);
    D.RunBytesIsRunFrames(D.FRESH, WireOf(fs));
  }

  /** The length hypothesis is exact: on a faithful run the decoder ends cleanly having written
      each accepted request once and whole exactly when every request line is honest; and then
      nothing stays pending. */
  lemma RunExactly(h: IdFn, input: bytes)
    requires FaithfulRun(h, START, RunPieces(Accepted(input)))
    ensures var out := D.RunBytes(D.FRESH, Wire(h, input));
            && (out.ending == D.CleanEnd && out.st.asm.flushed == Truths(Accepted(input)) <==> HonestInput(input))
            && (HonestInput(input) ==> out.st.asm == D.Idle(Truths(Accepted(input))))
  {
    var ms := Accepted(input);
    var fs := RunEmission(h, START, ms).frames;
    InputMessages(input);
    EncoderNeverFails(h, input);
    hide Accepted, HonestInput, Framed, Headed, SmallMessage, RunEmission, FaithfulRun;
    RunDecodesExactly(h, START, ms, D.FRESH, []);
    assert [] + Truths(ms) == Truths(ms);
    FramesRoundTrip(fs);
    D.RunBytesIsRunFrames(D.FRESH, WireOf(fs));
    if HonestInput(input) {
      RunIsByteExact(h, input);
    }
  }

  /** Cutting the wire anywhere: the decoder has written a whole number of leading requests,
      exactly those whose frames are all before the cut, and reports no protocol error; it takes
      the cut for a clean end exactly at a frame boundary or right after a bare frame header. */
  lemma CutRunIsPrefix(h: IdFn, input: bytes, k: nat)
    requires HonestInput(input) && FaithfulRun(h, START, RunPieces(Accepted(input)))
    requires k <= |Wire(h, input)|
    ensures var ms := Accepted(input);
            var fs := RunEmission(h, START, ms).frames;
            var j := WholeFrames(fs, k);
            var cut := k - |WireOf(fs[..j])|;
            var out := D.RunBytes(D.FRESH, Wire(h, input)[..k]);
            && out.ending == (if cut == 0 || cut == HEADER_SIZE then D.CleanEnd
                              else D.BadFrame(FrameError.UnexpectedEof))
            && out.st.asm.flushed == Truths(ms[..WholeMessages(h, START, ms, j)])
  {
    var ms := Accepted(input);
    var fs := RunEmission(h, START, ms).frames;
    var j := WholeFrames(fs, k);
    InputMessages(input);
    EncoderNeverFails(h, input);
    hide Accepted, HonestInput, Framed, SmallMessage, RunEmission, FaithfulRun, WholeMessages;
    RunDecodes(h, START, ms, D.FRESH, [], j);
    assert [] + Truths(ms[..WholeMessages(h, START, ms, j)]) == Truths(ms[..WholeMessages(h, START, ms, j)]);
    ReadPrefix(fs, k);
    D.RunBytesIsRunFrames(D.FRESH, WireOf(fs)[..k]);
  }

  // ---- the hypotheses in plain terms ----

  /** Every body template of the run has a key of at most 65535 bytes. */
  predicate ShortKeys(input: bytes) {
    forall r <- ReadRequests(input).requests :: ShortBody(r.body)
  }

  predicate ShortBody(body: bytes) {
    forall p <- BodyPieces(body) :: p.Seg? ==> |p.constA| < TWO16
  }

  lemma ShortBodyPiece(p: Piece)
    requires WellShaped(p, Body) && (p.Seg? ==> |p.constA| < TWO16)
    ensures ShortConsts(p)
  {}

  /** Header templates are always short enough: the header limit sees to it. */
  lemma HeaderShort(r: Request, p: Piece)
    requires AcceptedRequest(r) && p in HeaderPieces(HeaderFor(r))
    ensures ShortConsts(p)
  {
    hide AcceptedRequest, NormalLines, HeaderLinePiece, WellShaped, PiecesBytes, HeaderFor;
    AcceptedPieces(r);
    var parts := NormalLines(r.lines, |r.body|) + [[]] + [[]];
    HeaderPartition(HeaderFor(r));
    NormalLineShort(r);
    assert forall q <- parts :: q in NormalLines(r.lines, |r.body|) || q == [];
    PartsBounded(parts, p, MAX_HEADER);
    HeaderConsts(p);
  }

  lemma HeaderConsts(p: Piece)
    requires WellShaped(p, Header) && |PieceBytes(p)| <= MAX_HEADER
    ensures ShortConsts(p)
  {}

  /** The header of an accepted request is cut at its normal lines. */
  lemma AcceptedPieces(r: Request)
    requires AcceptedRequest(r)
    ensures r.lines != [] && HeaderPieces(HeaderFor(r)) == PartsPieces(NormalLines(r.lines, |r.body|) + [[]] + [[]])
  {
    hide RequestLineParts, NormalLines, Normalize, Block, PartsPieces;
    var ns := NormalLines(r.lines, |r.body|);
    NormalizeBlock(r.lines, |r.body|);
    NormalFields(r.lines, |r.body|);
    HeadLfFree(ns);
    SplitBlock(ns);
  }

  lemma {:induction false} PartsBounded(parts: seq<bytes>, p: Piece, max: nat)
    requires parts != [] && p in PartsPieces(parts)
    requires forall q <- parts :: |q| + 2 <= max
    ensures |PieceBytes(p)| <= max
  {
    if |parts| > 1 && p != HeaderLinePiece(parts[0] + CRLF) {
      assert forall q <- parts[1..] :: q in parts;
      PartsBounded(parts[1..], p, max);
    } else {
      assert parts[0] in parts;
    }
  }

  lemma {:induction false} LineWithin(ls: seq<bytes>, l: bytes)
    requires l in ls
    ensures |l| + 2 <= |Lines(ls)|
  {
    if l != ls[0] {
      LineWithin(ls[1..], l);
    }
  }

  lemma NormalLineShort(r: Request)
    requires AcceptedRequest(r)
    ensures forall l <- NormalLines(r.lines, |r.body|) :: |l| + 2 <= MAX_HEADER
  {
    hide RequestLineParts, IsFraming;
    KeptValid(r.lines[1..]);
    assert Pow10(8) == 100000000 by {
      assert Pow10(4) == 10000;
      assert Pow10(8) == 10000 * Pow10(4);
    }
    ItoaShort(|r.body|, 8);
    forall l | l in NormalLines(r.lines, |r.body|)
      ensures |l| + 2 <= MAX_HEADER
    {
      if l != LengthLine(|r.body|) {
        assert l == r.lines[0] || l in r.lines[1..];
        LineWithin(r.lines, l);
      }
    }
  }

  lemma {:induction false} MessagesShort(rs: seq<Request>)
    requires forall r <- rs :: AcceptedRequest(r)
    requires forall r <- rs :: ShortBody(r.body)
    ensures forall p <- RunPieces(MessagesFor(rs)) :: ShortConsts(p)
  {
    hide AcceptedRequest, ShortConsts, HeaderPieces, BodyPieces, HeaderFor;
    if rs != [] {
      var r := rs[0];
      assert r in rs;
      forall p | p in MessagePieces(MessageFor(r))
        ensures ShortConsts(p)
      {
        if p in HeaderPieces(HeaderFor(r)) {
          HeaderShort(r, p);
        } else {
          BodyPartition(r.body);
          assert p in BodyPieces(r.body);
          ShortBodyPiece(p);
        }
      }
      MessagesShort(rs[1..]);
      var ms := MessagesFor(rs);
      assert ms[0] == MessageFor(r) && ms[1..] == MessagesFor(rs[1..]);
      hide MessageFor, MessagePieces;
    }
  }

  /** Byte-exactness under the plain hypotheses: honest request lines, keys below 64 KiB, and
      an h that keeps the run's templates apart. */
  lemma InjectiveRunIsByteExact(h: IdFn, input: bytes)
    requires HonestInput(input) && ShortKeys(input)
    requires InjectiveOn(h, RunPieces(Accepted(input)))
    ensures var out := D.RunBytes(D.FRESH, Wire(h, input));
            && out.ending == D.CleanEnd
            && D.Written(out.st) == Flatten(Truths(Accepted(input)))
  {
    AllAcceptedBounded(input);
    hide ReadRequests, ValidHead, ShortBody;
    var rs := ReadRequests(input).requests;
    assert forall r <- rs :: AcceptedRequest(r);
    MessagesShort(rs);
    InjectiveRunFaithful(h, RunPieces(Accepted(input)));
    RunIsByteExact(h, input);
  }

  /** With ids that collide in any way: after any number of frames the decoder's dictionary is
      what the frames define, at the end it is the encoder's, and the only error it can have
      met is a request whose bytes no longer declare a length. */
  lemma AnyIdsAgree(h: IdFn, input: bytes, k: nat)
    requires ShortKeys(input)
    requires k <= |RunEmission(h, START, Accepted(input)).frames|
    ensures var e := RunEmission(h, START, Accepted(input));
            && D.TableAfter(map[], e.frames) == e.st.table
            && match D.RunFrames(D.FRESH, e.frames[..k])
               case Ok(st) => st.table == D.TableAfter(map[], e.frames[..k])
               case Err(err) => err == D.MissingContentLength
  {
    AllAcceptedBounded(input);
    hide ReadRequests, ValidHead, ShortBody, EmitAll, D.Step;
    var rs := ReadRequests(input).requests;
    assert forall r <- rs :: AcceptedRequest(r);
    MessagesShort(rs);
    var ps := RunPieces(Accepted(input));
    forall p | p in ps
      ensures Fits16(p)
    {
      assert ShortConsts(p);
    }
    DictionariesAgree(h, START, ps);
    RefNeverBeforeDefine(h, ps, k);
  }

  // ---- from what clients send to what the backend gets ----

  /** A request a client may send that meets the hypotheses. */
  predicate GoodSent(m: Sent) {
    ValidSent(m) && HonestRequestLine(Received(m)) && ShortBody(BodyOf(m))
  }

  lemma {:induction false} AllReceived(ms: seq<Sent>)
    requires forall m <- ms :: GoodSent(m)
    ensures forall m <- ms :: ValidSent(m)
    ensures forall r <- ReceivedAll(ms) :: HonestRequestLine(r) && ShortBody(r.body)
    ensures |ReceivedAll(ms)| == |ms| && forall i :: 0 <= i < |ms| ==> ReceivedAll(ms)[i].body == BodyOf(ms[i])
    decreases |ms|
  {
    hide ValidSent, HonestRequestLine, ShortBody, BodyOf;
    forall m | m in ms
      ensures ValidSent(m)
    {
      assert GoodSent(m);
    }
    if ms != [] {
      assert GoodSent(ms[0]);
      AllReceived(ms[1..]);
    }
  }

  /** Any list of requests, in either framing and with any chunking, sent down one connection:
      the backend gets exactly their normalised headers and their bodies, in order. */
  lemma SentIsDelivered(h: IdFn, ms: seq<Sent>)
    requires forall m <- ms :: GoodSent(m)
    ensures forall m <- ms :: ValidSent(m)
    ensures InjectiveOn(h, RunPieces(MessagesFor(ReceivedAll(ms)))) ==>
              var out := D.RunBytes(D.FRESH, Wire(h, SentAll(ms)));
              && out.ending == D.CleanEnd
              && D.Written(out.st) == Flatten(Truths(MessagesFor(ReceivedAll(ms))))
  {
    AllReceived(ms);
    hide ReadRequests, GoodSent, ValidSent, HonestRequestLine, ShortBody, InjectiveOn, D.RunBytes, Wire;
    PipelinedInverse(ms);
    assert ReadRequests(SentAll(ms)).requests == ReceivedAll(ms);
    if InjectiveOn(h, RunPieces(MessagesFor(ReceivedAll(ms)))) {
      InjectiveRunIsByteExact(h, SentAll(ms));
    }
  }
}
