/** Both ends of a connection together: an encoder that reads a client, and a decoder that
    reads what the encoder wrote. */
module Link {
  import opened Bytes
  import opened Streams
  import opened Protocol
  import opened EncoderSpec
  import opened Framing
  import opened Agreement
  import opened HttpRequest
  import opened Sessions
  import opened ByteExact
  import D = DecoderSpec
  import E = Encoder
  import R = Decoder
  import L = Learning
  import W = RawWindow

  /** The run of the first k requests is the front of the run of all of them. */
  lemma {:induction false} RunPiecesSplit(ms: seq<Message>, k: nat)
    requires k <= |ms|
    ensures RunPieces(ms) == RunPieces(ms[..k]) + RunPieces(ms[k..])
  {
    hide MessagePieces;
    if k == 0 {
      assert ms[..0] == [] && ms[0..] == ms;
      assert [] + RunPieces(ms) == RunPieces(ms);
    } else {
      RunPiecesSplit(ms[1..], k - 1);
      assert ms[..k][0] == ms[0] && ms[..k][1..] == ms[1..][..k - 1] && ms[k..] == ms[1..][k - 1..];
      Assoc(MessagePieces(ms[0]), RunPieces(ms[1..][..k - 1]), RunPieces(ms[k..]));
    }
  }

  /** At every request boundary of a faithful run the decoder has written exactly what the
      encoder has put into its own window, so windows of equal size show the same bytes; and
      the two dictionaries are equal. */
  lemma WindowsAgree(h: IdFn, input: bytes, k: nat, size: nat)
    requires HonestInput(input) && FaithfulRun(h, START, RunPieces(Accepted(input)))
    requires k <= |Accepted(input)|
    ensures var ms := Accepted(input)[..k];
            var e := RunEmission(h, START, ms);
            var r := D.RunFrames(D.FRESH, e.frames);
            && e.frames <= RunEmission(h, START, Accepted(input)).frames
            && r.Ok? && r.value == D.DecState(e.st.table, 0, D.Idle(Truths(ms)))
            && W.LastN(D.Written(r.value), size) == W.LastN(Flatten(Truths(ms)), size)
  {
    hide Accepted, HonestInput, Framed, Headed, SmallMessage, FaithfulRun, D.Step, EmitAll, Truth;
    var all := Accepted(input);
    var ms := all[..k];
    InputMessages(input);
    RunPiecesSplit(all, k);
    FaithfulRunAppend(h, START, RunPieces(ms), RunPieces(all[k..]));
    EmitAllAppend(h, START, RunPieces(ms), RunPieces(all[k..]));
    var fs := RunEmission(h, START, ms).frames;
    RunDecodes(h, START, ms, D.FRESH, [], |fs|);
    assert fs[..|fs|] == fs && [] + Truths(ms) == Truths(ms);
  }

  /** An encoder with an empty dictionary, an empty window and a new learner is ready. */
  method NewEncoder(h: IdFn, keys: L.KeyFn, client: Source, destination: Sink) returns (enc: E.Encoder)
    requires destination.out == []
    ensures fresh(enc) && fresh(enc.window) && fresh(enc.window.buf) && fresh(enc.learner)
    ensures enc.idFor == h && enc.source == client && enc.destination == destination
    ensures enc.Ready() && enc.State() == START && enc.frames == [] && enc.sentBefore == []
    ensures enc.window.history == [] && enc.spanStats == map[] && enc.learner.stats == map[]
  {
    hide EncInv, WireOf;
    StartReady(h);
    var learner := new L.Aggregator(keys, E.RAW_WINDOW_BYTES);
    var fwd := new W.RawWindow(E.RAW_WINDOW_BYTES);
    enc := new E.Encoder(h, client, destination, fwd, learner);
  }

  /** The forward lane in encoding mode, from fresh state. */
  method EncodeLane(h: IdFn, keys: L.KeyFn, input: bytes) returns (wire: bytes, window: bytes)
    ensures wire == Wire(h, input)
    ensures window == W.LastN(Flatten(Truths(Accepted(input))), E.RAW_WINDOW_BYTES)
  {
    hide RunEmission, WireOf, Flatten, ReadRequests, W.LastN, EncInv, E.Encoder.Learned;
    var client := new Source(input);
    var destination := new Sink();
    var enc := NewEncoder(h, keys, client, destination);
    var _ := enc.Run();
    NothingBefore(WireOf(enc.frames), RunEmission(h, START, Accepted(input)).frames, Flatten(Truths(Accepted(input))));
    wire := destination.out;
    window := enc.window.Snapshot();
  }

  /** The forward lane in decoding mode, from fresh state. */
  method DecodeLane(wire: bytes) returns (backend: bytes, window: bytes)
    ensures backend == D.Written(D.RunBytes(D.FRESH, wire).st)
    ensures window == W.LastN(backend, E.RAW_WINDOW_BYTES)
  {
    hide D.RunBytes, Flatten, W.LastN;
    var line := new Source(wire);
    var out := new Sink();
    var fwd := new W.RawWindow(E.RAW_WINDOW_BYTES);
    var dec := new R.Decoder(line, out, fwd);
    var _ := dec.Run();
    assert [] + Flatten(dec.flushed) == Flatten(dec.flushed);
    backend := out.out;
    window := fwd.Snapshot();
  }

  /** A client's bytes through an encoder and then a decoder: the backend gets the truth
      stream, and both windows show the stretch of it that the learner's bounds name. */
  method Relay(h: IdFn, keys: L.KeyFn, input: bytes)
    returns (backend: bytes, encoderWindow: bytes, decoderWindow: bytes)
    requires HonestInput(input) && FaithfulRun(h, START, RunPieces(Accepted(input)))
    ensures var truth := Flatten(Truths(Accepted(input)));
            && backend == truth
            && encoderWindow == decoderWindow == truth[E.WindowStart(|truth|)..|truth|]
            && E.WindowStart(|truth|) == if |truth| <= 2 * 1024 * 1024 then 0 else |truth| - 2 * 1024 * 1024
  {
    hide HonestInput, FaithfulRun, Accepted, D.RunBytes, RunEmission;
    var wire;
    wire, encoderWindow := EncodeLane(h, keys, input);
    backend, decoderWindow := DecodeLane(wire);
    RunIsByteExact(h, input);
    E.WindowIsTruthRange(Flatten(Truths(Accepted(input))));
  }

  lemma StartReady(h: IdFn)
    ensures EncInv(h, START) && WireOf([]) == []
  {}

  lemma NothingBefore(b: bytes, fs: seq<Frame>, history: bytes)
    ensures [] + b == b && [] + fs == fs && [] + history == history
  {}
}
