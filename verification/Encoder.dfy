/** The encoder as it runs: requests in, frames out, with its dictionary, its hit counters, the
    observation window and the learner updated in place. */
module Encoder {
  import opened Bytes
  import opened Numbers
  import opened Streams
  import opened Protocol
  import opened Splitter
  import opened DecoderSpec
  import opened EncoderSpec
  import opened HttpRequest
  import opened Framing
  import opened Sessions
  import opened Normalizer
  import HttpReader
  import TemplateCodec
  import FrameIo
  import L = Learning
  import P = Promotion
  import W = RawWindow

  const RAW_WINDOW_BYTES: nat := 2 * 1024 * 1024

  class SpanStat {
    var hits: u32
    var defined: bool

    constructor ()
      ensures hits == 0 && !defined
    {
      hits, defined := 0, false;
    }
  }

  /** The frame types an encoder may emit. */
  predicate KnownType(kind: byte) {
    kind in {RAW_DATA, TEMPLATE_DEFINE, TEMPLATE_REF, TEMPLATE_INLINE, EPOCH_RESET}
  }

  /** The values of all counters. */
  ghost function Infos(m: map<u16, SpanStat>): map<u16, SpanInfo>
    reads m.Values
  {
    map id | id in m :: SpanInfo(m[id].hits, m[id].defined)
  }

  lemma InfosAt(m: map<u16, SpanStat>)
    ensures Infos(m).Keys == m.Keys && forall id <- m :: Infos(m)[id] == SpanInfo(m[id].hits, m[id].defined)
  {}

  lemma InfosWith(m: map<u16, SpanStat>, id: u16, s: SpanStat)
    ensures Infos(m[id := s]) == Infos(m)[id := SpanInfo(s.hits, s.defined)]
  {}

  lemma InfosSame(m: map<u16, SpanStat>, id: u16)
    requires id in m
    ensures Infos(m)[id := Infos(m)[id]] == Infos(m)
  {}

  datatype EncodeError = ReadFailed(http: HttpError)

  class Encoder {
    const idFor: IdFn
    const source: Source
    const destination: Sink
    const window: W.RawWindow
    const learner: L.Aggregator
    var templates: Table
    var spanStats: map<u16, SpanStat>
    var wireOut: nat
    var packetID: nat
    var truthOffset: nat
    // Frames written, what the destination held before them, and bytes counted in wireOut
    // for frames the writer refused.
    ghost var frames: seq<Frame>
    ghost const sentBefore: bytes
    ghost var refused: nat
    // The observations handed to the learner, packet by packet.
    ghost var observed: seq<seq<SpanObservation>>

    /** The emission state: distinct counters per id, and a destination that holds exactly the
        frames written, all of them counted. */
    ghost predicate Valid()
      reads this`spanStats, this`frames, this`wireOut, this`refused, destination
    {
      && (forall i, j :: i in spanStats && j in spanStats && spanStats[i] == spanStats[j] ==> i == j)
      && destination.out == sentBefore + WireOf(frames)
      && wireOut == |WireOf(frames)| + refused
    }

    ghost function State(): EncState
      reads this`templates, this`spanStats, spanStats.Values
    {
      EncState(templates, Infos(spanStats))
    }

    constructor (h: IdFn, src: Source, dst: Sink, win: W.RawWindow, learn: L.Aggregator)
      ensures Valid() && State() == START && frames == [] && refused == 0
      ensures idFor == h && source == src && destination == dst && window == win && learner == learn
      ensures packetID == 0 && truthOffset == 0 && spanStats == map[] && observed == []
      ensures sentBefore == dst.out
    {
      idFor, source, destination, window, learner := h, src, dst, win, learn;
      templates, spanStats := map[], map[];
      wireOut, packetID, truthOffset := 0, 0, 0;
      frames, refused, observed := [], 0, [];
      sentBefore := dst.out;
    }

    /** `writeFrameCount`: the only way onto the wire; every attempt with a known type is
        counted. */
    method WriteFrameCount(kind: byte, payload: bytes) returns (err: Option<FrameIo.WriteError>)
      requires Valid()
      modifies this`wireOut, this`frames, this`refused, destination
      ensures Valid()
      ensures err == None <==> Writable(Frame(kind, payload))
      ensures frames == old(frames) + if err == None then [Frame(kind, payload)] else []
      ensures refused == old(refused) + if err == None || !KnownType(kind) then 0 else HEADER_SIZE + |payload|
    {
      hide FrameBytes;
      if !KnownType(kind) {
        return Some(FrameIo.UnknownShape);
      }
      wireOut := wireOut + HEADER_SIZE + |payload|;
      err := FrameIo.WriteFrame(destination, kind, 0, payload);
      if err == None {
        ghost var f := Frame(kind, payload);
        WireOfAppend(frames, [f]);
        assert [f][1..] == [] && WireOf([f]) == FrameBytes(f) + [];
        Assoc(sentBefore, WireOf(frames), FrameBytes(f));
        frames := frames + [f];
      } else {
        refused := refused + HEADER_SIZE + |payload|;
      }
    }

    /** A piece that is not split. */
    method EmitRaw(data: bytes) returns (err: Option<FrameIo.WriteError>)
      requires Valid()
      modifies this`wireOut, this`frames, this`refused, destination
      ensures Valid()
      ensures err == None <==> AllWritable(Emit(idFor, old(State()), Raw(data)).frames)
      ensures err == None ==>
                State() == Emit(idFor, old(State()), Raw(data)).st
                && frames == old(frames) + Emit(idFor, old(State()), Raw(data)).frames
                && refused == old(refused)
      ensures old(frames) <= frames
    {
      err := WriteFrameCount(RAW_DATA, data);
    }

    /** The counter of an id, created at zero on first sight. */
    method CounterFor(tid: u16) returns (st: SpanStat)
      requires Valid()
      modifies this`spanStats
      ensures Valid() && fresh(spanStats.Values - old(spanStats.Values))
      ensures tid in spanStats && spanStats[tid] == st && SpanInfo(st.hits, st.defined) == StatOf(old(State()), tid)
      ensures State() == old(State()).(spans := old(State()).spans[tid := StatOf(old(State()), tid)])
    {
      hide Infos;
      InfosAt(spanStats);
      if tid !in spanStats {
        var created := new SpanStat();
        InfosWith(spanStats, tid, created);
        spanStats := spanStats[tid := created];
      } else {
        InfosSame(spanStats, tid);
      }
      st := spanStats[tid];
    }

    /** `st.Hits++`, which touches no other counter. */
    method CountHit(st: SpanStat, ghost tid: u16)
      requires Valid() && tid in spanStats && spanStats[tid] == st
      modifies st`hits
      ensures Valid() && st.hits == (old(st.hits) + 1) % TWO32
      ensures State() == old(State()).(spans := old(State()).spans[tid := SpanInfo(st.hits, st.defined)])
    {
      st.hits := (st.hits + 1) % TWO32;
    }

    /** The dictionary takes the template and the id counts as defined. */
    method Remember(tid: u16, constA: bytes, constB: bytes)
      requires Valid() && tid in spanStats
      modifies this`templates, spanStats[tid]
      ensures Valid()
      ensures State() == EncState(
                old(State()).table[tid := Definition(tid, constA, constB)],
                old(State()).spans[tid := SpanInfo(old(spanStats[tid].hits), true)])
    {
      templates := templates[tid := Definition(tid, constA, constB)];
      spanStats[tid].defined := true;
    }

    /** `emitWithDelayedPromotionDefineRef`. */
    method EmitSegment(constA: bytes, lane: bytes, constB: bytes) returns (err: Option<FrameIo.WriteError>)
      requires Valid()
      modifies this`templates, this`spanStats, this`wireOut, this`frames, this`refused, spanStats.Values, destination
      ensures Valid() && fresh(spanStats.Values - old(spanStats.Values))
      ensures var e := Emit(idFor, old(State()), Seg(constA, lane, constB));
              && (err == None <==> AllWritable(e.frames))
              && (err == None ==> State() == e.st && frames == old(frames) + e.frames && refused == old(refused))
      ensures old(frames) <= frames
      ensures err == None ==> (State() != old(State()) <==> |constA| + |constB| > |lane|)
      ensures err == None && |constA| + |constB| <= |lane| ==>
                frames == old(frames) + [Frame(RAW_DATA, constA + lane + constB)]
    {
      hide Emit, AllWritable, Writable, Gain, Valid, State;
      ghost var p := Seg(constA, lane, constB);
      P.GateExact(idFor, State(), constA, lane, constB);
      EmitIsGain(idFor, State(), p);
      if |constA| + |constB| <= |lane| {
        err := WriteFrameCount(RAW_DATA, constA + lane + constB);
        OneWritable(RawFrame(PieceBytes(p)));
        return;
      }
      var tid := idFor(constA, constB);
      var st := CounterFor(tid);
      CountHit(st, tid);
      err := EmitCounted(constA, lane, constB, tid, st);
    }

    /** The rest of it, once the hit is counted: wait, refer, or define and refer. */
    method EmitCounted(constA: bytes, lane: bytes, constB: bytes, tid: u16, st: SpanStat)
      returns (err: Option<FrameIo.WriteError>)
      requires Valid() && tid == idFor(constA, constB) && tid in spanStats && spanStats[tid] == st
      modifies this`templates, this`wireOut, this`frames, this`refused, st, destination
      ensures Valid()
      ensures var e := Gain(idFor, old(State()), SpanInfo(old(st.hits), old(st.defined)), Seg(constA, lane, constB));
              && (err == None <==> AllWritable(e.frames))
              && (err == None ==> State() == e.st && frames == old(frames) + e.frames && refused == old(refused))
      ensures old(frames) <= frames
    {
      hide AllWritable, Writable, RefOrRaw, DefineFits, Valid, State;
      var raw := constA + lane + constB;
      ghost var p := Seg(constA, lane, constB);
      OneWritable(RawFrame(raw));
      OneWritable(RefOrRaw(idFor, p));
      TwoWritable(DefineFrame(DefinitionOf(idFor, p)), RefOrRaw(idFor, p));
      if st.hits < PROMOTE_AFTER_HITS {
        err := WriteFrameCount(RAW_DATA, raw);
        return;
      }
      if st.defined {
        err := EmitRefOrRaw(tid, lane, raw, p);
        return;
      }
      var defPayload := TemplateCodec.BuildTemplateDefinePayload(tid, constA, constB);
      if defPayload.None? {
        err := WriteFrameCount(RAW_DATA, raw);
        return;
      }
      err := WriteFrameCount(TEMPLATE_DEFINE, defPayload.value);
      if err != None {
        return;
      }
      Remember(tid, constA, constB);
      err := EmitRefOrRaw(tid, lane, raw, p);
    }

    /** A reference when it fits and is strictly shorter than the raw piece, else the piece. */
    method EmitRefOrRaw(tid: u16, lane: bytes, raw: bytes, ghost p: Piece) returns (err: Option<FrameIo.WriteError>)
      requires Valid() && p.Seg? && tid == IdOf(idFor, p) && lane == p.lane && raw == PieceBytes(p)
      modifies this`wireOut, this`frames, this`refused, destination
      ensures Valid()
      ensures err == None <==> Writable(RefOrRaw(idFor, p))
      ensures err == None ==> frames == old(frames) + [RefOrRaw(idFor, p)] && refused == old(refused)
      ensures old(frames) <= frames
    {
      var refPayload := TemplateCodec.BuildTemplateRefPayload(tid, lane);
      if refPayload.Some? && |refPayload.value| < |raw| {
        err := WriteFrameCount(TEMPLATE_REF, refPayload.value);
        return;
      }
      err := WriteFrameCount(RAW_DATA, raw);
    }

    // ---- cutting a request into pieces ----

    /** `trySplitHeaderLine`. */
    static method TrySplitHeaderLine(line: bytes) returns (constA: bytes, lane: bytes, constB: bytes, ok: bool)
      ensures HeaderLinePiece(line) == if ok then Seg(constA, lane, constB) else Raw(line)
    {
      constA, lane, constB, ok := [], [], [], false;
      if |line| < 2 || line[|line| - 2..] != CRLF {
        return;
      }
      var idx := Index(line, COLON_SPACE);
      if idx <= 0 {
        return;
      }
      ColonBeforeCrlf(line, idx);
      constA := line[..idx + 2];
      lane := line[idx + 2..|line| - 2];
      constB := CRLF;
      ok := true;
    }

    /** Emit the next piece on the way to a goal, raw or as a segment. */
    method EmitNext(p: Piece, ghost goal: Emission, ghost before: seq<Frame>, ghost sofar: seq<Frame>,
                    ghost rest: seq<Piece>)
      returns (err: Option<FrameIo.WriteError>, ghost now: seq<Frame>)
      requires Valid() && frames == before + sofar && Continues(idFor, goal, State(), sofar, [p] + rest)
      modifies this`templates, this`spanStats, this`wireOut, this`frames, this`refused, spanStats.Values, destination
      ensures Valid() && fresh(spanStats.Values - old(spanStats.Values)) && before <= frames
      ensures if err == None then
                frames == before + now && refused == old(refused) && Continues(idFor, goal, State(), now, rest)
              else !AllWritable(goal.frames)
    {
      hide Emit, AllWritable, Valid, State, Continues;
      ghost var e := Emit(idFor, State(), p);
      ContinueStep(idFor, goal, State(), sofar, p, rest);
      match p {
        case Raw(data) => err := EmitRaw(data);
        case Seg(constA, lane, constB) => err := EmitSegment(constA, lane, constB);
      }
      now := sofar + e.frames;
      Assoc(before, sofar, e.frames);
    }

    /** Emit the last, raw, piece on the way to a goal. */
    method EmitTail(data: bytes, ghost goal: Emission, ghost before: seq<Frame>, ghost sofar: seq<Frame>)
      returns (err: Option<FrameIo.WriteError>)
      requires Valid() && frames == before + sofar && Continues(idFor, goal, State(), sofar, [Raw(data)])
      modifies this`templates, this`spanStats, this`wireOut, this`frames, this`refused, spanStats.Values, destination
      ensures Valid() && fresh(spanStats.Values - old(spanStats.Values)) && before <= frames
      ensures err == None <==> AllWritable(goal.frames)
      ensures err == None ==> State() == goal.st && frames == before + goal.frames && refused == old(refused)
    {
      hide AllWritable, Valid, State, Continues;
      ghost var now;
      assert [Raw(data)] + [] == [Raw(data)];
      err, now := EmitNext(Raw(data), goal, before, sofar, []);
      if err == None {
        ContinueDone(idFor, goal, State(), now);
      }
    }

    /** `encodeHeaderLines`. */
    method EncodeHeaderLines(hdr: bytes) returns (err: Option<FrameIo.WriteError>)
      requires Valid()
      modifies this`templates, this`spanStats, this`wireOut, this`frames, this`refused, spanStats.Values, destination
      ensures Valid() && fresh(spanStats.Values - old(spanStats.Values))
      ensures SentAs(idFor, old(State()), old(frames), HeaderPieces(hdr), err, State(), frames)
      ensures err == None ==> refused == old(refused)
    {
      hide AllWritable, HeaderLinePiece, Valid, State, Split, EmitAll, PartsPieces, Continues;
      var lines := Split(hdr, CRLF);
      ghost var goal, sofar := EmitAll(idFor, State(), HeaderPieces(hdr)), [];
      Start(idFor, State(), HeaderPieces(hdr));
      assert lines[0..] == lines;
      var i := 0;
      while i < |lines|
        invariant i <= |lines|
        invariant Valid() && fresh(spanStats.Values - old(spanStats.Values))
        invariant frames == old(frames) + sofar && refused == old(refused)
        invariant Continues(idFor, goal, State(), sofar, PiecesFrom(lines, i))
      {
        var line := lines[i];
        if i < |lines| - 1 {
          line := line + CRLF;
        }
        PiecesFromStep(lines, i);
        i := i + 1;
        if |line| == 0 {
          assert [] + PiecesFrom(lines, i) == PiecesFrom(lines, i);
          continue;
        }
        var constA, lane, constB, ok := TrySplitHeaderLine(line);
        var p := if ok then Seg(constA, lane, constB) else Raw(line);
        err, sofar := EmitNext(p, goal, old(frames), sofar, PiecesFrom(lines, i));
        if err != None {
          return;
        }
      }
      ContinueDone(idFor, goal, State(), sofar);
      return None;
    }

    /** The delimiter choice of encodeInfluxLineKV: the nearest of three searches. */
    static method NearestDelim(s: bytes) returns (d: int)
      ensures d == FirstDelim(s)
    {
      var nextComma := IndexByte(s, COMMA);
      var nextSpace := IndexByte(s, SPACE);
      var nextNl := IndexByte(s, LF);
      d := -1;
      if nextComma >= 0 && (d < 0 || nextComma < d) {
        d := nextComma;
      }
      if nextSpace >= 0 && (d < 0 || nextSpace < d) {
        d := nextSpace;
      }
      if nextNl >= 0 && (d < 0 || nextNl < d) {
        d := nextNl;
      }
      NearestIsFirst(s, nextComma, nextSpace, nextNl, d);
    }

    /** The next segment of a line at the cursor, if there is one: its parts and where its
        delimiter is. */
    static method NextSegment(line: bytes, cur: nat)
      returns (found: bool, constA: bytes, lane: bytes, constB: bytes, delimIdx: nat)
      requires cur <= |line|
      ensures found <==> SegmentEnd(line[cur..]) >= 0
      ensures found ==> cur <= delimIdx < |line| && delimIdx - cur == SegmentEnd(line[cur..])
      ensures found ==> Segment(line[cur..]) == Seg(constA, lane, constB) && constB == [line[delimIdx]]
      ensures found ==> |constA| + |lane| + |constB| == delimIdx - cur + 1
    {
      hide SegmentEnd, Segment, IndexByte, FirstDelim;
      constA, lane, constB, delimIdx := [], [], [], 0;
      NoSegment(line[cur..]);
      var eq := IndexByte(line[cur..], EQUALS);
      if eq < 0 {
        return false, constA, lane, constB, delimIdx;
      }
      eq := cur + eq;
      constA := line[cur..eq + 1];
      var valStart := eq + 1;
      var delim := NearestDelim(line[valStart..]);
      SegmentParts(line, cur, valStart, delim);
      if delim <= 0 {
        return false, constA, lane, constB, delimIdx;
      }
      delimIdx := valStart + delim;
      lane := line[valStart..delimIdx];
      constB := [line[delimIdx]];
      found := true;
    }

    /** `encodeInfluxLineKV`: key/value segments until a space, a line end or a plain tail; each
        segment is observed at its place in the truth stream. */
    method EncodeInfluxLineKV(line: bytes, lineStartOffset: nat, obs: seq<SpanObservation>)
      returns (err: Option<FrameIo.WriteError>, seen: seq<SpanObservation>)
      requires Valid()
      modifies this`templates, this`spanStats, this`wireOut, this`frames, this`refused, spanStats.Values, destination
      ensures Valid() && fresh(spanStats.Values - old(spanStats.Values))
      ensures SentAs(idFor, old(State()), old(frames), LinePieces(line), err, State(), frames)
      ensures err == None ==> refused == old(refused)
      ensures err == None ==> seen == obs + Observations(LinePieces(line), lineStartOffset)
    {
      hide AllWritable, Valid, State, EmitAll, Observations, KeyValuePieces, Continues, Wrap32, SegmentEnd, Segment,
           AfterSegment;
      seen := obs;
      ghost var goal, sofar := EmitAll(idFor, State(), LinePieces(line)), [];
      ghost var allSeen := obs + Observations(LinePieces(line), lineStartOffset);
      Start(idFor, State(), LinePieces(line));
      if |line| < 2 || line[|line| - 1] != LF {
        ObserveRaw(line, lineStartOffset);
        err := EmitTail(line, goal, old(frames), sofar);
        return;
      }
      var cur := 0;
      assert line[0..] == line;
      while true
        invariant cur <= |line|
        invariant Valid() && fresh(spanStats.Values - old(spanStats.Values))
        invariant frames == old(frames) + sofar && refused == old(refused)
        invariant Continues(idFor, goal, State(), sofar, KeyValuePieces(line[cur..]))
        invariant seen + Observations(KeyValuePieces(line[cur..]), lineStartOffset + cur) == allSeen
        decreases |line| - cur
      {
        var found, constA, lane, constB, at := NextSegment(line, cur);
        if !found {
          KeyValueStep(line[cur..]);
          ObserveRaw(line[cur..], lineStartOffset + cur);
          err := EmitTail(line[cur..], goal, old(frames), sofar);
          return;
        }
        SegmentStep(line, cur, at, lineStartOffset);
        var o := SpanObservation(constA, constB, 1, Wrap32(|constA| + |lane| + |constB|), lineStartOffset + at + 1);
        Assoc(seen, [o], Observations(KeyValuePieces(line[at + 1..]), lineStartOffset + at + 1));
        seen := seen + [o];
        err, sofar := EmitNext(Seg(constA, lane, constB), goal, old(frames), sofar, AfterSegment(line[cur..]));
        if err != None {
          return;
        }
        if line[at] == COMMA {
          cur := at + 1;
          continue;
        }
        if line[at] == SPACE {
          err := EmitTail(line[at + 1..], goal, old(frames), sofar);
          return;
        }
        ContinueDone(idFor, goal, State(), sofar);
        return;
      }
    }

    /** `encodeBodyAsLines`. */
    method EncodeBodyAsLines(body: bytes, bodyBaseOffset: nat)
      returns (err: Option<FrameIo.WriteError>, obs: seq<SpanObservation>)
      requires Valid()
      modifies this`templates, this`spanStats, this`wireOut, this`frames, this`refused, spanStats.Values, destination
      ensures Valid() && fresh(spanStats.Values - old(spanStats.Values))
      ensures SentAs(idFor, old(State()), old(frames), BodyPieces(body), err, State(), frames)
      ensures err == None ==> refused == old(refused) && obs == Observations(BodyPieces(body), bodyBaseOffset)
    {
      hide AllWritable, Valid, State, EmitAll, Observations, LinePieces, BodyPieces, Continues;
      obs := [];
      ghost var goal, sofar := EmitAll(idFor, State(), BodyPieces(body)), [];
      ghost var allSeen := Observations(BodyPieces(body), bodyBaseOffset);
      Start(idFor, State(), BodyPieces(body));
      var i := 0;
      assert body[0..] == body;
      while i < |body|
        invariant i <= |body|
        invariant Valid() && fresh(spanStats.Values - old(spanStats.Values))
        invariant frames == old(frames) + sofar && refused == old(refused)
        invariant Continues(idFor, goal, State(), sofar, BodyPieces(body[i..]))
        invariant obs + Observations(BodyPieces(body[i..]), bodyBaseOffset + i) == allSeen
      {
        var j := IndexByte(body[i..], LF);
        if j < 0 {
          BodyTail(body[i..], bodyBaseOffset + i);
          err := EmitTail(body[i..], goal, old(frames), sofar);
          return;
        }
        var lineStart := i;
        j := i + j + 1;
        i := j;
        var line := body[lineStart..j];
        ghost var st, more := State(), Observations(BodyPieces(body[j..]), bodyBaseOffset + j);
        BodyStep(body, lineStart, j, bodyBaseOffset);
        ContinueMany(idFor, goal, st, sofar, LinePieces(line), BodyPieces(body[j..]));
        Assoc(obs, Observations(LinePieces(line), bodyBaseOffset + lineStart), more);
        err, obs := EncodeInfluxLineKV(line, bodyBaseOffset + lineStart, obs);
        if err != None {
          return;
        }
        Assoc(old(frames), sofar, EmitAll(idFor, st, LinePieces(line)).frames);
        sofar := sofar + EmitAll(idFor, st, LinePieces(line)).frames;
      }
      BodyDone(body, bodyBaseOffset);
      ContinueDone(idFor, goal, State(), sofar);
      return None, obs;
    }

    // ---- sessions ----

    /** The wire side between requests: nothing refused, the dictionary agrees with the hit
        counters, and the window has seen the truth stream so far. */
    ghost predicate Sending()
      reads this`spanStats, this`templates, this`frames, this`wireOut, this`refused, this`truthOffset
      reads spanStats.Values, destination, window, window.buf
    {
      && Valid() && EncInv(idFor, State()) && refused == 0
      && window.Valid() && window.buf.Length == RAW_WINDOW_BYTES
      && truthOffset == |window.history|
    }

    /** The learner's side: from the first packet on its bounds are the window's, its statistics are sound, and every
        observation points at its own span of the truth stream. */
    ghost predicate Learned()
      reads this`packetID, this`observed, this`truthOffset, window`history, learner, learner.stats.Values
    {
      && learner.Valid()
      && (packetID > 0 ==> learner.windowEnd == truthOffset && learner.windowStart == WindowStart(truthOffset))
      && L.StatsOk(L.Vals(learner.stats), packetID)
      && AllPoint(observed, window.history)
    }

    ghost predicate Ready()
      reads this, spanStats.Values, destination, window, window.buf, learner, learner.stats.Values
    {
      Sending() && Learned()
    }

    /** Header lines, then the body if there is one: the pieces of the message. */
    method EncodeMessage(hdr: bytes, body: bytes, bodyBase: nat)
      returns (err: Option<FrameIo.WriteError>, obs: seq<SpanObservation>)
      requires Valid()
      modifies this`templates, this`spanStats, this`wireOut, this`frames, this`refused, spanStats.Values, destination
      ensures Valid() && fresh(spanStats.Values - old(spanStats.Values))
      ensures SentAs(idFor, old(State()), old(frames), MessagePieces(Message(hdr, body)), err, State(), frames)
      ensures err == None ==> refused == old(refused) && obs == Observations(BodyPieces(body), bodyBase)
    {
      hide Valid, State, HeaderPieces, BodyPieces, Observations, EmitAll, AllWritable;
      obs := [];
      JoinEmissions(idFor, State(), HeaderPieces(hdr), BodyPieces(body));
      ghost var e := EmitAll(idFor, State(), HeaderPieces(hdr));
      err := EncodeHeaderLines(hdr);
      if err != None {
        return;
      }
      EmptyBody(idFor, State(), body, bodyBase);
      if |body| > 0 {
        err, obs := EncodeBodyAsLines(body, bodyBase);
        Assoc(old(frames), e.frames, EmitAll(idFor, e.st, BodyPieces(body)).frames);
      } else {
        assert e.frames + [] == e.frames;
      }
    }

    /** The window sees the request the backend will see, and the learner's bounds follow. */
    method ObserveTruth(hdr: bytes, body: bytes)
      requires window.Valid() && truthOffset == |window.history|
      modifies this`truthOffset, learner`windowStart, learner`windowEnd, window, window.buf
      ensures window.Valid() && truthOffset == |window.history|
      ensures window.history == old(window.history) + (hdr + body)
      ensures learner.windowEnd == truthOffset && learner.windowStart == WindowStart(truthOffset)
    {
      var pktEnd := truthOffset + |hdr| + |body|;
      learner.windowEnd := pktEnd;
      if pktEnd > RAW_WINDOW_BYTES {
        learner.windowStart := pktEnd - RAW_WINDOW_BYTES;
      } else {
        learner.windowStart := 0;
      }
      AppendTruth(hdr, body);
      truthOffset := pktEnd;
    }

    /** Header and body go into the window, each only if there is any. */
    method AppendTruth(hdr: bytes, body: bytes)
      requires window.Valid()
      modifies window, window.buf
      ensures window.Valid() && window.history == old(window.history) + (hdr + body)
    {
      NothingAppended(window.history, hdr, body);
      if |hdr| > 0 {
        window.Append(hdr);
      }
      if |body| > 0 {
        window.Append(body);
      }
    }

    /** The learner is fed once per packet, if anything was observed. */
    method Learn(obs: seq<SpanObservation>)
      requires learner.Valid() && packetID >= 1 && L.StatsOk(L.Vals(learner.stats), packetID - 1)
      modifies learner`stats, learner.stats.Values
      ensures learner.Valid() && fresh(learner.stats.Values - old(learner.stats.Values))
      ensures L.StatsOk(L.Vals(learner.stats), packetID)
    {
      hide L.ObserveAll, L.StatsOk, L.Victim, L.TotalSize;
      ghost var before := L.Vals(learner.stats);
      L.PacketKeepsStats(learner.keyOf, before, obs, packetID - 1, packetID, {});
      L.TimePasses(before, packetID - 1, packetID);
      if |obs| > 0 {
        ghost var seen := L.ObserveAll(learner.keyOf, before, {}, obs, packetID);
        assert seen - {} == seen;
        ghost var gone := learner.ObservePacket(packetID, obs);
        if gone.Some? {
          L.PacketKeepsStats(learner.keyOf, before, obs, packetID - 1, packetID, {gone.value});
        }
      }
    }

    /** The learner's side of one accepted request, once the window has seen it. */
    method LearnRequest(obs: seq<SpanObservation>, ghost truth: bytes, ghost hdr: bytes, ghost body: bytes)
      requires Sending() && learner.Valid() && packetID >= 1 && L.StatsOk(L.Vals(learner.stats), packetID - 1)
      requires learner.windowEnd == truthOffset && learner.windowStart == WindowStart(truthOffset)
      requires AllPoint(observed, truth) && window.history == truth + (hdr + body) && |body| < TWO32
      requires obs == Observations(BodyPieces(body), |truth| + |hdr|)
      modifies this`observed, learner`stats, learner.stats.Values
      ensures Ready() && State() == old(State()) && fresh(learner.stats.Values - old(learner.stats.Values))
      ensures observed == old(observed) + [obs]
    {
      hide AllPoint, BodyPieces, Observations, L.StatsOk, Sending, State, WindowStart;
      Learn(obs);
      ObservedPoint(observed, truth, hdr, body);
      observed := observed + [obs];
    }

    /** The wire side of one accepted request: count, normalise, observe, encode. */
    method SendRequest(headerBytes: bytes, body: bytes, ghost r: Request)
      returns (err: Option<FrameIo.WriteError>, obs: seq<SpanObservation>)
      requires Sending()
      requires ValidHead(r.lines, MAX_HEADER) && |r.body| <= MAX_BODY
      requires headerBytes == Block(r.lines) && body == r.body
      modifies this`templates, this`spanStats, this`wireOut, this`frames, this`refused, this`truthOffset, this`packetID
      modifies spanStats.Values, destination, window, window.buf, learner`windowStart, learner`windowEnd
      ensures Sending() && err == None && fresh(spanStats.Values - old(spanStats.Values))
      ensures packetID == old(packetID) + 1
      ensures window.history == old(window.history) + (HeaderFor(r) + r.body)
      ensures learner.windowEnd == truthOffset && learner.windowStart == WindowStart(truthOffset)
      ensures var e := EmitAll(idFor, old(State()), MessagePieces(MessageFor(r)));
              State() == e.st && frames == old(frames) + e.frames
      ensures obs == Observations(BodyPieces(r.body), |old(window.history)| + |HeaderFor(r)|)
    {
      hide Valid, State, EmitAll, MessagePieces, BodyPieces, Observations, Normalize, Block, EncInv,
           ValidHead, AllWritable;
      packetID := packetID + 1;
      var hdr := NormalizeHTTPHeaders(headerBytes, |body|);
      assert hdr == HeaderFor(r);
      var bodyBase := truthOffset + |hdr|;
      ObserveTruth(hdr, body);
      RequestWritable(idFor, State(), r);
      EmitAllKeepsInv(idFor, State(), MessagePieces(MessageFor(r)));
      err, obs := EncodeMessage(hdr, body, bodyBase);
    }

    lemma ReadyParts()
      requires Ready()
      ensures Sending() && Learned()
    {}

    lemma LearnedParts()
      requires Learned()
      ensures learner.Valid() && L.StatsOk(L.Vals(learner.stats), packetID) && AllPoint(observed, window.history)
    {}

    /** One accepted request, start to finish. */
    method EncodeRequest(headerBytes: bytes, body: bytes, ghost r: Request) returns (err: Option<FrameIo.WriteError>)
      requires Ready()
      requires ValidHead(r.lines, MAX_HEADER) && |r.body| <= MAX_BODY
      requires headerBytes == Block(r.lines) && body == r.body
      modifies this`templates, this`spanStats, this`wireOut, this`frames, this`refused, this`truthOffset, this`packetID
      modifies this`observed, spanStats.Values, destination, window, window.buf
      modifies learner`stats, learner`windowStart, learner`windowEnd, learner.stats.Values
      ensures Ready() && err == None
      ensures fresh(spanStats.Values - old(spanStats.Values))
      ensures fresh(learner.stats.Values - old(learner.stats.Values))
      ensures window.history == old(window.history) + (HeaderFor(r) + r.body)
      ensures packetID == old(packetID) + 1
      ensures var e := EmitAll(idFor, old(State()), MessagePieces(MessageFor(r)));
              State() == e.st && frames == old(frames) + e.frames
      ensures observed == old(observed)
              + [Observations(BodyPieces(r.body), |old(window.history)| + |HeaderFor(r)|)]
    {
      hide Sending, Learned, Valid, State, EmitAll, MessagePieces, BodyPieces, Observations, HeaderFor, Block, AllPoint,
           ValidHead, L.StatsOk, L.Vals, L.Aggregator.Valid, W.RawWindow.Valid, WindowStart, MessageFor, Ready, EncInv,
           AllWritable, Emit, Normalize;
      assert Sending() && Learned() by {
        ReadyParts();
      }
      LearnedParts();
      var obs;
      err, obs := SendRequest(headerBytes, body, r);
      LearnRequest(obs, old(window.history), HeaderFor(r), body);
    }

    /** One turn of the loop: read a request and encode it, or stop with the reader's error. */
    method EncodeNext() returns (end: Option<HttpError>, ghost r: Request)
      requires Ready() && source.Valid()
      modifies this, spanStats.Values, source`pos, destination, window, window.buf, learner, learner.stats.Values
      ensures Ready() && source.Valid()
      ensures fresh(spanStats.Values - old(spanStats.Values))
      ensures fresh(learner.stats.Values - old(learner.stats.Values))
      ensures match ReadRequest(old(source.Rest()), MAX_HEADER, MAX_BODY)
              case Err(e) =>
                && end == Some(e) && State() == old(State()) && frames == old(frames)
                && window.history == old(window.history) && packetID == old(packetID)
              case Ok((q, rest)) =>
                var e := EmitAll(idFor, old(State()), MessagePieces(MessageFor(q)));
                && end == None && r == q && source.Rest() == rest
                && State() == e.st && frames == old(frames) + e.frames
                && window.history == old(window.history) + (HeaderFor(q) + q.body) && packetID == old(packetID) + 1
    {
      hide Ready, State, EmitAll, MessagePieces, Block, Observations, BodyPieces, HeaderFor, ValidHead, ReadRequest,
           RequestLineParts, MessageFor;
      ghost var s := source.Rest();
      r := Request([], false, -1, []);
      var got;
      ghost var lines;
      got, lines := HttpReader.ReadHTTPRequestBody(source, MAX_HEADER, MAX_BODY);
      if got.Err? {
        return Some(got.error), r;
      }
      r := ReadRequest(s, MAX_HEADER, MAX_BODY).value.0;
      AcceptedBounded(s, MAX_HEADER, MAX_BODY);
      var werr := EncodeRequest(got.value.0.headerBytes, got.value.1, r);
      if werr != None {
        // The writer never refuses a frame of an accepted request.
        assert false;
      }
      return None, r;
    }

    /** `runEncodeTemplateV1` on a whole input: every accepted request is encoded, and the run
        ends cleanly or with the reader's error. */
    method Run() returns (err: Option<EncodeError>)
      requires Ready() && source.Valid()
      modifies this, spanStats.Values, source`pos, destination, window, window.buf, learner, learner.stats.Values
      ensures Ready()
      ensures fresh(spanStats.Values - old(spanStats.Values))
      ensures fresh(learner.stats.Values - old(learner.stats.Values))
      ensures var log := ReadRequests(old(source.Rest()));
              var ms := MessagesFor(log.requests);
              var e := RunEmission(idFor, old(State()), ms);
              && err == (if log.end == HttpError.Eof then None else Some(ReadFailed(log.end)))
              && State() == e.st && frames == old(frames) + e.frames
              && window.history == old(window.history) + Flatten(Truths(ms))
              && packetID == old(packetID) + |log.requests|
    {
      hide Ready, State, EmitAll, RunEmission, MessagePieces, HeaderFor, ReadRequest, ReadRequests, Flatten, Truths,
           MessageFor, Reached;
      ghost var s0, f0, h0 := State(), frames, window.history;
      ghost var log, done := ReadRequests(source.Rest()), [];
      ReachedNone(idFor, s0, f0, h0, log);
      while true
        invariant Ready() && source.Valid()
        invariant fresh(spanStats.Values - old(spanStats.Values))
        invariant fresh(learner.stats.Values - old(learner.stats.Values))
        invariant log == Resume(done, ReadRequests(source.Rest()))
        invariant Reached(idFor, s0, f0, h0, done, State(), frames, window.history)
        invariant packetID == old(packetID) + |done|
        decreases |source.Rest()|
      {
        ghost var s, now, fs, history := source.Rest(), State(), frames, window.history;
        ResumeStep(done, s);
        var end;
        ghost var r;
        end, r := EncodeNext();
        if end.Some? {
          ReachedAll(idFor, s0, f0, h0, done, State(), frames, window.history);
          return if end.value == HttpError.Eof then None else Some(ReadFailed(end.value));
        }
        RunSnoc(idFor, s0, f0, h0, done, r, now, fs, history);
        done := done + [r];
      }
    }
  }

  /** Where a run stands after the requests `done`: its state, its frames, its history. */
  ghost predicate Reached(h: IdFn, st: EncState, f0: seq<Frame>, h0: bytes, done: seq<Request>,
                          now: EncState, fs: seq<Frame>, history: bytes) {
    var ms := MessagesFor(done);
    && Emission(now, fs) == Resumed(f0, RunEmission(h, st, ms))
    && history == h0 + Flatten(Truths(ms))
  }

  lemma ReachedNone(h: IdFn, st: EncState, f0: seq<Frame>, h0: bytes, log: RequestLog)
    ensures Reached(h, st, f0, h0, [], st, f0, h0) && Resume([], log) == log
  {
    RunNone(h, st);
    assert f0 + [] == f0 && h0 + [] == h0 && [] + log.requests == log.requests;
  }

  lemma ReachedAll(h: IdFn, st: EncState, f0: seq<Frame>, h0: bytes, done: seq<Request>,
                   now: EncState, fs: seq<Frame>, history: bytes)
    requires Reached(h, st, f0, h0, done, now, fs, history)
    ensures var e := RunEmission(h, st, MessagesFor(done));
            now == e.st && fs == f0 + e.frames && history == h0 + Flatten(Truths(MessagesFor(done)))
  {
    hide RunEmission, Flatten, Truths, MessagesFor;
  }

  /** What a log is when `done` requests precede it. */
  ghost function Resume(done: seq<Request>, log: RequestLog): RequestLog {
    RequestLog(done + log.requests, log.end)
  }

  ghost function Resumed(before: seq<Frame>, e: Emission): Emission {
    Emission(e.st, before + e.frames)
  }

  lemma ResumeStep(done: seq<Request>, s: bytes)
    ensures Resume(done, ReadRequests(s)) ==
            match ReadRequest(s, MAX_HEADER, MAX_BODY)
            case Err(e) => RequestLog(done, e)
            case Ok((r, rest)) => Resume(done + [r], ReadRequests(rest))
  {
    hide ReadRequest;
    match ReadRequest(s, MAX_HEADER, MAX_BODY)
    case Err(_) => assert done + [] == done;
    case Ok((r, rest)) => Assoc(done, [r], ReadRequests(rest).requests);
  }

  lemma RunNone(h: IdFn, st: EncState)
    ensures MessagesFor([]) == [] && RunEmission(h, st, []) == Emission(st, []) && Flatten(Truths([])) == []
  {}

  /** One more request: its emission and its truth are appended. */
  lemma RunSnoc(h: IdFn, st: EncState, f0: seq<Frame>, h0: bytes, done: seq<Request>, r: Request,
                now: EncState, fs: seq<Frame>, history: bytes)
    requires Reached(h, st, f0, h0, done, now, fs, history)
    ensures var one := EmitAll(h, now, MessagePieces(MessageFor(r)));
            Reached(h, st, f0, h0, done + [r], one.st, fs + one.frames, history + (HeaderFor(r) + r.body))
  {
    hide EmitAll, MessagePieces, HeaderFor, Flatten;
    MessagesSnoc(done, r);
    var ms, m := MessagesFor(done), MessageFor(r);
    RunPiecesSnoc(ms, m);
    EmitAllAppend(h, st, RunPieces(ms), MessagePieces(m));
    var e := RunEmission(h, st, ms);
    Assoc(f0, e.frames, EmitAll(h, e.st, MessagePieces(m)).frames);
    FlattenSnoc(Truths(ms), Truth(m));
    Assoc(h0, Flatten(Truths(ms)), Truth(m));
  }

  lemma {:induction false} MessagesSnoc(rs: seq<Request>, r: Request)
    ensures MessagesFor(rs + [r]) == MessagesFor(rs) + [MessageFor(r)]
  {
    hide MessageFor;
    if rs == [] {
      assert rs + [r] == [r] && [r][1..] == [];
    } else {
      assert (rs + [r])[0] == rs[0] && (rs + [r])[1..] == rs[1..] + [r];
      MessagesSnoc(rs[1..], r);
    }
  }

  lemma {:induction false} RunPiecesSnoc(ms: seq<Message>, m: Message)
    ensures RunPieces(ms + [m]) == RunPieces(ms) + MessagePieces(m)
    ensures Truths(ms + [m]) == Truths(ms) + [Truth(m)]
  {
    hide MessagePieces, Truth;
    if ms == [] {
      assert ms + [m] == [m] && [m][1..] == [];
      assert MessagePieces(m) + [] == MessagePieces(m) && [] + MessagePieces(m) == MessagePieces(m);
    } else {
      assert (ms + [m])[0] == ms[0] && (ms + [m])[1..] == ms[1..] + [m];
      RunPiecesSnoc(ms[1..], m);
      Assoc(MessagePieces(ms[0]), RunPieces(ms[1..]), MessagePieces(m));
    }
  }

  lemma JoinEmissions(h: IdFn, st: EncState, x: seq<Piece>, y: seq<Piece>)
    ensures var ex := EmitAll(h, st, x);
            var ey := EmitAll(h, ex.st, y);
            && EmitAll(h, st, x + y) == Emission(ey.st, ex.frames + ey.frames)
            && (AllWritable(ex.frames + ey.frames) <==> AllWritable(ex.frames) && AllWritable(ey.frames))
  {
    hide EmitAll;
    EmitAllAppend(h, st, x, y);
    var ex := EmitAll(h, st, x);
    var ey := EmitAll(h, ex.st, y);
    assert forall f <- ex.frames :: f in ex.frames + ey.frames;
    assert forall f <- ey.frames :: f in ex.frames + ey.frames;
  }

  lemma EmptyBody(h: IdFn, st: EncState, body: bytes, base: nat)
    ensures body == [] ==> EmitAll(h, st, BodyPieces(body)) == Emission(st, [])
    ensures body == [] ==> Observations(BodyPieces(body), base) == []
    ensures AllWritable([])
  {}

  lemma RequestWritable(h: IdFn, st: EncState, r: Request)
    requires ValidHead(r.lines, MAX_HEADER) && |r.body| <= MAX_BODY
    ensures AllWritable(EmitAll(h, st, MessagePieces(MessageFor(r))).frames)
  {
    hide ValidHead, EmitAll, MessagePieces, HeaderFor, SmallMessage, PieceBytes;
    AcceptedSmall(r);
    forall p | p in MessagePieces(MessageFor(r))
      ensures |PieceBytes(p)| <= MAX_PAYLOAD
    {
      PieceSmall(MessageFor(r), p);
    }
    EmitAllWritable(h, st, MessagePieces(MessageFor(r)));
  }

  lemma PointsAtLonger(o: SpanObservation, truth: bytes, more: bytes)
    requires PointsAt(o, truth)
    ensures PointsAt(o, truth + more)
  {
    var from, to := o.lastSeenOffset - o.spanSize, o.lastSeenOffset;
    var lane :| truth[from..to] == o.constA + lane + o.constB;
    assert (truth + more)[from..to] == truth[from..to];
  }

  lemma NewObservationsPoint(truth: bytes, hdr: bytes, body: bytes)
    requires |body| < TWO32
    ensures var obs := Observations(BodyPieces(body), |truth| + |hdr|);
            forall j :: 0 <= j < |obs| ==> PointsAt(obs[j], truth + (hdr + body))
  {
    hide PointsAt, Observations, BodyPieces, PiecesBytes;
    BodyPartition(body);
    Assoc(truth, hdr, body);
    assert truth + hdr + body + [] == truth + (hdr + body);
    var obs := Observations(BodyPieces(body), |truth + hdr|);
    forall j | 0 <= j < |obs|
      ensures PointsAt(obs[j], truth + (hdr + body))
    {
      ObservationPoints(truth + hdr, BodyPieces(body), [], obs[j]);
    }
  }

  /** Old observations still point at their spans in the longer truth stream, and so do those
      of the new request. */
  lemma ObservedPoint(observed: seq<seq<SpanObservation>>, truth: bytes, hdr: bytes, body: bytes)
    requires AllPoint(observed, truth) && |body| < TWO32
    ensures AllPoint(observed + [Observations(BodyPieces(body), |truth| + |hdr|)], truth + (hdr + body))
  {
    hide PointsAt, Observations, BodyPieces;
    NewObservationsPoint(truth, hdr, body);
    forall i, j | 0 <= i < |observed| && 0 <= j < |observed[i]|
      ensures PointsAt(observed[i][j], truth + (hdr + body))
    {
      PointsAtLonger(observed[i][j], truth, hdr + body);
    }
  }

  lemma NoSegment(s: bytes)
    ensures IndexByte(s, EQUALS) < 0 ==> SegmentEnd(s) < 0
  {}

  /** The segment of the rest of a line, in terms of positions in the line. */
  lemma SegmentParts(line: bytes, cur: nat, v: nat, d: int)
    requires cur < v <= |line| && IndexByte(line[cur..], EQUALS) == v - 1 - cur && d == FirstDelim(line[v..])
    ensures SegmentEnd(line[cur..]) == if d <= 0 then -1 else v + d - cur
    ensures d > 0 ==> Segment(line[cur..]) == Seg(line[cur..v], line[v..v + d], [line[v + d]])
  {
    hide IndexByte, FirstDelim;
    var s := line[cur..];
    assert s[v - cur..] == line[v..];
    if d > 0 {
      assert s[..v - cur] == line[cur..v] && s[v - cur..v - cur + d] == line[v..v + d] && s[v - cur + d] == line[v + d];
    }
  }

  lemma NearestIsFirst(s: bytes, comma: int, space: int, nl: int, d: int)
    requires comma == IndexByte(s, COMMA) && space == IndexByte(s, SPACE) && nl == IndexByte(s, LF)
    requires d == -1 || d == comma || d == space || d == nl
    requires comma >= 0 ==> 0 <= d <= comma
    requires space >= 0 ==> 0 <= d <= space
    requires nl >= 0 ==> 0 <= d <= nl
    ensures d == FirstDelim(s)
  {
    var f := FirstDelim(s);
    if f >= 0 {
      assert s[f] in s;
      assert forall i :: 0 <= i < f ==> s[i] in s[..f];
    }
  }

  lemma BodyDone(body: bytes, base: nat)
    ensures BodyPieces(body[|body|..]) == []
    ensures Observations([], base + |body|) == []
  {}

  lemma BodyTail(s: bytes, base: nat)
    requires s != [] && IndexByte(s, LF) < 0
    ensures BodyPieces(s) == [Raw(s)] && Observations(BodyPieces(s), base) == []
  {
    ObserveRaw(s, base);
  }

  /** One body line: the pieces and observations from i on are the line's, then those from
      its end on. */
  lemma BodyStep(body: bytes, i: nat, j: nat, base: nat)
    requires i < j <= |body| && IndexByte(body[i..], LF) == j - i - 1
    ensures BodyPieces(body[i..]) == LinePieces(body[i..j]) + BodyPieces(body[j..])
    ensures Observations(BodyPieces(body[i..]), base + i) ==
            Observations(LinePieces(body[i..j]), base + i) + Observations(BodyPieces(body[j..]), base + j)
  {
    hide Observations, LinePieces, BodyPieces, PiecesBytes, IndexByte;
    var s := body[i..];
    assert s[..j - i] == body[i..j] && s[j - i..] == body[j..];
    BodyPiecesAt(s, j - i - 1);
    FirstLf(s, j - i - 1);
    LineLength(body[i..j]);
    ObservationsAppend(LinePieces(body[i..j]), BodyPieces(body[j..]), base + i);
  }

  lemma BodyPiecesAt(s: bytes, k: nat)
    requires k < |s| && IndexByte(s, LF) == k
    ensures BodyPieces(s) == LinePieces(s[..k + 1]) + BodyPieces(s[k + 1..])
  {
    hide LinePieces, IndexByte;
  }

  lemma LineLength(line: bytes)
    requires line != [] && IndexByte(line, LF) == |line| - 1
    ensures |PiecesBytes(LinePieces(line))| == |line|
  {
    LinePartition(line);
    hide LinePieces;
  }

  lemma FirstLf(s: bytes, k: nat)
    requires IndexByte(s, LF) == k && k < |s|
    ensures IndexByte(s[..k + 1], LF) == k
  {
    assert s[..k + 1][..k] == s[..k];
    IndexByteIs(s[..k + 1], LF, k);
  }

  /** One segment: what follows it, and the observations with it taken off. */
  lemma SegmentStep(line: bytes, cur: nat, at: nat, base: nat)
    requires cur <= at < |line| && SegmentEnd(line[cur..]) == at - cur
    ensures var p, rest := Segment(line[cur..]), AfterSegment(line[cur..]);
            && KeyValuePieces(line[cur..]) == [p] + rest
            && rest == (if line[at] == COMMA then KeyValuePieces(line[at + 1..])
                        else if line[at] == SPACE then [Raw(line[at + 1..])] else [])
            && Observations(KeyValuePieces(line[cur..]), base + cur) ==
                 [SpanObservation(p.constA, p.constB, 1, Wrap32(at - cur + 1), base + at + 1)]
                 + if line[at] == COMMA then Observations(KeyValuePieces(line[at + 1..]), base + at + 1) else []
  {
    hide SegmentEnd, Segment, KeyValuePieces, Observations, Wrap32;
    var s := line[cur..];
    assert s[at - cur + 1..] == line[at + 1..];
    KeyValueStep(s);
    ObserveSegment(s, base + cur);
  }

  lemma NothingAppended(history: bytes, hdr: bytes, body: bytes)
    ensures history + hdr + body == history + (hdr + body)
    ensures hdr == [] ==> history + hdr == history
    ensures body == [] ==> history + hdr + body == history + hdr
  {}

  /** The learner's window start: the last RAW_WINDOW_BYTES of the truth stream. */
  function WindowStart(end: nat): nat {
    if end > RAW_WINDOW_BYTES then end - RAW_WINDOW_BYTES else 0
  }

  /** What the window shows is the truth stream between the learner's bounds. */
  lemma WindowIsTruthRange(truth: bytes)
    ensures W.LastN(truth, RAW_WINDOW_BYTES) == truth[WindowStart(|truth|)..|truth|]
  {}

  ghost predicate AllPoint(observed: seq<seq<SpanObservation>>, truth: bytes) {
    forall i, j :: 0 <= i < |observed| && 0 <= j < |observed[i]| ==> PointsAt(observed[i][j], truth)
  }

  /** The pieces from the i-th part of a split header on. */
  ghost function PiecesFrom(parts: seq<bytes>, i: nat): seq<Piece>
    requires i <= |parts|
  {
    if i == |parts| then [] else PartsPieces(parts[i..])
  }

  lemma PiecesFromStep(parts: seq<bytes>, i: nat)
    requires i < |parts|
    ensures var line := if i < |parts| - 1 then parts[i] + CRLF else parts[i];
            PiecesFrom(parts, i) == (if line == [] then [] else [HeaderLinePiece(line)]) + PiecesFrom(parts, i + 1)
  {
    assert parts[i..][1..] == parts[i + 1..];
    hide HeaderLinePiece;
  }

  /** What a counted segment adds: its piece, a reference, or a definition and a reference. */
  ghost function Gain(h: IdFn, counted: EncState, stat: SpanInfo, p: Piece): Emission
    requires p.Seg?
  {
    if stat.hits < PROMOTE_AFTER_HITS then Emission(counted, [RawFrame(PieceBytes(p))])
    else if stat.defined then Emission(counted, [RefOrRaw(h, p)])
    else if !DefineFits(p.constA, p.constB) then Emission(counted, [RawFrame(PieceBytes(p))])
    else
      var id := IdOf(h, p);
      Emission(EncState(counted.table[id := DefinitionOf(h, p)], counted.spans[id := SpanInfo(stat.hits, true)]),
               [DefineFrame(DefinitionOf(h, p)), RefOrRaw(h, p)])
  }

  /** Emitting a piece is counting its hit and then what the count calls for. */
  lemma EmitIsGain(h: IdFn, st: EncState, p: Piece)
    requires p.Seg?
    ensures !Gated(p) ==> Emit(h, st, p) == Emission(st, [RawFrame(PieceBytes(p))])
    ensures Gated(p) ==>
              var id, stat := IdOf(h, p), StatOf(st, IdOf(h, p));
              var now := SpanInfo((stat.hits + 1) % TWO32, stat.defined);
              Emit(h, st, p) == Gain(h, st.(spans := st.spans[id := stat][id := now]), now, p)
  {
    hide RefOrRaw, DefineFits;
    if Gated(p) {
      var id, stat := IdOf(h, p), StatOf(st, IdOf(h, p));
      var now := SpanInfo((stat.hits + 1) % TWO32, stat.defined);
      assert st.spans[id := stat][id := now] == st.spans[id := now];
      assert st.spans[id := now][id := SpanInfo(now.hits, true)] == st.spans[id := SpanInfo(now.hits, true)];
    }
  }

  lemma OneWritable(f: Frame)
    ensures AllWritable([f]) <==> Writable(f)
  {
    hide Writable;
    assert [f][0] == f;
  }

  lemma TwoWritable(f: Frame, g: Frame)
    ensures AllWritable([f, g]) <==> Writable(f) && Writable(g)
  {
    hide Writable;
    assert [f, g][0] == f && [f, g][1] == g;
  }

  // ---- progress towards an emission ----

  /** Emitting `rest` from `st` after the accepted frames `sofar` reaches the goal. */
  ghost predicate Continues(h: IdFn, goal: Emission, st: EncState, sofar: seq<Frame>, rest: seq<Piece>) {
    var e := EmitAll(h, st, rest);
    e.st == goal.st && sofar + e.frames == goal.frames && AllWritable(sofar)
  }

  /** The outcome of emitting `ps`: all frames written and the state moved, or an error, which
      happens exactly when the writer must refuse one of the frames. */
  ghost predicate SentAs(h: IdFn, before: EncState, written: seq<Frame>, ps: seq<Piece>,
                       err: Option<FrameIo.WriteError>, after: EncState, now: seq<Frame>) {
    var e := EmitAll(h, before, ps);
    && (err == None <==> AllWritable(e.frames))
    && (err == None ==> after == e.st && now == written + e.frames)
    && written <= now
  }

  lemma Start(h: IdFn, st: EncState, ps: seq<Piece>)
    ensures Continues(h, EmitAll(h, st, ps), st, [], ps)
  {
    hide EmitAll;
    assert [] + EmitAll(h, st, ps).frames == EmitAll(h, st, ps).frames;
  }

  lemma ContinueStep(h: IdFn, goal: Emission, st: EncState, sofar: seq<Frame>, p: Piece, rest: seq<Piece>)
    requires Continues(h, goal, st, sofar, [p] + rest)
    ensures var e := Emit(h, st, p);
            if AllWritable(e.frames) then Continues(h, goal, e.st, sofar + e.frames, rest)
            else !AllWritable(goal.frames)
  {
    hide Emit;
    var e := Emit(h, st, p);
    assert ([p] + rest)[0] == p && ([p] + rest)[1..] == rest;
    Assoc(sofar, e.frames, EmitAll(h, e.st, rest).frames);
    assert forall f <- e.frames :: f in sofar + e.frames + EmitAll(h, e.st, rest).frames;
  }

  lemma ContinueMany(h: IdFn, goal: Emission, st: EncState, sofar: seq<Frame>, ps: seq<Piece>, rest: seq<Piece>)
    requires Continues(h, goal, st, sofar, ps + rest)
    ensures var e := EmitAll(h, st, ps);
            if AllWritable(e.frames) then Continues(h, goal, e.st, sofar + e.frames, rest)
            else !AllWritable(goal.frames)
  {
    hide EmitAll;
    var e := EmitAll(h, st, ps);
    EmitAllAppend(h, st, ps, rest);
    Assoc(sofar, e.frames, EmitAll(h, e.st, rest).frames);
    assert forall f <- e.frames :: f in sofar + e.frames + EmitAll(h, e.st, rest).frames;
  }

  lemma ContinueDone(h: IdFn, goal: Emission, st: EncState, sofar: seq<Frame>)
    requires Continues(h, goal, st, sofar, [])
    ensures goal == Emission(st, sofar) && AllWritable(sofar)
  {
    assert sofar + [] == sofar;
  }
}
