/** The decoder as it runs: a frame loop over a stream, a template table, and a request buffer
    that is flushed to the destination and to the observation window. */
module Decoder {
  import opened Bytes
  import opened Numbers
  import opened Streams
  import opened Protocol
  import opened DecoderSpec
  import TemplateCodec
  import FrameIo
  import W = RawWindow

  class Decoder {
    const source: Source
    const destination: Sink
    const window: W.RawWindow
    var templates: Table
    var epoch: u32
    var req: bytes
    var headerDone: bool
    var contentLen: int
    var bodyHave: int
    // The requests written so far, and what the outputs held before them.
    ghost var flushed: seq<bytes>
    ghost const sentBefore: bytes
    ghost const seenBefore: bytes

    /** Destination and window have received exactly the requests written. */
    ghost predicate Valid()
      reads this, source, destination, window, window.buf
    {
      && source.Valid() && window.Valid()
      && destination.out == sentBefore + Flatten(flushed)
      && window.history == seenBefore + Flatten(flushed)
    }

    ghost function State(): DecState
      reads this
    {
      DecState(templates, epoch, Assembler(req, headerDone, contentLen, bodyHave, flushed))
    }

    constructor (src: Source, dst: Sink, win: W.RawWindow)
      requires src.Valid() && win.Valid()
      ensures Valid() && source == src && destination == dst && window == win
      ensures State() == FRESH && sentBefore == dst.out && seenBefore == win.history
    {
      source, destination, window := src, dst, win;
      templates, epoch := map[], 0;
      req, headerDone, contentLen, bodyHave := [], false, -1, 0;
      flushed, sentBefore, seenBefore := [], dst.out, win.history;
    }

    method ResetReq()
      modifies this`req, this`headerDone, this`contentLen, this`bodyHave
      ensures State() == old(State()).(asm := Idle(flushed))
    {
      req := [];
      headerDone := false;
      contentLen := -1;
      bodyHave := 0;
    }

    /** `feed`. */
    method Feed(b: bytes) returns (err: Option<DecodeError>)
      modifies this`req, this`headerDone, this`contentLen, this`bodyHave
      ensures match DecoderSpec.Feed(old(State()).asm, b)
              case Err(e) => err == Some(e)
              case Ok(asm) => err == None && State() == old(State()).(asm := asm)
    {
      hide Index, ContentLengthOf;
      if |b| == 0 {
        return None;
      }
      req := req + b;
      if !headerDone {
        var idx := Index(req, CRLFCRLF);
        if idx >= 0 {
          headerDone := true;
          contentLen := ParseContentLength(req[..idx + 4]);
          if contentLen < 0 {
            return Some(MissingContentLength);
          }
          bodyHave := |req| - (idx + 4);
        }
        return None;
      }
      var idx := Index(req, CRLFCRLF);
      if idx < 0 {
        return Some(MarkerLost);
      }
      bodyHave := |req| - (idx + 4);
      return None;
    }

    /** `parseContentLengthFromHeaderString`: the first line that declares a usable length. */
    static method ParseContentLength(hdr: bytes) returns (n: int)
      ensures n == ContentLengthOf(hdr)
    {
      var lines := Split(hdr, CRLF);
      var i := 0;
      while i < |lines|
        invariant i <= |lines|
        invariant FirstLength(lines) == FirstLength(lines[i..])
      {
        var line := lines[i];
        if HasPrefix(ToLower(line), CONTENT_LENGTH) {
          var v := ParseInt(TrimSpace(line[|CONTENT_LENGTH|..]), 10);
          if v.Some? && v.value >= 0 {
            assert DeclaredLength(line) == Some(v.value);
            return v.value;
          }
        }
        assert DeclaredLength(line) == None;
        i := i + 1;
      }
      return -1;
    }

    /** The write loop: all of `b` goes out, in as many writes as the destination needs, and
        the window sees exactly the bytes written. */
    method WriteObserved(b: bytes)
      requires window.Valid()
      modifies destination, window, window.buf
      ensures window.Valid()
      ensures destination.out == old(destination.out) + b
      ensures window.history == old(window.history) + b
    {
      var out := b;
      ghost var sent := [];
      while |out| > 0
        invariant window.Valid()
        invariant sent + out == b
        invariant destination.out == old(destination.out) + sent
        invariant window.history == old(window.history) + sent
        decreases |out|
      {
        var n := destination.WriteSome(out);
        window.Append(out[..n]);
        Assoc(old(destination.out), sent, out[..n]);
        Assoc(old(window.history), sent, out[..n]);
        Assoc(sent, out[..n], out[n..]);
        assert out == out[..n] + out[n..];
        sent := sent + out[..n];
        out := out[n..];
      }
      assert sent + [] == sent;
    }

    /** `flushReqIfComplete`: a complete request is written whole and the buffer is reset. */
    method FlushReqIfComplete()
      requires Valid()
      modifies this`req, this`headerDone, this`contentLen, this`bodyHave, this`flushed
      modifies destination, window, window.buf
      ensures Valid()
      ensures State() == old(State()).(asm := Flush(old(State()).asm))
    {
      if !headerDone || contentLen < 0 || bodyHave < contentLen {
        return;
      }
      WriteObserved(req);
      FlattenSnoc(flushed, req);
      Assoc(sentBefore, Flatten(flushed), req);
      Assoc(seenBefore, Flatten(flushed), req);
      flushed := flushed + [req];
      ResetReq();
    }

    /** The last two lines of every data-carrying case. */
    method PushData(b: bytes) returns (err: Option<DecodeError>)
      requires Valid()
      modifies this`req, this`headerDone, this`contentLen, this`bodyHave, this`flushed
      modifies destination, window, window.buf
      ensures Valid()
      ensures match Push(old(State()).asm, b)
              case Err(e) => err == Some(e) && flushed == old(flushed)
              case Ok(asm) => err == None && State() == old(State()).(asm := asm)
    {
      err := Feed(b);
      if err.Some? {
        return;
      }
      FlushReqIfComplete();
    }

    /** One turn of the frame loop. */
    method HandleFrame(f: Frame) returns (err: Option<DecodeError>)
      requires Valid()
      modifies this, destination, window, window.buf
      ensures Valid()
      ensures match Step(old(State()), f)
              case Err(e) => err == Some(e) && flushed == old(flushed)
              case Ok(st) => err == None && State() == st
    {
      hide Push, ParseInline, ParseDefine, ParseRef;
      if f.kind == RAW_DATA {
        err := PushData(f.payload);
      } else if f.kind == TEMPLATE_INLINE {
        var parsed := TemplateCodec.ParseTemplateInlinePayload(f.payload);
        match parsed {
          case Malformed => return Some(BadPayload);
          case Panics => return Some(Panicked);
          case Parsed((d, lane)) =>
            templates := templates[d.id := d];
            err := PushData(d.constA + lane + d.constB);
        }
      } else if f.kind == TEMPLATE_DEFINE {
        var parsed := TemplateCodec.ParseTemplateDefinePayload(f.payload);
        match parsed {
          case Malformed => return Some(BadPayload);
          case Panics => return Some(Panicked);
          case Parsed(d) =>
            templates := templates[d.id := d];
            err := None;
        }
      } else if f.kind == TEMPLATE_REF {
        var parsed := TemplateCodec.ParseTemplateRefPayload(f.payload);
        match parsed {
          case Parsed((id, lane)) =>
            if id !in templates {
              return Some(RefBeforeDefine);
            }
            var t := templates[id];
            err := PushData(t.constA + lane + t.constB);
          case _ => return Some(BadPayload);
        }
      } else if f.kind == EPOCH_RESET {
        var epochId := FrameIo.ParseEpochResetPayload(f.payload);
        if epochId.None? {
          return Some(BadPayload);
        }
        epoch := epochId.value;
        templates := map[];
        ResetReq();
        err := None;
      } else {
        return Some(UnsupportedType);
      }
    }

    /** `runDecodeTemplateV1`: frames until the stream ends or an error stops it; what reaches
        the destination and the window is exactly what RunBytes writes. */
    method Run() returns (ending: Ending)
      requires Valid()
      modifies this, source`pos, destination, window, window.buf
      ensures Valid()
      ensures var outcome := RunBytes(old(State()), old(source.Rest()));
              && ending == outcome.ending && flushed == outcome.st.asm.flushed
              && (!ending.BadStream? ==> State() == outcome.st)
    {
      hide Step, ReadFrame, FirstLength;
      while true
        invariant Valid()
        invariant RunBytes(State(), source.Rest()) == RunBytes(old(State()), old(source.Rest()))
        decreases |source.data| - source.pos
      {
        var f := FrameIo.ReadNextFrame(source);
        if f.Err? {
          return if f.error == Eof then CleanEnd else BadFrame(f.error);
        }
        var err := HandleFrame(f.value);
        if err.Some? {
          return BadStream(err.value);
        }
      }
    }
  }
}
