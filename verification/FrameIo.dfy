/** Frames over streams: the writer, the strict reader, and the epoch payload. */
module FrameIo {
  import opened Bytes
  import opened Numbers
  import opened Streams
  import opened Protocol

  datatype WriteError = InvalidFlags | PayloadTooLarge | UnknownShape

  datatype Header = Header(magic: byte, version: byte, kind: byte, flags: byte, length: u32)

  /** `be.PutUint32(buf[at:at+4], v)`. */
  method PutUint32(buf: array<byte>, at: nat, v: u32)
    requires at + 4 <= buf.Length
    modifies buf
    ensures buf[at..at + 4] == U32(v)
    ensures buf[..at] == old(buf[..at])
  {
    var hi, lo := v / TWO16, v % TWO16;
    buf[at] := (hi / 256 % 256) as byte;
    buf[at + 1] := (hi % 256) as byte;
    buf[at + 2] := (lo / 256 % 256) as byte;
    buf[at + 3] := (lo % 256) as byte;
  }

  method WriteHeader(w: Sink, h: Header)
    modifies w
    ensures w.out == old(w.out) + [h.magic, h.version, h.kind, h.flags] + U32(h.length)
  {
    var buf := new byte[HEADER_SIZE];
    buf[0] := h.magic;
    buf[1] := h.version;
    buf[2] := h.kind;
    buf[3] := h.flags;
    assert buf[..4] == [h.magic, h.version, h.kind, h.flags];
    PutUint32(buf, 4, h.length);
    assert buf[..] == buf[..4] + buf[4..8];
    Assoc(w.out, buf[..4], buf[4..8]);
    w.Write(buf[..]);
  }

  /** `WriteFrame`: a frame is written whole, or refused with nothing written. */
  method WriteFrame(w: Sink, kind: byte, flags: byte, payload: bytes) returns (err: Option<WriteError>)
    modifies w
    ensures err == None <==> flags == 0 && Writable(Frame(kind, payload))
    ensures err == Some(InvalidFlags) <==> flags != 0
    ensures err == Some(PayloadTooLarge) <==> flags == 0 && |payload| > 16 * 1024 * 1024
    ensures w.out == old(w.out) + if err == None then FrameBytes(Frame(kind, payload)) else []
  {
    if flags != 0 {
      return Some(InvalidFlags);
    }
    if |payload| > MAX_PAYLOAD {
      return Some(PayloadTooLarge);
    }
    if !ShapeOk(kind, |payload|) {
      return Some(UnknownShape);
    }
    var h := Header(MAGIC_BYTE, PROTOCOL_VERSION, kind, flags, |payload|);
    ghost var head := [h.magic, h.version, h.kind, h.flags] + U32(h.length);
    Assoc(w.out, [h.magic, h.version, h.kind, h.flags], U32(h.length));
    Assoc(w.out, head, payload);
    WriteHeader(w, h);
    if |payload| == 0 {
      return None;
    }
    w.Write(payload);
    return None;
  }

  method ReadHeader(r: Source) returns (h: Result<Header, FrameError>)
    requires r.Valid()
    modifies r`pos
    ensures r.Valid()
    ensures match ReadFull(old(r.Rest()), HEADER_SIZE)
            case Err(e) => h == Err(e)
            case Ok((b, rest)) => h == Ok(Header(b[0], b[1], b[2], b[3], U32At(b, 4))) && r.Rest() == rest
  {
    var buf := r.Fill(HEADER_SIZE);
    if buf.Err? {
      return Err(EndError(buf.error));
    }
    var b := buf.value;
    return Ok(Header(b[0], b[1], b[2], b[3], U32At(b, 4)));
  }

  /** `ReadFrame`: the next frame, strictly checked, leaving the stream right after it. */
  method ReadNextFrame(r: Source) returns (f: Result<Frame, FrameError>)
    requires r.Valid()
    modifies r`pos
    ensures r.Valid()
    ensures match ReadFrame(old(r.Rest()))
            case Err(e) => f == Err(e)
            case Ok((g, rest)) => f == Ok(g) && r.Rest() == rest
  {
    hide U32At;
    var header := ReadHeader(r);
    if header.Err? {
      return Err(header.error);
    }
    var h := header.value;
    if h.magic != MAGIC_BYTE {
      return Err(BadMagic);
    }
    if h.version != PROTOCOL_VERSION {
      return Err(BadVersion);
    }
    if h.flags != 0 {
      return Err(BadFlags);
    }
    if h.length > MAX_PAYLOAD {
      return Err(TooLarge);
    }
    if h.length == 0 {
      if !ShapeOk(h.kind, 0) {
        return Err(BadShape);
      }
      return Ok(Frame(h.kind, []));
    }
    var payload := r.Fill(h.length);
    if payload.Err? {
      return Err(EndError(payload.error));
    }
    if !ShapeOk(h.kind, |payload.value|) {
      return Err(BadShape);
    }
    return Ok(Frame(h.kind, payload.value));
  }

  // ---- epoch payloads ----

  function ParseEpochResetPayload(p: bytes): Option<u32> {
    if |p| != 4 then None else Some(U32At(p, 0))
  }

  method BuildEpochResetPayload(epoch: u32) returns (p: bytes)
    ensures ParseEpochResetPayload(p) == Some(epoch)
    ensures ShapeOk(EPOCH_RESET, |p|)
  {
    var buf := new byte[4];
    PutUint32(buf, 0, epoch);
    p := buf[..];
    assert p[0..4] == buf[0..4];
    U32RoundTrip(epoch, p, 0);
  }
}
