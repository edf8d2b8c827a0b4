/** The wire protocol: frames, their codec, and the template payloads. */
module Protocol {
  import opened Bytes
  import opened Numbers
  import opened Streams

  const PROTOCOL_VERSION: byte := 0x01
  const MAGIC_BYTE: byte := 0xEC
  const HEADER_SIZE: nat := 8
  const MAX_PAYLOAD: nat := 16 * 1024 * 1024

  const EPOCH_RESET: byte := 0x01
  const TEMPLATE_DEFINE: byte := 0x02
  const TEMPLATE_REF: byte := 0x03
  const RAW_DATA: byte := 0x04
  const TEMPLATE_INLINE: byte := 0x05

  const SEG_CONST: byte := 0x01
  const SEG_VAR: byte := 0x02

  datatype Frame = Frame(kind: byte, payload: bytes)

  // Eof is io.EOF, which callers take for a clean end of the stream.
  datatype FrameError =
    | Eof
    | UnexpectedEof
    | BadMagic
    | BadVersion
    | BadFlags
    | TooLarge
    | BadShape

  // ---- frames ----

  /** `validatePayloadShapeV1`. */
  predicate ShapeOk(kind: byte, size: nat) {
    if kind == EPOCH_RESET then size == 4
    else kind in {RAW_DATA, TEMPLATE_DEFINE, TEMPLATE_REF, TEMPLATE_INLINE}
  }

  /** `WriteFrame` accepts exactly these frames (with zero flags). */
  predicate Writable(f: Frame) {
    |f.payload| <= MAX_PAYLOAD && ShapeOk(f.kind, |f.payload|)
  }

  /** The bytes of one frame: the fixed 8-byte header, then the payload. */
  function FrameBytes(f: Frame): (w: bytes)
    ensures |w| == HEADER_SIZE + |f.payload|
  {
    [MAGIC_BYTE, PROTOCOL_VERSION, f.kind, 0] + U32(|f.payload|) + f.payload
  }

  function WireOf(fs: seq<Frame>): bytes {
    if fs == [] then [] else FrameBytes(fs[0]) + WireOf(fs[1..])
  }

  lemma {:induction false} WireOfAppend(a: seq<Frame>, b: seq<Frame>)
    ensures WireOf(a + b) == WireOf(a) + WireOf(b)
  {
    hide FrameBytes, U32, WireOf;
    if a == [] {
      assert a + b == b;
      WireOfNone();
      assert [] + WireOf(b) == WireOf(b);
    } else {
      assert a == [a[0]] + a[1..] && a + b == [a[0]] + (a[1..] + b);
      WireOfCons(a[0], a[1..] + b);
      WireOfCons(a[0], a[1..]);
      WireOfAppend(a[1..], b);
      Assoc(FrameBytes(a[0]), WireOf(a[1..]), WireOf(b));
    }
  }

  lemma WireOfNone()
    ensures WireOf([]) == []
  {}

  lemma WireOfCons(f: Frame, fs: seq<Frame>)
    ensures WireOf([f] + fs) == FrameBytes(f) + WireOf(fs)
  {
    hide FrameBytes;
    assert ([f] + fs)[1..] == fs;
  }

  predicate AllWritable(fs: seq<Frame>) {
    forall f <- fs :: Writable(f)
  }

  function EndError(e: StreamEnd): FrameError {
    if e == AtEnd then Eof else UnexpectedEof
  }

  function ReadFull(s: bytes, n: nat): Result<(bytes, bytes), FrameError> {
    match Take(s, n)
    case Err(e) => Err(EndError(e))
    case Ok(x) => Ok(x)
  }

  /** `ReadFrame` on the unread bytes `s`: the frame and what is left. */
  function ReadFrame(s: bytes): (r: Result<(Frame, bytes), FrameError>)
    ensures r.Ok? ==> |r.value.1| < |s|
  {
    match ReadFull(s, HEADER_SIZE)
    case Err(e) => Err(e)
    case Ok((h, rest)) =>
      if h[0] != MAGIC_BYTE then Err(BadMagic)
      else if h[1] != PROTOCOL_VERSION then Err(BadVersion)
      else if h[3] != 0 then Err(BadFlags)
      else
        var size := U32At(h, 4);
        if size > MAX_PAYLOAD then Err(TooLarge)
        else
          match ReadFull(rest, size)
          case Err(e) => Err(e)
          case Ok((payload, rest2)) =>
            if ShapeOk(h[2], size) then Ok((Frame(h[2], payload), rest2)) else Err(BadShape)
  }

  /** What repeated `ReadFrame` calls deliver, and the error that ends them. */
  datatype ReadLog = ReadLog(frames: seq<Frame>, end: FrameError)

  function ReadAll(s: bytes): ReadLog
    decreases |s|
  {
    match ReadFrame(s)
    case Err(e) => ReadLog([], e)
    case Ok((f, rest)) => var log := ReadAll(rest); ReadLog([f] + log.frames, log.end)
  }

  /** A written frame reads back, leaving exactly what followed it. */
  lemma FrameRoundTrip(f: Frame, rest: bytes)
    requires Writable(f)
    ensures ReadFrame(FrameBytes(f) + rest) == Ok((f, rest))
  {
    var s := FrameBytes(f) + rest;
    var h := s[..HEADER_SIZE];
    assert h == [MAGIC_BYTE, PROTOCOL_VERSION, f.kind, 0] + U32(|f.payload|);
    assert s[HEADER_SIZE..] == f.payload + rest;
    U32RoundTrip(|f.payload|, h, 4);
    assert (f.payload + rest)[..|f.payload|] == f.payload;
    assert (f.payload + rest)[|f.payload|..] == rest;
  }

  /** How many leading frames lie wholly inside the first `k` wire bytes. */
  function WholeFrames(fs: seq<Frame>, k: nat): (m: nat)
    ensures m <= |fs|
  {
    if fs == [] || k < |FrameBytes(fs[0])| then 0
    else 1 + WholeFrames(fs[1..], k - |FrameBytes(fs[0])|)
  }

  /** WholeFrames is the largest count of frames that fits. */
  lemma {:induction false} WholeFramesExact(fs: seq<Frame>, k: nat)
    ensures var m := WholeFrames(fs, k);
            |WireOf(fs[..m])| <= k && (m < |fs| ==> k < |WireOf(fs[..m + 1])|)
  {
    var m := WholeFrames(fs, k);
    if fs != [] {
      if k < |FrameBytes(fs[0])| {
        assert fs[..1] == [fs[0]];
        assert [fs[0]][1..] == [];
      } else {
        WholeFramesExact(fs[1..], k - |FrameBytes(fs[0])|);
        assert fs[..m][0] == fs[0] && fs[..m][1..] == fs[1..][..m - 1];
        if m < |fs| {
          assert fs[..m + 1][0] == fs[0] && fs[..m + 1][1..] == fs[1..][..m];
        }
      }
    }
  }

  /** Cutting a wire stream anywhere yields exactly the frames wholly inside the cut; the end
      is clean at a frame boundary (and also right after a bare header, where the program
      reports io.EOF for the missing payload). */
  lemma {:induction false} ReadPrefix(fs: seq<Frame>, k: nat)
    requires AllWritable(fs) && k <= |WireOf(fs)|
    ensures ReadAll(WireOf(fs)[..k]).frames == fs[..WholeFrames(fs, k)]
    ensures var cut := k - |WireOf(fs[..WholeFrames(fs, k)])|;
            ReadAll(WireOf(fs)[..k]).end == if cut == 0 || cut == HEADER_SIZE then Eof else UnexpectedEof
    decreases |fs|
  {
    hide FrameBytes;
    if fs != [] {
      hide ReadFrame, ReadFull;
      var b, tail := FrameBytes(fs[0]), WireOf(fs[1..]);
      if k < |b| {
        assert (b + tail)[..k] == b[..k];
        TruncatedFrame(fs[0], k);
        assert fs[..0] == [];
      } else {
        hide ReadAll;
        var k', m := k - |b|, WholeFrames(fs[1..], k - |b|);
        ReadPrefix(fs[1..], k');
        PrefixOfConcat(b, tail, k);
        ReadPrefixStep(fs, m, tail[..k']);
        assert WholeFrames(fs, k) == m + 1;
        hide WholeFrames, WireOf;
      }
    }
  }

  lemma PrefixOfConcat(b: bytes, tail: bytes, k: nat)
    requires |b| <= k <= |b + tail|
    ensures (b + tail)[..k] == b + tail[..k - |b|]
  {}

  lemma ReadPrefixStep(fs: seq<Frame>, m: nat, rest: bytes)
    requires fs != [] && Writable(fs[0]) && m <= |fs[1..]|
    requires ReadAll(rest).frames == fs[1..][..m]
    ensures ReadAll(FrameBytes(fs[0]) + rest).frames == fs[..m + 1]
    ensures ReadAll(FrameBytes(fs[0]) + rest).end == ReadAll(rest).end
    ensures WireOf(fs[..m + 1]) == FrameBytes(fs[0]) + WireOf(fs[1..][..m])
  {
    hide FrameBytes, ReadFrame;
    FrameRoundTrip(fs[0], rest);
    assert [fs[0]] + fs[1..][..m] == fs[..m + 1];
    assert fs[..m + 1][1..] == fs[1..][..m];
  }

  lemma TruncatedFrame(f: Frame, k: nat)
    requires Writable(f) && k < |FrameBytes(f)|
    ensures ReadFrame(FrameBytes(f)[..k]) == Err(if k == 0 || k == HEADER_SIZE then Eof else UnexpectedEof)
  {
    var s := FrameBytes(f)[..k];
    if k >= HEADER_SIZE {
      var h := s[..HEADER_SIZE];
      assert h == [MAGIC_BYTE, PROTOCOL_VERSION, f.kind, 0] + U32(|f.payload|);
      U32RoundTrip(|f.payload|, h, 4);
      assert s[HEADER_SIZE..] == f.payload[..k - HEADER_SIZE];
    }
  }

  /** Frames written one after another read back as the same list, ending cleanly. */
  lemma {:induction false} FramesRoundTrip(fs: seq<Frame>)
    requires AllWritable(fs)
    ensures ReadAll(WireOf(fs)) == ReadLog(fs, Eof)
  {
    hide FrameBytes;
    if fs != [] {
      hide ReadFrame;
      FrameRoundTrip(fs[0], WireOf(fs[1..]));
      FramesRoundTrip(fs[1..]);
    }
  }

  // ---- template payloads ----

  datatype Definition = Definition(id: u16, constA: bytes, constB: bytes)

  // Panics: the program slices past the end of the payload.
  datatype Parsed<T> = Parsed(value: T) | Malformed | Panics

  predicate DefineFits(a: bytes, b: bytes) {
    12 + |a| + |b| <= MAX_PAYLOAD
  }

  predicate RefFits(lane: bytes) {
    5 + |lane| <= MAX_PAYLOAD
  }

  /** The layout of a TEMPLATE_DEFINE payload; lengths are cut to 16 bits. */
  function DefinePayload(id: u16, a: bytes, b: bytes): (p: bytes)
    ensures |p| == 12 + |a| + |b|
  {
    U16(id) + [3] + [SEG_CONST] + U16(|a|) + a + [SEG_VAR] + U16(0) + [SEG_CONST] + U16(|b|) + b
  }

  function RefPayload(id: u16, lane: bytes): (p: bytes)
    ensures |p| == 5 + |lane|
  {
    U16(id) + [1] + U16(|lane|) + lane
  }

  function InlinePayload(id: u16, a: bytes, b: bytes, lane: bytes): (p: bytes)
    ensures |p| == 8 + |a| + |b| + |lane|
  {
    U16(id) + U16(|a|) + a + U16(|b|) + b + U16(|lane|) + lane
  }

  /** `ParseTemplateDefinePayload` as a function of the payload. */
  function ParseDefine(p: bytes): Parsed<Definition> {
    if |p| < 3 || p[2] != 3 then Malformed
    else if |p| == 3 then Panics
    else if p[3] != SEG_CONST then Malformed
    else if |p| < 6 then Panics
    else
      var i := 6 + U16At(p, 4);
      if i >= |p| || p[i] != SEG_VAR then Malformed
      else if i + 3 >= |p| || p[i + 3] != SEG_CONST then Malformed
      else if i + 6 > |p| then Malformed
      else
        var j := i + 6 + U16At(p, i + 4);
        if j > |p| then Malformed
        else Parsed(Definition(U16At(p, 0), p[6..i], p[i + 6..j]))
  }

  /** `ParseTemplateRefPayload` as a function of the payload. */
  function ParseRef(p: bytes): Parsed<(u16, bytes)> {
    if |p| < 5 || p[2] != 1 || 5 + U16At(p, 3) > |p| then Malformed
    else Parsed((U16At(p, 0), p[5..5 + U16At(p, 3)]))
  }

  /** `ParseTemplateInlinePayload` as a function of the payload. */
  function ParseInline(p: bytes): Parsed<(Definition, bytes)> {
    if |p| < 8 then Malformed
    else
      var i := 4 + U16At(p, 2);
      if i > |p| then Malformed
      else if i + 2 > |p| then Panics
      else
        var j := i + 2 + U16At(p, i);
        if j > |p| then Malformed
        else if j + 2 > |p| then Panics
        else
          var k := j + 2 + U16At(p, j);
          if k > |p| then Malformed
          else Parsed((Definition(U16At(p, 0), p[4..i], p[i + 2..j]), p[j + 2..k]))
  }
}
