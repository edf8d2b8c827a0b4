/** What the decoder does, frame by frame, as functions of its state: the template table and
    the reassembly of requests. */
module DecoderSpec {
  import opened Bytes
  import opened Numbers
  import opened Protocol

  type Table = map<u16, Definition>

  datatype DecodeError =
    | MissingContentLength
    | MarkerLost
    | BadPayload
    | RefBeforeDefine
    | UnsupportedType
    | Panicked

  // ---- finding the body length ----

  /** The length one header line declares, if it is a Content-Length line with a usable value. */
  function DeclaredLength(line: bytes): (n: Option<int>)
    ensures n.Some? ==> n.value >= 0
  {
    if !HasPrefix(ToLower(line), CONTENT_LENGTH) then None
    else
      match ParseInt(TrimSpace(line[|CONTENT_LENGTH|..]), 10)
      case Some(n) => if n >= 0 then Some(n) else None
      case None => None
  }

  /** The first declared length among the lines, or -1. */
  function FirstLength(lines: seq<bytes>): (n: int)
    ensures n >= -1
  {
    if lines == [] then -1
    else
      match DeclaredLength(lines[0])
      case Some(n) => n
      case None => FirstLength(lines[1..])
  }

  /** `parseContentLengthFromHeaderString`. */
  function ContentLengthOf(hdr: bytes): int {
    FirstLength(Split(hdr, CRLF))
  }

  // ---- reassembly ----

  /** The variables `req`, `headerDone`, `contentLen`, `bodyHave`, and the requests written to
      the destination so far. */
  datatype Assembler = Assembler(
    req: bytes, headerDone: bool, contentLen: int, bodyHave: int, flushed: seq<bytes>)

  function Idle(flushed: seq<bytes>): Assembler {
    Assembler([], false, -1, 0, flushed)
  }

  /** `feed`. */
  function Feed(a: Assembler, b: bytes): Result<Assembler, DecodeError> {
    if b == [] then Ok(a)
    else
      var all := a.req + b;
      var idx := Index(all, CRLFCRLF);
      if !a.headerDone then
        if idx < 0 then Ok(a.(req := all))
        else
          var n := ContentLengthOf(all[..idx + 4]);
          if n < 0 then Err(MissingContentLength)
          else Ok(Assembler(all, true, n, |all| - (idx + 4), a.flushed))
      else if idx < 0 then Err(MarkerLost)
      else Ok(a.(req := all, bodyHave := |all| - (idx + 4)))
  }

  /** `flushReqIfComplete`, then `resetReq`. */
  function Flush(a: Assembler): Assembler {
    if !a.headerDone || a.contentLen < 0 || a.bodyHave < a.contentLen then a
    else Idle(a.flushed + [a.req])
  }

  function Push(a: Assembler, b: bytes): Result<Assembler, DecodeError> {
    match Feed(a, b)
    case Err(e) => Err(e)
    case Ok(a') => Ok(Flush(a'))
  }

  function PushAll(a: Assembler, bs: seq<bytes>): Result<Assembler, DecodeError>
    decreases |bs|
  {
    if bs == [] then Ok(a)
    else
      match Push(a, bs[0])
      case Err(e) => Err(e)
      case Ok(a') => PushAll(a', bs[1..])
  }

  // ---- frames ----

  datatype DecState = DecState(table: Table, epoch: u32, asm: Assembler)

  const FRESH: DecState := DecState(map[], 0, Idle([]))

  function Expand(d: Definition, lane: bytes): bytes {
    d.constA + lane + d.constB
  }

  // What one frame asks for: feed data (INLINE also defines), define, reset, or stop.
  datatype Effect =
    | Feeds(table: Table, data: bytes)
    | Defines(table: Table)
    | Resets(epoch: u32)
    | Fails(error: DecodeError)

  function EffectOf(table: Table, f: Frame): Effect {
    if f.kind == RAW_DATA then Feeds(table, f.payload)
    else if f.kind == TEMPLATE_INLINE then
      match ParseInline(f.payload)
      case Malformed => Fails(BadPayload)
      case Panics => Fails(Panicked)
      case Parsed((d, lane)) => Feeds(table[d.id := d], Expand(d, lane))
    else if f.kind == TEMPLATE_DEFINE then
      match ParseDefine(f.payload)
      case Malformed => Fails(BadPayload)
      case Panics => Fails(Panicked)
      case Parsed(d) => Defines(table[d.id := d])
    else if f.kind == TEMPLATE_REF then
      match ParseRef(f.payload)
      case Parsed((id, lane)) =>
        if id in table then Feeds(table, Expand(table[id], lane)) else Fails(RefBeforeDefine)
      case _ => Fails(BadPayload)
    else if f.kind == EPOCH_RESET then
      if |f.payload| == 4 then Resets(U32At(f.payload, 0)) else Fails(BadPayload)
    else Fails(UnsupportedType)
  }

  /** One turn of the frame loop. */
  function Step(st: DecState, f: Frame): Result<DecState, DecodeError> {
    match EffectOf(st.table, f)
    case Feeds(table, data) =>
      (match Push(st.asm, data)
       case Err(e) => Err(e)
       case Ok(asm) => Ok(DecState(table, st.epoch, asm)))
    case Defines(table) => Ok(st.(table := table))
    case Resets(epoch) => Ok(DecState(map[], epoch, Idle(st.asm.flushed)))
    case Fails(e) => Err(e)
  }

  function RunFrames(st: DecState, fs: seq<Frame>): Result<DecState, DecodeError>
    decreases |fs|
  {
    if fs == [] then Ok(st)
    else
      match Step(st, fs[0])
      case Err(e) => Err(e)
      case Ok(st') => RunFrames(st', fs[1..])
  }

  // How a decoding run over raw bytes ends; CleanEnd is a nil error.
  datatype Ending = CleanEnd | BadFrame(frameError: FrameError) | BadStream(streamError: DecodeError)

  datatype Outcome = Outcome(st: DecState, ending: Ending)

  /** `runDecodeTemplateV1` on the whole byte stream `s`. */
  function RunBytes(st: DecState, s: bytes): Outcome
    decreases |s|
  {
    match ReadFrame(s)
    case Err(Eof) => Outcome(st, CleanEnd)
    case Err(e) => Outcome(st, BadFrame(e))
    case Ok((f, rest)) =>
      match Step(st, f)
      case Err(e) => Outcome(st, BadStream(e))
      case Ok(st') => RunBytes(st', rest)
  }

  /** The bytes written to the destination. */
  function Written(st: DecState): bytes {
    Flatten(st.asm.flushed)
  }

  lemma {:induction false} RunFramesAppend(st: DecState, x: seq<Frame>, y: seq<Frame>)
    ensures RunFrames(st, x + y) ==
            match RunFrames(st, x) case Err(e) => Err(e) case Ok(st') => RunFrames(st', y)
    decreases |x|
  {
    hide Step;
    if x == [] {
      assert x + y == y;
    } else {
      var xy := x + y;
      assert xy[0] == x[0] && xy[1..] == x[1..] + y;
      if Step(st, x[0]).Ok? {
        RunFramesAppend(Step(st, x[0]).value, x[1..], y);
      }
    }
  }

  lemma {:induction false} PushAllAppend(a: Assembler, x: seq<bytes>, y: seq<bytes>)
    ensures PushAll(a, x + y) ==
            match PushAll(a, x) case Err(e) => Err(e) case Ok(a') => PushAll(a', y)
    decreases |x|
  {
    hide Push;
    if x == [] {
      assert x + y == y;
    } else {
      var xy := x + y;
      assert xy[0] == x[0] && xy[1..] == x[1..] + y;
      if Push(a, x[0]).Ok? {
        PushAllAppend(Push(a, x[0]).value, x[1..], y);
      }
    }
  }

  /** Decoding bytes is decoding the frames that can be read from them. */
  lemma {:induction false} RunBytesIsRunFrames(st: DecState, s: bytes)
    ensures var log := ReadAll(s);
            match RunFrames(st, log.frames)
            case Ok(st') => RunBytes(st, s) == Outcome(st', if log.end == Eof then CleanEnd else BadFrame(log.end))
            case Err(e) => RunBytes(st, s).ending == BadStream(e)
    decreases |s|
  {
    hide Step;
    match ReadFrame(s)
    case Err(e) =>
    case Ok((f, rest)) =>
      var log := ReadAll(rest);
      assert ([f] + log.frames)[1..] == log.frames;
      if Step(st, f).Ok? {
        RunBytesIsRunFrames(Step(st, f).value, rest);
      }
  }

  // ---- conservation ----

  /** What holds of the reassembly variables between frames. */
  predicate AsmInv(a: Assembler) {
    var idx := Index(a.req, CRLFCRLF);
    if a.headerDone then
      && idx >= 0
      && a.contentLen == ContentLengthOf(a.req[..idx + 4])
      && a.bodyHave == |a.req| - (idx + 4)
      && a.bodyHave < a.contentLen
    else idx < 0 && a.contentLen == -1 && a.bodyHave == 0
  }

  /** A marker, once found, stays the first marker however the text grows. */
  lemma IndexStable(s: bytes, t: bytes)
    requires Index(s, CRLFCRLF) >= 0
    ensures Index(s + t, CRLFCRLF) == Index(s, CRLFCRLF)
  {
    var i := Index(s, CRLFCRLF);
    assert (s + t)[i..i + 4] == s[i..i + 4];
    forall k | 0 <= k < i
      ensures !MatchAt(s + t, CRLFCRLF, k)
    {
      assert (s + t)[k..k + 4] == s[k..k + 4];
      assert !MatchAt(s, CRLFCRLF, k);
    }
    IndexIs(s + t, CRLFCRLF, i);
  }

  lemma NoMarkerInShort(s: bytes)
    requires |s| < 4
    ensures Index(s, CRLFCRLF) == -1
  {}

  /** A complete request: a header block with a declared length and at least that much body. */
  predicate Complete(r: bytes) {
    var idx := Index(r, CRLFCRLF);
    && idx >= 0
    && 0 <= ContentLengthOf(r[..idx + 4]) <= |r| - (idx + 4)
  }

  /** One push keeps the invariant, conserves every byte, writes only complete requests, and
      can fail only for want of a Content-Length: the lost-marker error never occurs. */
  lemma PushConserves(a: Assembler, b: bytes)
    requires AsmInv(a)
    ensures match Push(a, b)
            case Err(e) => e == MissingContentLength
            case Ok(a') =>
              && AsmInv(a')
              && (|| (a'.flushed == a.flushed && a'.req == a.req + b)
                  || (a'.flushed == a.flushed + [a.req + b] && a'.req == [] && Complete(a.req + b)))
  {
    if b == [] {
      assert a.req + b == a.req;
      hide ContentLengthOf, Index;
    } else if a.headerDone {
      FeedMore(a, b);
      hide ContentLengthOf, Index, Feed, AsmInv, Complete;
    } else {
      NoMarkerInShort([]);
      hide ContentLengthOf, Index;
    }
  }

  /** A push after the header is complete. */
  lemma FeedMore(a: Assembler, b: bytes)
    requires AsmInv(a) && a.headerDone && b != []
    ensures Push(a, b).Ok?
    ensures var a' := Push(a, b).value;
            && AsmInv(a')
            && (|| (a'.flushed == a.flushed && a'.req == a.req + b)
                || (a'.flushed == a.flushed + [a.req + b] && a'.req == [] && Complete(a.req + b)))
  {
    NoMarkerInShort([]);
    IndexStable(a.req, b);
    var idx := Index(a.req, CRLFCRLF);
    hide ContentLengthOf, Index;
    assert (a.req + b)[..idx + 4] == a.req[..idx + 4];
  }

  /** The data a frame stands for under a table; frames that carry none stand for nothing. */
  function DataOf(table: Table, f: Frame): bytes {
    match EffectOf(table, f)
    case Feeds(_, data) => data
    case _ => []
  }

  /** The dictionary effect of a frame. */
  function TableStep(table: Table, f: Frame): Table {
    match EffectOf(table, f)
    case Feeds(t, _) => t
    case Defines(t) => t
    case Resets(_) => map[]
    case Fails(_) => table
  }

  function TableAfter(table: Table, fs: seq<Frame>): Table
    decreases |fs|
  {
    if fs == [] then table else TableAfter(TableStep(table, fs[0]), fs[1..])
  }

  function DataAfter(table: Table, fs: seq<Frame>): bytes
    decreases |fs|
  {
    if fs == [] then [] else DataOf(table, fs[0]) + DataAfter(TableStep(table, fs[0]), fs[1..])
  }

  predicate NoReset(fs: seq<Frame>) {
    forall f <- fs :: f.kind != EPOCH_RESET
  }

  lemma {:induction false} FlattenSnoc(ss: seq<bytes>, s: bytes)
    ensures Flatten(ss + [s]) == Flatten(ss) + s
  {
    FlattenAppend(ss, [s]);
    FlattenSingle(s);
  }

  /** Everything the decoder has received and kept: written bytes, then pending ones. */
  function Held(st: DecState): bytes {
    Written(st) + st.asm.req
  }

  lemma StepConserves(st: DecState, f: Frame)
    requires AsmInv(st.asm) && f.kind != EPOCH_RESET
    ensures match Step(st, f)
            case Err(e) => e != MarkerLost
            case Ok(st') =>
              && AsmInv(st'.asm)
              && st'.table == TableStep(st.table, f)
              && Held(st') == Held(st) + DataOf(st.table, f)
              && (st'.asm.flushed == st.asm.flushed
                  || exists r :: Complete(r) && st'.asm.flushed == st.asm.flushed + [r])
  {
    var e := EffectOf(st.table, f);
    PushConserves(st.asm, DataOf(st.table, f));
    hide Push, AsmInv, Complete;
    var all := st.asm.req + DataOf(st.table, f);
    Assoc(Written(st), st.asm.req, DataOf(st.table, f));
    FlattenSnoc(st.asm.flushed, all);
    assert e.Defines? ==> all == st.asm.req;
    assert !e.Fails? ==> !e.Resets?;
  }

  /** Decoder conservation: over any error-free run without an epoch reset, what was written
      followed by what is pending is what was there before followed by the data of every
      frame, and the bookkeeping stays exact. */
  lemma {:induction false} Conservation(st: DecState, fs: seq<Frame>)
    requires AsmInv(st.asm) && NoReset(fs)
    requires RunFrames(st, fs).Ok?
    ensures var st' := RunFrames(st, fs).value;
            && AsmInv(st'.asm)
            && st'.table == TableAfter(st.table, fs)
            && Held(st') == Held(st) + DataAfter(st.table, fs)
    decreases |fs|
  {
    if fs == [] {
      assert Held(st) + [] == Held(st);
    } else {
      var st1 := Step(st, fs[0]).value;
      StepConserves(st, fs[0]);
      hide Step, DataOf, TableStep, AsmInv, Complete, Held;
      Conservation(st1, fs[1..]);
      Assoc(Held(st), DataOf(st.table, fs[0]), DataAfter(st1.table, fs[1..]));
    }
  }

  predicate AllComplete(rs: seq<bytes>) {
    forall r <- rs :: Complete(r)
  }

  /** Only complete requests are ever written, and nothing written is taken back. */
  lemma {:induction false} OnlyCompleteWritten(st: DecState, fs: seq<Frame>)
    requires AsmInv(st.asm) && NoReset(fs) && AllComplete(st.asm.flushed)
    requires RunFrames(st, fs).Ok?
    ensures var st' := RunFrames(st, fs).value;
            st.asm.flushed <= st'.asm.flushed && AllComplete(st'.asm.flushed)
    decreases |fs|
  {
    hide Step, AsmInv, Complete, Held;
    if fs != [] {
      StepConserves(st, fs[0]);
      OnlyCompleteWritten(Step(st, fs[0]).value, fs[1..]);
    }
  }

  lemma StepKeepsInv(st: DecState, f: Frame)
    requires AsmInv(st.asm)
    ensures Step(st, f) != Err(MarkerLost)
    ensures Step(st, f).Ok? ==> AsmInv(Step(st, f).value.asm)
  {
    if f.kind == EPOCH_RESET {
      NoMarkerInShort([]);
    } else {
      StepConserves(st, f);
    }
  }

  /** In any run from an invariant state, resets included, the marker is never lost, and the
      invariant holds after every frame. */
  lemma {:induction false} MarkerNeverLost(st: DecState, fs: seq<Frame>)
    requires AsmInv(st.asm)
    ensures RunFrames(st, fs) != Err(MarkerLost)
    ensures RunFrames(st, fs).Ok? ==> AsmInv(RunFrames(st, fs).value.asm)
    decreases |fs|
  {
    hide Step, AsmInv;
    if fs != [] {
      StepKeepsInv(st, fs[0]);
      if Step(st, fs[0]).Ok? {
        MarkerNeverLost(Step(st, fs[0]).value, fs[1..]);
      }
    }
  }

  // ---- epochs ----

  /** The same state with `pre` already written and another epoch number. */
  function Shift(st: DecState, pre: seq<bytes>, epoch: u32): DecState {
    DecState(st.table, epoch, st.asm.(flushed := pre + st.asm.flushed))
  }

  function EpochStep(epoch: u32, f: Frame): u32 {
    if f.kind == EPOCH_RESET && |f.payload| == 4 then U32At(f.payload, 0) else epoch
  }

  function EpochAfter(epoch: u32, fs: seq<Frame>): u32
    decreases |fs|
  {
    if fs == [] then epoch else EpochAfter(EpochStep(epoch, fs[0]), fs[1..])
  }

  lemma EffectEpoch(table: Table, f: Frame, epoch: u32)
    ensures match EffectOf(table, f)
            case Resets(e) => EpochStep(epoch, f) == e
            case Fails(_) => true
            case _ => EpochStep(epoch, f) == epoch
  {
    hide ParseDefine, ParseInline, ParseRef, U32At;
  }

  /** Earlier output and the epoch number never influence decoding. */
  lemma StepShift(st: DecState, f: Frame, pre: seq<bytes>, epoch: u32)
    ensures match Step(st, f)
            case Err(e) => Step(Shift(st, pre, epoch), f) == Err(e)
            case Ok(st') => Step(Shift(st, pre, epoch), f) == Ok(Shift(st', pre, EpochStep(epoch, f)))
  {
    EffectEpoch(st.table, f, epoch);
    PushShift(st.asm, DataOf(st.table, f), pre);
    hide EffectOf, Push, EpochStep;
  }

  lemma PushShift(a: Assembler, b: bytes, pre: seq<bytes>)
    ensures Push(a.(flushed := pre + a.flushed), b) ==
            match Push(a, b)
            case Err(e) => Err(e)
            case Ok(a') => Ok(a'.(flushed := pre + a'.flushed))
  {
    hide Index, ContentLengthOf;
    Assoc(pre, a.flushed, [a.req + b]);
    Assoc(pre, a.flushed, [a.req]);
  }

  lemma {:induction false} RunShift(st: DecState, fs: seq<Frame>, pre: seq<bytes>, epoch: u32)
    ensures match RunFrames(st, fs)
            case Err(e) => RunFrames(Shift(st, pre, epoch), fs) == Err(e)
            case Ok(st') => RunFrames(Shift(st, pre, epoch), fs) == Ok(Shift(st', pre, EpochAfter(epoch, fs)))
    decreases |fs|
  {
    if fs != [] {
      StepShift(st, fs[0], pre, epoch);
      hide Step, Shift;
      if Step(st, fs[0]).Ok? {
        RunShift(Step(st, fs[0]).value, fs[1..], pre, EpochStep(epoch, fs[0]));
      }
    }
  }

  function EpochFrame(epoch: u32): Frame {
    Frame(EPOCH_RESET, U32(epoch))
  }

  /** An epoch reset composes runs: after it the decoder behaves as a fresh one whose output is
      appended, pending bytes are dropped, and it fails exactly when the fresh one fails. */
  lemma EpochResetComposes(s1: seq<Frame>, epoch: u32, s2: seq<Frame>)
    requires RunFrames(FRESH, s1).Ok?
    ensures var st1 := RunFrames(FRESH, s1).value;
            var whole := RunFrames(FRESH, s1 + [EpochFrame(epoch)] + s2);
            match RunFrames(FRESH, s2)
            case Err(e) => whole == Err(e)
            case Ok(st2) =>
              && whole.Ok?
              && Written(whole.value) == Written(st1) + Written(st2)
              && whole.value.asm.flushed == st1.asm.flushed + st2.asm.flushed
              && whole.value.table == st2.table
              && whole.value.asm.req == st2.asm.req
  {
    var st1 := RunFrames(FRESH, s1).value;
    var reset := EpochFrame(epoch);
    assert U32(epoch)[0..4] == U32(epoch);
    U32RoundTrip(epoch, U32(epoch), 0);
    assert Step(st1, reset) == Ok(Shift(FRESH, st1.asm.flushed, epoch)) by {
      assert st1.asm.flushed + [] == st1.asm.flushed;
    }
    assert [reset][1..] == [];
    assert RunFrames(st1, [reset]) == Ok(Shift(FRESH, st1.asm.flushed, epoch));
    hide Step;
    RunFramesAppend(FRESH, s1, [reset]);
    RunFramesAppend(FRESH, s1 + [reset], s2);
    RunShift(FRESH, s2, st1.asm.flushed, epoch);
    if RunFrames(FRESH, s2).Ok? {
      FlattenAppend(st1.asm.flushed, RunFrames(FRESH, s2).value.asm.flushed);
    }
  }

  lemma {:induction false} EpochStays(st: DecState, fs: seq<Frame>)
    requires NoReset(fs) && RunFrames(st, fs).Ok?
    ensures RunFrames(st, fs).value.epoch == st.epoch
    decreases |fs|
  {
    if fs != [] {
      assert fs[0] in fs && forall f <- fs[1..] :: f in fs;
      StepEpoch(st, fs[0]);
      hide Step;
      EpochStays(Step(st, fs[0]).value, fs[1..]);
    }
  }

  lemma StepEpoch(st: DecState, f: Frame)
    requires Step(st, f).Ok? && f.kind != EPOCH_RESET
    ensures Step(st, f).value.epoch == st.epoch
  {
    hide Push, ParseDefine, ParseInline, ParseRef;
  }

  /** After a reset, and until the next, the decoder is in the epoch the reset names. */
  lemma EpochNamed(st: DecState, epoch: u32, fs: seq<Frame>)
    requires NoReset(fs) && RunFrames(st, [EpochFrame(epoch)] + fs).Ok?
    ensures RunFrames(st, [EpochFrame(epoch)] + fs).value.epoch == epoch
  {
    var reset := EpochFrame(epoch);
    assert U32(epoch)[0..4] == U32(epoch);
    U32RoundTrip(epoch, U32(epoch), 0);
    assert ([reset] + fs)[0] == reset && ([reset] + fs)[1..] == fs;
    EpochStays(Step(st, reset).value, fs);
  }
}
