/** What the encoder emits for each piece, as a function of its dictionary and hit counts,
    and what that does to the decoder's table. `h` stands for templateIDFor: nothing is
    assumed about it except where a lemma says so. */
module EncoderSpec {
  import opened Bytes
  import opened Numbers
  import opened Protocol
  import opened Splitter
  import opened DecoderSpec
  import opened Sorting
  import TemplateCodec

  const PROMOTE_AFTER_HITS: nat := 3

  type IdFn = (bytes, bytes) -> u16

  datatype SpanInfo = SpanInfo(hits: u32, defined: bool)

  datatype EncState = EncState(table: Table, spans: map<u16, SpanInfo>)

  const START: EncState := EncState(map[], map[])

  datatype Emission = Emission(st: EncState, frames: seq<Frame>)

  function RawFrame(data: bytes): Frame {
    Frame(RAW_DATA, data)
  }

  /** The gate: a segment is worth a template only when its constants outweigh its lane. */
  predicate Gated(p: Piece) {
    p.Seg? && |p.constA| + |p.constB| > |p.lane|
  }

  function IdOf(h: IdFn, p: Piece): u16
    requires p.Seg?
  {
    h(p.constA, p.constB)
  }

  /** A REF goes out only when it fits and is strictly shorter than the raw piece. */
  predicate RefPays(p: Piece) {
    p.Seg? && RefFits(p.lane) && 5 + |p.lane| < |PieceBytes(p)|
  }

  function RefOrRaw(h: IdFn, p: Piece): Frame
    requires p.Seg?
  {
    if RefPays(p) then Frame(TEMPLATE_REF, RefPayload(IdOf(h, p), p.lane)) else RawFrame(PieceBytes(p))
  }

  function StatOf(st: EncState, id: u16): SpanInfo {
    if id in st.spans then st.spans[id] else SpanInfo(0, false)
  }

  /** The piece reaches its promotion threshold with this hit (32-bit counter). */
  predicate Promoted(h: IdFn, st: EncState, p: Piece) {
    Gated(p) && (StatOf(st, IdOf(h, p)).hits + 1) % TWO32 >= PROMOTE_AFTER_HITS
  }

  /** This hit is the one that defines the template. */
  predicate DefinesNow(h: IdFn, st: EncState, p: Piece) {
    Promoted(h, st, p) && !StatOf(st, IdOf(h, p)).defined && DefineFits(p.constA, p.constB)
  }

  function DefinitionOf(h: IdFn, p: Piece): Definition
    requires p.Seg?
  {
    Definition(IdOf(h, p), p.constA, p.constB)
  }

  function DefineFrame(d: Definition): Frame {
    Frame(TEMPLATE_DEFINE, DefinePayload(d.id, d.constA, d.constB))
  }

  /** `emitWithDelayedPromotionDefineRef` (and the plain RAW write) for one piece. */
  function Emit(h: IdFn, st: EncState, p: Piece): Emission {
    if !Gated(p) then Emission(st, [RawFrame(PieceBytes(p))])
    else
      var id := IdOf(h, p);
      var stat := StatOf(st, id);
      var hits := (stat.hits + 1) % TWO32;
      if DefinesNow(h, st, p) then
        Emission(EncState(st.table[id := DefinitionOf(h, p)], st.spans[id := SpanInfo(hits, true)]),
                 [DefineFrame(DefinitionOf(h, p)), RefOrRaw(h, p)])
      else
        Emission(st.(spans := st.spans[id := SpanInfo(hits, stat.defined)]),
                 [if Promoted(h, st, p) && stat.defined then RefOrRaw(h, p) else RawFrame(PieceBytes(p))])
  }

  function EmitAll(h: IdFn, st: EncState, ps: seq<Piece>): Emission
    decreases |ps|
  {
    if ps == [] then Emission(st, [])
    else
      var e := Emit(h, st, ps[0]);
      var more := EmitAll(h, e.st, ps[1..]);
      Emission(more.st, e.frames + more.frames)
  }

  lemma {:induction false} EmitAllAppend(h: IdFn, st: EncState, x: seq<Piece>, y: seq<Piece>)
    ensures var ex := EmitAll(h, st, x);
            var ey := EmitAll(h, ex.st, y);
            EmitAll(h, st, x + y) == Emission(ey.st, ex.frames + ey.frames)
    decreases |x|
  {
    hide Emit;
    if x == [] {
      assert x + y == y;
    } else {
      var xy := x + y;
      assert xy[0] == x[0] && xy[1..] == x[1..] + y;
      var e := Emit(h, st, x[0]);
      EmitAllAppend(h, e.st, x[1..], y);
      var ex := EmitAll(h, e.st, x[1..]);
      Assoc(e.frames, ex.frames, EmitAll(h, ex.st, y).frames);
    }
  }

  lemma EmitAllOne(h: IdFn, st: EncState, p: Piece)
    ensures EmitAll(h, st, [p]) == Emit(h, st, p)
  {
    hide Emit;
    assert [p][1..] == [];
    assert Emit(h, st, p).frames + [] == Emit(h, st, p).frames;
  }

  /** Frames are refused by the writer only for a raw piece over the payload limit. */
  lemma EmitWritable(h: IdFn, st: EncState, p: Piece)
    requires |PieceBytes(p)| <= MAX_PAYLOAD
    ensures AllWritable(Emit(h, st, p).frames)
  {
    hide DefinePayload, RefPayload;
  }

  lemma {:induction false} EmitAllWritable(h: IdFn, st: EncState, ps: seq<Piece>)
    requires forall p <- ps :: |PieceBytes(p)| <= MAX_PAYLOAD
    ensures AllWritable(EmitAll(h, st, ps).frames)
    decreases |ps|
  {
    if ps != [] {
      EmitWritable(h, st, ps[0]);
      hide Emit;
      EmitAllWritable(h, Emit(h, st, ps[0]).st, ps[1..]);
    }
  }

  // ---- dictionary agreement, with no assumption on h ----

  /** A definition whose lengths survive their 16-bit fields. */
  predicate Fits16(p: Piece) {
    p.Seg? ==> |p.constA| < TWO16 && |p.constB| < TWO16
  }

  /** The encoder's dictionary holds exactly the ids marked defined, each under its own id. */
  predicate EncInv(h: IdFn, st: EncState) {
    && (forall id <- st.table :: id in st.spans && st.spans[id].defined)
    && (forall id <- st.spans :: st.spans[id].defined ==> id in st.table)
    && (forall id <- st.table :: st.table[id].id == id && h(st.table[id].constA, st.table[id].constB) == id)
  }

  lemma EmitKeepsInv(h: IdFn, st: EncState, p: Piece)
    requires EncInv(h, st)
    ensures EncInv(h, Emit(h, st, p).st)
    ensures st.table.Keys <= Emit(h, st, p).st.table.Keys
  {
    hide DefinePayload, RefPayload;
  }

  /** The dictionary and the hit counters agree after every run of pieces. */
  lemma {:induction false} EmitAllKeepsInv(h: IdFn, st: EncState, ps: seq<Piece>)
    requires EncInv(h, st)
    ensures EncInv(h, EmitAll(h, st, ps).st)
    decreases |ps|
  {
    hide Emit, EncInv;
    if ps != [] {
      EmitKeepsInv(h, st, ps[0]);
      EmitAllKeepsInv(h, Emit(h, st, ps[0]).st, ps[1..]);
    }
  }

  /** No frame asks the decoder for something it cannot do with its table. */
  predicate EffectsOk(table: Table, fs: seq<Frame>)
    decreases |fs|
  {
    fs == [] || (!EffectOf(table, fs[0]).Fails? && EffectsOk(TableStep(table, fs[0]), fs[1..]))
  }

  lemma {:induction false} EffectsAppend(table: Table, x: seq<Frame>, y: seq<Frame>)
    ensures EffectsOk(table, x + y) <==> EffectsOk(table, x) && EffectsOk(TableAfter(table, x), y)
    ensures TableAfter(table, x + y) == TableAfter(TableAfter(table, x), y)
    ensures DataAfter(table, x + y) == DataAfter(table, x) + DataAfter(TableAfter(table, x), y)
    decreases |x|
  {
    hide EffectOf, TableStep, DataOf;
    if x == [] {
      assert x + y == y;
    } else {
      var xy := x + y;
      assert xy[0] == x[0] && xy[1..] == x[1..] + y;
      var t := TableStep(table, x[0]);
      EffectsAppend(t, x[1..], y);
      Assoc(DataOf(table, x[0]), DataAfter(t, x[1..]), DataAfter(TableAfter(table, x), y));
    }
  }

  lemma EffectsOne(table: Table, f: Frame)
    ensures EffectsOk(table, [f]) <==> !EffectOf(table, f).Fails?
    ensures TableAfter(table, [f]) == TableStep(table, f)
    ensures DataAfter(table, [f]) == DataOf(table, f)
  {
    hide EffectOf;
    assert [f][1..] == [];
  }

  lemma EffectsTwo(table: Table, f: Frame, g: Frame)
    ensures var t := TableStep(table, f);
            && (EffectsOk(table, [f, g]) <==> !EffectOf(table, f).Fails? && !EffectOf(t, g).Fails?)
            && TableAfter(table, [f, g]) == TableStep(t, g)
            && DataAfter(table, [f, g]) == DataOf(table, f) + DataOf(t, g)
  {
    hide EffectOf, DataOf, TableStep;
    assert [f, g] == [f] + [g];
    EffectsAppend(table, [f], [g]);
    EffectsOne(table, f);
    EffectsOne(TableStep(table, f), g);
  }

  /** The effect of a DEFINE frame, exactly. */
  lemma DefineEffect(table: Table, d: Definition)
    ensures EffectOf(table, DefineFrame(d)) == Defines(table[d.id := d])
            <==> |d.constA| < TWO16 && |d.constB| < TWO16
    ensures !EffectOf(table, DefineFrame(d)).Feeds? && !EffectOf(table, DefineFrame(d)).Resets?
  {
    TemplateCodec.DefineRoundTrip(d.id, d.constA, d.constB);
    hide DefinePayload, ParseDefine;
    var p := DefinePayload(d.id, d.constA, d.constB);
    match ParseDefine(p) {
      case Parsed(e) =>
        if e != d {
          DefineIdKept(d, e);
          assert table[e.id := e][d.id] == e;
        }
      case _ =>
    }
  }

  lemma DefineIdKept(d: Definition, e: Definition)
    requires ParseDefine(DefinePayload(d.id, d.constA, d.constB)) == Parsed(e)
    ensures e.id == d.id
  {
    var p := DefinePayload(d.id, d.constA, d.constB);
    assert p[0..2] == U16(d.id);
    U16RoundTrip(d.id, p, 0);
  }

  /** A REF to a known id never fails and never changes the table; it yields its own lane
      exactly when the lane fits its length field. */
  lemma RefEffect(table: Table, id: u16, lane: bytes)
    requires id in table
    ensures var e := EffectOf(table, Frame(TEMPLATE_REF, RefPayload(id, lane)));
            && e.Feeds? && e.table == table
            && (e.data == Expand(table[id], lane) <==> |lane| < TWO16)
  {
    var p := RefPayload(id, lane);
    assert p[0..2] == U16(id) && p[3..5] == U16(|lane|) && p[5..5 + |lane|] == lane;
    U16RoundTrip(id, p, 0);
    U16RoundTrip(|lane|, p, 3);
  }

  /** Dictionary agreement for one piece: whatever h is, once the definitions fit, the
      decoder's table follows the encoder's and no frame fails on it. */
  lemma EmitAgrees(h: IdFn, st: EncState, p: Piece)
    requires EncInv(h, st) && Fits16(p)
    ensures var e := Emit(h, st, p);
            EffectsOk(st.table, e.frames) && TableAfter(st.table, e.frames) == e.st.table
  {
    var e := Emit(h, st, p);
    if p.Seg? {
      DefineEffect(st.table, DefinitionOf(h, p));
      var id := IdOf(h, p);
      hide DefinePayload, RefPayload, ParseDefine, ParseRef;
      if id in e.st.table {
        RefEffect(e.st.table, id, p.lane);
      }
    }
    if |e.frames| == 1 {
      EffectsOne(st.table, e.frames[0]);
    } else {
      EffectsTwo(st.table, e.frames[0], e.frames[1]);
    }
  }

  /** Simulation without injectivity: along any run the decoder's table equals the encoder's
      after every piece, and no frame is malformed or refers to an undefined id. */
  lemma {:induction false} DictionariesAgree(h: IdFn, st: EncState, ps: seq<Piece>)
    requires EncInv(h, st) && forall p <- ps :: Fits16(p)
    ensures var e := EmitAll(h, st, ps);
            && EncInv(h, e.st)
            && EffectsOk(st.table, e.frames)
            && TableAfter(st.table, e.frames) == e.st.table
    decreases |ps|
  {
    if ps != [] {
      EmitAgrees(h, st, ps[0]);
      EmitKeepsInv(h, st, ps[0]);
      hide Emit, EncInv, Fits16;
      var e := Emit(h, st, ps[0]);
      DictionariesAgree(h, e.st, ps[1..]);
      EffectsAppend(st.table, e.frames, EmitAll(h, e.st, ps[1..]).frames);
    }
  }

  /** The decoder, fed any prefix of such frames from a fresh start, can stop only for a
      missing Content-Length: a REF before its DEFINE never reaches it. */
  lemma {:induction false} OnlyLengthCanFail(st: DecState, fs: seq<Frame>)
    requires AsmInv(st.asm) && EffectsOk(st.table, fs)
    ensures RunFrames(st, fs).Err? ==> RunFrames(st, fs).error == MissingContentLength
    ensures RunFrames(st, fs).Ok? ==> RunFrames(st, fs).value.table == TableAfter(st.table, fs)
    decreases |fs|
  {
    if fs != [] {
      var f := fs[0];
      StepKeepsInv(st, f);
      PushConserves(st.asm, DataOf(st.table, f));
      hide EffectOf, Push, AsmInv;
      assert Step(st, f).Err? ==> Step(st, f).error == MissingContentLength;
      assert Step(st, f).Ok? ==> Step(st, f).value.table == TableStep(st.table, f);
      hide Step, TableStep;
      if Step(st, f).Ok? {
        OnlyLengthCanFail(Step(st, f).value, fs[1..]);
      }
    }
  }

  lemma EffectsPrefix(table: Table, fs: seq<Frame>, k: nat)
    requires EffectsOk(table, fs) && k <= |fs|
    ensures EffectsOk(table, fs[..k])
  {
    hide EffectOf, TableStep;
    assert fs == fs[..k] + fs[k..];
    EffectsAppend(table, fs[..k], fs[k..]);
  }

  /** The whole statement for a run from scratch, cut after any number of frames. */
  lemma RefNeverBeforeDefine(h: IdFn, ps: seq<Piece>, k: nat)
    requires forall p <- ps :: Fits16(p)
    requires k <= |EmitAll(h, START, ps).frames|
    ensures var fs := EmitAll(h, START, ps).frames[..k];
            match RunFrames(FRESH, fs)
            case Ok(st) => st.table == TableAfter(map[], fs)
            case Err(e) => e == MissingContentLength
  {
    DictionariesAgree(h, START, ps);
    var fs := EmitAll(h, START, ps).frames;
    EffectsPrefix(map[], fs, k);
    NoMarkerInShort([]);
    OnlyLengthCanFail(FRESH, fs[..k]);
  }

  // ---- each template is defined at most once ----

  function DefineIds(fs: seq<Frame>): seq<u16> {
    if fs == [] then []
    else
      (if fs[0].kind == TEMPLATE_DEFINE && |fs[0].payload| >= 2 then [U16At(fs[0].payload, 0)] else [])
      + DefineIds(fs[1..])
  }

  lemma {:induction false} DefineIdsAppend(x: seq<Frame>, y: seq<Frame>)
    ensures DefineIds(x + y) == DefineIds(x) + DefineIds(y)
  {
    if x == [] {
      assert x + y == y;
    } else {
      var xy := x + y;
      assert xy[0] == x[0] && xy[1..] == x[1..] + y;
      DefineIdsAppend(x[1..], y);
    }
  }

  lemma DefineFrameId(d: Definition)
    ensures DefineIds([DefineFrame(d)]) == [d.id]
  {
    var p := DefinePayload(d.id, d.constA, d.constB);
    assert p[0..2] == U16(d.id);
    U16RoundTrip(d.id, p, 0);
    hide DefinePayload, U16At;
    assert [DefineFrame(d)][1..] == [];
  }

  lemma OtherFrameIds(f: Frame)
    requires f.kind != TEMPLATE_DEFINE
    ensures DefineIds([f]) == []
  {
    assert [f][1..] == [];
  }

  lemma EmitDefineIds(h: IdFn, st: EncState, p: Piece)
    ensures var e := Emit(h, st, p);
            DefineIds(e.frames) == if DefinesNow(h, st, p) then [IdOf(h, p)] else []
  {
    hide DefineIds, DefinePayload, RefPayload;
    if DefinesNow(h, st, p) {
      var d := DefinitionOf(h, p);
      DefineFrameId(d);
      OtherFrameIds(RefOrRaw(h, p));
      assert Emit(h, st, p).frames == [DefineFrame(d)] + [RefOrRaw(h, p)];
      DefineIdsAppend([DefineFrame(d)], [RefOrRaw(h, p)]);
    } else {
      OtherFrameIds(Emit(h, st, p).frames[0]);
    }
  }

  /** `ids` are distinct, new to `before`, and all that `after` has gained. */
  ghost predicate Gains(before: set<u16>, ids: seq<u16>, after: set<u16>) {
    NoDup(ids) && (forall id <- ids :: id !in before) && after == before + set id <- ids
  }

  lemma EmitGains(h: IdFn, st: EncState, p: Piece)
    requires EncInv(h, st)
    ensures var e := Emit(h, st, p);
            Gains(st.table.Keys, DefineIds(e.frames), e.st.table.Keys)
  {
    EmitDefineIds(h, st, p);
    hide DefineIds, DefinePayload, RefPayload;
  }

  lemma GainsJoin(before: set<u16>, x: seq<u16>, middle: set<u16>, y: seq<u16>, after: set<u16>)
    requires Gains(before, x, middle) && Gains(middle, y, after)
    ensures Gains(before, x + y, after)
  {
    assert forall id <- x :: id in middle;
    var xy := x + y;
    forall i, j | 0 <= i < j < |xy|
      ensures xy[i] != xy[j]
    {
      assert i < |x| <= j ==> xy[i] in x && xy[j] in y;
    }
    assert (set id <- xy) == (set id <- x) + (set id <- y);
  }

  /** Along any run no id is DEFINEd twice, and the ids DEFINEd are exactly those the
      dictionary gained. */
  lemma {:induction false} DefinedOnce(h: IdFn, st: EncState, ps: seq<Piece>)
    requires EncInv(h, st)
    ensures var e := EmitAll(h, st, ps);
            Gains(st.table.Keys, DefineIds(e.frames), e.st.table.Keys)
    decreases |ps|
  {
    hide Emit, EncInv;
    if ps != [] {
      var e := Emit(h, st, ps[0]);
      EmitGains(h, st, ps[0]);
      EmitKeepsInv(h, st, ps[0]);
      DefinedOnce(h, e.st, ps[1..]);
      hide Gains;
      var rest := EmitAll(h, e.st, ps[1..]);
      DefineIdsAppend(e.frames, rest.frames);
      GainsJoin(st.table.Keys, DefineIds(e.frames), e.st.table.Keys, DefineIds(rest.frames), rest.st.table.Keys);
    }
  }

  // ---- promotion follows the history of hits ----

  /** A hit for this id: a segment of it whose constants outweigh its lane. */
  predicate HitsId(h: IdFn, p: Piece, id: u16) {
    p.Seg? && |p.constA| + |p.constB| > |p.lane| && h(p.constA, p.constB) == id
  }

  /** How many hits the history has for this id. */
  function Hits(h: IdFn, ps: seq<Piece>, id: u16): nat {
    if ps == [] then 0
    else Hits(h, ps[..|ps| - 1], id) + (if HitsId(h, ps[|ps| - 1], id) then 1 else 0)
  }

  predicate AllDefineFit(ps: seq<Piece>) {
    forall p <- ps :: p.Seg? ==> DefineFits(p.constA, p.constB)
  }

  /** The state is what the history `ps` leaves behind: the counter is the hit count modulo
      2^32, and a template is never defined before its third hit; when every definition fits
      a frame, it is defined exactly from the third hit on. */
  predicate ReflectsAt(h: IdFn, st: EncState, ps: seq<Piece>, id: u16) {
    && StatOf(st, id).hits == Hits(h, ps, id) % TWO32
    && (StatOf(st, id).defined ==> Hits(h, ps, id) >= PROMOTE_AFTER_HITS)
    && (AllDefineFit(ps) && Hits(h, ps, id) >= PROMOTE_AFTER_HITS ==> StatOf(st, id).defined)
  }

  predicate Reflects(h: IdFn, st: EncState, ps: seq<Piece>) {
    forall id: u16 :: ReflectsAt(h, st, ps, id)
  }

  lemma EmitStat(h: IdFn, st: EncState, p: Piece, id: u16)
    ensures var stat, stat' := StatOf(st, id), StatOf(Emit(h, st, p).st, id);
            if Gated(p) && IdOf(h, p) == id
            then stat' == SpanInfo((stat.hits + 1) % TWO32, stat.defined || DefinesNow(h, st, p))
            else stat' == stat
  {
    hide DefinePayload, RefPayload;
  }

  lemma EmitReflects(h: IdFn, st: EncState, ps: seq<Piece>, p: Piece, id: u16)
    requires ReflectsAt(h, st, ps, id)
    ensures ReflectsAt(h, Emit(h, st, p).st, ps + [p], id)
  {
    hide Emit;
    var qs, n := ps + [p], Hits(h, ps, id);
    assert qs[..|qs| - 1] == ps;
    assert AllDefineFit(qs) ==> AllDefineFit(ps) && (p.Seg? ==> DefineFits(p.constA, p.constB)) by {
      assert forall q <- ps :: q in qs;
      assert p in qs;
    }
    hide AllDefineFit;
    EmitStat(h, st, p, id);
    if Gated(p) && IdOf(h, p) == id {
      ModSucc(n);
      assert Hits(h, qs, id) == n + 1;
      hide Hits;
      assert DefinesNow(h, st, p) ==> n + 1 >= PROMOTE_AFTER_HITS;
      assert n + 1 == PROMOTE_AFTER_HITS ==> Promoted(h, st, p);
    } else {
      assert Hits(h, qs, id) == n;
    }
  }

  lemma {:induction false} EmitAllReflects(h: IdFn, ps: seq<Piece>)
    ensures Reflects(h, EmitAll(h, START, ps).st, ps)
  {
    if ps != [] {
      var init, last := ps[..|ps| - 1], ps[|ps| - 1];
      assert ps == init + [last];
      EmitAllReflects(h, init);
      hide ReflectsAt, Emit;
      EmitAllAppend(h, START, init, [last]);
      EmitAllOne(h, EmitAll(h, START, init).st, last);
      forall id: u16
        ensures ReflectsAt(h, EmitAll(h, START, ps).st, ps, id)
      {
        EmitReflects(h, EmitAll(h, START, init).st, init, last, id);
      }
    }
  }

  /** Some piece of the history with this id came third or later (the counter is 32 bits) and
      its definition fitted a frame. */
  predicate WasDefined(h: IdFn, ps: seq<Piece>, id: u16) {
    exists i :: 0 <= i < |ps| && DefinedAt(h, ps, id, i)
  }

  predicate DefinedAt(h: IdFn, ps: seq<Piece>, id: u16, i: nat)
    requires i < |ps|
  {
    && HitsId(h, ps[i], id)
    && (Hits(h, ps[..i], id) + 1) % TWO32 >= PROMOTE_AFTER_HITS && DefineFits(ps[i].constA, ps[i].constB)
  }

  lemma DefinedSnoc(h: IdFn, ps: seq<Piece>, p: Piece, id: u16)
    ensures WasDefined(h, ps + [p], id) <==>
            WasDefined(h, ps, id)
            || (HitsId(h, p, id) && (Hits(h, ps, id) + 1) % TWO32 >= PROMOTE_AFTER_HITS
                && DefineFits(p.constA, p.constB))
  {
    hide DefineFits, Hits;
    var all := ps + [p];
    assert all[..|ps|] == ps && all[|ps|] == p;
    forall i | 0 <= i < |ps|
      ensures DefinedAt(h, all, id, i) == DefinedAt(h, ps, id, i)
    {
      assert all[..i] == ps[..i] && all[i] == ps[i];
    }
    assert DefinedAt(h, all, id, |ps|) <==>
           HitsId(h, p, id) && (Hits(h, ps, id) + 1) % TWO32 >= PROMOTE_AFTER_HITS
           && DefineFits(p.constA, p.constB);
    hide DefinedAt, HitsId;
    if WasDefined(h, all, id) {
      var i :| 0 <= i < |all| && DefinedAt(h, all, id, i);
      assert i < |ps| ==> DefinedAt(h, ps, id, i);
    }
    if WasDefined(h, ps, id) {
      var i :| 0 <= i < |ps| && DefinedAt(h, ps, id, i);
      assert DefinedAt(h, all, id, i);
    }
  }

  /** After any history an id is marked defined exactly when some piece of it was promoted with
      a definition that fitted. */
  lemma {:induction false} DefinedIs(h: IdFn, ps: seq<Piece>, id: u16)
    ensures StatOf(EmitAll(h, START, ps).st, id).defined <==> WasDefined(h, ps, id)
  {
    hide Emit, DefinedAt, Hits;
    if ps != [] {
      var init, p := ps[..|ps| - 1], ps[|ps| - 1];
      var st := EmitAll(h, START, init).st;
      assert ps == init + [p];
      DefinedIs(h, init, id);
      DefinedSnoc(h, init, p, id);
      EmitAllAppend(h, START, init, [p]);
      EmitAllOne(h, st, p);
      EmitAllReflects(h, init);
      assert ReflectsAt(h, st, init, id);
      hide EmitAll, WasDefined;
      EmitStat(h, st, p, id);
      ModSucc(Hits(h, init, id));
    }
  }

  /** The delayed-promotion rule, stated on the history alone, for every piece and every
      history: with n the number of hits of this id so far, this one included, modulo 2^32, the
      first two go out raw; later ones refer when the id was defined before, define and refer
      when it was not and the definition fits a frame, and else go out raw. A reference gives
      way to the raw bytes unless it fits a frame and is shorter. */
  lemma PromotionRule(h: IdFn, done: seq<Piece>, a: bytes, l: bytes, b: bytes)
    ensures var id := h(a, b);
            var raw := Frame(RAW_DATA, a + l + b);
            var ref := if 5 + |l| <= MAX_PAYLOAD && 5 < |a| + |b| then Frame(TEMPLATE_REF, RefPayload(id, l)) else raw;
            Emit(h, EmitAll(h, START, done).st, Seg(a, l, b)).frames ==
              if |a| + |b| <= |l| || (Hits(h, done, id) + 1) % TWO32 < 3 then [raw]
              else if WasDefined(h, done, id) then [ref]
              else if 12 + |a| + |b| <= MAX_PAYLOAD then [Frame(TEMPLATE_DEFINE, DefinePayload(id, a, b)), ref]
              else [raw]
  {
    hide EmitAll, WasDefined, Hits, Reflects, DefinePayload, RefPayload;
    var id := h(a, b);
    EmitAllReflects(h, done);
    DefinedIs(h, done, id);
    ReflectsHere(h, EmitAll(h, START, done).st, done, id);
    ModSucc(Hits(h, done, id));
  }

  lemma ReflectsHere(h: IdFn, st: EncState, ps: seq<Piece>, id: u16)
    requires Reflects(h, st, ps)
    ensures ReflectsAt(h, st, ps, id)
  {}
}
