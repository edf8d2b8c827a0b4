/** What frames mean to a decoder: which ones stop it, what a definition does to later references,
    and that an inline template is a definition and a reference in one frame. */
module FrameMeaning {
  import opened Bytes
  import opened Numbers
  import opened Protocol
  import opened DecoderSpec
  import opened EncoderSpec
  import TemplateCodec

  function InlineFrame(d: Definition, lane: bytes): Frame {
    Frame(TEMPLATE_INLINE, InlinePayload(d.id, d.constA, d.constB, lane))
  }

  function RefFrame(id: u16, lane: bytes): Frame {
    Frame(TEMPLATE_REF, RefPayload(id, lane))
  }

  /** Frames that stop a decoder with this table: payloads that are not of their kind's grammar,
      references to an id that nothing has defined, and kinds that are none of the five. */
  lemma FailsExactly(table: Table, kind: byte, p: bytes)
    ensures EffectOf(table, Frame(kind, p)).Fails? <==>
            || (kind == 1 && |p| != 4)
            || (kind == 2 && !ParseDefine(p).Parsed?)
            || (kind == 3 && (ParseRef(p).Parsed? ==> ParseRef(p).value.0 !in table))
            || (kind == 5 && !ParseInline(p).Parsed?)
            || kind == 0 || kind > 5
  {
    hide ParseDefine, ParseRef, ParseInline;
  }

  /** Raw data stands for itself and defines nothing. */
  lemma RawFeeds(table: Table, data: bytes)
    ensures DataOf(table, Frame(4, data)) == data && TableStep(table, Frame(4, data)) == table
  {}

  /** A definition feeds nothing; from then on a reference to its id feeds its constants around
      the lane, and every other id keeps its meaning. */
  lemma DefineMeans(table: Table, d: Definition, id: u16, x: bytes)
    requires |d.constA| < TWO16 && |d.constB| < TWO16 && |x| < TWO16
    ensures var f := DefineFrame(d);
            var after := TableStep(table, f);
            && DataOf(table, f) == []
            && DataOf(after, RefFrame(d.id, x)) == d.constA + x + d.constB
            && (id != d.id ==> EffectOf(after, RefFrame(id, x)).Fails? == EffectOf(table, RefFrame(id, x)).Fails?
                               && DataOf(after, RefFrame(id, x)) == DataOf(table, RefFrame(id, x)))
  {
    DefineEffect(table, d);
    var after := table[d.id := d];
    hide EffectOf, RefFrame, DefineFrame;
    RefMeans(after, d.id, x);
    if id != d.id {
      RefNames(after, table, id, x);
    }
  }

  /** It feeds its own expansion; from then on a reference to its id feeds its constants around
      the new lane, whatever the id meant before, and every other id keeps its meaning. */
  lemma InlineExpands(table: Table, d: Definition, lane: bytes, id: u16, x: bytes)
    requires |d.constA| < TWO16 && |d.constB| < TWO16 && |lane| < TWO16 && |x| < TWO16
    ensures var f := InlineFrame(d, lane);
            var after := TableStep(table, f);
            && DataOf(table, f) == d.constA + lane + d.constB
            && DataOf(after, RefFrame(d.id, x)) == d.constA + x + d.constB
            && (id != d.id ==> EffectOf(after, RefFrame(id, x)).Fails? == EffectOf(table, RefFrame(id, x)).Fails?
                               && DataOf(after, RefFrame(id, x)) == DataOf(table, RefFrame(id, x)))
  {
    var after := table[d.id := d];
    InlineEffect(table, d, lane);
    hide EffectOf, RefFrame, InlineFrame;
    RefMeans(after, d.id, x);
    if id != d.id {
      RefNames(after, table, id, x);
    }
  }

  lemma InlineEffect(table: Table, d: Definition, lane: bytes)
    requires |d.constA| < TWO16 && |d.constB| < TWO16 && |lane| < TWO16
    ensures EffectOf(table, InlineFrame(d, lane)) == Feeds(table[d.id := d], d.constA + lane + d.constB)
  {
    TemplateCodec.InlineRoundTrip(d.id, d.constA, d.constB, lane);
    hide InlinePayload, ParseInline;
  }

  lemma RefMeans(table: Table, id: u16, x: bytes)
    requires id in table && |x| < TWO16
    ensures DataOf(table, RefFrame(id, x)) == table[id].constA + x + table[id].constB
  {
    RefEffect(table, id, x);
    hide EffectOf;
  }

  lemma RefNames(s: Table, t: Table, id: u16, x: bytes)
    requires (id in s <==> id in t) && (id in s ==> s[id] == t[id])
    ensures EffectOf(s, RefFrame(id, x)).Fails? == EffectOf(t, RefFrame(id, x)).Fails?
    ensures DataOf(s, RefFrame(id, x)) == DataOf(t, RefFrame(id, x))
  {
    var p := RefPayload(id, x);
    assert p[0..2] == U16(id);
    U16RoundTrip(id, p, 0);
    hide RefPayload;
  }

  /** To the decoder it is a definition followed by a reference, in any state. */
  lemma InlineIsDefineRef(st: DecState, d: Definition, lane: bytes)
    requires |d.constA| < TWO16 && |d.constB| < TWO16 && |lane| < TWO16
    ensures RunFrames(st, [InlineFrame(d, lane)]) == RunFrames(st, [DefineFrame(d), RefFrame(d.id, lane)])
  {
    InlineEffect(st.table, d, lane);
    DefineEffect(st.table, d);
    RefEffect(st.table[d.id := d], d.id, lane);
    var f, g, r := InlineFrame(d, lane), DefineFrame(d), RefFrame(d.id, lane);
    assert [g, r][1..] == [r] && [r][1..] == [] && [f][1..] == [];
    hide EffectOf, Push;
    var mid := st.(table := st.table[d.id := d]);
    assert Step(st, g) == Ok(mid) && Step(mid, r) == Step(st, f);
    hide Step;
    assert RunFrames(st, [g, r]) == RunFrames(mid, [r]);
  }
}
