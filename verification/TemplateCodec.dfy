/** Building and parsing template payloads: the in-place builders, the cursor parsers, and
    the laws that tie each pair together. */
module TemplateCodec {
  import opened Bytes
  import opened Numbers
  import opened Protocol

  // ---- round trips ----

  /** The middle part of a concatenation sits right after the first part. */
  lemma MiddleSlice(p: bytes, pre: bytes, mid: bytes, post: bytes)
    requires p == pre + mid + post
    ensures p[|pre|..|pre| + |mid|] == mid
  {}

  lemma DefineLayout(p: bytes, id: bytes, aLen: bytes, a: bytes, gap: bytes, bLen: bytes, b: bytes, rest: bytes)
    requires |id| == |aLen| == |gap| == |bLen| == 2
    requires p == id + [3] + [SEG_CONST] + aLen + a + [SEG_VAR] + gap + [SEG_CONST] + bLen + b + rest
    ensures p[0..2] == id && p[2] == 3 && p[3] == SEG_CONST
    ensures p[4..6] == aLen && p[6..6 + |a|] == a
    ensures p[6 + |a|] == SEG_VAR && p[9 + |a|] == SEG_CONST
    ensures p[10 + |a|..12 + |a|] == bLen && p[12 + |a|..12 + |a| + |b|] == b
  {
    var head := id + [3] + [SEG_CONST] + aLen;
    var tail := [SEG_VAR] + gap + [SEG_CONST] + bLen + b + rest;
    assert p == head + a + tail;
    MiddleSlice(p, head, a, tail);
    TailLayout(tail, gap, bLen, b, rest);
    var n := 6 + |a|;
    assert p[n..] == tail;
    assert p[n] == tail[0] && p[n + 3] == tail[3];
    assert p[n + 4..n + 6] == tail[4..6] && p[n + 6..n + 6 + |b|] == tail[6..6 + |b|];
  }

  lemma TailLayout(tail: bytes, gap: bytes, bLen: bytes, b: bytes, rest: bytes)
    requires |gap| == |bLen| == 2 && tail == [SEG_VAR] + gap + [SEG_CONST] + bLen + b + rest
    ensures |tail| >= 6 + |b| && tail[0] == SEG_VAR && tail[3] == SEG_CONST
    ensures tail[4..6] == bLen && tail[6..6 + |b|] == b
  {}

  /** A definition survives its own payload exactly when both constants fit their 16-bit
      length fields. */
  lemma DefineRoundTrip(id: u16, a: bytes, b: bytes)
    ensures ParseDefine(DefinePayload(id, a, b)) == Parsed(Definition(id, a, b))
            <==> |a| < TWO16 && |b| < TWO16
  {
    hide U16, ParseDefine;
    var p, d := DefinePayload(id, a, b), Definition(id, a, b);
    if |a| < TWO16 && |b| < TWO16 {
      assert p == p + [];
      assert DefineGrammar(p, d, U16(0), []);
      DefineComplete(p, d, U16(0), []);
    }
    if ParseDefine(p) == Parsed(d) {
      DefineFields(p, d);
    }
  }

  /** A reference survives its own payload exactly when the lane fits its length field. */
  lemma RefRoundTrip(id: u16, lane: bytes)
    ensures ParseRef(RefPayload(id, lane)) == Parsed((id, lane)) <==> |lane| < TWO16
  {
    var p := RefPayload(id, lane);
    assert p[0..2] == U16(id) && p[3..5] == U16(|lane|) && p[5..5 + |lane|] == lane;
    U16RoundTrip(id, p, 0);
    U16RoundTrip(|lane|, p, 3);
  }

  lemma InlineLayout(p: bytes, id: bytes, aLen: bytes, a: bytes, bLen: bytes, b: bytes, cLen: bytes, c: bytes)
    requires |id| == |aLen| == |bLen| == |cLen| == 2
    requires p == id + aLen + a + bLen + b + cLen + c
    ensures var i := 4 + |a|; var j := i + 2 + |b|;
            && p[0..2] == id && p[2..4] == aLen && p[4..i] == a
            && p[i..i + 2] == bLen && p[i + 2..j] == b
            && p[j..j + 2] == cLen && p[j + 2..j + 2 + |c|] == c
  {
    var i, j := 4 + |a|, 6 + |a| + |b|;
    var tail := bLen + b + cLen + c;
    assert p == id + aLen + a + tail;
    MiddleSlice(p, id + aLen, a, tail);
    InlineTail(tail, bLen, b, cLen, c);
    assert p[i..] == tail;
    assert p[i..i + 2] == tail[0..2] && p[i + 2..j] == tail[2..2 + |b|];
    assert p[j..j + 2] == tail[2 + |b|..4 + |b|] && p[j + 2..j + 2 + |c|] == tail[4 + |b|..4 + |b| + |c|];
  }

  lemma InlineTail(tail: bytes, bLen: bytes, b: bytes, cLen: bytes, c: bytes)
    requires |bLen| == |cLen| == 2 && tail == bLen + b + cLen + c
    ensures tail[0..2] == bLen && tail[2..2 + |b|] == b
    ensures tail[2 + |b|..4 + |b|] == cLen && tail[4 + |b|..4 + |b| + |c|] == c
  {}

  /** An inline template survives its own payload exactly when all three parts fit. */
  lemma InlineRoundTrip(id: u16, a: bytes, b: bytes, lane: bytes)
    ensures ParseInline(InlinePayload(id, a, b, lane)) == Parsed((Definition(id, a, b), lane))
            <==> |a| < TWO16 && |b| < TWO16 && |lane| < TWO16
  {
    hide U16, U16At;
    var p := InlinePayload(id, a, b, lane);
    InlineLayout(p, U16(id), U16(|a|), a, U16(|b|), b, U16(|lane|), lane);
    hide InlinePayload;
    U16RoundTrip(id, p, 0);
    U16RoundTrip(|a|, p, 2);
    if |a| < TWO16 {
      U16RoundTrip(|b|, p, 4 + |a|);
      if |b| < TWO16 {
        U16RoundTrip(|lane|, p, 6 + |a| + |b|);
      }
    }
  }

  /** The grammar of the DEFINE parser: the two VAR length bytes and anything after the last
      constant are ignored; everything else is exactly the builder's layout. */
  predicate DefineGrammar(p: bytes, d: Definition, gap: bytes, rest: bytes) {
    && |gap| == 2 && |d.constA| < TWO16 && |d.constB| < TWO16
    && p == U16(d.id) + [3] + [SEG_CONST] + U16(|d.constA|) + d.constA
            + [SEG_VAR] + gap + [SEG_CONST] + U16(|d.constB|) + d.constB + rest
  }

  lemma DefineAccepts(p: bytes, d: Definition)
    ensures ParseDefine(p) == Parsed(d) <==> exists gap, rest :: DefineGrammar(p, d, gap, rest)
  {
    if ParseDefine(p) == Parsed(d) {
      DefineSound(p, d);
    }
    forall gap, rest | DefineGrammar(p, d, gap, rest)
      ensures ParseDefine(p) == Parsed(d)
    {
      DefineComplete(p, d, gap, rest);
    }
  }

  lemma DefineSound(p: bytes, d: Definition)
    requires ParseDefine(p) == Parsed(d)
    ensures exists gap, rest :: DefineGrammar(p, d, gap, rest)
  {
    hide ParseDefine, DefineGrammar;
    DefineFields(p, d);
    var i := 6 + |d.constA|;
    var j := i + 6 + |d.constB|;
    DefineFront(p, i);
    DefineBack(p, i, j);
    GrammarHolds(p, d, i, j);
  }

  /** Where an accepted payload holds its parts. */
  lemma DefineFields(p: bytes, d: Definition)
    requires ParseDefine(p) == Parsed(d)
    ensures var i := 6 + |d.constA|; var j := i + 6 + |d.constB|;
            && j <= |p| && |d.constA| < TWO16 && |d.constB| < TWO16
            && p[0..2] == U16(d.id) && p[2] == 3 && p[3] == SEG_CONST && p[4..6] == U16(|d.constA|)
            && p[6..i] == d.constA && p[i] == SEG_VAR && p[i + 3] == SEG_CONST
            && p[i + 4..i + 6] == U16(|d.constB|) && p[i + 6..j] == d.constB
  {
    hide U16, U16At;
    var i := 6 + U16At(p, 4);
    U16Inverse(p, 0);
    U16Inverse(p, 4);
    U16Inverse(p, i + 4);
  }

  lemma DefineFront(p: bytes, i: nat)
    requires 6 <= i < |p|
    ensures p[..i] == p[0..2] + [p[2]] + [p[3]] + p[4..6] + p[6..i]
  {}

  lemma DefineBack(p: bytes, i: nat, j: nat)
    requires 6 <= i && i + 6 <= j <= |p|
    ensures p == p[..i] + [p[i]] + p[i + 1..i + 3] + [p[i + 3]] + p[i + 4..i + 6] + p[i + 6..j] + p[j..]
  {
    assert p[i..] == [p[i]] + p[i + 1..i + 3] + [p[i + 3]] + p[i + 4..i + 6] + p[i + 6..j] + p[j..];
    assert p == p[..i] + p[i..];
  }

  lemma GrammarHolds(p: bytes, d: Definition, i: nat, j: nat)
    requires i == 6 + |d.constA| && j == i + 6 + |d.constB| <= |p| && |d.constA| < TWO16 && |d.constB| < TWO16
    requires p[..i] == U16(d.id) + [3] + [SEG_CONST] + U16(|d.constA|) + d.constA
    requires p == p[..i] + [SEG_VAR] + p[i + 1..i + 3] + [SEG_CONST] + U16(|d.constB|) + d.constB + p[j..]
    ensures exists gap, rest :: DefineGrammar(p, d, gap, rest)
  {
    hide U16;
    assert DefineGrammar(p, d, p[i + 1..i + 3], p[j..]);
  }

  lemma DefineComplete(p: bytes, d: Definition, gap: bytes, rest: bytes)
    requires DefineGrammar(p, d, gap, rest)
    ensures ParseDefine(p) == Parsed(d)
  {
    hide U16, U16At, ParseDefine;
    DefineLayout(p, U16(d.id), U16(|d.constA|), d.constA, gap, U16(|d.constB|), d.constB, rest);
    assert |p| >= 12 + |d.constA| + |d.constB|;
    hide DefineGrammar;
    U16RoundTrip(d.id, p, 0);
    U16RoundTrip(|d.constA|, p, 4);
    U16RoundTrip(|d.constB|, p, 10 + |d.constA|);
    ParsedFrom(p, d);
  }

  /** The parser reads off a payload whose parts are where the layout puts them. */
  lemma ParsedFrom(p: bytes, d: Definition)
    requires var i := 6 + |d.constA|; var j := i + 6 + |d.constB|;
             && j <= |p| && p[2] == 3 && p[3] == SEG_CONST && p[i] == SEG_VAR && p[i + 3] == SEG_CONST
             && U16At(p, 0) == d.id && U16At(p, 4) == |d.constA| && U16At(p, i + 4) == |d.constB|
             && p[6..i] == d.constA && p[i + 6..j] == d.constB
    ensures ParseDefine(p) == Parsed(d)
  {
    hide U16At;
  }

  // ---- the in-place builders ----

  /** `be.PutUint16(out[i:i+2], uint16(v))`. */
  method PutUint16(out: array<byte>, i: nat, v: nat)
    requires i + 2 <= out.Length
    modifies out
    ensures out[..i + 2] == old(out[..i]) + U16(v)
  {
    out[i] := (v / 256 % 256) as byte;
    out[i + 1] := (v % 256) as byte;
  }

  /** `out[i] = b`. */
  method PutByte(out: array<byte>, i: nat, b: byte)
    requires i < out.Length
    modifies out
    ensures out[..i + 1] == old(out[..i]) + [b]
  {
    out[i] := b;
  }

  /** `copy(out[i:], src)` with room for all of `src`. */
  method CopyInto(out: array<byte>, i: nat, src: bytes)
    requires i + |src| <= out.Length
    modifies out
    ensures out[..i + |src|] == old(out[..i]) + src
  {
    var k := 0;
    while k < |src|
      invariant k <= |src|
      invariant out[..i] == old(out[..i])
      invariant out[i..i + k] == src[..k]
    {
      out[i + k] := src[k];
      k := k + 1;
    }
    assert out[..i + |src|] == out[..i] + out[i..i + |src|];
  }

  method BuildTemplateDefinePayload(id: u16, a: bytes, b: bytes) returns (r: Option<bytes>)
    ensures r == if DefineFits(a, b) then Some(DefinePayload(id, a, b)) else None
  {
    hide U16;
    var total := 2 + 1 + (1 + 2 + |a|) + (1 + 2) + (1 + 2 + |b|);
    if total > MAX_PAYLOAD {
      return None;
    }
    var out := new byte[total];
    var i := 0;
    assert out[..i] == [];
    PutUint16(out, i, id);
    i := i + 2;
    assert out[..i] == U16(id);
    PutByte(out, i, 3);
    i := i + 1;
    PutByte(out, i, SEG_CONST);
    i := i + 1;
    PutUint16(out, i, |a|);
    i := i + 2;
    CopyInto(out, i, a);
    i := i + |a|;
    ghost var front := U16(id) + [3] + [SEG_CONST] + U16(|a|) + a;
    assert out[..i] == front;
    PutByte(out, i, SEG_VAR);
    i := i + 1;
    PutUint16(out, i, 0);
    i := i + 2;
    PutByte(out, i, SEG_CONST);
    i := i + 1;
    PutUint16(out, i, |b|);
    i := i + 2;
    CopyInto(out, i, b);
    assert out[..total] == front + [SEG_VAR] + U16(0) + [SEG_CONST] + U16(|b|) + b;
    assert out[..total] == out[..];
    return Some(out[..]);
  }

  method BuildTemplateRefPayload(id: u16, lane: bytes) returns (r: Option<bytes>)
    ensures r == if RefFits(lane) then Some(RefPayload(id, lane)) else None
  {
    var total := 2 + 1 + 2 + |lane|;
    if total > MAX_PAYLOAD {
      return None;
    }
    var out := new byte[total];
    var i := 0;
    assert out[..i] == [];
    PutUint16(out, i, id);
    i := i + 2;
    assert out[..i] == U16(id);
    PutByte(out, i, 1);
    i := i + 1;
    PutUint16(out, i, |lane|);
    i := i + 2;
    CopyInto(out, i, lane);
    assert out[..total] == out[..];
    return Some(out[..]);
  }

  method BuildTemplateInlinePayload(id: u16, a: bytes, b: bytes, lane: bytes) returns (r: Option<bytes>)
    ensures r == if 8 + |a| + |b| + |lane| <= MAX_PAYLOAD then Some(InlinePayload(id, a, b, lane)) else None
  {
    var total := 2 + 2 + |a| + 2 + |b| + 2 + |lane|;
    if total > MAX_PAYLOAD {
      return None;
    }
    var out := new byte[total];
    var i := 0;
    assert out[..i] == [];
    PutUint16(out, i, id);
    i := i + 2;
    assert out[..i] == U16(id);
    PutUint16(out, i, |a|);
    i := i + 2;
    CopyInto(out, i, a);
    i := i + |a|;
    PutUint16(out, i, |b|);
    i := i + 2;
    CopyInto(out, i, b);
    i := i + |b|;
    PutUint16(out, i, |lane|);
    i := i + 2;
    CopyInto(out, i, lane);
    assert out[..total] == out[..];
    return Some(out[..]);
  }

  // ---- the cursor parsers ----

  method ParseTemplateDefinePayload(p: bytes) returns (r: Parsed<Definition>)
    ensures r == ParseDefine(p)
  {
    if |p| < 3 {
      return Malformed;
    }
    var i := 0;
    var id := U16At(p, i);
    i := i + 2;
    var segCount := p[i];
    i := i + 1;
    if segCount != 3 {
      return Malformed;
    }
    if i >= |p| {
      return Panics;
    }
    if p[i] != SEG_CONST {
      return Malformed;
    }
    i := i + 1;
    if i + 2 > |p| {
      return Panics;
    }
    var aLen := U16At(p, i);
    i := i + 2;
    if i + aLen > |p| {
      return Malformed;
    }
    var a := p[i..i + aLen];
    i := i + aLen;
    if i >= |p| || p[i] != SEG_VAR {
      return Malformed;
    }
    i := i + 1;
    if i + 2 > |p| {
      return Malformed;
    }
    i := i + 2;
    if i >= |p| || p[i] != SEG_CONST {
      return Malformed;
    }
    i := i + 1;
    if i + 2 > |p| {
      return Malformed;
    }
    var bLen := U16At(p, i);
    i := i + 2;
    if i + bLen > |p| {
      return Malformed;
    }
    return Parsed(Definition(id, a, p[i..i + bLen]));
  }

  method ParseTemplateRefPayload(p: bytes) returns (r: Parsed<(u16, bytes)>)
    ensures r == ParseRef(p)
  {
    if |p| < 5 {
      return Malformed;
    }
    var i := 0;
    var id := U16At(p, i);
    i := i + 2;
    if p[i] != 1 {
      return Malformed;
    }
    i := i + 1;
    var laneLen := U16At(p, i);
    i := i + 2;
    if i + laneLen > |p| {
      return Malformed;
    }
    return Parsed((id, p[i..i + laneLen]));
  }

  method ParseTemplateInlinePayload(p: bytes) returns (r: Parsed<(Definition, bytes)>)
    ensures r == ParseInline(p)
  {
    if |p| < 2 + 2 + 2 + 2 {
      return Malformed;
    }
    var i := 0;
    var id := U16At(p, i);
    i := i + 2;
    var aLen := U16At(p, i);
    i := i + 2;
    if i + aLen > |p| {
      return Malformed;
    }
    var a := p[i..i + aLen];
    i := i + aLen;
    if i + 2 > |p| {
      return Panics;
    }
    var bLen := U16At(p, i);
    i := i + 2;
    if i + bLen > |p| {
      return Malformed;
    }
    var b := p[i..i + bLen];
    i := i + bLen;
    if i + 2 > |p| {
      return Panics;
    }
    var laneLen := U16At(p, i);
    i := i + 2;
    if i + laneLen > |p| {
      return Malformed;
    }
    return Parsed((Definition(id, a, b), p[i..i + laneLen]));
  }
}
