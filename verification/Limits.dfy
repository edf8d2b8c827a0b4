/** Where the laws stop: concrete inputs on which a hypothesis fails, and what is lost. */
module Limits {
  import opened Bytes
  import opened Numbers
  import opened Protocol
  import opened Splitter
  import opened DecoderSpec
  import opened EncoderSpec
  import opened Agreement
  import opened HttpRequest
  import opened Normalizer
  import M = MemoryDictionary
  import P = PromotedDictionary
  import S = Sums
  import W = WorstCase

  // ---- template ids ----

  // "aaaa=1," and "bbbb=1,"
  const SEEN: Piece := Seg([97, 97, 97, 97, 61], [49], [44])
  const LATER: Piece := Seg([98, 98, 98, 98, 61], [49], [44])

  /** When two keys share an id, the one that comes after promotion goes out as a reference to
      the other: the decoder writes the wrong key and reports nothing. */
  lemma CollisionLosesBytes(h: IdFn)
    requires h(SEEN.constA, SEEN.constB) == h(LATER.constA, LATER.constB)
    ensures var st := EmitAll(h, START, [SEEN, SEEN, SEEN]).st;
            var e := Emit(h, st, LATER);
            && !FaithfulRun(h, START, [SEEN, SEEN, SEEN, LATER])
            && |e.frames| == 1 && EffectOf(st.table, e.frames[0]) == Feeds(st.table, PieceBytes(SEEN))
            && PieceBytes(SEEN) != PieceBytes(LATER)
  {
    hide EffectOf, DefinePayload, RefPayload;
    var id := IdOf(h, SEEN);
    var st1 := Emit(h, START, SEEN).st;
    var st2 := Emit(h, st1, SEEN).st;
    var st := Emit(h, st2, SEEN).st;
    assert st1.spans[id] == SpanInfo(1, false) && st2.spans[id] == SpanInfo(2, false);
    assert st.spans[id] == SpanInfo(3, true) && st.table[id] == DefinitionOf(h, SEEN);
    assert EmitAll(h, START, [SEEN, SEEN, SEEN]).st == st by {
      ThreeTimes(h, START, SEEN);
    }
    var e := Emit(h, st, LATER);
    assert e.frames == [Frame(TEMPLATE_REF, RefPayload(id, LATER.lane))];
    RefEffect(st.table, id, LATER.lane);
    assert !Faithful(h, st, LATER);
    assert [SEEN, SEEN, SEEN, LATER] == [SEEN, SEEN, SEEN] + [LATER];
    FaithfulRunAppend(h, START, [SEEN, SEEN, SEEN], [LATER]);
    assert PieceBytes(SEEN)[0] == 97 && PieceBytes(LATER)[0] == 98;
  }

  lemma ThreeTimes(h: IdFn, st: EncState, p: Piece)
    ensures EmitAll(h, st, [p, p, p]).st == Emit(h, Emit(h, Emit(h, st, p).st, p).st, p).st
  {
    hide Emit;
    EmitAllAppend(h, st, [p, p], [p]);
    EmitAllAppend(h, st, [p], [p]);
    EmitAllOne(h, st, p);
    EmitAllOne(h, Emit(h, st, p).st, p);
    EmitAllOne(h, Emit(h, Emit(h, st, p).st, p).st, p);
    assert [p, p] + [p] == [p, p, p] && [p] + [p] == [p, p];
  }

  /** The worst case is attained: three pieces of one template cost 25 bytes beyond their frame
      headers, so the loss is not the headers alone, and 49 a piece is met with equality. */
  lemma WorstCaseAttained(h: IdFn)
    ensures var ps := [SEEN, SEEN, SEEN];
            var wire := |WireOf(EmitAll(h, START, ps).frames)|;
            && wire == |PiecesBytes(ps)| + 8 * |ps| + 25
            && 3 * wire == 3 * |PiecesBytes(ps)| + 49 * |ps|
  {
    hide EmitAll, PiecesBytes, WireOf;
    var ps, id := [SEEN, SEEN, SEEN], IdOf(h, SEEN);
    assert ps[..2] == [SEEN, SEEN] && [SEEN, SEEN][..1] == [SEEN] && [SEEN][..0] == [];
    assert Hits(h, [], id) == 0 && Hits(h, [SEEN], id) == 1 && Hits(h, [SEEN, SEEN], id) == 2;
    NotYetDefined(h, id);
    W.LossExact(h, ps);
    assert W.DefinitionLosses(h, [SEEN]) == 0 && W.DefinitionLosses(h, [SEEN, SEEN]) == 0;
    assert W.ReferenceGains(h, [SEEN]) == 0 && W.ReferenceGains(h, [SEEN, SEEN]) == 0;
  }

  lemma NotYetDefined(h: IdFn, id: u16)
    ensures !WasDefined(h, [], id) && !WasDefined(h, [SEEN], id) && !WasDefined(h, [SEEN, SEEN], id)
  {
    DefinedSnoc(h, [], SEEN, id);
    DefinedSnoc(h, [SEEN], SEEN, id);
    assert [] + [SEEN] == [SEEN] && [SEEN] + [SEEN] == [SEEN, SEEN] && [SEEN][..0] == [];
    assert Hits(h, [SEEN], id) <= 1;
    hide WasDefined;
  }

  /** A body key of 64 KiB or more never survives its definition. */
  lemma LongKeyIsLost(h: IdFn, st: EncState, p: Piece)
    requires EncInv(h, st) && TableOk(st.table) && WellShaped(p, Body)
    requires DefinesNow(h, st, p) && |p.constA| >= TWO16
    ensures var e := Emit(h, st, p);
            !Delivers(st.table, e.frames, e.st.table, PieceBytes(p))
  {
    PieceSurvives(h, st, p);
  }

  // ---- the id counter of the pattern cache ----

  /** One entry that stays, then n entries that come and go. */
  function Cycling(n: nat): seq<M.Op> {
    if n == 0 then [M.AddCandidate("keep", [1])]
    else Cycling(n - 1) + [M.AddCandidate("pass", [2])] + [M.Delete(Wrap32(n + 1))]
  }

  function AfterCycles(n: nat): M.Dict {
    M.Dict(2, map[1 := M.Entry("keep", [1], 1, 1)], map["keep" := 1], 1, Wrap32(n + 2), n + 2)
  }

  lemma RunStep(d: M.Dict, ops: seq<M.Op>, op: M.Op)
    ensures M.Run(d, ops + [op]) == M.Apply(M.Run(d, ops), op)
  {
    hide M.Apply;
    assert (ops + [op])[..|ops + [op]| - 1] == ops;
  }

  lemma {:induction false} CyclingState(n: nat)
    requires n < TWO32
    ensures M.Run(M.New(2), Cycling(n)) == AfterCycles(n)
  {
    hide M.Apply;
    if n == 0 {
      assert [M.AddCandidate("keep", [1])] == [] + [M.AddCandidate("keep", [1])];
      RunStep(M.New(2), [], M.AddCandidate("keep", [1]));
      FirstAdd();
    } else {
      CyclingState(n - 1);
      var ops, add, del := Cycling(n - 1), M.AddCandidate("pass", [2]), M.Delete(Wrap32(n + 1));
      RunStep(M.New(2), ops, add);
      RunStep(M.New(2), ops + [add], del);
      OneCycle(n);
    }
  }

  lemma FirstAdd()
    ensures M.Apply(M.New(2), M.AddCandidate("keep", [1])) == AfterCycles(0)
  {
    hide M.CanFit, M.Victims;
  }

  lemma OneCycle(n: nat)
    requires 1 <= n < TWO32
    ensures M.Apply(M.Apply(AfterCycles(n - 1), M.AddCandidate("pass", [2])), M.Delete(Wrap32(n + 1))) == AfterCycles(n)
  {
    hide M.Apply;
    PassAdded(n);
    PassDeleted(n);
  }

  /** The cache while the n-th passing entry is in it. */
  function Passing(n: nat): M.Dict
    requires n >= 1
  {
    var d, id := AfterCycles(n - 1), Wrap32(n + 1);
    M.Dict(2, d.entries[id := M.Entry("pass", [2], n + 1, n + 1)], d.byKey["pass" := id], 2, Wrap32(n + 2), n + 2)
  }

  lemma PassAdded(n: nat)
    requires 1 <= n < TWO32
    ensures M.Apply(AfterCycles(n - 1), M.AddCandidate("pass", [2])) == Passing(n)
  {
    hide M.CanFit, M.Victims;
    var d := AfterCycles(n - 1);
    assert d.nextID == Wrap32(n + 1);
  }

  lemma PassDeleted(n: nat)
    requires 1 <= n < TWO32
    ensures M.Apply(Passing(n), M.Delete(Wrap32(n + 1))) == AfterCycles(n)
  {
    var d, id := Passing(n), Wrap32(n + 1);
    assert id != 1;
    assert d.entries - {id} == AfterCycles(n).entries;
    assert d.byKey - {"pass"} == AfterCycles(n).byKey;
  }

  /** After 2^32 ids the counter wraps: a new key takes the id of an entry still in use, the
      old key now leads to the new bytes, and the account no longer adds up. */
  lemma IdWrapLosesAnEntry()
    ensures var ops := Cycling(TWO32 - 1);
            var before := M.Run(M.New(2), ops);
            var after := M.Run(M.New(2), ops + [M.AddCandidate("late", [3])]);
            && M.Sound(before) && M.Contents(before) == map["keep" := [1]]
            && !M.Sound(after) && M.Contents(after) == map["keep" := [3], "late" := [3]]
  {
    hide M.Apply, M.Sound, M.Consistent, M.Contents, M.FreshId;
    var d := AfterCycles(TWO32 - 1);
    CyclingState(TWO32 - 1);
    RunStep(M.New(2), Cycling(TWO32 - 1), M.AddCandidate("late", [3]));
    KeepSound(TWO32 - 1);
    M.ConsistentIfSound(d);
    M.ApplyKeeps(d, M.AddCandidate("late", [3]));
    WrappedAdd();
  }

  lemma WrappedAdd()
    ensures var d, op := AfterCycles(TWO32 - 1), M.AddCandidate("late", [3]);
            && M.Contents(d) == map["keep" := [1]] && !M.FreshId(d, op)
            && M.Contents(M.Apply(d, op)) == map["keep" := [3], "late" := [3]]
  {
    hide M.CanFit, M.Victims, M.Contents;
    var d := AfterCycles(TWO32 - 1);
    assert d.nextID == 1;
    var after := M.Apply(d, M.AddCandidate("late", [3]));
    assert after.entries == map[1 := M.Entry("late", [3], d.nextSeq, d.nextSeq)];
    assert after.byKey == map["keep" := 1, "late" := 1];
    ContentsOf(d);
    ContentsOf(after);
  }

  lemma ContentsOf(d: M.Dict)
    requires d.byKey == map["keep" := 1] || d.byKey == map["keep" := 1, "late" := 1]
    requires 1 in d.entries
    ensures M.Contents(d) == map k | k in d.byKey :: d.entries[1].data
  {}

  lemma KeepSound(n: nat)
    requires n < TWO32
    ensures M.Sound(AfterCycles(n))
  {
    hide S.Sum;
    var m := AfterCycles(n).entries;
    assert M.Sizes(m) == map[1 := 1];
    SumOne();
  }

  lemma SumOne()
    ensures var m: map<u32, nat> := map[1 := 1]; S.Sum(m) == 1
  {
    var m: map<u32, nat> := map[1 := 1];
    assert m - {1} == map[];
    S.SumRemove(m, 1);
  }

  // ---- the account of promoted templates ----

  /** Inserting one entry twice charges it twice: the id is not fresh. */
  lemma ReinsertionOvercharges(d: P.Store, e: P.DictionaryEntry)
    requires P.Accounted(d) && e.id !in d.entries && P.Cost(e) > 0
    requires d.used + 2 * P.Cost(e) <= d.max
    ensures P.Accounted(P.Put(d, e)) && !P.Accounted(P.Put(P.Put(d, e), e))
  {
    hide P.Cost, P.Accounted;
    AccountedUsed(d);
    P.PutExact(d, e);
    AccountedUsed(P.Put(d, e));
    P.PutExact(P.Put(d, e), e);
  }

  lemma AccountedUsed(d: P.Store)
    requires P.Accounted(d)
    ensures d.used <= d.max
  {}

  // ---- header lines ----

  // "Content-Length:  5", with two spaces
  const LENGTH_AS_REQUEST_LINE: bytes :=
    [67, 111, 110, 116, 101, 110, 116, 45, 76, 101, 110, 103, 116, 104, 58, 32, 32, 53]

  /** A request line may pass for a Content-Length line: it has three parts, so it is accepted,
      and the decoder reads a length from it. */
  lemma RequestLineDeclaresLength()
    ensures |RequestLineParts(LENGTH_AS_REQUEST_LINE)| == 3
    ensures DeclaredLength(LENGTH_AS_REQUEST_LINE) == Some(5)
  {
    hide DeclaredLength, TrimSpace, Split;
    TrimLineEnd(LENGTH_AS_REQUEST_LINE);
    ThreeParts();
    FiveDeclared();
  }

  lemma ThreeParts()
    ensures |Split(LENGTH_AS_REQUEST_LINE, [SPACE])| == 3
  {
    hide Index;
    var l := LENGTH_AS_REQUEST_LINE;
    SpaceAt(l, 15);
    SpaceAt(l[16..], 0);
    SpaceAt(l[17..], -1);
    assert l[16..][1..] == l[17..];
    assert |Split(l[17..], [SPACE])| == 1;
    assert |Split(l[16..], [SPACE])| == 2;
  }

  lemma FiveDeclared()
    ensures DeclaredLength(LENGTH_AS_REQUEST_LINE) == Some(5)
  {
    hide TrimSpace, ParseInt;
    var l := LENGTH_AS_REQUEST_LINE;
    assert l[15..] == [32, 32, 53];
    assert ToLower(l)[..15] == CONTENT_LENGTH;
    TrimLength();
  }

  lemma SpaceAt(s: bytes, at: int)
    requires -1 <= at < |s| && (at >= 0 ==> s[at] == SPACE)
    requires forall k :: 0 <= k < (if at < 0 then |s| else at) ==> s[k] != SPACE
    ensures Index(s, [SPACE]) == at
  {
    hide Index;
    forall k | 0 <= k < |s|
      ensures MatchAt(s, [SPACE], k) <==> s[k] == SPACE
    {
      assert s[k..k + 1] == [s[k]];
    }
    if at >= 0 {
      IndexIs(s, [SPACE], at);
    }
  }

  lemma TrimLineEnd(l: bytes)
    requires l != [] && !IsSpace(l[0]) && !IsSpace(l[|l| - 1])
    ensures TrimSpace(l + CRLF) == l
  {
    TrimRightSuffix(l, CRLF);
  }

  lemma TrimLength()
    ensures TrimSpace([32, 32, 53]) == [53] && ParseInt([53], 10) == Some(5)
  {
    var s: bytes := [32, 32, 53];
    assert s[1..] == [32, 53] && s[1..][1..] == [53];
    assert TrimLeft(s) == TrimLeft(s[1..]) == TrimLeft(s[1..][1..]) == [53];
    var five: bytes := [53];
    assert five[..0] == [];
    assert DigitsValue(five, 10) == Some(5);
  }

  /** "1 ;x": the blank before the semicolon is legal in a chunk, and the reader refuses it. */
  lemma SpacedExtensionRefused(rest: bytes, have: nat, maxBody: nat)
    requires have + 1 <= maxBody <= MAX_ALLOC
    ensures ReadChunk([49, 32, 59, 120] + CRLF + ([65] + (CRLF + rest)), have, maxBody) == Err(BadRequest)
  {
    var one: bytes := [49];
    assert one[..0] == [] && DigitsValue(one, 16) == Some(1);
    hide ReadChunk;
    assert [49] + [32] + [59, 120] == [49, 32, 59, 120];
    SpacedChunkRead([49], [32], [59, 120], [65], rest, have, maxBody);
  }

  /** A framing line led by a space: the reader trims it and sees chunked framing, the
      normaliser does not and keeps it. */
  lemma IndentedChunkedStays()
    ensures var l := [SPACE] + TRANSFER_ENCODING + CHUNKED;
            && FieldLine(l) && Kept([l]) == [l] && IsChunked(Kept([l]))
  {
    hide IsFraming, FieldValue;
    IndentedIsKept();
    IndentedValue();
    var l := [SPACE] + TRANSFER_ENCODING + CHUNKED;
    assert [l][1..] == [] && [l][..0] == [];
    assert MatchAt(CHUNKED, CHUNKED, 0);
  }

  lemma IndentedIsKept()
    ensures var l := [SPACE] + TRANSFER_ENCODING + CHUNKED; FieldLine(l) && !IsFraming(l)
  {
    var l := [SPACE] + TRANSFER_ENCODING + CHUNKED;
    assert ToLower(l)[0] == SPACE && TRANSFER_ENCODING[0] != SPACE && CONTENT_LENGTH[0] != SPACE;
  }

  lemma IndentedValue()
    ensures FieldValue([SPACE] + TRANSFER_ENCODING + CHUNKED, TRANSFER_ENCODING) == Some(CHUNKED)
  {
    hide TrimSpace, ToLower;
    var l, inner := [SPACE] + TRANSFER_ENCODING + CHUNKED, TRANSFER_ENCODING + CHUNKED;
    TrimIndent(inner);
    assert l == [SPACE] + inner;
    LowerAlready(inner);
    assert inner[|TRANSFER_ENCODING|..] == CHUNKED;
    TrimNothing(CHUNKED);
  }

  lemma TrimIndent(l: bytes)
    requires l != [] && !IsSpace(l[0]) && !IsSpace(l[|l| - 1])
    ensures TrimSpace([SPACE] + l + CRLF) == l
  {
    hide TrimRight;
    var s := [SPACE] + l + CRLF;
    assert s[1..] == l + CRLF;
    TrimLineEnd(l);
  }

  lemma LowerAlready(s: bytes)
    requires forall b <- s :: LowerByte(b) == b
    ensures ToLower(s) == s
  {}

  lemma TrimNothing(s: bytes)
    requires s != [] && !IsSpace(s[0]) && !IsSpace(s[|s| - 1])
    ensures TrimSpace(s) == s
  {}
}
