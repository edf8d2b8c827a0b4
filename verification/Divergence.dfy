/** Wrong bytes are never made up later: where header and body templates keep their ids apart,
    the decoder's output follows the truth stream exactly when every piece is faithful. */
module Divergence {
  import opened Bytes
  import opened Numbers
  import opened Protocol
  import opened Splitter
  import opened DecoderSpec
  import opened EncoderSpec
  import opened Framing
  import opened Agreement
  import opened HttpRequest
  import opened Sessions
  import opened ByteExact
  import WireCost

  /** One of the two is a front of the other. */
  predicate Comparable(x: bytes, y: bytes) {
    x <= y || y <= x
  }

  lemma NotComparable(x: bytes, y: bytes, k: nat)
    requires k < |x| && k < |y| && x[k] != y[k]
    ensures !Comparable(x, y)
  {}

  lemma StillComparable(x: bytes, y: bytes, z: bytes)
    ensures Comparable(x + y, x + z) <==> Comparable(y, z)
  {
    if x + y <= x + z {
      assert y == (x + y)[|x|..] && z == (x + z)[|x|..];
    }
    if x + z <= x + y {
      assert y == (x + y)[|x|..] && z == (x + z)[|x|..];
    }
    if y <= z {
      assert x + z == x + y + z[|y|..];
    }
    if z <= y {
      assert x + y == x + z + y[|z|..];
    }
  }

  /** The constants the splitters produce: a name and CRLF, or a key and a delimiter. */
  predicate Marked(a: bytes, b: bytes) {
    || (b == CRLF && NameShape(a))
    || (|b| == 1 && IsDelim(b[0]) && KeyShape(a))
  }

  /** A name is no proper front of a name and a key none of a key: they differ where the
      shorter one ends. */
  lemma FrontsDiffer(a: bytes, b: bytes, c: bytes, d: bytes, x: bytes, y: bytes)
    requires Marked(a, b) && Marked(c, d) && |b| == |d| && |a| < |c|
    ensures !Comparable(a + x, c + y)
  {
    var l, r := a + x, c + y;
    if |b| == 1 {
      assert c[..|c| - 1][|a| - 1] == c[|a| - 1] != EQUALS;
      assert l[|a| - 1] == a[|a| - 1] && r[|a| - 1] == c[|a| - 1];
      NotComparable(l, r, |a| - 1);
    } else {
      var k := |a| - 2;
      assert !MatchAt(c, COLON_SPACE, k);
      assert a[k..][0] == a[k] == COLON && a[k..][1] == a[k + 1] == SPACE;
      assert c[k..k + 2] != COLON_SPACE;
      assert l[k] == a[k] && r[k] == c[k] && l[k + 1] == a[k + 1] && r[k + 1] == c[k + 1];
      if c[k] == COLON {
        assert c[k..k + 2] == [c[k], c[k + 1]];
        NotComparable(l, r, k + 1);
      } else {
        NotComparable(l, r, k);
      }
    }
  }

  /** Two templates of one kind that expand one lane to comparable streams, whatever follows,
      are the same template. */
  lemma NoMending(a: bytes, b: bytes, c: bytes, d: bytes, lane: bytes, x: bytes, y: bytes)
    requires Marked(a, b) && Marked(c, d) && |b| == |d|
    requires Comparable(a + lane + b + x, c + lane + d + y)
    ensures a == c && b == d
  {
    hide Marked, Comparable;
    Assoc4(a, lane, b, x);
    Assoc4(c, lane, d, y);
    if |a| < |c| {
      FrontsDiffer(a, b, c, d, lane + (b + x), lane + (d + y));
    } else if |c| < |a| {
      FrontsDiffer(c, d, a, b, lane + (d + y), lane + (b + x));
      SwapComparable(a + (lane + (b + x)), c + (lane + (d + y)));
    } else {
      SameFront(a, c, lane + (b + x), lane + (d + y));
      StillComparable(a, lane + (b + x), lane + (d + y));
      StillComparable(lane, b + x, d + y);
      SameFront(b, d, x, y);
    }
  }

  lemma Assoc4(a: bytes, b: bytes, c: bytes, d: bytes)
    ensures a + b + c + d == a + (b + (c + d))
  {}

  lemma SwapComparable(x: bytes, y: bytes)
    ensures Comparable(x, y) <==> Comparable(y, x)
  {}

  lemma SameFront(a: bytes, c: bytes, x: bytes, y: bytes)
    requires |a| == |c| && Comparable(a + x, c + y)
    ensures a == c
  {
    forall k | 0 <= k < |a|
      ensures a[k] == c[k]
    {
      assert (a + x)[k] == a[k] && (c + y)[k] == c[k];
    }
  }

  /** No header template shares its id with a body template. */
  predicate LanesApart(h: IdFn, ps: seq<Piece>) {
    forall p, q :: p in ps && q in ps && Gated(p) && Gated(q) && IdOf(h, p) == IdOf(h, q) ==> |p.constB| == |q.constB|
  }

  lemma ShapeMarked(p: Piece)
    requires AnyShape(p) && p.Seg?
    ensures Marked(p.constA, p.constB)
  {}

  /** What a piece feeds the decoder, whatever its id finds there. */
  lemma PieceFeeds(h: IdFn, st: EncState, all: seq<Piece>, p: Piece)
    requires EncInv(h, st) && TableOk(st.table) && FromPieces(h, st.table, all)
    requires AnyShape(p) && ShortConsts(p) && !Faithful(h, st, p)
    ensures p.Seg? && Gated(p) && IdOf(h, p) in st.table
    ensures var e, d := Emit(h, st, p), st.table[IdOf(h, p)];
            && d != DefinitionOf(h, p)
            && e.st.table == st.table
            && DataAfter(st.table, e.frames) == d.constA + p.lane + d.constB
  {
    hide RefPayload, DefinePayload, TableOk, FromPieces, AnyShape;
    var id := IdOf(h, p);
    var e := Emit(h, st, p);
    assert e.frames == [RefOrRaw(h, p)];
    RefEffect(st.table, id, p.lane);
    assert e.frames[1..] == [];
    hide EffectOf;
    DataOfFeed(st.table, e.frames[0]);
  }

  lemma DataOfFeed(table: Table, f: Frame)
    ensures EffectOf(table, f).Feeds? ==> DataAfter(table, [f]) == EffectOf(table, f).data
  {
    hide EffectOf;
    assert [f][1..] == [];
    assert DataAfter(TableStep(table, f), []) == [];
  }

  /** A delivered piece feeds its own bytes. */
  lemma DeliveredData(table: Table, fs: seq<Frame>, after: Table, data: bytes)
    requires Delivers(table, fs, after, data)
    ensures DataAfter(table, fs) == data && TableAfter(table, fs) == after
  {
    hide EffectOf;
    if |fs| == 1 {
      assert fs[1..] == [];
      assert data + [] == data;
    } else {
      assert fs[1..] == [fs[1]];
      DataOfFeed(after, fs[1]);
      assert TableStep(table, fs[0]) == after && DataOf(table, fs[0]) == [];
      assert [fs[1]][1..] == [];
      assert TableAfter(after, [fs[1]]) == TableAfter(TableStep(after, fs[1]), []);
    }
  }

  predicate Proper(all: seq<Piece>) {
    forall p <- all :: AnyShape(p) && ShortConsts(p)
  }

  /** The first unfaithful piece parts the decoder from the truth, whatever comes after. */
  lemma UnfaithfulParts(h: IdFn, st: EncState, all: seq<Piece>, p: Piece, x: bytes, y: bytes)
    requires EncInv(h, st) && TableOk(st.table) && FromPieces(h, st.table, all)
    requires Proper(all) && LanesApart(h, all) && p in all && !Faithful(h, st, p)
    ensures !Comparable(DataAfter(st.table, Emit(h, st, p).frames) + x, PieceBytes(p) + y)
  {
    hide Emit, EncInv, TableOk, AnyShape, ShortConsts, Faithful, DataAfter, Comparable, Marked;
    PieceFeeds(h, st, all, p);
    var d := st.table[IdOf(h, p)];
    var q :| q in all && Source(h, d, q);
    ShapeMarked(p);
    ShapeMarked(q);
    assert d == DefinitionOf(h, q) && d.id == IdOf(h, p) by {
      TableIds(h, st, IdOf(h, p));
    }
    if Comparable(d.constA + p.lane + d.constB + x, p.constA + p.lane + p.constB + y) {
      NoMending(d.constA, d.constB, p.constA, p.constB, p.lane, x, y);
    }
  }

  lemma TableIds(h: IdFn, st: EncState, id: u16)
    requires EncInv(h, st) && id in st.table
    ensures st.table[id].id == id
  {}

  /** The data of a run is the truth stream when the run is faithful, and otherwise neither is
      a front of the other: the first wrong piece is never made up for. */
  lemma {:induction false} DataFollows(h: IdFn, st: EncState, all: seq<Piece>, ps: seq<Piece>)
    requires EncInv(h, st) && TableOk(st.table) && FromPieces(h, st.table, all)
    requires Proper(all) && LanesApart(h, all) && forall p <- ps :: p in all
    ensures var data := DataAfter(st.table, EmitAll(h, st, ps).frames);
            if FaithfulRun(h, st, ps) then data == PiecesBytes(ps) else !Comparable(data, PiecesBytes(ps))
    decreases |ps|
  {
    hide Emit, EncInv, TableOk, FromPieces, Proper, LanesApart, Faithful, DataOf, TableStep, Comparable, Delivers,
         PieceBytes;
    if ps != [] {
      var p, rest := ps[0], ps[1..];
      var e := Emit(h, st, p);
      var more := EmitAll(h, e.st, rest);
      ProperPiece(all, p);
      EffectsAppend(st.table, e.frames, more.frames);
      if Faithful(h, st, p) {
        PieceSurvives(h, st, p);
        DeliveredData(st.table, e.frames, e.st.table, PieceBytes(p));
        EmitKeepsInv(h, st, p);
        WireCost.EmitFromPieces(h, st, all, p);
        DataFollows(h, e.st, all, rest);
        StillComparable(PieceBytes(p), DataAfter(e.st.table, more.frames), PiecesBytes(rest));
      } else {
        UnfaithfulParts(
          h, st, all, p, DataAfter(TableAfter(st.table, e.frames), more.frames), PiecesBytes(rest));
      }
    }
  }

  lemma ProperPiece(all: seq<Piece>, p: Piece)
    requires Proper(all) && p in all
    ensures AnyShape(p) && ShortConsts(p)
  {}

  // ---- the whole run, from a client's bytes ----

  lemma EmitNoReset(h: IdFn, st: EncState, p: Piece)
    ensures NoReset(Emit(h, st, p).frames)
  {
    hide RefPayload, DefinePayload;
  }

  lemma {:induction false} RunNoReset(h: IdFn, st: EncState, ps: seq<Piece>)
    ensures NoReset(EmitAll(h, st, ps).frames)
    decreases |ps|
  {
    hide Emit;
    if ps != [] {
      EmitNoReset(h, st, ps[0]);
      RunNoReset(h, Emit(h, st, ps[0]).st, ps[1..]);
    }
  }

  lemma InputProper(input: bytes)
    requires ShortKeys(input)
    ensures Proper(RunPieces(Accepted(input)))
  {
    AllAcceptedBounded(input);
    hide ReadRequests, ValidHead, ShortBody, AnyShape, ShortConsts;
    var rs := ReadRequests(input).requests;
    assert forall r <- rs :: AcceptedRequest(r);
    MessagesShort(rs);
    RunPartition(Accepted(input));
  }

  /** If the decoder has written the truth stream, the run was faithful. */
  lemma WrittenMeansFaithful(h: IdFn, input: bytes)
    requires ShortKeys(input) && LanesApart(h, RunPieces(Accepted(input)))
    requires var r := RunFrames(FRESH, RunEmission(h, START, Accepted(input)).frames);
             r.Ok? && r.value.asm.flushed == Truths(Accepted(input))
    ensures FaithfulRun(h, START, RunPieces(Accepted(input)))
  {
    hide ReadRequests, ShortKeys, LanesApart, FaithfulRun, Proper, EmitAll, Step, DataAfter, Accepted, RunPieces;
    var ps := RunPieces(Accepted(input));
    InputProper(input);
    RunNoReset(h, START, ps);
    NoMarkerInShort([]);
    var fs := RunEmission(h, START, Accepted(input)).frames;
    Conservation(FRESH, fs);
    RunPartition(Accepted(input));
    DataFollows(h, START, ps, ps);
    var st := RunFrames(FRESH, fs).value;
    assert Held(FRESH) == [] && [] + DataAfter(map[], fs) == DataAfter(map[], fs);
    assert PiecesBytes(ps) <= Held(st);
  }

  /** Byte-exactness, exactly: for every client byte stream with keys below 64 KiB, and every id
      function that keeps header and body templates apart, the decoder ends cleanly having
      written each accepted request once and whole if and only if every request line is honest
      and every piece is faithful; and then with nothing pending. MendedRun and LongKeyRun each
      break one of the two hypotheses alone with a run that is exact and not faithful. */
  lemma ByteExactExactly(h: IdFn, input: bytes)
    requires ShortKeys(input) && LanesApart(h, RunPieces(Accepted(input)))
    ensures var out := RunBytes(FRESH, Wire(h, input));
            && (out.ending == CleanEnd && out.st.asm.flushed == Truths(Accepted(input)) <==>
                HonestInput(input) && FaithfulRun(h, START, RunPieces(Accepted(input))))
            && (out.ending == CleanEnd && out.st.asm == Idle(Truths(Accepted(input))) <==>
                HonestInput(input) && FaithfulRun(h, START, RunPieces(Accepted(input))))
  {
    var fs := RunEmission(h, START, Accepted(input)).frames;
    EncoderNeverFails(h, input);
    hide ReadRequests, ShortKeys, LanesApart, FaithfulRun, HonestInput, Step, Accepted, RunPieces, RunEmission;
    FramesRoundTrip(fs);
    RunBytesIsRunFrames(FRESH, WireOf(fs));
    var out := RunBytes(FRESH, Wire(h, input));
    if out.ending == CleanEnd && out.st.asm.flushed == Truths(Accepted(input)) {
      WrittenMeansFaithful(h, input);
    }
    if FaithfulRun(h, START, RunPieces(Accepted(input))) {
      RunExactly(h, input);
    }
  }
}
