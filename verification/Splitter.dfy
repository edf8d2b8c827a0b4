/** How the encoder cuts a request into pieces: header lines into `Name: ` + value + CRLF,
    body lines into `key=` + value + delimiter, everything else raw. */
module Splitter {
  import opened Bytes
  import opened Numbers

  const COLON_SPACE: bytes := [58, 32]

  datatype Piece = Raw(data: bytes) | Seg(constA: bytes, lane: bytes, constB: bytes)

  /** The request bytes a piece stands for. */
  function PieceBytes(p: Piece): bytes {
    match p
    case Raw(data) => data
    case Seg(a, lane, b) => a + lane + b
  }

  function PiecesBytes(ps: seq<Piece>): bytes {
    if ps == [] then [] else PieceBytes(ps[0]) + PiecesBytes(ps[1..])
  }

  lemma {:induction false} PiecesBytesAppend(a: seq<Piece>, b: seq<Piece>)
    ensures PiecesBytes(a + b) == PiecesBytes(a) + PiecesBytes(b)
  {
    if a == [] {
      assert a + b == b;
    } else {
      var ab := a + b;
      assert ab[0] == a[0] && ab[1..] == a[1..] + b;
      PiecesBytesAppend(a[1..], b);
      Assoc(PieceBytes(a[0]), PiecesBytes(a[1..]), PiecesBytes(b));
    }
  }

  /** A name up to and including its first `: `. */
  predicate NameShape(a: bytes) {
    |a| >= 3 && a[|a| - 2..] == COLON_SPACE && forall k :: 0 <= k < |a| - 2 ==> !MatchAt(a, COLON_SPACE, k)
  }

  /** A key up to and including its first `=`. */
  predicate KeyShape(a: bytes) {
    |a| >= 1 && a[|a| - 1] == EQUALS && EQUALS !in a[..|a| - 1]
  }

  /** A header template: the name, a value, CRLF. */
  predicate HeaderShape(p: Piece) {
    p.Seg? && p.constB == CRLF && NameShape(p.constA)
  }

  /** A body template: a key, a nonempty value, one delimiter. */
  predicate BodyShape(p: Piece) {
    p.Seg? && p.lane != [] && KeyShape(p.constA) && |p.constB| == 1 && IsDelim(p.constB[0])
  }

  predicate IsDelim(b: byte) {
    b == COMMA || b == SPACE || b == LF
  }

  datatype Lane = Header | Body

  predicate WellShaped(p: Piece, lane: Lane) {
    PieceBytes(p) != [] && (p.Seg? ==> if lane.Header? then HeaderShape(p) else BodyShape(p))
  }

  /** `ps` is an exact partition of `s` into nonempty pieces of the given shape. */
  predicate Partition(ps: seq<Piece>, s: bytes, lane: Lane) {
    PiecesBytes(ps) == s && forall p <- ps :: WellShaped(p, lane)
  }

  lemma PartitionNone(lane: Lane)
    ensures Partition([], [], lane)
  {}

  lemma PartitionOne(p: Piece, s: bytes, lane: Lane)
    requires WellShaped(p, lane) && PieceBytes(p) == s
    ensures Partition([p], s, lane)
  {
    assert [p][1..] == [];
  }

  lemma PartitionJoin(ps: seq<Piece>, s: bytes, qs: seq<Piece>, t: bytes, whole: bytes, lane: Lane)
    requires Partition(ps, s, lane) && Partition(qs, t, lane) && whole == s + t
    ensures Partition(ps + qs, whole, lane)
  {
    PiecesBytesAppend(ps, qs);
  }

  // ---- headers ----

  predicate EndsInCrlf(line: bytes) {
    |line| >= 2 && line[|line| - 2..] == CRLF
  }

  /** `trySplitHeaderLine`; a line it does not split is sent raw. */
  function HeaderLinePiece(line: bytes): (p: Piece)
    ensures PieceBytes(p) == line
    ensures p.Seg? ==> HeaderShape(p)
  {
    if !EndsInCrlf(line) then Raw(line)
    else
      var idx := Index(line, COLON_SPACE);
      if idx <= 0 then Raw(line)
      else
        ColonBeforeCrlf(line, idx);
        NameUpTo(line, idx);
        Seg(line[..idx + 2], line[idx + 2..|line| - 2], CRLF)
  }

  lemma NameUpTo(line: bytes, idx: nat)
    requires idx > 0 && MatchAt(line, COLON_SPACE, idx)
    requires forall k :: 0 <= k < idx ==> !MatchAt(line, COLON_SPACE, k)
    ensures NameShape(line[..idx + 2])
  {
    var a := line[..idx + 2];
    assert a[idx..] == line[idx..idx + 2];
    forall k | 0 <= k < idx
      ensures !MatchAt(a, COLON_SPACE, k)
    {
      assert !MatchAt(line, COLON_SPACE, k);
      assert a[k..k + 2] == line[k..k + 2];
    }
  }

  lemma ColonBeforeCrlf(line: bytes, idx: int)
    requires EndsInCrlf(line) && MatchAt(line, COLON_SPACE, idx)
    ensures idx + 2 <= |line| - 2
    ensures line[idx] == COLON && line[idx + 1] == SPACE
  {
    assert line[|line| - 2..][0] == CR && line[|line| - 2..][1] == LF;
    assert line[idx..idx + 2][0] == COLON && line[idx..idx + 2][1] == SPACE;
  }

  /** `encodeHeaderLines` over the parts of `bytes.Split`: every part but the last gets its
      CRLF back, and an empty last part is skipped. */
  function PartsPieces(parts: seq<bytes>): seq<Piece>
    requires parts != []
  {
    if |parts| == 1 then
      if parts[0] == [] then [] else [HeaderLinePiece(parts[0])]
    else [HeaderLinePiece(parts[0] + CRLF)] + PartsPieces(parts[1..])
  }

  function HeaderPieces(hdr: bytes): seq<Piece> {
    PartsPieces(Split(hdr, CRLF))
  }

  lemma HeaderPiecesLast(hdr: bytes)
    requires Index(hdr, CRLF) < 0
    ensures HeaderPieces(hdr) == if hdr == [] then [] else [HeaderLinePiece(hdr)]
  {
    hide Index, HeaderLinePiece;
    assert Split(hdr, CRLF) == [hdr];
  }

  lemma HeaderPiecesStep(hdr: bytes)
    requires Index(hdr, CRLF) >= 0
    ensures var i := Index(hdr, CRLF);
            && hdr == hdr[..i] + CRLF + hdr[i + 2..]
            && HeaderPieces(hdr) == [HeaderLinePiece(hdr[..i] + CRLF)] + HeaderPieces(hdr[i + 2..])
  {
    hide Index, HeaderLinePiece;
    var i := Index(hdr, CRLF);
    var parts := Split(hdr, CRLF);
    assert parts[0] == hdr[..i] && parts[1..] == Split(hdr[i + 2..], CRLF);
  }

  /** Header splitting is an exact partition, for any header bytes at all. */
  lemma {:induction false} HeaderPartition(hdr: bytes)
    ensures Partition(HeaderPieces(hdr), hdr, Header)
    decreases |hdr|
  {
    hide PiecesBytes, Partition, HeaderLinePiece, HeaderPieces, Index;
    var i := Index(hdr, CRLF);
    if i >= 0 {
      var line, rest := hdr[..i] + CRLF, hdr[i + 2..];
      HeaderPartition(rest);
      HeaderPiecesStep(hdr);
      PartitionOne(HeaderLinePiece(line), line, Header);
      PartitionJoin([HeaderLinePiece(line)], line, HeaderPieces(rest), rest, hdr, Header);
    } else {
      HeaderPiecesLast(hdr);
      if hdr == [] {
        PartitionNone(Header);
      } else {
        PartitionOne(HeaderLinePiece(hdr), hdr, Header);
      }
    }
  }

  // ---- bodies ----

  /** The first comma, space or line feed, or -1. */
  function FirstDelim(s: bytes): (d: int)
    ensures -1 <= d < |s|
    ensures d >= 0 ==> IsDelim(s[d]) && forall k :: 0 <= k < d ==> !IsDelim(s[k])
    ensures d < 0 ==> forall k :: 0 <= k < |s| ==> !IsDelim(s[k])
  {
    if s == [] then -1
    else if IsDelim(s[0]) then 0
    else
      var r := FirstDelim(s[1..]);
      assert forall k :: 1 <= k < |s| ==> s[k] == s[1..][k - 1];
      if r < 0 then -1 else r + 1
  }

  /** The position of the delimiter that closes the next segment, or -1 when the rest of
      the line goes out raw. */
  function SegmentEnd(s: bytes): (end: int)
    ensures -1 <= end < |s|
  {
    var eq := IndexByte(s, EQUALS);
    if eq < 0 then -1
    else
      var d := FirstDelim(s[eq + 1..]);
      if d <= 0 then -1 else eq + 1 + d
  }

  /** The segment up to that delimiter. */
  function Segment(s: bytes): Piece
    requires SegmentEnd(s) >= 0
  {
    var v, end := IndexByte(s, EQUALS) + 1, SegmentEnd(s);
    Seg(s[..v], s[v..end], [s[end]])
  }

  /** The factoring of `encodeInfluxLineKV` on what is left of a line at the cursor. */
  function KeyValuePieces(s: bytes): seq<Piece>
    decreases |s|
  {
    var end := SegmentEnd(s);
    if end < 0 then [Raw(s)]
    else
      var rest := s[end + 1..];
      if s[end] == COMMA then [Segment(s)] + KeyValuePieces(rest)
      else if s[end] == SPACE then [Segment(s), Raw(rest)]
      else [Segment(s)]
  }

  /** What follows the first segment of a line. */
  function AfterSegment(s: bytes): seq<Piece>
    requires SegmentEnd(s) >= 0
  {
    var end := SegmentEnd(s);
    var rest := s[end + 1..];
    if s[end] == COMMA then KeyValuePieces(rest) else if s[end] == SPACE then [Raw(rest)] else []
  }

  lemma KeyValueStep(s: bytes)
    ensures KeyValuePieces(s) == if SegmentEnd(s) < 0 then [Raw(s)] else [Segment(s)] + AfterSegment(s)
  {
    hide SegmentEnd, Segment;
  }

  function LinePieces(line: bytes): seq<Piece> {
    if |line| < 2 || line[|line| - 1] != LF then [Raw(line)] else KeyValuePieces(line)
  }

  /** `encodeBodyAsLines`. */
  function BodyPieces(body: bytes): seq<Piece>
    decreases |body|
  {
    if body == [] then []
    else
      var j := IndexByte(body, LF);
      if j < 0 then [Raw(body)]
      else LinePieces(body[..j + 1]) + BodyPieces(body[j + 1..])
  }

  predicate OneLine(s: bytes) {
    s != [] && s[|s| - 1] == LF && LF !in s[..|s| - 1]
  }

  lemma SegmentExact(s: bytes)
    requires SegmentEnd(s) >= 0
    ensures var end := SegmentEnd(s);
            && IsDelim(s[end])
            && PieceBytes(Segment(s)) == s[..end + 1]
            && WellShaped(Segment(s), Body)
  {
    var v, end := IndexByte(s, EQUALS) + 1, SegmentEnd(s);
    assert s[end] == s[v..][end - v];
    assert s[..v][..v - 1] == s[..v - 1];
    assert s[..end + 1] == s[..v] + s[v..end] + [s[end]];
  }

  lemma {:induction false} KeyValuePartition(s: bytes)
    requires OneLine(s)
    ensures Partition(KeyValuePieces(s), s, Body)
    decreases |s|
  {
    hide Partition, PiecesBytes, SegmentEnd, Segment;
    var end := SegmentEnd(s);
    if end < 0 {
      PartitionOne(Raw(s), s, Body);
    } else {
      var seg, head, rest := Segment(s), s[..end + 1], s[end + 1..];
      SegmentExact(s);
      LineRest(s, end);
      assert s == head + rest;
      PartitionOne(seg, head, Body);
      if s[end] == COMMA {
        KeyValuePartition(rest);
        PartitionJoin([seg], head, KeyValuePieces(rest), rest, s, Body);
      } else if s[end] == SPACE {
        PartitionOne(Raw(rest), rest, Body);
        assert [seg] + [Raw(rest)] == [seg, Raw(rest)];
        PartitionJoin([seg], head, [Raw(rest)], rest, s, Body);
      } else {
        PartitionOne(seg, s, Body);
      }
    }
  }

  /** After a delimiter other than LF the rest is still one line; after LF nothing is left. */
  lemma LineRest(s: bytes, end: nat)
    requires OneLine(s) && end < |s|
    ensures s[end] == LF ==> s[end + 1..] == []
    ensures s[end] != LF ==> OneLine(s[end + 1..])
  {
    if end < |s| - 1 {
      var rest := s[end + 1..];
      assert s[..|s| - 1][end] == s[end];
      forall k | 0 <= k < |rest| - 1
        ensures rest[k] != LF
      {
        assert s[..|s| - 1][end + 1 + k] == rest[k];
      }
    }
  }

  /** A line of the body is cut without loss. */
  lemma LinePartition(line: bytes)
    requires OneLine(line)
    ensures Partition(LinePieces(line), line, Body)
  {
    hide PiecesBytes, KeyValuePieces, Partition;
    if |line| < 2 {
      PartitionOne(Raw(line), line, Body);
    } else {
      KeyValuePartition(line);
    }
  }

  /** Body splitting is an exact partition: nothing is lost or repeated at `,`, ` ` or LF. */
  lemma {:induction false} BodyPartition(body: bytes)
    ensures Partition(BodyPieces(body), body, Body)
    decreases |body|
  {
    hide PiecesBytes, KeyValuePieces, Partition;
    var j := IndexByte(body, LF);
    if body == [] {
      PartitionNone(Body);
    } else if j < 0 {
      PartitionOne(Raw(body), body, Body);
    } else {
      var line, rest := body[..j + 1], body[j + 1..];
      assert line[..j] == body[..j];
      LinePartition(line);
      hide LinePieces;
      BodyPartition(rest);
      assert body == line + rest;
      PartitionJoin(LinePieces(line), line, BodyPieces(rest), rest, body, Body);
    }
  }

  // ---- observations ----

  /** `dictionary.SpanObservation`, as the encoder fills it in. */
  datatype SpanObservation = SpanObservation(
    constA: bytes, constB: bytes, intraHits: nat, spanSize: u32, lastSeenOffset: nat)

  /** One observation for every key/value segment, placed where the segment ends. */
  function Observations(ps: seq<Piece>, base: nat): seq<SpanObservation> {
    if ps == [] then []
    else
      var end := base + |PieceBytes(ps[0])|;
      (match ps[0]
       case Raw(_) => []
       case Seg(a, lane, b) => [SpanObservation(a, b, 1, Wrap32(|PieceBytes(ps[0])|), end)])
      + Observations(ps[1..], end)
  }

  lemma ObserveNone(base: nat)
    ensures Observations([], base) == []
  {}

  lemma ObserveSeg(p: Piece, rest: seq<Piece>, base: nat)
    requires p.Seg?
    ensures var n := |PieceBytes(p)|;
            Observations([p] + rest, base) ==
              [SpanObservation(p.constA, p.constB, 1, Wrap32(n), base + n)] + Observations(rest, base + n)
  {
    hide PieceBytes;
    assert ([p] + rest)[0] == p && ([p] + rest)[1..] == rest;
  }

  lemma ObserveSegment(s: bytes, base: nat)
    requires SegmentEnd(s) >= 0
    ensures var p, end := Segment(s), SegmentEnd(s);
            Observations(KeyValuePieces(s), base) ==
              [SpanObservation(p.constA, p.constB, 1, Wrap32(end + 1), base + end + 1)]
              + if s[end] == COMMA then Observations(KeyValuePieces(s[end + 1..]), base + end + 1) else []
  {
    hide KeyValuePieces, SegmentEnd, Observations, PieceBytes, Wrap32;
    var end := SegmentEnd(s);
    KeyValueStep(s);
    SegmentExact(s);
    ObserveSeg(Segment(s), AfterSegment(s), base);
    ObserveRaw(s[end + 1..], base + end + 1);
    ObserveNone(base + end + 1);
  }

  lemma ObserveRaw(s: bytes, base: nat)
    ensures Observations([Raw(s)], base) == []
  {
    assert [Raw(s)][1..] == [];
  }

  /** What one piece that ends at `end` adds. */
  function Observed(p: Piece, end: nat): seq<SpanObservation> {
    if p.Raw? then [] else [SpanObservation(p.constA, p.constB, 1, Wrap32(|PieceBytes(p)|), end)]
  }

  lemma ObserveCons(p: Piece, rest: seq<Piece>, base: nat)
    ensures var end := base + |PieceBytes(p)|;
            Observations([p] + rest, base) == Observed(p, end) + Observations(rest, end)
  {
    hide PieceBytes, Wrap32;
    assert ([p] + rest)[0] == p && ([p] + rest)[1..] == rest;
  }

  lemma {:induction false} ObservationsAppend(x: seq<Piece>, y: seq<Piece>, base: nat)
    ensures Observations(x + y, base) == Observations(x, base) + Observations(y, base + |PiecesBytes(x)|)
  {
    hide PieceBytes, Observations;
    if x == [] {
      assert x + y == y;
      ObserveNone(base);
    } else {
      var end := base + |PieceBytes(x[0])|;
      assert x == [x[0]] + x[1..] && x + y == [x[0]] + (x[1..] + y);
      ObserveCons(x[0], x[1..] + y, base);
      ObserveCons(x[0], x[1..], base);
      ObservationsAppend(x[1..], y, end);
      Assoc(Observed(x[0], end), Observations(x[1..], end), Observations(y, end + |PiecesBytes(x[1..])|));
    }
  }

  /** Where an observation points, `truth` holds constA, some lane, and constB. */
  ghost predicate PointsAt(o: SpanObservation, truth: bytes) {
    && o.spanSize <= o.lastSeenOffset <= |truth|
    && exists lane :: truth[o.lastSeenOffset - o.spanSize..o.lastSeenOffset] == o.constA + lane + o.constB
  }

  lemma ObservationCases(ps: seq<Piece>, base: nat, o: SpanObservation)
    requires o in Observations(ps, base)
    ensures ps != []
    ensures var n := |PieceBytes(ps[0])|;
            || o in Observations(ps[1..], base + n)
            || (ps[0].Seg? && o == SpanObservation(ps[0].constA, ps[0].constB, 1, Wrap32(n), base + n))
  {
    hide PieceBytes, Wrap32;
  }

  lemma SegmentPoints(pre: bytes, p: Piece, post: bytes)
    requires p.Seg? && |PieceBytes(p)| < TWO32
    ensures var n := |PieceBytes(p)|;
            PointsAt(SpanObservation(p.constA, p.constB, 1, Wrap32(n), |pre| + n), pre + PieceBytes(p) + post)
  {
    var whole := PieceBytes(p);
    var truth := pre + whole + post;
    MiddleOf(pre, whole, post);
    var o := SpanObservation(p.constA, p.constB, 1, Wrap32(|whole|), |pre| + |whole|);
    assert o.spanSize == |whole|;
    assert truth[o.lastSeenOffset - o.spanSize..o.lastSeenOffset] == o.constA + p.lane + o.constB;
  }

  /** The segments among the pieces, in order. */
  function SegsOf(ps: seq<Piece>): seq<Piece> {
    if ps == [] then [] else (if ps[0].Seg? then [ps[0]] else []) + SegsOf(ps[1..])
  }

  /** What is observed of a segment: its two constants and its whole length, counted once. */
  predicate ObservedAs(o: SpanObservation, p: Piece) {
    && p.Seg? && o.constA == p.constA && o.constB == p.constB && o.intraHits == 1
    && o.spanSize == (|p.constA| + |p.lane| + |p.constB|) % 0x1_0000_0000
  }

  /** One observation for each segment, in order. */
  lemma {:induction false} ObservationsMatch(ps: seq<Piece>, base: nat)
    ensures var obs, segs := Observations(ps, base), SegsOf(ps);
            |obs| == |segs| && forall k :: 0 <= k < |segs| ==> ObservedAs(obs[k], segs[k])
    decreases |ps|
  {
    if ps != [] {
      var end := base + |PieceBytes(ps[0])|;
      assert ps == [ps[0]] + ps[1..];
      ObserveCons(ps[0], ps[1..], base);
      ObservationsMatch(ps[1..], end);
      assert ps[0].Seg? ==> ObservedAs(Observed(ps[0], end)[0], ps[0]);
      hide Observations, ObservedAs, PieceBytes;
    } else {
      ObserveNone(base);
    }
  }

  /** Every observation made while encoding `ps` at offset |pre| points at its own span. */
  lemma {:induction false} ObservationPoints(pre: bytes, ps: seq<Piece>, post: bytes, o: SpanObservation)
    requires |PiecesBytes(ps)| < TWO32
    requires o in Observations(ps, |pre|)
    ensures PointsAt(o, pre + PiecesBytes(ps) + post)
    decreases |ps|
  {
    hide Observations, PointsAt, PieceBytes, Wrap32;
    ObservationCases(ps, |pre|, o);
    var first, more := PieceBytes(ps[0]), PiecesBytes(ps[1..]);
    Assoc(pre, first, more);
    Assoc(pre + first, more, post);
    if o in Observations(ps[1..], |pre| + |first|) {
      ObservationPoints(pre + first, ps[1..], post, o);
    } else {
      SegmentPoints(pre, ps[0], more + post);
    }
  }

  lemma MiddleOf(pre: bytes, mid: bytes, post: bytes)
    ensures (pre + mid + post)[|pre|..|pre| + |mid|] == mid
  {}
}
