/** The header normaliser: chunked framing becomes a truthful Content-Length. */
module Normalizer {
  import opened Bytes
  import opened Numbers
  import opened HttpRequest
  import D = DecoderSpec

  // "Content-Length: "
  const LENGTH_PREFIX: bytes := [67, 111, 110, 116, 101, 110, 116, 45, 76, 101, 110, 103, 116, 104, 58, 32]

  /** A line the normaliser drops: it matches untrimmed text, unlike the reader. */
  predicate IsFraming(l: bytes) {
    HasPrefix(ToLower(l), TRANSFER_ENCODING) || HasPrefix(ToLower(l), CONTENT_LENGTH)
  }

  /** The lines kept: up to the first empty one, without framing lines. */
  function Kept(ls: seq<bytes>): seq<bytes> {
    if ls == [] || ls[0] == [] then []
    else if IsFraming(ls[0]) then Kept(ls[1..])
    else [ls[0]] + Kept(ls[1..])
  }

  function LengthLine(n: nat): bytes {
    LENGTH_PREFIX + Itoa(n)
  }

  function NormalLines(ls: seq<bytes>, n: nat): seq<bytes>
    requires ls != []
  {
    [ls[0]] + Kept(ls[1..]) + [LengthLine(n)]
  }

  /** `normalizeHTTPHeaders`. */
  function Normalize(raw: bytes, n: nat): bytes {
    Block(NormalLines(Split(raw, CRLF), n))
  }

  /** The loop of `normalizeHTTPHeaders` over the split header. */
  method NormalizeHTTPHeaders(raw: bytes, bodyLen: nat) returns (out: bytes)
    ensures out == Normalize(raw, bodyLen)
  {
    hide Split, Itoa, IsFraming;
    var lines := Split(raw, CRLF);
    ghost var kept := [];
    out := lines[0] + CRLF;
    assert Lines([lines[0]]) == out + Lines([]);
    var i := 1;
    while i < |lines|
      invariant 1 <= i <= |lines|
      invariant out == Lines([lines[0]] + kept)
      invariant Kept(lines[1..]) == kept + Kept(lines[i..])
    {
      var line := lines[i];
      assert lines[i..][0] == line && lines[i..][1..] == lines[i + 1..];
      if |line| == 0 {
        assert kept + [] == kept;
        break;
      }
      i := i + 1;
      if IsFraming(line) {
        continue;
      }
      KeepLine(lines[0], kept, line);
      Assoc(kept, [line], Kept(lines[i..]));
      kept := kept + [line];
      out := out + line;
      out := out + CRLF;
    }
    assert kept == Kept(lines[1..]) by {
      assert kept + [] == kept;
    }
    KeepLine(lines[0], kept, LengthLine(bodyLen));
    out := out + LENGTH_PREFIX;
    out := out + Itoa(bodyLen);
    out := out + CRLF;
    Assoc(Lines([lines[0]] + kept), LENGTH_PREFIX, Itoa(bodyLen));
    out := out + CRLF;
  }

  lemma KeepLine(first: bytes, kept: seq<bytes>, line: bytes)
    ensures Lines([first] + (kept + [line])) == Lines([first] + kept) + line + CRLF
    ensures [first] + (kept + [line]) == [first] + kept + [line]
  {
    LinesAppend([first] + kept, [line]);
    assert [line][1..] == [];
    assert Lines([line]) == line + CRLF;
    Assoc(Lines([first] + kept), line, CRLF);
    assert [first] + (kept + [line]) == [first] + kept + [line];
  }

  /** What the encoder sends for an accepted request. */
  function HeaderFor(r: Request): bytes {
    Normalize(Block(r.lines), |r.body|)
  }

  // ---- on accepted heads ----

  lemma {:induction false} KeptStops(ls: seq<bytes>, tail: seq<bytes>)
    requires ValidFields(ls)
    ensures Kept(ls + [[]] + tail) == Kept(ls)
  {
    var all := ls + [[]] + tail;
    if ls != [] {
      assert ls == [ls[0]] + ls[1..];
      ValidFieldsSplit(ls[0], ls[1..]);
      assert all[0] == ls[0] && all[1..] == ls[1..] + [[]] + tail;
      KeptStops(ls[1..], tail);
    }
  }

  lemma {:induction false} KeptValid(ls: seq<bytes>)
    requires ValidFields(ls)
    ensures ValidFields(Kept(ls)) && Kept(Kept(ls)) == Kept(ls)
    ensures forall l <- Kept(ls) :: l in ls
    ensures forall l <- Kept(ls) :: !IsFraming(l)
  {
    hide IsFraming;
    if ls != [] {
      assert ls == [ls[0]] + ls[1..];
      ValidFieldsSplit(ls[0], ls[1..]);
      KeptValid(ls[1..]);
      if !IsFraming(ls[0]) {
        ValidFieldsSplit(ls[0], Kept(ls[1..]));
        var k := Kept(ls);
        assert k[0] == ls[0] && k[1..] == Kept(ls[1..]);
      }
    }
  }

  lemma SplitBlock(ls: seq<bytes>)
    requires LfFree(ls)
    ensures Split(Block(ls), CRLF) == ls + [[]] + [[]]
  {
    LinesAppend(ls, [[]]);
    var blank: seq<bytes> := [[]];
    assert blank[1..] == [];
    assert Lines(blank) == CRLF;
    assert Block(ls) == Lines(ls + [[]]) + [];
    SplitLines(ls + [[]], []);
  }

  lemma HeadLfFree(ls: seq<bytes>)
    requires ls != [] && LF !in ls[0] && ValidFields(ls[1..])
    ensures LfFree(ls)
  {
    forall l | l in ls
      ensures NoLf(l)
    {
      if l != ls[0] {
        assert l in ls[1..];
        assert FieldLine(l);
      }
    }
  }

  /** On an accepted head the normaliser keeps the request line and every line that is not a
      framing line, in order, and appends the one Content-Length line. */
  lemma NormalizeBlock(ls: seq<bytes>, n: nat)
    requires ls != [] && LF !in ls[0] && ValidFields(ls[1..])
    ensures Normalize(Block(ls), n) == Block(NormalLines(ls, n))
  {
    HeadLfFree(ls);
    SplitBlock(ls);
    var parts := ls + [[]] + [[]];
    assert parts[0] == ls[0] && parts[1..] == ls[1..] + [[]] + [[]];
    KeptStops(ls[1..], [[]]);
    hide Block, Kept, Split;
  }

  lemma LengthLineLower(n: nat)
    ensures ToLower(LengthLine(n)) == CONTENT_LENGTH + ([SPACE] + Itoa(n))
  {
    var d := Itoa(n);
    ToLowerAppend(LENGTH_PREFIX, d);
    assert forall i :: 0 <= i < |d| ==> d[i] in d;
    assert ToLower(d) == d;
    assert ToLower(LENGTH_PREFIX) == CONTENT_LENGTH + [SPACE];
    Assoc(CONTENT_LENGTH, [SPACE], d);
  }

  lemma LengthLineValid(n: nat)
    ensures LengthLine(n) != [] && LF !in LengthLine(n)
    ensures IsFraming(LengthLine(n))
  {
    assert forall b <- Itoa(n) :: 48 <= b <= 57;
    assert LF !in LENGTH_PREFIX;
    LengthLineLower(n);
  }

  lemma NormalFields(ls: seq<bytes>, n: nat)
    requires ls != [] && ValidFields(ls[1..])
    ensures var ns := NormalLines(ls, n);
            ns != [] && ns[0] == ls[0] && ns[1..] == Kept(ls[1..]) + [LengthLine(n)] && ValidFields(ns[1..])
  {
    hide IsFraming, Kept, LengthLine;
    KeptValid(ls[1..]);
    LengthLineValid(n);
    var ns, k := NormalLines(ls, n), Kept(ls[1..]);
    assert ns[1..] == k + [LengthLine(n)];
    assert forall l <- ns[1..] :: l in k || l == LengthLine(n);
  }

  lemma {:induction false} KeptOfJoined(ks: seq<bytes>, l: bytes)
    requires ValidFields(ks) && Kept(ks) == ks && l != [] && IsFraming(l)
    requires forall k <- ks :: !IsFraming(k)
    ensures Kept(ks + [l]) == ks
  {
    var all := ks + [l];
    if ks == [] {
      assert all[1..] == [];
    } else {
      assert ks == [ks[0]] + ks[1..];
      ValidFieldsSplit(ks[0], ks[1..]);
      assert all[0] == ks[0] && all[1..] == ks[1..] + [l];
      assert Kept(ks) == [ks[0]] + Kept(ks[1..]);
      assert Kept(ks)[1..] == Kept(ks[1..]) == ks[1..];
      KeptOfJoined(ks[1..], l);
    }
  }

  /** Normalising twice is normalising once. */
  lemma NormalizeIdempotent(ls: seq<bytes>, n: nat, m: nat)
    requires ls != [] && LF !in ls[0] && ValidFields(ls[1..])
    ensures Normalize(Normalize(Block(ls), m), n) == Normalize(Block(ls), n)
  {
    NormalizeBlock(ls, m);
    NormalFields(ls, m);
    NormalizeBlock(NormalLines(ls, m), n);
    NormalizeBlock(ls, n);
    KeptValid(ls[1..]);
    LengthLineValid(m);
    KeptOfJoined(Kept(ls[1..]), LengthLine(m));
    hide Block, Kept, LengthLine, IsFraming, Normalize;
  }

  // ---- the end of the header ----

  /** When nothing matches inside `a`, the first match in a + b is the first one in b. */
  lemma IndexSkip(a: bytes, b: bytes, sep: bytes)
    requires sep != [] && Index(b, sep) >= 0
    requires forall k :: 0 <= k < |a| ==> !MatchAt(a + b, sep, k)
    ensures Index(a + b, sep) == |a| + Index(b, sep)
  {
    var i := |a| + Index(b, sep);
    forall k | |a| <= k
      ensures MatchAt(a + b, sep, k) == MatchAt(b, sep, k - |a|)
    {
      if k + |sep| <= |a + b| {
        assert (a + b)[k..k + |sep|] == b[k - |a|..k - |a| + |sep|];
      }
    }
    assert MatchAt(a + b, sep, i);
    IndexIs(a + b, sep, i);
  }

  /** The first CRLFCRLF of a header block is its last four bytes. */
  lemma {:induction false} MarkerLast(ls: seq<bytes>)
    requires ls != [] && ValidFields(ls)
    ensures |Block(ls)| >= 4 && Index(Block(ls), CRLFCRLF) == |Block(ls)| - 4
  {
    var l, more := ls[0], ls[1..];
    assert ls == [l] + more;
    ValidFieldsSplit(l, more);
    LinesSplitFirst(l, more, CRLF);
    var s, tail := Block(ls), Block(more);
    assert s == l + CRLF + tail;
    forall k | 0 <= k < (if more == [] then |l| else |l| + 2)
      ensures !MatchAt(s, CRLFCRLF, k)
    {
      NoMarkerAt(l, more, k);
    }
    if more == [] {
      assert s[|l|..|l| + 4] == CRLFCRLF;
      IndexIs(s, CRLFCRLF, |l|);
    } else {
      MarkerLast(more);
      IndexSkip(l + CRLF, tail, CRLFCRLF);
    }
  }

  lemma NoMarkerAt(l: bytes, more: seq<bytes>, k: nat)
    requires l != [] && LF !in l && ValidFields(more)
    requires k < if more == [] then |l| else |l| + 2
    ensures !MatchAt(l + CRLF + Block(more), CRLFCRLF, k)
  {
    var tail := Block(more);
    var s := l + CRLF + tail;
    assert forall j :: 0 <= j < |l| ==> s[j] == l[j] && s[j] != LF;
    assert s[|l|] == CR && s[|l| + 1] == LF;
    if more != [] {
      assert more == [more[0]] + more[1..];
      ValidFieldsSplit(more[0], more[1..]);
      LinesSplitFirst(more[0], more[1..], CRLF);
      assert tail == more[0] + CRLF + Block(more[1..]);
      assert tail[0] == more[0][0] != LF;
      assert tail[1] == if |more[0]| == 1 then CR else more[0][1];
      assert s[|l| + 2] == tail[0] && s[|l| + 3] == tail[1];
    }
    if MatchAt(s, CRLFCRLF, k) {
      MarkerBytes(s, k);
      assert false;
    }
  }

  lemma MarkerBytes(s: bytes, k: nat)
    requires MatchAt(s, CRLFCRLF, k)
    ensures s[k] == CR && s[k + 1] == LF && s[k + 2] == CR && s[k + 3] == LF
  {
    assert s[k..k + 4][0] == CR && s[k..k + 4][1] == LF && s[k..k + 4][2] == CR && s[k..k + 4][3] == LF;
  }

  // ---- the declared length ----

  lemma LengthLineDeclares(n: nat)
    requires n < TWO63
    ensures D.DeclaredLength(LengthLine(n)) == Some(n)
  {
    LengthLineLower(n);
    LengthLineRest(n);
    SpaceItoa(n);
    ItoaRoundTrip(n);
    hide LengthLine, ToLower, TrimSpace, ParseInt;
  }

  lemma LengthLineRest(n: nat)
    ensures LengthLine(n)[|CONTENT_LENGTH|..] == [SPACE] + Itoa(n)
  {
    assert LENGTH_PREFIX == LENGTH_PREFIX[..|CONTENT_LENGTH|] + [SPACE];
  }

  lemma SpaceItoa(n: nat)
    ensures TrimSpace([SPACE] + Itoa(n)) == Itoa(n)
    ensures TrimSpace(Itoa(n)) == Itoa(n)
  {
    var d := Itoa(n);
    assert d[0] in d && d[|d| - 1] in d;
    assert ([SPACE] + d)[1..] == d;
    assert TrimLeft(d) == d && TrimRight(d) == d;
  }

  lemma {:induction false} FirstLengthSkips(ks: seq<bytes>, tail: seq<bytes>)
    requires forall k <- ks :: !IsFraming(k)
    ensures D.FirstLength(ks + tail) == D.FirstLength(tail)
  {
    if ks == [] {
      assert ks + tail == tail;
    } else {
      assert (ks + tail)[0] == ks[0] && (ks + tail)[1..] == ks[1..] + tail;
      assert ks[0] in ks;
      FirstLengthSkips(ks[1..], tail);
    }
  }

  lemma SplitNormalized(ls: seq<bytes>, n: nat)
    requires ls != [] && LF !in ls[0] && ValidFields(ls[1..])
    ensures Split(Normalize(Block(ls), n), CRLF) == [ls[0]] + (Kept(ls[1..]) + ([LengthLine(n)] + [[]] + [[]]))
  {
    hide Block, Kept, LengthLine, IsFraming, Normalize;
    NormalizeBlock(ls, n);
    NormalFields(ls, n);
    var ns := NormalLines(ls, n);
    HeadLfFree(ns);
    SplitBlock(ns);
  }

  /** The decoder finds the body length in a normalised header, unless the request line itself
      passes for a Content-Length line. */
  lemma DeclaredIs(ls: seq<bytes>, n: nat)
    requires ls != [] && LF !in ls[0] && ValidFields(ls[1..]) && n < TWO63
    ensures D.ContentLengthOf(Normalize(Block(ls), n)) ==
            match D.DeclaredLength(ls[0])
            case Some(v) => v
            case None => n
  {
    hide Split, Kept, LengthLine, IsFraming, Normalize, D.DeclaredLength;
    SplitNormalized(ls, n);
    KeptValid(ls[1..]);
    LengthLineDeclares(n);
    var tail := [LengthLine(n)] + [[]] + [[]];
    var parts := [ls[0]] + (Kept(ls[1..]) + tail);
    assert parts[1..] == Kept(ls[1..]) + tail;
    FirstLengthSkips(Kept(ls[1..]), tail);
  }

  // ---- reading the normalised request back ----

  lemma {:induction false} LastFieldSnoc(ls: seq<bytes>, l: bytes, key: bytes)
    ensures LastField(ls + [l], key) ==
            match FieldValue(l, key) case Some(v) => v case None => LastField(ls, key)
  {
    assert (ls + [l])[..|ls|] == ls;
  }

  lemma LengthLineTrimmed(n: nat)
    ensures TrimSpace(LengthLine(n) + CRLF) == LengthLine(n)
  {
    var l, d := LengthLine(n), Itoa(n);
    assert d[|d| - 1] in d;
    assert l[|l| - 1] == d[|d| - 1];
    assert l[0] == 67;
    assert TrimLeft(l + CRLF) == l + CRLF;
    TrimRightSuffix(l, CRLF);
  }

  lemma LengthLineFields(n: nat)
    ensures FieldValue(LengthLine(n), CONTENT_LENGTH) == Some(Itoa(n))
    ensures FieldValue(LengthLine(n), TRANSFER_ENCODING) == None
  {
    LengthLineTrimmed(n);
    LengthLineLower(n);
    SpaceItoa(n);
    hide LengthLine, ToLower, TrimSpace;
    var lower := ToLower(LengthLine(n));
    assert lower[|CONTENT_LENGTH|..] == [SPACE] + Itoa(n);
    assert lower[0] == 99;
  }

  lemma NormalFraming(ls: seq<bytes>, n: nat)
    requires ls != [] && ValidFields(ls[1..])
    ensures var ns := NormalLines(ls, n);
            && LastField(ns[1..], CONTENT_LENGTH) == Itoa(n)
            && (IsChunked(ns[1..]) <==> IsChunked(Kept(ls[1..])))
  {
    NormalFields(ls, n);
    LengthLineFields(n);
    LastFieldSnoc(Kept(ls[1..]), LengthLine(n), CONTENT_LENGTH);
    LastFieldSnoc(Kept(ls[1..]), LengthLine(n), TRANSFER_ENCODING);
    hide Kept, LengthLine, NormalLines, FieldValue, LastField;
  }

  /** Reading the body after a normalised head. */
  lemma NormalBody(ls: seq<bytes>, body: bytes, rest: bytes, maxBody: nat)
    requires ls != [] && ValidFields(ls[1..]) && |body| <= maxBody && |body| < TWO63
    ensures var ns := NormalLines(ls, |body|);
            ReadBody(ns, body + rest, maxBody) == Ok((Request(ns, false, |body|, body), rest))
            <==> !IsChunked(Kept(ls[1..]))
  {
    hide Kept, NormalLines, IsChunked, LastField, ReadChunks, ValidFields, ParseInt;
    NormalFraming(ls, |body|);
    ItoaRoundTrip(|body|);
    var tail := body + rest;
    assert tail[..|body|] == body && tail[|body|..] == rest;
  }

  /** Normalisation preserves meaning, exactly when it can: the normalised request reads back
      with the same body, unchunked, with a true Content-Length and the kept lines in order,
      if and only if its header is still within the limit and no line that survived (one the
      reader recognises only after trimming) still says chunked. */
  lemma NormalizedReadsBack(r: Request, rest: bytes, maxHeader: nat, maxBody: nat)
    requires ValidHead(r.lines, maxHeader) && |r.body| <= maxBody && |r.body| < TWO63
    ensures var again := Request(NormalLines(r.lines, |r.body|), false, |r.body|, r.body);
            ReadRequest(HeaderFor(r) + r.body + rest, maxHeader, maxBody) == Ok((again, rest))
            <==> |HeaderFor(r)| <= maxHeader && !IsChunked(Kept(r.lines[1..]))
  {
    hide ReadHead, ReadBody, Block, Kept, NormalLines, Normalize, IsChunked, RequestLineParts, ValidFields;
    var ns, n := NormalLines(r.lines, |r.body|), |r.body|;
    NormalizeBlock(r.lines, n);
    NormalFields(r.lines, n);
    NormalBody(r.lines, r.body, rest, maxBody);
    var tail := r.body + rest;
    Assoc(HeaderFor(r), r.body, rest);
    assert HeaderFor(r) == Block(ns);
    assert ns[0] == r.lines[0];
    assert ValidHead(ns, maxHeader) <==> |Block(ns)| <= maxHeader;
    HeadExact(HeaderFor(r) + tail, maxHeader, ns, tail);
    if ReadRequest(HeaderFor(r) + tail, maxHeader, maxBody).Ok? {
      var (ls, rest1) := ReadHead(HeaderFor(r) + tail, maxHeader).value;
      HeadExact(HeaderFor(r) + tail, maxHeader, ls, rest1);
      ReadBodyLines(ls, rest1, maxBody);
    }
  }

  lemma ReadBodyLines(ls: seq<bytes>, rest: bytes, maxBody: nat)
    requires ls != [] && ReadBody(ls, rest, maxBody).Ok?
    ensures ReadBody(ls, rest, maxBody).value.0.lines == ls
  {
    hide IsChunked, LastField, ReadChunks, ParseInt;
  }

  /** A header line that starts with white space. */
  predicate WhitespaceLed(l: bytes) {
    l != [] && IsSpace(l[0])
  }

  /** On a line not led by white space the reader and the normaliser agree. */
  lemma PlainLineFraming(l: bytes, key: bytes)
    requires l != [] && !IsSpace(l[0])
    requires forall b <- key :: b != CR && b != LF
    requires FieldValue(l, key).Some?
    ensures HasPrefix(ToLower(l), key)
  {
    var t := TrimRight(l + CRLF);
    assert TrimLeft(l + CRLF) == l + CRLF;
    assert forall i :: 0 <= i < |key| ==> key[i] in key;
    assert forall i :: 0 <= i < |key| ==> LowerByte((l + CRLF)[i]) == key[i];
    assert (l + CRLF)[|l|] == CR;
    assert |key| <= |l|;
    assert ToLower(l)[..|key|] == key;
  }

  predicate PlainLine(l: bytes) {
    l != [] && !WhitespaceLed(l) && !IsFraming(l)
  }

  lemma {:induction false} PlainKeptNotChunked(ks: seq<bytes>)
    requires forall k <- ks :: PlainLine(k)
    ensures LastField(ks, TRANSFER_ENCODING) == []
  {
    if ks != [] {
      var k := ks[|ks| - 1];
      assert k in ks;
      if FieldValue(k, TRANSFER_ENCODING).Some? {
        PlainLineFraming(k, TRANSFER_ENCODING);
        assert false;
      }
      hide PlainLine;
      PlainKeptNotChunked(ks[..|ks| - 1]);
    }
  }

  /** So a request without white-space-led header lines always reads back, within the limit. */
  lemma PlainRequestReadsBack(r: Request, rest: bytes, maxHeader: nat, maxBody: nat)
    requires ValidHead(r.lines, maxHeader) && |r.body| <= maxBody && |r.body| < TWO63
    requires forall l <- r.lines[1..] :: !WhitespaceLed(l)
    requires |HeaderFor(r)| <= maxHeader
    ensures ReadRequest(HeaderFor(r) + r.body + rest, maxHeader, maxBody)
            == Ok((Request(NormalLines(r.lines, |r.body|), false, |r.body|, r.body), rest))
  {
    KeptValid(r.lines[1..]);
    assert forall k <- Kept(r.lines[1..]) :: PlainLine(k);
    PlainKeptNotChunked(Kept(r.lines[1..]));
    assert !IsChunked(Kept(r.lines[1..]));
    NormalizedReadsBack(r, rest, maxHeader, maxBody);
  }
}
