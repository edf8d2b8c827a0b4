/** What normalisation leaves alone: every header line that is not about framing, and so the
    value of every other field. */
module Preservation {
  import opened Bytes
  import opened Numbers
  import opened HttpRequest
  import opened Normalizer

  /** The elements that pass, in order, as often as they occur. */
  function Select<T>(xs: seq<T>, passes: T -> bool): seq<T> {
    if xs == [] then [] else (if passes(xs[0]) then [xs[0]] else []) + Select(xs[1..], passes)
  }

  lemma {:induction false} KeptSelects(ls: seq<bytes>)
    requires ValidFields(ls)
    ensures Kept(ls) == Select(ls, l => !(TRANSFER_ENCODING <= ToLower(l)) && !(CONTENT_LENGTH <= ToLower(l)))
  {
    if ls != [] {
      assert ls == [ls[0]] + ls[1..];
      ValidFieldsSplit(ls[0], ls[1..]);
      KeptSelects(ls[1..]);
    }
  }

  /** A normalised header, written out: the request line, every line that does not start, in any
      letter case, with `content-length:` or `transfer-encoding:`, in order and as often as it
      was there, then one Content-Length line. */
  lemma NormalizeExact(ls: seq<bytes>, n: nat)
    requires ls != [] && LF !in ls[0] && ValidFields(ls[1..])
    ensures var others := Select(ls[1..], l => !(TRANSFER_ENCODING <= ToLower(l)) && !(CONTENT_LENGTH <= ToLower(l)));
            Normalize(Block(ls), n) == Block([ls[0]] + others + [LENGTH_PREFIX + Itoa(n)])
  {
    NormalizeBlock(ls, n);
    KeptSelects(ls[1..]);
  }

  lemma {:induction false} SplitFront(ls: seq<bytes>, rest: bytes)
    requires LfFree(ls)
    ensures Split(Lines(ls) + rest, CRLF) == ls + Split(rest, CRLF)
  {
    hide Split;
    if ls == [] {
      assert Lines(ls) + rest == rest && ls + Split(rest, CRLF) == Split(rest, CRLF);
    } else {
      assert ls[0] in ls;
      Assoc(ls[0] + CRLF, Lines(ls[1..]), rest);
      SplitOnce(ls[0], Lines(ls[1..]) + rest);
      SplitFront(ls[1..], rest);
      Assoc([ls[0]], ls[1..], Split(rest, CRLF));
      assert ls == [ls[0]] + ls[1..];
    }
  }

  /** What stands after the blank line of a header is not looked at. */
  lemma NormalizeStops(ls: seq<bytes>, rest: bytes, n: nat)
    requires ls != [] && LF !in ls[0] && ValidFields(ls[1..])
    ensures Normalize(Block(ls) + rest, n) == Normalize(Block(ls), n)
  {
    hide Split, Kept, LengthLine, IsFraming, ValidFields;
    HeadLfFree(ls);
    SplitBlock(ls);
    SplitFront(ls, CRLF + rest);
    SplitOnce([], rest);
    Assoc(Lines(ls), CRLF, rest);
    assert [] + CRLF + rest == CRLF + rest;
    var parts := Split(Block(ls) + rest, CRLF);
    assert parts[0] == ls[0] && parts[1..] == ls[1..] + [[]] + Split(rest, CRLF);
    KeptStops(ls[1..], Split(rest, CRLF));
    var own := ls + [[]] + [[]];
    assert own[0] == ls[0] && own[1..] == ls[1..] + [[]] + [[]];
    KeptStops(ls[1..], [[]]);
  }

  // ---- fields ----

  /** A field name with its colon. */
  predicate FieldKey(key: bytes) {
    key != [] && key[|key| - 1] == COLON && COLON !in key[..|key| - 1]
  }

  lemma KeyEnd(s: bytes, key: bytes)
    requires FieldKey(key) && key <= s
    ensures |key| == IndexByte(s, COLON) + 1 && key == s[..|key|]
  {
    assert s[..|key| - 1] == key[..|key| - 1];
    IndexByteIs(s, COLON, |key| - 1);
  }

  /** Text starts with one field name only. */
  lemma OneKey(s: bytes, k1: bytes, k2: bytes)
    requires FieldKey(k1) && FieldKey(k2) && k1 <= s && k2 <= s
    ensures k1 == k2
  {
    KeyEnd(s, k1);
    KeyEnd(s, k2);
  }

  lemma FramingKeys()
    ensures FieldKey(CONTENT_LENGTH) && FieldKey(TRANSFER_ENCODING)
  {
    assert COLON !in CONTENT_LENGTH[..|CONTENT_LENGTH| - 1];
    assert COLON !in TRANSFER_ENCODING[..|TRANSFER_ENCODING| - 1];
  }

  /** A dropped line is no line of another field. */
  lemma DroppedValue(l: bytes, key: bytes)
    requires FieldKey(key) && key != CONTENT_LENGTH && key != TRANSFER_ENCODING
    requires TRANSFER_ENCODING <= ToLower(l) || CONTENT_LENGTH <= ToLower(l)
    ensures FieldValue(l, key) == None
  {
    FramingKeys();
    var framing := if CONTENT_LENGTH <= ToLower(l) then CONTENT_LENGTH else TRANSFER_ENCODING;
    TrimmedStart(l, framing);
    hide TrimSpace, ToLower, FieldKey;
    if key <= ToLower(TrimSpace(l + CRLF)) {
      OneKey(ToLower(TrimSpace(l + CRLF)), key, framing);
    }
  }

  /** Trimming takes nothing from the front of a line that starts with a field name. */
  lemma TrimmedStart(l: bytes, key: bytes)
    requires FieldKey(key) && key <= ToLower(l) && !IsSpace(key[0])
    ensures key <= ToLower(TrimSpace(l + CRLF))
  {
    var low := ToLower(l);
    assert low[..|key|] == key && low[0] == key[0] && LowerByte(l[0]) == key[0];
    assert TrimLeft(l + CRLF) == l + CRLF;
    var front, tail := l[..|key|], l[|key|..] + CRLF;
    assert l + CRLF == front + tail;
    assert LowerByte(front[|key| - 1]) == low[|key| - 1] == COLON;
    TrimRightKeeps(front, tail);
    var t := TrimRight(l + CRLF);
    assert t[..|key|] == front;
    assert ToLower(t)[..|key|] == key;
  }

  lemma {:induction false} KeptSnoc(ls: seq<bytes>, l: bytes)
    requires ValidFields(ls) && l != []
    ensures Kept(ls + [l]) == Kept(ls) + if IsFraming(l) then [] else [l]
  {
    hide IsFraming;
    var all := ls + [l];
    if ls == [] {
      assert all[1..] == [];
    } else {
      assert ls == [ls[0]] + ls[1..] && all[0] == ls[0] && all[1..] == ls[1..] + [l];
      ValidFieldsSplit(ls[0], ls[1..]);
      KeptSnoc(ls[1..], l);
    }
  }

  lemma {:induction false} KeptFields(ls: seq<bytes>, key: bytes)
    requires ValidFields(ls) && FieldKey(key) && key != CONTENT_LENGTH && key != TRANSFER_ENCODING
    ensures LastField(Kept(ls), key) == LastField(ls, key)
  {
    hide FieldKey, Kept, FieldValue, IsFraming, LastField;
    if ls != [] {
      var init, l := ls[..|ls| - 1], ls[|ls| - 1];
      assert ls == init + [l] && l in ls && forall k <- init :: k in ls;
      assert FieldLine(l);
      KeptFields(init, key);
      KeptSnoc(init, l);
      LastFieldSnoc(init, l, key);
      LastFieldSnoc(Kept(init), l, key);
      FramingLine(l);
      if IsFraming(l) {
        DroppedValue(l, key);
        assert Kept(init) + [] == Kept(init);
      }
    } else {
      assert Kept(ls) == [] by {
        NothingKept();
      }
    }
  }

  lemma FramingLine(l: bytes)
    ensures IsFraming(l) <==> TRANSFER_ENCODING <= ToLower(l) || CONTENT_LENGTH <= ToLower(l)
  {}

  lemma NothingKept()
    ensures Kept([]) == []
  {}

  /** Every field but the two framing ones has the same value after normalisation, for the
      reader that takes its last line. */
  lemma OtherFieldsStay(ls: seq<bytes>, n: nat, key: bytes)
    requires ls != [] && ValidFields(ls[1..])
    requires FieldKey(key) && key != CONTENT_LENGTH && key != TRANSFER_ENCODING
    ensures LastField(NormalLines(ls, n)[1..], key) == LastField(ls[1..], key)
  {
    hide FieldKey, LastField, Kept, FieldValue, LengthLine, IsFraming;
    NormalFields(ls, n);
    LengthLineLower(n);
    KeptFields(ls[1..], key);
    LastFieldSnoc(Kept(ls[1..]), LengthLine(n), key);
    assert CONTENT_LENGTH <= ToLower(LengthLine(n));
    DroppedValue(LengthLine(n), key);
  }

  /** What the next reader of the header sent finds in it, for every field. */
  lemma OtherFieldsReach(r: Request, rest: bytes, maxHeader: nat, key: bytes)
    requires ValidHead(r.lines, maxHeader) && |HeaderFor(r)| <= maxHeader
    requires FieldKey(key) && key != CONTENT_LENGTH && key != TRANSFER_ENCODING
    ensures var again := ReadHead(HeaderFor(r) + rest, maxHeader);
            && again.Ok? && again.value.1 == rest && again.value.0[0] == r.lines[0]
            && LastField(again.value.0[1..], key) == LastField(r.lines[1..], key)
            && LastField(again.value.0[1..], CONTENT_LENGTH) == Itoa(|r.body|)
  {
    hide FieldKey, LastField, Kept, FieldValue, LengthLine, IsFraming, Block, ReadHead, RequestLineParts, Normalize,
         NormalLines, ValidFields, IsChunked;
    var n := |r.body|;
    NormalizeBlock(r.lines, n);
    NormalFields(r.lines, n);
    NormalFraming(r.lines, n);
    OtherFieldsStay(r.lines, n, key);
    HeadExact(HeaderFor(r) + rest, maxHeader, NormalLines(r.lines, n), rest);
  }
}
