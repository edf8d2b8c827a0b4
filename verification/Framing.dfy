/** When the decoder's reassembly writes a message exactly once and whole: the pushes of its
    pieces, with whatever length its header declares. */
module Framing {
  import opened Bytes
  import opened Splitter
  import opened DecoderSpec

  /** What is sent for one request: the normalised header block and the bare body. */
  datatype Message = Message(hdr: bytes, body: bytes)

  function Truth(m: Message): bytes {
    m.hdr + m.body
  }

  function MessagePieces(m: Message): seq<Piece> {
    HeaderPieces(m.hdr) + BodyPieces(m.body)
  }

  /** The pieces of a message are nonempty and partition it. */
  lemma MessagePartition(m: Message)
    ensures PiecesBytes(MessagePieces(m)) == Truth(m)
    ensures forall p <- MessagePieces(m) :: AnyShape(p) && PieceBytes(p) != []
  {
    HeaderPartition(m.hdr);
    BodyPartition(m.body);
    PiecesBytesAppend(HeaderPieces(m.hdr), BodyPieces(m.body));
    hide HeaderPieces, BodyPieces, PiecesBytes, PieceBytes;
  }

  predicate AnyShape(p: Piece) {
    WellShaped(p, Header) || WellShaped(p, Body)
  }

  /** The header block ends at its first CRLFCRLF and declares some length. */
  predicate Headed(m: Message) {
    && |m.hdr| >= 4
    && Index(m.hdr, CRLFCRLF) == |m.hdr| - 4
    && ContentLengthOf(m.hdr) >= 0
  }

  /** How many bytes the decoder waits for. */
  function Awaited(m: Message): int {
    |m.hdr| + ContentLengthOf(m.hdr)
  }

  /** Where the last piece of a body starts. */
  function LastPieceStart(body: bytes): int {
    var ps := BodyPieces(body);
    if ps == [] then 0 else |body| - |PieceBytes(ps[|ps| - 1])|
  }

  /** A body of which `v` bytes are awaited is complete with its last piece and not before. */
  predicate ReachedLast(v: int, body: bytes) {
    v == |body| || LastPieceStart(body) < v < |body|
  }

  predicate Framed(m: Message) {
    Headed(m) && ReachedLast(ContentLengthOf(m.hdr), m.body)
  }

  /** Of the pieces still to come, the last one and no other brings the bytes awaited. */
  predicate OnlyLast(m: Message, ps: seq<Piece>) {
    ps != [] && |Truth(m)| - |PieceBytes(ps[|ps| - 1])| < Awaited(m) <= |Truth(m)|
  }

  lemma FramedIsOnlyLast(m: Message)
    requires Headed(m)
    ensures MessagePieces(m) != []
    ensures Framed(m) <==> OnlyLast(m, MessagePieces(m))
  {
    hide Index, ContentLengthOf, HeaderPieces, BodyPieces, PiecesBytes, PieceBytes;
    var hs, bs := HeaderPieces(m.hdr), BodyPieces(m.body);
    HeaderPartition(m.hdr);
    BodyPartition(m.body);
    NoPieces(hs);
    NoPieces(bs);
    LastPiece(hs);
    LastPiece(bs);
    assert bs != [] ==> bs[|bs| - 1] == (hs + bs)[|hs + bs| - 1];
    assert bs == [] ==> hs + bs == hs;
  }

  lemma NoPieces(ps: seq<Piece>)
    requires forall p <- ps :: PieceBytes(p) != []
    ensures ps == [] <==> PiecesBytes(ps) == []
  {}

  lemma LastPiece(ps: seq<Piece>)
    requires forall p <- ps :: PieceBytes(p) != []
    ensures ps != [] ==>
              && 1 <= |PieceBytes(ps[|ps| - 1])| <= |PiecesBytes(ps)|
              && |PiecesBytes(ps[..|ps| - 1])| == |PiecesBytes(ps)| - |PieceBytes(ps[|ps| - 1])|
  {
    hide PieceBytes;
    if ps != [] {
      var init, last := ps[..|ps| - 1], ps[|ps| - 1];
      assert ps == init + [last];
      PiecesBytesAppend(init, [last]);
      assert [last][1..] == [];
      assert PiecesBytes([last]) == PieceBytes(last) + PiecesBytes([]);
    }
  }

  /** The same said of every cut: each proper front of the pieces falls short of the bytes
      awaited, and all of them together do not. */
  lemma FramedAtEveryCut(m: Message)
    requires Headed(m)
    ensures var ps := MessagePieces(m);
            Framed(m) <==>
            Awaited(m) <= |Truth(m)| && forall k :: 0 <= k < |ps| ==> |PiecesBytes(ps[..k])| < Awaited(m)
  {
    hide Index, ContentLengthOf, MessagePieces, Truth, PiecesBytes, PieceBytes, Framed;
    var ps := MessagePieces(m);
    FramedIsOnlyLast(m);
    MessagePartition(m);
    LastPiece(ps);
    forall k | 0 <= k < |ps|
      ensures |PiecesBytes(ps[..k])| <= |PiecesBytes(ps[..|ps| - 1])|
    {
      var init := ps[..|ps| - 1];
      assert init == ps[..k] + init[k..];
      PiecesBytesAppend(ps[..k], init[k..]);
    }
  }

  // ---- pushing one message ----

  /** The reassembly state once `pre`, a front of the message, has been fed and kept. */
  function Partial(m: Message, pre: bytes, flushed: seq<bytes>): Assembler {
    if |pre| < |m.hdr| then Assembler(pre, false, -1, 0, flushed)
    else Assembler(pre, true, ContentLengthOf(m.hdr), |pre| - |m.hdr|, flushed)
  }

  /** In any front of a message the marker is found exactly once the header is in. */
  lemma MarkerInPrefix(m: Message, pre: bytes)
    requires Headed(m) && pre <= Truth(m)
    ensures Index(pre, CRLFCRLF) == if |pre| < |m.hdr| then -1 else |m.hdr| - 4
    ensures |pre| >= |m.hdr| ==> pre[..|m.hdr|] == m.hdr
  {
    hide Index, ContentLengthOf;
    if |pre| >= |m.hdr| {
      assert pre[..|m.hdr|] == m.hdr;
      assert pre == m.hdr + pre[|m.hdr|..];
      IndexStable(m.hdr, pre[|m.hdr|..]);
    } else {
      assert m.hdr == pre + m.hdr[|pre|..];
      if Index(pre, CRLFCRLF) >= 0 {
        IndexStable(pre, m.hdr[|pre|..]);
      }
    }
  }

  /** Feeding the next nonempty part moves along the message; the part that brings the bytes
      awaited writes everything fed so far. */
  lemma PushPart(m: Message, pre: bytes, x: bytes, flushed: seq<bytes>)
    requires Headed(m) && x != [] && pre + x <= Truth(m)
    ensures Push(Partial(m, pre, flushed), x) ==
            Ok(if |pre + x| >= Awaited(m) then Idle(flushed + [pre + x]) else Partial(m, pre + x, flushed))
  {
    hide Index, ContentLengthOf;
    var all := pre + x;
    MarkerInPrefix(m, all);
    if |all| >= |m.hdr| {
      assert all[..|m.hdr| - 4 + 4] == m.hdr;
    }
  }

  function PieceData(ps: seq<Piece>): seq<bytes> {
    if ps == [] then [] else [PieceBytes(ps[0])] + PieceData(ps[1..])
  }

  lemma {:induction false} PieceDataAppend(x: seq<Piece>, y: seq<Piece>)
    ensures PieceData(x + y) == PieceData(x) + PieceData(y)
  {
    hide PieceBytes;
    if x == [] {
      assert x + y == y;
    } else {
      assert (x + y)[0] == x[0] && (x + y)[1..] == x[1..] + y;
      PieceDataAppend(x[1..], y);
    }
  }

  predicate Nonempty(ps: seq<Piece>) {
    forall p <- ps :: PieceBytes(p) != []
  }

  /** The first piece ahead of the rest. */
  lemma NextPiece(m: Message, pre: bytes, ps: seq<Piece>)
    requires ps != [] && Nonempty(ps) && pre + PiecesBytes(ps) == Truth(m)
    ensures var now := pre + PieceBytes(ps[0]);
            && PieceBytes(ps[0]) != [] && Nonempty(ps[1..])
            && now + PiecesBytes(ps[1..]) == Truth(m) && now <= Truth(m)
            && (ps[1..] == [] ==> now == Truth(m) && ps[|ps| - 1] == ps[0])
            && |now| == |pre| + |PieceBytes(ps[0])|
            && (ps[1..] != [] ==> |now| <= |Truth(m)| - |PieceBytes(ps[|ps| - 1])| < |Truth(m)|)
  {
    hide PieceBytes, Truth;
    Assoc(pre, PieceBytes(ps[0]), PiecesBytes(ps[1..]));
    assert forall p <- ps[1..] :: p in ps;
    if ps[1..] == [] {
      assert PieceBytes(ps[0]) + [] == PieceBytes(ps[0]);
    } else {
      LastPiece(ps[1..]);
      assert ps[1..][|ps[1..]| - 1] == ps[|ps| - 1];
    }
  }

  /** When only the last piece brings the bytes awaited, pushing the pieces writes the message
      once and whole and leaves nothing pending. */
  lemma {:induction false} PiecesPush(m: Message, pre: bytes, ps: seq<Piece>, flushed: seq<bytes>)
    requires Headed(m) && pre + PiecesBytes(ps) == Truth(m) && Nonempty(ps) && OnlyLast(m, ps)
    ensures PushAll(Partial(m, pre, flushed), PieceData(ps)) == Ok(Idle(flushed + [Truth(m)]))
    decreases |ps|
  {
    hide Headed, Truth, Push, Partial, PiecesBytes, PieceBytes, Nonempty, Awaited;
    var now, data := pre + PieceBytes(ps[0]), PieceData(ps);
    NextPiece(m, pre, ps);
    PushPart(m, pre, PieceBytes(ps[0]), flushed);
    assert data[0] == PieceBytes(ps[0]) && data[1..] == PieceData(ps[1..]);
    if ps[1..] == [] {
      assert PieceData([]) == [];
    } else {
      assert ps[1..][|ps[1..]| - 1] == ps[|ps| - 1];
      PiecesPush(m, now, ps[1..], flushed);
    }
  }

  predicate AllNonempty(bs: seq<bytes>) {
    forall b <- bs :: b != []
  }

  /** Nothing written is taken back, and the next write is longer than what is pending now. */
  lemma {:induction false} WritesGrow(a: Assembler, bs: seq<bytes>)
    requires AllNonempty(bs) && PushAll(a, bs).Ok?
    ensures var w := PushAll(a, bs).value.flushed;
            && a.flushed <= w
            && (|w| > |a.flushed| ==> |w[|a.flushed|]| > |a.req|)
    decreases |bs|
  {
    if bs != [] {
      assert bs[0] in bs;
      TailNonempty(bs);
      PushGrows(a, bs[0]);
      hide Push, AllNonempty;
      WritesGrow(Push(a, bs[0]).value, bs[1..]);
    }
  }

  lemma TailNonempty(bs: seq<bytes>)
    requires bs != [] && AllNonempty(bs)
    ensures AllNonempty(bs[1..])
  {
    assert forall b <- bs[1..] :: b in bs;
  }

  lemma PushGrows(a: Assembler, b: bytes)
    requires b != [] && Push(a, b).Ok?
    ensures (Push(a, b).value.flushed == a.flushed && Push(a, b).value.req == a.req + b)
            || Push(a, b).value.flushed == a.flushed + [a.req + b]
  {
    hide Index, ContentLengthOf;
  }

  /** If the first thing written is the whole message, whatever follows it, then only its last
      piece brought the bytes awaited. */
  lemma {:induction false} FirstWrite(m: Message, pre: bytes, ps: seq<Piece>, more: seq<bytes>, flushed: seq<bytes>)
    requires Headed(m) && pre + PiecesBytes(ps) == Truth(m) && Nonempty(ps) && AllNonempty(more)
    requires |pre| < Awaited(m)
    requires var r := PushAll(Partial(m, pre, flushed), PieceData(ps) + more);
             r.Ok? && flushed + [Truth(m)] <= r.value.flushed
    ensures OnlyLast(m, ps)
    decreases |ps|
  {
    hide Headed, Truth, Push, Partial, PiecesBytes, PieceBytes, Nonempty, AllNonempty, Awaited;
    if ps == [] {
      WholeHeld(m, pre, ps, more, flushed);
    } else {
      var now, tail := pre + PieceBytes(ps[0]), PieceData(ps[1..]) + more;
      NextPiece(m, pre, ps);
      PushPart(m, pre, PieceBytes(ps[0]), flushed);
      PushFirst(Partial(m, pre, flushed), PieceBytes(ps[0]), PieceData(ps[1..]), more);
      assert PieceData(ps) == [PieceBytes(ps[0])] + PieceData(ps[1..]);
      if |now| >= Awaited(m) {
        DataNonempty(ps[1..], more);
        WritesGrow(Idle(flushed + [now]), tail);
        ItemAt(flushed, now, PushAll(Idle(flushed + [now]), tail).value.flushed);
        ItemAt(flushed, Truth(m), PushAll(Idle(flushed + [now]), tail).value.flushed);
      } else {
        FirstWrite(m, now, ps[1..], more, flushed);
        assert ps[1..][|ps[1..]| - 1] == ps[|ps| - 1];
      }
    }
  }

  /** With everything in and more awaited, no write is the message alone. */
  lemma WholeHeld(m: Message, pre: bytes, ps: seq<Piece>, more: seq<bytes>, flushed: seq<bytes>)
    requires ps == [] && pre + PiecesBytes(ps) == Truth(m) && AllNonempty(more)
    requires PushAll(Partial(m, pre, flushed), PieceData(ps) + more).Ok?
    ensures !(flushed + [Truth(m)] <= PushAll(Partial(m, pre, flushed), PieceData(ps) + more).value.flushed)
  {
    hide Push, AllNonempty, ContentLengthOf, Truth;
    assert pre + [] == pre && [] + more == more;
    WritesGrow(Partial(m, pre, flushed), more);
    var w := PushAll(Partial(m, pre, flushed), more).value.flushed;
    if flushed + [Truth(m)] <= w {
      ItemAt(flushed, Truth(m), w);
    }
  }

  lemma ItemAt(flushed: seq<bytes>, x: bytes, w: seq<bytes>)
    requires flushed + [x] <= w
    ensures |w| > |flushed| && w[|flushed|] == x
  {
    assert (flushed + [x])[|flushed|] == x;
  }

  lemma PushFirst(a: Assembler, b: bytes, bs: seq<bytes>, more: seq<bytes>)
    ensures PushAll(a, [b] + bs + more) ==
            if Push(a, b).Ok? then PushAll(Push(a, b).value, bs + more) else Push(a, b)
  {
    hide Push;
    var all := [b] + bs + more;
    assert all[0] == b && all[1..] == bs + more;
  }

  lemma {:induction false} DataNonempty(ps: seq<Piece>, more: seq<bytes>)
    requires Nonempty(ps) && AllNonempty(more)
    ensures AllNonempty(PieceData(ps) + more)
  {
    hide PieceBytes;
    if ps == [] {
      assert PieceData(ps) + more == more;
    } else {
      assert forall p <- ps[1..] :: p in ps;
      DataNonempty(ps[1..], more);
      assert PieceData(ps) + more == [PieceBytes(ps[0])] + (PieceData(ps[1..]) + more);
      assert ps[0] in ps;
    }
  }

  lemma StartPartial(m: Message, flushed: seq<bytes>)
    requires Headed(m)
    ensures Idle(flushed) == Partial(m, [], flushed) && [] + Truth(m) == Truth(m) && 0 < Awaited(m)
  {
    hide Index, ContentLengthOf;
  }

  /** The decoder, pushed the pieces of a message, writes it once, whole and with nothing
      pending, exactly when it is framed: when the declared length is that of the body, or is
      shorter but first reached with the last piece. */
  lemma PushesExactly(m: Message, flushed: seq<bytes>)
    requires Headed(m)
    ensures PushAll(Idle(flushed), PieceData(MessagePieces(m))) == Ok(Idle(flushed + [Truth(m)])) <==> Framed(m)
  {
    hide Headed, Framed, Truth, MessagePieces, PiecesBytes, Partial, PieceBytes, Awaited, OnlyLast;
    var ps := MessagePieces(m);
    FramedIsOnlyLast(m);
    MessagePartition(m);
    StartPartial(m, flushed);
    if Framed(m) {
      PiecesPush(m, [], ps, flushed);
    }
    assert PieceData(ps) + [] == PieceData(ps);
    if PushAll(Idle(flushed), PieceData(ps)) == Ok(Idle(flushed + [Truth(m)])) {
      FirstWrite(m, [], ps, [], flushed);
    }
  }

  /** When more bytes are awaited than the message has, all of it stays pending. */
  lemma {:induction false} PiecesHeld(m: Message, pre: bytes, ps: seq<Piece>, flushed: seq<bytes>)
    requires Headed(m) && pre + PiecesBytes(ps) == Truth(m) && Nonempty(ps)
    requires |Truth(m)| < Awaited(m)
    ensures PushAll(Partial(m, pre, flushed), PieceData(ps)) == Ok(Partial(m, Truth(m), flushed))
    decreases |ps|
  {
    hide Headed, Truth, Push, Partial, PieceBytes, Nonempty, Awaited;
    if ps == [] {
      assert pre + [] == pre;
    } else {
      var now, data := pre + PieceBytes(ps[0]), PieceData(ps);
      NextPiece(m, pre, ps);
      PushPart(m, pre, PieceBytes(ps[0]), flushed);
      assert data[0] == PieceBytes(ps[0]) && data[1..] == PieceData(ps[1..]);
      PiecesHeld(m, now, ps[1..], flushed);
    }
  }
}
