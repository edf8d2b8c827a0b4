/** The wire, byte by byte: which bytes are a frame, a reference, a definition or an inline
    template, with every number spelled out. */
module Layout {
  import opened Bytes
  import opened Numbers
  import opened Protocol

  /** The big-endian value of two bytes, and of four. */
  function Two(x: byte, y: byte): nat {
    x as int * 256 + y as int
  }

  function Four(w: byte, x: byte, y: byte, z: byte): nat {
    ((w as int * 256 + x as int) * 256 + y as int) * 256 + z as int
  }

  /** The first eight bytes announce a payload of this kind and size. */
  predicate Announces(s: bytes, kind: byte, size: nat) {
    && |s| >= 8 && s[0] == 0xEC && s[1] == 1 && s[2] == kind && s[3] == 0
    && Four(s[4], s[5], s[6], s[7]) == size <= 16 * 1024 * 1024
  }

  lemma SizeIs(s: bytes)
    requires |s| >= 8
    ensures U32At(s[..8], 4) == Four(s[4], s[5], s[6], s[7])
  {
    var h := s[..8];
    assert h[4] == s[4] && h[5] == s[5] && h[6] == s[6] && h[7] == s[7];
  }

  /** A frame is read from a stream exactly when the stream starts with its eight header bytes
      and its payload, of a known kind; a reset carries four bytes. */
  lemma ReadFrameExact(s: bytes, f: Frame, rest: bytes)
    ensures ReadFrame(s) == Ok((f, rest)) <==>
            && Announces(s, f.kind, |f.payload|) && s[8..] == f.payload + rest
            && (f.kind == 1 || f.kind == 2 || f.kind == 3 || f.kind == 4 || f.kind == 5)
            && (f.kind == 1 ==> |f.payload| == 4)
  {
    if |s| >= 8 {
      SizeIs(s);
      var size, tail := U32At(s[..8], 4), s[8..];
      hide U32At;
      if s[8..] == f.payload + rest {
        assert tail[..|f.payload|] == f.payload && tail[|f.payload|..] == rest;
      }
      if size <= |tail| {
        assert tail == tail[..size] + tail[size..];
      }
      assert [] + tail == tail;
    }
  }

  /** What a writer that keeps to the limits puts on the wire. */
  lemma FrameLayout(f: Frame)
    requires Writable(f)
    ensures Announces(FrameBytes(f), f.kind, |f.payload|) && FrameBytes(f)[8..] == f.payload
  {
    FrameRoundTrip(f, []);
    hide FrameBytes, ReadFrame, Announces;
    assert FrameBytes(f) + [] == FrameBytes(f) && f.payload + [] == f.payload;
    ReadFrameExact(FrameBytes(f), f, []);
  }

  /** A stream ends cleanly in two places: where nothing is left, and after a header whose
      payload is missing to the last byte. */
  lemma CleanEndExact(s: bytes)
    ensures ReadFrame(s) == Err(Eof) <==>
            s == [] || (|s| == 8 && exists kind, size :: Announces(s, kind, size) && size > 0)
  {
    if |s| >= 8 {
      SizeIs(s);
      hide U32At;
      if |s| == 8 && Four(s[4], s[5], s[6], s[7]) <= 16 * 1024 * 1024 && s[0] == 0xEC && s[1] == 1 && s[3] == 0 {
        assert Announces(s, s[2], Four(s[4], s[5], s[6], s[7]));
      }
    }
  }

  /** Which refusal a stream of at least eight bytes meets: the header bytes are judged in order,
      then the size, then the payload has to be there, and only then its kind is looked at. */
  lemma FrameErrors(s: bytes)
    requires |s| >= 8
    ensures var size := Four(s[4], s[5], s[6], s[7]);
            && (s[0] != 0xEC <==> ReadFrame(s) == Err(BadMagic))
            && (s[0] == 0xEC && s[1] != 1 <==> ReadFrame(s) == Err(BadVersion))
            && (s[0] == 0xEC && s[1] == 1 && s[3] != 0 <==> ReadFrame(s) == Err(BadFlags))
            && (s[0] == 0xEC && s[1] == 1 && s[3] == 0 && size > 16 * 1024 * 1024 <==> ReadFrame(s) == Err(TooLarge))
            && (Announces(s, s[2], size) && 8 < |s| < 8 + size <==> ReadFrame(s) == Err(UnexpectedEof))
            && (Announces(s, s[2], size) && |s| >= 8 + size && (s[2] == 0 || s[2] > 5 || (s[2] == 1 && size != 4))
                <==> ReadFrame(s) == Err(BadShape))
  {
    SizeIs(s);
    hide U32At, Four;
  }

  // ---- payloads ----

  lemma RefExact(p: bytes, id: u16, lane: bytes)
    ensures ParseRef(p) == Parsed((id, lane)) <==>
            && |p| >= 5 + |lane| && Two(p[0], p[1]) == id && p[2] == 1
            && Two(p[3], p[4]) == |lane| && p[5..5 + |lane|] == lane
  {}

  lemma DefineExact(p: bytes, id: u16, a: bytes, b: bytes)
    ensures ParseDefine(p) == Parsed(Definition(id, a, b)) <==>
            && |p| >= 12 + |a| + |b| && Two(p[0], p[1]) == id && p[2] == 3
            && p[3] == 1 && Two(p[4], p[5]) == |a| && p[6..6 + |a|] == a
            && p[6 + |a|] == 2 && p[9 + |a|] == 1
            && Two(p[10 + |a|], p[11 + |a|]) == |b| && p[12 + |a|..12 + |a| + |b|] == b
  {}

  lemma InlineExact(p: bytes, id: u16, a: bytes, b: bytes, lane: bytes)
    ensures ParseInline(p) == Parsed((Definition(id, a, b), lane)) <==>
            && |p| >= 8 + |a| + |b| + |lane| && Two(p[0], p[1]) == id
            && Two(p[2], p[3]) == |a| && p[4..4 + |a|] == a
            && Two(p[4 + |a|], p[5 + |a|]) == |b| && p[6 + |a|..6 + |a| + |b|] == b
            && Two(p[6 + |a| + |b|], p[7 + |a| + |b|]) == |lane|
            && p[8 + |a| + |b|..8 + |a| + |b| + |lane|] == lane
  {}
}
