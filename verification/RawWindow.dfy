/** The sliding observation window: a ring buffer that holds the last bytes of a history. */
module RawWindow {
  import opened Bytes

  /** The last `n` bytes of `s`. */
  function LastN(s: bytes, n: nat): bytes {
    if |s| <= n then s else s[|s| - n..]
  }

  /** Windowing a window is windowing the whole history. */
  lemma LastNStep(h: bytes, p: bytes, n: nat)
    ensures LastN(LastN(h, n) + p, n) == LastN(h + p, n)
  {}

  /** What a window of capacity `n` shows after the given appends, one at a time. */
  function Windowed(n: nat, chunks: seq<bytes>): bytes {
    if chunks == [] then []
    else LastN(Windowed(n, chunks[..|chunks| - 1]) + chunks[|chunks| - 1], n)
  }

  /** However a history is cut into appends, the window shows its last bytes. */
  lemma {:induction false} WindowIgnoresCuts(n: nat, chunks: seq<bytes>)
    ensures Windowed(n, chunks) == LastN(Flatten(chunks), n)
  {
    if chunks != [] {
      var init, last := chunks[..|chunks| - 1], chunks[|chunks| - 1];
      assert chunks == init + [last];
      WindowIgnoresCuts(n, init);
      FlattenAppend(init, [last]);
      FlattenSingle(last);
      LastNStep(Flatten(init), last, n);
    }
  }

  lemma ModStep(x: nat, m: nat)
    requires 0 < m && x <= m
    ensures x % m == if x == m then 0 else x
  {}

  class RawWindow {
    const buf: array<byte>
    var head: nat
    var size: nat
    // Everything ever appended.
    ghost var history: bytes

    /** The slot of the i-th byte counted back from the newest. */
    function Slot(at: nat, i: nat): (s: nat)
      requires at < buf.Length && i < buf.Length
      ensures s < buf.Length
    {
      if i < at then at - 1 - i else buf.Length + at - 1 - i
    }

    ghost predicate Valid()
      reads this, buf
    {
      && head < buf.Length
      && size == (if |history| <= buf.Length then |history| else buf.Length)
      && forall i :: 0 <= i < size ==> buf[Slot(head, i)] == history[|history| - 1 - i]
    }

    constructor (sizeBytes: nat)
      requires sizeBytes > 0
      ensures Valid() && fresh(buf) && buf.Length == sizeBytes && history == []
    {
      buf := new byte[sizeBytes];
      head, size := 0, 0;
      history := [];
    }

    /** Observe bytes; only the newest `Cap` of the whole history stay. */
    method Append(p: bytes)
      requires Valid()
      modifies this, buf
      ensures Valid() && history == old(history) + p
    {
      if |p| == 0 {
        history := history + p;
        return;
      }
      var capacity := buf.Length;
      if |p| >= capacity {
        var tail := p[|p| - capacity..];
        CopyIntoRing(tail);
        size := capacity;
        history := history + p;
        return;
      }
      AppendShort(p);
    }

    /** The rest of Append, for bytes that leave something of the old window. */
    method AppendShort(p: bytes)
      requires Valid() && 0 < |p| < buf.Length
      modifies this, buf
      ensures Valid() && history == old(history) + p
    {
      var capacity := buf.Length;
      ghost var before := history;
      var newSize := size + |p|;
      if newSize > capacity {
        newSize := capacity;
      }
      ghost var oldHead, oldBuf := head, buf[..];
      assert forall i :: 0 <= i < size ==> oldBuf[Slot(oldHead, i)] == before[|before| - 1 - i];
      CopyIntoRing(p);
      assert forall i :: |p| <= i < capacity ==> buf[Slot(head, i)] == oldBuf[Slot(oldHead, i - |p|)];
      StillShown(p, before, oldHead, oldBuf, size);
      size := newSize;
      history := history + p;
    }

    /** Newest bytes from the append, older ones from the old window: the end of the history. */
    lemma StillShown(p: bytes, before: bytes, oldHead: nat, oldBuf: bytes, oldSize: nat)
      requires head < buf.Length && oldHead < buf.Length && |oldBuf| == buf.Length && |p| < buf.Length
      requires oldSize <= buf.Length && oldSize <= |before|
      requires forall i :: 0 <= i < oldSize ==> oldBuf[Slot(oldHead, i)] == before[|before| - 1 - i]
      requires forall i :: 0 <= i < |p| ==> buf[Slot(head, i)] == p[|p| - 1 - i]
      requires forall i :: |p| <= i < buf.Length ==> buf[Slot(head, i)] == oldBuf[Slot(oldHead, i - |p|)]
      ensures forall i :: 0 <= i < buf.Length && i < oldSize + |p| ==>
                buf[Slot(head, i)] == (before + p)[|before + p| - 1 - i]
    {
      hide Slot;
    }

    /** Write `p` at the head, wrapping once: it becomes the newest |p| bytes and everything
        else ages by |p|. */
    method CopyIntoRing(p: bytes)
      requires head < buf.Length && 0 < |p| <= buf.Length
      modifies this`head, buf
      ensures head < buf.Length
      ensures forall i :: 0 <= i < |p| ==> buf[Slot(head, i)] == p[|p| - 1 - i]
      ensures forall i :: |p| <= i < buf.Length ==> buf[Slot(head, i)] == old(buf[Slot(head, i - |p|)])
    {
      var capacity := buf.Length;
      var remaining := |p|;
      var n := capacity - head;
      if n > remaining {
        n := remaining;
      }
      ghost var at, m := head, n;
      CopyRange(head, p[..n]);
      ModStep(head + n, capacity);
      head := (head + n) % capacity;
      remaining := remaining - n;
      if remaining > 0 {
        CopyRange(0, p[n..n + remaining]);
        ModStep(remaining, capacity);
        head := remaining % capacity;
      }
      assert head == if at + |p| < capacity then at + |p| else at + |p| - capacity;
      assert forall k :: 0 <= k < capacity ==>
          buf[k] == if at <= k < at + m then p[k - at] else if k < |p| - m then p[m + k] else old(buf[k]);
    }

    /** `copy(buf[at:at+len(src)], src)`. */
    method CopyRange(at: nat, src: bytes)
      requires at + |src| <= buf.Length
      modifies buf
      ensures forall k :: 0 <= k < buf.Length ==>
                buf[k] == if at <= k < at + |src| then src[k - at] else old(buf[k])
    {
      for j := 0 to |src|
        invariant forall k :: 0 <= k < buf.Length ==>
                    buf[k] == if at <= k < at + j then src[k - at] else old(buf[k])
      {
        buf[at + j] := src[j];
      }
    }

    /** The window, oldest byte first: the last `Cap` bytes of the history. */
    method Snapshot() returns (out: bytes)
      requires Valid()
      ensures out == LastN(history, buf.Length)
    {
      if size == 0 {
        return [];
      }
      var capacity := buf.Length;
      var start: int := head - size;
      if start < 0 {
        start := start + capacity;
      }
      if start + size <= capacity {
        out := buf[start..start + size];
      } else {
        var firstLen := capacity - start;
        out := buf[start..] + buf[..size - firstLen];
      }
      forall k | 0 <= k < size
        ensures out[k] == LastN(history, capacity)[k]
      {
        assert out[k] == buf[Slot(head, size - 1 - k)];
      }
    }
  }
}
