/** The two ends of a connection: bytes being consumed and bytes being produced. */
module Streams {
  import opened Bytes

  // AtEnd is io.EOF; CutShort is io.ErrUnexpectedEOF.
  datatype StreamEnd = AtEnd | CutShort

  /** `io.ReadFull` of `n` bytes from the front of `s`: the bytes and the rest. */
  function Take(s: bytes, n: nat): (r: Result<(bytes, bytes), StreamEnd>)
    ensures r.Ok? ==> |r.value.0| == n && |r.value.1| == |s| - n
  {
    if n == 0 then Ok(([], s))
    else if s == [] then Err(AtEnd)
    else if |s| < n then Err(CutShort)
    else Ok((s[..n], s[n..]))
  }

  /** A connection's incoming bytes and how many have been read. */
  class Source {
    const data: bytes
    var pos: nat

    ghost predicate Valid()
      reads this
    {
      pos <= |data|
    }

    /** The bytes not yet read. */
    ghost function Rest(): bytes
      reads this
      requires Valid()
    {
      data[pos..]
    }

    constructor (bs: bytes)
      ensures Valid() && data == bs && Rest() == bs
    {
      data := bs;
      pos := 0;
    }

    /** `bufio.Reader.ReadBytes(LF)`. */
    method ReadThroughLf() returns (r: Option<bytes>)
      requires Valid()
      modifies this`pos
      ensures Valid()
      ensures var s := old(Rest());
              var k := IndexByte(s, LF);
              if k < 0 then r == None && Rest() == []
              else r == Some(s[..k + 1]) && Rest() == s[k + 1..]
    {
      var k := IndexByte(data[pos..], LF);
      if k < 0 {
        pos := |data|;
        return None;
      }
      assert data[pos..pos + k + 1] == data[pos..][..k + 1];
      assert data[pos + k + 1..] == data[pos..][k + 1..];
      r := Some(data[pos..pos + k + 1]);
      pos := pos + k + 1;
    }

    /** `io.ReadFull`. */
    method Fill(n: nat) returns (r: Result<bytes, StreamEnd>)
      requires Valid()
      modifies this`pos
      ensures Valid()
      ensures match Take(old(Rest()), n)
              case Err(e) => r == Err(e)
              case Ok((b, rest)) => r == Ok(b) && Rest() == rest
    {
      if n == 0 {
        return Ok([]);
      }
      if pos == |data| {
        return Err(AtEnd);
      }
      if |data| - pos < n {
        pos := |data|;
        return Err(CutShort);
      }
      assert data[pos..pos + n] == data[pos..][..n];
      assert data[pos + n..] == data[pos..][n..];
      r := Ok(data[pos..pos + n]);
      pos := pos + n;
    }
  }

  /** A connection's outgoing bytes. */
  class Sink {
    var out: bytes

    constructor ()
      ensures out == []
    {
      out := [];
    }

    /** A write that succeeds takes every byte. */
    method Write(b: bytes)
      modifies this
      ensures out == old(out) + b
    {
      out := out + b;
    }

    /** A write for callers that do not rely on that: some nonempty front part is taken. */
    method WriteSome(b: bytes) returns (n: nat)
      requires b != []
      modifies this
      ensures 1 <= n <= |b| && out == old(out) + b[..n]
    {
      n :| 1 <= n <= |b|;
      out := out + b[..n];
    }
  }
}
