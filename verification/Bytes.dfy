/** Byte strings and the few searching functions of Go's `bytes` and `strings`
    packages that the repository relies on. Text is treated as ASCII. */
module Bytes {

  newtype byte = x: int | 0 <= x < 256
  type bytes = seq<byte>

  datatype Option<+T> = None | Some(value: T)
  datatype Result<+T, +E> = Ok(value: T) | Err(error: E)

  const LF: byte := 10
  const CR: byte := 13
  const SPACE: byte := 32
  const COMMA: byte := 44
  const COLON: byte := 58
  const SEMICOLON: byte := 59
  const EQUALS: byte := 61
  const CRLF: bytes := [13, 10]
  const CRLFCRLF: bytes := [13, 10, 13, 10]
  // "content-length:"
  const CONTENT_LENGTH: bytes := [99, 111, 110, 116, 101, 110, 116, 45, 108, 101, 110, 103, 116, 104, 58]

  // ---- searching ----

  /** `bytes.IndexByte`: the first position of `b`, or -1. */
  function IndexByte(s: bytes, b: byte): (i: int)
    ensures -1 <= i < |s|
    ensures 0 <= i ==> s[i] == b && b !in s[..i]
    ensures i < 0 ==> b !in s
  {
    if s == [] then -1
    else if s[0] == b then 0
    else
      var r := IndexByte(s[1..], b);
      if r < 0 then -1 else r + 1
  }

  lemma IndexByteIs(s: bytes, b: byte, i: nat)
    requires i < |s| && s[i] == b && b !in s[..i]
    ensures IndexByte(s, b) == i
  {
    var k := IndexByte(s, b);
    assert s[i] in s;
    assert forall j :: 0 <= j < i ==> s[j] in s[..i];
    assert forall j :: 0 <= j < k ==> s[j] in s[..k];
  }

  /** `sep` occurs in `s` at position `k`. */
  predicate MatchAt(s: bytes, sep: bytes, k: int) {
    0 <= k && k + |sep| <= |s| && s[k..k + |sep|] == sep
  }

  lemma MatchShift(s: bytes, sep: bytes, k: int)
    requires s != [] && 0 <= k
    ensures MatchAt(s[1..], sep, k) == MatchAt(s, sep, k + 1)
  {
    if k + |sep| <= |s| - 1 {
      assert s[1..][k..k + |sep|] == s[k + 1..k + 1 + |sep|];
    }
  }

  /** `bytes.Index`: the first position of `sep`, or -1. */
  function Index(s: bytes, sep: bytes): (i: int)
    requires sep != []
    ensures i == -1 || MatchAt(s, sep, i)
    ensures forall k :: 0 <= k < i ==> !MatchAt(s, sep, k)
    ensures i == -1 ==> forall k :: !MatchAt(s, sep, k)
  {
    if |s| < |sep| then -1
    else if MatchAt(s, sep, 0) then 0
    else
      var r := Index(s[1..], sep);
      assert forall k :: 1 <= k && MatchAt(s, sep, k) ==> MatchAt(s[1..], sep, k - 1) by {
        forall k | 1 <= k && MatchAt(s, sep, k)
          ensures MatchAt(s[1..], sep, k - 1)
        {
          MatchShift(s, sep, k - 1);
        }
      }
      assert r >= 0 ==> MatchAt(s, sep, r + 1) by {
        if r >= 0 {
          MatchShift(s, sep, r);
        }
      }
      if r < 0 then -1 else r + 1
  }

  lemma IndexIs(s: bytes, sep: bytes, i: int)
    requires sep != [] && MatchAt(s, sep, i)
    requires forall k :: 0 <= k < i ==> !MatchAt(s, sep, k)
    ensures Index(s, sep) == i
  {}

  /** `bytes.Contains`. */
  predicate Contains(s: bytes, sep: bytes)
    requires sep != []
  {
    Index(s, sep) >= 0
  }

  /** `sep` stands somewhere in `s`, whatever is before and after it. */
  ghost predicate Within(sep: bytes, s: bytes) {
    exists x, y :: s == x + sep + y
  }

  lemma ContainsExact(s: bytes, sep: bytes)
    requires sep != []
    ensures Contains(s, sep) <==> Within(sep, s)
  {
    var k := Index(s, sep);
    hide Index;
    if k >= 0 {
      assert s == s[..k] + sep + s[k + |sep|..];
    }
    if Within(sep, s) {
      var x, y :| s == x + sep + y;
      assert s[|x|..|x| + |sep|] == sep;
      assert MatchAt(s, sep, |x|);
    }
  }

  predicate HasPrefix(s: bytes, p: bytes) {
    p <= s
  }

  // ---- splitting and joining ----

  /** `bytes.Split` for a nonempty separator. */
  function Split(s: bytes, sep: bytes): (parts: seq<bytes>)
    requires sep != []
    ensures parts != []
    decreases |s|
  {
    var i := Index(s, sep);
    if i < 0 then [s] else [s[..i]] + Split(s[i + |sep|..], sep)
  }

  /** The concatenation of all parts. */
  function Flatten(parts: seq<bytes>): bytes {
    if parts == [] then [] else parts[0] + Flatten(parts[1..])
  }

  /** A front of a concatenation. */
  lemma CutConcat<T>(x: seq<T>, y: seq<T>, j: nat)
    requires j <= |x + y|
    ensures (x + y)[..j] == if j < |x| then x[..j] else x + y[..j - |x|]
  {}

  lemma Assoc<T>(x: seq<T>, y: seq<T>, z: seq<T>)
    ensures x + y + z == x + (y + z)
  {}

  lemma {:induction false} FlattenAppend(a: seq<bytes>, b: seq<bytes>)
    ensures Flatten(a + b) == Flatten(a) + Flatten(b)
  {
    if a == [] {
      assert a + b == b;
    } else {
      var ab := a + b;
      assert ab[0] == a[0] && ab[1..] == a[1..] + b;
      FlattenAppend(a[1..], b);
      Assoc(a[0], Flatten(a[1..]), Flatten(b));
    }
  }

  lemma FlattenSingle(a: bytes)
    ensures Flatten([a]) == a
  {
    assert [a][1..] == [];
  }

  /** Each line followed by CRLF. */
  function Lines(ls: seq<bytes>): bytes {
    if ls == [] then [] else ls[0] + CRLF + Lines(ls[1..])
  }

  lemma {:induction false} LinesAppend(a: seq<bytes>, b: seq<bytes>)
    ensures Lines(a + b) == Lines(a) + Lines(b)
  {
    if a == [] {
      assert a + b == b;
    } else {
      var ab := a + b;
      assert ab[0] == a[0] && ab[1..] == a[1..] + b;
      LinesAppend(a[1..], b);
      Assoc(a[0] + CRLF, Lines(a[1..]), Lines(b));
    }
  }

  /** No line holds a line feed, so no separator can straddle or precede a line end. */
  predicate LfFree(ls: seq<bytes>) {
    forall l <- ls :: NoLf(l)
  }

  predicate NoLf(l: bytes) {
    LF !in l
  }

  /** A CRLF can only be found where a line feed is. */
  lemma CrlfNeedsLf(s: bytes, k: int)
    requires MatchAt(s, CRLF, k)
    ensures s[k] == CR && s[k + 1] == LF
  {
    assert s[k..k + 2][0] == CR && s[k..k + 2][1] == LF;
  }

  lemma FirstCrlf(l: bytes, rest: bytes)
    requires LF !in l
    ensures Index(l + CRLF + rest, CRLF) == |l|
  {
    var s := l + CRLF + rest;
    assert s[|l|..|l| + 2] == CRLF;
    assert MatchAt(s, CRLF, |l|);
    assert forall j :: 0 <= j <= |l| ==> s[j] != LF;
    var i := Index(s, CRLF);
    CrlfNeedsLf(s, i);
  }

  lemma SplitOnce(l: bytes, rest: bytes)
    requires LF !in l
    ensures Split(l + CRLF + rest, CRLF) == [l] + Split(rest, CRLF)
  {
    FirstCrlf(l, rest);
    var s := l + CRLF + rest;
    assert s[..|l|] == l;
    assert s[|l| + 2..] == rest;
  }

  lemma SplitNone(s: bytes)
    requires LF !in s
    ensures Split(s, CRLF) == [s]
  {
    var i := Index(s, CRLF);
    if i >= 0 {
      CrlfNeedsLf(s, i);
      assert false;
    }
  }

  /** Splitting undoes `Lines`: an accepted header block splits into its own lines. */
  lemma {:induction false} SplitLines(ls: seq<bytes>, tail: bytes)
    requires LfFree(ls) && LF !in tail
    ensures Split(Lines(ls) + tail, CRLF) == ls + [tail]
  {
    if ls == [] {
      assert Lines(ls) + tail == tail;
      SplitNone(tail);
    } else {
      hide Split;
      assert ls[0] in ls;
      var rest := Lines(ls[1..]) + tail;
      Assoc(ls[0] + CRLF, Lines(ls[1..]), tail);
      SplitOnce(ls[0], rest);
      SplitLines(ls[1..], tail);
      Assoc([ls[0]], ls[1..], [tail]);
      assert ls == [ls[0]] + ls[1..];
    }
  }

  // ---- ASCII text ----

  predicate IsSpace(b: byte) {
    9 <= b <= 13 || b == 32
  }

  function TrimLeft(s: bytes): (t: bytes)
    ensures t == [] || !IsSpace(t[0])
  {
    if s != [] && IsSpace(s[0]) then TrimLeft(s[1..]) else s
  }

  function TrimRight(s: bytes): (t: bytes)
    ensures t <= s
    ensures t == [] || !IsSpace(t[|t| - 1])
  {
    if s != [] && IsSpace(s[|s| - 1]) then TrimRight(s[..|s| - 1]) else s
  }

  /** `strings.TrimSpace` on ASCII. */
  function TrimSpace(s: bytes): bytes {
    TrimRight(TrimLeft(s))
  }

  lemma {:induction false} TrimRightSuffix(s: bytes, ws: bytes)
    requires s != [] && !IsSpace(s[|s| - 1])
    requires forall b <- ws :: IsSpace(b)
    ensures TrimRight(s + ws) == s
  {
    if ws == [] {
      assert s + ws == s;
    } else {
      TrimRightSuffix(s, ws[..|ws| - 1]);
      assert ws[|ws| - 1] in ws;
      assert (s + ws)[..|s + ws| - 1] == s + ws[..|ws| - 1];
    }
  }

  function LowerByte(b: byte): byte {
    if 65 <= b <= 90 then b + 32 else b
  }

  /** `strings.ToLower` on ASCII. */
  function ToLower(s: bytes): (t: bytes)
    ensures |t| == |s|
    ensures forall i :: 0 <= i < |s| ==> t[i] == LowerByte(s[i])
  {
    seq(|s|, i requires 0 <= i < |s| => LowerByte(s[i]))
  }

  lemma ToLowerAppend(a: bytes, b: bytes)
    ensures ToLower(a + b) == ToLower(a) + ToLower(b)
  {}
}
