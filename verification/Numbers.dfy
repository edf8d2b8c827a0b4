/** Decimal and hexadecimal text, and big-endian integers on the wire. */
module Numbers {
  import opened Bytes

  const TWO16: int := 0x1_0000
  const TWO32: int := 0x1_0000_0000
  const TWO63: int := 0x8000_0000_0000_0000

  type u16 = x: int | 0 <= x < 0x1_0000
  type u32 = x: int | 0 <= x < 0x1_0000_0000

  /** A conversion to uint32. */
  function Wrap32(n: nat): u32 {
    n % TWO32
  }

  /** Addition of uint32 values. */
  function Add32(x: u32, y: u32): u32 {
    (x + y) % TWO32
  }

  /** Counting on 32 bits. */
  lemma ModSucc(n: nat)
    ensures (n % TWO32 + 1) % TWO32 == (n + 1) % TWO32
  {}

  lemma AddWrapped(a: nat, b: nat)
    ensures Add32(Wrap32(a), Wrap32(b)) == Wrap32(a + b)
  {}

  // ---- text (strconv) ----

  /** The value of one digit in the given base, either letter case. */
  function DigitValue(b: byte, base: nat): Option<nat> {
    var d: int :=
      if 48 <= b <= 57 then b as int - 48
      else if 97 <= b <= 122 then b as int - 87
      else if 65 <= b <= 90 then b as int - 55
      else -1;
    if 0 <= d < base then Some(d) else None
  }

  /** The value of a digit string, or None when some byte is not a digit of the base. */
  function DigitsValue(s: bytes, base: nat): Option<nat>
    requires base > 0
  {
    if s == [] then Some(0)
    else
      match (DigitsValue(s[..|s| - 1], base), DigitValue(s[|s| - 1], base))
      case (Some(v), Some(d)) => Some(v * base + d)
      case _ => None
  }

  /** `strconv.ParseInt(s, base, 64)` and, for base 10, `strconv.Atoi`: an optional sign,
      then digits, the value within a signed 64-bit word. */
  function ParseInt(s: bytes, base: nat): Option<int>
    requires base > 0
  {
    if s == [] then None
    else
      var neg := s[0] == 45;
      var digits := if neg || s[0] == 43 then s[1..] else s;
      if digits == [] then None
      else
        match DigitsValue(digits, base)
        case None => None
        case Some(v) =>
          var magnitude: int := v;
          var n := if neg then -magnitude else magnitude;
          if -TWO63 <= n < TWO63 then Some(n) else None
  }

  /** `strconv.Itoa` for a length. */
  function Itoa(n: nat): (s: bytes)
    ensures s != []
    ensures forall b <- s :: 48 <= b <= 57
  {
    var last := (48 + n % 10) as byte;
    if n < 10 then [last] else Itoa(n / 10) + [last]
  }

  lemma {:induction false} DigitsOfItoa(n: nat)
    ensures DigitsValue(Itoa(n), 10) == Some(n)
  {
    var s := Itoa(n);
    var last := (48 + n % 10) as byte;
    assert DigitValue(last, 10) == Some(n % 10);
    if n < 10 {
      assert s[..|s| - 1] == [];
    } else {
      DigitsOfItoa(n / 10);
      assert s[..|s| - 1] == Itoa(n / 10);
    }
  }

  /** Printing then parsing a length gives it back. */
  lemma ItoaRoundTrip(n: nat)
    requires n < TWO63
    ensures ParseInt(Itoa(n), 10) == Some(n)
  {
    DigitsOfItoa(n);
    assert Itoa(n)[0] in Itoa(n);
  }

  lemma {:induction false} ItoaShort(n: nat, width: nat)
    requires n < Pow10(width) && width > 0
    ensures |Itoa(n)| <= width
  {
    if n >= 10 {
      assert Pow10(width) == 10 * Pow10(width - 1);
      ItoaShort(n / 10, width - 1);
    }
  }

  function Pow10(k: nat): (p: nat)
    ensures p >= 1
  {
    if k == 0 then 1 else 10 * Pow10(k - 1)
  }

  /** A digit of a base up to 36: a decimal one, or a letter in either case. */
  lemma DigitExact(b: byte, base: nat, d: nat)
    requires base <= 36
    ensures DigitValue(b, base) == Some(d) <==>
            d < base && if d < 10 then b as int == 48 + d else b as int == 87 + d || b as int == 55 + d
  {}

  function Power(base: nat, k: nat): nat {
    if k == 0 then 1 else base * Power(base, k - 1)
  }

  /** Digits count by their place. */
  lemma {:induction false} PlaceValue(s: bytes, t: bytes, base: nat)
    requires base > 0
    ensures DigitsValue(s + t, base) ==
            match (DigitsValue(s, base), DigitsValue(t, base))
            case (Some(x), Some(y)) => Some(x * Power(base, |t|) + y)
            case _ => None
    decreases |t|
  {
    var all := s + t;
    if t == [] {
      assert all == s;
    } else {
      var init, last := t[..|t| - 1], t[|t| - 1];
      assert all[..|all| - 1] == s + init && all[|all| - 1] == last;
      PlaceValue(s, init, base);
      if DigitsValue(s, base).Some? && DigitsValue(init, base).Some? {
        Shifted(DigitsValue(s, base).value, Power(base, |init|), DigitsValue(init, base).value, base);
      }
    }
  }

  lemma Shifted(x: nat, p: nat, y: nat, base: nat)
    ensures (x * p + y) * base == x * (base * p) + y * base
  {}

  /** A number is accepted with at most one sign in front of at least one digit, and only within
      64 bits. */
  lemma ParseIntExact(s: bytes, base: nat, n: int)
    requires base > 0
    ensures ParseInt(s, base) == Some(n) <==>
            && s != [] && -0x8000_0000_0000_0000 <= n < 0x8000_0000_0000_0000
            && (|| (s[0] != 43 && s[0] != 45 && n >= 0 && DigitsValue(s, base) == Some(n))
                || (s[0] == 43 && n >= 0 && |s| > 1 && DigitsValue(s[1..], base) == Some(n))
                || (s[0] == 45 && n <= 0 && |s| > 1 && DigitsValue(s[1..], base) == Some(-n)))
  {
    hide DigitsValue;
  }

  /** A length is printed without leading zeros. */
  lemma {:induction false} ItoaCanonical(n: nat)
    ensures Itoa(n)[0] == 48 <==> n == 0
    ensures n == 0 ==> Itoa(n) == [48]
  {
    if n >= 10 {
      ItoaCanonical(n / 10);
    }
  }

  // ---- big-endian words ----

  /** `be.PutUint16(uint16(v))`: only the low 16 bits survive. */
  function U16(v: nat): (b: bytes)
    ensures |b| == 2
  {
    [(v / 256 % 256) as byte, (v % 256) as byte]
  }

  function U16At(p: bytes, i: nat): u16
    requires i + 2 <= |p|
  {
    p[i] as int * 256 + p[i + 1] as int
  }

  function U32(v: nat): (b: bytes)
    ensures |b| == 4
  {
    U16(v / TWO16) + U16(v % TWO16)
  }

  function U32At(p: bytes, i: nat): u32
    requires i + 4 <= |p|
  {
    U16At(p, i) * TWO16 + U16At(p, i + 2)
  }

  lemma TwoDigits(v: nat)
    ensures v / 256 % 256 * 256 + v % 256 == v % TWO16
  {}

  lemma U16RoundTrip(v: nat, p: bytes, i: nat)
    requires i + 2 <= |p| && p[i..i + 2] == U16(v)
    ensures U16At(p, i) == v % TWO16
  {
    TwoDigits(v);
    assert p[i] == p[i..i + 2][0] && p[i + 1] == p[i..i + 2][1];
  }

  lemma U32RoundTrip(v: nat, p: bytes, i: nat)
    requires v < TWO32
    requires i + 4 <= |p| && p[i..i + 4] == U32(v)
    ensures U32At(p, i) == v
  {
    assert p[i..i + 2] == p[i..i + 4][..2];
    assert p[i + 2..i + 4] == p[i..i + 4][2..];
    U16RoundTrip(v / TWO16, p, i);
    U16RoundTrip(v % TWO16, p, i + 2);
  }

  lemma U16Inverse(p: bytes, i: nat)
    requires i + 2 <= |p|
    ensures U16(U16At(p, i)) == p[i..i + 2]
  {
    assert U16At(p, i) / 256 == p[i] as int;
  }
}
