/**
  The integer helpers of `utils/Utils.cpp`: big-endian serialisation of
  32-bit ints, square-and-multiply modular exponentiation and the
  brute-force modular inverse. `int` is 32-bit two's complement; C++'s `%`
  truncates toward zero and is modelled by `CRem`.
*/
module Utils {
  import opened Results
  import opened Bytes

  type i32 = x: int | -0x8000_0000 <= x < 0x8000_0000
  type i64 = x: int | -0x8000_0000_0000_0000 <= x < 0x8000_0000_0000_0000

  const I32_LIMIT: int := 0x1_0000_0000

  function Abs(x: int): nat {
    if x < 0 then -x else x
  }

  // ---------------------------------------------------------------------------
  // Arithmetic background

  /** Division by a positive `m` has a unique quotient and remainder. */
  lemma DivModUnique(x: int, m: int, q: int, r: int)
    requires m > 0 && 0 <= r < m && x == q * m + r
    ensures x / m == q && x % m == r
  {
    var q', r' := x / m, x % m;
    assert (q - q') * m == r' - r;
    if q > q' {
      MulAtLeast(q - q', m);
    } else if q < q' {
      MulAtLeast(q' - q, m);
    }
  }

  lemma MulAtLeast(a: int, m: int)
    requires a >= 1 && m > 0
    ensures a * m >= m
  {
    assert a * m == (a - 1) * m + m;
  }

  /** `a` and `b` leave the same remainder modulo `m`. */
  predicate Cong(a: int, b: int, m: int)
    requires m > 0
  {
    a % m == b % m
  }

  lemma CongMul(a: int, a': int, b: int, b': int, m: int)
    requires m > 0 && Cong(a, a', m) && Cong(b, b', m)
    ensures Cong(a * b, a' * b', m)
  {
    var qa, qb, qa', qb' := a / m, b / m, a' / m, b' / m;
    var ra, rb := a % m, b % m;
    var r := (ra * rb) % m;
    var q := (ra * rb) / m;
    assert a * b == (qa * qb * m + qa * rb + ra * qb + q) * m + r;
    DivModUnique(a * b, m, qa * qb * m + qa * rb + ra * qb + q, r);
    assert a' * b' == (qa' * qb' * m + qa' * rb + ra * qb' + q) * m + r;
    DivModUnique(a' * b', m, qa' * qb' * m + qa' * rb + ra * qb' + q, r);
  }

  lemma MulAssoc(a: int, b: int, c: int)
    ensures (a * b) * c == a * (b * c)
  {
  }

  /** `b` to the power `e`. */
  function Pow(b: int, e: nat): int {
    if e == 0 then 1 else b * Pow(b, e - 1)
  }

  lemma {:induction false} PowCong(x: int, y: int, e: nat, m: int)
    requires m > 0 && Cong(x, y, m)
    ensures Cong(Pow(x, e), Pow(y, e), m)
  {
    if e > 0 {
      PowCong(x, y, e - 1, m);
      CongMul(x, y, Pow(x, e - 1), Pow(y, e - 1), m);
    }
  }

  lemma {:induction false} PowSquare(b: int, k: nat)
    ensures Pow(b * b, k) == Pow(b, 2 * k)
  {
    if k > 0 {
      PowSquare(b, k - 1);
      assert Pow(b, 2 * k) == b * (b * Pow(b, 2 * k - 2));
    }
  }

  lemma PowNonNegative(b: int, e: nat)
    requires b >= 0
    ensures Pow(b, e) >= 0
  {
  }

  /** C++'s `a % m`: the remainder of the division truncated toward zero, with the sign of `a`. */
  function CRem(a: int, m: int): (r: int)
    requires m != 0
    ensures Abs(r) < Abs(m)
    ensures a >= 0 ==> 0 <= r
    ensures a >= 0 && m > 0 ==> r == a % m
  {
    if a >= 0 then a % Abs(m) else -((-a) % Abs(m))
  }

  /** Truncated and Euclidean remainders agree up to multiples of `m`. */
  lemma CRemCong(a: int, m: int)
    requires m != 0
    ensures Cong(CRem(a, m), a, Abs(m))
  {
    var n := Abs(m);
    if a < 0 {
      var q, r := (-a) / n, (-a) % n;
      assert -a == q * n + r;
      if r == 0 {
        DivModUnique(a, n, -q, 0);
      } else {
        DivModUnique(a, n, -q - 1, n - r);
        DivModUnique(-r, n, -1, n - r);
      }
    }
  }

  // ---------------------------------------------------------------------------
  // powerModulus

  lemma ProductFits(x: int, y: int)
    requires Abs(x) <= 0x8000_0000 && Abs(y) <= 0x8000_0000
    ensures -0x8000_0000_0000_0000 <= x * y < 0x8000_0000_0000_0000
  {
    var a: int, b: int := Abs(x), Abs(y);
    MulNonNegative(0x8000_0000 - a, b);
    MulNonNegative(0x8000_0000, 0x8000_0000 - b);
    MulNonNegative(a, b);
    if (x < 0) == (y < 0) {
      assert x * y == a * b;
    } else {
      assert x * y == -(a * b);
    }
  }

  /**
    `powerModulus`: square-and-multiply with both products formed in 64
    bits and reduced by C++'s `%`. An exponent of 0 (or below) gives 1, even
    for `m == 1`: the guard for that case is commented out. `m == 0` would
    divide by zero, and the first reduction `base % m` is a 32-bit `int`
    operation, undefined for `INT_MIN % -1`; both are excluded.
  */
  method PowerModulus(base: i32, expo: i32, m: i32) returns (r: i32)
    requires m != 0
    requires !(base == -0x8000_0000 && m == -1)
    ensures expo <= 0 ==> r == 1
    ensures expo > 0 ==> Abs(r) < Abs(m) && Cong(r, Pow(base, expo), Abs(m))
    ensures expo >= 0 && base >= 0 && m > 0 && (expo > 0 || m > 1) ==> r == Pow(base, expo) % m
  {
    var result: i32 := 1;
    var b: i32 := CRem(base, m);
    var e: i32 := expo;
    var n := Abs(m);
    if expo > 0 {
      CRemCong(base, m);
      PowCong(b, base, expo, n);
    }
    while e > 0
      invariant expo > 0 ==> 0 <= e <= expo
      invariant expo <= 0 ==> e == expo && result == 1
      invariant Abs(b) < n
      invariant result == 1 || Abs(result) < n
      invariant expo > 0 && e == 0 ==> Abs(result) < n
      invariant expo > 0 ==> Cong(result * Pow(b, e), Pow(base, expo), n)
      invariant base >= 0 ==> b >= 0 && result >= 0
    {
      ghost var b0: int, e0: int, result0: int := b, e, result;
      ProductFits(result, b);
      ProductFits(b, b);
      if e % 2 == 1 {
        var p: i64 := result * b;
        result := CRem(p, m);
        CRemCong(p, m);
      }
      var sq: i64 := b * b;
      b := CRem(sq, m);
      CRemCong(sq, m);
      e := e / 2;
      PowSquare(b0, e);
      PowCong(b, b0 * b0, e, n);
      if e0 % 2 == 1 {
        var p := Pow(b0 * b0, e);
        assert Pow(b0, e0) == b0 * p;
        CongMul(result, result0 * b0, Pow(b, e), p, n);
        MulAssoc(result0, b0, p);
      } else {
        assert e0 == 2 * e;
        CongMul(result, result0, Pow(b, e), Pow(b0 * b0, e), n);
      }
    }
    r := result;
    if expo >= 0 && base >= 0 && m > 0 && (expo > 0 || m > 1) {
      PowNonNegative(base, expo);
      DivModUnique(r, m, 0, r);
    }
  }

  // ---------------------------------------------------------------------------
  // modInverse

  /** C++'s `int` product `e * d`, wrapped to 32 bits as the usual compilers do. */
  function Wrap32(x: int): (r: i32)
    ensures -0x8000_0000 <= x < 0x8000_0000 ==> r == x
  {
    (x + 0x8000_0000) % I32_LIMIT - 0x8000_0000
  }

  /** The test `(e * d) % phi == 1` of `modInverse`'s loop. */
  predicate Solves(e: i32, d: int, phi: i32) {
    phi > 0 && CRem(Wrap32(e * d), phi) == 1
  }

  /**
    `modInverse`: the first `d` counting up from 2 below `phi` that passes the
    test, or -1 when none does. 1 is never returned, even when it is the inverse.
  */
  method ModInverse(e: i32, phi: i32) returns (r: i32)
    ensures r == -1 <==> forall d :: 2 <= d < phi ==> !Solves(e, d, phi)
    ensures r != -1 ==> 2 <= r < phi && Solves(e, r, phi)
    ensures r != -1 ==> forall d :: 2 <= d < r ==> !Solves(e, d, phi)
  {
    var d: int := 2;
    while d < phi
      invariant 2 <= d && (phi >= 2 ==> d <= phi)
      invariant forall d' :: 2 <= d' < d ==> !Solves(e, d', phi)
    {
      if CRem(Wrap32(e * d), phi) == 1 {
        assert Solves(e, d, phi);
        return d;
      }
      d := d + 1;
    }
    return -1;
  }

  /**
    When `e * d` cannot overflow (`0 <= e` and `e * phi` fits an int), the
    test is the mathematical one: `modInverse` finds the least inverse of `e`
    modulo `phi` in [2, phi).
  */
  lemma SolvesIsInverse(e: i32, d: int, phi: i32)
    requires 0 <= e && 0 <= d < phi && e * phi < 0x8000_0000
    ensures Solves(e, d, phi) <==> (e * d) % phi == 1
  {
    MulNonNegative(e, phi - d);
    MulNonNegative(e, d);
    assert e * phi == e * d + e * (phi - d);
  }

  lemma MulNonNegative(a: int, b: int)
    requires a >= 0 && b >= 0
    ensures a * b >= 0
  {
  }

  // ---------------------------------------------------------------------------
  // serializeNumbers / deserializeNumbers

  /**
    The four bytes `serializeNumbers` pushes for `num`: `(num >> 8i) & 0xFF`
    for i = 3, 2, 1, 0. The arithmetic shift by 8i is i floor divisions by
    256; `& 0xFF` keeps the non-negative remainder.
  */
  function IntBytes(num: i32): (r: seq<byte>)
    ensures |r| == 4
  {
    var q1 := num / 256;
    var q2 := q1 / 256;
    var q3 := q2 / 256;
    [q3 % 256, q2 % 256, q1 % 256, num % 256]
  }

  /** `serializeNumbers`: four bytes per number, in order. */
  function SerializeNumbers(numbers: seq<i32>): (r: seq<byte>)
    ensures |r| == 4 * |numbers|
  {
    if |numbers| == 0 then [] else IntBytes(numbers[0]) + SerializeNumbers(numbers[1..])
  }

  /** The value of a byte string read most significant byte first. */
  function DecodeBE(s: seq<byte>): (r: nat)
    ensures r < Pow256(|s|)
  {
    if |s| == 0 then 0 else DecodeBE(s[..|s| - 1]) * 256 + s[|s| - 1]
  }

  /** A 32-bit pattern read as two's complement. */
  function ToSigned(u: nat): (r: i32)
    requires u < I32_LIMIT
  {
    if u < 0x8000_0000 then u else u - I32_LIMIT
  }

  /**
    One number of `deserializeNumbers`: `value = (value << 8) | byte` four
    times. The shifts and ors act on the 32-bit pattern, which is
    `DecodeBE` of the four bytes; the int holds it as two's complement.
  */
  function BytesInt(b: seq<byte>): i32
    requires |b| == 4
  {
    assert Pow256(4) == I32_LIMIT;
    ToSigned(DecodeBE(b))
  }

  /**
    `deserializeNumbers`: a number per four bytes. When the length is not a
    multiple of 4 the last group reads past the end of the buffer, which is
    undefined; the model reports it as `None`.
  */
  function DeserializeNumbers(b: seq<byte>): (r: Option<seq<i32>>)
    ensures r.Some? <==> |b| % 4 == 0
    ensures r.Some? ==> |r.value| == |b| / 4
  {
    if |b| == 0 then Some([])
    else if |b| < 4 then None
    else
      match DeserializeNumbers(b[4..])
      case None => None
      case Some(rest) => Some([BytesInt(b[..4])] + rest)
  }

  lemma DecodeBE4(b: seq<byte>)
    requires |b| == 4
    ensures DecodeBE(b) == ((b[0] as int * 256 + b[1]) * 256 + b[2]) * 256 + b[3]
  {
    assert b[..3][..2][..1] == [b[0]];
    assert b[..3][..2] == [b[0], b[1]];
    assert b[..3] == [b[0], b[1], b[2]];
    assert DecodeBE([b[0]]) == b[0];
    assert DecodeBE([b[0], b[1]]) == b[0] as int * 256 + b[1];
    assert DecodeBE([b[0], b[1], b[2]]) == (b[0] as int * 256 + b[1]) * 256 + b[2];
    assert DecodeBE(b) == DecodeBE([b[0], b[1], b[2]]) * 256 + b[3];
  }

  /** Each number is written most significant byte first, as its 32-bit two's-complement pattern. */
  lemma IntBytesBigEndian(num: i32)
    ensures DecodeBE(IntBytes(num)) == num % I32_LIMIT
  {
    var q1 := num / 256;
    var q2 := q1 / 256;
    var q3 := q2 / 256;
    var q4 := q3 / 256;
    var bs := IntBytes(num);
    DecodeBE4(bs);
    assert num == q4 * I32_LIMIT + DecodeBE(bs);
    DivModUnique(num, I32_LIMIT, q4, DecodeBE(bs));
  }

  /** Reading back the bytes of a number gives the number. */
  lemma BytesIntOfIntBytes(num: i32)
    ensures BytesInt(IntBytes(num)) == num
  {
    IntBytesBigEndian(num);
    assert Pow256(4) == I32_LIMIT;
    DivModUnique(num, I32_LIMIT, if num < 0 then -1 else 0, if num < 0 then num + I32_LIMIT else num);
  }

  /** Every group of four bytes is the serialisation of the number read from it. */
  lemma IntBytesOfBytesInt(b: seq<byte>)
    requires |b| == 4
    ensures IntBytes(BytesInt(b)) == b
  {
    var d := DecodeBE(b);
    DecodeBE4(b);
    var num := BytesInt(b);
    var k := if d < 0x8000_0000 then 0 else 1;
    assert num == d - k * I32_LIMIT;
    var q1 := ((b[0] as int) * 256 + b[1]) * 256 + b[2] - k * 0x100_0000;
    var q2 := (b[0] as int) * 256 + b[1] - k * 0x1_0000;
    var q3 := (b[0] as int) - k * 0x100;
    DivModUnique(num, 256, q1, b[3]);
    DivModUnique(q1, 256, q2, b[2]);
    DivModUnique(q2, 256, q3, b[1]);
    DivModUnique(q3, 256, -k, b[0]);
  }

  /** `deserializeNumbers(serializeNumbers(xs)) == xs`. */
  lemma {:induction false} DeserializeSerialize(numbers: seq<i32>)
    ensures DeserializeNumbers(SerializeNumbers(numbers)) == Some(numbers)
  {
    if |numbers| > 0 {
      var s := SerializeNumbers(numbers);
      DeserializeSerialize(numbers[1..]);
      assert s[..4] == IntBytes(numbers[0]);
      assert s[4..] == SerializeNumbers(numbers[1..]);
      BytesIntOfIntBytes(numbers[0]);
      assert [numbers[0]] + numbers[1..] == numbers;
    }
  }

  /** Conversely, every buffer of whole groups is the serialisation of what it reads as. */
  lemma {:induction false} SerializeDeserialize(b: seq<byte>)
    requires |b| % 4 == 0
    ensures SerializeNumbers(DeserializeNumbers(b).value) == b
    decreases |b|
  {
    if |b| > 0 {
      SerializeDeserialize(b[4..]);
      IntBytesOfBytesInt(b[..4]);
      var xs := DeserializeNumbers(b).value;
      assert xs[1..] == DeserializeNumbers(b[4..]).value;
      assert b == b[..4] + b[4..];
    }
  }
}
