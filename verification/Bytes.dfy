/** Bytes, machine-word bit operations, powers of two and little-endian numbers. */
module Bytes {

  newtype Byte = b: int | 0 <= b < 256

  type Bytes = seq<Byte>

  /** A hash value or a tree node: exactly 32 bytes. */
  type Digest = d: Bytes | |d| == 32 witness Zeros(32)

  datatype Option<+T> = None | Some(value: T)

  datatype Result<+T> = Ok(value: T) | Err(message: string)

  /** The size of a tree node in bytes. */
  const NODE_SIZE := 32

  const TWO_32 := 0x1_0000_0000
  const TWO_64 := 0x1_0000_0000_0000_0000

  /** A 64-bit unsigned machine word. */
  type U64 = n: nat | n < TWO_64

  /** The 64-bit word an arithmetic result is cut down to, wrapping both ways. */
  function Word(n: int): U64 {
    n % TWO_64
  }

  lemma WordAdd(a: int, b: int)
    ensures Word(Word(a) + b) == Word(a + b)
  {
  }

  lemma WordFits(a: nat)
    requires a < TWO_64
    ensures Word(a) == a
  {
  }

  function Val(b: Byte): int {
    b as int
  }

  function Zeros(n: nat): (z: Bytes)
    ensures |z| == n
    ensures forall i :: 0 <= i < n ==> z[i] == 0
  {
    seq(n, _ => 0)
  }

  /** Equality of two values taken whole, not element by element. */
  predicate Same<T(==)>(a: T, b: T) {
    a == b
  }

  function Min(a: int, b: int): int {
    if a <= b then a else b
  }

  // ----- powers of two and division

  function Pow2(n: nat): (p: nat)
    ensures p > 0
  {
    if n == 0 then 1 else 2 * Pow2(n - 1)
  }

  lemma {:induction false} Pow2Add(a: nat, b: nat)
    ensures Pow2(a + b) == Pow2(a) * Pow2(b)
  {
    if a > 0 {
      Pow2Add(a - 1, b);
      MulAssoc(2, Pow2(a - 1), Pow2(b));
    }
  }

  lemma {:induction false} Pow2Monotone(a: nat, b: nat)
    requires a <= b
    ensures Pow2(a) <= Pow2(b)
    ensures a < b ==> 2 * Pow2(a) <= Pow2(b)
    decreases b
  {
    if a < b {
      Pow2Monotone(a, b - 1);
    }
  }

  lemma SmallPowers()
    ensures Pow2(1) == 2 && Pow2(2) == 4 && Pow2(3) == 8 && Pow2(4) == 16
    ensures Pow2(5) == 32 && Pow2(6) == 64 && Pow2(7) == 128 && Pow2(8) == 256
  {
  }

  lemma MulAssoc(a: int, b: int, c: int)
    ensures a * (b * c) == a * b * c
  {
  }

  lemma MulMonotone(a: int, b: int, c: int)
    requires a <= b && c >= 0
    ensures a * c <= b * c
  {
  }

  /** A quotient is determined by any representation with a remainder below the divisor. */
  lemma DivUnique(x: int, d: int, q: int, r: int)
    requires d > 0 && 0 <= r < d
    requires x == q * d + r
    ensures x / d == q && x % d == r
  {
    var e := x / d - q;
    assert x == (x / d) * d + x % d;
    assert e * d == r - x % d by {
      assert (x / d) * d - q * d == e * d;
    }
    if e >= 1 {
      MulMonotone(1, e, d);
    } else if e <= -1 {
      MulMonotone(1, -e, d);
    }
  }

  /** Dividing twice is dividing by the product. */
  lemma DivDiv(x: nat, a: int, b: int)
    requires a > 0 && b > 0
    ensures a * b > 0 && x / (a * b) == x / a / b
  {
    var q, r := x / a, x % a;
    var q', r' := q / b, q % b;
    assert x == q * a + r && q == q' * b + r';
    assert q * a == q' * (a * b) + r' * a by {
      assert q * a == q' * b * a + r' * a;
      assert q' * b * a == q' * (a * b);
    }
    assert r' * a + r < a * b by {
      MulMonotone(r', b - 1, a);
      assert (b - 1) * a == a * b - a;
    }
    assert r' * a >= 0;
    DivUnique(x, a * b, q', r' * a + r);
  }

  // ----- bit operations on non-negative machine words, by their binary digits

  function Or(x: nat, y: nat): nat
    decreases x + y
  {
    if x == 0 then y else if y == 0 then x
    else (if x % 2 == 1 || y % 2 == 1 then 1 else 0) + 2 * Or(x / 2, y / 2)
  }

  function And(x: nat, y: nat): nat
  {
    if x == 0 || y == 0 then 0
    else (if x % 2 == 1 && y % 2 == 1 then 1 else 0) + 2 * And(x / 2, y / 2)
  }

  /** x << k on a byte: bits pushed past the eighth are lost. */
  function Shl(x: Byte, k: nat): Byte
  {
    (Val(x) * Pow2(k) % 256) as Byte
  }

  /** x >> k. */
  function Shr(x: nat, k: nat): (y: nat)
    ensures y <= x
    decreases k
  {
    if k == 0 then x else Shr(x / 2, k - 1)
  }

  /** x | y on bytes. */
  function ByteOr(x: Byte, y: Byte): Byte
  {
    OrBound(Val(x), Val(y), 8);
    SmallPowers();
    Or(Val(x), Val(y)) as Byte
  }

  /** x >> k on a byte. */
  function ByteShr(x: Byte, k: nat): Byte {
    Shr(Val(x), k) as Byte
  }

  /** x & m on bytes. */
  function ByteAnd(x: Byte, m: Byte): Byte
  {
    AndBound(Val(x), Val(m));
    And(Val(x), Val(m)) as Byte
  }

  lemma {:induction false} OrBound(x: nat, y: nat, k: nat)
    requires x < Pow2(k) && y < Pow2(k)
    ensures Or(x, y) < Pow2(k)
  {
    if k > 0 {
      OrBound(x / 2, y / 2, k - 1);
    }
  }

  lemma {:induction false} AndBound(x: nat, y: nat)
    ensures And(x, y) <= x
  {
    if x > 0 && y > 0 {
      AndBound(x / 2, y / 2);
    }
  }

  ghost predicate LowBitsZero(x: nat, k: nat)
  {
    k == 0 || (x % 2 == 0 && LowBitsZero(x / 2, k - 1))
  }

  lemma LowBitsDouble(x: nat, k: nat)
    requires LowBitsZero(x, k)
    ensures LowBitsZero(2 * x, k + 1)
  {
  }

  lemma LowBitsOfMultiple(q: nat)
    ensures LowBitsZero(4 * q, 2)
    ensures LowBitsZero(16 * q, 4)
    ensures LowBitsZero(64 * q, 6)
  {
    LowBitsDouble(q, 0); LowBitsDouble(2 * q, 1);
    LowBitsDouble(4 * q, 2); LowBitsDouble(8 * q, 3);
    LowBitsDouble(16 * q, 4); LowBitsDouble(32 * q, 5);
  }

  /** Multiplying a byte by d keeps its low bits when d * m == 256. */
  lemma TimesMod(v: nat, d: nat, m: nat)
    requires d > 0 && m > 0 && d * m == 256
    ensures (v * d) % 256 == d * (v % m) && (v * d) / 256 == v / m
  {
    var q, r := v / m, v % m;
    assert v == q * m + r;
    assert v * d == q * (d * m) + r * d by {
      assert v * d == q * m * d + r * d;
      assert q * m * d == q * (d * m);
    }
    MulMonotone(r, m - 1, d);
    assert (m - 1) * d == d * m - d;
    assert r * d == d * r >= 0;
    DivUnique(v * d, 256, q, r * d);
  }

  lemma ShlValues(x: Byte)
    ensures Val(Shl(x, 2)) == 4 * (Val(x) % 64)
    ensures Val(Shl(x, 4)) == 16 * (Val(x) % 16)
    ensures Val(Shl(x, 6)) == 64 * (Val(x) % 4)
  {
    SmallPowers();
    TimesMod(Val(x), 4, 64);
    TimesMod(Val(x), 16, 16);
    TimesMod(Val(x), 64, 4);
  }

  lemma ShrTwo(x: nat)
    ensures Shr(x, 2) == x / 4
  {
  }

  lemma {:induction false} ShrSplit(x: nat, a: nat, b: nat)
    ensures Shr(x, a + b) == Shr(Shr(x, a), b)
    decreases a
  {
    if a > 0 {
      ShrSplit(x / 2, a - 1, b);
    }
  }

  lemma ShrValues(x: nat)
    ensures Shr(x, 2) == x / 4
    ensures Shr(x, 4) == x / 16
    ensures Shr(x, 6) == x / 64
  {
    ShrSplit(x, 2, 2);
    ShrSplit(x, 4, 2);
    ShrTwo(x);
    ShrTwo(x / 4);
    ShrTwo(x / 16);
  }

  /** Or of words with no common bit is their sum. */
  lemma {:induction false} OrDisjoint(x: nat, y: nat, k: nat)
    requires LowBitsZero(x, k) && Shr(y, k) == 0
    ensures Or(x, y) == x + y
  {
    if k > 0 && x > 0 && y > 0 {
      OrDisjoint(x / 2, y / 2, k - 1);
    }
  }

  lemma AndStep(x: nat, m: nat)
    ensures And(x, 2 * m + 1) == x % 2 + 2 * And(x / 2, m)
  {
  }

  lemma ModStep(x: nat, p: nat)
    requires p > 0
    ensures x % (2 * p) == x % 2 + 2 * (x / 2 % p)
  {
    var q, r := x / 2 / p, x / 2 % p;
    assert x / 2 == q * p + r;
    assert 2 * (q * p) == q * (2 * p);
    DivUnique(x, 2 * p, q, x % 2 + 2 * r);
  }

  /** Masking with k ones keeps the low k bits. */
  lemma {:induction false} AndLowBits(x: nat, k: nat)
    ensures And(x, Pow2(k) - 1) == x % Pow2(k)
  {
    if k > 0 {
      var p := Pow2(k - 1);
      AndLowBits(x / 2, k - 1);
      AndStep(x, p - 1);
      ModStep(x, p);
    }
  }

  /** Masking with 0x3F keeps the low six bits. */
  lemma AndSixBits(x: nat)
    ensures And(x, 0x3F) == x % 64
  {
    SmallPowers();
    AndLowBits(x, 6);
  }

  // ----- little-endian numbers

  /** The number whose base-256 digits, least significant first, are s. */
  function LE(s: Bytes): nat
  {
    if |s| == 0 then 0 else Val(s[0]) + 256 * LE(s[1..])
  }

  /** The first len base-256 digits of n, least significant first. */
  function ToLE(n: nat, len: nat): (s: Bytes)
    ensures |s| == len
  {
    if len == 0 then [] else [(n % 256) as Byte] + ToLE(n / 256, len - 1)
  }

  lemma Pow2Eight(n: nat)
    requires n > 0
    ensures Pow2(8 * n) == 256 * Pow2(8 * (n - 1))
  {
    SmallPowers();
    Pow2Add(8, 8 * (n - 1));
  }

  lemma {:induction false} LEAppend(a: Bytes, b: Bytes)
    ensures LE(a + b) == LE(a) + Pow2(8 * |a|) * LE(b)
  {
    if |a| == 0 {
      assert a + b == b;
    } else {
      LEAppend(a[1..], b);
      assert (a + b)[1..] == a[1..] + b;
      Pow2Eight(|a|);
      MulAssoc(256, Pow2(8 * (|a| - 1)), LE(b));
    }
  }

  lemma {:induction false} LEBound(s: Bytes)
    ensures LE(s) < Pow2(8 * |s|)
  {
    if |s| > 0 {
      LEBound(s[1..]);
      Pow2Eight(|s|);
    }
  }

  lemma {:induction false} LEZeros(s: Bytes)
    requires forall i :: 0 <= i < |s| ==> s[i] == 0
    ensures LE(s) == 0
  {
    if |s| > 0 {
      LEZeros(s[1..]);
    }
  }

  /** Splitting off the most significant byte. */
  lemma LELastByte(s: Bytes)
    requires |s| > 0
    ensures LE(s) == LE(s[..|s| - 1]) + Pow2(8 * (|s| - 1)) * Val(s[|s| - 1])
  {
    var last := [s[|s| - 1]];
    assert s == s[..|s| - 1] + last;
    assert LE(last) == Val(last[0]) + 256 * LE(last[1..]);
    LEAppend(s[..|s| - 1], last);
  }

  lemma {:induction false} ToLEOfLE(s: Bytes)
    ensures ToLE(LE(s), |s|) == s
  {
    if |s| > 0 {
      DivUnique(LE(s), 256, LE(s[1..]), Val(s[0]));
      ToLEOfLE(s[1..]);
    }
  }

  lemma {:induction false} LEOfToLE(n: nat, len: nat)
    requires n < Pow2(8 * len)
    ensures LE(ToLE(n, len)) == n
  {
    if len > 0 {
      Pow2Eight(len);
      LEOfToLE(n / 256, len - 1);
      assert ToLE(n, len)[1..] == ToLE(n / 256, len - 1);
    }
  }
}
