/**
 Machine words.  Rust and Go integers are modelled as mathematical integers with an
 explicit range; every place where the code wraps, truncates or masks says so.
 */
module Words {

  const TWO_24: int := 0x100_0000
  const TWO_32: int := 0x1_0000_0000
  const TWO_63: int := 0x8000_0000_0000_0000
  const TWO_64: int := 0x1_0000_0000_0000_0000

  type byte = x: int | 0 <= x < 256
  type u32 = x: int | 0 <= x < 0x1_0000_0000
  type u64 = x: int | 0 <= x < 0x1_0000_0000_0000_0000

  function Wrap32(x: int): u32 { x % TWO_32 }

  function Wrap64(x: int): u64 { x % TWO_64 }

  lemma WrapExact(x: u64)
    ensures Wrap64(x) == x
  {
  }

  lemma WrapAdds(a: int, b: int)
    ensures Wrap64(Wrap64(a) + b) == Wrap64(a + b)
  {
  }

  /** Reads the low 64 bits of `x` as a two's-complement number, as Go's int64 does. */
  function AsInt64(x: int): int {
    (x + TWO_63) % TWO_64 - TWO_63
  }

  function Min(a: int, b: int): int { if a <= b then a else b }

  // ---------- Powers and bit masks ----------

  function Pow2(n: nat): (p: nat)
    ensures p >= 1
  {
    if n == 0 then 1 else 2 * Pow2(n - 1)
  }

  lemma Pow2Monotonic(m: nat, n: nat)
    requires m <= n
    ensures Pow2(m) <= Pow2(n)
    decreases n
  {
    if m < n {
      Pow2Monotonic(m, n - 1);
    }
  }

  /** Bitwise conjunction, one bit at a time. */
  function BitAnd(a: nat, b: nat): nat {
    if a == 0 || b == 0 then 0 else 2 * BitAnd(a / 2, b / 2) + (a % 2) * (b % 2)
  }

  /** Bitwise disjunction, one bit at a time. */
  function BitOr(a: nat, b: nat): nat
    decreases a + b
  {
    if a == 0 then b
    else if b == 0 then a
    else 2 * BitOr(a / 2, b / 2) + (if a % 2 == 1 || b % 2 == 1 then 1 else 0)
  }

  /** Bitwise complement of a 64-bit word. */
  function Not64(m: u64): u64 { TWO_64 - 1 - m }

  lemma NextMultiple(a: int, b: int, d: int)
    requires a > b && d >= 0
    ensures a * d >= b * d + d
  {
    assert a * d == (a - b - 1) * d + b * d + d;
    assert (a - b - 1) * d >= 0;
  }

  /** Uniqueness of quotient and remainder. */
  lemma QuotientRemainder(x: int, d: int, q: int, r: int)
    requires d > 0 && 0 <= r < d && x == q * d + r
    ensures x / d == q && x % d == r
  {
    var q', r' := x / d, x % d;
    assert x == q' * d + r' && 0 <= r' < d;
    if q' > q {
      NextMultiple(q', q, d);
    } else if q' < q {
      NextMultiple(q, q', d);
    }
  }

  lemma HalveMod(x: nat, p: nat)
    requires p > 0
    ensures x % (2 * p) == 2 * ((x / 2) % p) + x % 2
  {
    var h := x / 2;
    var q, r := h / p, h % p;
    assert h == q * p + r;
    assert x == q * (2 * p) + (2 * r + x % 2);
    QuotientRemainder(x, 2 * p, q, 2 * r + x % 2);
  }

  lemma BitAndStep(x: nat, m: nat)
    ensures BitAnd(x, m) == 2 * BitAnd(x / 2, m / 2) + (x % 2) * (m % 2)
  {
  }

  lemma {:induction false} AllOnesKeeps(x: nat, n: nat)
    requires x < Pow2(n)
    ensures BitAnd(x, Pow2(n) - 1) == x
  {
    if n > 0 {
      AllOnesKeeps(x / 2, n - 1);
      BitAndStep(x, Pow2(n) - 1);
      assert (Pow2(n) - 1) / 2 == Pow2(n - 1) - 1 && (Pow2(n) - 1) % 2 == 1;
    }
  }

  /** Masking an n-bit word with all bits from position k up clears exactly the low k bits. */
  lemma {:induction false} MaskClearsLowBits(x: nat, k: nat, n: nat)
    requires k <= n && x < Pow2(n)
    ensures Pow2(k) <= Pow2(n)
    ensures BitAnd(x, Pow2(n) - Pow2(k)) == x - x % Pow2(k)
    decreases n
  {
    Pow2Monotonic(k, n);
    if k == 0 {
      AllOnesKeeps(x, n);
    } else {
      var p, q := Pow2(n - 1), Pow2(k - 1);
      MaskClearsLowBits(x / 2, k - 1, n - 1);
      BitAndStep(x, 2 * p - 2 * q);
      assert (2 * p - 2 * q) / 2 == p - q;
      HalveMod(x, q);
    }
  }

  lemma BitOrStep(a: nat, b: nat)
    ensures BitOr(a, b) == 2 * BitOr(a / 2, b / 2) + (if a % 2 == 1 || b % 2 == 1 then 1 else 0)
  {
  }

  lemma Double(q: nat, p: nat)
    ensures q * (2 * p) == 2 * (q * p)
  {
  }

  /** Setting low bits of a word whose low k bits are clear is an addition. */
  lemma {:induction false} OrFillsLowBits(q: nat, b: nat, k: nat)
    requires b < Pow2(k)
    ensures BitOr(q * Pow2(k), b) == q * Pow2(k) + b
    decreases k
  {
    if k > 0 {
      var half := q * Pow2(k - 1);
      Double(q, Pow2(k - 1));
      OrFillsLowBits(q, b / 2, k - 1);
      BitOrStep(2 * half, b);
    }
  }

  lemma {:induction false} Pow2Sum(m: nat, n: nat)
    ensures Pow2(m + n) == Pow2(m) * Pow2(n)
    decreases m
  {
    if m > 0 {
      var a, b := Pow2(m - 1), Pow2(n);
      Pow2Sum(m - 1, n);
      assert Pow2(m) == 2 * a && Pow2(m + n) == 2 * Pow2(m - 1 + n);
      hide Pow2;
      DoubledProduct(a, b);
    }
  }

  lemma DoubledProduct(a: int, b: int)
    ensures 2 * (a * b) == (2 * a) * b
  {
  }

  lemma PowersOfInterest()
    ensures Pow2(12) == 4096 && Pow2(24) == TWO_24 && Pow2(32) == TWO_32 && Pow2(64) == TWO_64
    ensures Pow2(36) == 0x10_0000_0000 && Pow2(37) == 0x20_0000_0000
  {
    assert Pow2(8) == 256;
    assert Pow2(16) == 65536;
    assert Pow2(12) == 4096;
    assert Pow2(24) == TWO_24;
    Pow2Sum(24, 12);
    Pow2Sum(16, 16);
    Pow2Sum(32, 32);
  }

  // ---------- Big-endian integers ----------

  function Pow256(w: nat): (p: nat)
    ensures p >= 1
  {
    if w == 0 then 1 else 256 * Pow256(w - 1)
  }

  /** The low `w` bytes of n, most significant first. */
  function BigEndian(n: nat, w: nat): (s: seq<byte>)
    ensures |s| == w
  {
    if w == 0 then [] else BigEndian(n / 256, w - 1) + [n % 256]
  }

  function FromBigEndian(s: seq<byte>): nat {
    if s == [] then 0 else FromBigEndian(s[..|s| - 1]) * 256 + s[|s| - 1]
  }

  lemma {:induction false} BigEndianRoundTrip(n: nat, w: nat)
    requires n < Pow256(w)
    ensures FromBigEndian(BigEndian(n, w)) == n
  {
    if w > 0 {
      BigEndianRoundTrip(n / 256, w - 1);
      assert BigEndian(n, w)[..w - 1] == BigEndian(n / 256, w - 1);
    }
  }

  lemma {:induction false} FromBigEndianBound(s: seq<byte>)
    ensures FromBigEndian(s) < Pow256(|s|)
  {
    if s != [] {
      FromBigEndianBound(s[..|s| - 1]);
    }
  }

  lemma Bytes4(n: u32)
    ensures FromBigEndian(BigEndian(n, 4)) == n
  {
    assert Pow256(4) == TWO_32;
    BigEndianRoundTrip(n, 4);
  }

  lemma Bytes8(n: u64)
    ensures FromBigEndian(BigEndian(n, 8)) == n
  {
    assert Pow256(8) == TWO_64;
    BigEndianRoundTrip(n, 8);
  }
}
