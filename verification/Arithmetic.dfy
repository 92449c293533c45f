/** Facts about remainders, powers of two and bitwise conjunction that the other modules share. */
module Arithmetic {

  const WORD32 := 0x1_0000_0000
  const WORD64 := 0x1_0000_0000_0000_0000

  type byte = x: int | 0 <= x < 256

  function Min(a: int, b: int): int {
    if a <= b then a else b
  }

  lemma MulSign(d: int, m: int)
    requires m >= 0
    ensures d >= 1 ==> d * m >= m
    ensures d <= 0 ==> d * m <= 0
    ensures d <= -1 ==> d * m <= -m
  {
  }

  lemma ModUnique(a: int, m: int, q: int, r: int)
    requires 0 <= r < m
    requires a == q * m + r
    ensures a % m == r && a / m == q
  {
    var q', r' := a / m, a % m;
    assert (q - q') * m == r' - r;
    MulSign(q - q', m);
  }

  /** Two positions less than one lap apart never share a slot. */
  lemma SlotsDiffer(i: int, j: int, m: int)
    requires m > 0
    requires 0 < j - i < m
    ensures i % m != j % m
  {
    var d := j / m - i / m;
    assert j - i == d * m + (j % m - i % m);
    MulSign(d, m);
  }

  /** Advancing by less than one lap either stays in the lap or wraps exactly once. */
  lemma SlotAdvance(i: nat, k: nat, m: int)
    requires m > 0
    requires k <= m
    ensures (i + k) % m == if i % m + k < m then i % m + k else i % m + k - m
  {
    var q, r := i / m, i % m;
    if r + k < m {
      ModUnique(i + k, m, q, r + k);
    } else {
      assert (q + 1) * m == q * m + m;
      ModUnique(i + k, m, q + 1, r + k - m);
    }
  }

  /** Reducing by a multiple of the modulus first changes nothing. */
  lemma ModOfMod(a: nat, m: nat, c: nat)
    requires m > 0 && c > 0
    ensures m * c > 0
    ensures (a % (m * c)) % m == a % m
  {
    var big := m * c;
    assert big > 0 by { assert m * c >= m * 1; }
    var q := a / big;
    var s := a % big;
    assert a == q * big + s;
    assert q * big == (q * c) * m by { assert q * (m * c) == (q * c) * m; }
    assert s == (s / m) * m + s % m;
    assert (q * c) * m + (s / m) * m == (q * c + s / m) * m;
    ModUnique(a, m, q * c + s / m, s % m);
  }

  // ---------------------------------------------------------------- powers of two

  function Pow2(k: nat): (p: nat)
    ensures p >= 1
    ensures k < p
  {
    if k == 0 then 1 else 2 * Pow2(k - 1)
  }

  ghost predicate IsPow2(n: nat) {
    exists k: nat :: n == Pow2(k)
  }

  lemma {:induction false} Pow2Monotone(a: nat, b: nat)
    requires a <= b
    ensures Pow2(a) <= Pow2(b)
    ensures a < b ==> 2 * Pow2(a) <= Pow2(b)
    decreases b
  {
    if a < b {
      Pow2Monotone(a, b - 1);
    }
  }

  lemma Double(x: int, y: int)
    ensures x * (2 * y) == 2 * (x * y)
  {
  }

  lemma {:induction false} Pow2Product(a: nat, b: nat)
    ensures Pow2(a + b) == Pow2(a) * Pow2(b)
    decreases b
  {
    if b > 0 {
      Pow2Product(a, b - 1);
      Double(Pow2(a), Pow2(b - 1));
    }
  }

  lemma Pow2Words()
    ensures Pow2(31) == 0x8000_0000 && Pow2(32) == WORD32
    ensures Pow2(63) == 0x8000_0000_0000_0000 && Pow2(64) == WORD64
  {
    assert Pow2(8) == 256;
    Pow2Product(8, 8);
    Pow2Product(16, 16);
    Pow2Product(32, 32);
    assert Pow2(32) == 2 * Pow2(31);
    assert Pow2(64) == 2 * Pow2(63);
  }

  /** A power of two no larger than a word divides the word. */
  lemma Pow2Divides(k: nat, n: nat)
    requires k <= n
    ensures exists c: nat :: c > 0 && Pow2(n) == Pow2(k) * c
  {
    Pow2Product(k, n - k);
    assert Pow2(n) == Pow2(k) * Pow2(n - k);
  }

  // ---------------------------------------------------------------- bitwise conjunction

  /** Bitwise conjunction of two unsigned numbers, bit by bit. */
  function BitAnd(x: nat, y: nat): nat {
    if x == 0 || y == 0 then 0
    else 2 * BitAnd(x / 2, y / 2) + (if x % 2 == 1 && y % 2 == 1 then 1 else 0)
  }

  /** Masking with a power of two minus one is the remainder by that power. */
  lemma AndMask(x: nat, k: nat)
    ensures BitAnd(x, Pow2(k) - 1) == x % Pow2(k)
  {
    var q := MaskQuotient(x, k);
    ModUnique(x, Pow2(k), q, BitAnd(x, Pow2(k) - 1));
  }

  lemma {:induction false} MaskQuotient(x: nat, k: nat) returns (q: nat)
    ensures BitAnd(x, Pow2(k) - 1) < Pow2(k)
    ensures x == q * Pow2(k) + BitAnd(x, Pow2(k) - 1)
    decreases k
  {
    if k == 0 {
      q := x;
    } else {
      var p := Pow2(k - 1);
      q := MaskQuotient(x / 2, k - 1);
      AndOdd(x, p - 1);
      HalfStep(x, p, q, BitAnd(x / 2, p - 1));
    }
  }

  lemma HalfStep(x: nat, p: nat, q: nat, b: nat)
    requires b < p && x / 2 == q * p + b
    ensures 2 * b + x % 2 < 2 * p && x == q * (2 * p) + (2 * b + x % 2)
  {
  }

  lemma AndOdd(x: nat, y: nat)
    ensures BitAnd(x, 2 * y + 1) == 2 * BitAnd(x / 2, y) + x % 2
  {
  }

  /** Conjunction with a single bit isolates that bit. */
  lemma {:induction false} AndBit(k: nat, x: nat)
    ensures BitAnd(Pow2(k), x) == 0 <==> x / Pow2(k) % 2 == 0
    decreases k
  {
    if k == 0 {
      assert BitAnd(0, x / 2) == 0;
    } else {
      var p := Pow2(k - 1);
      AndBit(k - 1, x / 2);
      assert (2 * p) / 2 == p;
      DivDiv(x, p);
    }
  }

  lemma DivDiv(x: nat, p: nat)
    requires p > 0
    ensures x / (2 * p) == x / 2 / p
  {
    var q, r := x / 2 / p, x / 2 % p;
    assert x / 2 == q * p + r;
    assert x == q * (2 * p) + (2 * r + x % 2) by { assert q * (2 * p) == 2 * (q * p); }
    ModUnique(x, 2 * p, q, 2 * r + x % 2);
  }

  /** The usual single-bit test holds of exactly the powers of two. */
  lemma {:induction false} SingleBitTest(n: nat)
    requires n > 0
    ensures BitAnd(n, n - 1) == 0 <==> IsPow2(n)
    decreases n
  {
    if n == 1 {
      assert Pow2(0) == 1;
    } else if n % 2 == 1 {
      assert BitAnd(n, n - 1) == 2 * BitAnd(n / 2, (n - 1) / 2);
      SelfAnd(n / 2);
      forall k: nat ensures n != Pow2(k) {
        if k > 0 { assert Pow2(k) % 2 == 0; }
      }
    } else {
      assert BitAnd(n, n - 1) == 2 * BitAnd(n / 2, n / 2 - 1);
      SingleBitTest(n / 2);
      if IsPow2(n / 2) {
        var k: nat :| n / 2 == Pow2(k);
        assert n == Pow2(k + 1);
      }
      if IsPow2(n) {
        var k: nat :| n == Pow2(k);
        assert n / 2 == Pow2(k - 1);
      }
    }
  }

  lemma {:induction false} SelfAnd(n: nat)
    ensures BitAnd(n, n) == n
    decreases n
  {
    if n > 0 {
      SelfAnd(n / 2);
    }
  }
}
