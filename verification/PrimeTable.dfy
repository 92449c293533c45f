/**
 The table of moduli of the shared-memory hash: the largest primes of the form 6t-1 and 6t+1
 below a limit, found by trial division with numbers of the same form.
 */
module PrimeTable {
  import opened Arithmetic

  predicate Divides(d: nat, n: nat) {
    d > 0 && n % d == 0
  }

  predicate Prime(n: nat) {
    n >= 2 && forall d :: 2 <= d < n ==> !Divides(d, n)
  }

  // ---------------------------------------------------------------- divisors

  lemma DividesTransitive(e: nat, f: nat, n: nat)
    requires Divides(e, f) && Divides(f, n)
    ensures Divides(e, n)
  {
    var a, b := f / e, n / f;
    assert n == b * f && f == a * e;
    assert n == (b * a) * e by { assert b * (a * e) == (b * a) * e; }
    ModUnique(n, e, b * a, 0);
  }

  function LeastFactor(n: nat, from: nat): (f: nat)
    requires 2 <= from <= n && forall d :: 2 <= d < from ==> !Divides(d, n)
    ensures from <= f <= n && Divides(f, n)
    ensures forall d :: 2 <= d < f ==> !Divides(d, n)
    decreases n - from
  {
    ModUnique(n, n, 1, 0);
    if Divides(from, n) then from else LeastFactor(n, from + 1)
  }

  /** A composite number has a prime factor that is at most its square root. */
  lemma SmallFactor(n: nat) returns (f: nat)
    requires n >= 2 && !Prime(n)
    ensures Prime(f) && Divides(f, n) && f * f <= n
  {
    f := LeastFactor(n, 2);
    forall d | 2 <= d < f ensures !Divides(d, f) {
      if Divides(d, f) { DividesTransitive(d, f, n); }
    }
    var q := n / f;
    assert n == q * f;
    Cofactor(n, f, q);
  }

  lemma Cofactor(n: nat, f: nat, q: nat)
    requires n >= 2 && !Prime(n) && f >= 2 && n == q * f
    requires forall d :: 2 <= d < f ==> !Divides(d, n)
    ensures f * f <= n
  {
    if q < f {
      var d :| 2 <= d < n && Divides(d, n);
      if q >= 2 {
        ModUnique(n, q, f, 0);
        assert Divides(q, n);
      }
    } else {
      assert (q - f) * f >= 0;
    }
  }

  // ---------------------------------------------------------------- numbers beside multiples of six

  /** A prime factor of a number beside a multiple of six is itself beside one. */
  lemma FactorShape(n: nat, f: nat)
    requires n % 6 == 1 || n % 6 == 5
    requires f >= 2 && Divides(f, n)
    ensures f % 6 == 1 || f % 6 == 5
  {
    if f % 6 != 1 && f % 6 != 5 {
      EvenOrTriple(f);
      DividesTransitive(if f % 2 == 0 then 2 else 3, f, n);
      BesideSix(n);
    }
  }

  lemma BesideSix(n: nat)
    requires n % 6 == 1 || n % 6 == 5
    ensures n % 2 == 1 && n % 3 != 0
  {
  }

  lemma MultipleOfFive(n: nat)
    requires n > 5 && n % 5 == 0
    ensures !Prime(n)
  {
    assert Divides(5, n);
  }

  // ---------------------------------------------------------------- the trial division

  /** Divisor 6p+1 is tried unless the last digit of p shows it to be a multiple of five. */
  predicate TriesAbove(p: nat) { p % 10 != 4 && p % 10 != 9 }

  predicate TriesBelow(p: nat) { p % 10 != 6 }

  /** Round p of the trial division finds a divisor of n. */
  predicate Hit(n: nat, p: nat)
    requires p >= 1
  {
    (TriesAbove(p) && Divides(6 * p + 1, n)) || (TriesBelow(p) && Divides(6 * p - 1, n))
  }

  /** No round before p finds a divisor of n. */
  ghost predicate NoHitBefore(n: nat, p: nat) {
    forall q: nat :: 1 <= q < p ==> !Hit(n, q)
  }

  /** p*6 <= sqrt(m+1)+2, the guard of the inner loop, over the integers. */
  predicate InRange(p: nat, m: nat) {
    6 * p < 2 || (6 * p - 2) * (6 * p - 2) <= m + 1
  }

  lemma InRangeDown(p: nat, q: nat, m: nat)
    requires q <= p && InRange(p, m)
    ensures InRange(q, m)
  {
    if 6 * q >= 2 {
      assert (6 * p - 2) * (6 * p - 2) - (6 * q - 2) * (6 * q - 2) == (6 * p - 6 * q) * (6 * p + 6 * q - 4);
      assert (6 * p - 6 * q) * (6 * p + 6 * q - 4) >= 0;
    }
  }

  /** A divisor the loop tries is a proper one. */
  lemma TriedIsProper(p: nat, m: nat)
    requires p >= 1 && InRange(p, m)
    ensures 6 * p + 1 < m - 1
  {
  }

  lemma HitIsComposite(n: nat, p: nat, m: nat)
    requires p >= 1 && InRange(p, m) && n >= m - 1 && Hit(n, p)
    ensures !Prime(n)
  {
    TriedIsProper(p, m);
  }

  /** Trying the multiples of six up to the limit is enough, despite the skipped divisors. */
  lemma CompositeIsHit(n: nat, m: nat) returns (p: nat)
    requires n >= 5 && (n == m + 1 || n == m - 1) && m % 6 == 0 && m > 0 && !Prime(n)
    ensures p >= 1 && InRange(p, m) && Hit(n, p)
  {
    var f := SmallFactor(n);
    FactorShape(n, f);
    p := FactorRound(f);
    SquareBelow(6 * p - 2, f, m + 1);
  }

  /** The round in which a prime of the right form is tried. */
  lemma FactorRound(f: nat) returns (p: nat)
    requires f >= 2 && Prime(f) && (f % 6 == 1 || f % 6 == 5)
    ensures p >= 1
    ensures (f == 6 * p + 1 && TriesAbove(p)) || (f == 6 * p - 1 && TriesBelow(p))
  {
    hide Prime;
    p := if f % 6 == 1 then f / 6 else f / 6 + 1;
    LastDigits(p);
    assert f == 6 * p + 1 || f == 6 * p - 1;
    if f % 5 == 0 && f > 5 {
      MultipleOfFive(f);
    }
  }

  lemma SquareBelow(a: int, f: int, bound: int)
    requires 0 <= a <= f && f * f <= bound
    ensures a * a <= bound
  {
  }

  /** The tests on the last digit of t before any division. */
  lemma DigitFilters(t: nat)
    requires t >= 1
    ensures t % 10 == 4 || t % 10 == 9 ==> !Prime(6 * t + 1)
    ensures t % 10 == 6 ==> !Prime(6 * t - 1)
  {
    hide Prime;
    LastDigits(t);
    if t % 10 == 4 || t % 10 == 9 {
      MultipleOfFive(6 * t + 1);
    }
    if t % 10 == 6 {
      MultipleOfFive(6 * t - 1);
    }
  }

  lemma LastDigits(t: nat)
    ensures t % 10 == 4 || t % 10 == 9 ==> (6 * t + 1) % 5 == 0
    ensures t % 10 == 6 ==> (6 * t - 1) % 5 == 0
  {
  }

  /** One round of the outer loop for t >= 1: i and j are the primality flags of 6t-1 and 6t+1. */
  method TestPair(t: nat) returns (i: bool, j: bool)
    requires t >= 1
    ensures i == Prime(6 * t - 1) && j == Prime(6 * t + 1)
  {
    i, j := true, true;
    var k := t % 10;
    var m := 6 * t;
    DigitFilters(t);
    if k == 4 || k == 9 || (m + 1) % 3 == 0 { j := false; }
    if k == 6 || (m - 1) % 3 == 0 { i := false; }
    var p := 1;
    while InRange(p, m)
      invariant p >= 1
      invariant !i ==> !Prime(m - 1)
      invariant !j ==> !Prime(m + 1)
      invariant i ==> NoHitBefore(m - 1, p)
      invariant j ==> NoHitBefore(m + 1, p)
      decreases m - p
    {
      TriedIsProper(p, m);
      ghost var i0, j0 := i, j;
      var n := p * 6;
      var digit := p % 10;
      var a, b := !(digit == 4 || digit == 9), digit != 6;
      if i {
        if a { if (m - 1) % (n + 1) == 0 { i := false; } }
        if b { if (m - 1) % (n - 1) == 0 { i := false; } }
      }
      if j {
        if a { if (m + 1) % (n + 1) == 0 { j := false; } }
        if b { if (m + 1) % (n - 1) == 0 { j := false; } }
      }
      RoundTests(p, m);
      if !i && !j {
        break;
      }
      p := p + 1;
    }
    if i { NoHitIsPrime(m - 1, m, p); }
    if j { NoHitIsPrime(m + 1, m, p); }
  }

  lemma RoundTests(p: nat, m: nat)
    requires p >= 1 && InRange(p, m)
    ensures Hit(m - 1, p) ==> !Prime(m - 1)
    ensures Hit(m + 1, p) ==> !Prime(m + 1)
  {
    TriedIsProper(p, m);
    if Hit(m - 1, p) { HitIsComposite(m - 1, p, m); }
    if Hit(m + 1, p) { HitIsComposite(m + 1, p, m); }
  }

  lemma NoHitIsPrime(n: nat, m: nat, p: nat)
    requires n >= 5 && (n == m + 1 || n == m - 1) && m % 6 == 0 && m > 0
    requires !InRange(p, m) && NoHitBefore(n, p)
    ensures Prime(n)
  {
    if !Prime(n) {
      var q := CompositeIsHit(n, m);
      if p <= q { InRangeDown(q, p, m); }
    }
  }

  // ---------------------------------------------------------------- the table

  /** All primes from 5 up to 6t+1, largest first. */
  ghost function PrimesDown(t: nat): (r: seq<nat>)
  {
    if t == 0 then []
    else (if Prime(6 * t + 1) then [6 * t + 1] else [])
         + (if Prime(6 * t - 1) then [6 * t - 1] else [])
         + PrimesDown(t - 1)
  }

  /** The list misses no prime, holds nothing else and strictly decreases. */
  lemma {:induction false} PrimesDownComplete(t: nat)
    ensures forall n: nat :: n in PrimesDown(t) <==> Prime(n) && 5 <= n <= 6 * t + 1
    ensures forall x, y :: 0 <= x < y < |PrimesDown(t)| ==> PrimesDown(t)[x] > PrimesDown(t)[y]
    decreases t
  {
    if t > 0 {
      hide Prime;
      PrimesDownComplete(t - 1);
      var rest := PrimesDown(t - 1);
      forall i | 0 <= i < |rest| ensures rest[i] <= 6 * (t - 1) + 1 {
        assert rest[i] in rest;
      }
      forall n: nat | 6 * t - 5 < n <= 6 * t + 1 && n >= 5 && n != 6 * t - 1 && n != 6 * t + 1 ensures !Prime(n) {
        OffSixNotPrime(n);
      }
    }
  }

  lemma OffSixNotPrime(n: nat)
    requires n >= 4 && n % 6 != 1 && n % 6 != 5
    ensures !Prime(n)
  {
    hide Prime;
    EvenOrTriple(n);
    ProperDivisor(if n % 2 == 0 then 2 else 3, n);
  }

  lemma EvenOrTriple(n: nat)
    requires n % 6 != 1 && n % 6 != 5
    ensures n % 2 == 0 || n % 3 == 0
  {
    var q := n / 6;
    if n == 6 * q + 3 {
      ModUnique(n, 3, 2 * q + 1, 0);
    } else {
      ModUnique(n, 2, 3 * q + n % 6 / 2, 0);
    }
  }

  lemma ProperDivisor(d: nat, n: nat)
    requires 2 <= d < n && n % d == 0
    ensures !Prime(n)
  {
    assert Divides(d, n);
  }

  /** The table holds the largest primes from 5 up to top: decreasing, and no prime in between is missing. */
  ghost predicate LargestPrimes(table: seq<nat>, top: nat) {
    && (forall x, y :: 0 <= x < y < |table| ==> table[x] > table[y])
    && (forall x :: 0 <= x < |table| ==> Prime(table[x]) && 5 <= table[x] <= top)
    && (forall n: nat, x :: Prime(n) && 5 <= n <= top && 0 <= x < |table| && n > table[x] ==> n in table)
  }

  lemma PrefixIsLargest(t: nat, k: nat)
    requires k <= |PrimesDown(t)|
    ensures LargestPrimes(PrimesDown(t)[..k], 6 * t + 1)
  {
    hide Prime;
    hide PrimesDown;
    PrimesDownComplete(t);
    var all := PrimesDown(t);
    forall x | 0 <= x < k ensures Prime(all[x]) && 5 <= all[x] <= 6 * t + 1 {
      assert all[x] in all;
    }
    forall n: nat, x | Prime(n) && 5 <= n <= 6 * t + 1 && 0 <= x < k && n > all[x] ensures n in all[..k] {
      var y :| 0 <= y < |all| && all[y] == n;
      assert y < x;
      assert all[..k][y] == n;
    }
  }

  lemma OneIsNoPrime(table: seq<nat>, k: nat, top: nat)
    requires k < |table| && table[k] == 1
    ensures !LargestPrimes(table, top)
  {
  }

  // ---------------------------------------------------------------- the promised limit

  /** Limits with no prime between them have the same largest primes. */
  lemma SameLimit(table: seq<nat>, low: nat, high: nat)
    requires low <= high && forall n: nat :: low < n <= high ==> !Prime(n)
    ensures LargestPrimes(table, low) <==> LargestPrimes(table, high)
  {
    hide Prime;
  }

  /** A prime limit heads the table. */
  lemma LimitListed(table: seq<nat>, top: nat)
    requires LargestPrimes(table, top) && table != [] && Prime(top) && top >= 5
    ensures table[0] == top
  {
    hide Prime;
    if table[0] < top {
      var x :| 0 <= x < |table| && table[x] == top;
    }
  }

  lemma NoPrimeAfter(q: nat, n: nat)
    requires 6 * q + 1 < n < 6 * q + 5 && q >= 1
    ensures !Prime(n)
  {
    ModUnique(n, 6, q, n - 6 * q);
    OffSixNotPrime(n);
  }

  /** Against the limit maxLine itself: the filled table lists maxLine + 1 or misses maxLine in exactly one
      case each, and otherwise holds the largest primes up to maxLine. */
  lemma UpToLimitIff(table: seq<nat>, maxLine: nat)
    requires LargestPrimes(table, 6 * (maxLine / 6) + 1) && table != []
    ensures (forall x :: 0 <= x < |table| ==> table[x] <= maxLine) <==> !(maxLine % 6 == 0 && Prime(maxLine + 1))
    ensures LargestPrimes(table, maxLine)
            <==> !(maxLine % 6 == 0 && Prime(maxLine + 1)) && !(maxLine % 6 == 5 && Prime(maxLine))
  {
    hide Prime;
    var q, top := maxLine / 6, 6 * (maxLine / 6) + 1;
    assert 5 <= table[0] <= top;
    forall n: nat | top < n < 6 * q + 5 ensures !Prime(n) { NoPrimeAfter(q, n); }
    if Prime(top) { LimitListed(table, top); }
    if maxLine < top {
      if !Prime(top) { SameLimit(table, maxLine, top); }
    } else if maxLine % 6 != 5 || !Prime(maxLine) {
      SameLimit(table, top, maxLine);
    }
  }

  /** Against the strict reading of the comment, the largest primes below maxLine. */
  lemma BelowLimitIff(table: seq<nat>, maxLine: nat)
    requires LargestPrimes(table, 6 * (maxLine / 6) + 1) && table != [] && maxLine >= 1
    ensures (forall x :: 0 <= x < |table| ==> table[x] < maxLine)
            <==> !(maxLine % 6 <= 1 && Prime(6 * (maxLine / 6) + 1))
    ensures LargestPrimes(table, maxLine - 1) <==> !(maxLine % 6 <= 1 && Prime(6 * (maxLine / 6) + 1))
  {
    hide Prime;
    var q, top := maxLine / 6, 6 * (maxLine / 6) + 1;
    assert 5 <= table[0] <= top;
    forall n: nat | top < n < 6 * q + 5 ensures !Prime(n) { NoPrimeAfter(q, n); }
    if maxLine % 6 <= 1 {
      ModUnique(6 * q, 6, q, 0);
      OffSixNotPrime(6 * q);
      if Prime(top) { LimitListed(table, top); } else { SameLimit(table, maxLine - 1, top); }
    } else {
      SameLimit(table, top, maxLine - 1);
    }
  }

  // ---------------------------------------------------------------- getMode

  datatype Outcome = Exit | Filled | RanOut

  /** The table so far: the first z entries are the first z primes, all[z..] are those of the rounds to come. */
  ghost predicate FilledTo(table: seq<nat>, z: nat, all: seq<nat>, t: nat) {
    z <= |table| && z <= |all| && table[..z] == all[..z] && all[z..] == PrimesDown(t)
  }

  /** Appends one found prime. */
  lemma FilledNext(table: seq<nat>, table': seq<nat>, z: nat, all: seq<nat>, rest: seq<nat>, n: nat)
    requires z < |table| && z <= |all| && table[..z] == all[..z] && all[z..] == [n] + rest
    requires table' == table[z := n]
    ensures z + 1 <= |all| && table'[..z + 1] == all[..z + 1] && all[z + 1..] == rest
  {
  }

  /** The flags and writes of one outer round; stops as soon as the table is full. */
  method AppendPair(t: nat, z: nat, modTable: array<nat>, ghost all: seq<nat>) returns (z': nat)
    requires t >= 1 && z < modTable.Length && FilledTo(modTable[..], z, all, t)
    modifies modTable
    ensures z <= z' <= modTable.Length && z' <= |all| && modTable[..z'] == all[..z']
    ensures z' < modTable.Length ==> FilledTo(modTable[..], z', all, t - 1)
  {
    hide Prime;
    var i, j := TestPair(t);
    var m := 6 * t;
    z' := z;
    ghost var below := (if i then [m - 1] else []) + PrimesDown(t - 1);
    assert all[z..] == (if j then [m + 1] else []) + below;
    if j {
      ghost var before := modTable[..];
      modTable[z'] := m + 1;
      FilledNext(before, modTable[..], z', all, below, m + 1);
      z' := z' + 1;
      if z' >= modTable.Length { return; }
    }
    assert all[z'..] == below;
    if i {
      ghost var before := modTable[..];
      modTable[z'] := m - 1;
      FilledNext(before, modTable[..], z', all, PrimesDown(t - 1), m - 1);
      z' := z' + 1;
    }
  }

  /** getMode. The table gets the `lines` largest primes that are at least 5 and at most
      6*(maxLine/6)+1 exactly when there are that many. Otherwise the round t = 0 appends the
      number 1 behind them, and the unsigned counter t then wraps. Read strictly, the comment promises the
      largest primes below maxLine: those it gets exactly when there are enough and 6*(maxLine/6)+1 is not
      a prime in the way. */
  method GetMode(maxLine: nat, lines: nat, modTable: array<nat>) returns (outcome: Outcome)
    requires maxLine < WORD64 && modTable.Length == lines
    modifies modTable
    ensures outcome == Exit <==> maxLine < 5
    ensures outcome != Exit ==>
              (LargestPrimes(modTable[..], 6 * (maxLine / 6) + 1) <==> lines <= |PrimesDown(maxLine / 6)|)
    ensures outcome != Exit && lines >= 1 ==>
              (LargestPrimes(modTable[..], maxLine - 1)
               <==> lines <= |PrimesDown(maxLine / 6)| && !(maxLine % 6 <= 1 && Prime(6 * (maxLine / 6) + 1)))
    ensures outcome != Exit ==> (outcome == Filled <==> lines <= |PrimesDown(maxLine / 6)| + 1)
    ensures outcome != Exit && lines > |PrimesDown(maxLine / 6)| ==>
              var n := |PrimesDown(maxLine / 6)|;
              modTable[..n] == PrimesDown(maxLine / 6) && modTable[n] == 1
  {
    hide Prime;
    hide LargestPrimes;
    if maxLine < 5 {
      return Exit;
    }
    ghost var all := PrimesDown(maxLine / 6);
    var z: nat := 0;
    var t: nat := maxLine / 6;
    assert all[0..] == all;
    while z < lines
      invariant z <= lines && z <= |all| && modTable[..z] == all[..z]
      invariant z < lines ==> FilledTo(modTable[..], z, all, t)
      decreases t
    {
      if t == 0 {
        // m is 0: (m-1) % 3 == 0 in unsigned arithmetic drops 6t-1, while 6t+1 passes every test
        assert z == |all| by { assert |all[z..]| == 0; }
        modTable[z] := 1;
        OneIsNoPrime(modTable[..], z, 6 * (maxLine / 6) + 1);
        OneIsNoPrime(modTable[..], z, maxLine - 1);
        return if z + 1 >= lines then Filled else RanOut;
      }
      z := AppendPair(t, z, modTable, all);
      t := t - 1;
    }
    PrefixIsLargest(maxLine / 6, lines);
    assert modTable[..] == all[..lines];
    if lines >= 1 { BelowLimitIff(modTable[..], maxLine); }
    return Filled;
  }

  /** The witness: for the limit 6 the table lists 7. */
  method SevenForSix() returns (modTable: array<nat>)
    ensures modTable.Length == 1 && modTable[0] == 7
  {
    modTable := new nat[1];
    var outcome := GetMode(6, 1, modTable);
    SevenIsPrime();
    PrimesDownComplete(1);
    hide PrimesDown;
    assert 7 in PrimesDown(1);
    LimitListed(modTable[..], 7);
  }

  lemma SevenIsPrime()
    ensures Prime(7)
  {
  }
}
