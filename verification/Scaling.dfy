/** Multiplying by powers of two and ten, one factor at a time. */
module Scaling {
  /** x * 10^p */
  function Times10(x: real, p: nat): real { if p == 0 then x else 10.0 * Times10(x, p - 1) }

  /** n * 10^p */
  function Shift10(n: int, p: nat): int { if p == 0 then n else 10 * Shift10(n, p - 1) }

  /** x * 2^k */
  function Times2(x: real, k: nat): real { if k == 0 then x else 2.0 * Times2(x, k - 1) }

  /** n * 2^k */
  function Shift2(n: int, k: nat): int { if k == 0 then n else 2 * Shift2(n, k - 1) }

  predicate IsWhole(x: real) { x.Floor as real == x }

  lemma WholeInt(n: int)
    ensures IsWhole(n as real)
  {
  }

  /** A binary floating-point number: an integer over a power of two. */
  ghost predicate IsDyadic(x: real) { exists k: nat :: IsWhole(Times2(x, k)) }

  lemma {:induction false} Times10Int(n: int, p: nat)
    ensures Times10(n as real, p) == Shift10(n, p) as real
  {
    if p > 0 { Times10Int(n, p - 1); }
  }

  lemma {:induction false} Times10Monotone(x: real, y: real, p: nat)
    requires x <= y
    ensures Times10(x, p) <= Times10(y, p)
  {
    if p > 0 { Times10Monotone(x, y, p - 1); }
  }

  lemma {:induction false} Times10Add(x: real, y: real, p: nat)
    ensures Times10(x + y, p) == Times10(x, p) + Times10(y, p)
  {
    if p > 0 { Times10Add(x, y, p - 1); }
  }

  lemma {:induction false} Times2Add(x: real, y: real, k: nat)
    ensures Times2(x + y, k) == Times2(x, k) + Times2(y, k)
  {
    if k > 0 { Times2Add(x, y, k - 1); }
  }

  lemma {:induction false} Times2Negate(x: real, k: nat)
    ensures Times2(-x, k) == -Times2(x, k)
  {
    if k > 0 { Times2Negate(x, k - 1); }
  }

  lemma {:induction false} Times2Int(n: int, k: nat)
    ensures Times2(n as real, k) == Shift2(n, k) as real
  {
    if k > 0 { Times2Int(n, k - 1); }
  }

  lemma {:induction false} Times2Tenfold(x: real, k: nat)
    ensures Times2(10.0 * x, k) == 10.0 * Times2(x, k)
  {
    if k > 0 { Times2Tenfold(x, k - 1); }
  }

  lemma {:induction false} ScalesCommute(x: real, p: nat, k: nat)
    ensures Times2(Times10(x, p), k) == Times10(Times2(x, k), p)
  {
    if p > 0 {
      Times2Tenfold(Times10(x, p - 1), k);
      ScalesCommute(x, p - 1, k);
    }
  }

  /** A proper fraction scaled by 10^p stays below 10^p. */
  lemma {:induction false} ScaledFraction(x: real, p: nat)
    requires 0.0 <= x < 1.0
    ensures 0.0 <= Times10(x, p) < Shift10(1, p) as real
  {
    if p > 0 { ScaledFraction(x, p - 1); }
  }

  lemma {:induction false} Times10Grows(x: real, p: nat)
    requires x >= 0.0
    ensures Times10(x, p) >= x
  {
    if p > 0 { Times10Grows(x, p - 1); }
  }

  lemma {:induction false} FiveDividesOdd(a: int, k: nat)
    requires Shift2(a, k) % 5 == 0
    ensures a % 5 == 0
  {
    if k > 0 { FiveDividesOdd(a, k - 1); }
  }

  lemma TenDivides(n: int, p: nat)
    requires p >= 1
    ensures Shift10(n, p) % 10 == 0
  {
  }

  lemma TwiceTenfold(m: int)
    requires m % 10 == 0
    ensures (2 * m) % 5 == 0
  {
  }

  /** Twice a half-way point is an odd number, at every power of two. */
  lemma DoubleTie(f: int, k: nat)
    ensures Times2(f as real + 0.5, k) + Times2(f as real + 0.5, k) == Shift2(2 * f + 1, k) as real
  {
    hide Times2, Shift2;
    Times2Add(f as real + 0.5, f as real + 0.5, k);
    Times2Int(2 * f + 1, k);
    assert (2 * f + 1) as real == (f as real + 0.5) + (f as real + 0.5);
  }

  /** A dyadic number lies halfway between two multiples of 10^-p only where 5 divides 2f + 1. */
  lemma TieNeedsFive(x: real, p: nat, f: int)
    requires IsDyadic(x) && p >= 1
    requires Times10(x, p) == f as real + 0.5
    ensures (2 * f + 1) % 5 == 0
  {
    var k: nat :| IsWhole(Times2(x, k));
    hide Times2, Shift2, Times10, Shift10;
    var n := Times2(x, k).Floor;
    Times10Int(n, p);
    ScalesCommute(x, p, k);
    DoubleTie(f, k);
    assert Shift2(2 * f + 1, k) == 2 * Shift10(n, p);
    TenDivides(n, p);
    TwiceTenfold(Shift10(n, p));
    FiveDividesOdd(2 * f + 1, k);
  }

  /** So a tie is never at either end of the fraction: neither 0 nor 10^p - 1. */
  lemma TieIsInside(x: real, p: nat, f: int)
    requires IsDyadic(x) && p >= 1
    requires Times10(x, p) == f as real + 0.5
    ensures f != 0 && f + 1 != Shift10(1, p)
  {
    TieNeedsFive(x, p, f);
    TenDivides(1, p);
  }

  /** Subtracting a whole number leaves a dyadic number. */
  lemma FractionIsDyadic(x: real, w: int)
    requires IsDyadic(x)
    ensures IsDyadic(x - w as real)
  {
    var k: nat :| IsWhole(Times2(x, k));
    Times2Add(x - w as real, w as real, k);
    Times2Int(w, k);
    assert Times2(x - w as real, k) == (Times2(x, k).Floor - Shift2(w, k)) as real;
    assert IsWhole(Times2(x - w as real, k));
  }
}
