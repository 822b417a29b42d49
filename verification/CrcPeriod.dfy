/** The shift register has period exactly 32767 on every non-trivial single-bit start. */
module CrcPeriod {
  import opened BitwiseXor
  import opened CrcPolynomial
  import opened CrcRegister

  const PERIOD: nat := 32767

  /** The bit shifted out at time `t`. */
  predicate Tap(v: nat, t: nat) {
    Steps(v, t) % 2 == 1
  }

  /** Sum of two neighbouring output bits: the sequence of the factor x^15 + x + 1. */
  predicate Diff(v: nat, t: nat) {
    Tap(v, t) != Tap(v, t + 1)
  }

  // ---------------------------------------------------------------------------
  // The output bits obey the generator's recurrence
  // ---------------------------------------------------------------------------

  function RegisterBit(v: nat, t: nat, j: nat): bool
    requires j < 16
  {
    NatBits(Steps(v, t), 16)[j]
  }

  lemma RegisterBitShifts(v: nat, t: nat, j: nat)
    requires v < 0x1_0000 && j < 16
    ensures RegisterBit(v, t + 1, j) ==
            ((j < 15 && RegisterBit(v, t, j + 1)) != (Tap(v, t) && j in {0, 13, 15}))
  {
    StepsAdd(v, t, 1);
    StepsWord(v, t);
    var r := Steps(v, t);
    assert Steps(v, t + 1) == Step(r);
    StepBits(r);
    assert GENERATOR[j + 1] == (j in {0, 13, 15});
    assert j < 15 ==> NatBits(r, 16)[1..][j] == NatBits(r, 16)[j + 1];
  }

  lemma {:induction false} RegisterBitTravels(v: nat, t: nat, j: nat, k: nat)
    requires v < 0x1_0000 && 0 < k && j + k <= 13 && 0 < j
    ensures RegisterBit(v, t + k, j) == (if j + k == 13 then RegisterBit(v, t, 13) else RegisterBit(v, t, j + k))
    decreases k
  {
    RegisterBitShifts(v, t + k - 1, j);
    if k > 1 {
      RegisterBitTravels(v, t, j + 1, k - 1);
    }
  }

  lemma TapRecurrence(v: nat, t: nat)
    requires v < 0x1_0000
    ensures Tap(v, t + 16) == ((Tap(v, t + 15) != Tap(v, t + 2)) != Tap(v, t))
  {
    assert Tap(v, t + 15) == RegisterBit(v, t + 15, 0);
    assert Tap(v, t + 16) == RegisterBit(v, t + 16, 0);
    RegisterBitShifts(v, t + 15, 0);
    RegisterBitTravels(v, t + 3, 1, 12);
    RegisterBitShifts(v, t + 2, 13);
    RegisterBitShifts(v, t + 1, 14);
    RegisterBitShifts(v, t, 15);
  }

  lemma DiffRecurrence(v: nat, t: nat)
    requires v < 0x1_0000
    ensures Diff(v, t + 15) == (Diff(v, t + 1) != Diff(v, t))
  {
    TapRecurrence(v, t);
  }

  // ---------------------------------------------------------------------------
  // Squaring a relation over GF(2) doubles its distances
  // ---------------------------------------------------------------------------

  /** x^16 = x^2 + x, raised to the power 2^k. */
  lemma {:induction false} Sixteen(v: nat, k: nat, t: nat)
    requires v < 0x1_0000
    ensures Diff(v, t + 16 * Power2(k)) == (Diff(v, t + 2 * Power2(k)) != Diff(v, t + Power2(k)))
    decreases k
  {
    if k == 0 {
      DiffRecurrence(v, t + 1);
    } else {
      var h := Power2(k - 1);
      Sixteen(v, k - 1, t + 16 * h);
      Sixteen(v, k - 1, t + 2 * h);
      Sixteen(v, k - 1, t + h);
      assert t + 16 * h + 2 * h == t + 2 * h + 16 * h;
      assert t + 16 * h + h == t + h + 16 * h;
      assert t + 2 * h + h == t + h + 2 * h;
    }
  }

  /** x^256 = x^4 + x, raised to the power 2^k. */
  lemma {:induction false} TwoFiftySix(v: nat, k: nat, t: nat)
    requires v < 0x1_0000
    ensures Diff(v, t + 256 * Power2(k)) == (Diff(v, t + 4 * Power2(k)) != Diff(v, t + Power2(k)))
    decreases k
  {
    if k == 0 {
      Sixteen(v, 4, t);
      Sixteen(v, 1, t);
      Sixteen(v, 0, t);
    } else {
      var h := Power2(k - 1);
      TwoFiftySix(v, k - 1, t + 256 * h);
      TwoFiftySix(v, k - 1, t + 4 * h);
      TwoFiftySix(v, k - 1, t + h);
      assert t + 256 * h + 4 * h == t + 4 * h + 256 * h;
      assert t + 256 * h + h == t + h + 256 * h;
      assert t + 4 * h + h == t + h + 4 * h;
    }
  }

  /** x^32768 = x. */
  lemma DiffPeriod(v: nat, t: nat)
    requires v < 0x1_0000
    ensures Diff(v, t + 32768) == Diff(v, t + 1)
  {
    Power2Values();
    TwoFiftySix(v, 7, t);
    TwoFiftySix(v, 1, t);
    Sixteen(v, 3, t);
    Sixteen(v, 0, t);
  }

  // ---------------------------------------------------------------------------
  // The output bits determine the register
  // ---------------------------------------------------------------------------

  lemma {:induction false} SilentTapsMeanZero(w: nat, n: nat)
    requires w < Power2(n)
    requires forall t: nat :: !Tap(w, t)
    ensures w == 0
    decreases n
  {
    if n > 0 {
      assert !Tap(w, 0);
      forall t: nat
        ensures !Tap(w / 2, t)
      {
        assert !Tap(w, t + 1);
      }
      SilentTapsMeanZero(w / 2, n - 1);
    }
  }

  lemma TapXor(a: nat, b: nat, t: nat)
    ensures Tap(Xor(a, b), t) == (Tap(a, t) != Tap(b, t))
  {
    StepsLinear(a, b, t);
    XorUnfold(Steps(a, t), Steps(b, t));
  }

  lemma {:induction false} XorThreeFive(k: nat)
    ensures Xor(3 * Power2(k), 5 * Power2(k)) == 6 * Power2(k)
  {
    if k == 0 {
      assert Xor(3, 5) == 6;
    } else {
      XorThreeFive(k - 1);
      XorDouble(3 * Power2(k - 1), 5 * Power2(k - 1));
    }
  }

  /** The one word the register never leaves; it belongs to the factor x + 1. */
  lemma FixedWord(f: nat)
    requires f == 1 + 6 * Power2(13)
    ensures f == 0xC001 && Step(f) == f && OddParity(f)
  {
    Power2Values();
    var half := 3 * Power2(13);
    assert f / 2 == half;
    XorThreeFive(12);
    assert half / 2 == 3 * Power2(12) && POLYNOMIAL / 2 == 5 * Power2(12);
    XorUnfold(half, POLYNOMIAL);
    ParityScale(3, 13);
    assert !OddParity(3);
  }

  lemma {:induction false} FixedWordSteps(f: nat, t: nat)
    requires f == 1 + 6 * Power2(13)
    ensures Steps(f, t) == f
    decreases t
  {
    FixedWord(f);
    if t > 0 {
      FixedWordSteps(f, t - 1);
    }
  }

  lemma {:induction false} TapGapConstant(v: nat, t: nat)
    requires v < 0x1_0000
    ensures (Tap(v, t + 32768) != Tap(v, t + 1)) == (Tap(v, 32768) != Tap(v, 1))
  {
    if t > 0 {
      TapGapConstant(v, t - 1);
      DiffPeriod(v, t - 1);
    }
  }

  lemma StepsGap(v: nat, t: nat)
    ensures Tap(Xor(Steps(v, 32768), Steps(v, 1)), t) == (Tap(v, t + 32768) != Tap(v, t + 1))
  {
    TapXor(Steps(v, 32768), Steps(v, 1), t);
    StepsAdd(v, 32768, t);
    StepsAdd(v, 1, t);
  }

  /** Every register word comes back after 32767 steps. */
  lemma ReturnsAfterPeriod(v: nat)
    requires v < 0x1_0000
    ensures Steps(v, PERIOD) == v
  {
    var a, b := Steps(v, 32768), Steps(v, 1);
    var w := Xor(a, b);
    StepsWord(v, 32768);
    StepsWord(v, 1);
    XorWord(a, b);
    Power2Values();
    if Tap(v, 32768) != Tap(v, 1) {
      var f := 1 + 6 * Power2(13);
      var u := Xor(w, f);
      FixedWord(f);
      XorWord(w, f);
      forall t: nat
        ensures !Tap(u, t)
      {
        TapXor(w, f, t);
        StepsGap(v, t);
        TapGapConstant(v, t);
        FixedWordSteps(f, t);
      }
      SilentTapsMeanZero(u, 16);
      XorEqual(w, f);
      XorParity(a, b);
      StepsParity(v, 32768);
      StepsParity(v, 1);
      assert false;
    }
    forall t: nat
      ensures !Tap(w, t)
    {
      StepsGap(v, t);
      TapGapConstant(v, t);
    }
    SilentTapsMeanZero(w, 16);
    XorEqual(a, b);
    StepsAdd(v, PERIOD, 1);
    StepsWord(v, PERIOD);
    StepsInjective(Steps(v, PERIOD), v, 1);
  }

  // ---------------------------------------------------------------------------
  // No shorter period
  // ---------------------------------------------------------------------------

  const TOP: nat := 0x8000

  lemma {:induction false} TopSteps(t: nat)
    requires t <= 15
    ensures Steps(TOP, t) == Power2(15 - t)
  {
    if t == 0 {
      Power2Values();
    } else {
      TopSteps(t - 1);
      StepsAdd(TOP, t - 1, 1);
      assert Step(2 * Power2(15 - t)) == Power2(15 - t);
    }
  }

  lemma TopDiff(t: nat)
    requires t <= 14
    ensures Diff(TOP, t) == (t == 14)
  {
    TopSteps(t);
    TopSteps(t + 1);
  }

  lemma PeriodShifts(d: nat, t: nat)
    requires Steps(TOP, d) == TOP
    ensures Diff(TOP, t + d) == Diff(TOP, t)
  {
    StepsAdd(TOP, d, t);
    StepsAdd(TOP, d, t + 1);
  }

  /** The squared relations at the distances the three candidate periods need. */
  lemma Relations(v: nat, t: nat)
    requires v < 0x1_0000
    ensures Diff(v, t + 15) == (Diff(v, t + 1) != Diff(v, t))
    ensures Diff(v, t + 32) == (Diff(v, t + 4) != Diff(v, t + 2))
    ensures Diff(v, t + 64) == (Diff(v, t + 8) != Diff(v, t + 4))
    ensures Diff(v, t + 128) == (Diff(v, t + 16) != Diff(v, t + 8))
    ensures Diff(v, t + 256) == (Diff(v, t + 4) != Diff(v, t + 1))
    ensures Diff(v, t + 512) == (Diff(v, t + 8) != Diff(v, t + 2))
    ensures Diff(v, t + 1024) == (Diff(v, t + 16) != Diff(v, t + 4))
    ensures Diff(v, t + 4096) == (Diff(v, t + 64) != Diff(v, t + 16))
  {
    DiffRecurrence(v, t);
    Sixteen(v, 1, t);
    Sixteen(v, 2, t);
    Sixteen(v, 3, t);
    TwoFiftySix(v, 0, t);
    TwoFiftySix(v, 1, t);
    TwoFiftySix(v, 2, t);
    TwoFiftySix(v, 4, t);
  }

  /** x^256 = x^4 + x and x^39 = x^11 + x^9. */
  lemma Residues256(v: nat, t: nat)
    requires v < 0x1_0000
    ensures Diff(v, t + 256) == (Diff(v, t + 4) != Diff(v, t + 1))
    ensures Diff(v, t + 39) == (Diff(v, t + 11) != Diff(v, t + 9))
  {
    Relations(v, t);
    Relations(v, t + 7);
  }

  /** x^1057 = x^9 + x^6 + x^5 + x^4. */
  lemma Residue1057(v: nat, t: nat)
    requires v < 0x1_0000
    ensures Diff(v, t + 1057) == ((Diff(v, t + 9) != Diff(v, t + 6)) != (Diff(v, t + 5) != Diff(v, t + 4)))
  {
    Relations(v, t + 33);
    Relations(v, t + 17);
    Relations(v, t + 5);
    Relations(v, t + 6);
    Relations(v, t + 4);
  }

  /** x^649 and x^601, the two terms of x^4681, brought below x^16. */
  lemma Residue649(v: nat, t: nat)
    requires v < 0x1_0000
    ensures Diff(v, t + 649) ==
            (((Diff(v, t + 5) != Diff(v, t + 3)) != (Diff(v, t + 11) != Diff(v, t + 10)))
          != ((Diff(v, t + 13) != Diff(v, t + 12)) != (Diff(v, t + 5) != Diff(v, t + 4))))
  {
    Relations(v, t + 137);
    Relations(v, t + 17);
    Relations(v, t + 11);
    Relations(v, t + 1);
    Relations(v, t + 10);
    Relations(v, t + 12);
    Relations(v, t + 4);
  }

  lemma Residue601(v: nat, t: nat)
    requires v < 0x1_0000
    ensures Diff(v, t + 601) ==
            (((Diff(v, t + 13) != Diff(v, t + 11)) != (Diff(v, t + 9) != Diff(v, t + 7)))
          != ((Diff(v, t + 7) != Diff(v, t + 5)) != (Diff(v, t + 3) != Diff(v, t + 1))))
  {
    Relations(v, t + 89);
    Relations(v, t + 33);
    Relations(v, t + 27);
    Relations(v, t + 9);
    Relations(v, t + 5);
    Relations(v, t + 3);
    Relations(v, t + 16);
    Relations(v, t + 2);
    Relations(v, t + 1);
  }

  /** x^4681 = x^12 + x^10 + x^9 + x^5 + x^4 + x. */
  lemma Residue4681(v: nat, t: nat)
    requires v < 0x1_0000
    ensures Diff(v, t + 4681) == ((Diff(v, t + 12) != Diff(v, t + 10))
                              != ((Diff(v, t + 9) != Diff(v, t + 5)) != (Diff(v, t + 4) != Diff(v, t + 1))))
  {
    Relations(v, t + 585);
    Residue649(v, t);
    Residue601(v, t);
  }

  /** None of the maximal proper divisors of 32767 is a period of the top bit. */
  lemma NoShortPeriod(d: nat)
    requires d == 217 || d == 1057 || d == 4681
    ensures Steps(TOP, d) != TOP
  {
    forall t | 0 <= t <= 14
      ensures Diff(TOP, t) == (t == 14)
    {
      TopDiff(t);
    }
    if Steps(TOP, d) == TOP {
      var t := if d == 217 then 3 else if d == 1057 then 5 else 2;
      if d == 217 {
        PeriodShifts(d, t + 39);
        Residues256(TOP, t);
      } else {
        PeriodShifts(d, t);
        if d == 1057 {
          Residue1057(TOP, t);
        } else {
          Residue4681(TOP, t);
        }
      }
      assert false;
    }
  }

  lemma {:induction false} MultiplePeriod(v: nat, d: nat, k: nat)
    requires Steps(v, d) == v
    ensures Steps(v, d * k) == v
    decreases k
  {
    if k > 0 {
      MultiplePeriod(v, d, k - 1);
      assert d * k == d * (k - 1) + d;
      StepsAdd(v, d * (k - 1), d);
    }
  }

  /** Two periods share a common divisor that is itself a period. */
  lemma {:induction false} CommonPeriod(v: nat, a: nat, b: nat) returns (g: nat, p: nat, q: nat)
    requires a > 0 && Steps(v, a) == v && Steps(v, b) == v
    ensures g > 0 && a == g * p && b == g * q && Steps(v, g) == v
    decreases b
  {
    if b == 0 {
      g, p, q := a, 1, 0;
    } else {
      var m, r := a / b, a % b;
      MultiplePeriod(v, b, m);
      assert a == b * m + r;
      StepsAdd(v, b * m, r);
      var p', q';
      g, p', q' := CommonPeriod(v, b, r);
      p, q := p' * m + q', p';
      assert g * p == g * p' * m + g * q';
    }
  }

  predicate SmallDivisors(n: nat) {
    n <= 1 || ((32767 % n == 0 ==> n == 7 || n == 31 || n == 151) && SmallDivisors(n - 1))
  }

  lemma {:induction false} SmallDivisor(g: nat, n: nat)
    requires 1 < g <= n && SmallDivisors(n) && 32767 % g == 0
    ensures g == 7 || g == 31 || g == 151
    decreases n
  {
    if g < n {
      SmallDivisor(g, n - 1);
    }
  }

  lemma DivisorsUpTo45()
    ensures SmallDivisors(45)
  {
    assert SmallDivisors(9);
    assert SmallDivisors(18);
    assert SmallDivisors(27);
    assert SmallDivisors(36);
  }

  lemma DivisorsUpTo90()
    ensures SmallDivisors(90)
  {
    DivisorsUpTo45();
    assert SmallDivisors(54);
    assert SmallDivisors(63);
    assert SmallDivisors(72);
    assert SmallDivisors(81);
  }

  lemma DivisorsUpTo135()
    ensures SmallDivisors(135)
  {
    DivisorsUpTo90();
    assert SmallDivisors(99);
    assert SmallDivisors(108);
    assert SmallDivisors(117);
    assert SmallDivisors(126);
  }

  lemma DivisorsUpTo181()
    ensures SmallDivisors(181)
  {
    DivisorsUpTo135();
    assert SmallDivisors(144);
    assert SmallDivisors(153);
    assert SmallDivisors(162);
    assert SmallDivisors(171);
    assert SmallDivisors(180);
  }

  lemma LargeFactors(g: nat, m: nat)
    requires g > 181 && m > 181
    ensures g * m > PERIOD
  {
    MultiplyMonotone(182, 182, m);
    MultiplyMonotone(m, 182, g);
  }

  lemma SmallFactor(g: nat)
    requires 1 < g <= 181 && PERIOD % g == 0
    ensures g == 7 || g == 31 || g == 151
  {
    DivisorsUpTo181();
    SmallDivisor(g, 181);
  }

  /** A proper divisor of 32767 = 7 * 31 * 151 divides 217, 1057 or 4681. */
  lemma ProperDivisor(g: nat, m: nat) returns (d: nat, k: nat)
    requires g * m == PERIOD && m > 1
    ensures (d == 217 || d == 1057 || d == 4681) && d == g * k
  {
    if g > 181 && m > 181 {
      LargeFactors(g, m);
      assert false;
    }
    if g <= 181 {
      DividesRemainder(g, m);
      d, k := SmallProperDivisor(g);
    } else {
      DividesRemainder(m, g);
      SmallFactor(m);
      d, k := g, 1;
    }
  }

  lemma SmallProperDivisor(g: nat) returns (d: nat, k: nat)
    requires 0 < g <= 181 && PERIOD % g == 0
    ensures (d == 217 || d == 1057 || d == 4681) && d == g * k
  {
    if g > 1 {
      SmallFactor(g);
    }
    d := if g == 151 then 1057 else 217;
    k := if g == 1 then 217 else if g == 7 then 31 else 7;
  }

  lemma MultiplyMonotone(a: nat, b: nat, c: nat)
    requires b <= c
    ensures a * b <= a * c
  {
    assert a * c == a * b + a * (c - b);
  }

  lemma DividesRemainder(a: nat, b: nat)
    requires a > 0
    ensures (a * b) % a == 0
  {
    var q, r := (a * b) / a, (a * b) % a;
    assert a * b == a * q + r;
    if q < b {
      MultiplyMonotone(a, q + 1, b);
    } else {
      MultiplyMonotone(a, b, q);
    }
  }

  /** The exact period of the register started from its top bit. */
  lemma TopPeriod(d: nat)
    ensures Steps(TOP, d) == TOP <==> d % PERIOD == 0
  {
    ReturnsAfterPeriod(TOP);
    var k, r := d / PERIOD, d % PERIOD;
    MultiplePeriod(TOP, PERIOD, k);
    assert d == PERIOD * k + r;
    StepsAdd(TOP, PERIOD * k, r);
    if r != 0 && Steps(TOP, r) == TOP {
      var g, p, q := CommonPeriod(TOP, PERIOD, r);
      if p <= q {
        MultiplyMonotone(g, p, q);
        assert false;
      }
      assert q > 0;
      var c, j := ProperDivisor(g, p);
      MultiplePeriod(TOP, g, j);
      NoShortPeriod(c);
      assert false;
    }
  }

  /** Two single-bit errors `d` bits apart cancel in the register exactly at multiples of the period. */
  lemma UnitPeriod(d: nat)
    ensures Steps(1, d) == 1 <==> d % PERIOD == 0
  {
    TopSteps(15);
    StepsAdd(TOP, 15, d);
    StepsAdd(TOP, d, 15);
    StepsWord(TOP, d);
    TopPeriod(d);
    if Steps(1, d) == 1 {
      StepsInjective(Steps(TOP, d), TOP, 15);
    }
  }
}
