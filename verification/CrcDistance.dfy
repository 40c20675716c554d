/** Two flipped bits of a checksummed frame: they go unnoticed exactly when their distance is a
    multiple of 32767, the period of the register, so never in a frame of up to 4095 bytes. */
module CrcDistance {
  import opened LinearRegister
  import opened Crc16

  const PERIOD: nat := 32767

  // ---------------------------------------------------------------- running freely

  // The register after n shifts.
  function Run(x: bv16, n: nat): bv16 {
    Shifts(CRC16, x, n)
  }

  function Shift2(x: bv16): bv16 {
    Shift(Shift(x))
  }

  function Shift4(x: bv16): bv16 {
    Shift2(Shift2(x))
  }

  lemma RunAdds(x: bv16, m: nat, n: nat)
    ensures Run(Run(x, m), n) == Run(x, m + n)
  {
    hide Shift, Xor;
    ShiftsAdd(CRC16, x, m, n);
  }

  lemma RunOfXor(x: bv16, y: bv16, n: nat)
    ensures Run(Xor(x, y), n) == Xor(Run(x, n), Run(y, n))
  {
    hide Shift, Xor, Shifts, ShiftIsLinear;
    CrcShiftIsLinear();
    ShiftsLinear(CRC16, x, y, n);
  }

  lemma RunInjective(x: bv16, y: bv16, n: nat)
    ensures Run(x, n) == Run(y, n) <==> x == y
  {
    hide Shift, Xor, Shifts, Laws;
    CrcLaws();
    ShiftsInjective(CRC16, x, y, n);
  }

  lemma RunKeepsParity(x: bv16, n: nat)
    ensures Odd(Run(x, n)) == Odd(x)
  {
    hide Shift, Xor, Shifts, Odd, IsParity;
    CrcParity();
    ShiftsKeepParity(CRC16, Odd, x, n);
  }

  lemma RunFew(x: bv16)
    ensures Run(x, 0) == x && Run(x, 1) == Shift(x)
    ensures Run(x, 2) == Shift2(x) && Run(x, 4) == Shift4(x) && Run(x, 8) == Shift4(Shift4(x))
  {
    hide Shift, Xor;
    assert forall y :: Shifts(CRC16, y, 1) == Shifts(CRC16, Shift(y), 0) == Shift(y);
    RunAdds(x, 1, 1);
    RunAdds(x, 2, 2);
    RunAdds(Shift2(x), 1, 1);
    RunAdds(x, 4, 4);
    RunAdds(Shift4(x), 2, 2);
    RunAdds(Shift2(Shift4(x)), 1, 1);
  }

  // ---------------------------------------------------------------- the trinomial

  function Shift15(x: bv16): bv16 {
    Shift(Shift2(Shift4(Shift4(Shift4(x)))))
  }

  // The generator x^16 + x^15 + x^2 + 1, applied to the register.
  predicate Reduces(x: bv16) {
    Xor(Shift(Shift15(x)), Shift15(x)) == Xor(Shift2(x), x)
  }

  lemma HighReduces(x: bv16)
    requires x & 0xFF00 == x
    ensures Reduces(x)
  {
  }

  lemma MiddleReduces(x: bv16)
    requires x & 0x00F0 == x
    ensures Reduces(x)
  {
  }

  lemma LowReduces(x: bv16)
    requires x & 0x000F == x
    ensures Reduces(x)
  {
  }

  lemma Shift2Linear(x: bv16, y: bv16)
    ensures Shift2(Xor(x, y)) == Xor(Shift2(x), Shift2(y))
  {
    hide Shift, Xor;
    ShiftLinear(x, y);
    ShiftLinear(Shift(x), Shift(y));
  }

  lemma Shift4Linear(x: bv16, y: bv16)
    ensures Shift4(Xor(x, y)) == Xor(Shift4(x), Shift4(y))
  {
    hide Shift2, Xor;
    Shift2Linear(x, y);
    Shift2Linear(Shift2(x), Shift2(y));
  }

  lemma Shift15Linear(x: bv16, y: bv16)
    ensures Shift15(Xor(x, y)) == Xor(Shift15(x), Shift15(y))
  {
    hide Shift, Shift2, Shift4, Xor;
    var x4, y4 := Shift4(x), Shift4(y);
    var x8, y8 := Shift4(x4), Shift4(y4);
    Shift4Linear(x, y);
    Shift4Linear(x4, y4);
    Shift4Linear(x8, y8);
    Shift2Linear(Shift4(x8), Shift4(y8));
    ShiftLinear(Shift2(Shift4(x8)), Shift2(Shift4(y8)));
  }

  lemma SumReduces(x: bv16, y: bv16)
    requires Reduces(x) && Reduces(y)
    ensures Reduces(Xor(x, y))
  {
    hide Shift, Shift2, Shift15, Xor;
    Shift15Linear(x, y);
    ShiftLinear(Shift15(x), Shift15(y));
    Shift2Linear(x, y);
    XorRegroups(Shift(Shift15(x)), Shift(Shift15(y)), Shift15(x), Shift15(y));
    XorRegroups(Shift2(x), Shift2(y), x, y);
  }

  lemma ThreeParts(x: bv16)
    ensures x == Xor(x & 0xFF00, Xor(x & 0x00F0, x & 0x000F))
    ensures x & 0xFF00 == (x & 0xFF00) & 0xFF00
    ensures x & 0x00F0 == (x & 0x00F0) & 0x00F0
    ensures x & 0x000F == (x & 0x000F) & 0x000F
  {
  }

  lemma EachReduces(x: bv16)
    ensures Reduces(x)
  {
    hide Reduces, Xor;
    ThreeParts(x);
    HighReduces(x & 0xFF00);
    MiddleReduces(x & 0x00F0);
    LowReduces(x & 0x000F);
    SumReduces(x & 0x00F0, x & 0x000F);
    SumReduces(x & 0xFF00, Xor(x & 0x00F0, x & 0x000F));
  }

  // A register that shifting does not change is zero or has odd parity.
  lemma FixedIsOdd(x: bv16)
    requires Shift(x) == x && !Odd(x)
    ensures x == 0
  {
  }

  lemma SameAgain(x: bv16, y: bv16, z: bv16)
    ensures Xor(Xor(x, y), Xor(y, z)) == Xor(x, z)
  {
  }

  // The generator is (x + 1)(x^15 + x + 1), and on even parity only the second factor acts.
  lemma FifteenShifts(x: bv16)
    requires !Odd(x)
    ensures Shift15(x) == Xor(Shift(x), x)
  {
    hide Shift, Xor, Odd, Shift4, Shift15;
    EachReduces(x);
    var v := Xor(Shift(x), x);
    var w := Xor(Shift15(x), v);
    ShiftLinear(Shift(x), x);
    ShiftLinear(Shift15(x), v);
    SameAgain(Shift2(x), Shift(x), x);
    XorRegroups(Shift(Shift15(x)), Shift(v), Shift15(x), v);
    XorSelf(Xor(Shift2(x), x));
    XorZeroIff(Shift(w), w);
    EvenParts(x, w);
    FixedIsOdd(w);
    XorZeroIff(Shift15(x), v);
  }

  lemma EvenParts(x: bv16, w: bv16)
    requires !Odd(x) && w == Xor(Shift15(x), Xor(Shift(x), x))
    ensures !Odd(w)
  {
    hide Shift, Xor, Odd, Shift15;
    Shift15IsRun(x);
    RunKeepsParity(x, 15);
    OddShift(x);
    OddLinear(Shift(x), x);
    OddLinear(Shift15(x), Xor(Shift(x), x));
  }

  lemma Shift15IsRun(x: bv16)
    ensures Shift15(x) == Run(x, 15)
  {
    hide Shift, Shift2, Shift4, Run;
    RunFew(x);
    RunFew(Run(x, 8));
    RunFew(Run(x, 12));
    RunFew(Run(x, 14));
    RunAdds(x, 8, 4);
    RunAdds(x, 12, 2);
    RunAdds(x, 14, 1);
  }

  // ---------------------------------------------------------------- doubling

  function Pow2(k: nat): (p: nat)
    ensures p >= 1
  {
    if k == 0 then 1 else 2 * Pow2(k - 1)
  }

  // Two to the k shifts.
  function Leap(x: bv16, k: nat): bv16 {
    Run(x, Pow2(k))
  }

  lemma LeapTwice(x: bv16, k: nat)
    ensures Leap(Leap(x, k), k) == Leap(x, k + 1)
  {
    hide Run;
    RunAdds(x, Pow2(k), Pow2(k));
  }

  lemma LeapsCommute(x: bv16, j: nat, k: nat)
    ensures Leap(Leap(x, j), k) == Leap(Leap(x, k), j)
  {
    hide Run;
    RunAdds(x, Pow2(j), Pow2(k));
    RunAdds(x, Pow2(k), Pow2(j));
  }

  lemma LeapOfXor(x: bv16, y: bv16, k: nat)
    ensures Leap(Xor(x, y), k) == Xor(Leap(x, k), Leap(y, k))
  {
    hide Run, Xor;
    RunOfXor(x, y, Pow2(k));
  }

  lemma LeapKeepsParity(x: bv16, k: nat)
    ensures Odd(Leap(x, k)) == Odd(x)
  {
    hide Run, Odd;
    RunKeepsParity(x, Pow2(k));
  }

  /** Sixteen times p shifts are 2p shifts plus p shifts, for every power of two p: squaring the
      trinomial squares its terms. */
  lemma {:induction false} LeapSplits(x: bv16, k: nat)
    requires !Odd(x)
    ensures Leap(x, k + 4) == Xor(Leap(x, k + 1), Leap(x, k))
    decreases k
  {
    hide Leap, Odd, Xor;
    if k == 0 {
      FirstLeaps(x);
    } else {
      var h := k - 1;
      var b, c := Leap(x, h + 1), Leap(x, h);
      LeapSplits(x, h);
      LeapTwice(x, h + 4);
      LeapOfXor(b, c, h + 4);
      LeapKeepsParity(x, h + 1);
      LeapKeepsParity(x, h);
      LeapSplits(b, h);
      LeapSplits(c, h);
      LeapTwice(x, h + 1);
      LeapTwice(x, h);
      LeapsCommute(x, h + 1, h);
      SameAgain(Leap(b, h + 1), Leap(b, h), Leap(c, h));
    }
  }

  lemma FirstLeaps(x: bv16)
    requires !Odd(x)
    ensures Leap(x, 4) == Xor(Leap(x, 1), Leap(x, 0))
  {
    hide Run, Odd, Xor, Shift, Shift15;
    assert Pow2(1) == 2 && Pow2(2) == 4 && Pow2(3) == 8 && Pow2(4) == 16;
    FifteenShifts(x);
    Shift15IsRun(x);
    RunAdds(x, 15, 1);
    RunFew(Run(x, 15));
    RunFew(x);
    ShiftLinear(Shift(x), x);
  }

  // ---------------------------------------------------------------- the period

  lemma FifteenthIsFirst(f: bv16, g: bv16, h: bv16, i: bv16)
    ensures var f4, f5, f6 := Xor(g, f), Xor(h, g), Xor(i, h);
            var f7 := Xor(f4, i);
            var f8, f9 := Xor(f5, f4), Xor(f6, f5);
            Xor(Xor(f9, f8), Xor(f8, f7)) == f
  {
    hide Xor;
    var f4, f5, f6 := Xor(g, f), Xor(h, g), Xor(i, h);
    var f9, ig := Xor(f6, f5), Xor(i, g);
    SameAgain(f9, Xor(f5, f4), Xor(f4, i));
    SameAgain(i, h, g);
    XorCommutes(f4, i);
    XorAssociates(i, g, f);
    XorAssociates(ig, ig, f);
    XorSelf(ig);
    XorCommutes(0, f);
    XorWithZero(f);
  }

  // From sixteen to 32768 shifts in terms of 1, 2, 4 and 8.
  lemma FarLeaps(x: bv16)
    requires !Odd(x)
    ensures var f, g, h, i := Leap(x, 0), Leap(x, 1), Leap(x, 2), Leap(x, 3);
            && Leap(x, 4) == Xor(g, f) && Leap(x, 5) == Xor(h, g) && Leap(x, 6) == Xor(i, h)
            && Leap(x, 7) == Xor(Leap(x, 4), i)
            && Leap(x, 8) == Xor(Leap(x, 5), Leap(x, 4)) && Leap(x, 9) == Xor(Leap(x, 6), Leap(x, 5))
            && Leap(x, 10) == Xor(Leap(x, 7), Leap(x, 6)) && Leap(x, 11) == Xor(Leap(x, 8), Leap(x, 7))
            && Leap(x, 12) == Xor(Leap(x, 9), Leap(x, 8)) && Leap(x, 15) == Xor(Leap(x, 12), Leap(x, 11))
  {
    hide Leap, Odd, Xor;
    LeapSplits(x, 0);
    LeapSplits(x, 1);
    LeapSplits(x, 2);
    LeapSplits(x, 3);
    LeapSplits(x, 4);
    LeapSplits(x, 5);
    LeapSplits(x, 6);
    LeapSplits(x, 7);
    LeapSplits(x, 8);
    LeapSplits(x, 11);
  }

  lemma EvenReturns(x: bv16)
    requires !Odd(x)
    ensures Run(x, PERIOD) == x
  {
    hide Run, Odd, Xor;
    FarLeaps(x);
    FifteenthIsFirst(Leap(x, 0), Leap(x, 1), Leap(x, 2), Leap(x, 3));
    PowersOfTwo();
    RunAdds(x, PERIOD, 1);
    RunInjective(Run(x, PERIOD), x, 1);
  }

  lemma PowersOfTwo()
    ensures Pow2(0) == 1 && Pow2(1) == 2 && Pow2(2) == 4 && Pow2(3) == 8
    ensures Pow2(15) == 32768
  {
    assert Pow2(4) == 16 && Pow2(8) == 256 && Pow2(12) == 4096;
  }

  /** After 32767 shifts every register is back. */
  lemma EachReturns(x: bv16)
    ensures Run(x, PERIOD) == x
  {
    hide Run, Odd, Xor, Shift;
    var even, w := Xor(Shift(x), x), Xor(Run(x, PERIOD), x);
    OddLinear(Shift(x), x);
    OddShift(x);
    EvenReturns(even);
    RunOfXor(Shift(x), x, PERIOD);
    ShiftAfterRun(x, PERIOD);
    ShiftLinear(Run(x, PERIOD), x);
    XorRegroups(Shift(Run(x, PERIOD)), Shift(x), Run(x, PERIOD), x);
    XorSelf(even);
    XorZeroIff(Shift(w), w);
    RunKeepsParity(x, PERIOD);
    OddLinear(Run(x, PERIOD), x);
    FixedIsOdd(w);
    XorZeroIff(Run(x, PERIOD), x);
  }

  lemma ShiftAfterRun(x: bv16, n: nat)
    ensures Run(Shift(x), n) == Shift(Run(x, n))
  {
    hide Run, Shift;
    RunFew(x);
    RunFew(Run(x, n));
    RunAdds(x, 1, n);
    RunAdds(x, n, 1);
  }

  // ---------------------------------------------------------------- no shorter period

  // What a register of even parity becomes after n shifts, n a sum of few powers of two.
  lemma NearLeaps(x: bv16)
    ensures Leap(x, 0) == Shift(x) && Leap(x, 1) == Shift2(x)
    ensures Leap(x, 2) == Shift4(x) && Leap(x, 3) == Shift4(Shift4(x))
  {
    hide Run, Shift, Shift2, Shift4;
    PowersOfTwo();
    RunFew(x);
  }

  lemma Leap4(x: bv16)
    requires !Odd(x)
    ensures Leap(x, 4) == Xor(Shift2(x), Shift(x))
    ensures Leap(x, 5) == Xor(Shift4(x), Shift2(x))
    ensures Leap(x, 6) == Xor(Shift4(Shift4(x)), Shift4(x))
    ensures Leap(x, 7) == Xor(Leap(x, 4), Shift4(Shift4(x)))
    ensures Leap(x, 9) == Xor(Leap(x, 6), Leap(x, 5))
    ensures Leap(x, 10) == Xor(Leap(x, 7), Leap(x, 6))
    ensures Leap(x, 12) == Xor(Leap(x, 9), Xor(Leap(x, 5), Leap(x, 4)))
  {
    hide Leap, Shift, Shift2, Shift4, Odd, Xor;
    FarLeaps(x);
    NearLeaps(x);
  }

  lemma Hops217()
    ensures Leap(0xA000, 0) == 0x5000 && Leap(0x5000, 3) == 0x0050 && Leap(0x0050, 4) == 0x003C
    ensures Leap(0x003C, 6) == 0x4103 && Leap(0x4103, 7) == 0xC1C1
  {
    hide Leap;
    NearLeaps(0xA000);
    NearLeaps(0x5000);
    Leap4(0x0050);
    Leap4(0x003C);
    Leap4(0x4103);
  }

  lemma Hops1057()
    ensures Leap(0x5000, 5) == 0x1100 && Leap(0x1100, 10) == 0x0DD0
  {
    hide Leap;
    Leap4(0x5000);
    Leap4(0x1100);
  }

  lemma Hops4681()
    ensures Leap(0x0050, 6) == 0x3C05 && Leap(0x3C05, 9) == 0xFCFC && Leap(0xFCFC, 12) == 0x5F72
  {
    hide Leap;
    Leap4(0x0050);
    Leap4(0x3C05);
    Leap4(0xFCFC);
  }

  // The register that starts at an even one comes back no earlier than one that starts anywhere.
  lemma OneReturnsEven(n: nat)
    requires Run(1, n) == 1
    ensures Run(0xA000, n) == 0xA000
  {
    assert Xor(Shift(1), 1) == 0xA000;
    hide Run, Xor, Shift;
    ShiftAfterRun(1, n);
    RunOfXor(Shift(1), 1, n);
  }

  lemma ProperDivisors()
    ensures Run(1, 217) != 1 && Run(1, 1057) != 1 && Run(1, 4681) != 1
  {
    hide Run;
    assert Pow2(0) == 1 && Pow2(3) == 8 && Pow2(4) == 16 && Pow2(5) == 32 && Pow2(6) == 64 && Pow2(7) == 128;
    assert Pow2(9) == 512 && Pow2(10) == 1024 && Pow2(12) == 4096;
    Hops217();
    RunAdds(0xA000, 1, 8);
    RunAdds(0xA000, 9, 16);
    RunAdds(0xA000, 25, 64);
    RunAdds(0xA000, 89, 128);
    Hops1057();
    RunAdds(0xA000, 1, 32);
    RunAdds(0xA000, 33, 1024);
    Hops4681();
    RunAdds(0xA000, 9, 64);
    RunAdds(0xA000, 73, 512);
    RunAdds(0xA000, 585, 4096);
    if Run(1, 217) == 1 {
      OneReturnsEven(217);
    }
    if Run(1, 1057) == 1 {
      OneReturnsEven(1057);
    }
    if Run(1, 4681) == 1 {
      OneReturnsEven(4681);
    }
  }

  lemma {:induction false} ReturnsEvery(x: bv16, o: nat, q: nat)
    requires Run(x, o) == x
    ensures Run(x, q * o) == x
  {
    hide Run;
    if q == 0 {
      RunFew(x);
    } else {
      ReturnsEvery(x, o, q - 1);
      RunAdds(x, (q - 1) * o, o);
      assert (q - 1) * o + o == q * o;
    }
  }

  lemma OnlyTheRest(x: bv16, o: nat, n: nat)
    requires o > 0 && Run(x, o) == x
    ensures Run(x, n) == Run(x, n % o)
  {
    hide Run;
    ReturnsEvery(x, o, n / o);
    RunAdds(x, n / o * o, n % o);
  }

  // The first return in steps of m shifts.
  lemma {:induction false} FirstReturn(x: bv16, m: nat, n: nat) returns (o: nat)
    requires n > 0 && Run(x, n * m) == x
    ensures 0 < o <= n && Run(x, o * m) == x
    ensures forall k | 0 < k < o :: Run(x, k * m) != x
    decreases n
  {
    hide Run;
    if k :| 0 < k < n && Run(x, k * m) == x {
      o := FirstReturn(x, m, k);
    } else {
      o := n;
    }
  }

  // Returns in steps of m shifts subtract, as in Euclid's algorithm.
  lemma RestReturns(x: bv16, m: nat, n: nat, o: nat)
    requires o > 0 && Run(x, n * m) == x && Run(x, o * m) == x
    ensures Run(x, (n % o) * m) == x
  {
    hide Run;
    var q, r := n / o, n % o;
    ReturnsEvery(x, o * m, q);
    Distributes(q, o, m, r);
    RunAdds(x, q * (o * m), r * m);
  }

  lemma Distributes(q: nat, o: nat, m: nat, r: nat)
    ensures (q * o + r) * m == q * (o * m) + r * m
  {
  }

  ghost predicate IsPrime(p: nat) {
    p > 1 && forall r | 1 < r < p :: p % r != 0
  }

  /** If m shifts do not bring 1 back although p * m do, only multiples of p steps do. */
  lemma PrimeDivides(p: nat, m: nat, d: nat)
    requires IsPrime(p) && Run(1, p * m) == 1 && Run(1, m) != 1 && Run(1, d) == 1
    ensures d % p == 0
  {
    hide Run;
    ReturnsEvery(1, d, m);
    assert m * d == d * m;
    RestReturns(1, m, d, p);
    if d % p != 0 {
      var r := FirstReturn(1, m, d % p);
      RestReturns(1, m, p, r);
    }
  }

  lemma Factors(p: nat, r: nat, q: nat)
    requires p == 7 || p == 31 || p == 151
    requires r * q == p && r > 1
    ensures r == p
  {
    if r > 12 && q > 12 {
      ProductGrows(13, 13, r, q);
    } else if r <= 12 {
      assert r == 2 || r == 3 || r == 4 || r == 5 || r == 6 || r == 7
        || r == 8 || r == 9 || r == 10 || r == 11 || r == 12;
    } else {
      assert q == 0 || q == 1 || q == 2 || q == 3 || q == 4 || q == 5 || q == 6 || q == 7 || q == 8 || q == 9
        || q == 10 || q == 11 || q == 12;
    }
  }

  lemma ProductGrows(a: nat, b: nat, c: nat, d: nat)
    requires a <= c && b <= d
    ensures a * b <= c * d
  {
    assert c * d == a * b + (c - a) * b + c * (d - b);
  }

  lemma PrimeFactors()
    ensures IsPrime(7) && IsPrime(31) && IsPrime(151)
  {
    forall p, r | (p == 7 || p == 31 || p == 151) && 1 < r < p
      ensures p % r != 0
    {
      if p % r == 0 {
        Factors(p, r, p / r);
      }
    }
  }

  lemma ChineseRemainder(d: nat)
    requires d % 7 == 0 && d % 31 == 0 && d % 151 == 0
    ensures d % PERIOD == 0
  {
    var a, b, c := d / 7, d / 31, d / 151;
    assert d == 217 * (9 * b - 2 * a);
    var e := 9 * b - 2 * a;
    assert d == 32767 * (23 * e - 16 * c);
  }

  /** Started at 1, the register is back at 1 exactly after the multiples of 32767 shifts. */
  lemma OneReturnsIff(n: nat)
    ensures Run(1, n) == 1 <==> n % PERIOD == 0
  {
    hide Run, IsPrime;
    EachReturns(1);
    RunFew(1);
    OnlyTheRest(1, PERIOD, n);
    if Run(1, n) == 1 {
      ProperDivisors();
      PrimeFactors();
      PrimeDivides(7, 4681, n);
      PrimeDivides(31, 1057, n);
      PrimeDivides(151, 217, n);
      ChineseRemainder(n);
    }
  }

  // ---------------------------------------------------------------- two flipped bits

  // Bit r of a byte, counted in the order in which the register takes the bits.
  function BitAt(r: nat): bv8
    requires r < 8
  {
    match r
    case 0 => 0x01
    case 1 => 0x02
    case 2 => 0x04
    case 3 => 0x08
    case 4 => 0x10
    case 5 => 0x20
    case 6 => 0x40
    case _ => 0x80
  }

  lemma BitReachesOne(r: nat)
    requires r < 8
    ensures Run(Extend(BitAt(r)), r) == 1
  {
    hide Run;
    var x := Extend(BitAt(r));
    RunFew(x);
    RunAdds(x, 2, 1);
    RunFew(Run(x, 2));
    RunAdds(x, 4, 1);
    RunFew(Run(x, 4));
    RunAdds(x, 4, 2);
    RunAdds(x, 6, 1);
    RunFew(Run(x, 6));
  }

  // Two bits d apart: the first, shifted on, is the second exactly after a multiple of the period.
  lemma BitsMeetIff(r: nat, s: nat, n: nat)
    requires r < 8 && s < 8 && n >= 8
    ensures Run(Extend(BitAt(r)), n) == Extend(BitAt(s)) <==> (n + s - r) % PERIOD == 0
  {
    hide Run, Extend, BitAt;
    var x, y := Extend(BitAt(r)), Extend(BitAt(s));
    BitReachesOne(r);
    BitReachesOne(s);
    RunInjective(Run(x, n), y, s);
    RunAdds(x, n, s);
    RunAdds(x, r, n + s - r);
    OneReturnsIff(n + s - r);
  }

  // The pattern of two bits with unchanged bytes between them, fed into the zero register.
  lemma PatternRuns(x: bv16, zeros: seq<bv16>, y: bv16)
    requires forall i | 0 <= i < |zeros| :: zeros[i] == 0
    ensures Feed(CRC16, 0, [x] + zeros + [y]) == Run(Xor(Run(x, 8 * (|zeros| + 1)), y), 8)
  {
    hide Shift, Xor, Feed, Shifts;
    FeedConcat(CRC16, 0, [x] + zeros, [y]);
    FeedConcat(CRC16, 0, [x], zeros);
    FeedOne(0, x);
    XorCommutes(0, x);
    XorWithZero(x);
    CrcZeroIsNeutral();
    FeedOfZeros(CRC16, Run(x, 8), zeros);
    RunAdds(x, 8, 8 * |zeros|);
    FeedOne(Run(x, 8 * (|zeros| + 1)), y);
  }

  lemma RunVanishesIff(x: bv16, n: nat)
    ensures Run(x, n) == 0 <==> x == 0
  {
    hide Shift, Xor, Shifts, Laws;
    CrcLaws();
    ShiftsToZero(CRC16, x, n);
  }

  lemma PatternVanishesIff(r: nat, s: nat, zeros: seq<bv16>)
    requires r < 8 && s < 8 && forall i | 0 <= i < |zeros| :: zeros[i] == 0
    ensures Feed(CRC16, 0, [Extend(BitAt(r))] + zeros + [Extend(BitAt(s))]) == 0
       <==> (8 * (|zeros| + 1) + s - r) % PERIOD == 0
  {
    hide Run, Xor, Feed, Extend, BitAt;
    var x, y := Extend(BitAt(r)), Extend(BitAt(s));
    PatternRuns(x, zeros, y);
    RunVanishesIff(Xor(Run(x, 8 * (|zeros| + 1)), y), 8);
    XorZeroIff(Run(x, 8 * (|zeros| + 1)), y);
    BitsMeetIff(r, s, 8 * (|zeros| + 1));
  }

  lemma FeedOne(crc: bv16, x: bv16)
    ensures Feed(CRC16, crc, [x]) == Run(Xor(crc, x), 8)
  {
    hide Shift, Xor, Shifts;
    assert [x][1..] == [];
  }

  /** Flipping bit r of one byte and bit s of a later one goes unnoticed exactly when the number of
      bit positions from the one to the other is a multiple of 32767. */
  lemma TwoFlipsIff(crc: bv16, before: seq<bv8>, x: bv8, mid: seq<bv8>, y: bv8, after: seq<bv8>, r: nat, s: nat)
    requires r < 8 && s < 8
    ensures Crc(crc, before + ([x] + mid + [y]) + after)
         == Crc(crc, before + ([ByteXor(x, BitAt(r))] + mid + [ByteXor(y, BitAt(s))]) + after)
       <==> (8 * (|mid| + 1) + s - r) % PERIOD == 0
  {
    hide Xor, Shift, Feed, Difference, ByteXor, Extend, BitAt, Crc;
    var a, b := [x] + mid + [y], [ByteXor(x, BitAt(r))] + mid + [ByteXor(y, BitAt(s))];
    StretchDetectedIff(crc, before, a, b, after);
    var zeros := Difference(CRC16, Widen(mid), Widen(mid));
    PatternOfTwo(x, mid, y, r, s);
    UnchangedAreZero(mid);
    PatternVanishesIff(r, s, zeros);
  }

  lemma UnchangedAreZero(mid: seq<bv8>)
    ensures forall i | 0 <= i < |mid| :: Difference(CRC16, Widen(mid), Widen(mid))[i] == 0
  {
    hide Shift, Xor, Laws;
    CrcLaws();
    DifferenceOfSame(CRC16, Widen(mid));
  }

  lemma FlippedBit(x: bv8, r: nat)
    requires r < 8
    ensures Xor(Extend(x), Extend(ByteXor(x, BitAt(r)))) == Extend(BitAt(r))
  {
    ByteXorExtends(x, ByteXor(x, BitAt(r)));
    hide Xor, Extend, BitAt;
  }

  lemma PatternOfTwo(x: bv8, mid: seq<bv8>, y: bv8, r: nat, s: nat)
    requires r < 8 && s < 8
    ensures Difference(CRC16, Widen([x] + mid + [y]), Widen([ByteXor(x, BitAt(r))] + mid + [ByteXor(y, BitAt(s))]))
         == [Extend(BitAt(r))] + Difference(CRC16, Widen(mid), Widen(mid)) + [Extend(BitAt(s))]
  {
    hide Xor, Shift, ByteXor, Extend, BitAt;
    var x', y' := ByteXor(x, BitAt(r)), ByteXor(y, BitAt(s));
    WidenConcat([x] + mid, [y]);
    WidenConcat([x], mid);
    WidenConcat([x'] + mid, [y']);
    WidenConcat([x'], mid);
    DifferenceConcat(CRC16, Widen([x] + mid), Widen([x'] + mid), Widen([y]), Widen([y']));
    DifferenceConcat(CRC16, Widen([x]), Widen([x']), Widen(mid), Widen(mid));
    DifferenceOfOne(x, x');
    DifferenceOfOne(y, y');
    FlippedBit(x, r);
    FlippedBit(y, s);
  }

  lemma DifferenceOfOne(x: bv8, y: bv8)
    ensures Difference(CRC16, Widen([x]), Widen([y])) == [Xor(Extend(x), Extend(y))]
  {
    hide Xor, Shift, Extend;
    assert Widen([x])[1..] == [] && Widen([y])[1..] == [];
  }

  // ---------------------------------------------------------------- few bit errors

  lemma NoBits(x: bv8)
    requires BitCount(x) == 0
    ensures x == 0
  {
  }

  lemma LoneBit(x: bv8) returns (r: nat)
    requires BitCount(x) == 1
    ensures r < 8 && x == BitAt(r)
  {
    if x & 0x01 != 0 {
      r := 0;
    } else if x & 0x02 != 0 {
      r := 1;
    } else if x & 0x04 != 0 {
      r := 2;
    } else if x & 0x08 != 0 {
      r := 3;
    } else if x & 0x10 != 0 {
      r := 4;
    } else if x & 0x20 != 0 {
      r := 5;
    } else if x & 0x40 != 0 {
      r := 6;
    } else {
      r := 7;
    }
  }

  // The first byte in which two strings differ, and what lies around it.
  lemma {:induction false} FirstError(a: seq<bv8>, b: seq<bv8>) returns (i: nat)
    requires |a| == |b| && a != b
    ensures i < |a| && a[..i] == b[..i] && a[i] != b[i]
    ensures BitErrors(a, b) == BitCount(ByteXor(a[i], b[i])) + BitErrors(a[i + 1..], b[i + 1..])
    decreases a
  {
    hide BitCount, ByteXor;
    if a[0] != b[0] {
      i := 0;
    } else {
      ByteXorExtends(a[0], b[0]);
      NothingSet();
      assert a == [a[0]] + a[1..] && b == [b[0]] + b[1..];
      var k := FirstError(a[1..], b[1..]);
      i := k + 1;
      assert a[..i] == [a[0]] + a[1..][..k] && b[..i] == [b[0]] + b[1..][..k];
      assert a[1..][k + 1..] == a[i + 1..] && b[1..][k + 1..] == b[i + 1..];
    }
  }

  lemma NothingSet()
    ensures BitCount(0) == 0
  {
  }

  lemma {:induction false} NoErrors(a: seq<bv8>, b: seq<bv8>)
    requires |a| == |b|
    ensures BitErrors(a, b) == 0 <==> a == b
    decreases a
  {
    hide BitCount, ByteXor;
    if a != [] {
      NoErrors(a[1..], b[1..]);
      ByteXorExtends(a[0], b[0]);
      NothingSet();
      if BitCount(ByteXor(a[0], b[0])) == 0 {
        NoBits(ByteXor(a[0], b[0]));
      }
      assert a == [a[0]] + a[1..] && b == [b[0]] + b[1..];
    }
  }

  // A changed byte is detected wherever it is.
  lemma OneByteChangeDetected(crc: bv16, before: seq<bv8>, x: bv8, y: bv8, after: seq<bv8>)
    requires x != y
    ensures Crc(crc, before + [x] + after) != Crc(crc, before + [y] + after)
  {
    hide Xor, Shift, Feed, Difference, ByteXor, Extend, Crc, Run;
    StretchDetectedIff(crc, before, [x], [y], after);
    DifferenceOfOne(x, y);
    var d := Xor(Extend(x), Extend(y));
    FeedOne(0, d);
    XorCommutes(0, d);
    XorWithZero(d);
    RunVanishesIff(d, 8);
    XorZeroIff(Extend(x), Extend(y));
    ExtendInjective(x, y);
  }

  lemma ExtendInjective(x: bv8, y: bv8)
    ensures Extend(x) == Extend(y) ==> x == y
  {
  }

  lemma Flipped(x: bv8, y: bv8, d: bv8)
    requires ByteXor(x, y) == d
    ensures y == ByteXor(x, d)
  {
  }

  // One flipped bit in each of two bytes.
  lemma TwoLoneBitsDetected(crc: bv16, before: seq<bv8>, x: bv8, x': bv8, mid: seq<bv8>,
                            y: bv8, y': bv8, after: seq<bv8>)
    requires |mid| <= 4093 && BitCount(ByteXor(x, x')) == 1 && BitCount(ByteXor(y, y')) == 1
    ensures Crc(crc, before + ([x] + mid + [y]) + after) != Crc(crc, before + ([x'] + mid + [y']) + after)
  {
    hide BitCount, ByteXor, BitAt, Crc;
    var r := LoneBit(ByteXor(x, x'));
    var s := LoneBit(ByteXor(y, y'));
    Flipped(x, x', BitAt(r));
    Flipped(y, y', BitAt(s));
    TwoFlipsIff(crc, before, x, mid, y, after, r, s);
  }

  lemma CutAtTwo(a: seq<bv8>, i: nat, j: nat)
    requires i + 1 + j < |a|
    ensures var u := a[i + 1..]; a == a[..i] + ([a[i]] + u[..j] + [u[j]]) + u[j + 1..]
  {
  }

  // The two flipped bits are in byte i and in byte j of the rest behind it.
  lemma TwoBytesDetected(crc: bv16, a: seq<bv8>, b: seq<bv8>, i: nat, j: nat)
    requires |a| == |b| <= 4095 && i + 1 + j < |a| && a[..i] == b[..i]
    requires var u, v := a[i + 1..], b[i + 1..];
             && u[..j] == v[..j] && u[j + 1..] == v[j + 1..]
             && BitCount(ByteXor(a[i], b[i])) == 1 && BitCount(ByteXor(u[j], v[j])) == 1
    ensures Crc(crc, a) != Crc(crc, b)
  {
    hide BitCount, ByteXor, Crc;
    var u, v := a[i + 1..], b[i + 1..];
    TwoLoneBitsDetected(crc, a[..i], a[i], b[i], u[..j], u[j], v[j], u[j + 1..]);
    CutAtTwo(a, i, j);
    CutAtTwo(b, i, j);
  }

  /** Two bit errors in a frame of up to 4095 bytes are detected. */
  lemma TwoBitErrorsDetected(crc: bv16, a: seq<bv8>, b: seq<bv8>)
    requires |a| == |b| <= 4095 && BitErrors(a, b) == 2
    ensures Crc(crc, a) != Crc(crc, b)
  {
    hide BitCount, ByteXor, BitErrors, Crc;
    NoErrors(a, b);
    var i := FirstError(a, b);
    var u, v := a[i + 1..], b[i + 1..];
    NoErrors(u, v);
    if u == v {
      assert a == a[..i] + [a[i]] + u && b == a[..i] + [b[i]] + u;
      OneByteChangeDetected(crc, a[..i], a[i], b[i], u);
    } else {
      var j := FirstError(u, v);
      SomethingSet(a[i], b[i]);
      SomethingSet(u[j], v[j]);
      NoErrors(u[j + 1..], v[j + 1..]);
      TwoBytesDetected(crc, a, b, i, j);
    }
  }

  lemma SomethingSet(x: bv8, y: bv8)
    requires x != y
    ensures BitCount(ByteXor(x, y)) >= 1
  {
    hide BitCount, ByteXor;
    ByteXorExtends(x, y);
    if BitCount(ByteXor(x, y)) == 0 {
      NoBits(ByteXor(x, y));
    }
  }

  /** Any one, two or three bit errors in a frame of up to 4095 bytes are detected. */
  lemma FewBitErrorsDetected(crc: bv16, a: seq<bv8>, b: seq<bv8>)
    requires |a| == |b| <= 4095 && 1 <= BitErrors(a, b) <= 3
    ensures Crc(crc, a) != Crc(crc, b)
  {
    if BitErrors(a, b) == 2 {
      TwoBitErrorsDetected(crc, a, b);
    } else {
      OddErrorsDetected(crc, a, b);
    }
  }

  /** The bound is exact: in a frame of 4096 bytes the first and the last bit can flip unnoticed. */
  lemma FirstAndLastBitUndetected(crc: bv16, x: bv8, mid: seq<bv8>, y: bv8)
    requires |mid| == 4094
    ensures Crc(crc, [x] + mid + [y]) == Crc(crc, [ByteXor(x, 0x01)] + mid + [ByteXor(y, 0x80)])
  {
    hide ByteXor, Crc;
    TwoFlipsIff(crc, [], x, mid, y, [], 0, 7);
    assert BitAt(0) == 0x01 && BitAt(7) == 0x80;
    var a, b := [x] + mid + [y], [ByteXor(x, 0x01)] + mid + [ByteXor(y, 0x80)];
    assert [] + a + [] == a && [] + b + [] == b;
  }
}
