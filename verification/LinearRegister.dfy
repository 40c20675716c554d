/** Checksum registers that are linear: the register after two inputs differs by exactly the
    register after their difference. Error detection follows from what single patterns do. */
module LinearRegister {

  // A shift register over any carrier with an addition `xor` in which x + x is zero.
  datatype Register<!R> = Register(zero: R, xor: (R, R) -> R, shift: R -> R)

  ghost predicate ShiftIsLinear<R(!new)>(g: Register<R>) {
    forall x, y :: g.shift(g.xor(x, y)) == g.xor(g.shift(x), g.shift(y))
  }

  ghost predicate ZeroIsNeutral<R(!new)>(g: Register<R>) {
    forall x :: g.xor(x, g.zero) == x
  }

  ghost predicate ZeroIffEqual<R(!new)>(g: Register<R>) {
    forall x, y :: g.xor(x, y) == g.zero <==> x == y
  }

  ghost predicate Regroups<R(!new)>(g: Register<R>) {
    forall a, b, c, d :: g.xor(g.xor(a, b), g.xor(c, d)) == g.xor(g.xor(a, c), g.xor(b, d))
  }

  ghost predicate ShiftLosesNothing<R(!new)>(g: Register<R>) {
    forall x :: g.shift(x) == g.zero ==> x == g.zero
  }

  ghost predicate Laws<R(!new)>(g: Register<R>) {
    ZeroIsNeutral(g) && ZeroIffEqual(g) && Regroups(g) && ShiftIsLinear(g) && ShiftLosesNothing(g)
  }

  function Shifts<R>(g: Register<R>, x: R, n: nat): R
    decreases n
  {
    if n == 0 then x else Shifts(g, g.shift(x), n - 1)
  }

  // Bits shifted for each input symbol.
  const BITS: nat := 8

  function Add<R>(g: Register<R>, crc: R, b: R): R {
    Shifts(g, g.xor(crc, b), BITS)
  }

  function Feed<R>(g: Register<R>, crc: R, data: seq<R>): R
    decreases data
  {
    if data == [] then crc else Feed(g, Add(g, crc, data[0]), data[1..])
  }

  function Difference<R>(g: Register<R>, a: seq<R>, b: seq<R>): (d: seq<R>)
    requires |a| == |b|
    ensures |d| == |a|
    decreases a
  {
    if a == [] then [] else [g.xor(a[0], b[0])] + Difference(g, a[1..], b[1..])
  }

  lemma {:induction false} FeedConcat<R>(g: Register<R>, crc: R, a: seq<R>, b: seq<R>)
    ensures Feed(g, crc, a + b) == Feed(g, Feed(g, crc, a), b)
    decreases a
  {
    if a == [] {
      assert a + b == b;
    } else {
      assert (a + b)[0] == a[0] && (a + b)[1..] == a[1..] + b;
      FeedConcat(g, Add(g, crc, a[0]), a[1..], b);
    }
  }

  lemma {:induction false} ShiftsLinear<R(!new)>(g: Register<R>, x: R, y: R, n: nat)
    requires ShiftIsLinear(g)
    ensures Shifts(g, g.xor(x, y), n) == g.xor(Shifts(g, x, n), Shifts(g, y, n))
    decreases n
  {
    if n > 0 {
      ShiftsLinear(g, g.shift(x), g.shift(y), n - 1);
    }
  }

  lemma {:induction false} ShiftsToZero<R(!new)>(g: Register<R>, x: R, n: nat)
    requires Laws(g)
    ensures Shifts(g, x, n) == g.zero <==> x == g.zero
    decreases n
  {
    if n > 0 {
      ShiftsToZero(g, g.shift(x), n - 1);
      assert g.xor(g.zero, g.zero) == g.zero;
      assert g.shift(g.xor(g.zero, g.zero)) == g.xor(g.shift(g.zero), g.shift(g.zero)) == g.zero;
    }
  }

  lemma {:induction false} ShiftsAdd<R>(g: Register<R>, x: R, m: nat, n: nat)
    ensures Shifts(g, x, m + n) == Shifts(g, Shifts(g, x, m), n)
    decreases m
  {
    if m > 0 {
      ShiftsAdd(g, g.shift(x), m - 1, n);
    }
  }

  lemma ShiftsInjective<R(!new)>(g: Register<R>, x: R, y: R, n: nat)
    requires Laws(g)
    ensures Shifts(g, x, n) == Shifts(g, y, n) <==> x == y
  {
    ShiftsLinear(g, x, y, n);
    ShiftsToZero(g, g.xor(x, y), n);
  }

  /** Linearity over whole inputs: the difference of two registers is the register of the difference. */
  lemma {:induction false} FeedLinear<R(!new)>(g: Register<R>, x: R, y: R, a: seq<R>, b: seq<R>)
    requires Laws(g) && |a| == |b|
    ensures g.xor(Feed(g, x, a), Feed(g, y, b)) == Feed(g, g.xor(x, y), Difference(g, a, b))
    decreases a
  {
    if a != [] {
      var x1, y1 := Add(g, x, a[0]), Add(g, y, b[0]);
      FeedLinear(g, x1, y1, a[1..], b[1..]);
      ShiftsLinear(g, g.xor(x, a[0]), g.xor(y, b[0]), BITS);
      assert g.xor(x1, y1) == Add(g, g.xor(x, y), g.xor(a[0], b[0]));
      var d := Difference(g, a, b);
      assert d[0] == g.xor(a[0], b[0]) && d[1..] == Difference(g, a[1..], b[1..]);
    }
  }

  // Feeding zeros never turns a nonzero register into zero, nor zero into anything else.
  lemma {:induction false} FeedZeros<R(!new)>(g: Register<R>, x: R, zeros: seq<R>)
    requires Laws(g) && forall i | 0 <= i < |zeros| :: zeros[i] == g.zero
    ensures Feed(g, x, zeros) == g.zero <==> x == g.zero
    decreases zeros
  {
    if zeros != [] {
      FeedZeros(g, Add(g, x, zeros[0]), zeros[1..]);
      assert g.xor(x, zeros[0]) == x;
      ShiftsToZero(g, x, BITS);
    }
  }

  lemma {:induction false} FeedOfZeros<R(!new)>(g: Register<R>, x: R, zeros: seq<R>)
    requires ZeroIsNeutral(g) && forall i | 0 <= i < |zeros| :: zeros[i] == g.zero
    ensures Feed(g, x, zeros) == Shifts(g, x, BITS * |zeros|)
    decreases zeros
  {
    if zeros != [] {
      FeedOfZeros(g, Shifts(g, x, BITS), zeros[1..]);
      ShiftsAdd(g, x, BITS, BITS * |zeros[1..]|);
      assert g.xor(x, zeros[0]) == x;
    }
  }

  lemma {:induction false} DifferenceConcat<R>(g: Register<R>, a: seq<R>, b: seq<R>, a': seq<R>, b': seq<R>)
    requires |a| == |b| && |a'| == |b'|
    ensures Difference(g, a + a', b + b') == Difference(g, a, b) + Difference(g, a', b')
    decreases a
  {
    if a == [] {
      assert a + a' == a' && b + b' == b';
    } else {
      assert (a + a')[1..] == a[1..] + a' && (b + b')[1..] == b[1..] + b';
      DifferenceConcat(g, a[1..], b[1..], a', b');
    }
  }

  lemma {:induction false} DifferenceOfSame<R(!new)>(g: Register<R>, a: seq<R>)
    requires Laws(g)
    ensures forall i | 0 <= i < |a| :: Difference(g, a, a)[i] == g.zero
    decreases a
  {
    if a != [] {
      DifferenceOfSame(g, a[1..]);
      var d := Difference(g, a, a);
      assert forall i | 1 <= i < |a| :: d[i] == Difference(g, a[1..], a[1..])[i - 1];
    }
  }

  /** A change in the middle of an input is detected exactly when its pattern alone,
      fed into the zero register, leaves it nonzero; what lies before and after is irrelevant. */
  lemma ChangeDetectedIff<R(!new)>(g: Register<R>, crc: R, before: seq<R>, a: seq<R>, b: seq<R>, after: seq<R>)
    requires Laws(g) && |a| == |b|
    ensures Feed(g, crc, before + a + after) == Feed(g, crc, before + b + after)
       <==> Feed(g, g.zero, Difference(g, a, b)) == g.zero
  {
    FeedLinear(g, crc, crc, before + a + after, before + b + after);
    DifferenceConcat(g, before + a, before + b, after, after);
    DifferenceConcat(g, before, before, a, b);
    var d0, d1, d2 := Difference(g, before, before), Difference(g, a, b), Difference(g, after, after);
    assert g.xor(crc, crc) == g.zero;
    DifferenceOfSame(g, before);
    DifferenceOfSame(g, after);
    FeedConcat(g, g.zero, d0 + d1, d2);
    FeedConcat(g, g.zero, d0, d1);
    FeedZeros(g, g.zero, d0);
    FeedZeros(g, Feed(g, g.zero, d1), d2);
  }

  // ---------------------------------------------------------------- parity

  // A parity of register values that shifting keeps and that counts modulo two.
  ghost predicate IsParity<R(!new)>(g: Register<R>, odd: R -> bool) {
    && (forall x, y :: odd(g.xor(x, y)) == (odd(x) != odd(y)))
    && (forall x :: odd(g.shift(x)) == odd(x))
  }

  function Odds<R>(data: seq<R>, odd: R -> bool): nat {
    if data == [] then 0 else (if odd(data[0]) then 1 else 0) + Odds(data[1..], odd)
  }

  lemma {:induction false} ShiftsKeepParity<R(!new)>(g: Register<R>, odd: R -> bool, x: R, n: nat)
    requires IsParity(g, odd)
    ensures odd(Shifts(g, x, n)) == odd(x)
    decreases n
  {
    if n > 0 {
      ShiftsKeepParity(g, odd, g.shift(x), n - 1);
    }
  }

  lemma {:induction false} FeedParity<R(!new)>(g: Register<R>, odd: R -> bool, x: R, data: seq<R>)
    requires IsParity(g, odd)
    ensures odd(Feed(g, x, data)) == (odd(x) != (Odds(data, odd) % 2 == 1))
    decreases data
  {
    if data != [] {
      FeedParity(g, odd, Add(g, x, data[0]), data[1..]);
      ShiftsKeepParity(g, odd, g.xor(x, data[0]), BITS);
    }
  }
}
