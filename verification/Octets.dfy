/** Bytes of a frame as bit vectors, and their numeric values. */
module Octets {

  function One(on: bool): nat {
    if on then 1 else 0
  }

  function Half(x: nat): nat {
    x / 2
  }

  function Digit(x: nat): nat {
    x % 2
  }

  // The byte with these eight binary digits, lowest first.
  function Join(d0: nat, d1: nat, d2: nat, d3: nat, d4: nat, d5: nat, d6: nat, d7: nat): bv8 {
    (if d0 == 1 then 0x01 else 0) | (if d1 == 1 then 0x02 else 0)
    | (if d2 == 1 then 0x04 else 0) | (if d3 == 1 then 0x08 else 0)
    | (if d4 == 1 then 0x10 else 0) | (if d5 == 1 then 0x20 else 0)
    | (if d6 == 1 then 0x40 else 0) | (if d7 == 1 then 0x80 else 0)
  }

  function FromNumber(x: nat): bv8 {
    var y := Half(Half(Half(Half(x))));
    Join(Digit(x), Digit(Half(x)), Digit(Half(Half(x))), Digit(Half(Half(Half(x)))),
         Digit(y), Digit(Half(y)), Digit(Half(Half(y))), Digit(Half(Half(Half(y)))))
  }

  // The byte an integer is truncated to.
  function ByteOf(x: int): bv8 {
    FromNumber(x % 256)
  }

  // The number a byte stands for.
  function Value(b: bv8): (v: nat)
    ensures v < 256
  {
    One(b & 0x01 != 0) + 2 * One(b & 0x02 != 0) + 4 * One(b & 0x04 != 0) + 8 * One(b & 0x08 != 0)
    + 16 * One(b & 0x10 != 0) + 32 * One(b & 0x20 != 0) + 64 * One(b & 0x40 != 0) + 128 * One(b & 0x80 != 0)
  }

  lemma BitsOfJoin(d0: nat, d1: nat, d2: nat, d3: nat, d4: nat, d5: nat, d6: nat, d7: nat)
    ensures var b := Join(d0, d1, d2, d3, d4, d5, d6, d7);
            && (b & 0x01 != 0 <==> d0 == 1) && (b & 0x02 != 0 <==> d1 == 1)
            && (b & 0x04 != 0 <==> d2 == 1) && (b & 0x08 != 0 <==> d3 == 1)
            && (b & 0x10 != 0 <==> d4 == 1) && (b & 0x20 != 0 <==> d5 == 1)
            && (b & 0x40 != 0 <==> d6 == 1) && (b & 0x80 != 0 <==> d7 == 1)
  {
  }

  lemma ValueOfJoin(d0: nat, d1: nat, d2: nat, d3: nat, d4: nat, d5: nat, d6: nat, d7: nat)
    requires d0 < 2 && d1 < 2 && d2 < 2 && d3 < 2 && d4 < 2 && d5 < 2 && d6 < 2 && d7 < 2
    ensures Value(Join(d0, d1, d2, d3, d4, d5, d6, d7))
         == d0 + 2 * d1 + 4 * d2 + 8 * d3 + 16 * d4 + 32 * d5 + 64 * d6 + 128 * d7
  {
    hide Join;
    BitsOfJoin(d0, d1, d2, d3, d4, d5, d6, d7);
    var b := Join(d0, d1, d2, d3, d4, d5, d6, d7);
    OneIsDigit(b & 0x01 != 0, d0);
    OneIsDigit(b & 0x02 != 0, d1);
    OneIsDigit(b & 0x04 != 0, d2);
    OneIsDigit(b & 0x08 != 0, d3);
    OneIsDigit(b & 0x10 != 0, d4);
    OneIsDigit(b & 0x20 != 0, d5);
    OneIsDigit(b & 0x40 != 0, d6);
    OneIsDigit(b & 0x80 != 0, d7);
    hide One;
  }

  lemma OneIsDigit(on: bool, d: nat)
    requires d < 2 && (on <==> d == 1)
    ensures One(on) == d
  {
  }

  lemma Halve(x: nat)
    ensures x == 2 * Half(x) + Digit(x) && Digit(x) < 2
  {
  }

  lemma NibbleAddsUp(x: nat)
    ensures var a, b, c := Half(x), Half(Half(x)), Half(Half(Half(x)));
            && x == Digit(x) + 2 * Digit(a) + 4 * Digit(b) + 8 * Digit(c) + 16 * Half(c)
            && Digit(x) < 2 && Digit(a) < 2 && Digit(b) < 2 && Digit(c) < 2
  {
    hide Digit, Half;
    Halve(x);
    Halve(Half(x));
    Halve(Half(Half(x)));
    Halve(Half(Half(Half(x))));
  }

  lemma ValueOfNumber(x: nat)
    requires x < 256
    ensures Value(FromNumber(x)) == x
  {
    hide Value, Join, Digit, Half;
    var y := Half(Half(Half(Half(x))));
    NibbleAddsUp(x);
    NibbleAddsUp(y);
    ValueOfJoin(Digit(x), Digit(Half(x)), Digit(Half(Half(x))), Digit(Half(Half(Half(x)))),
                Digit(y), Digit(Half(y)), Digit(Half(Half(y))), Digit(Half(Half(Half(y)))));
  }

  /** Truncation to a byte keeps the value modulo 256. */
  lemma ValueOfByte(x: int)
    ensures Value(ByteOf(x)) == x % 256
  {
    hide Value, FromNumber;
    ValueOfNumber(x % 256);
  }
}
