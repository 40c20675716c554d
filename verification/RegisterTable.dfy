/** The table of current values: combining the words of a register into one number, scaling and
    clamping it, and what a poll that succeeded or failed does to an entry. */
module RegisterTable {
  import opened DeviceModels
  import opened Wrappers

  const TWO64: int := 0x1_0000_0000_0000_0000

  // ---------------------------------------------------------------- numbers of several words

  // 65536 to the n.
  function Span(n: nat): (s: nat)
    ensures s >= 1 && (n > 0 ==> s % 2 == 0)
  {
    if n == 0 then 1 else Span(n - 1) * 0x1_0000
  }

  // The number the words spell, first word highest.
  function Unsigned(words: seq<Word>): nat {
    if words == [] then 0 else Unsigned(words[..|words| - 1]) * 0x1_0000 + words[|words| - 1]
  }

  /** The two's complement reading of the same words. */
  function TwosComplement(words: seq<Word>): int {
    var u, span := Unsigned(words), Span(|words|);
    if 2 * u >= span then u - span else u
  }

  function Decoded(words: seq<Word>, isSigned: bool): int {
    if isSigned then TwosComplement(words) else Unsigned(words)
  }

  // The n words of a number, highest first; negative numbers in two's complement.
  function Split(v: int, n: nat): (words: seq<Word>)
    ensures |words| == n
    decreases n
  {
    if n == 0 then [] else Split(v / 0x1_0000, n - 1) + [v % 0x1_0000]
  }

  lemma {:induction false} UnsignedBelowSpan(words: seq<Word>)
    ensures Unsigned(words) < Span(|words|)
    decreases |words|
  {
    if words != [] {
      UnsignedBelowSpan(words[..|words| - 1]);
    }
  }

  lemma {:induction false} SplitSpells(v: int, n: nat)
    ensures exists k: int :: v == Unsigned(Split(v, n)) + k * Span(n)
    decreases n
  {
    if n == 0 {
      assert v == Unsigned(Split(v, 0)) + v * Span(0);
    } else {
      var q, r := v / 0x1_0000, v % 0x1_0000;
      SplitSpells(q, n - 1);
      var k: int :| q == Unsigned(Split(q, n - 1)) + k * Span(n - 1);
      assert Split(v, n)[..n - 1] == Split(q, n - 1);
      Regroup(Unsigned(Split(q, n - 1)), k, Span(n - 1), r, v, q);
      assert v == Unsigned(Split(v, n)) + k * Span(n);
    }
  }

  lemma Regroup(u: int, k: int, s: int, r: int, v: int, q: int)
    requires v == q * 0x1_0000 + r && q == u + k * s
    ensures v == u * 0x1_0000 + r + k * (s * 0x1_0000)
  {
    assert k * (s * 0x1_0000) == (k * s) * 0x1_0000;
  }

  // Two numbers that differ by a multiple of the span and are less than a span apart are equal.
  lemma SameResidue(a: int, b: int, k: int, s: nat)
    requires a == b + k * s && a - b < s && b - a < s && s >= 1
    ensures a == b
  {
    Multiple(k, s);
  }

  lemma Multiple(k: int, s: nat)
    ensures k >= 1 ==> k * s >= s
    ensures k <= -1 ==> k * s + s <= 0
  {
    if k >= 1 {
      assert (k - 1) * s >= 0;
    } else if k <= -1 {
      assert (-1 - k) * s >= 0;
    }
  }

  predicate Fits(v: int, n: nat, isSigned: bool) {
    if isSigned then 0 - Span(n) <= 2 * v < Span(n) else 0 <= v < Span(n)
  }

  /** Decoding inverts the split of every number that fits, for any number of words. */
  lemma DecodedSplit(v: int, n: nat, isSigned: bool)
    requires n >= 1 && Fits(v, n, isSigned)
    ensures Decoded(Split(v, n), isSigned) == v
  {
    SplitSpells(v, n);
    var words := Split(v, n);
    var u, s := Unsigned(words), Span(n);
    var k: int :| v == u + k * s;
    UnsignedBelowSpan(words);
    if isSigned && 2 * u >= s {
      assert v == (u - s) + (k + 1) * s;
      SameResidue(v, u - s, k + 1, s);
    } else {
      SameResidue(v, u, k, s);
    }
  }

  /** And the split inverts decoding: no two word lists of one length mean the same number. */
  lemma {:induction false} SplitUnsigned(words: seq<Word>, k: int)
    ensures Split(Unsigned(words) + k * Span(|words|), |words|) == words
    decreases |words|
  {
    if words != [] {
      var n := |words|;
      var init, r := words[..n - 1], words[n - 1];
      SplitUnsigned(init, k);
      var q := Unsigned(init) + k * Span(n - 1);
      Regroup(Unsigned(init), k, Span(n - 1), r, q * 0x1_0000 + r, q);
      assert Unsigned(words) + k * Span(n) == q * 0x1_0000 + r;
      QuotientOf(q, r);
    }
  }

  lemma QuotientOf(q: int, r: int)
    requires 0 <= r < 0x1_0000
    ensures (q * 0x1_0000 + r) / 0x1_0000 == q && (q * 0x1_0000 + r) % 0x1_0000 == r
  {
  }

  lemma SplitDecoded(words: seq<Word>, isSigned: bool)
    ensures Split(Decoded(words, isSigned), |words|) == words
  {
    hide Split, Unsigned, Span;
    var k := if isSigned && 2 * Unsigned(words) >= Span(|words|) then -1 else 0;
    assert Decoded(words, isSigned) == Unsigned(words) + k * Span(|words|);
    SplitUnsigned(words, k);
  }

  /** End to end: a number split into words, stored in the device's word order, read back in that
      order and decoded is the number. */
  lemma StoredNumberReadsBack(v: int, n: nat, isSigned: bool, order: ByteOrder)
    requires n >= 1 && Fits(v, n, isSigned)
    ensures Decoded(Ordered(Ordered(Split(v, n), order), order), isSigned) == v
  {
    OrderedTwice(Split(v, n), order);
    DecodedSplit(v, n, isSigned);
  }

  // ---------------------------------------------------------------- the decoding of the code

  lemma {:induction false} SpanOfFew(n: nat)
    requires n <= 4
    ensures Span(n) <= TWO64 && (n == 4 <==> Span(n) == TWO64)
    ensures n < 4 ==> Span(n) * 2 <= TWO64
  {
    assert Span(1) == 0x1_0000;
    assert Span(2) == 0x1_0000_0000;
    assert Span(3) == 0x1_0000_0000_0000;
    assert Span(4) == TWO64;
  }

  // A shift left by sixteen of a 64-bit number, and the word or-ed into the free bits.
  function ShiftIn(combined: int, word: Word): int {
    combined * 0x1_0000 % TWO64 + word
  }

  // A 64-bit number read as signed.
  function AsSigned64(x: int): int {
    if 2 * x >= TWO64 then x - TWO64 else x
  }

  // What 64-bit arithmetic makes of the words: without a sign, the number they spell modulo 2^64.
  function Read64(words: seq<Word>, isSigned: bool): int {
    if isSigned then TwosComplement(words) else Unsigned(words) % TWO64
  }

  /** Up to four words nothing is lost; of more than four only the last four are read. */
  lemma Read64IsExact(words: seq<Word>, isSigned: bool)
    ensures |words| <= 4 ==> Read64(words, isSigned) == Decoded(words, isSigned)
    ensures |words| > 4 && !isSigned ==> Read64(words, isSigned) == Unsigned(words[|words| - 4..])
  {
    hide Unsigned, Span, TwosComplement;
    if |words| <= 4 {
      UnsignedBelowSpan(words);
      SpanOfFew(|words|);
    } else {
      LastFourRemain(words[..|words| - 4], words[|words| - 4..]);
      assert words == words[..|words| - 4] + words[|words| - 4..];
    }
  }

  lemma LastFourRemain(front: seq<Word>, last: seq<Word>)
    requires |last| == 4
    ensures Unsigned(front + last) % TWO64 == Unsigned(last)
  {
    hide Unsigned, Span;
    UnsignedJoins(front, last);
    UnsignedBelowSpan(last);
    SpanOfFew(4);
    RestOfSum(Unsigned(front), Unsigned(last), TWO64);
  }

  lemma RestOfSum(a: nat, b: nat, m: nat)
    requires b < m
    ensures (a * m + b) % m == b
    decreases a
  {
    if a > 0 {
      RestOfSum(a - 1, b, m);
      assert a * m + b == ((a - 1) * m + b) + m;
      OneMoreTurn((a - 1) * m + b, m);
    }
  }

  lemma OneMoreTurn(x: nat, m: nat)
    requires m > 0
    ensures (x + m) % m == x % m
  {
    var q, r := x / m, x % m;
    assert x + m == (q + 1) * m + r;
    DivModUnique(x + m, m, q + 1, r);
  }

  lemma DivModUnique(x: nat, m: nat, q: nat, r: nat)
    requires m > 0 && r < m && x == q * m + r
    ensures x % m == r
  {
    var k := q - x / m;
    assert r == x % m + (0 - k) * m;
    SameResidue(r, x % m, 0 - k, m);
  }

  lemma {:induction false} UnsignedJoins(a: seq<Word>, b: seq<Word>)
    ensures Unsigned(a + b) == Unsigned(a) * Span(|b|) + Unsigned(b)
    decreases |b|
  {
    if b == [] {
      assert a + b == a;
    } else {
      var n := |b| - 1;
      UnsignedJoins(a, b[..n]);
      assert (a + b)[..|a + b| - 1] == a + b[..n];
      assert Unsigned(a) * Span(n) * 0x1_0000 == Unsigned(a) * Span(n + 1);
    }
  }

  /** On 64-bit arithmetic: the sign bit is extended by setting all higher bits. For four words there
      are none, and the mask comes out zero; for more the shift to the sign bit is undefined. */
  method Combine(words: seq<Word>, isSigned: bool) returns (value: int)
    requires words != [] && (isSigned ==> |words| <= 4)
    ensures value == Read64(words, isSigned)
  {
    hide Unsigned, Span, ShiftIn, TwosComplement;
    if |words| == 1 {
      OneWord(words);
      var combined: int := words[0];
      return if isSigned && combined >= 0x8000 then combined - 0x1_0000 else combined;
    }
    var combined := 0;
    var i := 0;
    NoWords(words[..0]);
    while i < |words|
      invariant 0 <= i <= |words|
      invariant combined == Unsigned(words[..i]) % TWO64
    {
      ShiftedIn(words[..i + 1]);
      assert words[..i + 1][..i] == words[..i];
      combined := ShiftIn(combined, words[i]);
      i := i + 1;
    }
    assert words[..i] == words;
    if isSigned {
      SignExtended(words);
      var signBit := Span(|words|) / 2;
      if combined / signBit % 2 == 1 {
        var highBits := if |words| == 4 then 0 else TWO64 - Span(|words|);
        combined := combined + highBits;
      }
      return AsSigned64(combined);
    }
    value := combined;
  }

  lemma NoWords(words: seq<Word>)
    ensures words == [] ==> Unsigned(words) == 0
  {
  }

  lemma OneWord(words: seq<Word>)
    requires |words| == 1
    ensures Read64(words, false) == words[0]
    ensures Read64(words, true) == words[0] as int - if words[0] >= 0x8000 then 0x1_0000 else 0
  {
    assert words[..0] == [] && Unsigned(words) == words[0];
    assert Span(1) == 0x1_0000;
  }

  lemma ShiftedIn(words: seq<Word>)
    requires words != []
    ensures ShiftIn(Unsigned(words[..|words| - 1]) % TWO64, words[|words| - 1]) == Unsigned(words) % TWO64
  {
    hide Unsigned;
    WordAtTheEnd(words);
    ShiftedWord(Unsigned(words[..|words| - 1]), words[|words| - 1]);
  }

  lemma WordAtTheEnd(words: seq<Word>)
    requires words != []
    ensures Unsigned(words) == Unsigned(words[..|words| - 1]) * 0x1_0000 + words[|words| - 1]
  {
  }

  lemma ShiftedWord(u: nat, word: Word)
    ensures ShiftIn(u % TWO64, word) == (u * 0x1_0000 + word) % TWO64
  {
    var q, r := u / TWO64, u % TWO64;
    var top, rest := r / 0x1_0000_0000_0000, r % 0x1_0000_0000_0000;
    assert r * 0x1_0000 == top * TWO64 + rest * 0x1_0000;
    DivModUnique(r * 0x1_0000, TWO64, top, rest * 0x1_0000);
    assert u * 0x1_0000 + word == (q * 0x1_0000 + top) * TWO64 + (rest * 0x1_0000 + word);
    DivModUnique(u * 0x1_0000 + word, TWO64, q * 0x1_0000 + top, rest * 0x1_0000 + word);
  }

  // Setting the bits above the sign bit, and reading the result as a signed number.
  lemma SignExtended(words: seq<Word>)
    requires 1 <= |words| <= 4
    ensures Span(|words|) / 2 >= 1
    ensures var u, signBit := Unsigned(words) % TWO64, Span(|words|) / 2;
            var highBits := if |words| == 4 then 0 else TWO64 - Span(|words|);
            AsSigned64(if u / signBit % 2 == 1 then u + highBits else u) == TwosComplement(words)
  {
    UnsignedBelowSpan(words);
    SpanOfFew(|words|);
    SignBitTest(Unsigned(words), Span(|words|) / 2);
  }

  lemma SignBitTest(u: nat, signBit: nat)
    requires signBit >= 1 && u < 2 * signBit
    ensures u / signBit % 2 == 1 <==> u >= signBit
  {
    if u >= signBit {
      assert u / signBit == 1;
    } else {
      assert u / signBit == 0;
    }
  }

  // ---------------------------------------------------------------- scaling and clamping

  function CountTrue(bits: seq<bool>): nat {
    if bits == [] then 0 else CountTrue(bits[..|bits| - 1]) + if bits[|bits| - 1] then 1 else 0
  }

  function Times(n: int, scale: real): real {
    n as real * scale
  }

  lemma ScaledNumber(n: int, scale: real)
    ensures Times(n, scale) == n as real * scale
  {
  }

  lemma SimpleTimes(scale: real)
    ensures Times(0, scale) == 0.0 && Times(1, scale) == 1.0 * scale
  {
  }

  function Scaled(config: RegisterConfig, words: seq<Word>, bits: seq<bool>): real {
    match config.regType
    case Coil | DiscreteInput => Times(CountTrue(bits), config.scale)
    case HoldingRegister | InputRegister => Times(Read64(words, config.isSigned), config.scale)
    case Unknown => 0.0
  }

  // The code is defined for these words: only a signed number must not have more than four.
  predicate Defined(config: RegisterConfig, words: seq<Word>) {
    config.isSigned && (config.regType.HoldingRegister? || config.regType.InputRegister?) ==> |words| <= 4
  }

  // The number that up to four words spell, first word highest; signed ones in two's complement.
  ghost predicate Spells(words: seq<Word>, isSigned: bool, v: int) {
    && (|words| == 1 ==>
          v == words[0] as int - if isSigned && words[0] >= 0x8000 then 0x1_0000 else 0)
    && (|words| == 2 ==>
          v == words[0] as int * 0x1_0000 + words[1] - if isSigned && words[0] >= 0x8000 then 0x1_0000_0000 else 0)
    && (|words| == 3 ==>
          v == (words[0] as int * 0x1_0000 + words[1]) * 0x1_0000 + words[2]
               - if isSigned && words[0] >= 0x8000 then 0x1_0000_0000_0000 else 0)
    && (|words| == 4 ==>
          v == ((words[0] as int * 0x1_0000 + words[1]) * 0x1_0000 + words[2]) * 0x1_0000 + words[3]
               - if isSigned && words[0] >= 0x8000 then TWO64 else 0)
  }

  lemma Read64Spells(words: seq<Word>, isSigned: bool)
    ensures Spells(words, isSigned, Read64(words, isSigned))
  {
    if 1 <= |words| <= 4 {
      Read64IsExact(words, isSigned);
      SpanOfFew(|words|);
      assert Span(1) == 0x1_0000 && Span(2) == 0x1_0000_0000 && Span(3) == 0x1_0000_0000_0000 && Span(4) == TWO64;
      UnsignedOfFew(words);
    }
  }

  lemma UnsignedOfFew(words: seq<Word>)
    requires 1 <= |words| <= 4
    ensures |words| == 1 ==> Unsigned(words) == words[0]
    ensures |words| == 2 ==> Unsigned(words) == words[0] as int * 0x1_0000 + words[1]
    ensures |words| == 3 ==> Unsigned(words) == (words[0] as int * 0x1_0000 + words[1]) * 0x1_0000 + words[2]
    ensures |words| == 4 ==>
              Unsigned(words) == ((words[0] as int * 0x1_0000 + words[1]) * 0x1_0000 + words[2]) * 0x1_0000 + words[3]
  {
    if |words| > 1 {
      UnsignedOfFew(words[..|words| - 1]);
    } else {
      assert words[..0] == [];
    }
  }

  // The places of the true coils.
  ghost function TrueAt(bits: seq<bool>): set<int> {
    set i | 0 <= i < |bits| && bits[i]
  }

  lemma {:induction false} CountTrueIsSize(bits: seq<bool>)
    ensures CountTrue(bits) == |TrueAt(bits)|
    decreases |bits|
  {
    if bits != [] {
      var n := |bits| - 1;
      CountTrueIsSize(bits[..n]);
      assert TrueAt(bits) == TrueAt(bits[..n]) + if bits[n] then {n} else {};
    }
  }

  /** The scaled value: the number of true coils, or the number the words spell, times the scale; zero
      without values and for an unknown type. */
  ghost predicate IsScaled(config: RegisterConfig, words: seq<Word>, bits: seq<bool>, value: real) {
    match config.regType
    case Unknown => value == 0.0
    case Coil | DiscreteInput => value == |TrueAt(bits)| as real * config.scale
    case HoldingRegister | InputRegister =>
      && (words == [] ==> value == 0.0)
      && (1 <= |words| <= 4 ==>
            exists v :: Spells(words, config.isSigned, v) && value == v as real * config.scale)
  }

  lemma ScaledMeans(config: RegisterConfig, words: seq<Word>, bits: seq<bool>)
    ensures IsScaled(config, words, bits, Scaled(config, words, bits))
  {
    CountTrueIsSize(bits);
    Read64Spells(words, config.isSigned);
    ScaledNumber(Read64(words, config.isSigned), config.scale);
    ScaledNumber(CountTrue(bits), config.scale);
    NothingRead(config.isSigned);
    hide Spells, TrueAt, Times, Read64, CountTrue;
  }

  lemma NothingRead(isSigned: bool)
    ensures Read64([], isSigned) == 0
  {
  }

  method ComputeScaledValue(config: RegisterConfig, words: seq<Word>, bits: seq<bool>) returns (value: real)
    requires Defined(config, words)
    ensures value == Scaled(config, words, bits)
    ensures IsScaled(config, words, bits, value)
  {
    ScaledMeans(config, words, bits);
    hide IsScaled;
    SimpleTimes(config.scale);
    hide Times;
    match config.regType
    case Coil | DiscreteInput =>
      if |bits| == 1 {
        assert bits[..0] == [] && CountTrue(bits) == if bits[0] then 1 else 0;
        return if bits[0] then 1.0 * config.scale else 0.0;
      }
      var trueCount := 0;
      var i := 0;
      while i < |bits|
        invariant 0 <= i <= |bits| && trueCount == CountTrue(bits[..i])
      {
        assert bits[..i + 1][..i] == bits[..i];
        if bits[i] {
          trueCount := trueCount + 1;
        }
        i := i + 1;
      }
      assert bits[..i] == bits;
      return Times(trueCount, config.scale);
    case HoldingRegister | InputRegister =>
      if words == [] {
        assert Read64(words, config.isSigned) == 0;
        return 0.0;
      }
      var combined := Combine(words, config.isSigned);
      return Times(combined, config.scale);
    case Unknown =>
      return 0.0;
  }

  function Clamp(value: real, minValue: real, maxValue: real): (c: real)
    ensures minValue <= maxValue ==> minValue <= c <= maxValue
    ensures minValue <= value <= maxValue ==> c == value
    ensures value < minValue ==> c == minValue
    ensures value > maxValue && value >= minValue ==> c == maxValue
  {
    if value < minValue then minValue else if value > maxValue then maxValue else value
  }

  // ---------------------------------------------------------------- the table

  datatype RegisterState = RegisterState(
    config: RegisterConfig,
    isValid: bool,
    errorMessage: string,
    rawRegisters: seq<Word>,
    rawCoils: seq<bool>,
    scaledValue: real,
    outOfRange: bool,
    lastUpdated: Option<int>,
    pollingIntervalMs: int)

  class Table {
    var states: map<int, RegisterState>

    constructor ()
      ensures states == map[]
    {
      states := map[];
    }

    method Clear()
      modifies this
      ensures states == map[]
    {
      states := map[];
    }

    // The entry of an address before its first update: no values, and zero.
    function EntryOr(address: int, config: RegisterConfig): RegisterState
      reads this
    {
      if address in states then states[address] else RegisterState(config, true, "", [], [], 0.0, false, None, 1000)
    }

    /** Stores the outcome of one read. A failed read keeps the last values. `outOfRange` is judged
        before the new value is there: it tells of the value the entry had, not of the one it gets. */
    method UpdateState(config: RegisterConfig, words: seq<Word>, bits: seq<bool>, success: bool, error: string,
                       pollingIntervalMs: int, nowUtc: int)
      requires success ==> Defined(config, words)
      modifies this
      ensures config.unifiedAddress < 0 ==> states == old(states)
      ensures config.unifiedAddress >= 0 ==>
                && config.unifiedAddress in states
                && states == old(states)[config.unifiedAddress := states[config.unifiedAddress]]
                && var was, now := old(EntryOr(config.unifiedAddress, config)), states[config.unifiedAddress];
                   && now.config == config && now.isValid == success && now.errorMessage == error
                   && now.pollingIntervalMs == pollingIntervalMs
                   && (!success ==>
                         && now.rawRegisters == was.rawRegisters && now.rawCoils == was.rawCoils
                         && now.scaledValue == was.scaledValue && now.outOfRange == was.outOfRange
                         && now.lastUpdated == was.lastUpdated)
                   && (success ==>
                         && now.rawRegisters == words && now.rawCoils == bits && now.lastUpdated == Some(nowUtc)
                         && now.scaledValue == Clamp(Scaled(config, words, bits), config.minValue, config.maxValue)
                         && (now.outOfRange <==>
                               was.scaledValue < config.minValue || was.scaledValue > config.maxValue))
      ensures config.unifiedAddress >= 0 && config.unifiedAddress !in old(states) ==>
                var now := states[config.unifiedAddress];
                if success then now.outOfRange <==> 0.0 < config.minValue || 0.0 > config.maxValue
                else && now.rawRegisters == [] && now.rawCoils == [] && now.scaledValue == 0.0
                     && !now.outOfRange && now.lastUpdated == None
    {
      var address := config.unifiedAddress;
      if address < 0 {
        return;
      }
      var entry := EntryOr(address, config).(config := config, pollingIntervalMs := pollingIntervalMs,
                                             isValid := success, errorMessage := error);
      if success {
        entry := entry.(lastUpdated := Some(nowUtc), rawRegisters := words, rawCoils := bits,
                        outOfRange := entry.scaledValue < config.minValue || entry.scaledValue > config.maxValue);
        var value := ComputeScaledValue(config, words, bits);
        entry := entry.(scaledValue := Clamp(value, config.minValue, config.maxValue));
      }
      states := states[address := entry];
    }

    /** With unchanged limits no entry is ever out of range from its second good read on: the stored
        value has been clamped already. */
    method ReadTwice(config: RegisterConfig, words1: seq<Word>, bits1: seq<bool>, words2: seq<Word>, bits2: seq<bool>,
                     pollingIntervalMs: int, nowUtc1: int, nowUtc2: int)
      requires Defined(config, words1) && Defined(config, words2)
      requires config.unifiedAddress >= 0 && config.minValue <= config.maxValue
      modifies this
      ensures config.unifiedAddress in states && !states[config.unifiedAddress].outOfRange
    {
      UpdateState(config, words1, bits1, true, "", pollingIntervalMs, nowUtc1);
      UpdateState(config, words2, bits2, true, "", pollingIntervalMs, nowUtc2);
    }
  }
}
