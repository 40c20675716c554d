/** The ASCII framing: colon, upper-case hex digits, LRC (section 6.2.1 of MODBUS over Serial
    Line V1.02), carriage return, line feed; and the parser that undoes it. */
module ModbusAscii {
  import opened Wrappers

  const COLON: bv8 := 0x3A
  const CR: bv8 := 0x0D
  const LF: bv8 := 0x0A

  // ---------------------------------------------------------------- hex digits

  function HexChar(nibble: bv8): bv8 {
    if nibble < 10 then 0x30 + nibble else 0x37 + nibble
  }

  // The value of a hex digit of either case, or None for any other character.
  function HexValue(c: bv8): Option<bv8> {
    if 0x30 <= c <= 0x39 then Some(c - 0x30)
    else if 0x41 <= c <= 0x46 then Some(c - 0x37)
    else if 0x61 <= c <= 0x66 then Some(c - 0x57)
    else None
  }

  function HighNibble(b: bv8): bv8 {
    b >> 4
  }

  function LowNibble(b: bv8): bv8 {
    b & 0x0F
  }

  function JoinNibbles(high: bv8, low: bv8): bv8 {
    (high << 4) | low
  }

  function ToHex(data: seq<bv8>): (s: seq<bv8>)
    ensures |s| == 2 * |data|
  {
    if data == [] then []
    else ToHex(data[..|data| - 1]) + [HexChar(HighNibble(data[|data| - 1])), HexChar(LowNibble(data[|data| - 1]))]
  }

  lemma {:induction false} ToHexAt(data: seq<bv8>, i: nat)
    requires i < |data|
    ensures ToHex(data)[2 * i] == HexChar(HighNibble(data[i]))
    ensures ToHex(data)[2 * i + 1] == HexChar(LowNibble(data[i]))
    decreases |data|
  {
    hide HexChar, HighNibble, LowNibble;
    if i < |data| - 1 {
      ToHexAt(data[..|data| - 1], i);
    }
  }

  // `QByteArray::fromHex`: characters that are no hex digits are skipped ...
  function Digits(s: seq<bv8>): seq<bv8> {
    if s == [] then []
    else
      var d := HexValue(s[|s| - 1]);
      if d.Some? then Digits(s[..|s| - 1]) + [d.value] else Digits(s[..|s| - 1])
  }

  // ... and the remaining digits are paired from the end.
  function Pairs(d: seq<bv8>): seq<bv8> {
    if |d| == 0 then []
    else if |d| == 1 then [d[0]]
    else Pairs(d[..|d| - 2]) + [JoinNibbles(d[|d| - 2], d[|d| - 1])]
  }

  function FromHex(s: seq<bv8>): seq<bv8> {
    Pairs(Digits(s))
  }

  lemma HexCharReadsBack(nibble: bv8)
    requires nibble < 16
    ensures HexValue(HexChar(nibble)) == Some(nibble)
    ensures HexChar(nibble) != CR && HexChar(nibble) != COLON
  {
  }

  lemma NibblesJoin(b: bv8)
    ensures HighNibble(b) < 16 && LowNibble(b) < 16 && JoinNibbles(HighNibble(b), LowNibble(b)) == b
  {
  }

  lemma OneMoreDigit(s: seq<bv8>, c: bv8)
    requires HexValue(c).Some?
    ensures Digits(s + [c]) == Digits(s) + [HexValue(c).value]
  {
    hide HexValue;
    assert (s + [c])[..|s|] == s;
  }

  lemma OneMorePair(d: seq<bv8>, high: bv8, low: bv8)
    ensures Pairs(d + [high, low]) == Pairs(d) + [JoinNibbles(high, low)]
  {
    hide JoinNibbles;
    assert (d + [high, low])[..|d|] == d;
  }

  lemma OneMoreByte(s: seq<bv8>, b: bv8)
    ensures var t := s + [HexChar(HighNibble(b)), HexChar(LowNibble(b))];
            FromHex(t) == FromHex(s) + [b] && |Digits(t)| == |Digits(s)| + 2
  {
    hide HexChar, HexValue, HighNibble, LowNibble, JoinNibbles, Digits, Pairs;
    var high, low := HighNibble(b), LowNibble(b);
    NibblesJoin(b);
    HexCharReadsBack(high);
    HexCharReadsBack(low);
    OneMoreDigit(s, HexChar(high));
    OneMoreDigit(s + [HexChar(high)], HexChar(low));
    assert s + [HexChar(high), HexChar(low)] == s + [HexChar(high)] + [HexChar(low)];
    assert Digits(s) + [high, low] == Digits(s) + [high] + [low];
    OneMorePair(Digits(s), high, low);
  }

  lemma {:induction false} FromHexToHex(data: seq<bv8>)
    ensures FromHex(ToHex(data)) == data
    ensures |Digits(ToHex(data))| == 2 * |data|
    decreases |data|
  {
    if data != [] {
      hide HexChar, HighNibble, LowNibble, Digits, FromHex;
      var n := |data| - 1;
      FromHexToHex(data[..n]);
      OneMoreByte(ToHex(data[..n]), data[n]);
      assert data == data[..n] + [data[n]];
    }
  }

  lemma {:induction false} HexHasNoCr(data: seq<bv8>, i: nat)
    requires i < 2 * |data|
    ensures ToHex(data)[i] != CR
    decreases |data|
  {
    hide HexChar, HighNibble, LowNibble;
    var b := data[|data| - 1];
    NibblesJoin(b);
    HexCharReadsBack(HighNibble(b));
    HexCharReadsBack(LowNibble(b));
    if i < 2 * |data| - 2 {
      HexHasNoCr(data[..|data| - 1], i);
    }
  }

  lemma {:induction false} ToHexConcat(a: seq<bv8>, b: seq<bv8>)
    ensures ToHex(a + b) == ToHex(a) + ToHex(b)
    decreases |b|
  {
    hide HexChar, HighNibble, LowNibble;
    if b == [] {
      assert a + b == a;
    } else {
      ToHexConcat(a, b[..|b| - 1]);
      assert (a + b)[..|a + b| - 1] == a + b[..|b| - 1];
    }
  }

  // ---------------------------------------------------------------- LRC

  // Addition of bytes, dropping the carry.
  function Plus(x: bv8, y: bv8): bv8 {
    x + y
  }

  function Negate(x: bv8): bv8 {
    !x + 1
  }

  function Sum(data: seq<bv8>): bv8 {
    if data == [] then 0 else Plus(Sum(data[..|data| - 1]), data[|data| - 1])
  }

  function Lrc(data: seq<bv8>): bv8 {
    Negate(Sum(data))
  }

  method ComputeLrc(data: seq<bv8>) returns (lrc: bv8)
    ensures lrc == Lrc(data)
  {
    var sum: bv8 := 0;
    var i := 0;
    while i < |data|
      invariant 0 <= i <= |data|
      invariant sum == Sum(data[..i])
    {
      assert data[..i + 1][..i] == data[..i];
      sum := sum + data[i];
      i := i + 1;
    }
    assert data[..|data|] == data;
    return !sum + 1;
  }

  lemma PlusLaws(x: bv8, y: bv8, z: bv8)
    ensures Plus(Plus(x, y), z) == Plus(x, Plus(y, z))
    ensures Plus(x, 0) == x && Plus(0, x) == x
  {
  }

  lemma PlusCancels(x: bv8, y: bv8, z: bv8)
    ensures Plus(x, z) == Plus(y, z) ==> x == y
    ensures Plus(z, x) == Plus(z, y) ==> x == y
  {
  }

  lemma NegateInjective(x: bv8, y: bv8)
    ensures Negate(x) == Negate(y) ==> x == y
  {
  }

  lemma {:induction false} SumConcat(a: seq<bv8>, b: seq<bv8>)
    ensures Sum(a + b) == Plus(Sum(a), Sum(b))
    decreases |b|
  {
    hide Plus;
    if b == [] {
      assert a + b == a;
      PlusLaws(Sum(a), 0, 0);
    } else {
      SumConcat(a, b[..|b| - 1]);
      assert (a + b)[..|a + b| - 1] == a + b[..|b| - 1];
      PlusLaws(Sum(a), Sum(b[..|b| - 1]), b[|b| - 1]);
    }
  }

  /** One changed byte, anywhere, changes the LRC. */
  lemma OneByteChangeDetected(before: seq<bv8>, x: bv8, y: bv8, after: seq<bv8>)
    requires x != y
    ensures Lrc(before + [x] + after) != Lrc(before + [y] + after)
  {
    hide Plus, Negate, Sum;
    SumConcat(before + [x], after);
    SumConcat(before + [y], after);
    SumConcat(before, [x]);
    SumConcat(before, [y]);
    SumOfOne(x);
    SumOfOne(y);
    PlusCancels(x, y, Sum(before));
    PlusCancels(Sum(before + [x]), Sum(before + [y]), Sum(after));
    NegateInjective(Sum(before + [x] + after), Sum(before + [y] + after));
  }

  lemma SumOfOne(x: bv8)
    ensures Sum([x]) == x
  {
    hide Plus;
    assert [x][..0] == [];
    PlusLaws(x, 0, 0);
  }

  // ---------------------------------------------------------------- framing

  function AsciiFrame(pdu: seq<bv8>): seq<bv8> {
    [COLON] + ToHex(pdu) + ToHex([Lrc(pdu)]) + [CR, LF]
  }

  // First position of `b` at or after `from`, or the length if there is none.
  function IndexOf(s: seq<bv8>, b: bv8, from: nat): (i: nat)
    requires from <= |s|
    ensures from <= i <= |s|
    ensures forall k | from <= k < i :: s[k] != b
    ensures i < |s| ==> s[i] == b
    decreases |s| - from
  {
    if from == |s| || s[from] == b then from else IndexOf(s, b, from + 1)
  }

  function IndexOfCrLf(s: seq<bv8>, from: nat): (i: nat)
    requires from <= |s|
    ensures from <= i <= |s|
    ensures forall k | from <= k < i && k + 1 < |s| :: !(s[k] == CR && s[k + 1] == LF)
    ensures i < |s| ==> i + 1 < |s| && s[i] == CR && s[i + 1] == LF
    decreases |s| - from
  {
    if from == |s| then from
    else if from + 1 < |s| && s[from] == CR && s[from + 1] == LF then from
    else IndexOfCrLf(s, from + 1)
  }

  datatype AsciiResult = Parsed(pdu: seq<bv8>) | FramingError | InvalidHexLength | AsciiTooShort | LrcMismatch

  function ParseAscii(frame: seq<bv8>): AsciiResult {
    var start := IndexOf(frame, COLON, 0);
    if start == |frame| then FramingError
    else
      var end := IndexOfCrLf(frame, start);
      if end == |frame| then FramingError
      else
        var payload := frame[start + 1..end];
        if |payload| % 2 != 0 then InvalidHexLength
        else
          var raw := FromHex(payload);
          if |raw| < 3 then AsciiTooShort
          else if Lrc(raw[..|raw| - 1]) != raw[|raw| - 1] then LrcMismatch
          else Parsed(raw[..|raw| - 1])
  }

  lemma FirstColon(noise: seq<bv8>, rest: seq<bv8>)
    requires COLON !in noise
    ensures IndexOf(noise + [COLON] + rest, COLON, 0) == |noise|
  {
    var s := noise + [COLON] + rest;
    var i := IndexOf(s, COLON, 0);
    assert s[|noise|] == COLON;
    assert forall k | 0 <= k < |noise| :: s[k] == noise[k] && noise[k] != COLON;
  }

  lemma FirstCrLf(s: seq<bv8>, from: nat, end: nat)
    requires from <= end && end + 1 < |s| && s[end] == CR && s[end + 1] == LF
    requires forall k | from <= k < end :: s[k] != CR
    ensures IndexOfCrLf(s, from) == end
  {
    var i := IndexOfCrLf(s, from);
    assert i <= end;
  }

  lemma NoCrInside(s: seq<bv8>, start: nat, body: seq<bv8>)
    requires start + 1 + 2 * |body| <= |s| && s[start] == COLON
    requires s[start + 1..start + 1 + 2 * |body|] == ToHex(body)
    ensures forall k | start <= k < start + 1 + 2 * |body| :: s[k] != CR
  {
    hide ToHex;
    forall k | start < k < start + 1 + 2 * |body|
      ensures s[k] != CR
    {
      HexHasNoCr(body, k - start - 1);
      assert s[k] == s[start + 1..start + 1 + 2 * |body|][k - start - 1];
    }
  }

  /** The parser recovers any pdu of at least two bytes from its frame, behind any noise
      without a colon and before any trailing bytes. */
  lemma AsciiRoundTrip(noise: seq<bv8>, pdu: seq<bv8>, trailing: seq<bv8>)
    requires COLON !in noise && |pdu| >= 2
    ensures ParseAscii(noise + AsciiFrame(pdu) + trailing) == Parsed(pdu)
  {
    hide Lrc, ToHex, FromHex, HexChar, IndexOf, IndexOfCrLf;
    var body := pdu + [Lrc(pdu)];
    var hex := ToHex(body);
    ToHexConcat(pdu, [Lrc(pdu)]);
    var rest := hex + [CR, LF] + trailing;
    var s := noise + AsciiFrame(pdu) + trailing;
    assert s == noise + [COLON] + rest;
    FirstColon(noise, rest);
    var start, end := |noise|, |noise| + 1 + |hex|;
    assert s[start + 1..end] == hex;
    NoCrInside(s, start, body);
    assert s[end] == CR && s[end + 1] == LF;
    FirstCrLf(s, start, end);
    FromHexToHex(body);
    assert body[..|body| - 1] == pdu && body[|body| - 1] == Lrc(pdu);
  }
}
