/** The PCLink protocol with a sum: frames STX, body, two sum digits, carriage return, line feed;
    the sum check and the parser of a read response. */
module PcLink {
  import opened DeviceModels
  import opened ModbusPdu
  import opened ModbusAscii
  import opened Octets
  import opened Wrappers

  const STX: bv8 := 0x02
  const COMMA: bv8 := 0x2C

  // "RSD,OK" and "NG"
  const RSD_OK: seq<bv8> := [0x52, 0x53, 0x44, 0x2C, 0x4F, 0x4B]
  const NG: seq<bv8> := [0x4E, 0x47]

  // ---------------------------------------------------------------- the sum

  function WrapFrame(body: seq<bv8>): seq<bv8> {
    [STX] + body + ToHex([Sum(body)]) + [CR, LF]
  }

  method CalcBodySum(body: seq<bv8>) returns (sum: bv8)
    ensures sum == Sum(body)
  {
    hide Plus;
    sum := 0;
    var i := 0;
    while i < |body|
      invariant 0 <= i <= |body| && sum == Sum(body[..i])
    {
      assert body[..i + 1][..i] == body[..i];
      sum := Plus(sum, body[i]);
      i := i + 1;
    }
    assert body[..i] == body;
  }

  function Upper(c: bv8): bv8 {
    if 0x61 <= c <= 0x7A then c - 0x20 else c
  }

  // The body and the sum digits of a frame of at least six bytes.
  function Body(frame: seq<bv8>): seq<bv8>
    requires |frame| >= 6
  {
    frame[1..|frame| - 4]
  }

  predicate SumDigitsOk(frame: seq<bv8>)
    requires |frame| >= 6
  {
    var digits := ToHex([Sum(Body(frame))]);
    Upper(frame[|frame| - 4]) == digits[0] && Upper(frame[|frame| - 3]) == digits[1]
  }

  predicate FrameSumOk(frame: seq<bv8>) {
    && |frame| >= 6 && frame[0] == STX
    && frame[|frame| - 2] == CR && frame[|frame| - 1] == LF
    && SumDigitsOk(frame)
  }

  method VerifyFrameSum(frame: seq<bv8>) returns (ok: bool)
    ensures ok <==> FrameSumOk(frame)
  {
    hide Plus, ToHex;
    if |frame| < 6 || frame[0] != STX || frame[|frame| - 2] != CR || frame[|frame| - 1] != LF {
      return false;
    }
    var sumPos := |frame| - 4;
    var sum := 0;
    var i := 1;
    assert frame[1..1] == [];
    while i < sumPos
      invariant 1 <= i <= sumPos && sum == Sum(frame[1..i])
    {
      assert frame[1..i + 1][..i - 1] == frame[1..i];
      sum := Plus(sum, frame[i]);
      i := i + 1;
    }
    var digits := ToHex([sum]);
    return Upper(frame[sumPos]) == digits[0] && Upper(frame[sumPos + 1]) == digits[1];
  }

  lemma HexOfByte(b: bv8)
    ensures ToHex([b]) == [HexChar(HighNibble(b)), HexChar(LowNibble(b))]
  {
    hide HexChar, HighNibble, LowNibble;
    assert [b][..0] == [];
  }

  lemma HexDigitsAreUpper(nibble: bv8)
    requires nibble < 16
    ensures Upper(HexChar(nibble)) == HexChar(nibble)
  {
  }

  /** A wrapped frame passes the check exactly when its body is not empty. */
  lemma WrappedFrameVerifies(body: seq<bv8>)
    ensures FrameSumOk(WrapFrame(body)) <==> body != []
  {
    hide Sum, HexChar, HighNibble, LowNibble, Upper;
    var frame, sum := WrapFrame(body), Sum(body);
    HexOfByte(sum);
    if body != [] {
      assert Body(frame) == body;
      NibblesJoin(sum);
      HexDigitsAreUpper(HighNibble(sum));
      HexDigitsAreUpper(LowNibble(sum));
    }
  }

  lemma SameDigitsSameByte(x: bv8, y: bv8)
    requires HexChar(HighNibble(x)) == HexChar(HighNibble(y)) && HexChar(LowNibble(x)) == HexChar(LowNibble(y))
    ensures x == y
  {
  }

  // Replaces one byte.
  function Damaged(frame: seq<bv8>, i: nat, b: bv8): seq<bv8>
    requires i < |frame|
  {
    frame[i := b]
  }

  lemma SumOfDamaged(body: seq<bv8>, i: nat, b: bv8)
    requires i < |body|
    ensures Sum(body[i := b]) == Sum(body) <==> b == body[i]
  {
    hide Plus, Sum, Negate;
    var before, after := body[..i], body[i + 1..];
    assert body == before + [body[i]] + after && body[i := b] == before + [b] + after;
    SumConcat(before + [body[i]], after);
    SumConcat(before + [b], after);
    SumConcat(before, [body[i]]);
    SumConcat(before, [b]);
    SumOfOne(b);
    SumOfOne(body[i]);
    PlusCancels(b, body[i], Sum(before));
    PlusCancels(Sum(before + [b]), Sum(before + [body[i]]), Sum(after));
  }

  /** One changed byte of the body is detected. */
  lemma DamagedBodyRejected(frame: seq<bv8>, i: nat, b: bv8)
    requires FrameSumOk(frame) && 1 <= i < |frame| - 4 && b != frame[i]
    ensures !FrameSumOk(Damaged(frame, i, b))
  {
    hide Sum, HexChar, HighNibble, LowNibble, Upper;
    var other := Damaged(frame, i, b);
    assert Body(other) == Body(frame)[i - 1 := b];
    SumOfDamaged(Body(frame), i - 1, b);
    HexOfByte(Sum(Body(frame)));
    HexOfByte(Sum(Body(other)));
    if FrameSumOk(other) {
      SameDigitsSameByte(Sum(Body(frame)), Sum(Body(other)));
    }
  }

  /** The order of the bytes is not covered: two neighbours may swap unnoticed. */
  lemma SwappedBodyAccepted(before: seq<bv8>, x: bv8, y: bv8, after: seq<bv8>)
    ensures FrameSumOk([STX] + (before + [y, x] + after) + ToHex([Sum(before + [x, y] + after)]) + [CR, LF])
  {
    hide ToHex, FrameSumOk, Plus, Sum;
    SumConcat(before + [x, y], after);
    SumConcat(before + [y, x], after);
    SumConcat(before, [x, y]);
    SumConcat(before, [y, x]);
    SumOfTwo(x, y);
    SumOfTwo(y, x);
    PlusCommutes(x, y);
    assert |before + [y, x] + after| > 0;
    WrappedFrameVerifies(before + [y, x] + after);
  }

  lemma SumOfTwo(x: bv8, y: bv8)
    ensures Sum([x, y]) == Plus(x, y)
  {
    hide Plus, Sum;
    SumConcat([x], [y]);
    assert [x] + [y] == [x, y];
    SumOfOne(x);
    SumOfOne(y);
  }

  lemma PlusCommutes(x: bv8, y: bv8)
    ensures Plus(x, y) == Plus(y, x)
  {
  }

  // ---------------------------------------------------------------- the read response

  // A value as the device prints it: a comma and four hex digits.
  function Field(v: Word): (f: seq<bv8>)
    ensures |f| == 5
  {
    [COMMA] + ToHex([Hi(v), Lo(v)])
  }

  function Fields(values: seq<Word>): (f: seq<bv8>)
    ensures |f| == 5 * |values|
  {
    if values == [] then [] else Fields(values[..|values| - 1]) + Field(values[|values| - 1])
  }

  function RsdResponse(station: seq<bv8>, values: seq<Word>): seq<bv8> {
    WrapFrame(station + RSD_OK + Fields(values))
  }

  // Four hex digits of either case.
  function HexWord(text: seq<bv8>): Option<Word>
    requires |text| == 4
  {
    var d0, d1, d2, d3 := HexValue(text[0]), HexValue(text[1]), HexValue(text[2]), HexValue(text[3]);
    if d0.Some? && d1.Some? && d2.Some? && d3.Some?
    then Some(Number(JoinNibbles(d0.value, d1.value), JoinNibbles(d2.value, d3.value)))
    else None
  }

  lemma ValueOfNibbles(high: bv8, low: bv8)
    requires high < 16 && low < 16
    ensures Value(JoinNibbles(high, low)) == 16 * Value(high) + Value(low)
  {
    BitsOfNibbles(high, low);
    hide JoinNibbles;
  }

  lemma BitsOfNibbles(high: bv8, low: bv8)
    requires high < 16 && low < 16
    ensures var b := JoinNibbles(high, low);
            && b & 0x01 == low & 0x01 && b & 0x02 == low & 0x02 && b & 0x04 == low & 0x04 && b & 0x08 == low & 0x08
            && (b & 0x10 != 0 <==> high & 0x01 != 0) && (b & 0x20 != 0 <==> high & 0x02 != 0)
            && (b & 0x40 != 0 <==> high & 0x04 != 0) && (b & 0x80 != 0 <==> high & 0x08 != 0)
    ensures low & 0x10 == 0 && low & 0x20 == 0 && low & 0x40 == 0 && low & 0x80 == 0
    ensures high & 0x10 == 0 && high & 0x20 == 0 && high & 0x40 == 0 && high & 0x80 == 0
  {
  }

  /** Four hex digits are a number, highest digit first. */
  lemma HexWordIsNumber(text: seq<bv8>)
    requires |text| == 4
    ensures HexWord(text).Some? <==> forall i | 0 <= i < 4 :: HexValue(text[i]).Some?
    ensures HexWord(text).Some? ==>
              HexWord(text).value == 4096 * Value(HexValue(text[0]).value) + 256 * Value(HexValue(text[1]).value)
                                     + 16 * Value(HexValue(text[2]).value) + Value(HexValue(text[3]).value)
  {
    DigitsAreSmall(text[0]);
    DigitsAreSmall(text[1]);
    DigitsAreSmall(text[2]);
    DigitsAreSmall(text[3]);
    hide HexValue, JoinNibbles, Value;
    if HexWord(text).Some? {
      ValueOfNibbles(HexValue(text[0]).value, HexValue(text[1]).value);
      ValueOfNibbles(HexValue(text[2]).value, HexValue(text[3]).value);
    }
  }

  lemma DigitsAreSmall(c: bv8)
    ensures HexValue(c).Some? ==> HexValue(c).value < 16
  {
  }

  datatype RsdResult = Values(values: seq<Word>) | NgResponse | SumMismatch | ResponseTooShort | BadHeader | BadValue

  /** `lenient` is what the text conversion of the library makes of four characters that are not
      four hex digits. */
  method ParseRsdResponse(response: seq<bv8>, expectedCount: int, lenient: seq<bv8> -> Option<Word>)
    returns (result: RsdResult)
    ensures result == ParsedRsd(response, expectedCount, lenient)
  {
    hide HexWord, FrameSumOk;
    if |response| >= 11 && response[3..5] == NG {
      return NgResponse;
    }
    var sumOk := VerifyFrameSum(response);
    if !sumOk {
      return SumMismatch;
    }
    var minLen := 1 + 2 + 6 + expectedCount * 5 + 2 + 2;
    if |response| < minLen {
      return ResponseTooShort;
    }
    if |response| < 9 || response[3..9] != RSD_OK {
      return BadHeader;
    }
    var out: seq<Word> := [];
    var pos := 9;
    var dataEnd := |response| - 4;
    var i := 0;
    while i < expectedCount
      invariant 0 <= i && (expectedCount >= 0 ==> i <= expectedCount) && (expectedCount < 0 ==> i == 0)
      invariant pos == 9 + 5 * i && |out| == i
      invariant i > 0 ==> pos <= dataEnd
      invariant ParsedValues(response, 9, expectedCount, lenient)
             == Prepended(out, ParsedValues(response, pos, expectedCount - i, lenient))
      decreases expectedCount - i
    {
      if pos + 5 > dataEnd || response[pos] != COMMA {
        return BadValue;
      }
      var text := response[pos + 1..pos + 5];
      var strict := HexWord(text);
      var val := if strict.Some? then strict else lenient(text);
      if val.None? {
        return BadValue;
      }
      PrependMore(out, val.value, ParsedValues(response, pos + 5, expectedCount - i - 1, lenient));
      out := out + [val.value];
      pos := pos + 5;
      i := i + 1;
    }
    return Values(out);
  }

  function Prepended(out: seq<Word>, r: RsdResult): RsdResult {
    if r.Values? then Values(out + r.values) else r
  }

  lemma PrependMore(out: seq<Word>, v: Word, r: RsdResult)
    ensures Prepended(out, Prepended([v], r)) == Prepended(out + [v], r)
  {
    if r.Values? {
      assert out + ([v] + r.values) == out + [v] + r.values;
    }
  }

  // The values from position `pos` on.
  function ParsedValues(response: seq<bv8>, pos: nat, count: int, lenient: seq<bv8> -> Option<Word>): RsdResult
    decreases count
  {
    if count <= 0 then Values([])
    else if pos + 5 > |response| - 4 || response[pos] != COMMA then BadValue
    else
      var text := response[pos + 1..pos + 5];
      var val := if HexWord(text).Some? then HexWord(text) else lenient(text);
      if val.None? then BadValue
      else Prepended([val.value], ParsedValues(response, pos + 5, count - 1, lenient))
  }

  function ParsedRsd(response: seq<bv8>, expectedCount: int, lenient: seq<bv8> -> Option<Word>): RsdResult {
    if |response| >= 11 && response[3..5] == NG then NgResponse
    else if !FrameSumOk(response) then SumMismatch
    else if |response| < 13 + expectedCount * 5 then ResponseTooShort
    else if |response| < 9 || response[3..9] != RSD_OK then BadHeader
    else ParsedValues(response, 9, expectedCount, lenient)
  }

  // Field i behind `pos`: a comma and four characters, taken as hex digits or else leniently.
  function ValueAt(response: seq<bv8>, pos: nat, i: nat, lenient: seq<bv8> -> Option<Word>): Option<Word> {
    var at := pos + 5 * i;
    if at + 5 > |response| - 4 || response[at] != 0x2C then None
    else
      var text := response[at + 1..at + 5];
      if HexWord(text).Some? then HexWord(text) else lenient(text)
  }

  // The first so many fields are these values; and there are that many fields.
  predicate FieldsGive(response: seq<bv8>, pos: nat, values: seq<Word>, lenient: seq<bv8> -> Option<Word>) {
    forall i | 0 <= i < |values| :: ValueAt(response, pos, i, lenient) == Some(values[i])
  }

  predicate HasFields(response: seq<bv8>, pos: nat, count: int, lenient: seq<bv8> -> Option<Word>) {
    forall i | 0 <= i < count :: ValueAt(response, pos, i, lenient).Some?
  }

  lemma {:induction false} ValuesMean(response: seq<bv8>, pos: nat, count: int, lenient: seq<bv8> -> Option<Word>)
    ensures var r := ParsedValues(response, pos, count, lenient);
            && (r.Values? || r == BadValue)
            && (r.Values? <==> HasFields(response, pos, count, lenient))
            && (r.Values? ==> |r.values| == (if count < 0 then 0 else count))
            && (r.Values? ==> FieldsGive(response, pos, r.values, lenient))
    decreases count
  {
    if count > 0 {
      hide HexWord, FieldsGive, HasFields;
      ValuesMean(response, pos + 5, count - 1, lenient);
      FieldsNext(response, pos, count, lenient);
      var first := ValueAt(response, pos, 0, lenient);
      var rest := ParsedValues(response, pos + 5, count - 1, lenient);
      if first.Some? && rest.Values? {
        FieldsGiveNext(response, pos, first.value, rest.values, lenient);
      }
    }
  }

  lemma FieldMoves(response: seq<bv8>, pos: nat, i: nat, lenient: seq<bv8> -> Option<Word>)
    ensures ValueAt(response, pos, i + 1, lenient) == ValueAt(response, pos + 5, i, lenient)
  {
    assert pos + 5 * (i + 1) == pos + 5 + 5 * i;
  }

  lemma FieldsNext(response: seq<bv8>, pos: nat, count: int, lenient: seq<bv8> -> Option<Word>)
    requires count > 0
    ensures HasFields(response, pos, count, lenient) <==>
              ValueAt(response, pos, 0, lenient).Some? && HasFields(response, pos + 5, count - 1, lenient)
  {
    hide ValueAt;
    var next := pos + 5;
    forall i | 0 <= i < count - 1 && !ValueAt(response, next, i, lenient).Some?
      ensures !HasFields(response, pos, count, lenient)
    {
      FieldMoves(response, pos, i, lenient);
    }
    forall i | 0 < i < count && !ValueAt(response, pos, i, lenient).Some?
      ensures !HasFields(response, pos + 5, count - 1, lenient)
    {
      FieldMoves(response, pos, i - 1, lenient);
    }
  }

  lemma FieldsGiveNext(response: seq<bv8>, pos: nat, first: Word, rest: seq<Word>,
                       lenient: seq<bv8> -> Option<Word>)
    requires ValueAt(response, pos, 0, lenient) == Some(first) && FieldsGive(response, pos + 5, rest, lenient)
    ensures FieldsGive(response, pos, [first] + rest, lenient)
  {
    hide ValueAt;
    forall i | 0 < i < |rest| + 1
      ensures ValueAt(response, pos, i, lenient) == Some(([first] + rest)[i])
    {
      FieldMoves(response, pos, i - 1, lenient);
    }
  }

  /** A response is taken as an error frame by its two letters alone; it gives values exactly if its sum is
      right, it is long enough, RSD,OK stands behind the station, and every field asked for is a value. */
  lemma RsdMeans(response: seq<bv8>, expectedCount: int, lenient: seq<bv8> -> Option<Word>)
    ensures var r := ParsedRsd(response, expectedCount, lenient);
            && (r == NgResponse <==> |response| >= 11 && response[3] == 0x4E && response[4] == 0x47)
            && (r.Values? <==>
                  && !(|response| >= 11 && response[3] == 0x4E && response[4] == 0x47)
                  && FrameSumOk(response) && |response| >= 13 + expectedCount * 5
                  && |response| >= 9 && response[3..9] == [0x52, 0x53, 0x44, 0x2C, 0x4F, 0x4B]
                  && HasFields(response, 9, expectedCount, lenient))
            && (r.Values? ==> |r.values| == (if expectedCount < 0 then 0 else expectedCount))
            && (r.Values? ==> FieldsGive(response, 9, r.values, lenient))
  {
    hide HexWord, FrameSumOk, ValueAt, HasFields, FieldsGive;
    ValuesMean(response, 9, expectedCount, lenient);
    if |response| >= 11 {
      assert response[3..5] == [response[3], response[4]];
    }
  }

  lemma FieldReadsBack(v: Word)
    ensures HexWord(Field(v)[1..5]) == Some(v)
  {
    hide HexChar, HexValue, HighNibble, LowNibble, JoinNibbles, Hi, Lo, Number, ToHex;
    var hi, lo := Hi(v), Lo(v);
    HexOfByte(hi);
    HexOfByte(lo);
    ToHexConcat([hi], [lo]);
    assert [hi] + [lo] == [hi, lo];
    assert Field(v)[1..5] == [HexChar(HighNibble(hi)), HexChar(LowNibble(hi)),
                               HexChar(HighNibble(lo)), HexChar(LowNibble(lo))];
    NibblesJoin(hi);
    NibblesJoin(lo);
    HexCharReadsBack(HighNibble(hi));
    HexCharReadsBack(LowNibble(hi));
    HexCharReadsBack(HighNibble(lo));
    HexCharReadsBack(LowNibble(lo));
    NumberReadsBack(v);
  }

  lemma {:induction false} FieldAt(values: seq<Word>, i: nat)
    requires i < |values|
    ensures Fields(values)[5 * i..5 * i + 5] == Field(values[i])
    decreases |values|
  {
    hide Field;
    if i < |values| - 1 {
      var init := values[..|values| - 1];
      FieldAt(init, i);
      assert Fields(values)[5 * i..5 * i + 5] == Fields(init)[5 * i..5 * i + 5];
    }
  }

  lemma ResponseLayout(station: seq<bv8>, values: seq<Word>)
    requires |station| == 2
    ensures var r := RsdResponse(station, values);
            && |r| == 13 + 5 * |values| && r[3..9] == RSD_OK && r[3] == 0x52
            && r[9..|r| - 4] == Fields(values)
            && FrameSumOk(r)
  {
    hide Sum, ToHex, Fields, FrameSumOk;
    WrappedFrameVerifies(station + RSD_OK + Fields(values));
  }

  lemma {:induction false} ValuesFrom(response: seq<bv8>, values: seq<Word>, i: nat, count: nat,
                                      lenient: seq<bv8> -> Option<Word>)
    requires |response| == 13 + 5 * |values| && response[9..|response| - 4] == Fields(values)
    requires i + count <= |values|
    ensures ParsedValues(response, 9 + 5 * i, count, lenient) == Values(values[i..i + count])
    decreases count
  {
    hide HexWord, Field, Fields;
    if count > 0 {
      var pos := 9 + 5 * i;
      FieldAt(values, i);
      SliceOfSlice(response, 9, |response| - 4, 5 * i, 5 * i + 5);
      SliceOfSlice(response, pos, pos + 5, 1, 5);
      FieldStartsWithComma(values[i]);
      assert response[pos] == response[pos..pos + 5][0];
      FieldReadsBack(values[i]);
      ValuesFrom(response, values, i + 1, count - 1, lenient);
      assert [values[i]] + values[i + 1..i + count] == values[i..i + count];
    }
  }

  lemma FieldStartsWithComma(v: Word)
    ensures Field(v)[0] == COMMA
  {
  }

  /** Every printed response is read back: asked for no more values than it has, the parser returns
      the first ones; asked for more, it refuses. */
  lemma RsdRoundTrip(station: seq<bv8>, values: seq<Word>, expectedCount: int, lenient: seq<bv8> -> Option<Word>)
    requires |station| == 2
    ensures ParsedRsd(RsdResponse(station, values), expectedCount, lenient)
         == if expectedCount > |values| then ResponseTooShort
            else Values(values[..if expectedCount < 0 then 0 else expectedCount])
  {
    hide RsdResponse, FrameSumOk, Fields;
    var r := RsdResponse(station, values);
    ResponseLayout(station, values);
    assert r[3..5][0] == 0x52;
    if 0 <= expectedCount <= |values| {
      ValuesFrom(r, values, 0, expectedCount, lenient);
    }
  }
}
