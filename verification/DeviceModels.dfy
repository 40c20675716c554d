/** Register configurations and values shared by the collector, the executor and the caches. */
module DeviceModels {

  type Word = x: int | 0 <= x < 0x1_0000

  datatype ByteOrder = Default | BigEndian | LittleEndian

  datatype RegisterType = Unknown | Coil | DiscreteInput | HoldingRegister | InputRegister

  predicate IsBitType(t: RegisterType) {
    t.Coil? || t.DiscreteInput?
  }

  // The numeric value of the enumerator, used by the sort.
  function TypeRank(t: RegisterType): nat {
    match t
    case Unknown => 0
    case Coil => 1
    case DiscreteInput => 2
    case HoldingRegister => 3
    case InputRegister => 4
  }

  datatype RegisterConfig = RegisterConfig(
    id: int,
    deviceId: int,
    tagName: string,
    localAddress: int,
    unifiedAddress: int,
    regType: RegisterType,
    readOnly: bool,
    length: int,
    isSigned: bool,
    scale: real,
    byteOrder: ByteOrder,
    displayName: string,
    unit: string,
    minValue: real,
    maxValue: real,
    bitLabels: string)

  datatype ConnectionType = Serial | TcpIp

  datatype Protocol = UnknownProtocol | ModbusRtu | ModbusTcp | ModbusAscii | PcLink | PcLinkSum

  datatype Connection = Connection(
    connType: ConnectionType,
    protocol: Protocol,
    defaultByteOrder: ByteOrder,
    ipAddress: string,
    tcpPort: int,
    slaveId: int,
    timeoutMs: int)

  datatype PollMode = Auto | Manual

  datatype Polling = Polling(mode: PollMode, intervalMs: int, retryCount: int)

  function EffectiveByteOrder(fieldOrder: ByteOrder, deviceOrder: ByteOrder): ByteOrder {
    if fieldOrder != Default then fieldOrder else deviceOrder
  }

  function Reversed<T>(s: seq<T>): (r: seq<T>)
    ensures |r| == |s|
    ensures forall i | 0 <= i < |s| :: r[i] == s[|s| - 1 - i]
  {
    if s == [] then [] else Reversed(s[1..]) + [s[0]]
  }

  lemma ReversedTwice<T>(s: seq<T>)
    ensures Reversed(Reversed(s)) == s
  {
  }

  // Word order on the device: anything but big endian is stored last word first.
  function Ordered(values: seq<Word>, byteOrder: ByteOrder): (r: seq<Word>)
    ensures |r| == |values|
  {
    if byteOrder == BigEndian then values else Reversed(values)
  }

  lemma OrderedTwice(values: seq<Word>, byteOrder: ByteOrder)
    ensures Ordered(Ordered(values, byteOrder), byteOrder) == values
  {
    ReversedTwice(values);
  }

  /** Word i of a field in the order of the field, or of the device for a field without one. */
  lemma OrderedByField(values: seq<Word>, fieldOrder: ByteOrder, deviceOrder: ByteOrder)
    ensures var order := if fieldOrder == Default then deviceOrder else fieldOrder;
            var ordered := Ordered(values, EffectiveByteOrder(fieldOrder, deviceOrder));
            forall i | 0 <= i < |values| ::
              ordered[i] == values[if order == BigEndian then i else |values| - 1 - i]
  {
  }

  method ApplyByteOrder(values: seq<Word>, byteOrder: ByteOrder) returns (ordered: seq<Word>)
    ensures ordered == Ordered(values, byteOrder)
    ensures |ordered| == |values|
    ensures byteOrder == BigEndian ==> forall i | 0 <= i < |values| :: ordered[i] == values[i]
    ensures byteOrder != BigEndian ==> forall i | 0 <= i < |values| :: ordered[i] == values[|values| - 1 - i]
  {
    if |values| <= 1 || byteOrder == BigEndian {
      return values;
    }
    ordered := [];
    var i := |values| - 1;
    while i >= 0
      invariant -1 <= i < |values|
      invariant |ordered| == |values| - 1 - i
      invariant forall k | 0 <= k < |ordered| :: ordered[k] == values[|values| - 1 - k]
    {
      ordered := ordered + [values[i]];
      i := i - 1;
    }
  }
}
