// The finite tables every generation of the device code shares: request
// kinds and their identifier characters, acknowledge kinds and their
// three-letter designators, variable data types and their byte widths, and
// the device error numbers.
module Protocol {
  import opened Base

  /** Request (command) kind; the constructor order is the C enum value. */
  datatype ReqType = ReqNone | GetVar | SetVar | Command | Upstream | Downstream

  function ReqTypeCode(t: ReqType): (r: nat)
    ensures r < 6
  {
    match t
    case ReqNone => 0
    case GetVar => 1
    case SetVar => 2
    case Command => 3
    case Upstream => 4
    case Downstream => 5
  }

  /** The identifier table `{'#','?','!',':','>','<'}` indexed by the enum value. */
  const ID_CHARS: seq<char> := ['#', '?', '!', ':', '>', '<']

  function IdChar(t: ReqType): (c: char)
  {
    ID_CHARS[ReqTypeCode(t)]
  }

  /** The request kind a received identifier character stands for, if any ('#' is not accepted). */
  function TypeOfId(c: char): (r: Option<ReqType>)
  {
    if c == '?' then Some(GetVar)
    else if c == '!' then Some(SetVar)
    else if c == ':' then Some(Command)
    else if c == '>' then Some(Upstream)
    else if c == '<' then Some(Downstream)
    else None
  }

  /** The identifier written for a kind is the one read back as that kind, for every kind but ReqNone. */
  lemma IdCharRoundTrip(t: ReqType)
    ensures t != ReqNone ==> TypeOfId(IdChar(t)) == Some(t)
    ensures t == ReqNone ==> TypeOfId(IdChar(t)) == None
  {
  }

  /** Every accepted identifier character is the table entry of the kind it maps to. */
  lemma TypeOfIdInverse(c: char)
    ensures TypeOfId(c).Some? ==> IdChar(TypeOfId(c).value) == c && TypeOfId(c).value != ReqNone
  {
  }

  /** Acknowledge returned by request processing; the constructor order is the C enum value. */
  datatype Ack = Success | SuccessData | SuccessUpstream | Error | Unknown

  function AckCode(a: Ack): (r: nat)
    ensures r < 5
  {
    match a
    case Success => 0
    case SuccessData => 1
    case SuccessUpstream => 2
    case Error => 3
    case Unknown => 4
  }

  /** The designator table `{"ACK","DAT","UPS","ERR","NAK"}` indexed by the enum value. */
  const DESIGNATORS: seq<seq<char>> := ["ACK", "DAT", "UPS", "ERR", "NAK"]

  function Designator(a: Ack): (d: seq<char>)
    ensures |d| == 3
  {
    DESIGNATORS[AckCode(a)]
  }

  /** Data type of a linked variable; the constructor order is the C enum value. */
  datatype DType = U8 | I8 | U16 | I16 | U32 | I32 | F32

  /** The byte-width table `{1,1,2,2,4,4,4}` indexed by the data type. */
  const BYTE_LENGTH: seq<nat> := [1, 1, 2, 2, 4, 4, 4]

  function DTypeCode(d: DType): (r: nat)
    ensures r < 7
  {
    match d
    case U8 => 0
    case I8 => 1
    case U16 => 2
    case I16 => 3
    case U32 => 4
    case I32 => 5
    case F32 => 6
  }

  function ByteLength(d: DType): (n: nat)
    ensures n == 1 || n == 2 || n == 4
  {
    BYTE_LENGTH[DTypeCode(d)]
  }

  /** Device error enumeration (the union of the names used by the three generations). */
  datatype SciError =
    | NoError
    | PartitionTableNotSufficient
    | VarNumberInvalid
    | UnknownDatatype
    | AddressUnknown
    | ReadoutFailed
    | WriteFailed
    | CommandIdentifierNotFound
    | VariableNumberConversionFailed
    | CommandValueConversionFailed
    | CommandUnknown
    | UpstreamNotInitiated
    | RequestIdentifierNotFound
    | RequestValueConversionFailed

  /** Storage class of a linked variable. */
  datatype VarType = VarNone | Eeprom | Ram

  /** Return value of the master's result callbacks. */
  datatype TransferAck = TransferSuccess | RepeatRequest | Abort

  const STX: char := '\U{2}'
  const ETX: char := '\U{3}'
}
