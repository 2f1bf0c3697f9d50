/** The coded fields of a message, and the proof that no code is lost by naming it (src/dns/types.rs). */
module Types {
  import opened Bytes

  type TransactionId = u16

  datatype MessageType = QueryMessage | ResponseMessage

  datatype Opcode = StandardQuery | IQuery | Status | Notify | Update | UnknownOpcode(n: byte)

  function OpcodeFromWire(value: byte): Opcode {
    match value
    case 0 => StandardQuery
    case 1 => IQuery
    case 2 => Status
    case 4 => Notify
    case 5 => Update
    case n => UnknownOpcode(n)
  }

  datatype ResponseCode =
    | NoError
    | FormatError
    | ServerFailure
    | NameError
    | NotImplemented
    | Refused
    | BadVersion
    | BadCookie
    | UnknownCode(n: u16)
  {
    function Wire(): u16 {
      match this
      case NoError => 0
      case FormatError => 1
      case ServerFailure => 2
      case NameError => 3
      case NotImplemented => 4
      case Refused => 5
      case BadVersion => 16
      case BadCookie => 23
      case UnknownCode(n) => n
    }
  }

  function ResponseCodeFromWire(value: u16): ResponseCode {
    match value
    case 0 => NoError
    case 1 => FormatError
    case 2 => ServerFailure
    case 3 => NameError
    case 4 => NotImplemented
    case 5 => Refused
    case 16 => BadVersion
    case 23 => BadCookie
    case n => UnknownCode(n)
  }

  datatype RecordType =
    | A | Ns | Cname | Soa | Ptr | Mx | Txt | Aaaa | Srv | Opt | Sig | Tkey | Tsig | Ixfr | Axfr | Any
    | UnknownType(n: u16)
  {
    function Wire(): u16 {
      match this
      case A => 1
      case Ns => 2
      case Cname => 5
      case Soa => 6
      case Ptr => 12
      case Mx => 15
      case Txt => 16
      case Sig => 24
      case Aaaa => 28
      case Srv => 33
      case Opt => 41
      case Tkey => 249
      case Tsig => 250
      case Ixfr => 251
      case Axfr => 252
      case Any => 255
      case UnknownType(n) => n
    }
  }

  function RecordTypeFromWire(value: u16): RecordType {
    match value
    case 1 => A
    case 2 => Ns
    case 5 => Cname
    case 6 => Soa
    case 12 => Ptr
    case 15 => Mx
    case 16 => Txt
    case 24 => Sig
    case 28 => Aaaa
    case 33 => Srv
    case 41 => Opt
    case 249 => Tkey
    case 250 => Tsig
    case 251 => Ixfr
    case 252 => Axfr
    case 255 => Any
    case n => UnknownType(n)
  }

  datatype RecordClass = In | Ch | Hs | UnknownClass(n: u16) {
    function Wire(): u16 {
      match this
      case In => 1
      case Ch => 3
      case Hs => 4
      case UnknownClass(n) => n
    }
  }

  function RecordClassFromWire(value: u16): RecordClass {
    match value
    case 1 => In
    case 3 => Ch
    case 4 => Hs
    case n => UnknownClass(n)
  }

  /** Every wire code survives decoding and printing; the codes that are recognized print back to themselves. */
  lemma WireCodesRoundTrip(n: u16)
    ensures RecordTypeFromWire(n).Wire() == n
    ensures RecordClassFromWire(n).Wire() == n
    ensures ResponseCodeFromWire(n).Wire() == n
    ensures RecordTypeFromWire(RecordTypeFromWire(n).Wire()) == RecordTypeFromWire(n)
  {
  }

  /** The numbers of every code that has a name. */
  lemma CodeNumbers(n: u16)
    ensures var t := RecordTypeFromWire(n);
            && (t == A <==> n == 1) && (t == Ns <==> n == 2) && (t == Cname <==> n == 5) && (t == Soa <==> n == 6)
            && (t == Ptr <==> n == 12) && (t == Mx <==> n == 15) && (t == Txt <==> n == 16) && (t == Sig <==> n == 24)
            && (t == Aaaa <==> n == 28) && (t == Srv <==> n == 33) && (t == Opt <==> n == 41)
            && (t == Tkey <==> n == 249) && (t == Tsig <==> n == 250) && (t == Ixfr <==> n == 251)
            && (t == Axfr <==> n == 252) && (t == Any <==> n == 255)
    ensures RecordClassFromWire(n) == In <==> n == 1
    ensures var c := ResponseCodeFromWire(n);
            && (c == NoError <==> n == 0) && (c == FormatError <==> n == 1) && (c == ServerFailure <==> n == 2)
            && (c == NameError <==> n == 3) && (c == NotImplemented <==> n == 4) && (c == Refused <==> n == 5)
            && (c == BadVersion <==> n == 16) && (c == BadCookie <==> n == 23)
    ensures n < 0x100 ==> (OpcodeFromWire(n) == StandardQuery <==> n == 0)
  {
  }
}
