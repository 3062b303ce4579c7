/** Close status codes (`src/close.rs`; RFC 6455, section 7.4). */
module CloseCodes {
  datatype CloseCode =
    | Normal | Away | Protocol | Unsupported | Status | Abnormal | Invalid | Policy | Size
    | Extension | Error | Restart | Again | Tls
    | Reserved(code: nat) | Iana(code: nat) | Library(code: nat) | Bad(code: nat)

  /** `impl From<u16> for CloseCode`: the first matching arm decides. */
  function FromCode(code: nat): CloseCode {
    match code
    case 1000 => Normal
    case 1001 => Away
    case 1002 => Protocol
    case 1003 => Unsupported
    case 1005 => Status
    case 1006 => Abnormal
    case 1007 => Invalid
    case 1008 => Policy
    case 1009 => Size
    case 1010 => Extension
    case 1011 => Error
    case 1012 => Restart
    case 1013 => Again
    case 1015 => Tls
    case _ =>
      if 1 <= code <= 999 then Bad(code)
      else if 1016 <= code <= 2999 then Reserved(code)
      else if 3000 <= code <= 3999 then Iana(code)
      else if 4000 <= code <= 4999 then Library(code)
      else Bad(code)
  }

  /** `impl From<CloseCode> for u16` */
  function ToCode(c: CloseCode): nat {
    match c
    case Normal => 1000
    case Away => 1001
    case Protocol => 1002
    case Unsupported => 1003
    case Status => 1005
    case Abnormal => 1006
    case Invalid => 1007
    case Policy => 1008
    case Size => 1009
    case Extension => 1010
    case Error => 1011
    case Restart => 1012
    case Again => 1013
    case Tls => 1015
    case Reserved(code) => code
    case Iana(code) => code
    case Library(code) => code
    case Bad(code) => code
  }

  /** `CloseCode::is_allowed` */
  predicate IsAllowed(c: CloseCode) {
    !(c.Bad? || c.Reserved? || c.Status? || c.Abnormal? || c.Tls?)
  }

  /** The codes an endpoint may put in a Close frame. */
  predicate MaySend(code: nat) {
    1000 <= code <= 1003 || 1007 <= code <= 1013 || 3000 <= code <= 4999
  }

  /** The classes keep the number apart, and the allowed ones are exactly the codes that may be sent. */
  lemma ClassesAreExact(code: nat)
    ensures ToCode(FromCode(code)) == code
    ensures IsAllowed(FromCode(code)) <==> MaySend(code)
  {
  }

  /** A class survives the way through its number exactly when the number lies in the range of the class. */
  lemma ClassRoundTrip(c: CloseCode)
    ensures FromCode(ToCode(c)) == c <==>
            match c
            case Reserved(n) => 1016 <= n <= 2999
            case Iana(n) => 3000 <= n <= 3999
            case Library(n) => 4000 <= n <= 4999
            case Bad(n) => n < 1000 || n == 1004 || n == 1014 || 5000 <= n
            case _ => true
  {
  }
}
