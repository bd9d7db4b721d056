/** GSS-API major status codes, kept as a structured value (a calling
    error, a routine error and the supplementary-information bits) and
    mapped to the 32-bit layout of section 3.9.1 of RFC 2744 only by
    Encode/Decode. */
module Status {
  import opened Bytes

  /** Bits 24-31: errors in how the routine was called. */
  datatype CallingError =
    | NoCallingError
    | InaccessibleRead      // GSS_S_CALL_INACCESSIBLE_READ
    | InaccessibleWrite     // GSS_S_CALL_INACCESSIBLE_WRITE
    | BadStructure          // GSS_S_CALL_BAD_STRUCTURE

  /** Bits 16-23: the routine's own failure. */
  datatype RoutineError =
    | NoRoutineError
    | BadMech | BadName | BadNameType | BadBindings | BadStatus
    | BadMic              // GSS_S_BAD_MIC, alias GSS_S_BAD_SIG
    | NoCred | NoContext | DefectiveToken | DefectiveCredential
    | CredentialsExpired | ContextExpired | Failure | BadQop
    | Unauthorized | Unavailable | DuplicateElement | NameNotMn

  /** Bits 0-15: supplementary information (only bits 0-4 are defined). */
  datatype Supplementary = Supplementary(
    continueNeeded: bool,
    duplicateToken: bool,
    oldToken: bool,
    unseqToken: bool,
    gapToken: bool)

  datatype MajorStatus = MajorStatus(
    calling: CallingError,
    routine: RoutineError,
    supplementary: Supplementary)
  {
    /** The GSS_ERROR() macro: a calling or a routine error is present. */
    predicate IsError() {
      calling != NoCallingError || routine != NoRoutineError
    }
  }

  const NoSupplementary := Supplementary(false, false, false, false, false)

  /** GSS_S_COMPLETE. */
  const Complete := MajorStatus(NoCallingError, NoRoutineError, NoSupplementary)

  /** GSS_S_CONTINUE_NEEDED. */
  const ContinueNeeded :=
    MajorStatus(NoCallingError, NoRoutineError, NoSupplementary.(continueNeeded := true))

  /** The routine error `e` alone, e.g. Fatal(BadMic) is GSS_S_BAD_MIC. */
  function Fatal(e: RoutineError): MajorStatus {
    MajorStatus(NoCallingError, e, NoSupplementary)
  }

  /** A routine error OR-ed with a calling error, e.g.
      GSS_S_NO_CONTEXT | GSS_S_CALL_INACCESSIBLE_READ. */
  function CallError(e: RoutineError, c: CallingError): MajorStatus {
    MajorStatus(c, e, NoSupplementary)
  }

  function CallingCode(c: CallingError): nat {
    match c
    case NoCallingError => 0
    case InaccessibleRead => 1
    case InaccessibleWrite => 2
    case BadStructure => 3
  }

  function RoutineCode(e: RoutineError): nat {
    match e
    case NoRoutineError => 0
    case BadMech => 1
    case BadName => 2
    case BadNameType => 3
    case BadBindings => 4
    case BadStatus => 5
    case BadMic => 6
    case NoCred => 7
    case NoContext => 8
    case DefectiveToken => 9
    case DefectiveCredential => 10
    case CredentialsExpired => 11
    case ContextExpired => 12
    case Failure => 13
    case BadQop => 14
    case Unauthorized => 15
    case Unavailable => 16
    case DuplicateElement => 17
    case NameNotMn => 18
  }

  function Bit(b: bool, weight: nat): nat {
    if b then weight else 0
  }

  function SupplementaryBits(s: Supplementary): nat {
    Bit(s.continueNeeded, 1) + Bit(s.duplicateToken, 2) + Bit(s.oldToken, 4)
    + Bit(s.unseqToken, 8) + Bit(s.gapToken, 16)
  }

  function CallingOf(n: nat): Option<CallingError> {
    if n == 0 then Some(NoCallingError)
    else if n == 1 then Some(InaccessibleRead)
    else if n == 2 then Some(InaccessibleWrite)
    else if n == 3 then Some(BadStructure)
    else None
  }

  function RoutineOf(n: nat): Option<RoutineError> {
    var table := [NoRoutineError, BadMech, BadName, BadNameType, BadBindings, BadStatus,
                  BadMic, NoCred, NoContext, DefectiveToken, DefectiveCredential,
                  CredentialsExpired, ContextExpired, Failure, BadQop, Unauthorized,
                  Unavailable, DuplicateElement, NameNotMn];
    if n < |table| then Some(table[n]) else None
  }

  function SupplementaryOf(n: nat): Option<Supplementary> {
    if n >= 32 then None
    else Some(Supplementary(n % 2 == 1, (n / 2) % 2 == 1, (n / 4) % 2 == 1,
                           (n / 8) % 2 == 1, (n / 16) % 2 == 1))
  }

  /** Three fields of 8, 8 and 16 bits side by side, and read back. */
  lemma PackFields(a: nat, b: nat, c: nat)
    requires a < 0x100 && b < 0x100 && c < 0x1_0000
    ensures var x := a * 0x100_0000 + b * 0x1_0000 + c;
      x < 0x1_0000_0000 && x / 0x100_0000 == a &&
      (x / 0x1_0000) % 0x100 == b && x % 0x1_0000 == c
  {
    var high := a * 0x100 + b;
    var x := a * 0x100_0000 + b * 0x1_0000 + c;
    assert x == high * 0x1_0000 + c;
    assert x / 0x1_0000 == high && x % 0x1_0000 == c;
    assert high / 0x100 == a && high % 0x100 == b;
    assert x / 0x100_0000 == (x / 0x1_0000) / 0x100;
  }

  /** The OM_uint32 value of a major status. */
  function Encode(s: MajorStatus): (r: uint32)
    ensures r / 0x100_0000 == CallingCode(s.calling)
    ensures (r / 0x1_0000) % 0x100 == RoutineCode(s.routine)
    ensures r % 0x1_0000 == SupplementaryBits(s.supplementary)
  {
    PackFields(CallingCode(s.calling), RoutineCode(s.routine), SupplementaryBits(s.supplementary));
    CallingCode(s.calling) * 0x100_0000 + RoutineCode(s.routine) * 0x1_0000
    + SupplementaryBits(s.supplementary)
  }

  /** Splits an OM_uint32 into its three fields; None when a field holds a
      code RFC 2744 does not define. */
  function Decode(x: uint32): Option<MajorStatus> {
    var c := CallingOf(x / 0x100_0000);
    var e := RoutineOf((x / 0x1_0000) % 0x100);
    var s := SupplementaryOf(x % 0x1_0000);
    if c.Some? && e.Some? && s.Some? then Some(MajorStatus(c.value, e.value, s.value))
    else None
  }

  lemma RoutineOfCode(e: RoutineError)
    ensures RoutineOf(RoutineCode(e)) == Some(e)
  {
  }

  lemma CodeOfRoutine(n: nat)
    requires RoutineOf(n).Some?
    ensures RoutineCode(RoutineOf(n).value) == n
  {
  }

  lemma SupplementaryOfBits(s: Supplementary)
    ensures SupplementaryOf(SupplementaryBits(s)) == Some(s)
  {
  }

  lemma BitsOfSupplementary(n: nat)
    requires SupplementaryOf(n).Some?
    ensures SupplementaryBits(SupplementaryOf(n).value) == n
  {
  }

  /** Decoding the encoding of any status gives the status back. */
  lemma DecodeEncode(s: MajorStatus)
    ensures Decode(Encode(s)) == Some(s)
  {
    RoutineOfCode(s.routine);
    SupplementaryOfBits(s.supplementary);
  }

  /** Every OM_uint32 that decodes is the encoding of what it decodes to. */
  lemma EncodeDecode(x: uint32)
    ensures Decode(x).Some? ==> Encode(Decode(x).value) == x
  {
    if Decode(x).Some? {
      CodeOfRoutine((x / 0x1_0000) % 0x100);
      BitsOfSupplementary(x % 0x1_0000);
    }
  }

  /** GSS_ERROR(x) tests the top sixteen bits: it holds exactly for the
      statuses IsError calls errors. */
  lemma IsErrorIsHighHalf(s: MajorStatus)
    ensures s.IsError() <==> Encode(s) >= 0x1_0000
  {
  }
}
