/** Context establishment of the Kerberos V5 mechanism
    (lib/krb5/context.c): the initiator's AP-REQ and optional AP-REP
    steps, the acceptor's one-shot AP-REQ processing, deletion and the
    remaining lifetime. Inner tokens are a two-octet TOK_ID (01 00 for an
    AP-REQ, 02 00 for an AP-REP, section 1.1 of RFC 1964) followed by the
    DER message, framed under GSS_KRB5. */
module Krb5Context {
  import opened Bytes
  import opened Status
  import opened Oids
  import opened Token
  import opened Shishi
  import opened Gss

  const ApReqTokenId: seq<byte> := [0x01, 0x00]
  const ApRepTokenId: seq<byte> := [0x02, 0x00]

  /** The checksum type of the GSS authenticator checksum. */
  const AuthenticatorChecksumType: nat := 0x8003

  /** The 24-octet 0x8003 authenticator checksum of section 1.1.1 of
      RFC 1964 as the initiator builds it: Lgth = 16 (10 00 00 00), an
      all-zero Bnd field (no channel bindings), then the request flags
      least significant octet first. */
  function AuthenticatorChecksum(flags: uint32): (r: seq<byte>)
    ensures |r| == 24
  {
    [0x10, 0x00, 0x00, 0x00] + Repeat(0, 16) + LittleEndian32(flags)
  }

  /** The flags an acceptor reads from such a checksum. */
  function ChecksumFlags(cksum: seq<byte>): uint32
    requires |cksum| == 24
  {
    C2I(cksum[20..])
  }

  /** The checksum carries the request flags intact behind a fixed
      20-octet prefix, so the flags read back and distinct flag words give
      distinct checksums. */
  lemma AuthenticatorChecksumRoundTrip(flags: uint32)
    ensures AuthenticatorChecksum(flags)[..4] == [0x10, 0x00, 0x00, 0x00]
    ensures forall i :: 4 <= i < 20 ==> AuthenticatorChecksum(flags)[i] == 0
    ensures ChecksumFlags(AuthenticatorChecksum(flags)) == flags
  {
    assert AuthenticatorChecksum(flags)[20..] == LittleEndian32(flags);
    C2IOfLittleEndian(flags);
  }

  /** The two-octet TOK_ID test, on an inner token of at least two
      octets. */
  predicate HasTokenId(d: seq<byte>, id: seq<byte>) {
    |id| <= |d| && d[..|id|] == id
  }

  /** The token unframes under GSS_KRB5 to fewer than two octets. The code
      compares the first two octets with the TOK_ID without checking the
      length (lib/krb5/context.c:191, :289), so on such a token it reads
      past the end of the buffer. */
  predicate InnerTooShort(token: seq<byte>) {
    match Decapsulate(token)
    case None => false
    case Some((oid, d)) => OidEqual(Some(oid), Some(GssKrb5)) && |d| < 2
  }

  /** The inner token of `token` when it decapsulates under GSS_KRB5 and
      starts with `id`, without the TOK_ID; None otherwise. */
  function InnerToken(token: seq<byte>, id: seq<byte>): Option<seq<byte>>
  {
    match Decapsulate(token)
    case None => None
    case Some((oid, d)) =>
      if OidEqual(Some(oid), Some(GssKrb5)) && HasTokenId(d, id) then Some(d[|id|..]) else None
  }

  /** `id` ‖ `der` framed under GSS_KRB5, when that is representable. */
  function KerberosToken(id: seq<byte>, der: seq<byte>): Option<seq<byte>> {
    Encapsulate(GssKrb5, id + der)
  }

  /** What InnerToken takes apart, KerberosToken puts together, and a
      token built around a two-octet TOK_ID is never too short to test. */
  lemma InnerTokenOfKerberosToken(id: seq<byte>, der: seq<byte>)
    requires KerberosToken(id, der).Some?
    ensures InnerToken(KerberosToken(id, der).value, id) == Some(der)
    ensures |id| == 2 ==> !InnerTooShort(KerberosToken(id, der).value)
  {
    DecapsulateEncapsulate(GssKrb5, id + der);
    assert (id + der)[..|id|] == id;
    assert (id + der)[|id|..] == der;
  }

  // ---------------------------------------------------------------------
  // gss_krb5_init_sec_context

  /** The result of an init call that returns `status` with the context
      `ctx` published and the output token and actual mechanism as given. */
  function InitReturn(status: MajorStatus, ctx: Option<Ctx>, output: Option<seq<byte>>, actualMech: Option<Oid>, retFlags: Option<uint32>): InitResult {
    InitResult(status, Ref(ctx), output, retFlags, actualMech)
  }

  /** gss_krb5_init_sec_context. A NULL handle pointer or output buffer is
      refused before anything is written; otherwise actual_mech_type is set
      to GSS_KRB5. With no context the first step runs; with a context whose
      AP-REP has not been processed the second step runs, reading
      `repdone` through the context's Kerberos pointer; any other call
      fails. */
  function Init(ex: Exchange, names: NameOps, args: InitArgs): (r: Outcome<InitResult>)
    ensures args.handle.Null? || args.output.None? ==>
              r == Returned(InitResult(Fatal(Failure), args.handle, args.output, args.retFlags, None))
    ensures args.handle.Ref? && args.handle.deref.Some? && args.handle.deref.value.krb5.None? && args.output.Some? ==>
              r.NullDereference?
    ensures r.OutOfBoundsRead? <==>
              args.handle.Ref? && args.output.Some? && args.handle.deref.Some? &&
              args.handle.deref.value.krb5.Some? && !args.handle.deref.value.krb5.value.repdone &&
              InnerTooShort(args.inputToken)
    ensures r.Returned? ==> r.value.retFlags == args.retFlags && r.value.handle.Ref? == args.handle.Ref?
  {
    if args.handle.Null? || args.output.None? then
      Returned(InitResult(Fatal(Failure), args.handle, args.output, args.retFlags, None))
    else
      var actual := if args.wantActualMech then Some(GssKrb5) else None;
      match args.handle.deref
      case None => InitFirst(ex, names, args, actual, true)
      case Some(ctx) =>
        if ctx.krb5.None? then NullDereference
        else if !ctx.krb5.value.repdone then InitContinue(ex, args, ctx, actual)
        else Returned(InitReturn(Fatal(Failure), Some(ctx), args.output, actual, args.retFlags))
  }

  /** Init with the two corrections of the first step. A context whose
      Kerberos pointer is still NULL (the facade allocates the context and
      sets only its mechanism) is treated as no context, so the first step
      runs and fills it in; and that step asks shishi for MUTUAL-REQUIRED
      only when GSS_C_MUTUAL_FLAG was requested. Every other call is
      Init. */
  function InitCorrected(ex: Exchange, names: NameOps, args: InitArgs): (r: Outcome<InitResult>)
    ensures r.NullDereference? ==> args.targetName.None?
  {
    if args.handle.Ref? && args.output.Some? && (args.handle.deref.None? || args.handle.deref.value.krb5.None?) then
      var actual := if args.wantActualMech then Some(GssKrb5) else None;
      InitFirst(ex, names, args.(handle := Ref(None)), actual, HasMutual(args.reqFlags))
    else
      Init(ex, names, args)
  }

  /** The first init step. The new context is published before anything
      can fail, so every failure leaves it, partly filled in, in the
      handle. `mutual` is the MUTUAL-REQUIRED AP option the AP is made
      with. */
  function InitFirst(ex: Exchange, names: NameOps, args: InitArgs, actual: Option<Oid>, mutual: bool): (r: Outcome<InitResult>)
    requires args.output.Some?
    ensures r.Returned? ==>
              r.value.handle.Ref? && r.value.handle.deref.Some? &&
              r.value.handle.deref.value.mech == GssKrb5 &&
              r.value.handle.deref.value.krb5.Some? &&
              !r.value.handle.deref.value.krb5.value.acceptor &&
              !r.value.handle.deref.value.krb5.value.repdone &&
              r.value.retFlags == args.retFlags && r.value.actualMech == actual
    ensures r.NullDereference? <==> (args.cred.Some? || ex.initOk) && args.targetName.None?
  {
    var k5 := EmptyKrb5Ctx;
    var fail := (k5: Krb5Ctx, status: MajorStatus) =>
      Returned(InitReturn(status, Some(Ctx(GssKrb5, Some(k5))), args.output, actual, args.retFlags));
    if args.cred.None? && !ex.initOk then fail(k5, Fatal(Failure))
    else if args.targetName.None? then NullDereference
    else
      var target := args.targetName.value;
      var named := if OidEqual(target.nameType, Some(GssKrb5NtPrincipalName)) then names.duplicateName(target)
                   else names.canonicalizeName(target, args.mechType);
      if named.status != Complete then fail(k5, named.status)
      else
        var k5 := k5.(peer := Some(named.name));
        var tkt := if args.cred.Some? then args.cred.value.krb5.tkt else ex.ticketFor(named.name.value);
        if args.cred.None? && tkt.None? then fail(k5, Fatal(Failure))
        else
          var k5 := k5.(tkt := tkt, flags := args.reqFlags);
          match ex.apForTicket(tkt, mutual)
          case None => fail(k5, Fatal(Failure))
          case Some(ap) =>
            var k5 := k5.(ap := Some(ap), key := Some(ex.apKey(ap)));
            match ex.apReqBuild(ap, AuthenticatorChecksum(args.reqFlags))
            case None => fail(k5, Fatal(Failure))
            case Some((ap', der)) =>
              var k5 := k5.(ap := Some(ap'));
              match KerberosToken(ApReqTokenId, der)
              case None => fail(k5, Fatal(Failure))
              case Some(token) =>
                var status := if HasMutual(args.reqFlags) then ContinueNeeded else Complete;
                Returned(InitReturn(status, Some(Ctx(GssKrb5, Some(k5))), Some(token), actual, args.retFlags))
  }

  /** The second init step: the AP-REP. */
  function InitContinue(ex: Exchange, args: InitArgs, ctx: Ctx, actual: Option<Oid>): (r: Outcome<InitResult>)
    requires ctx.krb5.Some? && !ctx.krb5.value.repdone
    ensures r.Returned? <==> !InnerTooShort(args.inputToken)
    ensures !r.NullDereference?
    ensures r.Returned? ==>
              r.value.output == args.output && r.value.retFlags == args.retFlags && r.value.actualMech == actual &&
              r.value.handle.Ref? && r.value.handle.deref.Some? && r.value.handle.deref.value.mech == ctx.mech &&
              r.value.handle.deref.value.krb5.Some? &&
              (r.value.status == Complete <==> r.value.handle.deref.value.krb5.value.repdone)
  {
    var k5 := ctx.krb5.value;
    var fail := (k5: Krb5Ctx, status: MajorStatus) =>
      Returned(InitReturn(status, Some(ctx.(krb5 := Some(k5))), args.output, actual, args.retFlags));
    if InnerTooShort(args.inputToken) then OutOfBoundsRead
    else
      match InnerToken(args.inputToken, ApRepTokenId)
      case None => fail(k5, Fatal(BadMic))
      case Some(der) =>
        match ex.apRepDerSet(k5.ap, der)
        case None => fail(k5, Fatal(Failure))
        case Some(ap) =>
          var k5 := k5.(ap := Some(ap));
          if !ex.apRepVerify(ap) then fail(k5, Fatal(Failure))
          else
            var seqnr := match ex.apRepSeqNumber(ap) case Some(n) => n case None => 0;
            fail(k5.(acceptseqnr := seqnr, repdone := true), Complete)
  }

  /** The name routines report COMPLETE or an error, never a bare
      supplementary status. */
  ghost predicate NamesReportErrors(names: NameOps) {
    (forall n :: names.duplicateName(n).status == Complete || names.duplicateName(n).status.IsError()) &&
    (forall n, m :: names.canonicalizeName(n, m).status == Complete || names.canonicalizeName(n, m).status.IsError())
  }

  /** The initiator's first step, when it reports no error, emits
      01 00 ‖ AP-REQ framed under GSS_KRB5, where the AP-REQ is built from
      an AP made with the given MUTUAL-REQUIRED option and carries the
      0x8003 checksum of the request flags; it stores the flags and the AP
      key in the new context, whose counters are zero, and asks for another
      round exactly when mutual authentication was requested. */
  lemma InitFirstBuildsApReq(ex: Exchange, names: NameOps, args: InitArgs, actual: Option<Oid>, mutual: bool)
    requires NamesReportErrors(names)
    requires args.output.Some?
    requires InitFirst(ex, names, args, actual, mutual).Returned?
    requires !InitFirst(ex, names, args, actual, mutual).value.status.IsError()
    ensures
      var r := InitFirst(ex, names, args, actual, mutual).value;
      var k5 := r.handle.deref.value.krb5.value;
      k5.ap.Some? && k5.flags == args.reqFlags && k5.key.Some? &&
      k5.initseqnr == 0 && k5.acceptseqnr == 0 && !k5.acceptor && !k5.repdone &&
      exists ap, der ::
        ex.apForTicket(k5.tkt, mutual) == Some(ap) && k5.key == Some(ex.apKey(ap)) &&
        ex.apReqBuild(ap, AuthenticatorChecksum(args.reqFlags)) == Some((k5.ap.value, der)) &&
        r.output == KerberosToken(ApReqTokenId, der) &&
        InnerToken(r.output.value, ApReqTokenId) == Some(der) && !InnerTooShort(r.output.value)
    ensures InitFirst(ex, names, args, actual, mutual).value.status ==
              (if HasMutual(args.reqFlags) then ContinueNeeded else Complete)
  {
    var target := args.targetName.value;
    var named := if OidEqual(target.nameType, Some(GssKrb5NtPrincipalName)) then names.duplicateName(target)
                 else names.canonicalizeName(target, args.mechType);
    assert named.status == Complete;
    var tkt := if args.cred.Some? then args.cred.value.krb5.tkt else ex.ticketFor(named.name.value);
    var ap := ex.apForTicket(tkt, mutual).value;
    var built := ex.apReqBuild(ap, AuthenticatorChecksum(args.reqFlags)).value;
    InnerTokenOfKerberosToken(ApReqTokenId, built.1);
  }

  /** InitFirstBuildsApReq for the code as written, which always makes the
      AP with MUTUAL-REQUIRED (lib/krb5/context.c:131-133) whatever the
      request flags. */
  lemma InitFirstEmitsApReq(ex: Exchange, names: NameOps, args: InitArgs)
    requires NamesReportErrors(names)
    requires args.handle == Ref(None) && args.output.Some?
    requires Init(ex, names, args).Returned? && !Init(ex, names, args).value.status.IsError()
    ensures
      var r := Init(ex, names, args).value;
      var k5 := r.handle.deref.value.krb5.value;
      k5.ap.Some? && k5.flags == args.reqFlags && k5.key.Some? &&
      k5.initseqnr == 0 && k5.acceptseqnr == 0 && !k5.acceptor && !k5.repdone &&
      exists ap, der ::
        ex.apForTicket(k5.tkt, true) == Some(ap) && k5.key == Some(ex.apKey(ap)) &&
        ex.apReqBuild(ap, AuthenticatorChecksum(args.reqFlags)) == Some((k5.ap.value, der)) &&
        r.output == KerberosToken(ApReqTokenId, der) &&
        InnerToken(r.output.value, ApReqTokenId) == Some(der) && !InnerTooShort(r.output.value)
    ensures Init(ex, names, args).value.status == (if HasMutual(args.reqFlags) then ContinueNeeded else Complete)
  {
    var actual := if args.wantActualMech then Some(GssKrb5) else None;
    InitFirstBuildsApReq(ex, names, args, actual, true);
  }

  /** The second step succeeds only on a well-framed, verified AP-REP. A
      token that unframes under GSS_KRB5 to fewer than two octets makes the
      TOK_ID comparison read past the buffer; any other token that does not
      unframe to 02 00 ‖ DER under GSS_KRB5 is BAD_MIC, a reply shishi
      rejects is FAILURE, and in both cases `repdone` stays clear. On
      success the counter for incoming messages is the reply's sequence
      number, or 0 when it has none. */
  lemma InitContinueChecksReply(ex: Exchange, names: NameOps, args: InitArgs, ctx: Ctx)
    requires args.handle == Ref(Some(ctx)) && args.output.Some?
    requires ctx.krb5.Some? && !ctx.krb5.value.repdone
    ensures Init(ex, names, args).OutOfBoundsRead? <==> InnerTooShort(args.inputToken)
    ensures Init(ex, names, args).Returned? <==> !InnerTooShort(args.inputToken)
    ensures !InnerTooShort(args.inputToken) ==>
      var r := Init(ex, names, args).value;
      InnerToken(args.inputToken, ApRepTokenId).None? ==>
        r.status == Fatal(BadMic) && r.handle == args.handle
    ensures !InnerTooShort(args.inputToken) ==>
      var r := Init(ex, names, args).value;
      InnerToken(args.inputToken, ApRepTokenId).Some? ==>
        var der := InnerToken(args.inputToken, ApRepTokenId).value;
        var ap := ex.apRepDerSet(ctx.krb5.value.ap, der);
        (r.status == Complete <==> ap.Some? && ex.apRepVerify(ap.value)) &&
        (r.status != Complete ==> r.status == Fatal(Failure)) &&
        (r.status == Complete ==>
          r.handle == Ref(Some(ctx.(krb5 := Some(ctx.krb5.value.(
            ap := ap, repdone := true,
            acceptseqnr := if ex.apRepSeqNumber(ap.value).Some? then ex.apRepSeqNumber(ap.value).value else 0))))))
  {
  }

  /** Once the AP-REP has been processed, init only fails and changes
      nothing. */
  lemma InitAfterReplyFails(ex: Exchange, names: NameOps, args: InitArgs, ctx: Ctx)
    requires args.handle == Ref(Some(ctx)) && args.output.Some?
    requires ctx.krb5.Some? && ctx.krb5.value.repdone
    ensures Init(ex, names, args).Returned?
    ensures Init(ex, names, args).value.status == Fatal(Failure)
    ensures Init(ex, names, args).value.handle == args.handle && Init(ex, names, args).value.output == args.output
  {
  }

  // ---------------------------------------------------------------------
  // gss_krb5_accept_sec_context

  /** gss_krb5_accept_sec_context. ret_flags is cleared first; then a
      missing credential is NO_CRED, channel bindings are BAD_BINDINGS and a
      NULL handle pointer is NO_CONTEXT, in that order. An existing context
      is left alone and COMPLETE is returned. Otherwise a new acceptor
      context is published at once and the AP-REQ is processed into it. */
  function Accept(ex: Exchange, args: AcceptArgs): (r: Outcome<AcceptResult>)
    ensures r.Returned? ==> r.value.retFlags.Some? == args.retFlags.Some?
    ensures r.Returned? && r.value.retFlags != Cleared(args.retFlags) ==>
              r.value.retFlags == Some(MutualFlag) &&
              exists der :: r.value.output == KerberosToken(ApRepTokenId, der)
    ensures r.OutOfBoundsRead? <==>
              args.cred.Some? && !args.chanBindings && args.handle == Ref(None) &&
              ex.apNew.Some? && InnerTooShort(args.inputToken)
    ensures r.NullDereference? ==> args.output.None?
    ensures r.Returned? && args.wantMechType ==> r.value.mechType == Some(GssKrb5)
    ensures args.cred.None? ==>
              r.Returned? && r.value.status == Fatal(NoCred) && r.value.handle == args.handle &&
              r.value.retFlags == Cleared(args.retFlags)
    ensures args.cred.Some? && args.chanBindings ==>
              r.Returned? && r.value.status == Fatal(BadBindings) && r.value.handle == args.handle &&
              r.value.retFlags == Cleared(args.retFlags)
    ensures args.cred.Some? && !args.chanBindings && args.handle.Null? ==>
              r.Returned? && r.value.status == Fatal(NoContext) && r.value.handle == args.handle &&
              r.value.retFlags == Cleared(args.retFlags)
    ensures args.cred.Some? && !args.chanBindings && args.handle.Ref? && args.handle.deref.Some? ==>
              r.Returned? && r.value.status == Complete && r.value.handle == args.handle &&
              r.value.output == args.output &&
              r.value.retFlags == Cleared(args.retFlags)
  {
    var mechType := if args.wantMechType then Some(GssKrb5) else None;
    var flags := Cleared(args.retFlags);
    var stop := (status: MajorStatus) =>
      Returned(AcceptResult(status, args.handle, args.output, flags, None, mechType));
    if args.cred.None? then stop(Fatal(NoCred))
    else if args.chanBindings then stop(Fatal(BadBindings))
    else if args.handle.Null? then stop(Fatal(NoContext))
    else if args.handle.deref.Some? then stop(Complete)
    else AcceptFirst(ex, args, args.cred.value.krb5, flags, mechType)
  }

  /** Processing of the AP-REQ into a freshly published acceptor context. */
  function AcceptFirst(ex: Exchange, args: AcceptArgs, cred: Krb5Cred, flags: Option<uint32>, mechType: Option<Oid>): (r: Outcome<AcceptResult>)
    ensures r.Returned? ==>
              r.value.handle.Ref? && r.value.handle.deref.Some? &&
              r.value.handle.deref.value.mech == GssKrb5 &&
              r.value.handle.deref.value.krb5.Some? &&
              r.value.handle.deref.value.krb5.value.acceptor &&
              r.value.handle.deref.value.krb5.value.initseqnr == 0 &&
              r.value.handle.deref.value.krb5.value.acceptseqnr == 0 &&
              r.value.mechType == mechType
    ensures r.Returned? && r.value.retFlags != flags ==>
              r.value.retFlags == Some(MutualFlag) &&
              exists der :: r.value.output == KerberosToken(ApRepTokenId, der)
    ensures r.OutOfBoundsRead? <==> ex.apNew.Some? && InnerTooShort(args.inputToken)
    ensures r.NullDereference? ==> args.output.None?
  {
    var k5 := EmptyKrb5Ctx.(key := cred.key, acceptor := true);
    var stop := (k5: Krb5Ctx, status: MajorStatus) =>
      Returned(AcceptResult(status, Ref(Some(Ctx(GssKrb5, Some(k5)))), args.output, flags, None, mechType));
    match ex.apNew
    case None => stop(k5, Fatal(Failure))
    case Some(ap) =>
      var k5 := k5.(ap := Some(ap));
      if InnerTooShort(args.inputToken) then OutOfBoundsRead
      else
        match InnerToken(args.inputToken, ApReqTokenId)
        case None => stop(k5, Fatal(BadMic))
        case Some(der) =>
          match ex.apReqDerSet(ap, der)
          case None => stop(k5, Fatal(Failure))
          case Some(ap) =>
            var k5 := k5.(ap := Some(ap));
            match ex.apReqProcess(ap, cred.key)
            case None => stop(k5, Fatal(Failure))
            case Some(ap) =>
              var tkt := ex.apTicket(ap);
              var k5 := k5.(ap := Some(ap), tkt := Some(tkt), key := Some(ex.ticketKey(tkt)));
              var handle := Ref(Some(Ctx(GssKrb5, Some(k5))));
              var reply: Option<(Option<seq<byte>>, Option<uint32>)> :=
                if ex.mutualRequired(ap) then
                  match ex.apRepDer(ap)
                  case None => None
                  case Some(der) =>
                    match KerberosToken(ApRepTokenId, der)
                    case None => None
                    case Some(token) => Some((Some(token), if flags.Some? then Some(MutualFlag) else None))
                else Some((Some([]), flags));
              match reply
              case None => stop(k5, Fatal(Failure))
              case Some((output, flags')) =>
                if args.output.None? then NullDereference
                else if !args.wantSrcName then
                  Returned(AcceptResult(Complete, handle, output, flags', None, mechType))
                else
                  match ex.clientName(tkt)
                  case None => Returned(AcceptResult(Fatal(Failure), handle, output, flags', None, mechType))
                  case Some(cname) =>
                    var nameType := DuplicateOid(Some(GssKrb5NtPrincipalName));
                    if nameType.status.IsError() then
                      Returned(AcceptResult(Fatal(Failure), handle, output, flags', None, mechType))
                    else
                      Returned(AcceptResult(Complete, handle, output, flags',
                                            Some(Name(cname, nameType.oid)), mechType))
  }

  /** The acceptor's first call, past the argument checks, always publishes
      an acceptor context, so even a rejected AP-REQ leaves one in the
      handle. Among the calls that return (so not a token that unframes
      under GSS_KRB5 to fewer than two octets, whose TOK_ID comparison reads
      past the buffer), BAD_MIC means exactly that the token does not
      unframe to 01 00 ‖ DER under GSS_KRB5. On COMPLETE the context holds
      the ticket of the processed request and that ticket's key; when the
      request demands mutual authentication the output is 02 00 ‖ AP-REP
      framed under GSS_KRB5 and ret_flags (if asked for) is
      GSS_C_MUTUAL_FLAG, and otherwise the output is empty and ret_flags
      stays 0. A source name, when asked for, is the
      ticket's client name with the Kerberos principal name type. */
  lemma AcceptFirstOutcome(ex: Exchange, args: AcceptArgs)
    requires args.cred.Some? && !args.chanBindings && args.handle == Ref(None)
    requires Accept(ex, args).Returned?
    ensures var r := Accept(ex, args).value;
      r.handle.Ref? && r.handle.deref.Some? && r.handle.deref.value.krb5.Some? &&
      r.handle.deref.value.krb5.value.acceptor
    ensures Accept(ex, args).value.status == Fatal(BadMic) <==>
              ex.apNew.Some? && InnerToken(args.inputToken, ApReqTokenId).None?
    ensures var r := Accept(ex, args).value;
      r.status == Complete ==>
        ex.apNew.Some? && InnerToken(args.inputToken, ApReqTokenId).Some? &&
        var ap := ex.apReqDerSet(ex.apNew.value, InnerToken(args.inputToken, ApReqTokenId).value);
        ap.Some? && ex.apReqProcess(ap.value, args.cred.value.krb5.key).Some? &&
        var processed := ex.apReqProcess(ap.value, args.cred.value.krb5.key).value;
        r.handle.deref.value.krb5.value.tkt == Some(ex.apTicket(processed)) &&
        r.handle.deref.value.krb5.value.key == Some(ex.ticketKey(ex.apTicket(processed))) &&
        (ex.mutualRequired(processed) ==>
           ex.apRepDer(processed).Some? &&
           r.output == KerberosToken(ApRepTokenId, ex.apRepDer(processed).value) &&
           r.retFlags == (if args.retFlags.Some? then Some(MutualFlag) else None)) &&
        (!ex.mutualRequired(processed) ==>
           r.output == Some([]) && r.retFlags == (if args.retFlags.Some? then Some(0) else None)) &&
        (args.wantSrcName ==>
           r.srcName == Some(Name(ex.clientName(ex.apTicket(processed)).value, Some(GssKrb5NtPrincipalName))))
  {
  }

  // ---------------------------------------------------------------------
  // gss_krb5_delete_sec_context and gss_krb5_context_time

  /** gss_krb5_delete_sec_context: releases the key and reports COMPLETE;
      it reads the Kerberos state through the handle without checking it. */
  function Delete(handle: Ref<Option<Ctx>>): (r: Outcome<MajorStatus>)
    ensures r.Returned? <==> handle.Ref? && handle.deref.Some? && handle.deref.value.krb5.Some?
    ensures r.Returned? ==> r.value == Complete
  {
    if handle.Null? || handle.deref.None? || handle.deref.value.krb5.None? then NullDereference
    else Returned(Complete)
  }

  /** gss_krb5_context_time: when time_rec is asked for, it is the ticket's
      remaining lifetime, and a lifetime of zero is CONTEXT_EXPIRED. The
      Kerberos state is read only to fetch the ticket, so without time_rec
      the call completes even when the pointer is NULL. */
  function ContextTime(ex: Exchange, ctx: Ctx, wantTime: bool): (r: Outcome<TimeResult>)
    ensures r.NullDereference? <==> wantTime && ctx.krb5.None?
    ensures !r.OutOfBoundsRead?
    ensures !wantTime ==> r == Returned(TimeResult(Complete, None))
    ensures r.Returned? && wantTime ==>
              r.value.time == Some(ex.ticketLifetime(ctx.krb5.value.tkt)) &&
              (r.value.status == Fatal(ContextExpired) <==> ex.ticketLifetime(ctx.krb5.value.tkt) == 0) &&
              (r.value.status == Complete <==> ex.ticketLifetime(ctx.krb5.value.tkt) != 0)
  {
    if !wantTime then Returned(TimeResult(Complete, None))
    else
      match ctx.krb5
      case None => NullDereference
      case Some(k5) =>
        var t := ex.ticketLifetime(k5.tkt);
        Returned(TimeResult(if t == 0 then Fatal(ContextExpired) else Complete, Some(t)))
  }

  /** The time query on a context the handshake published reports the
      lifetime of the ticket that context stored: at the acceptor the
      ticket of the AP-REQ it processed, at the initiator the ticket its
      AP-REQ was built from. So the context is CONTEXT_EXPIRED exactly when
      that ticket has no time left. */
  lemma ContextTimeAfterAccept(ex: Exchange, args: AcceptArgs)
    requires args.cred.Some? && !args.chanBindings && args.handle == Ref(None)
    requires Accept(ex, args).Returned? && Accept(ex, args).value.status == Complete
    ensures
      var ctx := Accept(ex, args).value.handle.deref.value;
      var der := InnerToken(args.inputToken, ApReqTokenId).value;
      var ap := ex.apReqProcess(ex.apReqDerSet(ex.apNew.value, der).value, args.cred.value.krb5.key).value;
      var t := ContextTime(ex, ctx, true);
      t.Returned? && t.value.time == Some(ex.ticketLifetime(Some(ex.apTicket(ap)))) &&
      (t.value.status == Fatal(ContextExpired) <==> ex.ticketLifetime(Some(ex.apTicket(ap))) == 0)
  {
    AcceptFirstOutcome(ex, args);
  }

  /** The same at the initiator, after a first step that reported no
      error. */
  lemma ContextTimeAfterInit(ex: Exchange, names: NameOps, args: InitArgs)
    requires NamesReportErrors(names)
    requires args.handle == Ref(None) && args.output.Some?
    requires Init(ex, names, args).Returned? && !Init(ex, names, args).value.status.IsError()
    ensures
      var ctx := Init(ex, names, args).value.handle.deref.value;
      var t := ContextTime(ex, ctx, true);
      ex.apForTicket(ctx.krb5.value.tkt, true).Some? &&
      t.Returned? && t.value.time == Some(ex.ticketLifetime(ctx.krb5.value.tkt)) &&
      (t.value.status == Fatal(ContextExpired) <==> ex.ticketLifetime(ctx.krb5.value.tkt) == 0)
  {
    InitFirstEmitsApReq(ex, names, args);
  }
}
