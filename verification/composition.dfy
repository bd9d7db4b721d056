/** The facade and the Kerberos mechanism run together, each as its own
    transition. The facade allocates the context for a first init call and
    sets only its mechanism before calling the mechanism
    (lib/context.c:398-409), but the mechanism's init recognises a first
    call only by the handle being GSS_C_NO_CONTEXT
    (lib/krb5/context.c:62) and otherwise reads `repdone` through the
    context's Kerberos pointer (lib/krb5/context.c:177), which is NULL in a
    context the facade allocated. The first lemma shows that every first
    gss_init_sec_context for Kerberos ends in that dereference; the facade
    lemmas after it use Krb5Context.InitCorrected, which treats the
    facade's bare context as a first call, and show the exchange then goes
    through. The same corrected step also fixes the second defect shown
    here: the AP-REQ always demands mutual authentication, so the acceptor
    replies to initiators that did not ask for a reply. */
module Composition {
  import opened Bytes
  import opened Status
  import opened Oids
  import opened Token
  import opened Shishi
  import opened Gss
  import opened Mechs
  import Krb5Context
  import Krb5Msg
  import Facade

  /** The library with only the Kerberos mechanism installed, as written. */
  function Installed(ex: Exchange, names: NameOps): seq<Mech> {
    [Krb5Mechanism(ex, names)]
  }

  /** The same library with the corrected first-call test. */
  function InstalledCorrected(ex: Exchange, names: NameOps): seq<Mech> {
    [Krb5MechanismCorrected(ex, names)]
  }

  /** A first call of gss_init_sec_context that selects Kerberos. */
  predicate FirstKerberosInit(args: InitArgs) {
    args.handle == Ref(None) && args.output.Some? &&
    (args.mechType.None? || args.mechType == Some(GssKrb5))
  }

  /** As written, no first init call for Kerberos returns: whatever the
      credential, target, flags or shishi's answers, the mechanism is handed
      the facade's context, whose Kerberos pointer is NULL, and reads
      `repdone` through it. */
  lemma FacadeInitAsWrittenDereferencesNull(ex: Exchange, names: NameOps, args: InitArgs)
    requires FirstKerberosInit(args)
    ensures Facade.Init(Installed(ex, names), args).NullDereference?
  {
    assert Installed(ex, names)[0].oid == GssKrb5;
  }

  /** With the corrected test, a first init call for Kerberos returns
      whenever there is a target name, with exactly the status and output
      token of the mechanism's first step; the handle ends up holding the
      mechanism's context (bound to GSS_KRB5, with its Kerberos state) when
      that step reports no error, and GSS_C_NO_CONTEXT when it does. */
  lemma FacadeInitCorrectedRunsFirstStep(ex: Exchange, names: NameOps, args: InitArgs)
    requires FirstKerberosInit(args) && args.targetName.Some?
    ensures
      var r := Facade.Init(InstalledCorrected(ex, names), args);
      var m := Krb5Context.InitCorrected(ex, names, args.(output := Some([]), retFlags := Cleared(args.retFlags)));
      r.Returned? && m.Returned? &&
      r.value.status == m.value.status && r.value.output == m.value.output &&
      (r.value.status.IsError() ==> r.value.handle == Ref(None)) &&
      (!r.value.status.IsError() ==>
         r.value.handle == m.value.handle && r.value.handle.deref.Some? &&
         r.value.handle.deref.value.mech == GssKrb5 && r.value.handle.deref.value.krb5.Some?)
  {
    var table := InstalledCorrected(ex, names);
    assert table[0].oid == GssKrb5;
    var handle := Ref(Some(Ctx(GssKrb5, None)));
    var passed := args.(handle := handle, output := Some([]), retFlags := Cleared(args.retFlags));
    var first := args.(output := Some([]), retFlags := Cleared(args.retFlags));
    assert passed.(handle := Ref(None)) == first == first.(handle := Ref(None));
  }

  /** The acceptor's framing checks pass on the initiator's first token:
      shishi on the accepting side is handed exactly the AP-REQ that shishi
      on the initiating side built, so the acceptor neither reads past the
      token nor answers BAD_MIC to it. */
  lemma ApReqReachesAcceptor(ex: Exchange, names: NameOps, initArgs: InitArgs, acceptArgs: AcceptArgs)
    requires Krb5Context.NamesReportErrors(names)
    requires initArgs.handle == Ref(None) && initArgs.output.Some?
    requires Krb5Context.Init(ex, names, initArgs).Returned?
    requires !Krb5Context.Init(ex, names, initArgs).value.status.IsError()
    requires acceptArgs.inputToken == Krb5Context.Init(ex, names, initArgs).value.output.value
    requires acceptArgs.cred.Some? && !acceptArgs.chanBindings && acceptArgs.handle == Ref(None)
    ensures
      var k5 := Krb5Context.Init(ex, names, initArgs).value.handle.deref.value.krb5.value;
      exists ap, der ::
        ex.apForTicket(k5.tkt, true) == Some(ap) &&
        ex.apReqBuild(ap, Krb5Context.AuthenticatorChecksum(initArgs.reqFlags)) == Some((k5.ap.value, der)) &&
        Krb5Context.InnerToken(acceptArgs.inputToken, Krb5Context.ApReqTokenId) == Some(der)
    ensures !Krb5Context.Accept(ex, acceptArgs).OutOfBoundsRead?
    ensures Krb5Context.Accept(ex, acceptArgs).Returned? ==>
              Krb5Context.Accept(ex, acceptArgs).value.status != Fatal(BadMic)
  {
    Krb5Context.InitFirstEmitsApReq(ex, names, initArgs);
    if Krb5Context.Accept(ex, acceptArgs).Returned? {
      Krb5Context.AcceptFirstOutcome(ex, acceptArgs);
    }
  }

  /** As written the initiator always makes its AP with MUTUAL-REQUIRED
      (lib/krb5/context.c:131-133). So, as long as shishi carries that
      option from one side to the other, an acceptor that completes on the
      initiator's first token answers with an AP-REP whatever the request
      flags, while an initiator that did not ask for GSS_C_MUTUAL_FLAG has
      already returned COMPLETE and takes no further token. */
  lemma AcceptorRepliesWhateverTheFlags(ex: Exchange, names: NameOps, initArgs: InitArgs, acceptArgs: AcceptArgs)
    requires Krb5Context.NamesReportErrors(names) && MutualOptionSurvives(ex)
    requires initArgs.handle == Ref(None) && initArgs.output.Some?
    requires Krb5Context.Init(ex, names, initArgs).Returned?
    requires !Krb5Context.Init(ex, names, initArgs).value.status.IsError()
    requires acceptArgs.inputToken == Krb5Context.Init(ex, names, initArgs).value.output.value
    requires acceptArgs.cred.Some? && !acceptArgs.chanBindings && acceptArgs.handle == Ref(None)
    requires Krb5Context.Accept(ex, acceptArgs).Returned?
    requires Krb5Context.Accept(ex, acceptArgs).value.status == Complete
    ensures exists der ::
              Krb5Context.Accept(ex, acceptArgs).value.output == Krb5Context.KerberosToken(Krb5Context.ApRepTokenId, der)
    ensures Krb5Context.Accept(ex, acceptArgs).value.output != Some([])
    ensures Krb5Context.Init(ex, names, initArgs).value.status == Complete <==> !HasMutual(initArgs.reqFlags)
  {
    Krb5Context.InitFirstEmitsApReq(ex, names, initArgs);
    Krb5Context.AcceptFirstOutcome(ex, acceptArgs);
    var k5 := Krb5Context.Init(ex, names, initArgs).value.handle.deref.value.krb5.value;
    assert MutualOptionKept(ex, k5.tkt, true, Krb5Context.AuthenticatorChecksum(initArgs.reqFlags),
                            acceptArgs.cred.value.krb5.key);
  }

  /** With the corrected first step the AP option follows
      GSS_C_MUTUAL_FLAG, and the two sides agree: the acceptor sends an
      AP-REP exactly when the initiator waits for one, and an empty token
      when the initiator has already completed. */
  lemma MutualReplyMatchesFlags(ex: Exchange, names: NameOps, initArgs: InitArgs, acceptArgs: AcceptArgs)
    requires Krb5Context.NamesReportErrors(names) && MutualOptionSurvives(ex)
    requires initArgs.handle == Ref(None) && initArgs.output.Some?
    requires Krb5Context.InitCorrected(ex, names, initArgs).Returned?
    requires !Krb5Context.InitCorrected(ex, names, initArgs).value.status.IsError()
    requires acceptArgs.inputToken == Krb5Context.InitCorrected(ex, names, initArgs).value.output.value
    requires acceptArgs.cred.Some? && !acceptArgs.chanBindings && acceptArgs.handle == Ref(None)
    requires Krb5Context.Accept(ex, acceptArgs).Returned?
    requires Krb5Context.Accept(ex, acceptArgs).value.status == Complete
    ensures HasMutual(initArgs.reqFlags) ==>
              Krb5Context.InitCorrected(ex, names, initArgs).value.status == ContinueNeeded &&
              exists der ::
                Krb5Context.Accept(ex, acceptArgs).value.output == Krb5Context.KerberosToken(Krb5Context.ApRepTokenId, der)
    ensures !HasMutual(initArgs.reqFlags) ==>
              Krb5Context.InitCorrected(ex, names, initArgs).value.status == Complete &&
              Krb5Context.Accept(ex, acceptArgs).value.output == Some([])
  {
    var actual := if initArgs.wantActualMech then Some(GssKrb5) else None;
    var mutual := HasMutual(initArgs.reqFlags);
    assert initArgs.(handle := Ref(None)) == initArgs;
    Krb5Context.InitFirstBuildsApReq(ex, names, initArgs, actual, mutual);
    Krb5Context.AcceptFirstOutcome(ex, acceptArgs);
    var k5 := Krb5Context.InitCorrected(ex, names, initArgs).value.handle.deref.value.krb5.value;
    assert MutualOptionKept(ex, k5.tkt, mutual, Krb5Context.AuthenticatorChecksum(initArgs.reqFlags),
                            acceptArgs.cred.value.krb5.key);
  }

  /** The initiator's framing checks pass on the acceptor's AP-REP: the
      initiator's second step hands shishi exactly the reply the acceptor's
      shishi encoded, and completes (setting `repdone`) exactly when shishi
      verifies it. */
  lemma ApRepReachesInitiator(ex: Exchange, names: NameOps, ctx: Ctx, apRepDer: seq<byte>, args: InitArgs)
    requires ctx.krb5.Some? && !ctx.krb5.value.repdone
    requires Krb5Context.KerberosToken(Krb5Context.ApRepTokenId, apRepDer).Some?
    requires args.handle == Ref(Some(ctx)) && args.output.Some?
    requires args.inputToken == Krb5Context.KerberosToken(Krb5Context.ApRepTokenId, apRepDer).value
    ensures Krb5Context.Init(ex, names, args).Returned?
    ensures
      var r := Krb5Context.Init(ex, names, args).value;
      var ap := ex.apRepDerSet(ctx.krb5.value.ap, apRepDer);
      r.status != Fatal(BadMic) &&
      (r.status == Complete <==> ap.Some? && ex.apRepVerify(ap.value)) &&
      (r.status == Complete ==> r.handle.deref.value.krb5.value.repdone)
  {
    Krb5Context.InnerTokenOfKerberosToken(Krb5Context.ApRepTokenId, apRepDer);
    Krb5Context.InitContinueChecksReply(ex, names, args, ctx);
  }

  /** After the handshake the initiator's first message goes through: the
      initiator's context (first step done) and the acceptor's (AP-REQ
      accepted) sit in opposite roles with both counters at zero, so when
      both hold the same key a message the initiator wraps unwraps at the
      acceptor to itself. */
  lemma FirstInitiatorMessageGoesThrough(ex: Exchange, names: NameOps, crypto: Crypto,
                                         initArgs: InitArgs, acceptArgs: AcceptArgs,
                                         confounder: Option<seq<byte>>, msg: seq<byte>)
    requires Krb5Context.NamesReportErrors(names) && DecryptInvertsEncrypt(crypto)
    requires initArgs.handle == Ref(None) && initArgs.output.Some?
    requires Krb5Context.Init(ex, names, initArgs).Returned?
    requires !Krb5Context.Init(ex, names, initArgs).value.status.IsError()
    requires acceptArgs.cred.Some? && !acceptArgs.chanBindings && acceptArgs.handle == Ref(None)
    requires Krb5Context.Accept(ex, acceptArgs).Returned?
    requires Krb5Context.Accept(ex, acceptArgs).value.status == Complete
    requires
      var initiator := Krb5Context.Init(ex, names, initArgs).value.handle.deref.value.krb5.value;
      var acceptor := Krb5Context.Accept(ex, acceptArgs).value.handle.deref.value.krb5.value;
      acceptor.key == initiator.key
    requires confounder.Some? ==> |confounder.value| == 8
    ensures
      var initiator := Krb5Context.Init(ex, names, initArgs).value.handle.deref.value.krb5.value;
      var acceptor := Krb5Context.Accept(ex, acceptArgs).value.handle.deref.value.krb5.value;
      initiator.key.Some? &&
      var w := Krb5Msg.Wrap(crypto, initiator, confounder, msg);
      w.status == Complete ==>
        var u := Krb5Msg.Unwrap(crypto, acceptor, w.output.value, true);
        u.status == Complete && u.output == Some(msg) && u.k5.acceptseqnr == 1
  {
    Krb5Context.InitFirstEmitsApReq(ex, names, initArgs);
    Krb5Context.AcceptFirstOutcome(ex, acceptArgs);
    var initiator := Krb5Context.Init(ex, names, initArgs).value.handle.deref.value.krb5.value;
    var acceptor := Krb5Context.Accept(ex, acceptArgs).value.handle.deref.value.krb5.value;
    if Krb5Msg.Wrap(crypto, initiator, confounder, msg).status == Complete {
      Krb5Msg.WrapUnwrapRoundTrip(crypto, initiator, acceptor, confounder, msg);
    }
  }

  /** The acceptor never sets its own counter from the AP-REP it sends, so
      it always starts at 0, while the initiator starts expecting the
      reply's sequence number. When that number is not 0, the acceptor's
      first message is BAD_MIC at the initiator and its counter is not
      used up. */
  lemma AcceptorFirstMessageNeedsZeroReplySequence(crypto: Crypto, acceptor: Krb5Ctx, initiator: Krb5Ctx,
                                                   confounder: Option<seq<byte>>, msg: seq<byte>)
    requires DecryptInvertsEncrypt(crypto)
    requires acceptor.acceptor && !initiator.acceptor
    requires acceptor.key.Some? && initiator.key == acceptor.key
    requires acceptor.initseqnr == 0 && initiator.acceptseqnr != 0
    requires confounder.Some? ==> |confounder.value| == 8
    requires Krb5Msg.Wrap(crypto, acceptor, confounder, msg).status == Complete
    ensures
      var u := Krb5Msg.Unwrap(crypto, initiator, Krb5Msg.Wrap(crypto, acceptor, confounder, msg).output.value, true);
      u.status == Fatal(BadMic) && u.k5 == initiator
  {
    Krb5Msg.WrapLayout(crypto, acceptor, confounder, msg);
    var p := Krb5Msg.ProfileOfKey(acceptor.key.value.keyType).value;
    var conf := confounder.value;
    var cksum := crypto.checksum(acceptor.key, p, Krb5Msg.SignedBytes(Krb5Msg.Header(p), conf, msg)).value;
    var block := Krb5Msg.SequenceBlock(0, true);
    var eseq := crypto.encryptIv(acceptor.key, p, cksum[..8], block).value;
    assert crypto.decryptIv(initiator.key, p, cksum[..8], eseq) == Some(block);
    Krb5Msg.UnwrapReachesSigned(crypto, initiator, p, eseq, cksum, conf, msg);
    Krb5Msg.WrapInnerSlices(p, eseq, cksum, conf, msg);
    Krb5Msg.SequenceBlockContents(0, true);
  }

  /** A first accept call for Kerberos goes through the facade unchanged:
      the token's OID selects the Kerberos entry and the caller sees exactly
      what the mechanism returned. A token that does not unframe is
      DEFECTIVE_TOKEN, and one framed under another OID is BAD_MECH. */
  lemma FacadeAcceptRunsMechanism(ex: Exchange, names: NameOps, args: AcceptArgs)
    requires args.handle == Ref(None)
    ensures Decapsulate(args.inputToken).None? ==>
              Facade.Accept(Installed(ex, names), args).value.status == Fatal(DefectiveToken)
    ensures Decapsulate(args.inputToken).Some? && Decapsulate(args.inputToken).value.0 != GssKrb5 ==>
              Facade.Accept(Installed(ex, names), args).value.status == Fatal(BadMech)
    ensures Decapsulate(args.inputToken).Some? && Decapsulate(args.inputToken).value.0 == GssKrb5 ==>
              Facade.Accept(Installed(ex, names), args) == Krb5Context.Accept(ex, args)
  {
    assert Installed(ex, names)[0].oid == GssKrb5;
  }

  /** Deleting a Kerberos context through the facade always succeeds and
      leaves GSS_C_NO_CONTEXT and an empty output token; a context whose
      Kerberos pointer is NULL is dereferenced by the teardown. */
  lemma FacadeDeleteKerberos(ex: Exchange, names: NameOps, ctx: Ctx, output: Option<seq<byte>>)
    requires ctx.mech == GssKrb5
    ensures ctx.krb5.Some? ==>
              Facade.Delete(Installed(ex, names), Ref(Some(ctx)), output)
              == Returned(Facade.DeleteResult(Complete, Ref(None), Facade.Emptied(output)))
    ensures ctx.krb5.None? ==> Facade.Delete(Installed(ex, names), Ref(Some(ctx)), output).NullDereference?
  {
    assert Installed(ex, names)[0].oid == GssKrb5;
  }

  /** gss_context_time on a Kerberos context reports CONTEXT_EXPIRED
      exactly when time_rec is asked for and the ticket has no lifetime
      left, and otherwise COMPLETE. */
  lemma FacadeContextTimeKerberos(ex: Exchange, names: NameOps, ctx: Ctx, wantTime: bool)
    requires ctx.mech == GssKrb5 && ctx.krb5.Some?
    ensures var r := Facade.ContextTime(Installed(ex, names), Some(ctx), wantTime);
      r.Returned? &&
      (r.value.status == Fatal(ContextExpired) <==> wantTime && ex.ticketLifetime(ctx.krb5.value.tkt) == 0) &&
      (r.value.status != Fatal(ContextExpired) ==> r.value.status == Complete)
  {
    assert Installed(ex, names)[0].oid == GssKrb5;
  }
}
