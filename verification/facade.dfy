/** The mechanism-independent context calls (lib/context.c): argument
    checks, dispatch through the installed-mechanism table, and the
    lifetime of the context handle. The mechanism is a separate
    transition: the facade hands it the arguments and passes its status
    through. */
module Facade {
  import opened Bytes
  import opened Status
  import opened Oids
  import opened Token
  import opened Gss
  import opened Mechs

  /** An output buffer the call empties when the caller supplied one. */
  function Emptied(buffer: Option<seq<byte>>): (r: Option<seq<byte>>)
    ensures r.Some? <==> buffer.Some?
    ensures r.Some? ==> r.value == []
  {
    if buffer.Some? then Some([]) else None
  }

  /** The mechanism init dispatches to: the one asked for (or the default)
      on a first call, the context's own afterwards. */
  function InitMech(table: seq<Mech>, args: InitArgs): Option<nat>
    requires args.handle.Ref?
  {
    match args.handle.deref
    case None => FindMech(table, args.mechType)
    case Some(ctx) => FindMech(table, Some(ctx.mech))
  }

  /** gss_init_sec_context. The output token and ret_flags are emptied
      first. A NULL handle pointer is NO_CONTEXT | CALL_INACCESSIBLE_READ,
      a NULL output buffer FAILURE | CALL_BAD_STRUCTURE, and a mechanism
      that cannot be found BAD_MECH, all with the handle untouched. On a
      first call the facade allocates a context holding only the
      mechanism's OID before calling the mechanism, and frees it again when
      the mechanism reports an error. The mechanism's status is returned as
      it is. */
  function Init(table: seq<Mech>, args: InitArgs): (r: Outcome<InitResult>)
    ensures args.handle.Null? ==>
              r == Returned(InitResult(CallError(NoContext, InaccessibleRead), args.handle,
                                       Emptied(args.output), Cleared(args.retFlags), None))
    ensures args.handle.Ref? && args.output.None? ==>
              r == Returned(InitResult(CallError(Failure, BadStructure), args.handle,
                                       None, Cleared(args.retFlags), None))
    ensures args.handle.Ref? && args.output.Some? && InitMech(table, args).None? ==>
              r == Returned(InitResult(Fatal(BadMech), args.handle, Some([]), Cleared(args.retFlags), None))
  {
    var output := Emptied(args.output);
    var flags := Cleared(args.retFlags);
    if args.handle.Null? then
      Returned(InitResult(CallError(NoContext, InaccessibleRead), args.handle, output, flags, None))
    else if args.output.None? then
      Returned(InitResult(CallError(Failure, BadStructure), args.handle, output, flags, None))
    else
      match InitMech(table, args)
      case None => Returned(InitResult(Fatal(BadMech), args.handle, output, flags, None))
      case Some(i) =>
        var mech := table[i];
        var actual := if args.wantActualMech then Some(mech.oid) else None;
        var firstCall := args.handle.deref.None?;
        var handle := if firstCall then Ref(Some(Ctx(mech.oid, None))) else args.handle;
        match mech.init(args.(handle := handle, output := output, retFlags := flags))
        case NullDereference => NullDereference
        case OutOfBoundsRead => OutOfBoundsRead
        case Returned(m) =>
          Returned(m.(handle := if m.status.IsError() && firstCall then Ref(None) else m.handle,
                      actualMech := if m.actualMech.Some? then m.actualMech else actual))
  }

  /** gss_accept_sec_context. A NULL handle pointer is NO_CONTEXT |
      CALL_INACCESSIBLE_READ. On a first call the mechanism is the one
      named by the token's OID, and a token that does not unframe is
      DEFECTIVE_TOKEN; afterwards it is the context's own. There is no
      default mechanism here: an unknown OID is BAD_MECH. The facade
      allocates nothing; the mechanism's result is returned as it is. */
  function Accept(table: seq<Mech>, args: AcceptArgs): (r: Outcome<AcceptResult>)
    ensures args.handle.Null? ==>
              r == Returned(AcceptResult(CallError(NoContext, InaccessibleRead), args.handle, args.output,
                                         args.retFlags, None, None))
    ensures args.handle == Ref(None) && Decapsulate(args.inputToken).None? ==>
              r == Returned(AcceptResult(Fatal(DefectiveToken), args.handle, args.output, args.retFlags, None, None))
    ensures args.handle == Ref(None) && Decapsulate(args.inputToken).Some? &&
            FindMechNoDefault(table, Some(Decapsulate(args.inputToken).value.0)).None? ==>
              r == Returned(AcceptResult(Fatal(BadMech), args.handle, args.output, args.retFlags, None, None))
    ensures args.handle.Ref? && args.handle.deref.Some? &&
            FindMechNoDefault(table, Some(args.handle.deref.value.mech)).None? ==>
              r == Returned(AcceptResult(Fatal(BadMech), args.handle, args.output, args.retFlags, None, None))
  {
    var stop := (status: MajorStatus) =>
      Returned(AcceptResult(status, args.handle, args.output, args.retFlags, None, None));
    if args.handle.Null? then stop(CallError(NoContext, InaccessibleRead))
    else
      var found: Option<Option<nat>> :=
        match args.handle.deref
        case None =>
          (match Decapsulate(args.inputToken)
           case None => None
           case Some((oid, _)) => Some(FindMechNoDefault(table, Some(oid))))
        case Some(ctx) => Some(FindMechNoDefault(table, Some(ctx.mech)));
      match found
      case None => stop(Fatal(DefectiveToken))
      case Some(None) => stop(Fatal(BadMech))
      case Some(Some(i)) =>
        var mech := table[i];
        match mech.accept(args)
        case NullDereference => NullDereference
        case OutOfBoundsRead => OutOfBoundsRead
        case Returned(m) =>
          Returned(m.(mechType := if m.mechType.Some? then m.mechType
                                  else if args.wantMechType then Some(mech.oid) else None))
  }

  /** The status of gss_delete_sec_context, the handle and the output token
      afterwards. */
  datatype DeleteResult = DeleteResult(status: MajorStatus, handle: Ref<Option<Ctx>>, output: Option<seq<byte>>)

  /** gss_delete_sec_context. A NULL handle pointer is NO_CONTEXT |
      CALL_INACCESSIBLE_READ and GSS_C_NO_CONTEXT is NO_CONTEXT |
      CALL_BAD_STRUCTURE. Otherwise the output token is emptied; an unknown
      mechanism is BAD_MECH with the context kept, and in every other case
      the mechanism's teardown runs and the handle becomes GSS_C_NO_CONTEXT
      whatever the teardown returned. */
  function Delete(table: seq<Mech>, handle: Ref<Option<Ctx>>, output: Option<seq<byte>>): (r: Outcome<DeleteResult>)
    ensures handle.Null? ==>
              r == Returned(DeleteResult(CallError(NoContext, InaccessibleRead), handle, output))
    ensures handle == Ref(None) ==>
              r == Returned(DeleteResult(CallError(NoContext, BadStructure), handle, output))
    ensures handle.Ref? && handle.deref.Some? && FindMech(table, Some(handle.deref.value.mech)).None? ==>
              r == Returned(DeleteResult(Fatal(BadMech), handle, Emptied(output)))
    ensures r.Returned? && r.value.handle != handle ==>
              r.value.handle == Ref(None) && r.value.output == Emptied(output)
  {
    if handle.Null? then Returned(DeleteResult(CallError(NoContext, InaccessibleRead), handle, output))
    else if handle.deref.None? then Returned(DeleteResult(CallError(NoContext, BadStructure), handle, output))
    else
      var emptied := Emptied(output);
      match FindMech(table, Some(handle.deref.value.mech))
      case None => Returned(DeleteResult(Fatal(BadMech), handle, emptied))
      case Some(i) =>
        match table[i].delete(handle)
        case NullDereference => NullDereference
        case OutOfBoundsRead => OutOfBoundsRead
        case Returned(status) => Returned(DeleteResult(status, Ref(None), emptied))
  }

  /** gss_context_time: GSS_C_NO_CONTEXT is NO_CONTEXT | CALL_BAD_STRUCTURE,
      an unknown mechanism BAD_MECH; otherwise the mechanism answers. */
  function ContextTime(table: seq<Mech>, handle: Option<Ctx>, wantTime: bool): (r: Outcome<TimeResult>)
    ensures handle.None? ==> r == Returned(TimeResult(CallError(NoContext, BadStructure), None))
    ensures handle.Some? && FindMech(table, Some(handle.value.mech)).None? ==>
              r == Returned(TimeResult(Fatal(BadMech), None))
    ensures handle.Some? && FindMech(table, Some(handle.value.mech)).Some? ==>
              r == table[FindMech(table, Some(handle.value.mech)).value].contextTime(handle.value, wantTime) &&
              table[FindMech(table, Some(handle.value.mech)).value].oid == handle.value.mech
  {
    match handle
    case None => Returned(TimeResult(CallError(NoContext, BadStructure), None))
    case Some(ctx) =>
      match FindMech(table, Some(ctx.mech))
      case None => Returned(TimeResult(Fatal(BadMech), None))
      case Some(i) => table[i].contextTime(ctx, wantTime)
  }

  // ---------------------------------------------------------------------
  // Calls that are not implemented: each returns one constant status.

  /** gss_process_context_token. */
  function ProcessContextToken(handle: Option<Ctx>, token: seq<byte>): MajorStatus {
    Fatal(Failure)
  }

  /** gss_inquire_context. */
  function InquireContext(handle: Option<Ctx>): MajorStatus {
    Fatal(Failure)
  }

  /** gss_wrap_size_limit. */
  function WrapSizeLimit(handle: Option<Ctx>, confReq: bool, qop: uint32, reqOutputSize: uint32): MajorStatus {
    Fatal(Failure)
  }

  /** gss_export_sec_context. */
  function ExportSecContext(handle: Ref<Option<Ctx>>): MajorStatus {
    Fatal(Unavailable)
  }

  /** gss_import_sec_context. */
  function ImportSecContext(token: seq<byte>): MajorStatus {
    Fatal(Unavailable)
  }

  /** Whatever their arguments, the unimplemented calls report an error:
      GSS_S_FAILURE (0x000D0000) from process_context_token,
      inquire_context and wrap_size_limit, and GSS_S_UNAVAILABLE
      (0x00100000) from export and import. */
  lemma UnimplementedCallsFail(handle: Option<Ctx>, ref: Ref<Option<Ctx>>, token: seq<byte>,
                               confReq: bool, qop: uint32, size: uint32)
    ensures ProcessContextToken(handle, token).IsError() && Encode(ProcessContextToken(handle, token)) == 0x000D_0000
    ensures InquireContext(handle).IsError() && Encode(InquireContext(handle)) == 0x000D_0000
    ensures WrapSizeLimit(handle, confReq, qop, size).IsError() &&
            Encode(WrapSizeLimit(handle, confReq, qop, size)) == 0x000D_0000
    ensures ExportSecContext(ref).IsError() && Encode(ExportSecContext(ref)) == 0x0010_0000
    ensures ImportSecContext(token).IsError() && Encode(ImportSecContext(token)) == 0x0010_0000
  {
  }

  // ---------------------------------------------------------------------
  // Dispatch and handle lifetime

  /** Init dispatch: a first call goes to the mechanism asked for (the
      default, the first entry, when none is), a later call to the
      mechanism whose OID the context carries, never to another one; and
      the facade hands that mechanism the emptied output token and flags. */
  lemma InitDispatch(table: seq<Mech>, args: InitArgs)
    requires args.handle.Ref? && args.output.Some? && InitMech(table, args).Some?
    ensures var i := InitMech(table, args).value;
      i < |table| &&
      (args.handle.deref.Some? ==> table[i].oid == args.handle.deref.value.mech) &&
      (args.handle.deref.None? && args.mechType.Some? ==> table[i].oid == args.mechType.value) &&
      (args.handle.deref.None? && args.mechType.None? ==> i == 0)
  {
  }

  /** The context handle after init: a later call keeps whatever the
      mechanism left; a first call leaves GSS_C_NO_CONTEXT when the
      mechanism reports an error and the mechanism's context otherwise,
      and the mechanism saw a context bound to its own OID with no
      mechanism state yet. The status is the mechanism's. */
  lemma InitHandleLifetime(table: seq<Mech>, args: InitArgs)
    requires args.handle.Ref? && args.output.Some? && InitMech(table, args).Some?
    requires Init(table, args).Returned?
    ensures
      var mech := table[InitMech(table, args).value];
      var handle := if args.handle.deref.None? then Ref(Some(Ctx(mech.oid, None))) else args.handle;
      var m := mech.init(args.(handle := handle, output := Some([]), retFlags := Cleared(args.retFlags)));
      var r := Init(table, args).value;
      m.Returned? && r.status == m.value.status && r.output == m.value.output &&
      (args.handle.deref.Some? ==> r.handle == m.value.handle) &&
      (args.handle.deref.None? && r.status.IsError() ==> r.handle == Ref(None)) &&
      (args.handle.deref.None? && !r.status.IsError() ==> r.handle == m.value.handle)
  {
  }

  /** Accept dispatch: a later call goes to the context's own mechanism,
      a first call to the mechanism named in the token, and the arguments
      reach it unchanged. */
  lemma AcceptDispatch(table: seq<Mech>, args: AcceptArgs)
    requires args.handle.Ref?
    requires args.handle.deref.None? ==> Decapsulate(args.inputToken).Some?
    requires var oid := if args.handle.deref.Some? then args.handle.deref.value.mech
                        else Decapsulate(args.inputToken).value.0;
             FindMechNoDefault(table, Some(oid)).Some?
    ensures
      var oid := if args.handle.deref.Some? then args.handle.deref.value.mech
                 else Decapsulate(args.inputToken).value.0;
      var mech := table[FindMechNoDefault(table, Some(oid)).value];
      mech.oid == oid &&
      (Accept(table, args).NullDereference? <==> mech.accept(args).NullDereference?) &&
      (Accept(table, args).OutOfBoundsRead? <==> mech.accept(args).OutOfBoundsRead?) &&
      (Accept(table, args).Returned? ==>
         Accept(table, args).value.(mechType := None) == mech.accept(args).value.(mechType := None))
  {
  }

  /** Deleting an existing context of a known mechanism whose teardown
      returns always leaves GSS_C_NO_CONTEXT in the handle and an empty
      output token, with the teardown's status. */
  lemma DeleteResetsHandle(table: seq<Mech>, ctx: Ctx, output: Option<seq<byte>>)
    requires FindMech(table, Some(ctx.mech)).Some?
    requires table[FindMech(table, Some(ctx.mech)).value].delete(Ref(Some(ctx))).Returned?
    ensures Delete(table, Ref(Some(ctx)), output)
            == Returned(DeleteResult(table[FindMech(table, Some(ctx.mech)).value].delete(Ref(Some(ctx))).value,
                                     Ref(None), Emptied(output)))
  {
  }
}
