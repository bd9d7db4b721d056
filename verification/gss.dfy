/** The library's internal records (lib/internal.h and the Kerberos
    context it points to) and the argument and result records of the
    context-level calls. A C pointer that may be NULL is an Option; a
    pointer to a handle is a Ref. */
module Gss {
  import opened Bytes
  import opened Status
  import opened Oids
  import opened Shishi

  /** gss_name_desc: the name octets and its name type. */
  datatype Name = Name(value: seq<byte>, nameType: Option<Oid>)

  /** What gss_duplicate_name or gss_krb5_canonicalize_name returned and
      the name it wrote. */
  datatype NameResult = NameResult(status: MajorStatus, name: Name)

  /** The name routines init calls; their bodies (lib/name.c,
      lib/krb5/name.c) are not part of this model. */
  datatype NameOps = NameOps(
    duplicateName: Name -> NameResult,
    canonicalizeName: (Name, Option<Oid>) -> NameResult)

  /** The Kerberos part of a credential. */
  datatype Krb5Cred = Krb5Cred(tkt: Option<Ticket>, key: Option<Key>)

  /** gss_cred_id_desc, reduced to its Kerberos part. */
  datatype Cred = Cred(krb5: Krb5Cred)

  /** The Kerberos state of a context. */
  datatype Krb5Ctx = Krb5Ctx(
    acceptor: bool,
    repdone: bool,
    flags: uint32,
    initseqnr: uint32,
    acceptseqnr: uint32,
    key: Option<Key>,
    tkt: Option<Ticket>,
    peer: Option<Name>,
    ap: Option<Ap>)

  /** What xcalloc leaves: every field zero or NULL. */
  const EmptyKrb5Ctx := Krb5Ctx(false, false, 0, 0, 0, None, None, None, None)

  /** gss_ctx_id_desc: the mechanism it is bound to and, for Kerberos, its
      state (None while the pointer is still NULL). */
  datatype Ctx = Ctx(mech: Oid, krb5: Option<Krb5Ctx>)

  /** A `T *` argument: NULL, or a pointer to a T. */
  datatype Ref<T> = Null | Ref(deref: T)

  /** A call either returns or does something C leaves undefined: it
      dereferences a NULL pointer, or reads past the end of a buffer. The
      model stops there. */
  datatype Outcome<T> = Returned(value: T) | NullDereference | OutOfBoundsRead

  /** A flag word the call clears when the caller supplied one. */
  function Cleared(flags: Option<uint32>): (r: Option<uint32>)
    ensures r.Some? <==> flags.Some?
    ensures r.Some? ==> r.value == 0
  {
    if flags.Some? then Some(0) else None
  }

  /** GSS_C_MUTUAL_FLAG. */
  const MutualFlag: uint32 := 2

  predicate HasMutual(flags: uint32) {
    (flags / 2) % 2 == 1
  }

  /** The arguments of gss_init_sec_context that the code reads or writes.
      `output` and `retFlags` are the buffer and flag word the caller
      points at (None: NULL); `wantActualMech` says actual_mech_type is
      not NULL. */
  datatype InitArgs = InitArgs(
    cred: Option<Cred>,
    handle: Ref<Option<Ctx>>,
    targetName: Option<Name>,
    mechType: Option<Oid>,
    reqFlags: uint32,
    inputToken: seq<byte>,
    output: Option<seq<byte>>,
    retFlags: Option<uint32>,
    wantActualMech: bool)

  /** The state the caller sees afterwards; `actualMech` is None when
      nothing was written through actual_mech_type. */
  datatype InitResult = InitResult(
    status: MajorStatus,
    handle: Ref<Option<Ctx>>,
    output: Option<seq<byte>>,
    retFlags: Option<uint32>,
    actualMech: Option<Oid>)

  /** The arguments of gss_accept_sec_context that the code reads or
      writes; `chanBindings` says input_chan_bindings is not
      GSS_C_NO_CHANNEL_BINDINGS. */
  datatype AcceptArgs = AcceptArgs(
    cred: Option<Cred>,
    handle: Ref<Option<Ctx>>,
    inputToken: seq<byte>,
    chanBindings: bool,
    wantSrcName: bool,
    wantMechType: bool,
    output: Option<seq<byte>>,
    retFlags: Option<uint32>)

  datatype AcceptResult = AcceptResult(
    status: MajorStatus,
    handle: Ref<Option<Ctx>>,
    output: Option<seq<byte>>,
    retFlags: Option<uint32>,
    srcName: Option<Name>,
    mechType: Option<Oid>)

  /** The status of gss_context_time and the time it wrote, if any. */
  datatype TimeResult = TimeResult(status: MajorStatus, time: Option<uint32>)
}
