# GNU GSS core in Dafny

A model of the core of GNU GSS, the GSS-API library (RFC 2743, C bindings of RFC 2744) with its Kerberos V5 mechanism (RFC 1964). The model covers four parts:

- **Per-message protection.** `gss_krb5_wrap` and `gss_krb5_unwrap` produce and check the legacy wrap token of section 1.2.2 of RFC 1964. The model covers both profiles:
  - DES-MAC-MD5: SGN_ALG 00 00, an 8-octet checksum.
  - HMAC-SHA1-DES3-KD: SGN_ALG 04 00, a 20-octet checksum.

  It covers the exact octet layout, the pad, and the little-endian sequence number with its direction octets. It also covers the exact-match window on the receive counter and the order of every check.
- **Kerberos context establishment.**
  - The initiator's first step: an AP-REQ carrying the 0x8003 authenticator checksum of section 1.1.1 of RFC 1964.
  - Its second step: the AP-REP and `repdone`.
  - The acceptor's one-shot processing, plus context deletion and context time.
- **The mechanism-independent facade** (`gss_init_sec_context`, `gss_accept_sec_context`, `gss_delete_sec_context`, `gss_context_time` and the constant-status calls). It checks arguments, dispatches through the installed-mechanism table, and manages the lifetime of the context handle.
- **OID and OID-set utilities**: equality, copy and duplicate, the empty set, test, add, release, `gss_indicate_mechs` and `gss_release_buffer`.

Modelling choices:

- Every call is a pure function from its arguments to a result record. The record holds the status, the new state and what was written through the caller's pointers.
- A major status is structured into a calling error, a routine error and supplementary bits. `Status.Encode` and `Status.Decode` map it to the OM_uint32 layout of section 3.9.1 of RFC 2744.
- A C pointer that may be NULL is an `Option`. A `T *` argument is a `Ref<T>`.
- A dereference of NULL is the outcome `NullDereference`, and a read past the end of a buffer is the outcome `OutOfBoundsRead`. The model stops at either, because C leaves both undefined. The second arises when a Kerberos context token unframes to fewer than the two octets of its TOK_ID.
- Everything the code hands to shishi becomes a function-valued field of a record passed in as a parameter:
  - `Shishi.Crypto` for checksum, encryption and decryption;
  - `Shishi.Exchange` for the AP exchange, ticket lookup and lifetime;
  - `Gss.NameOps` for the name routines.

  Nothing is assumed about these functions, except one hypothesis. Where a round trip needs decryption to invert encryption, it is an explicit hypothesis of that lemma: `Shishi.DecryptInvertsEncrypt`.
- The RFC 2743 token framing is written out concretely, in module `Token`, and its round trip is proved. The code's framing routines are in lib/asn1.c, which is not part of this model.
- The mechanism table lookup (`_gss_find_mech`, `_gss_find_mech_no_default`) is in lib/meta.c, which is not part of this model either. It is modelled as a first-match search in `Mechs`. Only the former substitutes the first entry for a NULL OID.

Modules, one per file:

| module | file | models |
|---|---|---|
| `Bytes` | bytes.dfy | octets, 32-bit counters, little-endian, `memcmp` |
| `Status` | status.dfy | RFC 2744 major status |
| `Oids` | oids.dfy | lib/misc.c |
| `Token` | token.dfy | RFC 2743 framing |
| `Shishi` | shishi.dfy | the foreign library |
| `Gss` | gss.dfy | lib/internal.h records |
| `Krb5Msg` | krb5_msg.dfy | lib/krb5/msg.c |
| `Krb5Context` | krb5_context.dfy | lib/krb5/context.c |
| `Mechs` | mechs.dfy | the mechanism table |
| `Facade` | facade.dfy | lib/context.c |
| `Composition` | composition.dfy | the facade and the mechanism together |

## Model

| member | source | states |
|---|---|---|
| Bytes.Inc32Changes | lib/krb5/msg.c:297 | A 32-bit counter increment wraps modulo 2^32 and always changes the counter. This is what makes a replayed token fail. |
| Bytes.C2IOfLittleEndian | lib/krb5/msg.c:101-104 | C2I reads back the four little-endian octets wrap stores for a sequence number. |
| Bytes.LittleEndianOfC2I | lib/krb5/msg.c:293 | The number C2I reads, stored little-endian again, is exactly the four octets it read. |
| Bytes.MemEqualIsPrefixEquality | lib/misc.c:31-32 | `memcmp(a, b, n) == 0` holds exactly when the first n octets agree. |
| Status.Encode | lib/context.c:374 | A status packs into OM_uint32 as section 3.9.1 of RFC 2744 lays it out: the calling error in bits 24-31, the routine error in bits 16-23 and the supplementary bits below. The cited line ORs a routine error with a calling error in that layout. |
| Status.DecodeEncode | lib/context.c:381 | Decoding the OM_uint32 of any status gives the status back, so a combination such as FAILURE \| CALL_BAD_STRUCTURE keeps both fields (section 3.9.1 of RFC 2744). |
| Status.EncodeDecode | lib/context.c:392 | Every OM_uint32 that decodes is the encoding of what it decodes to (section 3.9.1 of RFC 2744). |
| Status.IsErrorIsHighHalf | lib/context.c:423 | GSS_ERROR, as used at the cited line, holds exactly for statuses with a calling or a routine error, i.e. an OM_uint32 of at least 0x10000 (section 3.9.1 of RFC 2744). |
| Oids.OidEqual | lib/misc.c:24-33 | Two OIDs are equal iff both are non-NULL, have the same length and the same octets. |
| Oids.CopyOid | lib/misc.c:35-52 | A NULL or empty source is FAILURE with nothing written. Otherwise the result is COMPLETE and the copy equals the source. |
| Oids.DuplicateOid | lib/misc.c:54-78 | The same checks and outcome as copying, into a new descriptor. |
| Oids.CreateEmptyOidSet | lib/misc.c:98-109 | COMPLETE, with a set of count 0, which is duplicate-free. |
| Oids.TestOidSetMember | lib/misc.c:194-221 | Always COMPLETE. `present` holds iff the member is non-NULL and some element equals it by length and octets. |
| Oids.AddOidSetMember | lib/misc.c:148-172 | A NULL or empty member is FAILURE with the set unchanged. A member already present is COMPLETE with the set unchanged, so adding is idempotent. A full count is FAILURE. Otherwise exactly that member is appended after the unchanged elements. Duplicate-freedom is preserved. |
| Oids.ReleaseOidSet | lib/misc.c:243-261 | COMPLETE, and the handle is GSS_C_NO_OID_SET afterwards, whether or not it was already. |
| Oids.ReleaseBuffer | lib/misc.c:327-339 | COMPLETE. A present buffer ends with length 0 and GSS_C_NO_BUFFER is left alone. |
| Oids.IndicateMechs | lib/misc.c:280-304 | On COMPLETE the set is duplicate-free and holds exactly the installed mechanisms' OIDs. A failed add releases the set. With non-empty OIDs it always completes. |
| Token.ParseDerLengthOfDerLength | lib/ext.h:28-31 | The DER length parser reads back what the DER length writer wrote, whatever follows it. |
| Token.DerLengthOfParseDerLength | lib/internal.h:74-77 | Every length the model's parser accepts is the DER encoding of its value, so it accepts only the minimal forms. That strictness is an assumption of the model (see Left out). |
| Token.ParseOidAndInnerOf | lib/ext.h:33-36 | The OID and inner token are recovered from `06 ‖ length ‖ OID ‖ inner`. |
| Token.OidAndInnerOfParse | lib/ext.h:33-36 | Whatever the OID parser accepts is rebuilt exactly by writing the OID back. |
| Token.DecapsulateEncapsulate | lib/ext.h:28-36 | Decapsulating an encapsulated token gives back its OID and inner token. |
| Token.EncapsulateDecapsulate | lib/ext.h:28-36 | Every token that decapsulates is the encapsulation of what it decapsulates to. |
| Krb5Msg.PadLength | lib/krb5/msg.c:68 | The pad length is between 1 and 8 and brings the message to a multiple of 8. A message that is already aligned gets a whole block. |
| Krb5Msg.Pad | lib/krb5/msg.c:88-89 | The pad holds PadLength octets, each equal to PadLength. |
| Krb5Msg.Wrap | lib/krb5/msg.c:47-198 | The status is COMPLETE or FAILURE. COMPLETE writes a token and increments `initseqnr` by exactly one. Every failure writes nothing and leaves the context as it was. An unknown key type or a failed randomize is FAILURE. |
| Krb5Msg.WrapLayout | lib/krb5/msg.c:68-127 | A completed wrap emits, framed under GSS_KRB5, header ‖ encrypted SND_SEQ ‖ checksum ‖ confounder ‖ message ‖ pad. That is 24 + N + len + pad octets: 32 + len + pad for DES and 44 + len + pad for DES3. The checksum covers header ‖ confounder ‖ message ‖ pad, and SND_SEQ is encrypted under the checksum's first 8 octets. |
| Krb5Msg.HeaderSelectsProfile | lib/krb5/msg.c:75-78 | The header is 02 01 ‖ SGN_ALG (00 00 DES, 04 00 DES3) ‖ FF FF ‖ FF FF. Read back, SGN_ALG selects the profile that wrote it and SEAL_ALG reads 0xFFFF. |
| Krb5Msg.SequenceBlockContents | lib/krb5/msg.c:101-105 | SND_SEQ is the counter, least significant octet first, then FF FF FF FF from an acceptor or 00 00 00 00 from an initiator. C2I reads the counter back. |
| Krb5Msg.Unwrap | lib/krb5/msg.c:215-410 | The counter is unchanged or advanced by exactly one, and COMPLETE always advances it. A message is written iff the status is COMPLETE. The status is COMPLETE, BAD_MIC or FAILURE. conf_state is written only when asked for. |
| Krb5Msg.UnwrapSigned | lib/krb5/msg.c:267-331 | The profile checks keep the same counter discipline and status set, and pass conf_state through. |
| Krb5Msg.UnwrapIntegrityVerdicts | lib/krb5/msg.c:297-324 | Once the sequence block is accepted, the counter is advanced whatever follows. A pad length over 8 or a pad octet that differs from it is BAD_MIC. A checksum shishi cannot compute, or one of the wrong length, is FAILURE. A checksum that differs from the token's is BAD_MIC. The call completes iff the pad is valid and the recomputed checksum equals the token's. |
| Krb5Msg.UnwrapCompleteMeansChecked | lib/krb5/msg.c:289-331 | A COMPLETE unwrap means the token passed every check. The token is a wrap token under GSS_KRB5. Its sequence block decrypts to exactly the block the peer builds for the expected counter. Its pad is valid. It carries the checksum shishi computes over header ‖ confounder ‖ message ‖ pad. The message returned lies between the confounder and the pad. |
| Krb5Msg.UnwrapFraming | lib/krb5/msg.c:215-240 | A failed decapsulation, a foreign OID, fewer than 8 octets or a TOK_ID other than 02 01 give BAD_MIC with conf_state unwritten. Then conf_state is SEAL_ALG == 0xFFFF. A bad filler is BAD_MIC. An SGN_ALG other than 0 or 4 is FAILURE. Fewer than 40 octets (DES) or 52 (DES3) is BAD_MIC. None of these touches the counter. |
| Krb5Msg.UnwrapCounterAdvance | lib/krb5/msg.c:278-297 | The counter advances iff the framing passes and the decrypted SND_SEQ is 8 octets, carries the peer's direction octets and equals `acceptseqnr` (`Krb5Msg.SequenceChecked`). The advance happens before the pad and checksum are checked. |
| Krb5Msg.PadCheckIsLoop | lib/krb5/msg.c:300-305 | The slice comparison used for the pad is the source's loop: each of the last padlen octets equals padlen. It holds vacuously for a pad length of 0. |
| Krb5Msg.WrapInnerSlices | lib/krb5/msg.c:308-331 | On a wrap inner token, the octets unwrap re-checksums are exactly the octets wrap checksummed. The last octet is the pad length, the pad reads back, and the message sits at offset 24 + N. |
| Krb5Msg.WrapInnerHeader | lib/krb5/msg.c:113 | A wrap inner token starts with the wrap header. |
| Krb5Msg.UnwrapOfHeader | lib/krb5/msg.c:219-240 | Any token framed under GSS_KRB5 whose first 8 octets are a wrap header passes the framing checks and reaches that header's profile. |
| Krb5Msg.UnwrapReachesSigned | lib/krb5/msg.c:343-344 | Every token wrap builds passes unwrap's framing checks. |
| Krb5Msg.UnwrapSignedAccepts | lib/krb5/msg.c:351-401 | With the expected SND_SEQ and a matching checksum, the profile checks return COMPLETE with the original message and advance the counter. |
| Krb5Msg.WrapUnwrapRoundTrip | lib/krb5/msg.c:84-122 | A message wrapped by one side unwraps at the other to the same message. The receiver must hold the same key, be in the opposite role and expect the sender's counter value, and decryption must invert encryption. The result is COMPLETE and the receiver's counter advances by one. conf_state is 1, although the token's SEAL_ALG is FF FF and nothing was sealed (see Findings). |
| Krb5Msg.UnwrapCorrected | lib/krb5/msg.c:234-235 | Unwrap with conf_state as section 5.31 of RFC 2744 defines it: nonzero exactly when confidentiality was applied. Status, message and context are exactly as-written unwrap's. |
| Krb5Msg.UnwrapConfStateInverted | lib/krb5/msg.c:231-235 | On any wrap token, the code as written sets conf_state to 1 exactly when SEAL_ALG is FF FF ("none"). The corrected unwrap sets it exactly when SEAL_ALG is not FF FF. |
| Krb5Msg.WrapUnwrapRoundTripCorrected | lib/krb5/msg.c:234-235 | With the corrected conf_state, the round trip returns the message, advances the counter and reports conf_state 0, matching wrap, which never seals. |
| Krb5Msg.UnwrapRejectsReplay | lib/krb5/msg.c:293-297 | A token that was accepted once is BAD_MIC when delivered again, and it leaves the context unchanged. |
| Krb5Context.AuthenticatorChecksum | lib/krb5/context.c:121-128 | The 0x8003 checksum is 24 octets long. |
| Krb5Context.AuthenticatorChecksumRoundTrip | lib/krb5/context.c:123-128 | It is 10 00 00 00 ‖ 16 zero octets ‖ req_flags little-endian, and the flags read back from it. |
| Krb5Context.InnerTokenOfKerberosToken | lib/krb5/context.c:163-168 | A TOK_ID ‖ DER token framed under GSS_KRB5 unframes to the DER message under that TOK_ID. |
| Krb5Context.Init | lib/krb5/context.c:51-213 | A NULL handle pointer or output buffer is FAILURE before anything is written. A context whose Kerberos pointer is NULL is dereferenced. On the second step, the call reads past the buffer iff the token unframes under GSS_KRB5 to fewer than two octets. ret_flags is never written. |
| Krb5Context.InitFirst | lib/krb5/context.c:62-176 | Any return leaves a published initiator context bound to GSS_KRB5 with `repdone` clear. The call dereferences NULL exactly when shishi is available and there is no target name. |
| Krb5Context.InitFirstBuildsApReq | lib/krb5/context.c:119-175 | A first step without error emits 01 00 ‖ the AP-REQ shishi built around the 0x8003 checksum of req_flags, from an AP made with the given MUTUAL-REQUIRED option, framed under GSS_KRB5. It stores the flags and the AP key, with both counters zero. It returns CONTINUE_NEEDED iff GSS_C_MUTUAL_FLAG was requested, else COMPLETE. |
| Krb5Context.InitFirstEmitsApReq | lib/krb5/context.c:119-175 | The same for the first step as written, whose AP always carries MUTUAL-REQUIRED (:131-133), whatever req_flags say. |
| Krb5Context.InitContinue | lib/krb5/context.c:177-211 | The second step returns iff the token does not unframe under GSS_KRB5 to fewer than two octets. Otherwise the TOK_ID comparison reads past the buffer. When it returns, it writes no output and keeps the context's mechanism. It returns COMPLETE iff it sets `repdone`. |
| Krb5Context.InitContinueChecksReply | lib/krb5/context.c:184-210 | A token that unframes under GSS_KRB5 to fewer than two octets makes the call read past the buffer, and no other token does. Any other token that does not unframe to 02 00 ‖ DER under GSS_KRB5 is BAD_MIC with nothing changed. A reply shishi rejects or fails to verify is FAILURE. On COMPLETE, `acceptseqnr` is the reply's sequence number (or 0) and `repdone` is set. |
| Krb5Context.InitAfterReplyFails | lib/krb5/context.c:177-213 | Once `repdone` is set, init returns FAILURE and changes nothing. |
| Krb5Context.Accept | lib/krb5/context.c:235-293 | ret_flags is cleared first. Then come NO_CRED, BAD_BINDINGS and NO_CONTEXT, in that order, each with ret_flags 0. An existing context gets COMPLETE with nothing changed and ret_flags 0. ret_flags ends as anything but 0 only when it is GSS_C_MUTUAL_FLAG and the output is an AP-REP token. The call reads past the buffer iff it reaches the TOK_ID test with a token that unframes under GSS_KRB5 to fewer than two octets. |
| Krb5Context.AcceptFirst | lib/krb5/context.c:265-357 | Every return leaves a new acceptor context bound to GSS_KRB5 with both counters zero. ret_flags changes only to GSS_C_MUTUAL_FLAG, and then the output is an AP-REP token. The TOK_ID test reads past a token that unframes to fewer than two octets. |
| Krb5Context.AcceptFirstOutcome | lib/krb5/context.c:267-356 | Even a rejected AP-REQ leaves an acceptor context. Among calls that return, BAD_MIC means exactly that the token does not unframe to 01 00 ‖ DER. On COMPLETE the context holds the processed request's ticket and that ticket's key. With mutual authentication the output is 02 00 ‖ AP-REP and ret_flags is GSS_C_MUTUAL_FLAG; otherwise the output is empty. The source name is the client name with the principal name type. |
| Krb5Context.Delete | lib/krb5/context.c:363-376 | Teardown returns COMPLETE exactly when the handle holds a context with Kerberos state, and dereferences NULL otherwise. |
| Krb5Context.ContextTime | lib/krb5/context.c:378-397 | Without time_rec the call is COMPLETE, even when the Kerberos pointer is NULL, because that pointer is only read inside `if (time_rec)`. With time_rec, a NULL Kerberos pointer is dereferenced. Otherwise time_rec is the ticket's lifetime, and the status is CONTEXT_EXPIRED iff that lifetime is 0, else COMPLETE. |
| Krb5Context.ContextTimeAfterAccept | lib/krb5/context.c:300 | On the context a completed accept publishes, the time query reports the lifetime of the ticket of the AP-REQ it processed. It is CONTEXT_EXPIRED iff that ticket has no time left. |
| Krb5Context.ContextTimeAfterInit | lib/krb5/context.c:95-119 | On the context a first init step without error publishes, the time query reports the lifetime of the ticket the AP-REQ was built from. It is CONTEXT_EXPIRED iff that lifetime is 0. |
| Krb5Context.InitCorrected | lib/krb5/context.c:62-133 | The corrected init: a context with a NULL Kerberos pointer counts as a first call, and the AP asks for MUTUAL-REQUIRED only when GSS_C_MUTUAL_FLAG is requested. It dereferences NULL only when there is no target name. |
| Mechs.IndexOf | lib/context.c:726 | The lookup finds the first entry with the OID, and None only when no entry has it. |
| Mechs.FindMech | lib/context.c:384-393 | A NULL OID selects the first entry, if there is one. Any other OID is looked up exactly. |
| Mechs.FindMechNoDefault | lib/context.c:726-735 | A found entry carries the requested OID. A NULL OID finds nothing. |
| Facade.Init | lib/context.c:361-393 | A NULL handle pointer is NO_CONTEXT \| CALL_INACCESSIBLE_READ and a NULL output buffer is FAILURE \| CALL_BAD_STRUCTURE. No mechanism is BAD_MECH. In each case the handle is untouched and the output and ret_flags are emptied. |
| Facade.InitDispatch | lib/context.c:384-387 | A first call goes to the requested mechanism, or to the first entry when none was requested. A later call goes to the context's own mechanism. |
| Facade.InitHandleLifetime | lib/context.c:398-429 | The mechanism's status and output are returned unchanged. A first call that errs leaves GSS_C_NO_CONTEXT. Otherwise the handle is what the mechanism left. |
| Facade.Accept | lib/context.c:699-735 | A NULL handle pointer is NO_CONTEXT \| CALL_INACCESSIBLE_READ. On a first call an unframeable token is DEFECTIVE_TOKEN and an unknown OID is BAD_MECH, with no default. |
| Facade.AcceptDispatch | lib/context.c:706-750 | The mechanism is the context's, or on a first call the token's. The arguments reach it unchanged and its result is returned, including a NULL dereference or a read past a buffer. |
| Facade.Delete | lib/context.c:807-841 | A NULL pointer is NO_CONTEXT \| CALL_INACCESSIBLE_READ. GSS_C_NO_CONTEXT is NO_CONTEXT \| CALL_BAD_STRUCTURE. An unknown mechanism is BAD_MECH with the output emptied. Any change of handle is to GSS_C_NO_CONTEXT. |
| Facade.DeleteResetsHandle | lib/context.c:835-840 | After the teardown, the handle is GSS_C_NO_CONTEXT whatever the teardown returned. |
| Facade.ContextTime | lib/context.c:912-928 | GSS_C_NO_CONTEXT is NO_CONTEXT \| CALL_BAD_STRUCTURE and an unknown mechanism is BAD_MECH. Otherwise the context's own mechanism answers. |
| Facade.UnimplementedCallsFail | lib/context.c:877-882 | process_context_token, inquire_context and wrap_size_limit return GSS_S_FAILURE (0x000D0000). Export and import return GSS_S_UNAVAILABLE (0x00100000). |
| Composition.FacadeInitAsWrittenDereferencesNull | lib/context.c:398-411 | As written, every first gss_init_sec_context that selects Kerberos ends in a NULL dereference. |
| Composition.FacadeInitCorrectedRunsFirstStep | lib/context.c:411-429 | With the corrected first-call test, a first init with a target returns exactly the mechanism's first-step status and token. The handle is GSS_C_NO_CONTEXT after an error and a Kerberos context otherwise. |
| Composition.AcceptorRepliesWhateverTheFlags | lib/krb5/context.c:131-133 | As written, and provided shishi carries the AP option from side to side (`Shishi.MutualOptionSurvives`), an acceptor that completes on the initiator's first token always sends an AP-REP (:303-327), never an empty token. The initiator has returned COMPLETE, and so takes no reply, exactly when GSS_C_MUTUAL_FLAG was not requested (:172-175). |
| Composition.MutualReplyMatchesFlags | lib/krb5/context.c:131-133 | With the corrected init, the acceptor sends an AP-REP and the initiator returns CONTINUE_NEEDED when GSS_C_MUTUAL_FLAG is requested. Otherwise the acceptor's output is empty and the initiator returns COMPLETE. |
| Composition.ApReqReachesAcceptor | lib/krb5/context.c:282-292 | The acceptor unframes the initiator's token to exactly the AP-REQ shishi built, so it never answers it with BAD_MIC. |
| Composition.ApRepReachesInitiator | lib/krb5/context.c:184-208 | The initiator unframes the acceptor's token to exactly the AP-REP. It completes, setting `repdone`, iff shishi accepts and verifies the reply. |
| Composition.FirstInitiatorMessageGoesThrough | lib/krb5/msg.c:289-297 | After the handshake, with the same key on both sides, the initiator's first wrapped message unwraps at the acceptor to itself. |
| Composition.AcceptorFirstMessageNeedsZeroReplySequence | lib/krb5/context.c:202-206 | The initiator expects the AP-REP's sequence number while the acceptor starts at 0. If that number is not 0, the acceptor's first message is BAD_MIC and uses up nothing. |
| Composition.FacadeAcceptRunsMechanism | lib/context.c:713-750 | A first accept framed under GSS_KRB5 returns exactly the mechanism's result. An unframeable token is DEFECTIVE_TOKEN and a foreign OID is BAD_MECH. |
| Composition.FacadeDeleteKerberos | lib/context.c:827-840 | Deleting a Kerberos context is COMPLETE, leaving GSS_C_NO_CONTEXT and an empty token. A context without Kerberos state is dereferenced. |
| Composition.FacadeContextTimeKerberos | lib/context.c:919-927 | Through the facade, a Kerberos context reports CONTEXT_EXPIRED iff time_rec is asked for and the ticket lifetime is 0, else COMPLETE. |

## Left out

- The shishi library: checksums, DES and DES3 encryption, randomness, ticket lookup and the ticket cache file, and the ASN.1 and DER work of the AP exchange. These are foreign code. They appear only as function parameters (`Shishi.Crypto`, `Shishi.Exchange`).
- Four shishi calls on the init path are merged into one `apReqBuild` step that either succeeds or fails: `shishi_ap_req_build`, `shishi_authenticator_set_cksum`, `shishi_apreq_add_authenticator` and `shishi_new_a2d`. They fail with the same status, and none of them touches the context fields the model keeps.
- The bodies of the token framing routines (lib/asn1.c), the mechanism table and its lookup (lib/meta.c) and the name routines (lib/name.c, lib/krb5/name.c) are not part of this model. The framing is written out from section 3.1 of RFC 2743 and the lookup as a first-match search. The name routines are parameters. That the parser accepts only minimal DER length forms is the model's assumption, taken from RFC 2743, and not a statement about the lib/asn1.c code.
- Nothing of the TOK_ID and C2I definitions is left out. TOK_WRAP and C2I are defined at lib/krb5/msg.c:25-31, and TOK_AP_REQ and TOK_AP_REP at lib/krb5/context.c:25-27. The model uses the same values: `Krb5Msg.WrapTokenId`, `Bytes.C2I`, `Krb5Context.ApReqTokenId` and `Krb5Context.ApRepTokenId`.
- The header that defines the GSS_S_ status macros and GSS_ERROR is not part of this model. Their bit layout is taken from section 3.9.1 of RFC 2744.
- Memory allocation and freeing, including allocation failure (`calloc` returning NULL at lib/context.c:400-406), the `printf` diagnostics and `minor_status`. They do not affect the major status the model tracks.
- Confidentiality (SEAL_ALG other than FF FF) and channel bindings. The code does not implement them. Unwrap nonetheless sets conf_state to 1 on every unsealed token. That inversion is recorded under Findings.
- Krb5Msg.Wrap and Krb5Msg.Unwrap take the Kerberos state itself, so a NULL `context_handle->krb5` cannot be expressed. The code dereferences it at once (lib/krb5/msg.c:41, :208). It is reachable only through the facade's first-init defect, which crashes earlier.
- `time_req`, `time_rec` of init and accept, `qop_state` and `delegated_cred_handle`. The code never writes them.
- The `sh` shishi handle stored in contexts and credentials. It is a foreign object.
- The credential's `mech` field and lib/cred.c, which holds only stubs.
- The target name written to `peerptr` by a failing name routine. Only a completed name is kept in the context.
- The NULL input token of the facade's accept (`input_token_buffer->value` is read unchecked at lib/context.c:713). The token is always a byte string here.
- Krb5Msg.Unwrap: its own contract states only the status set, the counter discipline and when output and conf_state are written. The pad and checksum verdicts are stated by `Krb5Msg.UnwrapIntegrityVerdicts` and `Krb5Msg.UnwrapCompleteMeansChecked`.
- Krb5Msg.UnwrapSigned: the same holds for the profile part. Its verdicts are stated by the same two lemmas.
- Oids.CopyOid: an OID is modelled as its octet string, so the FAILURE for an OID whose `elements` pointer is NULL (lib/misc.c:44) cannot be expressed. The same holds for `Oids.DuplicateOid`.
- Oids.AddOidSetMember: for the same reason the `member_oid->elements == NULL` FAILURE (lib/misc.c:148) cannot be expressed. A NULL `oid_set`, and `*oid_set` being GSS_C_NO_OID_SET, are not modelled either: the set is always present. The same holds for `Oids.TestOidSetMember`, which dereferences `set` unchecked (lib/misc.c:210).
- Krb5Msg.Wrap: requires the context to hold a key. With no key the source hands NULL to `shishi_key_type`, whose behaviour is not part of this model.
- Krb5Context.InitFirstEmitsApReq: assumes the name routines return COMPLETE or an error status (`Krb5Context.NamesReportErrors`). A bare supplementary status would end the first step early without being an error.
- Composition.AcceptorRepliesWhateverTheFlags and Composition.MutualReplyMatchesFlags: assume that the acceptor's shishi reports mutual authentication as required exactly when the initiator's shishi built the AP with MUTUAL-REQUIRED (`Shishi.MutualOptionSurvives`). The AP-REQ encoding that carries the option is shishi's.
- The credential's `krb5` pointer. `Gss.Cred` always holds the Kerberos credential, so the NULL `cred_handle->krb5` read at lib/krb5/context.c:74 and :265-273 cannot be expressed. lib/cred.c never builds a credential (`gss_acquire_cred` returns FAILURE at lib/cred.c:33).
- The NULL output_token on the acceptor's mutual branch. The framing routine gss_encapsulate_token_prefix (lib/krb5/context.c:322-323) is in lib/asn1.c, which is not part of this model. The model assumes it writes through its output argument, so `Krb5Context.AcceptFirst` returns NullDereference there.
- Composition.FirstInitiatorMessageGoesThrough: assumes the AP key the initiator's shishi chose equals the ticket key the acceptor's shishi extracted. That agreement is a property of Kerberos, not of this code.

## Findings

| source | as written | input that shows it | evidently intended | confidence | as-written member | corrected member |
|---|---|---|---|---|---|---|
| lib/context.c:398-411 | On a first call, the facade allocates a context with only `mech` set and hands it to the mechanism. The Kerberos mechanism tests for a first call only by `*context_handle == GSS_C_NO_CONTEXT` (lib/krb5/context.c:62), so it takes the continuation branch and reads `(*context_handle)->krb5->repdone` through a NULL pointer (lib/krb5/context.c:177). | Any `gss_init_sec_context` with `*context_handle == GSS_C_NO_CONTEXT`, a non-NULL output buffer and `mech_type` GSS_C_NO_OID or GSS_KRB5 | The mechanism runs its first step on the facade's context, sends the AP-REQ, and the facade keeps the context or frees it on error | high (not executed) | Composition.FacadeInitAsWrittenDereferencesNull | Composition.FacadeInitCorrectedRunsFirstStep |
| lib/krb5/msg.c:234-235 | Unwrap sets `*conf_state = seal_alg == 0xFFFF`, so it reports confidentiality exactly when SEAL_ALG is FF FF, which means no sealing. | Any token gss_krb5_wrap produces (SEAL_ALG FF FF), unwrapped with a non-NULL conf_state: conf_state is 1 though nothing was encrypted | conf_state is nonzero only when confidentiality was applied (section 5.31 of RFC 2744), i.e. `seal_alg != 0xFFFF` | high (not executed) | Krb5Msg.WrapUnwrapRoundTrip | Krb5Msg.WrapUnwrapRoundTripCorrected |
| lib/krb5/context.c:131-133 | The initiator always makes its AP with `SHISHI_APOPTIONS_MUTUAL_REQUIRED`, whatever req_flags say. The acceptor sends an AP-REP whenever the AP-REQ demands mutual authentication (:303-327). Without GSS_C_MUTUAL_FLAG the initiator returns COMPLETE after the first token (:172-175), so the acceptor's AP-REP is a token the initiator never takes. | A `gss_init_sec_context` with req_flags 0, whose AP-REQ the acceptor then accepts | The AP option follows GSS_C_MUTUAL_FLAG, and the acceptor's output is empty when no mutual authentication was requested | medium (not executed) | Composition.AcceptorRepliesWhateverTheFlags | Composition.MutualReplyMatchesFlags |
