/** The parts of the shishi Kerberos library the mechanism calls. Every
    shishi routine is a function-valued field of a record passed in by the
    caller, so the model proves what the GSS code does with whatever shishi
    answers, and assumes nothing about the cryptography unless a lemma
    says so in its requires clause. */
module Shishi {
  import opened Bytes

  /** The encryption types the wrap code distinguishes (shishi_key_type). */
  datatype KeyType =
    | DesCbcMd5                   // SHISHI_DES_CBC_MD5
    | Des3CbcHmacSha1Kd           // SHISHI_DES3_CBC_HMAC_SHA1_KD
    | OtherKeyType(etype: int)

  datatype Key = Key(keyType: KeyType, material: seq<byte>)

  /** A Kerberos ticket, kept as its DER encoding. */
  datatype Ticket = Ticket(der: seq<byte>)

  /** The state of one shishi AP exchange (Shishi_ap): the request and
      reply it has built or been given, as shishi keeps them. */
  datatype Ap = Ap(state: seq<byte>)

  /** The two per-message profiles: the checksum type, key usage and
      cipher each passes to shishi. */
  datatype Profile =
    | DesMacMd5        // SHISHI_RSA_MD5_DES_GSS, key usage 0, SHISHI_DES_CBC_NONE
    | Des3HmacSha1Kd   // SHISHI_HMAC_SHA1_DES3_KD, SHISHI_KEYUSAGE_GSS_R2, SHISHI_DES3_CBC_NONE

  /** shishi_checksum, shishi_encrypt_iv_etype and shishi_decrypt_iv_etype.
      None is a return code other than SHISHI_OK; the key is the pointer
      the context holds, so it may be absent. */
  datatype Crypto = Crypto(
    checksum: (Option<Key>, Profile, seq<byte>) -> Option<seq<byte>>,
    encryptIv: (Option<Key>, Profile, seq<byte>, seq<byte>) -> Option<seq<byte>>,
    decryptIv: (Option<Key>, Profile, seq<byte>, seq<byte>) -> Option<seq<byte>>)

  /** Decryption under a key and IV undoes encryption under the same ones:
      the one property of the cipher the round-trip lemmas rely on. */
  ghost predicate DecryptInvertsEncrypt(c: Crypto) {
    forall k, p, iv, plain |
      c.encryptIv(k, p, iv, plain).Some? ::
        c.decryptIv(k, p, iv, c.encryptIv(k, p, iv, plain).value) == Some(plain)
  }

  /** The ticket, AP-REQ and AP-REP routines of the handshake. None is a
      failure return (or a NULL result where the caller tests for one). */
  datatype Exchange = Exchange(
    /** shishi_init succeeds (it is only called without a credential). */
    initOk: bool,
    /** shishi_tkts_get on the default ticket set, hinted by a server name. */
    ticketFor: seq<byte> -> Option<Ticket>,
    /** shishi_ap_tktoptionsdata; the flag says whether the AP options
        carry MUTUAL-REQUIRED. */
    apForTicket: (Option<Ticket>, bool) -> Option<Ap>,
    /** shishi_ap_key. */
    apKey: Ap -> Key,
    /** shishi_ap_req_build, shishi_authenticator_set_cksum with checksum
        type 0x8003 and the given 24 octets, shishi_apreq_add_authenticator
        and shishi_new_a2d, in that order; all four fail alike. */
    apReqBuild: (Ap, seq<byte>) -> Option<(Ap, seq<byte>)>,
    /** shishi_ap_rep_der_set. */
    apRepDerSet: (Option<Ap>, seq<byte>) -> Option<Ap>,
    /** shishi_ap_rep_verify. */
    apRepVerify: Ap -> bool,
    /** shishi_encapreppart_seqnumber_get on the verified reply. */
    apRepSeqNumber: Ap -> Option<uint32>,
    /** shishi_ap on the credential's shishi handle. */
    apNew: Option<Ap>,
    /** shishi_ap_req_der_set. */
    apReqDerSet: (Ap, seq<byte>) -> Option<Ap>,
    /** shishi_ap_req_process with the credential's key. */
    apReqProcess: (Ap, Option<Key>) -> Option<Ap>,
    /** shishi_ap_tkt and shishi_tkt_key. */
    apTicket: Ap -> Ticket,
    ticketKey: Ticket -> Key,
    /** shishi_apreq_mutual_required_p. */
    mutualRequired: Ap -> bool,
    /** shishi_ap_rep_asn1 then shishi_new_a2d: the DER of the AP-REP. */
    apRepDer: Ap -> Option<seq<byte>>,
    /** shishi_encticketpart_cname_get. */
    clientName: Ticket -> Option<seq<byte>>,
    /** gss_krb5_tktlifetime: seconds left on a ticket. */
    ticketLifetime: Option<Ticket> -> uint32)

  /** The AP options survive the trip: an AP-REQ that shishi built from an
      AP made with MUTUAL-REQUIRED set or clear, once the acceptor's shishi
      has read and processed it under `key`, reports mutual authentication
      as required exactly when the option was set. */
  ghost predicate MutualOptionKept(ex: Exchange, tkt: Option<Ticket>, mutual: bool, cksum: seq<byte>, key: Option<Key>) {
    match ex.apForTicket(tkt, mutual)
    case None => true
    case Some(ap) =>
      match ex.apReqBuild(ap, cksum)
      case None => true
      case Some((_, der)) =>
        match ex.apNew
        case None => true
        case Some(created) =>
          match ex.apReqDerSet(created, der)
          case None => true
          case Some(received) =>
            match ex.apReqProcess(received, key)
            case None => true
            case Some(processed) => ex.mutualRequired(processed) == mutual
  }

  /** MutualOptionKept for every ticket, option, checksum and key. */
  ghost predicate MutualOptionSurvives(ex: Exchange) {
    forall tkt, mutual, cksum, key :: MutualOptionKept(ex, tkt, mutual, cksum, key)
  }
}
