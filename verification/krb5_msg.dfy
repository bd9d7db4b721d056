/** Per-message protection of the Kerberos V5 mechanism (lib/krb5/msg.c):
    the wrap token of section 1.2.2 of RFC 1964, without confidentiality,
    for a DES-MAC-MD5 key (8-octet checksum) and for a
    DES3-HMAC-SHA1-KD key (20-octet checksum). Both profiles share one
    layout, so they share one definition parameterised by the profile:

      header(8) ‖ encrypted sequence block(8) ‖ checksum(N) ‖ confounder(8)
      ‖ message ‖ pad

    where the header is 02 01 ‖ SGN_ALG ‖ FF FF ‖ FF FF, the checksum covers
    header ‖ confounder ‖ message ‖ pad, and the sequence block is the
    sender's counter (4 octets, least significant first) followed by four
    direction octets, encrypted with the first 8 checksum octets as IV. */
module Krb5Msg {
  import opened Bytes
  import opened Status
  import opened Oids
  import opened Token
  import opened Shishi
  import opened Gss

  /** TOK_ID of a wrap token. */
  const WrapTokenId: seq<byte> := [0x02, 0x01]

  /** The checksum length of a profile: 8 for DES-MAC-MD5, 20 for
      HMAC-SHA1-DES3-KD. */
  function ChecksumLength(p: Profile): nat {
    match p
    case DesMacMd5 => 8
    case Des3HmacSha1Kd => 20
  }

  /** SGN_ALG as it appears on the wire. */
  function SgnAlg(p: Profile): seq<byte> {
    match p
    case DesMacMd5 => [0x00, 0x00]
    case Des3HmacSha1Kd => [0x04, 0x00]
  }

  /** TOK_ID ‖ SGN_ALG ‖ SEAL_ALG "none" ‖ filler. */
  function Header(p: Profile): (r: seq<byte>)
    ensures |r| == 8
  {
    WrapTokenId + SgnAlg(p) + [0xFF, 0xFF] + [0xFF, 0xFF]
  }

  /** The profile wrap uses for a key, if any. */
  function ProfileOfKey(t: KeyType): Option<Profile> {
    match t
    case DesCbcMd5 => Some(DesMacMd5)
    case Des3CbcHmacSha1Kd => Some(Des3HmacSha1Kd)
    case OtherKeyType(_) => None
  }

  /** The profile unwrap selects from the SGN_ALG value it read. */
  function ProfileOfSgnAlg(sgnAlg: nat): Option<Profile> {
    if sgnAlg == 0 then Some(DesMacMd5)
    else if sgnAlg == 4 then Some(Des3HmacSha1Kd)
    else None
  }

  /** `8 - len % 8`: a whole pad block when the message is already aligned. */
  function PadLength(len: nat): (r: nat)
    ensures 1 <= r <= 8
    ensures (len + r) % 8 == 0
  {
    8 - len % 8
  }

  /** The pad: PadLength(len) octets, each holding that length. */
  function Pad(len: nat): (r: seq<byte>)
    ensures |r| == PadLength(len)
    ensures forall i :: 0 <= i < |r| ==> r[i] == PadLength(len)
  {
    Repeat(PadLength(len), PadLength(len))
  }

  /** The four direction octets a sender appends to its counter:
      FF when the acceptor sends, 00 when the initiator does. */
  function Direction(acceptor: bool): seq<byte> {
    Repeat(if acceptor then 0xFF else 0x00, 4)
  }

  /** The plaintext SND_SEQ block. */
  function SequenceBlock(seqnr: uint32, acceptor: bool): (r: seq<byte>)
    ensures |r| == 8
  {
    LittleEndian32(seqnr) + Direction(acceptor)
  }

  /** The octets the checksum covers. */
  function SignedBytes(header: seq<byte>, confounder: seq<byte>, msg: seq<byte>): seq<byte> {
    header + confounder + msg + Pad(|msg|)
  }

  /** The inner wrap token, before the RFC 2743 framing. */
  function WrapInner(p: Profile, eseq: seq<byte>, cksum: seq<byte>, confounder: seq<byte>, msg: seq<byte>): seq<byte> {
    Header(p) + eseq + cksum + confounder + msg + Pad(|msg|)
  }

  /** The status of a wrap, the context afterwards and the token (None:
      the output buffer was not written). */
  datatype WrapResult = WrapResult(status: MajorStatus, k5: Krb5Ctx, output: Option<seq<byte>>)

  /** gss_krb5_wrap. `confounder` is what shishi_randomize produced (None:
      it failed). The key type is read first, so the context must hold a
      key. */
  function Wrap(crypto: Crypto, k5: Krb5Ctx, confounder: Option<seq<byte>>, msg: seq<byte>): (r: WrapResult)
    requires k5.key.Some?
    requires confounder.Some? ==> |confounder.value| == 8
    ensures r.status == Complete || r.status == Fatal(Failure)
    ensures r.status == Complete ==> r.output.Some? && r.k5 == k5.(initseqnr := Inc32(k5.initseqnr))
    ensures r.status != Complete ==> r.output.None? && r.k5 == k5
    ensures ProfileOfKey(k5.key.value.keyType).None? || confounder.None? ==> r.status == Fatal(Failure)
  {
    var failed := WrapResult(Fatal(Failure), k5, None);
    match ProfileOfKey(k5.key.value.keyType)
    case None => failed
    case Some(p) =>
      if confounder.None? then failed
      else
        match crypto.checksum(k5.key, p, SignedBytes(Header(p), confounder.value, msg))
        case None => failed
        case Some(cksum) =>
          if |cksum| != ChecksumLength(p) then failed
          else
            match crypto.encryptIv(k5.key, p, cksum[..8], SequenceBlock(k5.initseqnr, k5.acceptor))
            case None => failed
            case Some(eseq) =>
              if |eseq| != 8 then failed
              else
                match Encapsulate(GssKrb5, WrapInner(p, eseq, cksum, confounder.value, msg))
                case None => failed
                case Some(token) => WrapResult(Complete, k5.(initseqnr := Inc32(k5.initseqnr)), Some(token))
  }

  /** The status of an unwrap, the context afterwards, the message (None:
      the output buffer was not written) and the conf_state written (None:
      not written). */
  datatype UnwrapResult = UnwrapResult(
    status: MajorStatus, k5: Krb5Ctx, output: Option<seq<byte>>, confState: Option<bool>)

  /** The 16-bit little-endian field at offset `i` (SGN_ALG, SEAL_ALG). */
  function Field16(d: seq<byte>, i: nat): nat
    requires i + 2 <= |d|
  {
    d[i] as int + 0x100 * d[i + 1] as int
  }

  /** The first two octets are `tag`; a buffer shorter than the tag does
      not match it. */
  predicate StartsWith(d: seq<byte>, tag: seq<byte>) {
    |tag| <= |d| && d[..|tag|] == tag
  }

  /** The pad length unwrap reads: the last octet. */
  function LastOctet(d: seq<byte>): byte
    requires |d| > 0
  {
    d[|d| - 1]
  }

  /** The pad test: the last octet, the pad length, is at most 8 and each
      of the last pad-length octets equals it. */
  predicate PadValid(d: seq<byte>)
    requires |d| > 0
  {
    var padlen := LastOctet(d);
    padlen <= 8 && padlen <= |d| && d[|d| - padlen..] == Repeat(padlen, padlen)
  }

  /** gss_krb5_unwrap. `wantConfState` says conf_state is not NULL. */
  function Unwrap(crypto: Crypto, k5: Krb5Ctx, token: seq<byte>, wantConfState: bool): (r: UnwrapResult)
    ensures r.k5 == k5 || r.k5 == k5.(acceptseqnr := Inc32(k5.acceptseqnr))
    ensures r.status == Complete ==> r.k5 == k5.(acceptseqnr := Inc32(k5.acceptseqnr))
    ensures r.output.Some? <==> r.status == Complete
    ensures r.status in {Complete, Fatal(BadMic), Fatal(Failure)}
    ensures r.confState.Some? ==> wantConfState
  {
    match Decapsulate(token)
    case None => UnwrapResult(Fatal(BadMic), k5, None, None)
    case Some((oid, d)) =>
      if !OidEqual(Some(oid), Some(GssKrb5)) || |d| < 8 || !StartsWith(d, WrapTokenId) then
        UnwrapResult(Fatal(BadMic), k5, None, None)
      else
        var conf := if wantConfState then Some(Field16(d, 4) == 0xFFFF) else None;
        if d[6..8] != [0xFF, 0xFF] then UnwrapResult(Fatal(BadMic), k5, None, conf)
        else
          match ProfileOfSgnAlg(Field16(d, 2))
          case None => UnwrapResult(Fatal(Failure), k5, None, conf)
          case Some(p) => UnwrapSigned(crypto, k5, p, d, conf)
  }

  /** The profile-specific part of unwrap, once the header has been read. */
  function UnwrapSigned(crypto: Crypto, k5: Krb5Ctx, p: Profile, d: seq<byte>, conf: Option<bool>): (r: UnwrapResult)
    requires |d| >= 8
    ensures r.k5 == k5 || r.k5 == k5.(acceptseqnr := Inc32(k5.acceptseqnr))
    ensures r.status == Complete ==> r.k5 == k5.(acceptseqnr := Inc32(k5.acceptseqnr))
    ensures r.output.Some? <==> r.status == Complete
    ensures r.status in {Complete, Fatal(BadMic), Fatal(Failure)}
    ensures r.confState == conf
  {
    var n := ChecksumLength(p);
    if |d| < 32 + n then UnwrapResult(Fatal(BadMic), k5, None, conf)
    else
      var cksum := d[16..16 + n];
      match crypto.decryptIv(k5.key, p, cksum[..8], d[8..16])
      case None => UnwrapResult(Fatal(Failure), k5, None, conf)
      case Some(block) =>
        if |block| != 8 then
          UnwrapResult(if p == DesMacMd5 then Fatal(BadMic) else Fatal(Failure), k5, None, conf)
        else if block[4..] != Direction(!k5.acceptor) || C2I(block) != k5.acceptseqnr then
          UnwrapResult(Fatal(BadMic), k5, None, conf)
        else
          var k5' := k5.(acceptseqnr := Inc32(k5.acceptseqnr));
          var padlen := LastOctet(d);
          if !PadValid(d) then
            UnwrapResult(Fatal(BadMic), k5', None, conf)
          else
            match crypto.checksum(k5.key, p, d[..8] + d[16 + n..])
            case None => UnwrapResult(Fatal(Failure), k5', None, conf)
            case Some(expected) =>
              if |expected| != n then UnwrapResult(Fatal(Failure), k5', None, conf)
              else if expected != cksum then UnwrapResult(Fatal(BadMic), k5', None, conf)
              else UnwrapResult(Complete, k5', Some(d[24 + n..|d| - padlen]), conf)
  }

  // ---------------------------------------------------------------------
  // Wrap token layout

  /** The token wrap emits is the framing, under GSS_KRB5, of header ‖
      encrypted sequence block ‖ checksum ‖ confounder ‖ message ‖ pad: the
      checksum is the one shishi computed over header ‖ confounder ‖
      message ‖ pad, the encrypted block is the counter and direction
      octets encrypted under the checksum's first 8 octets, and the inner
      token is 24 + N + |message| + pad octets long (32 + ... for DES,
      44 + ... for DES3). */
  lemma WrapLayout(crypto: Crypto, k5: Krb5Ctx, confounder: Option<seq<byte>>, msg: seq<byte>)
    requires k5.key.Some?
    requires confounder.Some? ==> |confounder.value| == 8
    requires Wrap(crypto, k5, confounder, msg).status == Complete
    ensures ProfileOfKey(k5.key.value.keyType).Some? && confounder.Some?
    ensures
      var p := ProfileOfKey(k5.key.value.keyType).value;
      var cksum := crypto.checksum(k5.key, p, SignedBytes(Header(p), confounder.value, msg));
      cksum.Some? && |cksum.value| == ChecksumLength(p) &&
      var eseq := crypto.encryptIv(k5.key, p, cksum.value[..8], SequenceBlock(k5.initseqnr, k5.acceptor));
      eseq.Some? && |eseq.value| == 8 &&
      var inner := WrapInner(p, eseq.value, cksum.value, confounder.value, msg);
      |inner| == 24 + ChecksumLength(p) + |msg| + PadLength(|msg|) &&
      inner[..8] == Header(p) && inner[8..16] == eseq.value &&
      inner[16..16 + ChecksumLength(p)] == cksum.value &&
      inner[16 + ChecksumLength(p)..24 + ChecksumLength(p)] == confounder.value &&
      inner[24 + ChecksumLength(p)..24 + ChecksumLength(p) + |msg|] == msg &&
      Decapsulate(Wrap(crypto, k5, confounder, msg).output.value) == Some((GssKrb5, inner))
  {
    var p := ProfileOfKey(k5.key.value.keyType).value;
    var cksum := crypto.checksum(k5.key, p, SignedBytes(Header(p), confounder.value, msg)).value;
    var eseq := crypto.encryptIv(k5.key, p, cksum[..8], SequenceBlock(k5.initseqnr, k5.acceptor)).value;
    var inner := WrapInner(p, eseq, cksum, confounder.value, msg);
    DecapsulateEncapsulate(GssKrb5, inner);
  }

  /** The header of every wrap token: 02 01, then SGN_ALG 00 00 for DES or
      04 00 for DES3, then SEAL_ALG FF FF and filler FF FF; read back, its
      SGN_ALG field selects the profile that wrote it. */
  lemma HeaderSelectsProfile(p: Profile)
    ensures Header(p)[..2] == WrapTokenId
    ensures Header(p)[4..8] == [0xFF, 0xFF, 0xFF, 0xFF]
    ensures p == DesMacMd5 ==> Header(p)[2..4] == [0x00, 0x00]
    ensures p == Des3HmacSha1Kd ==> Header(p)[2..4] == [0x04, 0x00]
    ensures ProfileOfSgnAlg(Field16(Header(p), 2)) == Some(p)
    ensures Field16(Header(p), 4) == 0xFFFF
  {
  }

  /** The plaintext sequence block is the counter, least significant octet
      first, then FF FF FF FF from an acceptor or 00 00 00 00 from an
      initiator; C2I reads the counter back. */
  lemma SequenceBlockContents(seqnr: uint32, acceptor: bool)
    ensures C2I(SequenceBlock(seqnr, acceptor)) == seqnr
    ensures SequenceBlock(seqnr, acceptor)[..4] == LittleEndian32(seqnr)
    ensures SequenceBlock(seqnr, acceptor)[4..] == (if acceptor then [0xFF, 0xFF, 0xFF, 0xFF] else [0, 0, 0, 0])
  {
    C2IOfLittleEndian(seqnr);
    assert SequenceBlock(seqnr, acceptor)[..4] == LittleEndian32(seqnr);
  }

  // ---------------------------------------------------------------------
  // Unwrap checks

  /** What the framing checks see in a token: its inner token when it
      decapsulates under GSS_KRB5, is at least 8 octets and starts 02 01. */
  function InnerWrapToken(token: seq<byte>): Option<seq<byte>> {
    match Decapsulate(token)
    case None => None
    case Some((oid, d)) =>
      if oid == GssKrb5 && |d| >= 8 && StartsWith(d, WrapTokenId) then Some(d) else None
  }

  /** Every check before the pad and the checksum passes: the token is a
      wrap token framed under GSS_KRB5 with filler FF FF, an SGN_ALG of 0
      or 4 and room for the checksum, and its sequence block decrypts to
      the peer's direction octets and the expected counter. */
  predicate SequenceChecked(crypto: Crypto, k5: Krb5Ctx, token: seq<byte>) {
    InnerWrapToken(token).Some? &&
    var d := InnerWrapToken(token).value;
    d[6..8] == [0xFF, 0xFF] && ProfileOfSgnAlg(Field16(d, 2)).Some? &&
    var p := ProfileOfSgnAlg(Field16(d, 2)).value;
    |d| >= 32 + ChecksumLength(p) &&
    var block := crypto.decryptIv(k5.key, p, d[16..24], d[8..16]);
    block.Some? && |block.value| == 8 &&
    block.value[4..] == Direction(!k5.acceptor) && C2I(block.value) == k5.acceptseqnr
  }

  /** Unwrap's framing checks, in the code's order: a token that does not
      decapsulate, carries another OID, is shorter than 8 octets or has a
      TOK_ID other than 02 01 is BAD_MIC before conf_state is written; then
      conf_state becomes SEAL_ALG == FF FF, a filler other than FF FF is
      BAD_MIC, an SGN_ALG other than 0 and 4 is FAILURE, and a token
      shorter than 40 (SGN_ALG 0) or 52 (SGN_ALG 4) octets is BAD_MIC. No
      failure here touches the context. */
  lemma UnwrapFraming(crypto: Crypto, k5: Krb5Ctx, token: seq<byte>, wantConfState: bool)
    ensures var r := Unwrap(crypto, k5, token, wantConfState);
      InnerWrapToken(token).None? ==> r == UnwrapResult(Fatal(BadMic), k5, None, None)
    ensures var r := Unwrap(crypto, k5, token, wantConfState);
      InnerWrapToken(token).Some? ==>
        var d := InnerWrapToken(token).value;
        var sgn := Field16(d, 2);
        (r.confState == if wantConfState then Some(Field16(d, 4) == 0xFFFF) else None) &&
        (d[6..8] != [0xFF, 0xFF] ==> r.status == Fatal(BadMic) && r.k5 == k5) &&
        (d[6..8] == [0xFF, 0xFF] && sgn != 0 && sgn != 4 ==> r.status == Fatal(Failure) && r.k5 == k5) &&
        (d[6..8] == [0xFF, 0xFF] && sgn == 0 && |d| < 40 ==> r.status == Fatal(BadMic) && r.k5 == k5) &&
        (d[6..8] == [0xFF, 0xFF] && sgn == 4 && |d| < 52 ==> r.status == Fatal(BadMic) && r.k5 == k5)
  {
  }

  /** The counter check is exact: unwrap advances acceptseqnr exactly when
      the decrypted block carries the peer's direction octets (00 00 00 00
      at an acceptor, FF FF FF FF at an initiator) and a counter equal to
      acceptseqnr, and it does so before the pad and the checksum are
      checked, so a token with a good sequence block and a bad checksum
      still uses up the counter value. */
  lemma UnwrapCounterAdvance(crypto: Crypto, k5: Krb5Ctx, token: seq<byte>, wantConfState: bool)
    ensures Unwrap(crypto, k5, token, wantConfState).k5 != k5 <==> SequenceChecked(crypto, k5, token)
  {
    Inc32Changes(k5.acceptseqnr);
    var r := Unwrap(crypto, k5, token, wantConfState);
    if InnerWrapToken(token).Some? {
      var d := InnerWrapToken(token).value;
      if d[6..8] == [0xFF, 0xFF] && ProfileOfSgnAlg(Field16(d, 2)).Some? {
        var p := ProfileOfSgnAlg(Field16(d, 2)).value;
        if |d| >= 32 + ChecksumLength(p) {
          assert d[16..16 + ChecksumLength(p)][..8] == d[16..24];
        }
      }
    }
  }

  /** Once the sequence block has been accepted (and the counter
      advanced), the token is authenticated or refused: a pad length over
      8 or a pad octet that differs from it is BAD_MIC, a checksum shishi
      cannot compute is FAILURE, a checksum that differs from the token's is
      BAD_MIC, and the call completes exactly when the pad is valid and the
      checksum shishi computes over header ‖ confounder ‖ message ‖ pad is
      the one the token carries. The counter is advanced in every case. */
  lemma UnwrapIntegrityVerdicts(crypto: Crypto, k5: Krb5Ctx, token: seq<byte>, wantConfState: bool)
    requires SequenceChecked(crypto, k5, token)
    ensures
      var r := Unwrap(crypto, k5, token, wantConfState);
      var d := InnerWrapToken(token).value;
      var p := ProfileOfSgnAlg(Field16(d, 2)).value;
      var n := ChecksumLength(p);
      var expected := crypto.checksum(k5.key, p, d[..8] + d[16 + n..]);
      r.k5 == k5.(acceptseqnr := Inc32(k5.acceptseqnr)) &&
      (!PadValid(d) ==> r.status == Fatal(BadMic)) &&
      (PadValid(d) && (expected.None? || |expected.value| != n) ==> r.status == Fatal(Failure)) &&
      (PadValid(d) && expected.Some? && |expected.value| == n && expected.value != d[16..16 + n] ==>
         r.status == Fatal(BadMic)) &&
      (r.status == Complete <==> PadValid(d) && expected == Some(d[16..16 + n]))
  {
    var d := InnerWrapToken(token).value;
    var p := ProfileOfSgnAlg(Field16(d, 2)).value;
    assert Unwrap(crypto, k5, token, wantConfState)
           == UnwrapSigned(crypto, k5, p, d, if wantConfState then Some(Field16(d, 4) == 0xFFFF) else None);
    assert d[16..16 + ChecksumLength(p)][..8] == d[16..24];
  }

  /** What a COMPLETE unwrap has established: every check before the pad
      passed, so the sequence block decrypts to exactly the block the
      peer's wrap builds for the expected counter; the pad is valid; the
      token carries the checksum shishi computes over header ‖ confounder
      ‖ message ‖ pad; and the message returned is what lies between the
      confounder and the pad. */
  lemma UnwrapCompleteMeansChecked(crypto: Crypto, k5: Krb5Ctx, token: seq<byte>, wantConfState: bool)
    requires Unwrap(crypto, k5, token, wantConfState).status == Complete
    ensures SequenceChecked(crypto, k5, token)
    ensures
      var d := InnerWrapToken(token).value;
      var p := ProfileOfSgnAlg(Field16(d, 2)).value;
      var n := ChecksumLength(p);
      crypto.decryptIv(k5.key, p, d[16..24], d[8..16]) == Some(SequenceBlock(k5.acceptseqnr, !k5.acceptor)) &&
      PadValid(d) &&
      crypto.checksum(k5.key, p, d[..8] + d[16 + n..]) == Some(d[16..16 + n]) &&
      Unwrap(crypto, k5, token, wantConfState).output == Some(d[24 + n..|d| - LastOctet(d)])
  {
    Inc32Changes(k5.acceptseqnr);
    UnwrapCounterAdvance(crypto, k5, token, wantConfState);
    UnwrapIntegrityVerdicts(crypto, k5, token, wantConfState);
    var d := InnerWrapToken(token).value;
    var p := ProfileOfSgnAlg(Field16(d, 2)).value;
    var block := crypto.decryptIv(k5.key, p, d[16..24], d[8..16]).value;
    LittleEndianOfC2I(block);
    assert block == block[..4] + block[4..];
    assert Unwrap(crypto, k5, token, wantConfState)
           == UnwrapSigned(crypto, k5, p, d, if wantConfState then Some(Field16(d, 4) == 0xFFFF) else None);
  }

  /** The pad check, written as a slice comparison, is the source's loop:
      each of the last `padlen` octets equals `padlen` (none for 0). */
  lemma PadCheckIsLoop(d: seq<byte>, padlen: byte)
    requires padlen <= |d|
    ensures d[|d| - padlen..] == Repeat(padlen, padlen) <==>
            forall j :: |d| - padlen <= j < |d| ==> d[j] == padlen
  {
    var tail := d[|d| - padlen..];
    if forall j :: |d| - padlen <= j < |d| ==> d[j] == padlen {
      forall k | 0 <= k < padlen
        ensures tail[k] == padlen
      {
        assert tail[k] == d[|d| - padlen + k];
      }
    }
    if tail == Repeat(padlen, padlen) {
      forall j | |d| - padlen <= j < |d|
        ensures d[j] == padlen
      {
        assert d[j] == tail[j - (|d| - padlen)];
      }
    }
  }

  // ---------------------------------------------------------------------
  // Round trip

  /** The slices unwrap takes from a wrap token are the parts wrap put there:
      the octets it re-checksums are exactly the octets wrap checksummed,
      the pad reads back, and the message sits at offset 24 + N. */
  lemma WrapInnerSlices(p: Profile, eseq: seq<byte>, cksum: seq<byte>, confounder: seq<byte>, msg: seq<byte>)
    requires |eseq| == 8 && |cksum| == ChecksumLength(p) && |confounder| == 8
    ensures
      var d := WrapInner(p, eseq, cksum, confounder, msg);
      var n := ChecksumLength(p);
      var padlen := PadLength(|msg|);
      |d| == 24 + n + |msg| + padlen &&
      d[..8] == Header(p) && d[8..16] == eseq && d[16..16 + n] == cksum &&
      d[..8] + d[16 + n..] == SignedBytes(Header(p), confounder, msg) &&
      LastOctet(d) == padlen &&
      d[|d| - padlen..] == Repeat(padlen, padlen) &&
      d[24 + n..|d| - padlen] == msg
  {
    var d := WrapInner(p, eseq, cksum, confounder, msg);
    var n := ChecksumLength(p);
    var pad := Pad(|msg|);
    assert d == Header(p) + eseq + cksum + (confounder + msg + pad);
    assert d[16 + n..] == confounder + msg + pad;
    assert d[|d| - |pad|..] == pad;
    assert d[24 + n..|d| - |pad|] == msg;
  }

  /** Unwrap's header checks pass on any inner token framed under GSS_KRB5
      whose first eight octets are a wrap header, and hand it on to the
      profile that header names. */
  lemma UnwrapOfHeader(crypto: Crypto, k5: Krb5Ctx, token: seq<byte>, p: Profile, d: seq<byte>)
    requires Decapsulate(token) == Some((GssKrb5, d))
    requires |d| >= 8 && d[..8] == Header(p)
    ensures Unwrap(crypto, k5, token, true) == UnwrapSigned(crypto, k5, p, d, Some(true))
  {
    HeaderSelectsProfile(p);
    assert d[..2] == Header(p)[..2];
    assert d[6..8] == Header(p)[6..8];
    assert Field16(d, 2) == Field16(Header(p), 2);
    assert Field16(d, 4) == Field16(Header(p), 4);
  }

  /** A wrap inner token starts with the wrap header. */
  lemma WrapInnerHeader(p: Profile, eseq: seq<byte>, cksum: seq<byte>, confounder: seq<byte>, msg: seq<byte>)
    ensures |WrapInner(p, eseq, cksum, confounder, msg)| >= 8
    ensures WrapInner(p, eseq, cksum, confounder, msg)[..8] == Header(p)
  {
    var d := WrapInner(p, eseq, cksum, confounder, msg);
    assert d == Header(p) + (eseq + cksum + confounder + msg + Pad(|msg|));
  }

  /** In particular they pass on the inner token wrap builds. */
  lemma UnwrapReachesSigned(crypto: Crypto, k5: Krb5Ctx, p: Profile,
                            eseq: seq<byte>, cksum: seq<byte>, confounder: seq<byte>, msg: seq<byte>)
    requires |eseq| == 8 && |cksum| == ChecksumLength(p) && |confounder| == 8
    requires Encapsulate(GssKrb5, WrapInner(p, eseq, cksum, confounder, msg)).Some?
    ensures
      var d := WrapInner(p, eseq, cksum, confounder, msg);
      Unwrap(crypto, k5, Encapsulate(GssKrb5, d).value, true) == UnwrapSigned(crypto, k5, p, d, Some(true))
  {
    var d := WrapInner(p, eseq, cksum, confounder, msg);
    var token := Encapsulate(GssKrb5, d).value;
    DecapsulateEncapsulate(GssKrb5, d);
    WrapInnerHeader(p, eseq, cksum, confounder, msg);
    UnwrapOfHeader(crypto, k5, token, p, d);
  }

  /** The profile-specific checks pass on a wrap inner token whose sequence
      block decrypts to the receiver's expected counter and direction, and
      whose checksum is the one shishi computes over the signed octets. */
  lemma UnwrapSignedAccepts(crypto: Crypto, k5: Krb5Ctx, p: Profile,
                            eseq: seq<byte>, cksum: seq<byte>, confounder: seq<byte>, msg: seq<byte>)
    requires |eseq| == 8 && |cksum| == ChecksumLength(p) && |confounder| == 8
    requires crypto.decryptIv(k5.key, p, cksum[..8], eseq) == Some(SequenceBlock(k5.acceptseqnr, !k5.acceptor))
    requires crypto.checksum(k5.key, p, SignedBytes(Header(p), confounder, msg)) == Some(cksum)
    ensures UnwrapSigned(crypto, k5, p, WrapInner(p, eseq, cksum, confounder, msg), Some(true))
            == UnwrapResult(Complete, k5.(acceptseqnr := Inc32(k5.acceptseqnr)), Some(msg), Some(true))
  {
    var d := WrapInner(p, eseq, cksum, confounder, msg);
    WrapInnerSlices(p, eseq, cksum, confounder, msg);
    SequenceBlockContents(k5.acceptseqnr, !k5.acceptor);
  }

  /** Messages go through: when one side wraps a message and the other side,
      holding the same key, in the opposite role and expecting the sender's
      counter value, unwraps the token, unwrap returns COMPLETE with the
      original message and advances its counter by one. It also sets
      conf_state to 1, although the token's SEAL_ALG is FF FF and nothing
      was sealed (see WrapUnwrapRoundTripCorrected). The only assumption about the cipher is
      that decryption inverts encryption under the same key and IV. */
  lemma WrapUnwrapRoundTrip(crypto: Crypto, sender: Krb5Ctx, receiver: Krb5Ctx,
                            confounder: Option<seq<byte>>, msg: seq<byte>)
    requires DecryptInvertsEncrypt(crypto)
    requires sender.key.Some? && receiver.key == sender.key
    requires receiver.acceptor != sender.acceptor
    requires receiver.acceptseqnr == sender.initseqnr
    requires confounder.Some? ==> |confounder.value| == 8
    requires Wrap(crypto, sender, confounder, msg).status == Complete
    ensures
      var r := Unwrap(crypto, receiver, Wrap(crypto, sender, confounder, msg).output.value, true);
      r.status == Complete && r.output == Some(msg) && r.confState == Some(true) &&
      r.k5 == receiver.(acceptseqnr := Inc32(receiver.acceptseqnr))
  {
    WrapLayout(crypto, sender, confounder, msg);
    var p := ProfileOfKey(sender.key.value.keyType).value;
    var conf := confounder.value;
    var cksum := crypto.checksum(sender.key, p, SignedBytes(Header(p), conf, msg)).value;
    var block := SequenceBlock(sender.initseqnr, sender.acceptor);
    var eseq := crypto.encryptIv(sender.key, p, cksum[..8], block).value;
    assert crypto.decryptIv(receiver.key, p, cksum[..8], eseq) == Some(block);
    assert block == SequenceBlock(receiver.acceptseqnr, !receiver.acceptor);
    UnwrapReachesSigned(crypto, receiver, p, eseq, cksum, conf, msg);
    UnwrapSignedAccepts(crypto, receiver, p, eseq, cksum, conf, msg);
  }

  /** Replay protection: once a token has been accepted, delivering the same
      token again is BAD_MIC, because the counter it carries is now behind. */
  lemma UnwrapRejectsReplay(crypto: Crypto, k5: Krb5Ctx, token: seq<byte>, wantConfState: bool)
    requires Unwrap(crypto, k5, token, wantConfState).status == Complete
    ensures
      var once := Unwrap(crypto, k5, token, wantConfState).k5;
      var twice := Unwrap(crypto, once, token, wantConfState);
      twice.status == Fatal(BadMic) && twice.k5 == once
  {
    var once := Unwrap(crypto, k5, token, wantConfState).k5;
    UnwrapCounterAdvance(crypto, k5, token, wantConfState);
    UnwrapCounterAdvance(crypto, once, token, wantConfState);
    Inc32Changes(k5.acceptseqnr);
  }

  // ---------------------------------------------------------------------
  // conf_state

  /** Unwrap with conf_state as section 5.31 of RFC 2744 defines it for
      gss_unwrap: nonzero exactly when confidentiality was applied, that is
      when SEAL_ALG is not FF FF ("none"). Everything else is Unwrap's. */
  function UnwrapCorrected(crypto: Crypto, k5: Krb5Ctx, token: seq<byte>, wantConfState: bool): (r: UnwrapResult)
    ensures r.(confState := None) == Unwrap(crypto, k5, token, wantConfState).(confState := None)
  {
    var r := Unwrap(crypto, k5, token, wantConfState);
    match InnerWrapToken(token)
    case None => r
    case Some(d) => if wantConfState then r.(confState := Some(Field16(d, 4) != 0xFFFF)) else r
  }

  /** The corrected conf_state reports sealing exactly when the token's
      SEAL_ALG names a sealing algorithm, where the code as written reports
      it exactly when SEAL_ALG says "none". */
  lemma UnwrapConfStateInverted(crypto: Crypto, k5: Krb5Ctx, token: seq<byte>)
    requires InnerWrapToken(token).Some?
    ensures var seal := Field16(InnerWrapToken(token).value, 4);
      Unwrap(crypto, k5, token, true).confState == Some(seal == 0xFFFF) &&
      UnwrapCorrected(crypto, k5, token, true).confState == Some(seal != 0xFFFF)
  {
    UnwrapFraming(crypto, k5, token, true);
  }

  /** With the corrected conf_state the round trip reports what wrap did:
      the message comes back, the counter advances, and conf_state is 0,
      because wrap never seals. */
  lemma WrapUnwrapRoundTripCorrected(crypto: Crypto, sender: Krb5Ctx, receiver: Krb5Ctx,
                                     confounder: Option<seq<byte>>, msg: seq<byte>)
    requires DecryptInvertsEncrypt(crypto)
    requires sender.key.Some? && receiver.key == sender.key
    requires receiver.acceptor != sender.acceptor
    requires receiver.acceptseqnr == sender.initseqnr
    requires confounder.Some? ==> |confounder.value| == 8
    requires Wrap(crypto, sender, confounder, msg).status == Complete
    ensures
      var r := UnwrapCorrected(crypto, receiver, Wrap(crypto, sender, confounder, msg).output.value, true);
      r.status == Complete && r.output == Some(msg) && r.confState == Some(false) &&
      r.k5 == receiver.(acceptseqnr := Inc32(receiver.acceptseqnr))
  {
    WrapUnwrapRoundTrip(crypto, sender, receiver, confounder, msg);
    WrapLayout(crypto, sender, confounder, msg);
    var token := Wrap(crypto, sender, confounder, msg).output.value;
    UnwrapConfStateInverted(crypto, receiver, token);
  }
}
