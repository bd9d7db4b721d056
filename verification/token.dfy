/** The mechanism-independent token framing of section 3.1 of RFC 2743:
      0x60 ‖ DER length ‖ 0x06 ‖ DER length ‖ mechanism OID ‖ inner token.
    Encapsulate and Decapsulate stand for gss_encapsulate_token and
    gss_decapsulate_token / _gss_decapsulate_token, whose bodies (lib/asn1.c)
    are not part of this model; the framing is written out here so that its
    round trip is proved rather than assumed. */
module Token {
  import opened Bytes
  import opened Oids

  /** [APPLICATION 0] IMPLICIT SEQUENCE. */
  const TokenTag: byte := 0x60

  /** OBJECT IDENTIFIER. */
  const OidTag: byte := 0x06

  /** The value of a string of octets read most significant first. */
  function BigEndian(s: seq<byte>): nat
    decreases |s|
  {
    if |s| == 0 then 0 else BigEndian(s[..|s| - 1]) * 0x100 + s[|s| - 1]
  }

  /** The shortest big-endian octet string for `n` (empty for zero). */
  function MinimalOctets(n: nat): seq<byte>
    decreases n
  {
    if n == 0 then [] else MinimalOctets(n / 0x100) + [n % 0x100]
  }

  /** MinimalOctets is read back by BigEndian and never starts with zero. */
  lemma {:induction false} BigEndianOfMinimal(n: nat)
    ensures BigEndian(MinimalOctets(n)) == n
    ensures n > 0 ==> |MinimalOctets(n)| > 0 && MinimalOctets(n)[0] != 0
    decreases n
  {
    if n > 0 {
      BigEndianOfMinimal(n / 0x100);
      var s := MinimalOctets(n);
      assert s[..|s| - 1] == MinimalOctets(n / 0x100);
    }
  }

  /** A string without a leading zero octet is the minimal encoding of its value. */
  lemma {:induction false} MinimalOfBigEndian(s: seq<byte>)
    requires |s| == 0 || s[0] != 0
    ensures MinimalOctets(BigEndian(s)) == s
    decreases |s|
  {
    if |s| > 0 {
      var p := s[..|s| - 1];
      MinimalOfBigEndian(p);
      assert BigEndian(s) > 0 by {
        if |p| > 0 {
          assert BigEndian(p) != 0;
        }
      }
      assert BigEndian(s) / 0x100 == BigEndian(p);
      assert BigEndian(s) % 0x100 == s[|s| - 1];
      assert s == p + [s[|s| - 1]];
    }
  }

  /** DER length octets (section 8.1.3 of X.690): one octet below 128,
      otherwise 0x80 + k followed by the k-octet minimal value; None when
      k would exceed 126. */
  function DerLength(n: nat): Option<seq<byte>>
  {
    if n < 0x80 then Some([n])
    else
      var o := MinimalOctets(n);
      if |o| <= 126 then Some([0x80 + |o|] + o) else None
  }

  /** Reads DER length octets at the front of `s`: the value and the number
      of octets used. Indefinite, non-minimal and over-long forms are refused. */
  function ParseDerLength(s: seq<byte>): Option<(nat, nat)>
  {
    if |s| == 0 then None
    else if s[0] < 0x80 then Some((s[0] as nat, 1))
    else
      var k := s[0] - 0x80;
      if k == 0 || k > 126 || |s| < 1 + k then None
      else
        var o := s[1..1 + k];
        if o[0] == 0 || BigEndian(o) < 0x80 then None
        else Some((BigEndian(o), 1 + k))
  }

  lemma ParseDerLengthOfDerLength(n: nat, rest: seq<byte>)
    requires DerLength(n).Some?
    ensures ParseDerLength(DerLength(n).value + rest) == Some((n, |DerLength(n).value|))
  {
    if n >= 0x80 {
      BigEndianOfMinimal(n);
      var o := MinimalOctets(n);
      var s := DerLength(n).value + rest;
      assert s[1..1 + |o|] == o;
    }
  }

  lemma DerLengthOfParseDerLength(s: seq<byte>)
    requires ParseDerLength(s).Some?
    ensures ParseDerLength(s).value.1 <= |s|
    ensures DerLength(ParseDerLength(s).value.0) == Some(s[..ParseDerLength(s).value.1])
  {
    if s[0] < 0x80 {
      assert s[..1] == [s[0]];
    } else {
      var k := s[0] - 0x80;
      var o := s[1..1 + k];
      MinimalOfBigEndian(o);
      assert s[..1 + k] == [s[0]] + o;
    }
  }

  /** gss_encapsulate_token: frames `inner` under the mechanism OID. */
  function Encapsulate(oid: Oid, inner: seq<byte>): Option<seq<byte>>
  {
    match DerLength(|oid|)
    case None => None
    case Some(oidLength) =>
      var body := [OidTag] + oidLength + oid + inner;
      match DerLength(|body|)
      case None => None
      case Some(bodyLength) => Some([TokenTag] + bodyLength + body)
  }

  /** Reads `0x06 ‖ DER length ‖ OID ‖ inner`: the OID and what follows it. */
  function ParseOidAndInner(body: seq<byte>): Option<(Oid, seq<byte>)>
  {
    if |body| == 0 || body[0] != OidTag then None
    else match ParseDerLength(body[1..])
    case None => None
    case Some((oidLength, d)) =>
      if 1 + d + oidLength > |body| then None
      else Some((body[1 + d..1 + d + oidLength], body[1 + d + oidLength..]))
  }

  /** gss_decapsulate_token: the embedded OID and the inner token, or None
      when the framing is malformed or the outer length is not the length
      of the rest of the buffer. */
  function Decapsulate(t: seq<byte>): Option<(Oid, seq<byte>)>
  {
    if |t| == 0 || t[0] != TokenTag then None
    else match ParseDerLength(t[1..])
    case None => None
    case Some((bodyLength, c)) =>
      if 1 + c + bodyLength != |t| then None
      else ParseOidAndInner(t[1 + c..])
  }

  lemma ParseOidAndInnerOf(oid: Oid, inner: seq<byte>)
    requires DerLength(|oid|).Some?
    ensures ParseOidAndInner([OidTag] + DerLength(|oid|).value + oid + inner) == Some((oid, inner))
  {
    var oidLength := DerLength(|oid|).value;
    var body := [OidTag] + oidLength + oid + inner;
    assert body[1..] == oidLength + (oid + inner);
    ParseDerLengthOfDerLength(|oid|, oid + inner);
    var d := |oidLength|;
    assert body[1 + d..1 + d + |oid|] == oid;
    assert body[1 + d + |oid|..] == inner;
  }

  lemma OidAndInnerOfParse(body: seq<byte>)
    requires ParseOidAndInner(body).Some?
    ensures DerLength(|ParseOidAndInner(body).value.0|).Some?
    ensures body == [OidTag] + DerLength(|ParseOidAndInner(body).value.0|).value
                    + ParseOidAndInner(body).value.0 + ParseOidAndInner(body).value.1
  {
    var (oidLength, d) := ParseDerLength(body[1..]).value;
    DerLengthOfParseDerLength(body[1..]);
    assert body == [OidTag] + body[1..][..d] + body[1 + d..1 + d + oidLength] + body[1 + d + oidLength..];
  }

  /** Round trip: a framed token unframes to the OID and inner token it was built from. */
  lemma DecapsulateEncapsulate(oid: Oid, inner: seq<byte>)
    requires Encapsulate(oid, inner).Some?
    ensures Decapsulate(Encapsulate(oid, inner).value) == Some((oid, inner))
  {
    var oidLength := DerLength(|oid|).value;
    var body := [OidTag] + oidLength + oid + inner;
    var bodyLength := DerLength(|body|).value;
    var t := [TokenTag] + bodyLength + body;
    assert t[1..] == bodyLength + body;
    ParseDerLengthOfDerLength(|body|, body);
    assert t[1 + |bodyLength|..] == body;
    ParseOidAndInnerOf(oid, inner);
  }

  /** Converse: every token that unframes is exactly the framing of what it
      unframes to, so the framing is canonical. */
  lemma EncapsulateDecapsulate(t: seq<byte>)
    requires Decapsulate(t).Some?
    ensures Encapsulate(Decapsulate(t).value.0, Decapsulate(t).value.1) == Some(t)
  {
    var (bodyLength, c) := ParseDerLength(t[1..]).value;
    DerLengthOfParseDerLength(t[1..]);
    var body := t[1 + c..];
    OidAndInnerOfParse(body);
    assert t == [TokenTag] + t[1..][..c] + body;
  }
}
