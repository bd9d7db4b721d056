/** Octets, fixed-width unsigned integers and the byte-string helpers the
    GSS library and its Kerberos V5 mechanism work with. */
module Bytes {

  /** One octet of a gss_buffer_desc or of an OID's elements. */
  type byte = x: int | 0 <= x < 0x100

  /** OM_uint32 / uint32_t. */
  type uint32 = x: int | 0 <= x < 0x1_0000_0000

  /** A value that may be absent; None stands for a NULL pointer or for a
      result that was not written. */
  datatype Option<+T> = None | Some(value: T)

  /** `x++` on a 32-bit unsigned counter: it wraps to zero after 0xFFFFFFFF. */
  function Inc32(x: uint32): uint32
  {
    if x == 0xFFFF_FFFF then 0 else x + 1
  }

  /** Incrementing a 32-bit counter always changes it, wrap-around included. */
  lemma Inc32Changes(x: uint32)
    ensures Inc32(x) != x
    ensures Inc32(x) == (x + 1) % 0x1_0000_0000
  {
  }

  /** `n` copies of the octet `b` (memset). */
  function Repeat(b: byte, n: nat): (r: seq<byte>)
    ensures |r| == n
    ensures forall i :: 0 <= i < n ==> r[i] == b
  {
    seq(n, _ => b)
  }

  /** The four octets of `n`, least significant first, as the wrap code
      stores a sequence number (`n & 0xFF`, `n >> 8 & 0xFF`, ...). */
  function LittleEndian32(n: uint32): (r: seq<byte>)
    ensures |r| == 4
  {
    [n % 0x100, (n / 0x100) % 0x100, (n / 0x1_0000) % 0x100, (n / 0x100_0000) % 0x100]
  }

  /** The C2I macro: the first four octets read as a little-endian
      unsigned 32-bit number. */
  function C2I(b: seq<byte>): uint32
    requires |b| >= 4
  {
    b[0] as int + b[1] as int * 0x100 + b[2] as int * 0x1_0000 + b[3] as int * 0x100_0000
  }

  /** C2I reads back what LittleEndian32 wrote ... */
  lemma C2IOfLittleEndian(n: uint32)
    ensures C2I(LittleEndian32(n)) == n
  {
    var q1 := n / 0x100;
    var q2 := q1 / 0x100;
    var q3 := q2 / 0x100;
    assert n / 0x1_0000 == q2;
    assert n / 0x100_0000 == q3;
    assert q3 < 0x100;
  }

  /** ... and LittleEndian32 rewrites exactly the four octets C2I read. */
  lemma LittleEndianOfC2I(b: seq<byte>)
    requires |b| >= 4
    ensures LittleEndian32(C2I(b)) == b[..4]
  {
    var n := C2I(b);
    assert n / 0x100 == b[1] as int + b[2] as int * 0x100 + b[3] as int * 0x1_0000;
    assert n / 0x1_0000 == b[2] as int + b[3] as int * 0x100;
    assert n / 0x100_0000 == b[3];
  }

  /** `memcmp(a, b, n) == 0`: the first `n` octets of both strings agree. */
  predicate MemEqual(a: seq<byte>, b: seq<byte>, n: nat)
    requires n <= |a| && n <= |b|
  {
    n == 0 || (a[n - 1] == b[n - 1] && MemEqual(a, b, n - 1))
  }

  /** The octet-by-octet comparison is equality of the two prefixes. */
  lemma {:induction false} MemEqualIsPrefixEquality(a: seq<byte>, b: seq<byte>, n: nat)
    requires n <= |a| && n <= |b|
    ensures MemEqual(a, b, n) <==> a[..n] == b[..n]
  {
    if n > 0 {
      MemEqualIsPrefixEquality(a, b, n - 1);
      assert a[..n] == a[..n - 1] + [a[n - 1]];
      assert b[..n] == b[..n - 1] + [b[n - 1]];
      if a[..n] == b[..n] {
        assert a[..n][n - 1] == b[..n][n - 1];
        assert a[..n][..n - 1] == b[..n][..n - 1];
      }
    }
  }
}
