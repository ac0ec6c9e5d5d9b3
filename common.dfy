/** Shared vocabulary: bytes, big-endian 16-bit fields, the error wrappers and
    the socket address types of Rust's `std::net`, as used by the service. */
module Common {

  /** A `u8` on the wire. */
  type Byte = x: int | 0 <= x < 0x100
  /** A `u16`: ports, STUN attribute types and lengths. */
  type U16 = x: int | 0 <= x < 0x1_0000
  /** A `u32`. */
  type U32 = x: int | 0 <= x < 0x1_0000_0000

  datatype Option<+T> = None | Some(value: T)

  datatype Result<+T, +E> = Ok(value: T) | Err(error: E)

  /** `u16::to_be_bytes`. */
  function BeBytes(x: U16): (r: seq<Byte>)
    ensures |r| == 2
  {
    [x / 0x100, x % 0x100]
  }

  /** `u16::from_be_bytes([hi, lo])`. */
  function FromBe(hi: Byte, lo: Byte): U16
  {
    hi * 0x100 + lo
  }

  /** Reading back the two big-endian bytes of a `u16` gives the value. */
  lemma FromBeBytes(x: U16)
    ensures FromBe(BeBytes(x)[0], BeBytes(x)[1]) == x
  {
  }

  /** `u32::to_be_bytes`. */
  function BeBytes32(x: U32): (r: seq<Byte>)
    ensures |r| == 4
  {
    [x / 0x100_0000, (x / 0x1_0000) % 0x100, (x / 0x100) % 0x100, x % 0x100]
  }

  function Pow2(k: nat): nat
  {
    if k == 0 then 1 else 2 * Pow2(k - 1)
  }

  /** Bitwise exclusive or of two unsigned integers, bit by bit from the lowest. */
  function Xor(a: nat, b: nat): nat
    decreases a + b
  {
    if a == 0 && b == 0 then 0
    else 2 * Xor(a / 2, b / 2) + (if a % 2 == b % 2 then 0 else 1)
  }

  lemma {:induction false} XorZero(a: nat)
    ensures Xor(a, 0) == a
    decreases a
  {
    if a != 0 {
      XorZero(a / 2);
    }
  }

  /** Masking twice with the same value restores the original. */
  lemma {:induction false} XorInvolution(a: nat, b: nat)
    ensures Xor(Xor(a, b), b) == a
    decreases a + b
  {
    if a != 0 || b != 0 {
      var c := Xor(a, b);
      XorInvolution(a / 2, b / 2);
      assert c / 2 == Xor(a / 2, b / 2) && c % 2 == (if a % 2 == b % 2 then 0 else 1);
      if c == 0 && b == 0 {
        XorZero(a / 2);
      }
    }
  }

  /** Exclusive or of two k-bit values is a k-bit value. */
  lemma {:induction false} XorBound(a: nat, b: nat, k: nat)
    requires a < Pow2(k) && b < Pow2(k)
    ensures Xor(a, b) < Pow2(k)
    decreases k
  {
    if k > 0 && (a != 0 || b != 0) {
      XorBound(a / 2, b / 2, k - 1);
    }
  }

  lemma Pow2Widths()
    ensures Pow2(8) == 0x100 && Pow2(16) == 0x1_0000
  {
  }

  /** `u8 ^ u8`. */
  function XorByte(a: Byte, b: Byte): Byte
  {
    Pow2Widths();
    XorBound(a, b, 8);
    Xor(a, b)
  }

  /** `u16 ^ u16`. */
  function XorU16(a: U16, b: U16): U16
  {
    Pow2Widths();
    XorBound(a, b, 16);
    Xor(a, b)
  }

  /** `n` zero bytes, the initial content of `[0u8; n]`. */
  function Zeros(n: nat): (r: seq<Byte>)
    ensures |r| == n
    ensures forall i :: 0 <= i < n ==> r[i] == 0
  {
    if n == 0 then [] else Zeros(n - 1) + [0]
  }

  type Octets4 = s: seq<Byte> | |s| == 4 witness [0, 0, 0, 0]
  type Octets16 = s: seq<Byte> | |s| == 16 witness [0, 0, 0, 0, 0, 0, 0, 0, 0, 0, 0, 0, 0, 0, 0, 0]

  /** `std::net::IpAddr`, by its octets. */
  datatype IpAddr = V4(v4: Octets4) | V6(v6: Octets16)

  /** `std::net::SocketAddr`; the IPv6 flow label and scope id are not modelled. */
  datatype SocketAddr = SocketAddr(ip: IpAddr, port: U16)

  /** `IpAddr::octets()` of either family. */
  function Octets(ip: IpAddr): (r: seq<Byte>)
    ensures |r| == if ip.V4? then 4 else 16
  {
    match ip
    case V4(o) => o
    case V6(o) => o
  }

  /** The IPv4-mapped IPv6 address `::ffff:a.b.c.d`. */
  function MappedV6(o: Octets4): IpAddr
  {
    V6(Zeros(10) + [0xFF, 0xFF] + o)
  }

  /** `Ipv6Addr::to_ipv4_mapped`: the embedded address of `::ffff:a.b.c.d`. */
  function ToIpv4Mapped(o: Octets16): Option<Octets4>
  {
    if o[..10] == Zeros(10) && o[10] == 0xFF && o[11] == 0xFF then Some(o[12..]) else None
  }

  /** `IpAddr::to_canonical`: an IPv4-mapped IPv6 address becomes IPv4,
      everything else is left alone. */
  function ToCanonical(ip: IpAddr): (r: IpAddr)
    ensures ip.V4? ==> r == ip
    ensures r.V6? ==> r == ip
  {
    match ip
    case V4(_) => ip
    case V6(o) =>
      match ToIpv4Mapped(o)
      case Some(v4) => V4(v4)
      case None => ip
  }

  /** Canonicalisation recovers the IPv4 address inside its mapped form,
      and it is idempotent. */
  lemma CanonicalOfMapped(o: Octets4, ip: IpAddr)
    ensures ToCanonical(MappedV6(o)) == V4(o)
    ensures ToCanonical(ToCanonical(ip)) == ToCanonical(ip)
  {
    var m := Zeros(10) + [0xFF, 0xFF] + o;
    assert m[..10] == Zeros(10);
    assert m[12..] == o;
  }

  /** Only an ip that is an IPv4 address or its mapped form canonicalises to it. */
  lemma CanonicalIsV4(ip: IpAddr, o: Octets4)
    requires ToCanonical(ip) == V4(o)
    ensures ip == V4(o) || ip == MappedV6(o)
  {
    if ip.V6? {
      var w := ip.v6;
      assert w[12..] == o;
      assert w == w[..10] + [w[10], w[11]] + w[12..];
    }
  }
}
