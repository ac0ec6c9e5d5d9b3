/** The STUN side of `src/stun.rs`: the fixed Binding Request the worker sends
    and `parse_addr`, which pulls the XOR-MAPPED-ADDRESS out of a response
    (RFC 5389 sections 6 and 15.2). The model keeps the source's scanner as it
    is: it never applies the 4-byte attribute padding of RFC 5389 section 15,
    ignores the family byte and always decodes IPv4. */
module Stun {
  import opened Common

  const MagicCookie: U32 := 0x2112A442
  const AttrXorMappedAddress: U16 := 0x0020
  /** Message type of a Binding Request (method Binding, class request). */
  const BindingRequestType: U16 := 0x0001
  const HeaderLength: nat := 20
  /** Length of the transaction ID in the header. */
  const TransactionIdLength: nat := 12
  /** Size of the zero-filled buffer the response is read into. */
  const ResponseCapacity: nat := 1024

  datatype StunError =
    | MessageTooShort         // the message is shorter than a header
    | MappedAddressNotFound   // no XOR-MAPPED-ADDRESS before the end of the buffer
    | AttributeOutOfBounds    // an index past the end: a panic in the source

  function Repeat(b: Byte, n: nat): (r: seq<Byte>)
    ensures |r| == n
    ensures forall i :: 0 <= i < n ==> r[i] == b
  {
    if n == 0 then [] else Repeat(b, n - 1) + [b]
  }

  /** The fixed transaction ID of every request: twelve 0xAA bytes. */
  function TransactionId(): seq<Byte>
  {
    Repeat(0xAA, TransactionIdLength)
  }

  /** The fields of a 20-byte STUN header, as RFC 5389 section 6 lays them out. */
  datatype Header = Header(messageType: U16, messageLength: U16, cookie: U32, transactionId: seq<Byte>)

  /** `u32::from_be_bytes`. */
  function FromBe32(b: seq<Byte>): U32
    requires |b| == 4
  {
    (b[0] as int) * 0x100_0000 + (b[1] as int) * 0x1_0000 + (b[2] as int) * 0x100 + (b[3] as int)
  }

  /** Reads the header fields of a message; `None` when it is shorter than a header. */
  function DecodeHeader(msg: seq<Byte>): Option<Header>
  {
    if |msg| < HeaderLength then None
    else Some(Header(FromBe(msg[0], msg[1]), FromBe(msg[2], msg[3]), FromBe32(msg[4..8]), msg[8..20]))
  }

  /** `slice.copy_from_slice(src)` on `a[start..start + |src|]`. */
  method CopyFromSlice(a: array<Byte>, start: nat, src: seq<Byte>)
    requires start + |src| <= a.Length
    modifies a
    ensures a[..] == old(a[..start]) + src + old(a[start + |src|..])
  {
    for i := 0 to |src|
      invariant a[..] == old(a[..start]) + src[..i] + old(a[start + i..])
    {
      a[start + i] := src[i];
      assert src[..i + 1] == src[..i] + [src[i]];
    }
    assert src[..|src|] == src;
  }

  /** The request `stun_loop` writes each iteration: a zeroed 20-byte array
      with the type, the magic cookie and the transaction ID copied in. */
  method BindingRequest() returns (request: seq<Byte>)
    ensures |request| == HeaderLength
    ensures request[0..2] == [0x00, 0x01]
    ensures request[2..4] == [0x00, 0x00]
    ensures request[4..8] == [0x21, 0x12, 0xA4, 0x42]
    ensures forall i :: 8 <= i < 20 ==> request[i] == 0xAA
    ensures DecodeHeader(request) == Some(Header(BindingRequestType, 0, MagicCookie, TransactionId()))
    ensures request == [0x00, 0x01, 0x00, 0x00] + CookieBytes() + TransactionId()
  {
    var a := new Byte[20](_ => 0);
    assert a[..] == Zeros(20);
    CopyFromSlice(a, 0, BeBytes(BindingRequestType));
    assert a[..] == [0x00, 0x01] + Zeros(18);
    CopyFromSlice(a, 4, BeBytes32(MagicCookie));
    assert a[..] == [0x00, 0x01, 0x00, 0x00] + CookieBytes() + Zeros(12);
    CopyFromSlice(a, 8, Repeat(0xAA, 12));
    request := a[..];
    assert request == [0x00, 0x01, 0x00, 0x00] + CookieBytes() + TransactionId();
    assert request[8..20] == TransactionId();
  }

  /** The port mask: the high half of the magic cookie. */
  function PortMask(): (m: U16)
    ensures m == 0x2112
  {
    MagicCookie / 0x1_0000
  }

  /** `MagicCookie.to_be_bytes()`, the address mask. */
  function CookieBytes(): (c: seq<Byte>)
    ensures c == [0x21, 0x12, 0xA4, 0x42]
  {
    BeBytes32(MagicCookie)
  }

  function XorBytes(a: seq<Byte>, b: seq<Byte>): (r: seq<Byte>)
    requires |a| == |b|
    ensures |r| == |a|
    ensures forall i :: 0 <= i < |a| ==> r[i] == XorByte(a[i], b[i])
  {
    if a == [] then [] else [XorByte(a[0], b[0])] + XorBytes(a[1..], b[1..])
  }

  /** Decodes the value of an XOR-MAPPED-ADDRESS attribute as `parse_addr`
      does: value bytes 2-3 are the masked port, bytes 4-7 the masked IPv4
      address; bytes 0-1 (reserved and family) are not looked at. */
  function DecodeXorMapped(v: seq<Byte>): (a: SocketAddr)
    requires |v| >= 8
    ensures a.ip.V4?
  {
    SocketAddr(V4(XorBytes(v[4..8], CookieBytes())), XorU16(FromBe(v[2], v[3]), PortMask()))
  }

  /** The value a STUN server puts in XOR-MAPPED-ADDRESS for an IPv4 address. */
  function EncodeXorMapped(a: SocketAddr): (v: seq<Byte>)
    requires a.ip.V4?
    ensures |v| == 8
  {
    [0x00, 0x01] + BeBytes(XorU16(a.port, PortMask())) + XorBytes(a.ip.v4, CookieBytes())
  }

  /** Masking is an involution on ports. */
  lemma PortMaskInvolution(p: U16)
    ensures XorU16(XorU16(p, PortMask()), PortMask()) == p
  {
    XorInvolution(p, PortMask());
  }

  /** Masking is an involution on address bytes. */
  lemma XorBytesInvolution(a: seq<Byte>, b: seq<Byte>)
    requires |a| == |b|
    ensures XorBytes(XorBytes(a, b), b) == a
  {
    forall i | 0 <= i < |a| ensures XorBytes(XorBytes(a, b), b)[i] == a[i] {
      XorInvolution(a[i], b[i]);
    }
  }

  /** Decoding the server's encoding of an IPv4 address gives it back. */
  lemma XorMappedRoundTrip(a: SocketAddr)
    requires a.ip.V4?
    ensures DecodeXorMapped(EncodeXorMapped(a)) == a
  {
    var v := EncodeXorMapped(a);
    var masked := XorU16(a.port, PortMask());
    FromBeBytes(masked);
    PortMaskInvolution(a.port);
    assert FromBe(v[2], v[3]) == masked;
    assert v[4..8] == XorBytes(a.ip.v4, CookieBytes());
    XorBytesInvolution(a.ip.v4, CookieBytes());
  }

  /** The attribute scan of `parse_addr` from cursor `pos`: read a type and a
      length; at the first XOR-MAPPED-ADDRESS the offset of its value is the
      result, any other attribute is skipped by exactly its declared length
      (no padding). A value that would run past the buffer is an error. */
  function Locate(buf: seq<Byte>, pos: nat): (r: Result<nat, StunError>)
    ensures r.Ok? ==> pos + 4 <= r.value && r.value + 8 <= |buf|
    ensures r.Err? ==> r.error == MappedAddressNotFound || r.error == AttributeOutOfBounds
    decreases |buf| - pos
  {
    if pos + 4 > |buf| then Err(MappedAddressNotFound)
    else
      var attrType := FromBe(buf[pos], buf[pos + 1]);
      var attrLen := FromBe(buf[pos + 2], buf[pos + 3]);
      var value := pos + 4;
      if attrType == AttrXorMappedAddress then
        if value + 8 <= |buf| then Ok(value) else Err(AttributeOutOfBounds)
      else Locate(buf, value + attrLen)
  }

  /** `parse_addr` as a function of the buffer: skip the header, locate the
      attribute, decode its value. */
  function ParseAddrSpec(buf: seq<Byte>): (r: Result<SocketAddr, StunError>)
    ensures r == Err(MessageTooShort) <==> |buf| < HeaderLength
    ensures r.Ok? ==> r.value.ip.V4?
  {
    if |buf| < HeaderLength then Err(MessageTooShort)
    else match Locate(buf, HeaderLength)
      case Ok(v) => Ok(DecodeXorMapped(buf[v..v + 8]))
      case Err(e) => Err(e)
  }

  /** `parse_addr`: skip the header, walk the attributes with a cursor. */
  method ParseAddr(buf: seq<Byte>) returns (r: Result<SocketAddr, StunError>)
    ensures r == ParseAddrSpec(buf)
  {
    if |buf| < HeaderLength {
      return Err(MessageTooShort);
    }
    var pos := HeaderLength;
    while pos + 4 <= |buf|
      invariant HeaderLength <= pos
      invariant Locate(buf, pos) == Locate(buf, HeaderLength)
      decreases |buf| - pos
    {
      var attrType := FromBe(buf[pos], buf[pos + 1]);
      var attrLen := FromBe(buf[pos + 2], buf[pos + 3]);
      pos := pos + 4;
      if attrType == AttrXorMappedAddress {
        if pos + 8 > |buf| {
          return Err(AttributeOutOfBounds);
        }
        return Ok(DecodeXorMapped(buf[pos..pos + 8]));
      }
      pos := pos + attrLen;
    }
    return Err(MappedAddressNotFound);
  }

  /** The zero-filled 1024-byte buffer after a read that delivered `data`. */
  function ResponseBuffer(data: seq<Byte>): (buf: seq<Byte>)
    ensures |buf| == ResponseCapacity
    ensures |data| >= ResponseCapacity ==> buf == data[..ResponseCapacity]
    ensures |data| < ResponseCapacity ==> buf[..|data|] == data
    ensures forall i :: |data| <= i < ResponseCapacity ==> buf[i] == 0
  {
    if |data| >= ResponseCapacity then data[..ResponseCapacity]
    else data + Zeros(ResponseCapacity - |data|)
  }

  /** Only the attribute area decides the result: the header, and so the
      cookie and transaction ID of the response, are never checked. */
  lemma HeaderIgnored(h1: seq<Byte>, h2: seq<Byte>, rest: seq<Byte>)
    requires |h1| == HeaderLength && |h2| == HeaderLength
    ensures ParseAddrSpec(h1 + rest) == ParseAddrSpec(h2 + rest)
  {
    var b1, b2 := h1 + rest, h2 + rest;
    assert b1[HeaderLength..] == rest == b2[HeaderLength..];
    LocateIgnoresPrefix(b1, b2, HeaderLength);
    var l := Locate(b1, HeaderLength);
    if l.Ok? {
      SliceBeyond(b1, b2, HeaderLength, l.value, l.value + 8);
    }
  }

  /** Two buffers that agree from `k` on agree on every slice beyond `k`. */
  lemma SliceBeyond(b1: seq<Byte>, b2: seq<Byte>, k: nat, i: nat, j: nat)
    requires |b1| == |b2| && k <= i <= j <= |b1|
    requires b1[k..] == b2[k..]
    ensures b1[i..j] == b2[i..j]
  {
    forall t | 0 <= t < j - i ensures b1[i..j][t] == b2[i..j][t] {
      assert b1[i..j][t] == b1[k..][i - k + t] && b2[i..j][t] == b2[k..][i - k + t];
    }
  }

  lemma {:induction false} LocateIgnoresPrefix(b1: seq<Byte>, b2: seq<Byte>, pos: nat)
    requires |b1| == |b2| && pos <= |b1|
    requires b1[pos..] == b2[pos..]
    ensures Locate(b1, pos) == Locate(b2, pos)
    decreases |b1| - pos
  {
    if pos + 4 <= |b1| {
      assert forall i :: pos <= i < |b1| ==> b1[i] == b1[pos..][i - pos] == b2[i];
      var next := pos + 4 + FromBe(b1[pos + 2], b1[pos + 3]);
      if next <= |b1| {
        assert b1[next..] == b1[pos..][next - pos..];
        assert b2[next..] == b2[pos..][next - pos..];
        LocateIgnoresPrefix(b1, b2, next);
      }
    }
  }

  /** Every byte of `buf` from offset `k` on is zero. */
  predicate ZeroFrom(buf: seq<Byte>, k: nat)
  {
    forall i :: k <= i < |buf| ==> buf[i] == 0
  }

  /** A zero tail reads as type-0, length-0 attributes up to the end: nothing is found. */
  lemma {:induction false} ZeroTailNotFound(buf: seq<Byte>, pos: nat)
    requires ZeroFrom(buf, pos)
    ensures Locate(buf, pos) == Err(MappedAddressNotFound)
    decreases |buf| - pos
  {
    if pos + 4 <= |buf| {
      assert buf[pos] == 0 && buf[pos + 1] == 0 && buf[pos + 2] == 0 && buf[pos + 3] == 0;
      ZeroTailNotFound(buf, pos + 4);
    }
  }

  /** A type-length-value attribute as the server writes it. */
  datatype Attribute = Attribute(attrType: U16, value: seq<Byte>)

  predicate Encodable(attrs: seq<Attribute>)
  {
    forall i :: 0 <= i < |attrs| ==> |attrs[i].value| < 0x10000
  }

  /** One attribute with its length field and no padding, the layout the scanner expects. */
  function EncodeAttribute(a: Attribute): (r: seq<Byte>)
    requires |a.value| < 0x10000
    ensures |r| == 4 + |a.value|
  {
    BeBytes(a.attrType) + BeBytes(|a.value|) + a.value
  }

  function EncodeAttributes(attrs: seq<Attribute>): seq<Byte>
    requires Encodable(attrs)
  {
    if attrs == [] then [] else EncodeAttribute(attrs[0]) + EncodeAttributes(attrs[1..])
  }

  /** The first XOR-MAPPED-ADDRESS of a list of attributes. */
  function FirstMapped(attrs: seq<Attribute>): Option<Attribute>
  {
    if attrs == [] then None
    else if attrs[0].attrType == AttrXorMappedAddress then Some(attrs[0])
    else FirstMapped(attrs[1..])
  }

  /** `buf` holds `e` starting at offset `p`. */
  predicate EncodedAt(buf: seq<Byte>, p: nat, e: seq<Byte>)
  {
    p + |e| <= |buf| && buf[p..p + |e|] == e
  }

  /** Reading the type, the length and the value of an attribute written at the cursor. */
  lemma ReadAttributeHeader(buf: seq<Byte>, p: nat, a: Attribute)
    requires |a.value| < 0x10000
    requires EncodedAt(buf, p, EncodeAttribute(a))
    ensures p + 4 <= |buf|
    ensures FromBe(buf[p], buf[p + 1]) == a.attrType
    ensures FromBe(buf[p + 2], buf[p + 3]) == |a.value|
    ensures buf[p + 4..p + 4 + |a.value|] == a.value
  {
    var e := EncodeAttribute(a);
    FromBeBytes(a.attrType);
    FromBeBytes(|a.value|);
    assert buf[p] == e[0] && buf[p + 1] == e[1] && buf[p + 2] == e[2] && buf[p + 3] == e[3];
    assert buf[p + 4..p + 4 + |a.value|] == e[4..];
  }

  /** One step of the scan over an encoded attribute: an XOR-MAPPED-ADDRESS
      with a long enough value is found, anything else is stepped over. */
  lemma LocateStep(buf: seq<Byte>, p: nat, a: Attribute)
    requires |a.value| < 0x10000
    requires EncodedAt(buf, p, EncodeAttribute(a))
    ensures a.attrType != AttrXorMappedAddress ==> Locate(buf, p) == Locate(buf, p + 4 + |a.value|)
    ensures a.attrType == AttrXorMappedAddress && |a.value| >= 8 ==>
      Locate(buf, p) == Ok(p + 4) && buf[p + 4..p + 12] == a.value[..8]
  {
    ReadAttributeHeader(buf, p, a);
    if |a.value| >= 8 {
      assert buf[p + 4..p + 12] == buf[p + 4..p + 4 + |a.value|][..8];
    }
  }

  /** What sits at an offset as a concatenation sits there piece by piece. */
  lemma EncodedAtConcat(buf: seq<Byte>, p: nat, x: seq<Byte>, y: seq<Byte>)
    requires EncodedAt(buf, p, x + y)
    ensures EncodedAt(buf, p, x) && EncodedAt(buf, p + |x|, y)
  {
    var w := buf[p..p + |x| + |y|];
    assert buf[p..p + |x|] == w[..|x|];
    assert buf[p + |x|..p + |x| + |y|] == w[|x|..];
  }

  /** Encoded attributes split into the first one and the rest. */
  lemma EncodedAtSplit(buf: seq<Byte>, p: nat, attrs: seq<Attribute>)
    requires attrs != [] && Encodable(attrs)
    requires EncodedAt(buf, p, EncodeAttributes(attrs))
    ensures Encodable(attrs[1..])
    ensures EncodedAt(buf, p, EncodeAttribute(attrs[0]))
    ensures EncodedAt(buf, p + 4 + |attrs[0].value|, EncodeAttributes(attrs[1..]))
  {
    assert Encodable(attrs[1..]) by {
      forall i | 0 <= i < |attrs[1..]| ensures |attrs[1..][i].value| < 0x10000 {
        assert attrs[1..][i] == attrs[i + 1];
      }
    }
    assert EncodeAttributes(attrs) == EncodeAttribute(attrs[0]) + EncodeAttributes(attrs[1..]);
    EncodedAtConcat(buf, p, EncodeAttribute(attrs[0]), EncodeAttributes(attrs[1..]));
  }

  /** The scan over the first of several encoded attributes. */
  lemma LocateFirst(buf: seq<Byte>, p: nat, attrs: seq<Attribute>)
    requires attrs != [] && Encodable(attrs)
    requires EncodedAt(buf, p, EncodeAttributes(attrs))
    ensures Encodable(attrs[1..])
    ensures EncodedAt(buf, p + 4 + |attrs[0].value|, EncodeAttributes(attrs[1..]))
    ensures |EncodeAttributes(attrs)| == 4 + |attrs[0].value| + |EncodeAttributes(attrs[1..])|
    ensures attrs[0].attrType != AttrXorMappedAddress ==> Locate(buf, p) == Locate(buf, p + 4 + |attrs[0].value|)
    ensures attrs[0].attrType == AttrXorMappedAddress && |attrs[0].value| >= 8 ==>
      Locate(buf, p) == Ok(p + 4) && buf[p + 4..p + 12] == attrs[0].value[..8]
  {
    EncodedAtSplit(buf, p, attrs);
    LocateStep(buf, p, attrs[0]);
  }

  /** Scanning encoded attributes stops at the first XOR-MAPPED-ADDRESS,
      whatever follows the attributes, and its value is what gets decoded. */
  lemma {:induction false} LocateFindsFirstMapped(buf: seq<Byte>, p: nat, attrs: seq<Attribute>, a: Attribute)
    requires Encodable(attrs)
    requires EncodedAt(buf, p, EncodeAttributes(attrs))
    requires FirstMapped(attrs) == Some(a) && |a.value| >= 8
    ensures Locate(buf, p).Ok?
    ensures buf[Locate(buf, p).value..Locate(buf, p).value + 8] == a.value[..8]
    decreases |attrs|
  {
    LocateFirst(buf, p, attrs);
    if attrs[0].attrType != AttrXorMappedAddress {
      LocateFindsFirstMapped(buf, p + 4 + |attrs[0].value|, attrs[1..], a);
    }
  }

  /** Scanning encoded attributes with no XOR-MAPPED-ADDRESS, followed only by
      zeros, reports that the attribute is missing. */
  lemma LocateMissesAbsentMapped(buf: seq<Byte>, p: nat, attrs: seq<Attribute>)
    requires Encodable(attrs)
    requires EncodedAt(buf, p, EncodeAttributes(attrs))
    requires ZeroFrom(buf, p + |EncodeAttributes(attrs)|)
    requires FirstMapped(attrs) == None
    ensures Locate(buf, p) == Err(MappedAddressNotFound)
  {
    MissesUpTo(buf, p, attrs, p + |EncodeAttributes(attrs)|);
  }

  /** The induction behind `LocateMissesAbsentMapped`, with the offset `e`
      where the zeros start held fixed. */
  lemma {:induction false} MissesUpTo(buf: seq<Byte>, p: nat, attrs: seq<Attribute>, e: nat)
    requires Encodable(attrs)
    requires EncodedAt(buf, p, EncodeAttributes(attrs))
    requires p + |EncodeAttributes(attrs)| == e && ZeroFrom(buf, e)
    requires FirstMapped(attrs) == None
    ensures Locate(buf, p) == Err(MappedAddressNotFound)
    decreases |attrs|
  {
    if attrs == [] {
      ZeroTailNotFound(buf, p);
    } else {
      MissStep(buf, p, attrs);
      MissesUpTo(buf, p + 4 + |attrs[0].value|, attrs[1..], e);
    }
  }

  /** The scan steps over a first attribute that is not the one sought, and
      what remains meets the same assumptions. */
  lemma MissStep(buf: seq<Byte>, p: nat, attrs: seq<Attribute>)
    requires attrs != [] && Encodable(attrs)
    requires EncodedAt(buf, p, EncodeAttributes(attrs))
    requires FirstMapped(attrs) == None
    ensures var q := p + 4 + |attrs[0].value|;
      && Encodable(attrs[1..])
      && EncodedAt(buf, q, EncodeAttributes(attrs[1..]))
      && q + |EncodeAttributes(attrs[1..])| == p + |EncodeAttributes(attrs)|
      && FirstMapped(attrs[1..]) == None
      && Locate(buf, p) == Locate(buf, q)
  {
    LocateFirst(buf, p, attrs);
  }

  /** A response whose first XOR-MAPPED-ADDRESS carries the server's encoding
      of an IPv4 endpoint parses to that endpoint, whatever the header says and
      whatever follows. */
  lemma ParseEncodedResponse(header: seq<Byte>, attrs: seq<Attribute>, tail: seq<Byte>, addr: SocketAddr)
    requires |header| == HeaderLength && addr.ip.V4?
    requires Encodable(attrs)
    requires FirstMapped(attrs) == Some(Attribute(AttrXorMappedAddress, EncodeXorMapped(addr)))
    ensures ParseAddrSpec(header + EncodeAttributes(attrs) + tail) == Ok(addr)
  {
    var buf := header + EncodeAttributes(attrs) + tail;
    assert buf[HeaderLength..HeaderLength + |EncodeAttributes(attrs)|] == EncodeAttributes(attrs);
    LocateFindsFirstMapped(buf, HeaderLength, attrs, Attribute(AttrXorMappedAddress, EncodeXorMapped(addr)));
    assert EncodeXorMapped(addr)[..8] == EncodeXorMapped(addr);
    XorMappedRoundTrip(addr);
  }

  /** A response without XOR-MAPPED-ADDRESS, read into the zero-filled buffer,
      is an error; and so is anything shorter than a header. */
  lemma ParseMissingMapped(header: seq<Byte>, attrs: seq<Attribute>)
    requires |header| == HeaderLength
    requires Encodable(attrs)
    requires FirstMapped(attrs) == None
    requires HeaderLength + |EncodeAttributes(attrs)| <= ResponseCapacity
    ensures ParseAddrSpec(ResponseBuffer(header + EncodeAttributes(attrs))) == Err(MappedAddressNotFound)
  {
    var data := header + EncodeAttributes(attrs);
    var buf := ResponseBuffer(data);
    assert buf[..|data|] == data by {
      if |data| == ResponseCapacity {
        assert data[..ResponseCapacity] == data;
      }
    }
    assert buf[HeaderLength..HeaderLength + |EncodeAttributes(attrs)|] == EncodeAttributes(attrs) by {
      assert buf[HeaderLength..|data|] == data[HeaderLength..];
    }
    LocateMissesAbsentMapped(buf, HeaderLength, attrs);
  }

  /** What the buffer limit cuts off cannot be an error cause: a buffer shorter
      than a header is refused before any attribute is looked at. */
  lemma ShortMessageRejected(buf: seq<Byte>)
    requires |buf| < HeaderLength
    ensures ParseAddrSpec(buf) == Err(MessageTooShort)
  {
  }

  /** RFC 5389 section 15 pads each attribute value to a multiple of four.
      The scanner does not skip the padding, so a one-byte SOFTWARE attribute
      (type 0x8022) before the XOR-MAPPED-ADDRESS throws the cursor off and the
      address is reported missing. */
  lemma PaddingMisleadsScan(addr: SocketAddr)
    requires addr.ip.V4?
    ensures var padded := Zeros(20) + [0x80, 0x22, 0x00, 0x01, 0x41, 0x00, 0x00, 0x00]
                          + EncodeAttribute(Attribute(AttrXorMappedAddress, EncodeXorMapped(addr)));
            ParseAddrSpec(ResponseBuffer(padded)) == Err(MappedAddressNotFound)
  {
    var padded := Zeros(20) + [0x80, 0x22, 0x00, 0x01, 0x41, 0x00, 0x00, 0x00]
                   + EncodeAttribute(Attribute(AttrXorMappedAddress, EncodeXorMapped(addr)));
    var buf := ResponseBuffer(padded);
    assert |padded| == 40;
    assert buf[..40] == padded;
    // first attribute: type 0x8022, length 1, so the cursor lands on byte 25
    assert FromBe(buf[20], buf[21]) == 0x8022 && FromBe(buf[22], buf[23]) == 1;
    // bytes 25..28 are padding and the first type byte: type 0, length 0
    assert buf[25] == 0 && buf[26] == 0 && buf[27] == 0 && buf[28] == 0;
    assert FromBe(buf[25], buf[26]) == 0 && FromBe(buf[27], buf[28]) == 0;
    // at byte 29 it reads type 0x2000 and length 0x0800: it jumps past the end
    assert buf[29] == 0x20 && buf[30] == 0x00 && buf[31] == 0x08 && buf[32] == 0x00;
    assert FromBe(buf[29], buf[30]) == 0x2000 && FromBe(buf[31], buf[32]) == 0x0800;
    assert Locate(buf, 29 + 4 + 0x0800) == Err(MappedAddressNotFound);
    assert Locate(buf, 29) == Locate(buf, 29 + 4 + 0x0800);
    assert Locate(buf, 25) == Locate(buf, 29);
    assert Locate(buf, 20) == Locate(buf, 25);
  }
}
