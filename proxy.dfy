/** The PROXY protocol headers that `forward` and `forward_v2` in
    `src/forward.rs` write to the backend before relaying: the version 1 text
    line (section 2.1 of HAProxy's "The PROXY protocol") and the version 2
    binary header (section 2.2 of the same document). The source address is
    the client's peer address, the destination is the proxy's own local end
    of the backend connection. Mixed families are an error; there is no
    `UNKNOWN` fallback. Each header comes with the reader that a backend would
    apply to it. */
module ProxyHeader {
  import opened Common
  import opened Text

  /** The two endpoints of a header are of different address families. */
  datatype ProxyError = MismatchedFamilies

  /** The v2 signature that opens every binary header. */
  const Signature: seq<Byte> := [0x0D, 0x0A, 0x0D, 0x0A, 0x00, 0x0D, 0x0A, 0x51, 0x55, 0x49, 0x54, 0x0A]
  /** Version 2, command PROXY. */
  const VersionCommand: Byte := 0x21
  /** AF_INET with STREAM, and AF_INET6 with STREAM. */
  const FamilyTcp4: Byte := 0x11
  const FamilyTcp6: Byte := 0x21

  predicate SameFamily(src: SocketAddr, dst: SocketAddr)
  {
    src.ip.V4? == dst.ip.V4?
  }

  /** The v1 line. `ipv6Text` stands for Rust's `Display` of `Ipv6Addr`
      (RFC 5952 text form), which is not modelled. */
  function V1Header(src: SocketAddr, dst: SocketAddr, ipv6Text: Octets16 -> string): (r: Result<string, ProxyError>)
    ensures r.Err? <==> !SameFamily(src, dst)
  {
    match (src.ip, dst.ip)
    case (V4(s), V4(d)) =>
      Ok(Join(["PROXY", "TCP4", Ipv4Text(s), Ipv4Text(d), Decimal(src.port), Decimal(dst.port)], ' ') + "\r\n")
    case (V6(s), V6(d)) =>
      Ok(Join(["PROXY", "TCP6", ipv6Text(s), ipv6Text(d), Decimal(src.port), Decimal(dst.port)], ' ') + "\r\n")
    case _ => Err(MismatchedFamilies)
  }

  /** What a v1 reader recovers from a line. */
  datatype V1Fields =
    | Tcp4(src4: Octets4, dst4: Octets4, srcPort: U16, dstPort: U16)
    | Tcp6(srcText: string, dstText: string, srcPort: U16, dstPort: U16)

  function ParsePort(s: string): Option<U16>
  {
    match ParseDecimal(s)
    case Some(n) => if n < 0x1_0000 then Some(n) else None
    case None => None
  }

  /** A v1 reader: the line must end in CRLF and hold six space-separated
      fields, `PROXY`, the family tag, two addresses and two ports. */
  function ParseV1(line: string): Option<V1Fields>
  {
    if |line| < 2 || line[|line| - 2..] != "\r\n" then None
    else
      var f := Split(line[..|line| - 2], ' ');
      if |f| != 6 || f[0] != "PROXY" || ParsePort(f[4]).None? || ParsePort(f[5]).None? then None
      else if f[1] == "TCP4" then
        if ParseIpv4(f[2]).Some? && ParseIpv4(f[3]).Some?
        then Some(Tcp4(ParseIpv4(f[2]).value, ParseIpv4(f[3]).value, ParsePort(f[4]).value, ParsePort(f[5]).value))
        else None
      else if f[1] == "TCP6" then Some(Tcp6(f[2], f[3], ParsePort(f[4]).value, ParsePort(f[5]).value))
      else None
  }

  lemma PortField(p: U16)
    ensures ParsePort(Decimal(p)) == Some(p)
    ensures Free(Decimal(p), ' ')
    ensures |Decimal(p)| <= 5
  {
    DecimalRoundTrip(p);
    DigitsFree(p, ' ');
    DecimalShape(p);
  }

  /** Six space-free fields joined by single spaces and ended in CRLF, the
      shape of a v1 line, split back into those fields once the CRLF is stripped. */
  lemma LineFields(fields: seq<string>)
    requires |fields| == 6
    requires forall i :: 0 <= i < 6 ==> Free(fields[i], ' ')
    ensures var line := Join(fields, ' ') + "\r\n";
      |line| >= 2 && line[|line| - 2..] == "\r\n" && Split(line[..|line| - 2], ' ') == fields
  {
    var line := Join(fields, ' ') + "\r\n";
    assert line[..|line| - 2] == Join(fields, ' ');
    SplitJoin(fields, ' ');
  }

  /** The TCP4 line reads back to exactly the two addresses and ports it was
      built from, source first. */
  lemma V1RoundTripTcp4(src: SocketAddr, dst: SocketAddr, ipv6Text: Octets16 -> string)
    requires src.ip.V4? && dst.ip.V4?
    ensures ParseV1(V1Header(src, dst, ipv6Text).value) == Some(Tcp4(src.ip.v4, dst.ip.v4, src.port, dst.port))
  {
    var fields := ["PROXY", "TCP4", Ipv4Text(src.ip.v4), Ipv4Text(dst.ip.v4), Decimal(src.port), Decimal(dst.port)];
    Ipv4TextShape(src.ip.v4);
    Ipv4TextShape(dst.ip.v4);
    Ipv4TextRoundTrip(src.ip.v4);
    Ipv4TextRoundTrip(dst.ip.v4);
    PortField(src.port);
    PortField(dst.port);
    assert Free("PROXY", ' ') && Free("TCP4", ' ');
    LineFields(fields);
  }

  /** The TCP6 line reads back to the two address texts and the two ports,
      provided the address text holds no space. */
  lemma V1RoundTripTcp6(src: SocketAddr, dst: SocketAddr, ipv6Text: Octets16 -> string)
    requires src.ip.V6? && dst.ip.V6?
    requires Free(ipv6Text(src.ip.v6), ' ') && Free(ipv6Text(dst.ip.v6), ' ')
    ensures ParseV1(V1Header(src, dst, ipv6Text).value)
         == Some(Tcp6(ipv6Text(src.ip.v6), ipv6Text(dst.ip.v6), src.port, dst.port))
  {
    var fields := ["PROXY", "TCP6", ipv6Text(src.ip.v6), ipv6Text(dst.ip.v6), Decimal(src.port), Decimal(dst.port)];
    PortField(src.port);
    PortField(dst.port);
    assert Free("PROXY", ' ') && Free("TCP6", ' ');
    LineFields(fields);
  }

  /** Every v1 line starts with `PROXY TCP4 ` or `PROXY TCP6 ` and ends with
      CRLF; a TCP4 line is at most 56 characters, and a TCP6 line with address
      texts of at most 39 characters is at most 104, both within the 107 that
      section 2.1 of "The PROXY protocol" allows. */
  lemma V1Shape(src: SocketAddr, dst: SocketAddr, ipv6Text: Octets16 -> string)
    requires SameFamily(src, dst)
    requires src.ip.V6? ==> |ipv6Text(src.ip.v6)| <= 39 && |ipv6Text(dst.ip.v6)| <= 39
    ensures var line := V1Header(src, dst, ipv6Text).value;
      && |line| >= 13
      && line[..11] == (if src.ip.V4? then "PROXY TCP4 " else "PROXY TCP6 ")
      && line[|line| - 2..] == "\r\n"
      && |line| <= (if src.ip.V4? then 56 else 104)
  {
    PortField(src.port);
    PortField(dst.port);
    if src.ip.V4? {
      Ipv4TextShape(src.ip.v4);
      Ipv4TextShape(dst.ip.v4);
      LineLayout("TCP4", Ipv4Text(src.ip.v4), Ipv4Text(dst.ip.v4), Decimal(src.port), Decimal(dst.port));
    } else {
      LineLayout("TCP6", ipv6Text(src.ip.v6), ipv6Text(dst.ip.v6), Decimal(src.port), Decimal(dst.port));
    }
  }

  /** The layout of a v1 line: `PROXY`, the tag, four fields, single spaces, CRLF. */
  lemma LineLayout(tag: string, a: string, b: string, c: string, d: string)
    requires |tag| == 4
    ensures var line := Join(["PROXY", tag, a, b, c, d], ' ') + "\r\n";
      && |line| == 16 + |a| + |b| + |c| + |d|
      && line[..11] == "PROXY " + tag + " "
      && line[|line| - 2..] == "\r\n"
  {
    var fields := ["PROXY", tag, a, b, c, d];
    var rest := Join(fields[2..], ' ');
    assert Join(fields[5..], ' ') == d;
    assert Join(fields[4..], ' ') == c + [' '] + d;
    assert Join(fields[3..], ' ') == b + [' '] + Join(fields[4..], ' ');
    assert rest == a + [' '] + Join(fields[3..], ' ');
    assert Join(fields[1..], ' ') == tag + [' '] + rest;
    var line := Join(fields, ' ') + "\r\n";
    assert line == ("PROXY " + tag + " ") + (rest + "\r\n");
  }

  /** The 16-bit length field and the address block of a v2 header. */
  function AddressBlock(src: SocketAddr, dst: SocketAddr): (b: seq<Byte>)
    ensures |b| == |Octets(src.ip)| + |Octets(dst.ip)| + 4
  {
    Octets(src.ip) + Octets(dst.ip) + BeBytes(src.port) + BeBytes(dst.port)
  }

  /** The byte layout of the v2 header for `src` and `dst`: 28 bytes for
      IPv4 and 52 for IPv6; the signature, version 2 with the PROXY command,
      the TCP family, the big-endian length of what follows, then the address
      block and nothing after it. */
  predicate V2Layout(src: SocketAddr, dst: SocketAddr, h: seq<Byte>)
  {
    && |h| == (if src.ip.V4? then 28 else 52)
    && h[..12] == Signature
    && h[12] == VersionCommand
    && h[13] == (if src.ip.V4? then FamilyTcp4 else FamilyTcp6)
    && h[14..16] == BeBytes(|h| - 16)
    && h[16..] == AddressBlock(src, dst)
  }

  /** The layout fixes every byte: there is one v2 header per pair of endpoints. */
  lemma V2LayoutUnique(src: SocketAddr, dst: SocketAddr, h1: seq<Byte>, h2: seq<Byte>)
    requires V2Layout(src, dst, h1) && V2Layout(src, dst, h2)
    ensures h1 == h2
  {
    assert h1 == h1[..12] + [h1[12], h1[13]] + h1[14..16] + h1[16..];
    assert h2 == h2[..12] + [h2[12], h2[13]] + h2[14..16] + h2[16..];
  }

  /** `forward_v2`'s header, appended piece by piece to a growing buffer. */
  method V2Header(src: SocketAddr, dst: SocketAddr) returns (r: Result<seq<Byte>, ProxyError>)
    ensures r.Err? <==> !SameFamily(src, dst)
    ensures r.Ok? ==> V2Layout(src, dst, r.value) && ParseV2(r.value) == Some((src, dst))
  {
    var header: seq<Byte> := [];
    header := header + Signature;
    match (src.ip, dst.ip) {
    case (V4(s), V4(d)) =>
      header := header + [VersionCommand, FamilyTcp4];
      header := header + BeBytes(12);
      header := header + s;
      header := header + d;
      header := header + BeBytes(src.port);
      header := header + BeBytes(dst.port);
      assert header[..12] == Signature && header[14..16] == BeBytes(12);
    case (V6(s), V6(d)) =>
      header := header + [VersionCommand, FamilyTcp6];
      header := header + BeBytes(36);
      header := header + s;
      header := header + d;
      header := header + BeBytes(src.port);
      header := header + BeBytes(dst.port);
      assert header[..12] == Signature && header[14..16] == BeBytes(36);
    case _ =>
      return Err(MismatchedFamilies);
    }
    assert header[16..] == AddressBlock(src, dst);
    V2RoundTrip(src, dst, header);
    r := Ok(header);
  }

  /** A v2 reader, as section 2.2 of "The PROXY protocol" describes it: the
      signature, version 2 with the PROXY command, a TCP family, a length that
      covers at least the address block, then the addresses and ports. */
  function ParseV2(h: seq<Byte>): Option<(SocketAddr, SocketAddr)>
  {
    if |h| < 16 || h[..12] != Signature || h[12] != VersionCommand then None
    else
      var len := FromBe(h[14], h[15]);
      if |h| < 16 + len then None
      else if h[13] == FamilyTcp4 && len >= 12 then
        Some((SocketAddr(V4(h[16..20]), FromBe(h[24], h[25])), SocketAddr(V4(h[20..24]), FromBe(h[26], h[27]))))
      else if h[13] == FamilyTcp6 && len >= 36 then
        Some((SocketAddr(V6(h[16..32]), FromBe(h[48], h[49])), SocketAddr(V6(h[32..48]), FromBe(h[50], h[51]))))
      else None
  }

  /** Any header with the layout `V2Header` promises reads back to the two
      endpoints it describes. */
  lemma V2RoundTrip(src: SocketAddr, dst: SocketAddr, h: seq<Byte>)
    requires SameFamily(src, dst)
    requires V2Layout(src, dst, h)
    ensures ParseV2(h) == Some((src, dst))
  {
    FromBeBytes(|h| - 16);
    assert FromBe(h[14], h[15]) == |h| - 16;
    var n := |Octets(src.ip)|;
    var blk := h[16..];
    assert blk[..n] == Octets(src.ip);
    assert blk[n..2 * n] == Octets(dst.ip);
    assert blk[2 * n..2 * n + 2] == BeBytes(src.port);
    assert blk[2 * n + 2..] == BeBytes(dst.port);
    FromBeBytes(src.port);
    FromBeBytes(dst.port);
    assert h[16..16 + n] == Octets(src.ip);
    assert h[16 + n..16 + 2 * n] == Octets(dst.ip);
    assert FromBe(h[16 + 2 * n], h[17 + 2 * n]) == src.port;
    assert FromBe(h[18 + 2 * n], h[19 + 2 * n]) == dst.port;
    match src.ip
    case V4(_) => assert SocketAddr(V4(h[16..20]), FromBe(h[24], h[25])) == src;
    case V6(_) => assert SocketAddr(V6(h[16..32]), FromBe(h[48], h[49])) == src;
  }
}
