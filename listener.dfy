/** The per-connection decisions of `listener_handle` and the reply loop of
    `heartbeat_server` in `src/forward.rs`, and the session prologue of
    `forward` / `forward_v2`: connect to the backend, then write the PROXY
    header before any client byte is relayed. Socket calls are inputs. */
module Listener {
  import opened Common
  import opened Config
  import opened ProxyHeader

  /** The heartbeat probe, the ASCII bytes `hbpk`, and its answer, `hbre`. */
  const Hbpk: seq<Byte> := [0x68, 0x62, 0x70, 0x6B]
  const Hbre: seq<Byte> := [0x68, 0x62, 0x72, 0x65]

  /** The result of `peek` into the 4-byte buffer: an error, or the bytes the
      peer had sent so far (of which at most four are copied). */
  datatype PeekResult = PeekFailed | Peeked(available: seq<Byte>)

  /** Where an accepted connection goes. */
  datatype Route = Heartbeat | Forward(version: HAProxyVersion)

  /** The peek filled all four bytes of its buffer and they are `hbpk`. */
  predicate StartsWithProbe(peek: PeekResult)
  {
    peek.Peeked? && |peek.available| >= 4 && peek.available[..4] == Hbpk
  }

  /** `listener_handle`: a connection whose canonical peer address is the
      public address and whose first four bytes are `hbpk` goes to the
      heartbeat server; every other one is forwarded with the configured
      header version. */
  function RouteConnection(wanHost: IpAddr, peer: SocketAddr, peek: PeekResult, version: HAProxyVersion): (r: Route)
    ensures r == Heartbeat || r == Forward(version)
    ensures !StartsWithProbe(peek) ==> r == Forward(version)
    ensures wanHost.V4? && peer.ip.V6? && ToIpv4Mapped(peer.ip.v6).None? ==> r == Forward(version)
  {
    if ToCanonical(peer.ip) == wanHost && StartsWithProbe(peek) then Heartbeat else Forward(version)
  }

  /** Only the public address itself, or its IPv4-mapped IPv6 form (a client
      reaching the dual-stack listener), sending `hbpk` first reaches the
      heartbeat server; both do. */
  lemma HeartbeatRouteIff(o: Octets4, peer: SocketAddr, peek: PeekResult, version: HAProxyVersion)
    ensures RouteConnection(V4(o), peer, peek, version) == Heartbeat
        <==> (peer.ip == V4(o) || peer.ip == MappedV6(o)) && StartsWithProbe(peek)
    ensures RouteConnection(V4(o), peer, peek, version) != Heartbeat
        ==> RouteConnection(V4(o), peer, peek, version) == Forward(version)
  {
    CanonicalOfMapped(o, peer.ip);
    if ToCanonical(peer.ip) == V4(o) {
      CanonicalIsV4(peer.ip, o);
    }
  }

  /** What was written to the backend before relaying starts. */
  datatype Preamble = NoPreamble | TextLine(line: string) | Binary(bytes: seq<Byte>)

  /** Why a session ended before relaying. */
  datatype SessionError =
    | ConnectFailed          // `TcpStream::connect` to the backend
    | AddressUnavailable     // `peer_addr` or `local_addr`
    | HeaderFailed(e: ProxyError)
    | WriteFailed            // `write_all` of the header

  /** The prologue of `forward` (V1) or `forward_v2` (V2), as chosen by the
      dispatch in `listener_handle`. `peer` is the client's address and
      `local` the proxy's end of the new backend connection. On `Ok` the
      returned preamble has been written in full and the relay begins. */
  method OpenSession(version: HAProxyVersion, haproxy: bool, connectOk: bool,
                     peer: Option<SocketAddr>, local: Option<SocketAddr>, writeOk: bool,
                     ipv6Text: Octets16 -> string)
    returns (r: Result<Preamble, SessionError>)
    ensures !connectOk ==> r == Err(ConnectFailed)
    ensures connectOk && !haproxy ==> r == Ok(NoPreamble)
    ensures connectOk && haproxy && (peer.None? || local.None?) ==> r == Err(AddressUnavailable)
    ensures connectOk && haproxy && peer.Some? && local.Some? && !SameFamily(peer.value, local.value)
            ==> r == Err(HeaderFailed(MismatchedFamilies))
    ensures r.Ok? <==> connectOk && (!haproxy || (peer.Some? && local.Some? && SameFamily(peer.value, local.value) && writeOk))
    ensures r.Ok? && haproxy && version == V1 ==>
            r.value == TextLine(V1Header(peer.value, local.value, ipv6Text).value)
    ensures r.Ok? && haproxy && version == V2 ==>
            r.value.Binary? && V2Layout(peer.value, local.value, r.value.bytes)
            && ParseV2(r.value.bytes) == Some((peer.value, local.value))
  {
    if !connectOk {
      return Err(ConnectFailed);
    }
    if !haproxy {
      return Ok(NoPreamble);
    }
    if peer.None? || local.None? {
      return Err(AddressUnavailable);
    }
    var preamble: Preamble;
    match version {
      case V1 =>
        var line := V1Header(peer.value, local.value, ipv6Text);
        if line.Err? {
          return Err(HeaderFailed(line.error));
        }
        preamble := TextLine(line.value);
      case V2 =>
        var header := V2Header(peer.value, local.value);
        if header.Err? {
          assert header.error == MismatchedFamilies;
          return Err(HeaderFailed(header.error));
        }
        preamble := Binary(header.value);
    }
    if !writeOk {
      return Err(WriteFailed);
    }
    return Ok(preamble);
  }

  /** One `read` on the heartbeat connection: the bytes it returned (none at
      end of stream) and whether a reply written after it would succeed, or
      an error. */
  datatype HeartbeatRead = Received(bytes: seq<Byte>, replyOk: bool) | ReadFailed

  /** A read that ends the session: an error, end of stream, or a probe whose
      reply could not be written. */
  predicate EndsSession(e: HeartbeatRead)
  {
    e.ReadFailed? || |e.bytes| == 0 || (e.bytes == Hbpk && !e.replyOk)
  }

  /** The bytes written back for a run of reads: `hbre` for each chunk that
      is exactly `hbpk` and whose reply went through. */
  function Replies(events: seq<HeartbeatRead>): (r: seq<Byte>)
    ensures |r| <= 4 * |events|
    ensures OnlyHbre(r)
  {
    if events == [] then []
    else
      var rest := Replies(events[1..]);
      HbreBefore(rest);
      Reply(events[0]) + rest
  }

  /** The answer to one read. */
  function Reply(e: HeartbeatRead): seq<Byte>
  {
    if e.Received? && e.bytes == Hbpk && e.replyOk then Hbre else []
  }

  /** `r` is copies of `hbre` back to back. */
  predicate OnlyHbre(r: seq<Byte>)
    decreases |r|
  {
    r == [] || (|r| >= 4 && r[..4] == Hbre && OnlyHbre(r[4..]))
  }

  lemma HbreBefore(r: seq<Byte>)
    requires OnlyHbre(r)
    ensures OnlyHbre(Hbre + r) && OnlyHbre([] + r)
  {
    assert [] + r == r;
    assert (Hbre + r)[..4] == Hbre && (Hbre + r)[4..] == r;
  }

  /** `heartbeat_server`: read, answer `hbpk` with `hbre`, ignore anything
      else, stop at end of stream or on an error. `consumed` reads were made;
      `closed` says the session ended rather than the reads running out. */
  method HeartbeatServer(events: seq<HeartbeatRead>) returns (written: seq<Byte>, consumed: nat, closed: bool)
    ensures consumed <= |events|
    ensures closed ==> 0 < consumed && EndsSession(events[consumed - 1])
    ensures !closed ==> consumed == |events|
    ensures forall i :: 0 <= i < consumed - (if closed then 1 else 0) ==> !EndsSession(events[i])
    ensures written == Replies(events[..consumed])
  {
    written, consumed, closed := [], 0, false;
    while consumed < |events| && !closed
      invariant consumed <= |events|
      invariant closed ==> 0 < consumed && EndsSession(events[consumed - 1])
      invariant forall i :: 0 <= i < consumed - (if closed then 1 else 0) ==> !EndsSession(events[i])
      invariant written == Replies(events[..consumed])
    {
      var e := events[consumed];
      RepliesAppend(events[..consumed], e);
      assert events[..consumed + 1] == events[..consumed] + [e];
      consumed := consumed + 1;
      match e {
        case ReadFailed =>
          closed := true;
        case Received(bytes, replyOk) =>
          if |bytes| == 0 {
            closed := true;
          } else if bytes == Hbpk {
            if replyOk {
              written := written + Hbre;
            } else {
              closed := true;
            }
          }
      }
    }
  }

  lemma {:induction false} RepliesAppend(events: seq<HeartbeatRead>, e: HeartbeatRead)
    ensures Replies(events + [e]) == Replies(events) + Reply(e)
    decreases |events|
  {
    if events == [] {
      assert events + [e] == [e] && [e][1..] == [];
    } else {
      var t := events + [e];
      assert t[0] == events[0] && t[1..] == events[1..] + [e];
      RepliesAppend(events[1..], e);
    }
  }

  /** Every probe answered: `n` probes with working replies give `n` copies
      of `hbre`, in order. */
  lemma {:induction false} RepliesToProbes(events: seq<HeartbeatRead>)
    requires forall i :: 0 <= i < |events| ==> events[i] == Received(Hbpk, true)
    ensures |Replies(events)| == 4 * |events|
    ensures forall i :: 0 <= i < |events| ==> Replies(events)[4 * i..4 * i + 4] == Hbre
  {
    ProbeReplyLength(events);
    HbreSlices(Replies(events), |events|);
  }

  lemma {:induction false} ProbeReplyLength(events: seq<HeartbeatRead>)
    requires forall i :: 0 <= i < |events| ==> events[i] == Received(Hbpk, true)
    ensures |Replies(events)| == 4 * |events|
    decreases |events|
  {
    if events != [] {
      ProbeReplyLength(events[1..]);
      assert Reply(events[0]) == Hbre;
    }
  }

  /** The `i`-th four bytes of back-to-back copies of `hbre` are `hbre`. */
  lemma {:induction false} HbreSlices(r: seq<Byte>, n: nat)
    requires OnlyHbre(r) && |r| == 4 * n
    ensures forall i :: 0 <= i < n ==> r[4 * i..4 * i + 4] == Hbre
    decreases n
  {
    if n > 0 {
      HbreSlices(r[4..], n - 1);
      forall i | 0 < i < n ensures r[4 * i..4 * i + 4] == Hbre {
        assert r[4 * i..4 * i + 4] == r[4..][4 * (i - 1)..4 * (i - 1) + 4];
      }
    }
  }

  /** Nothing but exact `hbpk` chunks is ever answered; in particular two
      probes arriving in one read get no reply. */
  lemma {:induction false} NoReplyWithoutProbe(events: seq<HeartbeatRead>)
    requires forall i :: 0 <= i < |events| ==> events[i].ReadFailed? || events[i].bytes != Hbpk
    ensures Replies(events) == []
    decreases |events|
  {
    if events != [] {
      NoReplyWithoutProbe(events[1..]);
    }
  }
}
