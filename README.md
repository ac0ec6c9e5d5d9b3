# BedrockHole core, modelled in Dafny

BedrockHole exposes a game server that sits behind NAT. It has three parts:

- **STUN worker.** It connects to a STUN server over TCP from the listening port. With `keep_alive` on, it keeps that connection open between probes; with it off, it shuts the stream down after every probe and reconnects at the start of the next. Over the connection it sends the 20-byte Binding Request and reads the XOR-MAPPED-ADDRESS from the response. It calls the DNS provider only when the observed public address changes.
- **Forwarder.** It accepts player connections. Each one is relayed to the backend server. When configured, the relay is prefixed with a PROXY protocol v1 or v2 header. A connection from the host's own public address that starts with `hbpk` goes to a small heartbeat server instead, which answers `hbre`.
- **DNS provider.** Given the public address, the Cloudflare provider upserts an A record and then an SRV record. The SRV record points players at the A name and the public port.

The model, file by file:

| file | module | what it holds |
|---|---|---|
| `common.dfy` | `Common` | bytes and 16/32-bit words as bounded integers, big-endian words, bitwise XOR, `Option`/`Result`, `IpAddr`/`SocketAddr` and `to_canonical` |
| `text.dfy` | `Text` | decimal `Display`, dotted-quad `Display` of IPv4 addresses, split/join of fields, and the parsers that invert them |
| `stun.dfy` | `Stun` | Binding Request construction (on an array, as the source fills a buffer), the `parse_addr` loop proved against a functional specification, and an attribute encoder used to state what the parser accepts |
| `monitor.dfy` | `StunWorker` | the variables of `stun_loop` (`last_addr`, `reconn`) as a class, with one loop iteration as a method tied to a pure step function |
| `proxy.dfy` | `ProxyHeader` | the PROXY v1 line and the v2 binary header, each with a reader that recovers the endpoints |
| `config.dfy` | `Config` | `HAProxyVersion` |
| `listener.dfy` | `Listener` | heartbeat-or-forward routing, the session prologue (connect, header, relay), and the heartbeat reply loop |
| `cloudflare.dfy` | `Cloudflare` | record names, payloads, PATCH/POST choice, and the A-then-SRV sequence with its request trace |

Socket calls, the HTTP client and the DNS update are not executed by the model. Each becomes an input that says what the call returned.

## Model

| member | source | states |
|---|---|---|
| Common.FromBeBytes | src/stun.rs:197-198 | reading two big-endian bytes back gives the 16-bit value that produced them |
| Common.XorInvolution | src/stun.rs:205-213 | XOR-ing twice with the same mask restores the original value |
| Common.XorBound | src/stun.rs:205-213 | the XOR of two k-bit values is a k-bit value, so `u8 ^ u8` and `u16 ^ u16` stay in range |
| Common.ToCanonical | src/forward.rs:111 | an IPv4 address is left as it is, and a result that is still IPv6 is the address it was given: only the IPv4-mapped form changes family |
| Common.CanonicalOfMapped | src/forward.rs:111 | `to_canonical` maps `::ffff:a.b.c.d` to `a.b.c.d`, and it is idempotent |
| Common.CanonicalIsV4 | src/forward.rs:111 | only an IPv4 address and its IPv4-mapped IPv6 form canonicalise to that IPv4 address |
| Text.Decimal | src/forward.rs:24-39 | the rendering of every number is a non-empty run of decimal digits |
| Text.DecimalShape | src/forward.rs:24-39 | a rendered number starts with `0` only when it is zero, and has at most 3 digits below 1000 and 5 below 100000 |
| Text.DecimalRoundTrip | src/forward.rs:24-39 | parsing the decimal rendering of a number gives the number back |
| Text.SplitJoin | src/forward.rs:24-39 | splitting a join of separator-free fields gives the fields back |
| Text.JoinShape | src/forward.rs:24-39 | a join is as long as its fields plus one separator per gap, and it adds no other character |
| Text.Ipv4Text | src/forward.rs:26-27 | dotted decimal splits at `.` into exactly four fields, the decimal renderings of the octets in order |
| Text.Ipv4TextRoundTrip | src/forward.rs:26-27 | the dotted-decimal rendering of an IPv4 address parses back to its four octets |
| Text.Ipv4TextShape | src/forward.rs:26-27 | dotted decimal holds no space and is at most 15 characters long |
| Stun.CopyFromSlice | src/stun.rs:278-280 | `copy_from_slice` into a sub-range overwrites exactly that range and leaves the rest of the buffer unchanged |
| Stun.BindingRequest | src/stun.rs:277-280 | the request is 20 bytes: type 0x0001, length 0, cookie 0x2112A442, and twelve 0xAA bytes; decoded as a header, it is a Binding Request with that cookie and that transaction ID |
| Stun.PortMaskInvolution | src/stun.rs:205 | the port mask is the cookie's high 16 bits, 0x2112, and masking twice restores the port |
| Stun.XorBytesInvolution | src/stun.rs:207-213 | XOR-ing the address bytes twice with the cookie bytes restores them |
| Stun.DecodeXorMapped | src/stun.rs:202-214 | the decoded address is always IPv4, whatever the attribute's family byte says |
| Stun.XorMappedRoundTrip | src/stun.rs:202-214 | decoding the XOR-MAPPED-ADDRESS value a server would send for an IPv4 endpoint gives that endpoint |
| Stun.Locate | src/stun.rs:195-219 | a located value lies after a 4-byte attribute header at or beyond the cursor, with eight bytes of buffer left; a scan that fails reports not-found or out-of-bounds, never too-short |
| Stun.ParseAddrSpec | src/stun.rs:190-219 | the too-short error arises exactly when the message is shorter than a header, and every parsed address is IPv4 |
| Stun.ParseAddr | src/stun.rs:190-220 | the cursor loop returns exactly what the functional specification gives: locate the first XOR-MAPPED-ADDRESS from offset 20 and decode it, with the too-short, not-found and out-of-bounds outcomes |
| Stun.ResponseBuffer | src/stun.rs:284-285 | the buffer handed to the parser is always 1024 bytes long: the first 1024 bytes delivered, and zeros after the end of a shorter delivery |
| Stun.HeaderIgnored | src/stun.rs:190-196 | the first 20 bytes never affect the result: message type, cookie and transaction ID of the response go unchecked |
| Stun.LocateIgnoresPrefix | src/stun.rs:196-217 | the attribute scan from a cursor depends only on the bytes from that cursor on |
| Stun.ZeroTailNotFound | src/stun.rs:196-219 | an all-zero tail reads as empty type-0 attributes up to the end, so nothing is found there |
| Stun.ReadAttributeHeader | src/stun.rs:197-199 | at an encoded attribute the scan reads back its type, its length and its value |
| Stun.LocateFindsFirstMapped | src/stun.rs:196-216 | over encoded attributes the scan stops at the first XOR-MAPPED-ADDRESS, whatever follows, and the eight bytes it hands to the decoder are that attribute's value |
| Stun.LocateMissesAbsentMapped | src/stun.rs:196-219 | encoded attributes with no XOR-MAPPED-ADDRESS, followed by zeros, are reported as not found |
| Stun.ParseEncodedResponse | src/stun.rs:190-220 | any header, then attributes whose first XOR-MAPPED-ADDRESS encodes an IPv4 endpoint, parses to that endpoint |
| Stun.ParseMissingMapped | src/stun.rs:284-287 | a response without the attribute, read into the zero-filled buffer, is reported as not found |
| Stun.ShortMessageRejected | src/stun.rs:191-193 | anything shorter than a header is refused before any attribute is read |
| Stun.PaddingMisleadsScan | src/stun.rs:216 | a one-byte SOFTWARE attribute padded as RFC 5389 section 15 requires, placed before the XOR-MAPPED-ADDRESS, makes the parser miss the address |
| StunWorker.Observed | src/stun.rs:272-287 | an address is observed only by a live task whose request and read went through, and it is what `parse_addr` gives for the zero-filled buffer |
| StunWorker.Step | src/stun.rs:272-324 | the DNS update is handed the address this iteration observed, and only when it differs from `last_addr`; `last_addr` either stays or becomes that address; a stopped task never restarts |
| StunWorker.Worker.constructor | src/stun.rs:242-243 | the loop starts with nothing published and `reconn` cleared |
| StunWorker.Worker.Iterate | src/stun.rs:272-324 | one iteration updates `last_addr` and `reconn` exactly as the step function says; a request is sent exactly when the task is alive and any needed reconnect succeeded, and it is exactly the 20 bytes of the Binding Request |
| StunWorker.UpdateIffChanged | src/stun.rs:287-300 | the DNS update is called exactly when the parsed address differs from `last_addr`, and it gets that address |
| StunWorker.CommitOnlyOnSuccess | src/stun.rs:297-306 | `last_addr` changes only after a successful update, and then to the address handed to it |
| StunWorker.FailedUpdateRetried | src/stun.rs:289-306 | after a failed update, the next iteration that observes the same address calls the update again |
| StunWorker.ReconnRules | src/stun.rs:273-321 | `reconn` is set after every failed iteration and after every iteration without keep-alive; only a successful reconnect clears it, and a clean keep-alive iteration leaves it cleared |
| StunWorker.StopsOnlyOnPanic | src/stun.rs:287 | the task dies exactly when `parse_addr` indexes past the buffer, and a dead task does nothing |
| StunWorker.RepeatedProbesUpdateOnce | src/stun.rs:289-309 | probes that keep seeing one address, with updates that succeed, call the update at most once, with that address, and never when it is already published |
| ProxyHeader.V1Header | src/forward.rs:22-42 | the v1 line is produced exactly when both endpoints have the same family |
| ProxyHeader.PortField | src/forward.rs:28-29 | a rendered port parses back, holds no space and is at most five characters |
| ProxyHeader.LineFields | src/forward.rs:24-39 | a line of space-free fields ending in CRLF splits back into those fields |
| ProxyHeader.V1RoundTripTcp4 | src/forward.rs:23-31 | the TCP4 line reads back to both IPv4 addresses and both ports |
| ProxyHeader.V1RoundTripTcp6 | src/forward.rs:32-40 | the TCP6 line reads back to both address texts and both ports, for any IPv6 rendering without spaces |
| ProxyHeader.LineLayout | src/forward.rs:24-39 | a v1 line is `PROXY`, the tag and four fields separated by single spaces and ended by CRLF, 16 characters longer than its four fields |
| ProxyHeader.V1Shape | src/forward.rs:24-39 | the line starts `PROXY TCP4 ` or `PROXY TCP6 `, ends in CRLF, and is at most 56 characters for IPv4 and 104 for IPv6 |
| ProxyHeader.AddressBlock | src/forward.rs:74-85 | the address block holds both addresses' octets and two 2-byte ports |
| ProxyHeader.V2Header | src/forward.rs:63-88 | on the same family, the header has the v2 layout: 28 or 52 bytes, the signature, 0x21, the TCP4/TCP6 family byte, the big-endian length of the address block, then the octets and big-endian ports and nothing more; the reader recovers both endpoints; on mixed families, an error |
| ProxyHeader.V2LayoutUnique | src/forward.rs:63-88 | the v2 layout fixes every byte: two headers with the layout for the same endpoints are equal |
| ProxyHeader.V2RoundTrip | src/forward.rs:63-88 | any header with that layout reads back to the two endpoints it describes |
| Listener.RouteConnection | src/forward.rs:111-125 | every connection goes to the heartbeat server or is forwarded with the configured version; one whose peek failed or did not yield `hbpk` is always forwarded, and so is an IPv6 peer that is not IPv4-mapped when the public address is IPv4 |
| Listener.HeartbeatRouteIff | src/forward.rs:111-125 | a connection goes to the heartbeat server exactly when its peer is the public IPv4 address, or that address's IPv4-mapped IPv6 form, and its first four bytes are `hbpk`; every other connection is forwarded with the configured version |
| Listener.OpenSession | src/forward.rs:11-96 | a failed connect sends nothing; without PROXY support nothing precedes the relay; unavailable addresses or mixed families end the session; otherwise V1 writes the text line and V2 exactly the bytes of the v2 layout for the client and proxy endpoints, which read back to them, and the relay starts exactly when that write succeeds |
| Listener.HeartbeatServer | src/forward.rs:146-173 | the loop stops at the first end of stream, read error or failed reply, and not before; it writes `hbre` once for each read that was exactly `hbpk` |
| Listener.Replies | src/forward.rs:155-159 | what is written back is copies of `hbre` back to back, at most one per read |
| Listener.RepliesAppend | src/forward.rs:148-171 | the replies to a longer run of reads are the replies so far, then the replies to the next read |
| Listener.RepliesToProbes | src/forward.rs:155-159 | n probes with working replies get n `hbre` answers, in order |
| Listener.NoReplyWithoutProbe | src/forward.rs:155-165 | reads that are not exactly `hbpk` get no reply, including two probes coalesced into one read |
| Cloudflare.ARecordName | src/ddns/cloudflare.rs:164-168 | the A name is at least as long as the domain, and equals it exactly for an empty or `@` sub-domain |
| Cloudflare.SrvName | src/ddns/cloudflare.rs:173 | the SRV name never coincides with the A name |
| Cloudflare.RecordNames | src/ddns/cloudflare.rs:164-173 | the A name ends in the domain, and outside the apex spellings it is exactly the sub-domain, a dot, then the domain (length included); the SRV name is `_minecraft._tcp.` followed by the A name |
| Cloudflare.DistinctSubDomains | src/ddns/cloudflare.rs:164-173 | under one domain, different non-apex sub-domains give different A and SRV names |
| Cloudflare.WriteTarget | src/ddns/cloudflare.rs:106-121 | a found record id selects PATCH, no id selects POST |
| Cloudflare.WriteTargetUrls | src/ddns/cloudflare.rs:106-121 | the PATCH URL is the POST URL plus `/` and the record id, and distinct ids give distinct URLs |
| Cloudflare.PayloadShapeUnique | src/ddns/cloudflare.rs:81-102 | the stated payload shape determines the payload map completely |
| Cloudflare.BuildPayload | src/ddns/cloudflare.rs:81-103 | A and SRV payloads carry `type`, `name`, `proxied = false` and `ttl = 60`. An A payload adds `content`. An SRV payload adds `data` with `_minecraft`, `_tcp`, the sub-domain, priority 10, weight 0, the port (0 when absent) and the target. Every other type is an error |
| Cloudflare.Upsert | src/ddns/cloudflare.rs:71-149 | first the record search is sent; a failed search or an unsupported type sends nothing more; otherwise exactly one PATCH or POST carrying the payload follows, and the upsert succeeds exactly when that write is accepted |
| Cloudflare.UpdateSrv | src/ddns/cloudflare.rs:155-178 | the zone lookup goes first and a failed lookup stops there; then the A upsert for `host`, and a failed A record search sends nothing after it; the SRV upsert is attempted exactly when the A upsert succeeded, and a failed SRV record search is the last request; its target is the A record's name and its port the observed port; every request carries the token; it succeeds exactly when both upserts do |

## Modelled as written

The model follows these behaviours of the source as written, without correcting them:

- The scanner in `parse_addr` steps over an attribute by its declared length. It does not skip the padding to a multiple of four that section 15 of RFC 5389 requires, so a padded attribute before XOR-MAPPED-ADDRESS throws the cursor off. `Stun.PaddingMisleadsScan` gives a concrete response where this happens.
- `parse_addr` reads the XOR-MAPPED-ADDRESS port and IPv4 address without checking the attribute's length or its family byte. An IPv6 value is decoded as if it were IPv4.
- When the value would lie past the end of the buffer, the indexing panics. The model reports this as `AttributeOutOfBounds`. The panic ends the spawned task instead of reaching the loop's error handler, so `StunWorker.Step` stops the worker on it.
- The response is read into a zero-filled 1024-byte buffer, and the whole buffer is parsed, not only the bytes the read delivered. Zero bytes read as empty type-0 attributes.
- The response header is never checked: not its type, its length, its cookie, or the transaction ID.
- A mixed-family pair of endpoints is an error in both PROXY versions. There is no fallback to `UNKNOWN`.
- `main.rs` calls `stun::run(config.general, config.forward.local_port)` (src/main.rs:33) and uses `.ip()` on its result (src/main.rs:35). But `run` in src/stun.rs:334 takes a `ForwardConfig` and returns `anyhow::Result<()>`. The model starts from the worker loop and the forwarder separately and does not resolve this mismatch.

## Left out

- Sockets, `tokio` tasks, timeouts and sleeps (the 5-second retry delay, the heartbeat interval, the 100 ms accept back-off) are not modelled. Every socket call is an input giving its result.
- The DNS lookup of the STUN server and of the backend is left out. So are the first-connect retry loop in `stun_loop` (src/stun.rs:244-269) and the IPv6-then-IPv4 listener setup in `forward::run` (src/forward.rs:175-247). They are network I/O and retry loops with no decision beyond "retry until it works".
- `copy_bidirectional` is left out. The relay is byte copying outside the model, and `Listener.OpenSession` stops where the relay starts.
- The accept loop of `listener_handle` is modelled one connection at a time, by `Listener.RouteConnection`. Accept errors change nothing but a delay.
- The HTTP client and JSON parsing in `fetch_zone_id` and `search_record_id` (src/ddns/cloudflare.rs:24-69) are left out. The zone id, the search result and the write response are inputs. Logging and the error text of failed requests are left out too.
- IPv6 `Display` (RFC 5952 text form) is a function parameter `ipv6Text`. The v1 round trip for TCP6 holds for any rendering that contains no space.
- The IPv6 flow label and scope id of `SocketAddrV6` are left out. They appear in neither header.
- `src/stun.rs` lines 14-185 repeat the forwarding code of `src/forward.rs` in an older form that has no heartbeat server. That forwarding logic is modelled once, from `src/forward.rs`.
- Configuration loading (`src/config.rs`), the provider registry (`src/ddns.rs`) and start-up (`src/main.rs`) are left out. Only `HAProxyVersion` is modelled.
- A read on the heartbeat connection returns at most 64 bytes, the size of its buffer. `Listener.HeartbeatServer` takes each read's chunk as an input. An input chunk longer than that is not something the source's read can return, and the model treats it as one more chunk that is not `hbpk`.
