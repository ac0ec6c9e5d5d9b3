/** The record derivation of the Cloudflare provider (`src/ddns/cloudflare.rs`):
    which names are written, what each payload holds, which HTTP method and URL
    carry it, and the order of the two upserts. The HTTP exchanges are inputs:
    the zone id, what the record search returned and how each write was
    answered. The JSON is modelled as a value tree. */
module Cloudflare {
  import opened Common

  /** The provider's configuration. */
  datatype Provider = Provider(token: string, domain: string, subDomain: string)

  /** The JSON values the payloads use. */
  datatype Json = JString(str: string) | JBool(flag: bool) | JNumber(num: int) | JObject(members: map<string, Json>)

  datatype HttpMethod = Get | Patch | Post

  /** A request: method, URL, bearer token and JSON body (none for a query). */
  datatype Request = Request(verb: HttpMethod, url: string, bearer: string, body: Option<map<string, Json>>)

  /** What `search_record_id` returned: an error, the first matching record's
      id, or no match. */
  datatype Lookup = LookupFailed | Found(id: string) | NotFound

  /** How the write request was answered. */
  datatype Response = SendFailed | Rejected | Accepted

  /** The I/O of one `upsert_record`. */
  datatype UpsertIo = UpsertIo(search: Lookup, response: Response)

  datatype DnsError = ZoneNotFound | SearchFailed | UnsupportedType | SendError | ApiError

  const Api: string := "https://api.cloudflare.com/client/v4"
  const SrvPrefix: string := "_minecraft._tcp."

  /** The A record's name: the bare domain exactly for an empty or `@`
      sub-domain, otherwise `sub_domain.domain`. */
  function ARecordName(p: Provider): (name: string)
    ensures |name| >= |p.domain|
    ensures name == p.domain <==> p.subDomain == "" || p.subDomain == "@"
  {
    if p.subDomain == "" || p.subDomain == "@" then p.domain else p.subDomain + "." + p.domain
  }

  /** The SRV record's name, which never coincides with the A record's. */
  function SrvName(p: Provider): (name: string)
    ensures name != ARecordName(p)
  {
    SrvPrefix + ARecordName(p)
  }

  /** The A name always ends in the configured domain; outside the apex
      spellings it is exactly the sub-domain, a dot and the domain; and the
      SRV name is the A name under `_minecraft._tcp.`. */
  lemma RecordNames(p: Provider)
    ensures ARecordName(p)[|ARecordName(p)| - |p.domain|..] == p.domain
    ensures ARecordName(p) != p.domain ==>
      ARecordName(p)[..|p.subDomain|] == p.subDomain && ARecordName(p)[|p.subDomain|] == '.'
    ensures ARecordName(p) != p.domain ==>
      |ARecordName(p)| == |p.subDomain| + 1 + |p.domain| && ARecordName(p) == p.subDomain + "." + p.domain
    ensures |SrvPrefix| == 16
    ensures SrvName(p)[..16] == SrvPrefix && SrvName(p)[16..] == ARecordName(p)
    ensures SrvName(p) != ARecordName(p)
  {
    var a := ARecordName(p);
    if !(p.subDomain == "" || p.subDomain == "@") {
      assert |a| == |p.subDomain| + 1 + |p.domain|;
      assert a[|a| - |p.domain|..] == p.domain;
    }
  }

  /** Different sub-domains (other than the two apex spellings) give
      different records under one domain. */
  lemma DistinctSubDomains(p: Provider, q: Provider)
    requires p.domain == q.domain
    requires p.subDomain != q.subDomain
    requires p.subDomain !in {"", "@"} && q.subDomain !in {"", "@"}
    ensures ARecordName(p) != ARecordName(q)
    ensures SrvName(p) != SrvName(q)
  {
    var a, b := ARecordName(p), ARecordName(q);
    assert |a| == |p.subDomain| + 1 + |p.domain| && a[..|p.subDomain|] == p.subDomain;
    assert |b| == |q.subDomain| + 1 + |q.domain| && b[..|q.subDomain|] == q.subDomain;
    assert SrvName(p)[16..] == a && SrvName(q)[16..] == b;
  }

  function ZoneQueryUrl(domain: string): string
  {
    Api + "/zones?name=" + domain
  }

  function RecordQueryUrl(zoneId: string, fullName: string): string
  {
    Api + "/zones/" + zoneId + "/dns_records?name=" + fullName
  }

  function RecordsUrl(zoneId: string): string
  {
    Api + "/zones/" + zoneId + "/dns_records"
  }

  /** The method and URL of the write: PATCH to the record found, POST to
      the zone's record collection when there is none. */
  function WriteTarget(zoneId: string, lookup: Lookup): (r: (HttpMethod, string))
    requires !lookup.LookupFailed?
    ensures r.0 == Patch <==> lookup.Found?
    ensures r.0 == Patch || r.0 == Post
  {
    match lookup
    case Found(id) => (Patch, RecordsUrl(zoneId) + "/" + id)
    case NotFound => (Post, RecordsUrl(zoneId))
  }

  /** The PATCH URL is the POST URL with the record id appended as one more
      path segment, and different ids give different URLs. */
  lemma WriteTargetUrls(zoneId: string, id: string, other: string)
    ensures WriteTarget(zoneId, Found(id)).1 == WriteTarget(zoneId, NotFound).1 + "/" + id
    ensures id != other ==> WriteTarget(zoneId, Found(id)).1 != WriteTarget(zoneId, Found(other)).1
  {
    var base := RecordsUrl(zoneId) + "/";
    assert (base + id)[|base|..] == id;
    assert (base + other)[|base|..] == other;
  }

  predicate Supported(rectype: string)
  {
    rectype == "A" || rectype == "SRV"
  }

  const BaseKeys: set<string> := {"type", "name", "proxied", "ttl"}
  const SrvKeys: set<string> := {"service", "proto", "name", "priority", "weight", "port", "target"}

  /** The `data` object of an SRV payload. */
  predicate SrvDataShape(d: map<string, Json>, subDomain: string, port: Option<U16>, target: string)
  {
    && d.Keys == SrvKeys
    && d["service"] == JString("_minecraft")
    && d["proto"] == JString("_tcp")
    && d["name"] == JString(subDomain)
    && d["priority"] == JNumber(10)
    && d["weight"] == JNumber(0)
    && d["port"] == JNumber(match port case Some(n) => n case None => 0)
    && d["target"] == JString(target)
  }

  /** What a payload of each supported type holds, field by field. */
  predicate PayloadShape(m: map<string, Json>, rectype: string, fullName: string, content: string,
                         port: Option<U16>, subDomain: string)
  {
    && BaseKeys <= m.Keys
    && m["type"] == JString(rectype)
    && m["name"] == JString(fullName)
    && m["proxied"] == JBool(false)
    && m["ttl"] == JNumber(60)
    && (rectype == "A" ==> m.Keys == BaseKeys + {"content"} && m["content"] == JString(content))
    && (rectype == "SRV" ==> m.Keys == BaseKeys + {"data"} && m["data"].JObject?
                             && SrvDataShape(m["data"].members, subDomain, port, content))
  }

  /** The shape pins the payload down: two payloads of a supported type with
      the same shape are the same map. */
  lemma PayloadShapeUnique(m: map<string, Json>, n: map<string, Json>, rectype: string, fullName: string,
                           content: string, port: Option<U16>, subDomain: string)
    requires Supported(rectype)
    requires PayloadShape(m, rectype, fullName, content, port, subDomain)
    requires PayloadShape(n, rectype, fullName, content, port, subDomain)
    ensures m == n
  {
    if rectype == "SRV" {
      SrvDataUnique(m["data"].members, n["data"].members, subDomain, port, content);
    }
    assert forall k :: k in m ==> m[k] == n[k];
  }

  lemma SrvDataUnique(d: map<string, Json>, e: map<string, Json>, subDomain: string, port: Option<U16>, target: string)
    requires SrvDataShape(d, subDomain, port, target) && SrvDataShape(e, subDomain, port, target)
    ensures d == e
  {
    assert forall k :: k in d ==> d[k] == e[k];
  }

  /** The payload built in `upsert_record`: the base fields, then the
      type-specific ones; any other record type is refused. */
  method BuildPayload(rectype: string, fullName: string, content: string, port: Option<U16>, subDomain: string)
    returns (r: Result<map<string, Json>, DnsError>)
    ensures r.Err? <==> !Supported(rectype)
    ensures r.Err? ==> r.error == UnsupportedType
    ensures r.Ok? ==> PayloadShape(r.value, rectype, fullName, content, port, subDomain)
  {
    var payload := map["type" := JString(rectype), "name" := JString(fullName),
                       "proxied" := JBool(false), "ttl" := JNumber(60)];
    if rectype == "A" {
      payload := payload["content" := JString(content)];
    } else if rectype == "SRV" {
      var portValue := match port case Some(n) => n case None => 0;
      payload := payload["data" := JObject(map[
        "service" := JString("_minecraft"), "proto" := JString("_tcp"), "name" := JString(subDomain),
        "priority" := JNumber(10), "weight" := JNumber(0), "port" := JNumber(portValue),
        "target" := JString(content)])];
    } else {
      return Err(UnsupportedType);
    }
    return Ok(payload);
  }

  /** Whether an upsert of a supported type goes through. */
  predicate Succeeds(io: UpsertIo)
  {
    !io.search.LookupFailed? && io.response == Accepted
  }

  /** `upsert_record`: search for the record, build the payload (the type is
      checked after the search), then PATCH or POST it. `issued` lists the
      requests in the order they are sent. */
  method Upsert(p: Provider, zoneId: string, rectype: string, fullName: string, content: string,
                port: Option<U16>, io: UpsertIo)
    returns (issued: seq<Request>, r: Result<(), DnsError>)
    ensures 1 <= |issued| <= 2
    ensures issued[0] == Request(Get, RecordQueryUrl(zoneId, fullName), p.token, None)
    ensures |issued| == 2 <==> !io.search.LookupFailed? && Supported(rectype)
    ensures |issued| == 2 ==>
      && (issued[1].verb, issued[1].url) == WriteTarget(zoneId, io.search)
      && issued[1].bearer == p.token
      && issued[1].body.Some?
      && PayloadShape(issued[1].body.value, rectype, fullName, content, port, p.subDomain)
    ensures io.search.LookupFailed? ==> r == Err(SearchFailed)
    ensures !io.search.LookupFailed? && !Supported(rectype) ==> r == Err(UnsupportedType)
    ensures |issued| == 2 ==> r == match io.response
                                   case SendFailed => Err(SendError)
                                   case Rejected => Err(ApiError)
                                   case Accepted => Ok(())
    ensures r.Ok? <==> Supported(rectype) && Succeeds(io)
  {
    issued := [Request(Get, RecordQueryUrl(zoneId, fullName), p.token, None)];
    if io.search.LookupFailed? {
      return issued, Err(SearchFailed);
    }
    var payload := BuildPayload(rectype, fullName, content, port, p.subDomain);
    if payload.Err? {
      return issued, Err(payload.error);
    }
    var target := WriteTarget(zoneId, io.search);
    issued := issued + [Request(target.0, target.1, p.token, Some(payload.value))];
    match io.response {
      case SendFailed => r := Err(SendError);
      case Rejected => r := Err(ApiError);
      case Accepted => r := Ok(());
    }
  }

  /** `update_srv`: look up the zone, upsert the A record pointing at `host`,
      and only if that worked upsert the SRV record pointing at the A record's
      name with the observed port. */
  method UpdateSrv(p: Provider, host: string, port: U16, zone: Option<string>, aIo: UpsertIo, srvIo: UpsertIo)
    returns (issued: seq<Request>, r: Result<(), DnsError>)
    ensures 1 <= |issued| <= 5
    ensures issued[0] == Request(Get, ZoneQueryUrl(p.domain), p.token, None)
    ensures forall i :: 0 <= i < |issued| ==> issued[i].bearer == p.token
    ensures zone.None? ==> |issued| == 1 && r == Err(ZoneNotFound)
    ensures zone.Some? ==> |issued| >= 2 && issued[1] == Request(Get, RecordQueryUrl(zone.value, ARecordName(p)), p.token, None)
    ensures zone.Some? && aIo.search.LookupFailed? ==> |issued| == 2
    ensures zone.Some? && !aIo.search.LookupFailed? ==>
      && |issued| >= 3
      && (issued[2].verb, issued[2].url) == WriteTarget(zone.value, aIo.search)
      && issued[2].body.Some?
      && PayloadShape(issued[2].body.value, "A", ARecordName(p), host, None, p.subDomain)
    ensures |issued| > 3 <==> zone.Some? && Succeeds(aIo)
    ensures |issued| > 3 ==> issued[3] == Request(Get, RecordQueryUrl(zone.value, SrvName(p)), p.token, None)
    ensures |issued| > 3 && srvIo.search.LookupFailed? ==> |issued| == 4
    ensures |issued| > 3 && !srvIo.search.LookupFailed? ==>
      && |issued| == 5
      && (issued[4].verb, issued[4].url) == WriteTarget(zone.value, srvIo.search)
      && issued[4].body.Some?
      && PayloadShape(issued[4].body.value, "SRV", SrvName(p), ARecordName(p), Some(port), p.subDomain)
      && issued[4].body.value["data"].members["target"] == issued[2].body.value["name"]
      && issued[4].body.value["data"].members["port"] == JNumber(port)
    ensures r.Ok? <==> zone.Some? && Succeeds(aIo) && Succeeds(srvIo)
  {
    issued := [Request(Get, ZoneQueryUrl(p.domain), p.token, None)];
    if zone.None? {
      return issued, Err(ZoneNotFound);
    }
    var name := ARecordName(p);
    var aIssued, aResult := Upsert(p, zone.value, "A", name, host, None, aIo);
    issued := issued + aIssued;
    if aResult.Err? {
      return issued, aResult;
    }
    var srvIssued, srvResult := Upsert(p, zone.value, "SRV", SrvName(p), name, Some(port), srvIo);
    var prefix := issued;
    issued := issued + srvIssued;
    assert |prefix| == 3 && issued[..3] == prefix && issued[3..] == srvIssued;
    r := srvResult;
  }
}
