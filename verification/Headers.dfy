/** Request and response headers on their way through the proxy: src/proxy/headers.rs and the rebuild
    in src/proxy/handler.rs. Header names are in lower case, as the header map stores them. */
module Headers {
  import opened Text
  import opened Hosts
  import opened Hostnames
  import opened Config
  import opened Validation
  import opened Routing

  type Fields = map<string, seq<string>>

  /** All values of a name, in order. */
  function Values(h: Fields, name: string): seq<string> {
    if name in h then h[name] else []
  }

  /** The mutable multimap both directions edit in place. */
  class HeaderMap {
    var fields: Fields

    ghost predicate Valid()
      reads this
    {
      forall name :: name in fields ==> fields[name] != []
    }

    constructor ()
      ensures Valid() && fields == map[]
    {
      fields := map[];
    }

    function Get(name: string): Option<string>
      reads this
      requires Valid()
    {
      if name in fields then Some(fields[name][0]) else None
    }

    method Remove(name: string)
      requires Valid()
      modifies this
      ensures Valid()
      ensures forall n :: Values(fields, n) == if n == name then [] else Values(old(fields), n)
    {
      fields := fields - {name};
    }

    /** Replaces every value of the name. */
    method Insert(name: string, value: string)
      requires Valid()
      modifies this
      ensures Valid()
      ensures forall n :: Values(fields, n) == if n == name then [value] else Values(old(fields), n)
    {
      fields := fields[name := [value]];
    }

    method Append(name: string, value: string)
      requires Valid()
      modifies this
      ensures Valid()
      ensures forall n :: Values(fields, n)
                       == if n == name then Values(old(fields), n) + [value] else Values(old(fields), n)
    {
      fields := fields[name := Values(fields, name) + [value]];
    }
  }

  // ----- hop-by-hop headers -----

  const HOP_BY_HOP: seq<string> := [
    "connection", "keep-alive", "proxy-authorization", "proxy-authenticate",
    "te", "trailers", "transfer-encoding", "upgrade"]

  /** The names that concern one connection only. */
  ghost predicate IsHopByHop(n: string) {
    || n == "connection" || n == "keep-alive" || n == "proxy-authorization" || n == "proxy-authenticate"
    || n == "te" || n == "trailers" || n == "transfer-encoding" || n == "upgrade"
  }

  lemma HopByHopNames(n: string)
    ensures n in HOP_BY_HOP <==> IsHopByHop(n)
  {
    assert HOP_BY_HOP[0] == "connection" && HOP_BY_HOP[1] == "keep-alive" && HOP_BY_HOP[2] == "proxy-authorization";
    assert HOP_BY_HOP[3] == "proxy-authenticate" && HOP_BY_HOP[4] == "te" && HOP_BY_HOP[5] == "trailers";
    assert HOP_BY_HOP[6] == "transfer-encoding" && HOP_BY_HOP[7] == "upgrade";
  }

  /** Exactly the eight names go; every other name keeps its values in order. */
  method RemoveHopByHop(headers: HeaderMap)
    requires headers.Valid()
    modifies headers
    ensures headers.Valid()
    ensures forall n :: Values(headers.fields, n) == if IsHopByHop(n) then [] else Values(old(headers.fields), n)
  {
    hide IsHopByHop;
    for k := 0 to |HOP_BY_HOP|
      invariant headers.Valid()
      invariant forall n :: Values(headers.fields, n)
                         == if n in HOP_BY_HOP[..k] then [] else Values(old(headers.fields), n)
    {
      headers.Remove(HOP_BY_HOP[k]);
      assert HOP_BY_HOP[..k + 1] == HOP_BY_HOP[..k] + [HOP_BY_HOP[k]];
    }
    assert HOP_BY_HOP[..|HOP_BY_HOP|] == HOP_BY_HOP;
    forall n
      ensures n in HOP_BY_HOP <==> IsHopByHop(n)
    {
      HopByHopNames(n);
    }
  }

  // ----- injected headers -----

  /** Whatever the client sent under the three names is replaced, by the peer's address, or by the
      unspecified address where that is no header value, and by the protocol; nothing else changes. */
  method InjectProxyHeaders(headers: HeaderMap, ip: string, isHeaderValue: string -> bool)
    requires headers.Valid()
    modifies headers
    ensures headers.Valid()
    ensures isHeaderValue(ip) ==> Values(headers.fields, "x-real-ip") == Values(headers.fields, "x-forwarded-for") == [ip]
    ensures !isHeaderValue(ip) ==>
              Values(headers.fields, "x-real-ip") == Values(headers.fields, "x-forwarded-for") == ["0.0.0.0"]
    ensures Values(headers.fields, "x-forwarded-proto") == ["https"]
    ensures forall n :: n != "x-real-ip" && n != "x-forwarded-for" && n != "x-forwarded-proto" ==>
              Values(headers.fields, n) == Values(old(headers.fields), n)
  {
    var ipValue := if isHeaderValue(ip) then ip else "0.0.0.0";
    headers.Insert("x-real-ip", ipValue);
    headers.Insert("x-forwarded-for", ipValue);
    headers.Insert("x-forwarded-proto", "https");
    DistinctNames();
  }

  lemma DistinctNames()
    ensures "x-real-ip" != "x-forwarded-for" && "x-real-ip" != "x-forwarded-proto"
    ensures "x-forwarded-for" != "x-forwarded-proto"
    ensures "host" != "x-real-ip" && "host" != "x-forwarded-for" && "host" != "x-forwarded-proto"
  {
    assert |"x-real-ip"| == 9 && |"x-forwarded-for"| == 15 && |"x-forwarded-proto"| == 17 && |"host"| == 4;
  }

  // ----- the upstream request -----

  /** The authority of a request URI; an IPv6 host keeps its brackets. */
  datatype Authority = Authority(host: string, port: Option<nat>)

  function AuthorityText(a: Authority): string {
    if a.port.Some? then a.host + ":" + Digits(a.port.value) else a.host
  }

  /** Host and port, read back from a Host value. */
  function ReadAuthority(text: string): Option<Authority> {
    var host := StripPort(text);
    if host == text then Some(Authority(text, None))
    else
      var port := text[|host|..];
      if port[0] == ':' && AllDigits(port[1..]) then Some(Authority(host, Some(Value(port[1..])))) else None
  }

  datatype Built = InvalidHost | Built(headers: HeaderMap)

  /** The Host the upstream gets: the URI authority if there is one, else the first Host value. */
  function ForwardedHost(h: Fields, authority: Option<Authority>): seq<string> {
    if authority.Some? then [AuthorityText(authority.value)]
    else if Values(h, "host") == [] then []
    else [Values(h, "host")[0]]
  }

  /** Copies every header, in order per name, except that the Host becomes the forwarded one. */
  method BuildUpstreamRequest(req: HeaderMap, authority: Option<Authority>, isHeaderValue: string -> bool)
      returns (built: Built)
    requires req.Valid()
    modifies req
    ensures built.InvalidHost? <==> authority.Some? && !isHeaderValue(AuthorityText(authority.value))
    ensures built.Built? ==>
              && fresh(built.headers) && built.headers.Valid()
              && forall n :: Values(built.headers.fields, n)
                          == if n == "host" then ForwardedHost(old(req.fields), authority) else Values(old(req.fields), n)
  {
    var host: Option<string>;
    if authority.Some? {
      var value := AuthorityText(authority.value);
      if !isHeaderValue(value) {
        return InvalidHost;
      }
      host := Some(value);
    } else {
      host := req.Get("host");
    }
    req.Remove("host");
    var out := new HeaderMap();
    CopyAll(req, out);
    if host.Some? {
      out.Append("host", host.value);
    }
    built := Built(out);
  }

  /** The loop over the header map, whose order across names is arbitrary. */
  method CopyAll(from: HeaderMap, to: HeaderMap)
    requires from.Valid() && to.Valid() && from != to && to.fields == map[]
    modifies to
    ensures to.Valid()
    ensures forall n :: Values(to.fields, n) == Values(from.fields, n)
  {
    var names := from.fields.Keys;
    while names != {}
      invariant names <= from.fields.Keys
      invariant to.Valid()
      invariant forall n :: Values(to.fields, n) == if n in names then [] else Values(from.fields, n)
      decreases names
    {
      var name :| name in names;
      CopyName(name, from.fields[name], to);
      names := names - {name};
    }
  }

  method CopyName(name: string, values: seq<string>, to: HeaderMap)
    requires to.Valid() && Values(to.fields, name) == []
    modifies to
    ensures to.Valid()
    ensures forall n :: Values(to.fields, n) == if n == name then values else Values(old(to.fields), n)
  {
    for k := 0 to |values|
      invariant to.Valid()
      invariant forall n :: Values(to.fields, n) == if n == name then values[..k] else Values(old(to.fields), n)
    {
      to.Append(name, values[k]);
      assert values[..k + 1] == values[..k] + [values[k]];
    }
    assert values[..|values|] == values;
  }

  // ----- the whole pipeline -----

  /** Inject, strip, rebuild: for every client header map, the upstream gets the peer's address and the
      protocol under exactly the three proxy names, the forwarded Host and no other, nothing under the
      eight hop-by-hop names, and every other name with the client's values in order. */
  method ForwardHeaders(req: HeaderMap, authority: Option<Authority>, ip: string, isHeaderValue: string -> bool)
      returns (built: Built)
    requires req.Valid()
    modifies req
    ensures built.InvalidHost? <==> authority.Some? && !isHeaderValue(AuthorityText(authority.value))
    ensures built.Built? ==>
              && built.headers.Valid()
              && var out := built.headers.fields;
                 && (isHeaderValue(ip) ==> Values(out, "x-real-ip") == Values(out, "x-forwarded-for") == [ip])
                 && (!isHeaderValue(ip) ==> Values(out, "x-real-ip") == Values(out, "x-forwarded-for") == ["0.0.0.0"])
                 && Values(out, "x-forwarded-proto") == ["https"]
                 && Values(out, "host") == ForwardedHost(old(req.fields), authority)
                 && (forall n :: IsHopByHop(n) ==> Values(out, n) == [])
                 && (forall n :: (!IsHopByHop(n) && n != "x-real-ip" && n != "x-forwarded-for"
                                  && n != "x-forwarded-proto" && n != "host") ==>
                       Values(out, n) == Values(old(req.fields), n))
  {
    KeptNames();
    DistinctNames();
    hide IsHopByHop;
    InjectProxyHeaders(req, ip, isHeaderValue);
    RemoveHopByHop(req);
    built := BuildUpstreamRequest(req, authority, isHeaderValue);
  }

  lemma KeptNames()
    ensures !IsHopByHop("host") && !IsHopByHop("x-real-ip")
    ensures !IsHopByHop("x-forwarded-for") && !IsHopByHop("x-forwarded-proto")
  {
    assert "host"[0] == 'h' && "x-real-ip"[0] == 'x' && "x-forwarded-for"[0] == 'x' && "x-forwarded-proto"[0] == 'x';
    assert "connection"[0] == 'c' && "keep-alive"[0] == 'k' && "proxy-authorization"[0] == 'p';
    assert "proxy-authenticate"[0] == 'p' && "te"[0] == 't' && "trailers"[0] == 't';
    assert "transfer-encoding"[0] == 't' && "upgrade"[0] == 'u';
  }

  /** The response path: the listed names and the upstream's Server go, the rest stays. */
  method StripResponse(headers: HeaderMap)
    requires headers.Valid()
    modifies headers
    ensures headers.Valid()
    ensures forall n :: Values(headers.fields, n)
                     == if IsHopByHop(n) || n == "server" then [] else Values(old(headers.fields), n)
  {
    RemoveHopByHop(headers);
    headers.Remove("server");
  }

  // ----- the host a request is routed by, and the host it is forwarded with -----

  /** The host `proxy_handler` looks up: the first Host value if it is readable text, else the host of
      the URI authority; empty means the request is refused. */
  function RoutingHost(h: Fields, authority: Option<Authority>, isText: string -> bool): string {
    var values := Values(h, "host");
    if values != [] && isText(values[0]) then values[0]
    else if authority.Some? then authority.value.host
    else ""
  }

  /** The host of a URI: a plain name or a bracketed literal. */
  predicate IsUriHost(host: string) {
    IsPlain(host) || (|host| >= 2 && host[0] == '[' && IndexOf(host, ']') == |host| - 1)
  }

  lemma StripsUriHost(host: string, suffix: string)
    requires IsUriHost(host) && IsPortSuffix(suffix)
    ensures StripPort(host + suffix) == host
  {
    if IsPlain(host) {
      StripPortPlain(host, suffix);
    } else {
      var inner := host[1..|host| - 1];
      assert host == "[" + inner + "]";
      StripPortBracketed(inner, suffix);
    }
  }

  /** The forwarded authority loses nothing: host and port can be read back from it. */
  lemma {:induction false} AuthorityReadsBack(a: Authority)
    requires IsUriHost(a.host)
    ensures ReadAuthority(AuthorityText(a)) == Some(a)
  {
    if a.port.Some? {
      var digits := Digits(a.port.value);
      var suffix := ":" + digits;
      assert suffix[1..] == digits;
      assert AuthorityText(a) == a.host + suffix;
      StripsUriHost(a.host, suffix);
      ValueOfDigits(a.port.value);
      assert (a.host + suffix)[|a.host|..] == suffix;
    } else {
      StripsUriHost(a.host, "");
      assert a.host + "" == a.host;
    }
    hide StripPort, AuthorityText;
  }

  lemma {:induction false} PortDoesNotChangeRoute(a: Authority)
    requires IsUriHost(a.host)
    ensures NormalizeHost(AuthorityText(a)) == NormalizeHost(a.host)
  {
    if a.port.Some? {
      var suffix := ":" + Digits(a.port.value);
      assert suffix[1..] == Digits(a.port.value);
      assert AuthorityText(a) == a.host + suffix;
      if IsPlain(a.host) {
        NormalizePlain(a.host, suffix);
        NormalizePlain(a.host, "");
        assert a.host + "" == a.host;
      } else {
        var inner := a.host[1..|a.host| - 1];
        assert a.host == "[" + inner + "]" && a.host == "[" + inner + "]" + "";
        NormalizeBracketed(inner, suffix);
        NormalizeBracketed(inner, "");
      }
    }
  }

  /** One of the two hosts is absent, the header is unreadable, or both normalise alike. */
  predicate HostsAgree(h: Fields, authority: Option<Authority>, isText: string -> bool) {
    || authority.None?
    || Values(h, "host") == []
    || !isText(Values(h, "host")[0])
    || NormalizeHost(Values(h, "host")[0]) == NormalizeHost(authority.value.host)
  }

  /** Routing prefers the Host header and forwarding prefers the URI authority. They come to one name
      exactly when the two hosts agree; the comment at the rebuild promises this always. */
  lemma {:induction false} ForwardedHostRoutesAlikeIff(h: Fields, authority: Option<Authority>, isText: string -> bool)
    requires RoutingHost(h, authority, isText) != ""
    requires authority.Some? ==> IsUriHost(authority.value.host)
    ensures |ForwardedHost(h, authority)| == 1
    ensures NormalizeHost(RoutingHost(h, authority, isText)) == NormalizeHost(ForwardedHost(h, authority)[0])
       <==> HostsAgree(h, authority, isText)
  {
    if authority.Some? {
      PortDoesNotChangeRoute(authority.value);
    }
  }

  /** So for every accepted file, a request that is routed to a site is forwarded with a Host that
      would route to that site exactly when the two hosts agree. */
  lemma {:induction false} ForwardedHostFindsSameSiteIff(full: FullConfig, cliAllow: bool, o: Oracle,
      h: Fields, authority: Option<Authority>, isText: string -> bool)
    requires ValidConfig(IntoStaticAndDynamic(full).0, IntoStaticAndDynamic(full).1, cliAllow, o)
    requires RoutingHost(h, authority, isText) != ""
    requires authority.Some? ==> IsUriHost(authority.value.host)
    requires Lookup(IntoStaticAndDynamic(full).1, RoutingHost(h, authority, isText)).Some?
    ensures |ForwardedHost(h, authority)| == 1
    ensures var d := IntoStaticAndDynamic(full).1;
            (Lookup(d, ForwardedHost(h, authority)[0]) == Lookup(d, RoutingHost(h, authority, isText)) <==>
               HostsAgree(h, authority, isText))
  {
    hide ValidConfig, IntoStaticAndDynamic, NormalizeHost, IsUriHost, HostsAgree;
    ForwardedHostRoutesAlikeIff(h, authority, isText);
    FoundUnderOwnHost(full, cliAllow, o, RoutingHost(h, authority, isText));
    FoundUnderOwnHost(full, cliAllow, o, ForwardedHost(h, authority)[0]);
  }

  /** A request that is routed by one name and forwarded with another. */
  lemma ForwardedHostCanDiffer()
    ensures var h: Fields := map["host" := ["a.test"]];
            var authority := Some(Authority("b.test", None));
            NormalizeHost(RoutingHost(h, authority, v => true)) != NormalizeHost(ForwardedHost(h, authority)[0])
  {
    NormalizePlain("a.test", "");
    NormalizePlain("b.test", "");
    assert "a.test" + "" == "a.test" && "b.test" + "" == "b.test";
    assert Lower("a.test")[0] != Lower("b.test")[0];
  }
}
