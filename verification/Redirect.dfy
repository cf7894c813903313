/** The HTTPS redirect of src/tls/redirect.rs and the upstream URI of src/proxy/handler.rs, against a
    parser of absolute URLs: the delimiters of section 3 and appendix B of RFC 3986. */
module Redirect {
  import opened Text
  import opened Hosts

  function PathPart(path: string): string {
    if path == "" || !StartsWith(path, '/') then "/" + path else path
  }

  function PortSuffix(port: nat): string {
    if port == 443 then "" else ":" + Digits(port)
  }

  function QuerySuffix(query: string): string {
    if query == "" then "" else "?" + query
  }

  function BuildRedirectUrl(host: string, httpsPort: nat, path: string, query: string): string {
    "https://" + StripPort(host) + PortSuffix(httpsPort) + PathPart(path) + QuerySuffix(query)
  }

  /** `build_upstream_uri`, before the library parses it; a missing query is `None`. */
  function BuildUpstreamUri(scheme: string, upstream: string, path: string, query: Option<string>): string {
    scheme + "://" + upstream + path + MarkedQuery(query)
  }

  // ----- parsing -----

  /** What follows the scheme, without the fragment: the authority up to the first slash or question
      mark, the path up to the first question mark, and the query. */
  datatype Parts = Parts(authority: string, path: string, query: Option<string>)

  function SplitParts(rest: string): Parts {
    var slash, mark := IndexOf(rest, '/'), IndexOf(rest, '?');
    var end := if slash < mark then slash else mark;
    Parts(rest[..end], rest[end..mark], if mark < |rest| then Some(rest[mark + 1..]) else None)
  }

  /** The fragment is what follows the first number sign, wherever that is. */
  datatype Reference = Reference(parts: Parts, fragment: Option<string>)

  function SplitReference(rest: string): Reference {
    var hash := IndexOf(rest, '#');
    Reference(SplitParts(rest[..hash]), if hash < |rest| then Some(rest[hash + 1..]) else None)
  }

  datatype Endpoint = Endpoint(host: string, port: nat)

  function ParsePort(s: string): Option<nat> {
    if s == "" || s == ":" then Some(443)
    else if s[0] == ':' && AllDigits(s[1..]) then Some(Value(s[1..]))
    else None
  }

  /** A bracketed literal or a name without colons, then an optional port, 443 when omitted; the host
      must not be empty, and there is no second at sign. */
  function ParseHostPort(s: string): Option<Endpoint> {
    var end := if StartsWith(s, '[') then IndexOf(s, ']') + 1 else IndexOf(s, ':');
    if end == 0 || end > |s| || '@' in s then None
    else
      var port := ParsePort(s[end..]);
      if port.Some? then Some(Endpoint(s[..end], port.value)) else None
  }

  /** The user information of an authority is what precedes its at sign. */
  function UserInfo(authority: string): Option<string> {
    if '@' in authority then Some(authority[..IndexOf(authority, '@')]) else None
  }

  function AfterUserInfo(authority: string): string {
    if '@' in authority then authority[IndexOf(authority, '@') + 1..] else authority
  }

  datatype Url = Url(user: Option<string>, endpoint: Endpoint, path: string, query: string, fragment: Option<string>)

  function ParseHttps(url: string): Option<Url> {
    if !("https://" <= url) then None
    else
      var r := SplitReference(url[8..]);
      var endpoint := ParseHostPort(AfterUserInfo(r.parts.authority));
      if endpoint.None? then None
      else
        var query := if r.parts.query.Some? then r.parts.query.value else "";
        Some(Url(UserInfo(r.parts.authority), endpoint.value, r.parts.path, query, r.fragment))
  }

  // ----- round trip -----

  /** No delimiter that ends the authority. */
  predicate InAuthority(s: string) {
    '/' !in s && '?' !in s && '#' !in s
  }

  /** A host an authority can carry: not empty, free of the delimiters, and either colon-free or
      bracketed. */
  predicate IsAuthorityHost(host: string) {
    && host != "" && InAuthority(host) && '@' !in host
    && if StartsWith(host, '[') then IndexOf(host, ']') == |host| - 1 else ':' !in host
  }

  /** A path and a query that stay what they are behind an authority. */
  predicate IsUrlTail(path: string, query: string) {
    '?' !in path && '#' !in path && '#' !in query
  }

  function MarkedQuery(query: Option<string>): string {
    if query.Some? then "?" + query.value else ""
  }

  lemma MarkPosition(before: string, query: Option<string>)
    requires '?' !in before
    ensures IndexOf(before + MarkedQuery(query), '?') == |before|
  {
    if query.Some? {
      assert before + MarkedQuery(query) == before + ['?'] + query.value;
      IndexOfAppend(before, '?', query.value);
    } else {
      assert before + MarkedQuery(query) == before;
    }
  }

  lemma SlashPosition(authority: string, after: string)
    requires '/' !in authority
    ensures |authority| <= IndexOf(authority + after, '/')
    ensures StartsWith(after, '/') ==> IndexOf(authority + after, '/') == |authority|
  {
    var rest := authority + after;
    assert forall j :: 0 <= j < |authority| ==> rest[j] == authority[j];
    assert StartsWith(after, '/') ==> rest[|authority|] == '/';
  }

  /** Where the delimiters are when the path is empty or starts with a slash. */
  lemma DelimitersOf(authority: string, path: string, query: Option<string>)
    requires '/' !in authority && '?' !in authority
    requires '?' !in path && (path == "" || StartsWith(path, '/'))
    ensures var rest := authority + path + MarkedQuery(query);
            && IndexOf(rest, '?') == |authority| + |path|
            && |authority| <= IndexOf(rest, '/')
            && (path != "" ==> IndexOf(rest, '/') == |authority|)
  {
    hide IndexOf;
    hide MarkedQuery;
    MarkPosition(authority + path, query);
    var after := path + MarkedQuery(query);
    SlashPosition(authority, after);
    assert authority + path + MarkedQuery(query) == authority + after;
    assert path != "" ==> after[0] == path[0];
  }

  /** The split, once the delimiters and what lies between them are known. */
  lemma SplitAt(rest: string, parts: Parts)
    requires var end, mark := |parts.authority|, |parts.authority| + |parts.path|;
             && mark <= |rest| && IndexOf(rest, '?') == mark
             && end <= IndexOf(rest, '/') && (end < mark ==> IndexOf(rest, '/') == end)
             && rest[..end] == parts.authority && rest[end..mark] == parts.path
             && rest[mark..] == MarkedQuery(parts.query)
    ensures SplitParts(rest) == parts
  {
    hide IndexOf;
    var mark := |parts.authority| + |parts.path|;
    assert parts.query.Some? ==> rest[mark..][1..] == parts.query.value;
  }

  lemma SplitPartsOf(authority: string, path: string, query: Option<string>)
    requires '/' !in authority && '?' !in authority
    requires '?' !in path && (path == "" || StartsWith(path, '/'))
    ensures SplitParts(authority + path + MarkedQuery(query)) == Parts(authority, path, query)
  {
    hide IndexOf;
    hide SplitParts;
    hide MarkedQuery;
    DelimitersOf(authority, path, query);
    SplitAt(authority + path + MarkedQuery(query), Parts(authority, path, query));
  }

  /** Where the split found the path, the path has no question mark and is empty or starts with a slash. */
  lemma SplitPartsOnlyIf(rest: string)
    ensures var p := SplitParts(rest);
            '?' !in p.path && (p.path == "" || StartsWith(p.path, '/'))
  {
  }

  lemma NoFragment(rest: string)
    requires '#' !in rest
    ensures SplitReference(rest) == Reference(SplitParts(rest), None)
  {
    assert rest[..|rest|] == rest;
  }

  lemma SplitPartsInside(rest: string, c: char)
    requires c !in rest
    ensures var p := SplitParts(rest);
            c !in p.authority && c !in p.path && (p.query.Some? ==> c !in p.query.value)
  {
  }

  /** Neither authority, path nor query of a split reference contains a number sign. */
  lemma SplitReferenceShape(rest: string)
    ensures var p := SplitReference(rest).parts;
            && InAuthority(p.authority) && '?' !in p.path && '#' !in p.path
            && (p.path == "" || StartsWith(p.path, '/'))
            && (p.query.Some? ==> '#' !in p.query.value)
  {
    var main := rest[..IndexOf(rest, '#')];
    SplitPartsInside(main, '#');
    SplitPartsShape(main);
    SplitPartsOnlyIf(main);
  }

  /** What the library's `Uri` gives of an absolute URI: it drops the fragment, and an empty path reads
      as a slash. */
  function LibraryParts(rest: string): Parts {
    var p := SplitReference(rest).parts;
    if p.path == "" then p.(path := "/") else p
  }

  /** The scheme of an absolute URI, and what follows its two slashes. */
  function SplitScheme(uri: string): Option<(string, string)> {
    var colon := IndexOf(uri, ':');
    if "://" <= uri[colon..] then Some((uri[..colon], uri[colon + 3..])) else None
  }

  lemma SplitSchemeOf(scheme: string, rest: string)
    requires ':' !in scheme
    ensures SplitScheme(scheme + "://" + rest) == Some((scheme, rest))
  {
    var uri := scheme + "://" + rest;
    assert uri == scheme + [':'] + ("//" + rest);
    IndexOfAppend(scheme, ':', "//" + rest);
    assert uri[|scheme|..] == "://" + rest && uri[..|scheme|] == scheme && uri[|scheme| + 3..] == rest;
  }

  /** A URI as the library reads it. */
  datatype LibraryUri = LibraryUri(scheme: string, parts: Parts)

  function ReadUri(uri: string): Option<LibraryUri> {
    var s := SplitScheme(uri);
    if s.Some? then Some(LibraryUri(s.value.0, LibraryParts(s.value.1))) else None
  }

  /** The upstream URI carries the scheme, the upstream address, and the client's path and query,
      unchanged, exactly for requests whose path starts with a slash and has no further delimiter: not
      for the asterisk form, nor for an empty path. */
  lemma {:induction false} UpstreamUriRoundTripIff(scheme: string, upstream: string, path: string, query: Option<string>)
    requires ':' !in scheme && InAuthority(upstream)
    ensures ReadUri(BuildUpstreamUri(scheme, upstream, path, query)) == Some(LibraryUri(scheme, Parts(upstream, path, query)))
       <==> && StartsWith(path, '/') && '?' !in path && '#' !in path
            && (query.Some? ==> '#' !in query.value)
  {
    var rest := upstream + path + MarkedQuery(query);
    assert BuildUpstreamUri(scheme, upstream, path, query) == scheme + "://" + rest;
    SplitSchemeOf(scheme, rest);
    SplitReferenceShape(rest);
    hide SplitScheme, BuildUpstreamUri;
    if StartsWith(path, '/') && '?' !in path && '#' !in path && (query.Some? ==> '#' !in query.value) {
      assert '#' !in rest;
      NoFragment(rest);
      SplitPartsOf(upstream, path, query);
    }
  }

  lemma ParsePortSuffix(port: nat)
    ensures ParsePort(PortSuffix(port)) == Some(port)
  {
    if port != 443 {
      ValueOfDigits(port);
      assert (":" + Digits(port))[1..] == Digits(port);
    }
  }

  /** Where the host ends, whatever the port. */
  lemma HostEnd(host: string, port: nat)
    requires IsAuthorityHost(host)
    ensures var s := host + PortSuffix(port);
            (if StartsWith(s, '[') then IndexOf(s, ']') + 1 else IndexOf(s, ':')) == |host|
  {
    var s := host + PortSuffix(port);
    assert forall j :: 0 <= j < |host| ==> s[j] == host[j];
  }

  lemma ParseHostPortOf(host: string, port: nat)
    requires IsAuthorityHost(host)
    ensures ParseHostPort(host + PortSuffix(port)) == Some(Endpoint(host, port))
  {
    HostEnd(host, port);
    ParsePortSuffix(port);
    SuffixHasNoDelimiter(port);
    hide IndexOf;
    hide ParsePort;
    hide PortSuffix;
    var s := host + PortSuffix(port);
    assert s[..|host|] == host && s[|host|..] == PortSuffix(port);
  }

  lemma SuffixHasNoDelimiter(port: nat)
    ensures InAuthority(PortSuffix(port)) && '@' !in PortSuffix(port)
  {
  }

  lemma BuiltAsConcatenation(host: string, httpsPort: nat, path: string, query: string)
    ensures BuildRedirectUrl(host, httpsPort, path, query)
         == "https://" + (StripPort(host) + PortSuffix(httpsPort) + PathPart(path) + QuerySuffix(query))
  {
  }

  lemma WithoutScheme(rest: string)
    ensures "https://" <= "https://" + rest
    ensures ("https://" + rest)[8..] == rest
  {
  }

  /** How any built URL splits whose stripped host has no delimiter but perhaps an at sign. */
  lemma {:induction false} BuiltSplits(host: string, httpsPort: nat, path: string, query: string)
    requires InAuthority(StripPort(host)) && IsUrlTail(path, query)
    ensures var url := BuildRedirectUrl(host, httpsPort, path, query);
            && "https://" <= url
            && SplitReference(url[8..])
               == Reference(Parts(StripPort(host) + PortSuffix(httpsPort), PathPart(path),
                                  if query == "" then None else Some(query)), None)
  {
    var name, q := StripPort(host), if query == "" then None else Some(query);
    var authority := name + PortSuffix(httpsPort);
    assert '?' !in PathPart(path) && '#' !in PathPart(path) && StartsWith(PathPart(path), '/');
    assert QuerySuffix(query) == MarkedQuery(q) && '#' !in MarkedQuery(q);
    SuffixHasNoDelimiter(httpsPort);
    assert InAuthority(authority);
    var rest := authority + PathPart(path) + MarkedQuery(q);
    assert '#' !in rest;
    hide StripPort, SplitParts, SplitReference, PathPart, PortSuffix, QuerySuffix, MarkedQuery;
    SplitPartsOf(authority, PathPart(path), q);
    NoFragment(rest);
    BuiltAsConcatenation(host, httpsPort, path, query);
    WithoutScheme(rest);
  }

  lemma {:induction false} RedirectRoundTrip(host: string, httpsPort: nat, path: string, query: string)
    requires IsAuthorityHost(StripPort(host)) && IsUrlTail(path, query)
    ensures ParseHttps(BuildRedirectUrl(host, httpsPort, path, query))
         == Some(Url(None, Endpoint(StripPort(host), httpsPort), PathPart(path), query, None))
  {
    BuiltSplits(host, httpsPort, path, query);
    SuffixHasNoDelimiter(httpsPort);
    ParseHostPortOf(StripPort(host), httpsPort);
    assert '@' !in StripPort(host) + PortSuffix(httpsPort);
    hide StripPort, ParseHostPort, SplitReference, PathPart, PortSuffix, BuildRedirectUrl;
  }

  lemma AtSignSplits(user: string, after: string)
    requires '@' !in user
    ensures UserInfo(user + "@" + after) == Some(user) && AfterUserInfo(user + "@" + after) == after
  {
    var authority := user + ['@'] + after;
    IndexOfAppend(user, '@', after);
    assert authority[|user|] == '@' && authority[..|user|] == user && authority[|user| + 1..] == after;
  }

  /** A Host with an at sign: the URL names what follows the sign, and the rest is user information. */
  lemma {:induction false} HostWithAtSign(user: string, name: string, httpsPort: nat, path: string, query: string)
    requires InAuthority(user) && '@' !in user && ':' !in user && !StartsWith(user, '[')
    requires IsAuthorityHost(name) && ':' !in name && IsUrlTail(path, query)
    ensures ParseHttps(BuildRedirectUrl(user + "@" + name, httpsPort, path, query))
         == Some(Url(Some(user), Endpoint(name, httpsPort), PathPart(path), query, None))
  {
    hide StripPort, ParseHostPort, SplitReference, PathPart, PortSuffix, BuildRedirectUrl, UserInfo, AfterUserInfo;
    var host := user + "@" + name;
    StripPortPlain(host, "");
    assert host + "" == host;
    BuiltSplits(host, httpsPort, path, query);
    ParseHostPortOf(name, httpsPort);
    AtSignSplits(user, name + PortSuffix(httpsPort));
    assert host + PortSuffix(httpsPort) == user + "@" + (name + PortSuffix(httpsPort));
  }

  lemma NameAlone(name: string)
    requires IsAuthorityHost(name)
    ensures ParseHostPort(name) == Some(Endpoint(name, 443))
    ensures SplitParts(name) == Parts(name, "", None)
  {
    assert name + PortSuffix(443) == name;
    assert name + "" + MarkedQuery(None) == name;
    hide ParseHostPort, SplitParts;
    ParseHostPortOf(name, 443);
    SplitPartsOf(name, "", None);
  }

  lemma NumberSignSplits(name: string, tail: string)
    requires IsAuthorityHost(name)
    ensures SplitReference(name + "#" + tail) == Reference(Parts(name, "", None), Some(tail))
  {
    hide SplitParts, IndexOf;
    var rest := name + ['#'] + tail;
    IndexOfAppend(name, '#', tail);
    assert rest[..|name|] == name && rest[|name| + 1..] == tail;
    NameAlone(name);
  }

  /** A Host with a number sign: the URL names what precedes the sign, at the default port, and the
      rest, port, path and query with it, is fragment. */
  lemma {:induction false} HostWithNumberSign(name: string, more: string, httpsPort: nat, path: string, query: string)
    requires IsAuthorityHost(name) && !StartsWith(name, '[') && ':' !in more
    ensures ParseHttps(BuildRedirectUrl(name + "#" + more, httpsPort, path, query))
         == Some(Url(None, Endpoint(name, 443), "", "", Some(more + PortSuffix(httpsPort) + PathPart(path) + QuerySuffix(query))))
  {
    hide StripPort, ParseHostPort, SplitReference, PathPart, PortSuffix, BuildRedirectUrl, QuerySuffix;
    var host := name + "#" + more;
    StripPortPlain(host, "");
    assert host + "" == host;
    var tail := more + PortSuffix(httpsPort) + PathPart(path) + QuerySuffix(query);
    BuiltAsConcatenation(host, httpsPort, path, query);
    assert host + PortSuffix(httpsPort) + PathPart(path) + QuerySuffix(query) == name + "#" + tail;
    WithoutScheme(name + "#" + tail);
    NumberSignSplits(name, tail);
    NameAlone(name);
  }

  lemma SplitPartsShape(rest: string)
    ensures var p := SplitParts(rest);
            '/' !in p.authority && '?' !in p.authority && '?' !in p.path
  {
  }

  /** Whatever the parser accepts without user information has a host an authority can carry, and a
      path and query free of their delimiters. */
  lemma ParsedIsWellFormed(url: string)
    requires ParseHttps(url).Some? && ParseHttps(url).value.user.None?
    ensures var u := ParseHttps(url).value;
            IsAuthorityHost(u.endpoint.host) && IsUrlTail(u.path, u.query)
  {
    hide SplitReference, ParseHostPort, IsAuthorityHost;
    SplitReferenceShape(url[8..]);
    HostOfAuthority(SplitReference(url[8..]).parts.authority);
  }

  lemma HostOfAuthority(a: string)
    requires InAuthority(a) && '@' !in a && ParseHostPort(a).Some?
    ensures IsAuthorityHost(ParseHostPort(a).value.host)
  {
  }

  /** Redirect round trip: parsing the built URL gives back the host without its port, the HTTPS port,
      the path, behind a slash if it does not start with one, and the query, with no user information and
      no fragment, exactly
      when the host is one an authority can carry and path and query are free of their delimiters. */
  lemma {:induction false} RedirectRoundTripIff(host: string, httpsPort: nat, path: string, query: string)
    ensures ParseHttps(BuildRedirectUrl(host, httpsPort, path, query))
            == Some(Url(None, Endpoint(StripPort(host), httpsPort),
                        if StartsWith(path, '/') then path else "/" + path, query, None))
       <==> IsAuthorityHost(StripPort(host)) && IsUrlTail(path, query)
  {
    assert PathPart(path) == if StartsWith(path, '/') then path else "/" + path;
    hide ParseHttps, BuildRedirectUrl, StripPort, IsAuthorityHost;
    var url := BuildRedirectUrl(host, httpsPort, path, query);
    if ParseHttps(url) == Some(Url(None, Endpoint(StripPort(host), httpsPort), PathPart(path), query, None)) {
      ParsedIsWellFormed(url);
    }
    if IsAuthorityHost(StripPort(host)) && IsUrlTail(path, query) {
      RedirectRoundTrip(host, httpsPort, path, query);
    }
  }

  /** Rebuilding from the parsed authority, with its port written out or not, gives the same URL. */
  lemma {:induction false} RebuildFromParsed(host: string, httpsPort: nat, path: string, query: string)
    requires IsAuthorityHost(StripPort(host)) && IsUrlTail(path, query)
    ensures var u := Url(None, Endpoint(StripPort(host), httpsPort), PathPart(path), query, None);
            var url := BuildRedirectUrl(host, httpsPort, path, query);
            && ParseHttps(url) == Some(u)
            && BuildRedirectUrl(u.endpoint.host, u.endpoint.port, u.path, u.query) == url
            && BuildRedirectUrl(u.endpoint.host + PortSuffix(u.endpoint.port), u.endpoint.port, u.path, u.query) == url
  {
    RedirectRoundTrip(host, httpsPort, path, query);
    hide ParseHttps;
    var name := StripPort(host);
    StripsAgain(name, "");
    assert name + "" == name;
    assert PortSuffix(httpsPort) != "" ==> PortSuffix(httpsPort)[1..] == Digits(httpsPort);
    StripsAgain(name, PortSuffix(httpsPort));
    hide StripPort;
    assert PathPart(PathPart(path)) == PathPart(path);
  }

  lemma StripsAgain(name: string, suffix: string)
    requires IsAuthorityHost(name) && IsPortSuffix(suffix)
    ensures StripPort(name + suffix) == name
  {
    if StartsWith(name, '[') {
      var inner := name[1..|name| - 1];
      assert name == "[" + inner + "]";
      StripPortBracketed(inner, suffix);
    } else {
      StripPortPlain(name, suffix);
    }
  }
}
