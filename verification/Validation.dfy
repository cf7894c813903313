/** `validate` of src/config/validation.rs: the errors it collects, and what it means that there are
    none. */
module Validation {
  import opened Text
  import opened Config
  import opened Hostnames

  datatype ValidationError =
    | NoListeners
    | WildcardBindNotAllowed(bindAddr: string)
    | DuplicateHttpsBind(bindAddr: string, httpsPort: nat)
    | DuplicateHttpBind(bindAddr: string, httpPort: nat)
    | HttpsPortInvalid(bindAddr: string, httpsPort: nat)
    | HttpsAndHttpPortSame(bindAddr: string, httpPort: nat, httpsPort: nat)
    | AcmeDomainsEmpty(bindAddr: string)
    | AcmeContactInvalid(bindAddr: string)
    | ManualCertMissing(bindAddr: string)
    | CertPathNotReadable(bindAddr: string, path: string)
    | KeyPathNotReadable(bindAddr: string, path: string)
    | HealthCheckPortConflict(healthCheckPort: nat, bindAddr: string, port: nat)
    | SiteHostEmpty
    | SiteUpstreamEmpty(host: string)
    | DuplicateSiteHost(host: string)
    | SiteHostContainsPort(host: string)
    | SiteHostInvalid(host: string)
    | UpstreamInvalid(host: string, upstream: string)
    | UpstreamSchemeInvalid(host: string, scheme: string)
    | RequestsPerSecondZero
    | BodyLimitBytesZero
    | AdminKeyPathNotAbsolute(path: string)
    | AdminKeyPathTraversal(path: string)
    | ConnectionIdleTimeoutZero
    | TlsHandshakeTimeoutZero
    | MaxConnectionsZero

  type Errors = seq<ValidationError>

  type BindKey = (string, nat)

  /** `errors.push(e)`, if the check failed. */
  function Push(errors: Errors, failed: bool, e: ValidationError): Errors {
    if failed then errors + [e] else errors
  }

  // ----- the errors, listed: each function continues a list -----

  function HttpsKey(l: ListenerConfig): BindKey {
    (l.bindAddr, l.httpsPort)
  }

  function HttpKey(l: ListenerConfig): BindKey {
    (l.bindAddr, l.httpPort)
  }

  function HttpsKeys(ls: seq<ListenerConfig>): set<BindKey> {
    set l | l in ls :: HttpsKey(l)
  }

  function HttpKeys(ls: seq<ListenerConfig>): set<BindKey> {
    set l | l in ls && l.httpPort > 0 :: HttpKey(l)
  }

  predicate ContactOk(contact: string) {
    "mailto:" <= contact && contact[7..] != "" && '@' in contact[7..]
  }

  function TlsErrors(errors: Errors, l: ListenerConfig, o: Oracle): Errors {
    if l.tls.mode == "acme" then
      var e := Push(errors, l.tls.acmeDomains == [], AcmeDomainsEmpty(l.bindAddr));
      Push(e, !ContactOk(l.tls.acmeContact), AcmeContactInvalid(l.bindAddr))
    else if l.tls.mode == "manual" then
      if l.tls.certPath == "" || l.tls.keyPath == "" then errors + [ManualCertMissing(l.bindAddr)]
      else
        var e := Push(errors, !o.fileExists(l.tls.certPath), CertPathNotReadable(l.bindAddr, l.tls.certPath));
        Push(e, !o.fileExists(l.tls.keyPath), KeyPathNotReadable(l.bindAddr, l.tls.keyPath))
    else errors
  }

  function PortErrors(errors: Errors, l: ListenerConfig, o: Oracle): Errors {
    var e := Push(errors, l.httpsPort == 0, HttpsPortInvalid(l.bindAddr, l.httpsPort));
    Push(e, l.httpPort > 0 && l.httpPort == l.httpsPort,
         HttpsAndHttpPortSame(l.bindAddr, l.httpPort, l.httpsPort))
  }

  function ListenerErrors(errors: Errors, l: ListenerConfig, https: set<BindKey>, http: set<BindKey>,
                          allow: bool, o: Oracle): Errors
  {
    var e1 := Push(errors, l.bindAddr == "0.0.0.0" && !allow, WildcardBindNotAllowed(l.bindAddr));
    var e2 := Push(e1, HttpsKey(l) in https, DuplicateHttpsBind(l.bindAddr, l.httpsPort));
    var e3 := Push(e2, l.httpPort > 0 && HttpKey(l) in http, DuplicateHttpBind(l.bindAddr, l.httpPort));
    TlsErrors(PortErrors(e3, l, o), l, o)
  }

  function AllListenerErrors(errors: Errors, ls: seq<ListenerConfig>, allow: bool, o: Oracle): Errors {
    if ls == [] then errors
    else
      var init := ls[..|ls| - 1];
      ListenerErrors(AllListenerErrors(errors, init, allow, o), ls[|ls| - 1], HttpsKeys(init), HttpKeys(init), allow, o)
  }

  function HealthErrors(errors: Errors, ls: seq<ListenerConfig>, port: nat): Errors {
    if ls == [] then errors
    else
      var l := ls[|ls| - 1];
      var e := Push(HealthErrors(errors, ls[..|ls| - 1], port), port == l.httpsPort,
                    HealthCheckPortConflict(port, l.bindAddr, l.httpsPort));
      Push(e, l.httpPort > 0 && port == l.httpPort, HealthCheckPortConflict(port, l.bindAddr, l.httpPort))
  }

  function HostsOf(sites: seq<SiteConfig>): set<string> {
    set s | s in sites :: Lower(s.host)
  }

  function SitePresenceErrors(errors: Errors, s: SiteConfig, seen: set<string>): Errors {
    var e1 := Push(errors, s.host == "", SiteHostEmpty);
    var e2 := Push(e1, s.upstream == "", SiteUpstreamEmpty(s.host));
    Push(e2, Lower(s.host) in seen, DuplicateSiteHost(Lower(s.host)))
  }

  ghost function SiteSyntaxErrors(errors: Errors, s: SiteConfig, o: Oracle): Errors {
    var e1 := Push(errors, ':' in s.host, SiteHostContainsPort(s.host));
    var e2 := Push(e1, !ValidHostname(s.host, o), SiteHostInvalid(s.host));
    var e3 := Push(e2, s.upstream != "" && !ValidUpstream(s.upstream, o), UpstreamInvalid(s.host, s.upstream));
    Push(e3, s.upstreamScheme != "http" && s.upstreamScheme != "https", UpstreamSchemeInvalid(s.host, s.upstreamScheme))
  }

  ghost function SiteErrors(errors: Errors, s: SiteConfig, seen: set<string>, o: Oracle): Errors {
    SiteSyntaxErrors(SitePresenceErrors(errors, s, seen), s, o)
  }

  ghost function AllSiteErrors(errors: Errors, sites: seq<SiteConfig>, o: Oracle): Errors {
    if sites == [] then errors
    else
      var init := sites[..|sites| - 1];
      SiteErrors(AllSiteErrors(errors, init, o), sites[|sites| - 1], HostsOf(init), o)
  }

  function AdminPathErrors(errors: Errors, path: string): Errors {
    if path == "" then errors
    else if !StartsWith(path, '/') then errors + [AdminKeyPathNotAbsolute(path)]
    else Push(errors, Contains(path, ".."), AdminKeyPathTraversal(path))
  }

  function LimitErrors(errors: Errors, s: StaticConfig): Errors {
    var e1 := Push(errors, s.connectionIdleTimeoutSecs == 0, ConnectionIdleTimeoutZero);
    var e2 := Push(e1, s.tlsHandshakeTimeoutSecs == 0, TlsHandshakeTimeoutZero);
    Push(e2, s.maxConnections == 0, MaxConnectionsZero)
  }

  function ScalarErrors(errors: Errors, s: StaticConfig, d: DynamicConfig): Errors {
    var e1 := Push(errors, d.rateLimit.requestsPerSecond == 0, RequestsPerSecondZero);
    var e2 := Push(e1, d.body.limitBytes == 0, BodyLimitBytesZero);
    LimitErrors(AdminPathErrors(e2, s.adminKeyPath), s)
  }

  /** Everything `validate` reports, in its order. */
  ghost function AllErrors(s: StaticConfig, d: DynamicConfig, cliAllow: bool, o: Oracle): Errors {
    var e1 := Push([], s.listeners == [], NoListeners);
    var e2 := AllListenerErrors(e1, s.listeners, s.allowWildcardBind || cliAllow, o);
    var e3 := if s.healthCheckPort > 0 then HealthErrors(e2, s.listeners, s.healthCheckPort) else e2;
    var e4 := AllSiteErrors(e3, SitesOf(s.listeners), o);
    ScalarErrors(e4, s, d)
  }

  // ----- the procedure -----

  method CheckTls(before: Errors, l: ListenerConfig, o: Oracle) returns (errors: Errors)
    ensures errors == TlsErrors(before, l, o)
  {
    errors := before;
    if l.tls.mode == "acme" {
      if l.tls.acmeDomains == [] {
        errors := errors + [AcmeDomainsEmpty(l.bindAddr)];
      }
      var contact := l.tls.acmeContact;
      if contact == "" || !("mailto:" <= contact) {
        errors := errors + [AcmeContactInvalid(l.bindAddr)];
      } else {
        var email := contact[7..];
        if email == "" || '@' !in email {
          errors := errors + [AcmeContactInvalid(l.bindAddr)];
        }
      }
    } else if l.tls.mode == "manual" {
      if l.tls.certPath == "" || l.tls.keyPath == "" {
        errors := errors + [ManualCertMissing(l.bindAddr)];
      } else {
        if !o.fileExists(l.tls.certPath) {
          errors := errors + [CertPathNotReadable(l.bindAddr, l.tls.certPath)];
        }
        if !o.fileExists(l.tls.keyPath) {
          errors := errors + [KeyPathNotReadable(l.bindAddr, l.tls.keyPath)];
        }
      }
    }
  }

  method CheckListener(before: Errors, l: ListenerConfig, https: set<BindKey>, http: set<BindKey>,
                       allow: bool, o: Oracle) returns (errors: Errors)
    ensures errors == ListenerErrors(before, l, https, http, allow, o)
  {
    errors := before;
    if l.bindAddr == "0.0.0.0" && !allow {
      errors := errors + [WildcardBindNotAllowed(l.bindAddr)];
    }
    if HttpsKey(l) in https {
      errors := errors + [DuplicateHttpsBind(l.bindAddr, l.httpsPort)];
    }
    if l.httpPort > 0 {
      if HttpKey(l) in http {
        errors := errors + [DuplicateHttpBind(l.bindAddr, l.httpPort)];
      }
    }
    if l.httpsPort == 0 {
      errors := errors + [HttpsPortInvalid(l.bindAddr, l.httpsPort)];
    }
    if l.httpPort > 0 && l.httpPort == l.httpsPort {
      errors := errors + [HttpsAndHttpPortSame(l.bindAddr, l.httpPort, l.httpsPort)];
    }
    errors := CheckTls(errors, l, o);
  }

  lemma KeysSnoc(ls: seq<ListenerConfig>, l: ListenerConfig)
    ensures HttpsKeys(ls + [l]) == HttpsKeys(ls) + {HttpsKey(l)}
    ensures HttpKeys(ls + [l]) == HttpKeys(ls) + if l.httpPort > 0 then {HttpKey(l)} else {}
  {
  }

  lemma HostsSnoc(sites: seq<SiteConfig>, s: SiteConfig)
    ensures HostsOf(sites + [s]) == HostsOf(sites) + {Lower(s.host)}
  {
  }

  lemma TakeSnoc<T>(xs: seq<T>, k: nat)
    requires k < |xs|
    ensures xs[..k + 1] == xs[..k] + [xs[k]]
    ensures xs[..k + 1][..k] == xs[..k]
  {
  }

  method CheckListeners(before: Errors, ls: seq<ListenerConfig>, allow: bool, o: Oracle) returns (errors: Errors)
    ensures errors == AllListenerErrors(before, ls, allow, o)
  {
    errors := before;
    var https: set<BindKey>, http: set<BindKey> := {}, {};
    for k := 0 to |ls|
      invariant errors == AllListenerErrors(before, ls[..k], allow, o)
      invariant https == HttpsKeys(ls[..k]) && http == HttpKeys(ls[..k])
    {
      errors := CheckListener(errors, ls[k], https, http, allow, o);
      https := https + {HttpsKey(ls[k])};
      if ls[k].httpPort > 0 {
        http := http + {HttpKey(ls[k])};
      }
      TakeSnoc(ls, k);
      KeysSnoc(ls[..k], ls[k]);
    }
    assert ls[..|ls|] == ls;
  }

  method CheckHealthPort(before: Errors, ls: seq<ListenerConfig>, port: nat) returns (errors: Errors)
    ensures errors == HealthErrors(before, ls, port)
  {
    errors := before;
    for k := 0 to |ls|
      invariant errors == HealthErrors(before, ls[..k], port)
    {
      if port == ls[k].httpsPort {
        errors := errors + [HealthCheckPortConflict(port, ls[k].bindAddr, ls[k].httpsPort)];
      }
      if ls[k].httpPort > 0 && port == ls[k].httpPort {
        errors := errors + [HealthCheckPortConflict(port, ls[k].bindAddr, ls[k].httpPort)];
      }
      TakeSnoc(ls, k);
    }
    assert ls[..|ls|] == ls;
  }

  method CheckSite(before: Errors, s: SiteConfig, seen: set<string>, o: Oracle) returns (errors: Errors)
    ensures errors == SiteErrors(before, s, seen, o)
  {
    errors := before;
    if s.host == "" {
      errors := errors + [SiteHostEmpty];
    }
    if s.upstream == "" {
      errors := errors + [SiteUpstreamEmpty(s.host)];
    }
    if Lower(s.host) in seen {
      errors := errors + [DuplicateSiteHost(Lower(s.host))];
    }
    if ':' in s.host {
      errors := errors + [SiteHostContainsPort(s.host)];
    }
    var hostOk := IsValidHostname(s.host, o);
    if !hostOk {
      errors := errors + [SiteHostInvalid(s.host)];
    }
    if s.upstream != "" {
      var upstreamOk := IsValidUpstream(s.upstream, o);
      if !upstreamOk {
        errors := errors + [UpstreamInvalid(s.host, s.upstream)];
      }
    }
    if s.upstreamScheme != "http" && s.upstreamScheme != "https" {
      errors := errors + [UpstreamSchemeInvalid(s.host, s.upstreamScheme)];
    }
  }

  lemma SiteErrorsSnoc(errors: Errors, sites: seq<SiteConfig>, s: SiteConfig, o: Oracle)
    ensures AllSiteErrors(errors, sites + [s], o)
         == SiteErrors(AllSiteErrors(errors, sites, o), s, HostsOf(sites), o)
  {
  }

  /** The sites of one listener, after those of the listeners `done` comes from. */
  method CheckSitesOfListener(before: Errors, ghost start: Errors, ghost done: seq<SiteConfig>, sites: seq<SiteConfig>,
                              seenBefore: set<string>, o: Oracle) returns (errors: Errors, seen: set<string>)
    requires before == AllSiteErrors(start, done, o) && seenBefore == HostsOf(done)
    ensures errors == AllSiteErrors(start, done + sites, o) && seen == HostsOf(done + sites)
  {
    hide SiteErrors;
    errors, seen := before, seenBefore;
    assert done + sites[..0] == done;
    for j := 0 to |sites|
      invariant errors == AllSiteErrors(start, done + sites[..j], o)
      invariant seen == HostsOf(done + sites[..j])
    {
      errors := CheckSite(errors, sites[j], seen, o);
      seen := seen + {Lower(sites[j].host)};
      ghost var visited := done + sites[..j];
      assert done + sites[..j + 1] == visited + [sites[j]];
      SiteErrorsSnoc(start, visited, sites[j], o);
      HostsSnoc(visited, sites[j]);
    }
    assert sites[..|sites|] == sites;
  }

  method CheckSites(before: Errors, ls: seq<ListenerConfig>, o: Oracle) returns (errors: Errors)
    ensures errors == AllSiteErrors(before, SitesOf(ls), o)
  {
    errors := before;
    var seen: set<string> := {};
    for k := 0 to |ls|
      invariant errors == AllSiteErrors(before, SitesOf(ls[..k]), o)
      invariant seen == HostsOf(SitesOf(ls[..k]))
    {
      errors, seen := CheckSitesOfListener(errors, before, SitesOf(ls[..k]), ls[k].sites, seen, o);
      TakeSnoc(ls, k);
    }
    assert ls[..|ls|] == ls;
  }

  method CheckScalars(before: Errors, s: StaticConfig, d: DynamicConfig) returns (errors: Errors)
    ensures errors == ScalarErrors(before, s, d)
  {
    errors := before;
    if d.rateLimit.requestsPerSecond == 0 {
      errors := errors + [RequestsPerSecondZero];
    }
    if d.body.limitBytes == 0 {
      errors := errors + [BodyLimitBytesZero];
    }
    if s.adminKeyPath != "" {
      if !StartsWith(s.adminKeyPath, '/') {
        errors := errors + [AdminKeyPathNotAbsolute(s.adminKeyPath)];
      } else if Contains(s.adminKeyPath, "..") {
        errors := errors + [AdminKeyPathTraversal(s.adminKeyPath)];
      }
    }
    if s.connectionIdleTimeoutSecs == 0 {
      errors := errors + [ConnectionIdleTimeoutZero];
    }
    if s.tlsHandshakeTimeoutSecs == 0 {
      errors := errors + [TlsHandshakeTimeoutZero];
    }
    if s.maxConnections == 0 {
      errors := errors + [MaxConnectionsZero];
    }
  }

  /** Returns no error exactly when the configuration satisfies the declarative rules, and otherwise
      every error there is. */
  method Validate(s: StaticConfig, d: DynamicConfig, cliAllow: bool, o: Oracle) returns (errors: Errors)
    ensures errors == AllErrors(s, d, cliAllow, o)
    ensures errors == [] <==> ValidConfig(s, d, cliAllow, o)
  {
    errors := [];
    var allow := s.allowWildcardBind || cliAllow;
    if s.listeners == [] {
      errors := errors + [NoListeners];
    }
    errors := CheckListeners(errors, s.listeners, allow, o);
    if s.healthCheckPort > 0 {
      errors := CheckHealthPort(errors, s.listeners, s.healthCheckPort);
    }
    errors := CheckSites(errors, s.listeners, o);
    errors := CheckScalars(errors, s, d);
    ValidationExact(s, d, cliAllow, o);
  }

  // ----- the declarative rules -----

  predicate TlsOk(l: ListenerConfig, o: Oracle) {
    && (l.tls.mode == "acme" ==> l.tls.acmeDomains != [] && ContactOk(l.tls.acmeContact))
    && (l.tls.mode == "manual" ==>
          && l.tls.certPath != "" && l.tls.keyPath != ""
          && o.fileExists(l.tls.certPath) && o.fileExists(l.tls.keyPath))
  }

  predicate ListenerOk(l: ListenerConfig, allow: bool, o: Oracle) {
    && (l.bindAddr == "0.0.0.0" ==> allow)
    && 0 < l.httpsPort
    && l.httpPort != l.httpsPort
    && TlsOk(l, o)
  }

  ghost predicate ListenersOk(ls: seq<ListenerConfig>, allow: bool, o: Oracle) {
    && (forall i :: 0 <= i < |ls| ==> ListenerOk(ls[i], allow, o))
    && (forall i, j :: 0 <= i < j < |ls| ==> HttpsKey(ls[i]) != HttpsKey(ls[j]))
    && (forall i, j :: 0 <= i < j < |ls| && ls[i].httpPort > 0 ==> HttpKey(ls[i]) != HttpKey(ls[j]))
  }

  ghost predicate SiteOk(s: SiteConfig, o: Oracle) {
    && ValidHostname(s.host, o)
    && ValidUpstream(s.upstream, o)
    && (s.upstreamScheme == "http" || s.upstreamScheme == "https")
  }

  ghost predicate UniqueHosts(sites: seq<SiteConfig>) {
    forall i, j :: 0 <= i < j < |sites| ==> Lower(sites[i].host) != Lower(sites[j].host)
  }

  ghost predicate SitesOk(sites: seq<SiteConfig>, o: Oracle) {
    (forall i :: 0 <= i < |sites| ==> SiteOk(sites[i], o)) && UniqueHosts(sites)
  }

  ghost predicate HealthOk(ls: seq<ListenerConfig>, port: nat) {
    forall i :: 0 <= i < |ls| ==> port != ls[i].httpsPort && port != ls[i].httpPort
  }

  ghost predicate ScalarsOk(s: StaticConfig, d: DynamicConfig) {
    && 0 < d.rateLimit.requestsPerSecond
    && 0 < d.body.limitBytes
    && (s.adminKeyPath != "" ==> StartsWith(s.adminKeyPath, '/') && !Contains(s.adminKeyPath, ".."))
    && 0 < s.connectionIdleTimeoutSecs
    && 0 < s.tlsHandshakeTimeoutSecs
    && 0 < s.maxConnections
  }

  ghost predicate ValidConfig(s: StaticConfig, d: DynamicConfig, cliAllow: bool, o: Oracle) {
    && s.listeners != []
    && ListenersOk(s.listeners, s.allowWildcardBind || cliAllow, o)
    && (0 < s.healthCheckPort ==> HealthOk(s.listeners, s.healthCheckPort))
    && SitesOk(SitesOf(s.listeners), o)
    && ScalarsOk(s, d)
  }

  lemma ListenerExact(errors: Errors, l: ListenerConfig, https: set<BindKey>, http: set<BindKey>, allow: bool, o: Oracle)
    ensures ListenerErrors(errors, l, https, http, allow, o) == []
       <==> && errors == [] && ListenerOk(l, allow, o)
            && HttpsKey(l) !in https && (l.httpPort > 0 ==> HttpKey(l) !in http)
  {
  }

  lemma NewHttpsKey(ls: seq<ListenerConfig>, key: BindKey)
    ensures key !in HttpsKeys(ls) <==> forall i :: 0 <= i < |ls| ==> HttpsKey(ls[i]) != key
  {
  }

  lemma NewHttpKey(ls: seq<ListenerConfig>, key: BindKey)
    ensures key !in HttpKeys(ls) <==> forall i :: 0 <= i < |ls| && ls[i].httpPort > 0 ==> HttpKey(ls[i]) != key
  {
  }

  lemma NewHost(sites: seq<SiteConfig>, host: string)
    ensures host !in HostsOf(sites) <==> forall i :: 0 <= i < |sites| ==> Lower(sites[i].host) != host
  {
  }

  lemma {:induction false} ListenersExact(errors: Errors, ls: seq<ListenerConfig>, allow: bool, o: Oracle)
    ensures AllListenerErrors(errors, ls, allow, o) == [] <==> errors == [] && ListenersOk(ls, allow, o)
  {
    hide ListenerErrors;
    if ls != [] {
      var init, last := ls[..|ls| - 1], ls[|ls| - 1];
      ListenersExact(errors, init, allow, o);
      ListenerExact(AllListenerErrors(errors, init, allow, o), last, HttpsKeys(init), HttpKeys(init), allow, o);
      NewHttpsKey(init, HttpsKey(last));
      NewHttpKey(init, HttpKey(last));
      ListenersOkSnoc(init, last, allow, o);
      assert ls == init + [last];
    }
  }

  lemma ListenersOkSnoc(init: seq<ListenerConfig>, last: ListenerConfig, allow: bool, o: Oracle)
    ensures ListenersOk(init + [last], allow, o)
       <==> && ListenersOk(init, allow, o) && ListenerOk(last, allow, o)
            && (forall i :: 0 <= i < |init| ==> HttpsKey(init[i]) != HttpsKey(last))
            && (forall i :: 0 <= i < |init| && init[i].httpPort > 0 ==> HttpKey(init[i]) != HttpKey(last))
  {
    var ls := init + [last];
    assert forall i :: 0 <= i < |init| ==> ls[i] == init[i];
    assert ls[|init|] == last;
  }

  lemma SiteSyntaxExact(errors: Errors, s: SiteConfig, o: Oracle)
    requires s.upstream != ""
    ensures SiteSyntaxErrors(errors, s, o) == [] <==> errors == [] && SiteOk(s, o)
  {
    if ValidHostname(s.host, o) {
      HostnameShape(s.host, o);
      assert ':' !in s.host;
    }
    hide ValidHostname;
    hide ValidUpstream;
  }

  lemma NoUpstream(o: Oracle)
    ensures !ValidUpstream("", o)
  {
  }

  lemma SiteExact(errors: Errors, s: SiteConfig, seen: set<string>, o: Oracle)
    ensures SiteErrors(errors, s, seen, o) == [] <==> errors == [] && SiteOk(s, o) && Lower(s.host) !in seen
  {
    if ValidHostname(s.host, o) {
      HostnameShape(s.host, o);
    }
    NoUpstream(o);
    if s.upstream != "" {
      SiteSyntaxExact(SitePresenceErrors(errors, s, seen), s, o);
      hide SiteSyntaxErrors;
    }
    hide ValidHostname;
    hide ValidUpstream;
  }

  lemma SitesOkSnoc(init: seq<SiteConfig>, last: SiteConfig, o: Oracle)
    ensures SitesOk(init + [last], o)
       <==> && SitesOk(init, o) && SiteOk(last, o)
            && (forall i :: 0 <= i < |init| ==> Lower(init[i].host) != Lower(last.host))
  {
    var sites := init + [last];
    assert forall i :: 0 <= i < |init| ==> sites[i] == init[i];
    assert sites[|init|] == last;
  }

  lemma {:induction false} SitesExact(errors: Errors, sites: seq<SiteConfig>, o: Oracle)
    ensures AllSiteErrors(errors, sites, o) == [] <==> errors == [] && SitesOk(sites, o)
  {
    hide SiteErrors;
    if sites != [] {
      var init, last := sites[..|sites| - 1], sites[|sites| - 1];
      SitesExact(errors, init, o);
      SiteExact(AllSiteErrors(errors, init, o), last, HostsOf(init), o);
      NewHost(init, Lower(last.host));
      SitesOkSnoc(init, last, o);
      assert sites == init + [last];
    }
  }

  lemma {:induction false} HealthExact(errors: Errors, ls: seq<ListenerConfig>, port: nat)
    requires 0 < port
    ensures HealthErrors(errors, ls, port) == [] <==> errors == [] && HealthOk(ls, port)
  {
    if ls != [] {
      HealthExact(errors, ls[..|ls| - 1], port);
    }
  }

  lemma ScalarsExact(errors: Errors, s: StaticConfig, d: DynamicConfig)
    ensures ScalarErrors(errors, s, d) == [] <==> errors == [] && ScalarsOk(s, d)
  {
  }

  /** Validation is exact: no errors if and only if the configuration satisfies every rule. */
  lemma ValidationExact(s: StaticConfig, d: DynamicConfig, cliAllow: bool, o: Oracle)
    ensures AllErrors(s, d, cliAllow, o) == [] <==> ValidConfig(s, d, cliAllow, o)
  {
    var e1 := Push([], s.listeners == [], NoListeners);
    ListenersExact(e1, s.listeners, s.allowWildcardBind || cliAllow, o);
    var e2 := AllListenerErrors(e1, s.listeners, s.allowWildcardBind || cliAllow, o);
    if 0 < s.healthCheckPort {
      HealthExact(e2, s.listeners, s.healthCheckPort);
    }
    var e3 := if s.healthCheckPort > 0 then HealthErrors(e2, s.listeners, s.healthCheckPort) else e2;
    SitesExact(e3, SitesOf(s.listeners), o);
    var e4 := AllSiteErrors(e3, SitesOf(s.listeners), o);
    ScalarsExact(e4, s, d);
  }
}
