/** How many errors of the counted kinds `validate` reports, and what allowing wildcard binds changes. */
module ErrorCounts {
  import opened Text
  import opened Config
  import opened Hostnames
  import opened Validation
  import opened Sets

  datatype Kind = DuplicateHttps | DuplicateHttp | DuplicateHost | Wildcard | Other

  function KindOf(e: ValidationError): Kind {
    match e
    case DuplicateHttpsBind(_, _) => DuplicateHttps
    case DuplicateHttpBind(_, _) => DuplicateHttp
    case DuplicateSiteHost(_) => DuplicateHost
    case WildcardBindNotAllowed(_) => Wildcard
    case _ => Other
  }

  /** A list of errors: how many of each duplicate kind, and the list without its wildcard errors. */
  datatype Summary = Summary(https: nat, http: nat, host: nat, others: Errors)

  function Pushed(s: Summary, failed: bool, e: ValidationError): Summary {
    if !failed then s
    else
      match KindOf(e)
      case DuplicateHttps => s.(https := s.https + 1, others := s.others + [e])
      case DuplicateHttp => s.(http := s.http + 1, others := s.others + [e])
      case DuplicateHost => s.(host := s.host + 1, others := s.others + [e])
      case Wildcard => s
      case Other => s.(others := s.others + [e])
  }

  function SummarizeFirst(errors: Errors, n: nat): Summary
    requires n <= |errors|
  {
    if n == 0 then Summary(0, 0, 0, []) else Pushed(SummarizeFirst(errors, n - 1), true, errors[n - 1])
  }

  function Summarize(errors: Errors): Summary {
    SummarizeFirst(errors, |errors|)
  }

  lemma {:induction false} SummarizePrefix(errors: Errors, e: ValidationError, n: nat)
    requires n <= |errors|
    ensures SummarizeFirst(errors + [e], n) == SummarizeFirst(errors, n)
  {
    if n > 0 {
      SummarizePrefix(errors, e, n - 1);
    }
  }

  lemma PushEffect(errors: Errors, failed: bool, e: ValidationError)
    ensures Summarize(Push(errors, failed, e)) == Pushed(Summarize(errors), failed, e)
  {
    SummarizePrefix(errors, e, |errors|);
  }

  lemma TlsNeutral(errors: Errors, l: ListenerConfig, o: Oracle)
    ensures Summarize(TlsErrors(errors, l, o))
         == Summarize(errors).(others := TlsErrors(Summarize(errors).others, l, o))
  {
    hide Summarize;
    if l.tls.mode == "acme" {
      PushEffect(errors, l.tls.acmeDomains == [], AcmeDomainsEmpty(l.bindAddr));
      var e := Push(errors, l.tls.acmeDomains == [], AcmeDomainsEmpty(l.bindAddr));
      PushEffect(e, !ContactOk(l.tls.acmeContact), AcmeContactInvalid(l.bindAddr));
    } else if l.tls.mode == "manual" {
      PushEffect(errors, true, ManualCertMissing(l.bindAddr));
      var e := Push(errors, !o.fileExists(l.tls.certPath), CertPathNotReadable(l.bindAddr, l.tls.certPath));
      PushEffect(errors, !o.fileExists(l.tls.certPath), CertPathNotReadable(l.bindAddr, l.tls.certPath));
      PushEffect(e, !o.fileExists(l.tls.keyPath), KeyPathNotReadable(l.bindAddr, l.tls.keyPath));
    }
  }

  lemma PortNeutral(errors: Errors, l: ListenerConfig, o: Oracle)
    ensures Summarize(PortErrors(errors, l, o))
         == Summarize(errors).(others := PortErrors(Summarize(errors).others, l, o))
  {
    hide Summarize;
    var e := Push(errors, l.httpsPort == 0, HttpsPortInvalid(l.bindAddr, l.httpsPort));
    PushEffect(errors, l.httpsPort == 0, HttpsPortInvalid(l.bindAddr, l.httpsPort));
    PushEffect(e, l.httpPort > 0 && l.httpPort == l.httpsPort,
               HttpsAndHttpPortSame(l.bindAddr, l.httpPort, l.httpsPort));
  }

  lemma ListenerEffect(errors: Errors, l: ListenerConfig, https: set<BindKey>, http: set<BindKey>, allow: bool, o: Oracle)
    ensures var s := Summarize(errors);
            Summarize(ListenerErrors(errors, l, https, http, allow, o))
            == Summary(s.https + (if HttpsKey(l) in https then 1 else 0),
                       s.http + (if l.httpPort > 0 && HttpKey(l) in http then 1 else 0),
                       s.host,
                       ListenerErrors(s.others, l, https, http, true, o))
  {
    hide Summarize;
    var e1 := Push(errors, l.bindAddr == "0.0.0.0" && !allow, WildcardBindNotAllowed(l.bindAddr));
    PushEffect(errors, l.bindAddr == "0.0.0.0" && !allow, WildcardBindNotAllowed(l.bindAddr));
    var e2 := Push(e1, HttpsKey(l) in https, DuplicateHttpsBind(l.bindAddr, l.httpsPort));
    PushEffect(e1, HttpsKey(l) in https, DuplicateHttpsBind(l.bindAddr, l.httpsPort));
    var e3 := Push(e2, l.httpPort > 0 && HttpKey(l) in http, DuplicateHttpBind(l.bindAddr, l.httpPort));
    PushEffect(e2, l.httpPort > 0 && HttpKey(l) in http, DuplicateHttpBind(l.bindAddr, l.httpPort));
    PortNeutral(e3, l, o);
    TlsNeutral(PortErrors(e3, l, o), l, o);
  }

  /** Listeners that bind an HTTP port at all. */
  function WithHttp(ls: seq<ListenerConfig>): nat {
    if ls == [] then 0 else WithHttp(ls[..|ls| - 1]) + if ls[|ls| - 1].httpPort > 0 then 1 else 0
  }

  lemma KeysGrow(ls: seq<ListenerConfig>)
    requires ls != []
    ensures var init, l := ls[..|ls| - 1], ls[|ls| - 1];
            && |HttpsKeys(ls)| == |HttpsKeys(init)| + (if HttpsKey(l) in HttpsKeys(init) then 0 else 1)
            && |HttpKeys(ls)| == |HttpKeys(init)| + (if l.httpPort == 0 || HttpKey(l) in HttpKeys(init) then 0 else 1)
  {
    hide HttpsKeys;
    hide HttpKeys;
    var init, l := ls[..|ls| - 1], ls[|ls| - 1];
    assert ls == init + [l];
    KeysSnoc(init, l);
    OneAdded(HttpsKeys(init), HttpsKey(l));
    OneAdded(HttpKeys(init), HttpKey(l));
    assert HttpKeys(init) + {} == HttpKeys(init);
  }

  lemma {:induction false} ListenersEffect(errors: Errors, ls: seq<ListenerConfig>, allow: bool, o: Oracle)
    ensures var s := Summarize(errors);
            && |HttpsKeys(ls)| <= |ls| && |HttpKeys(ls)| <= WithHttp(ls)
            && Summarize(AllListenerErrors(errors, ls, allow, o))
               == Summary(s.https + |ls| - |HttpsKeys(ls)|,
                          s.http + WithHttp(ls) - |HttpKeys(ls)|,
                          s.host,
                          AllListenerErrors(s.others, ls, true, o))
  {
    hide Summarize;
    hide ListenerErrors;
    if ls != [] {
      var init, last := ls[..|ls| - 1], ls[|ls| - 1];
      ListenersEffect(errors, init, allow, o);
      ListenerEffect(AllListenerErrors(errors, init, allow, o), last, HttpsKeys(init), HttpKeys(init), allow, o);
      KeysGrow(ls);
    }
  }

  lemma {:induction false} HealthNeutral(errors: Errors, ls: seq<ListenerConfig>, port: nat)
    ensures Summarize(HealthErrors(errors, ls, port))
         == Summarize(errors).(others := HealthErrors(Summarize(errors).others, ls, port))
  {
    hide Summarize;
    if ls != [] {
      var init, l := ls[..|ls| - 1], ls[|ls| - 1];
      HealthNeutral(errors, init, port);
      var e1 := HealthErrors(errors, init, port);
      var e2 := Push(e1, port == l.httpsPort, HealthCheckPortConflict(port, l.bindAddr, l.httpsPort));
      PushEffect(e1, port == l.httpsPort, HealthCheckPortConflict(port, l.bindAddr, l.httpsPort));
      PushEffect(e2, l.httpPort > 0 && port == l.httpPort, HealthCheckPortConflict(port, l.bindAddr, l.httpPort));
    }
  }

  lemma SitePresenceEffect(errors: Errors, s: SiteConfig, seen: set<string>)
    ensures var sum := Summarize(errors);
            Summarize(SitePresenceErrors(errors, s, seen))
            == sum.(host := sum.host + (if Lower(s.host) in seen then 1 else 0),
                    others := SitePresenceErrors(sum.others, s, seen))
  {
    hide Summarize;
    var e1 := Push(errors, s.host == "", SiteHostEmpty);
    PushEffect(errors, s.host == "", SiteHostEmpty);
    var e2 := Push(e1, s.upstream == "", SiteUpstreamEmpty(s.host));
    PushEffect(e1, s.upstream == "", SiteUpstreamEmpty(s.host));
    PushEffect(e2, Lower(s.host) in seen, DuplicateSiteHost(Lower(s.host)));
  }

  lemma SiteSyntaxNeutral(errors: Errors, s: SiteConfig, o: Oracle)
    ensures Summarize(SiteSyntaxErrors(errors, s, o))
         == Summarize(errors).(others := SiteSyntaxErrors(Summarize(errors).others, s, o))
  {
    hide Summarize;
    var e1 := Push(errors, ':' in s.host, SiteHostContainsPort(s.host));
    PushEffect(errors, ':' in s.host, SiteHostContainsPort(s.host));
    var e2 := Push(e1, !ValidHostname(s.host, o), SiteHostInvalid(s.host));
    PushEffect(e1, !ValidHostname(s.host, o), SiteHostInvalid(s.host));
    var upstreamBad := s.upstream != "" && !ValidUpstream(s.upstream, o);
    var e3 := Push(e2, upstreamBad, UpstreamInvalid(s.host, s.upstream));
    PushEffect(e2, upstreamBad, UpstreamInvalid(s.host, s.upstream));
    PushEffect(e3, s.upstreamScheme != "http" && s.upstreamScheme != "https",
               UpstreamSchemeInvalid(s.host, s.upstreamScheme));
  }

  lemma {:induction false} SitesEffect(errors: Errors, sites: seq<SiteConfig>, o: Oracle)
    ensures var s := Summarize(errors);
            && |HostsOf(sites)| <= |sites|
            && Summarize(AllSiteErrors(errors, sites, o))
               == s.(host := s.host + |sites| - |HostsOf(sites)|, others := AllSiteErrors(s.others, sites, o))
  {
    hide Summarize;
    hide SitePresenceErrors;
    hide SiteSyntaxErrors;
    if sites != [] {
      var init, last := sites[..|sites| - 1], sites[|sites| - 1];
      SitesEffect(errors, init, o);
      var before := AllSiteErrors(errors, init, o);
      SitePresenceEffect(before, last, HostsOf(init));
      SiteSyntaxNeutral(SitePresenceErrors(before, last, HostsOf(init)), last, o);
      HostsSnoc(init, last);
      assert sites == init + [last];
      OneAdded(HostsOf(init), Lower(last.host));
    }
  }

  lemma AdminNeutral(errors: Errors, path: string)
    ensures Summarize(AdminPathErrors(errors, path))
         == Summarize(errors).(others := AdminPathErrors(Summarize(errors).others, path))
  {
    hide Summarize;
    PushEffect(errors, true, AdminKeyPathNotAbsolute(path));
    PushEffect(errors, Contains(path, ".."), AdminKeyPathTraversal(path));
  }

  lemma LimitsNeutral(errors: Errors, s: StaticConfig)
    ensures Summarize(LimitErrors(errors, s)) == Summarize(errors).(others := LimitErrors(Summarize(errors).others, s))
  {
    hide Summarize;
    var e1 := Push(errors, s.connectionIdleTimeoutSecs == 0, ConnectionIdleTimeoutZero);
    PushEffect(errors, s.connectionIdleTimeoutSecs == 0, ConnectionIdleTimeoutZero);
    var e2 := Push(e1, s.tlsHandshakeTimeoutSecs == 0, TlsHandshakeTimeoutZero);
    PushEffect(e1, s.tlsHandshakeTimeoutSecs == 0, TlsHandshakeTimeoutZero);
    PushEffect(e2, s.maxConnections == 0, MaxConnectionsZero);
  }

  lemma ScalarsNeutral(errors: Errors, s: StaticConfig, d: DynamicConfig)
    ensures Summarize(ScalarErrors(errors, s, d))
         == Summarize(errors).(others := ScalarErrors(Summarize(errors).others, s, d))
  {
    hide Summarize;
    var e1 := Push(errors, d.rateLimit.requestsPerSecond == 0, RequestsPerSecondZero);
    PushEffect(errors, d.rateLimit.requestsPerSecond == 0, RequestsPerSecondZero);
    var e2 := Push(e1, d.body.limitBytes == 0, BodyLimitBytesZero);
    PushEffect(e1, d.body.limitBytes == 0, BodyLimitBytesZero);
    AdminNeutral(e2, s.adminKeyPath);
    LimitsNeutral(AdminPathErrors(e2, s.adminKeyPath), s);
  }

  /** There are as many duplicate errors as keys beyond the distinct ones: HTTPS bind keys, HTTP bind
      keys of the listeners that bind one, and site hosts up to case across all listeners. The
      command-line flag only removes errors: with it the list is the same without the wildcard ones. */
  lemma ErrorsSummarized(s: StaticConfig, d: DynamicConfig, cliAllow: bool, o: Oracle)
    ensures var sum := Summarize(AllErrors(s, d, cliAllow, o));
            var sites := SitesOf(s.listeners);
            && sum.https + |HttpsKeys(s.listeners)| == |s.listeners|
            && sum.http + |HttpKeys(s.listeners)| == WithHttp(s.listeners)
            && sum.host + |HostsOf(sites)| == |sites|
            && sum.others == AllErrors(s, d, true, o)
  {
    hide ScalarErrors;
    var e1 := Push([], s.listeners == [], NoListeners);
    PushEffect([], s.listeners == [], NoListeners);
    ListenersEffect(e1, s.listeners, s.allowWildcardBind || cliAllow, o);
    var e2 := AllListenerErrors(e1, s.listeners, s.allowWildcardBind || cliAllow, o);
    HealthNeutral(e2, s.listeners, s.healthCheckPort);
    var e3 := if s.healthCheckPort > 0 then HealthErrors(e2, s.listeners, s.healthCheckPort) else e2;
    SitesEffect(e3, SitesOf(s.listeners), o);
    ScalarsNeutral(AllSiteErrors(e3, SitesOf(s.listeners), o), s, d);
  }
}
