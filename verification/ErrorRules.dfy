/** Every error of `validate` names a rule of src/config/validation.rs, and is reported exactly when the
    configuration breaks that rule. */
module ErrorRules {
  import opened Text
  import opened Config
  import opened Hostnames
  import opened Validation

  // ----- the rules, stated on the configuration -----

  /** The listener alone breaks the rule. */
  ghost predicate ListenerBreaks(e: ValidationError, l: ListenerConfig, allow: bool, o: Oracle) {
    match e
    case WildcardBindNotAllowed(a) => l.bindAddr == a == "0.0.0.0" && !allow
    case HttpsPortInvalid(a, p) => l.bindAddr == a && l.httpsPort == p == 0
    case HttpsAndHttpPortSame(a, h, p) => l.bindAddr == a && l.httpPort == h && l.httpsPort == p && 0 < h == p
    case AcmeDomainsEmpty(a) => l.bindAddr == a && l.tls.mode == "acme" && l.tls.acmeDomains == []
    case AcmeContactInvalid(a) => l.bindAddr == a && l.tls.mode == "acme" && !IsMailto(l.tls.acmeContact)
    case ManualCertMissing(a) =>
      l.bindAddr == a && l.tls.mode == "manual" && (l.tls.certPath == "" || l.tls.keyPath == "")
    case CertPathNotReadable(a, path) =>
      l.bindAddr == a && l.tls.mode == "manual" && l.tls.certPath == path != "" && l.tls.keyPath != "" && !o.fileExists(path)
    case KeyPathNotReadable(a, path) =>
      l.bindAddr == a && l.tls.mode == "manual" && l.tls.keyPath == path != "" && l.tls.certPath != "" && !o.fileExists(path)
    case _ => false
  }

  /** A mail address behind its scheme. */
  ghost predicate IsMailto(contact: string) {
    exists email :: contact == "mailto:" + email && '@' in email
  }

  /** Two listeners bind one address and port. */
  ghost predicate ListenersClash(e: ValidationError, l: ListenerConfig, m: ListenerConfig) {
    match e
    case DuplicateHttpsBind(a, p) => l.bindAddr == m.bindAddr == a && l.httpsPort == m.httpsPort == p
    case DuplicateHttpBind(a, p) => l.bindAddr == m.bindAddr == a && 0 < l.httpPort == m.httpPort == p
    case _ => false
  }

  ghost predicate HealthBreaks(e: ValidationError, l: ListenerConfig, port: nat) {
    e.HealthCheckPortConflict? && 0 < port == e.healthCheckPort == e.port && l.bindAddr == e.bindAddr
    && (l.httpsPort == port || l.httpPort == port)
  }

  ghost predicate SiteBreaks(e: ValidationError, s: SiteConfig, o: Oracle) {
    match e
    case SiteHostEmpty => s.host == ""
    case SiteUpstreamEmpty(h) => s.host == h && s.upstream == ""
    case SiteHostContainsPort(h) => s.host == h && ':' in h
    case SiteHostInvalid(h) => s.host == h && !ValidHostname(h, o)
    case UpstreamInvalid(h, u) => s.host == h && s.upstream == u != "" && !ValidUpstream(u, o)
    case UpstreamSchemeInvalid(h, scheme) => s.host == h && s.upstreamScheme == scheme && scheme != "http" && scheme != "https"
    case _ => false
  }

  ghost predicate SitesClash(e: ValidationError, s: SiteConfig, t: SiteConfig) {
    e.DuplicateSiteHost? && Lower(s.host) == Lower(t.host) == e.host
  }

  ghost predicate ScalarBreaks(e: ValidationError, s: StaticConfig, d: DynamicConfig) {
    match e
    case RequestsPerSecondZero => d.rateLimit.requestsPerSecond == 0
    case BodyLimitBytesZero => d.body.limitBytes == 0
    case AdminKeyPathNotAbsolute(path) => s.adminKeyPath == path != "" && path[0] != '/'
    case AdminKeyPathTraversal(path) =>
      && s.adminKeyPath == path != "" && path[0] == '/'
      && exists i :: 0 < i < |path| && path[i - 1] == '.' == path[i]
    case ConnectionIdleTimeoutZero => s.connectionIdleTimeoutSecs == 0
    case TlsHandshakeTimeoutZero => s.tlsHandshakeTimeoutSecs == 0
    case MaxConnectionsZero => s.maxConnections == 0
    case _ => false
  }

  /** The rule that `e` names is broken. */
  ghost predicate Broken(e: ValidationError, s: StaticConfig, d: DynamicConfig, cliAllow: bool, o: Oracle) {
    var ls, sites := s.listeners, SitesOf(s.listeners);
    || (e.NoListeners? && ls == [])
    || (exists i :: 0 <= i < |ls| && ListenerBreaks(e, ls[i], s.allowWildcardBind || cliAllow, o))
    || (exists i, j :: 0 <= i < j < |ls| && ListenersClash(e, ls[i], ls[j]))
    || (exists i :: 0 <= i < |ls| && HealthBreaks(e, ls[i], s.healthCheckPort))
    || (exists i :: 0 <= i < |sites| && SiteBreaks(e, sites[i], o))
    || (exists i, j :: 0 <= i < j < |sites| && SitesClash(e, sites[i], sites[j]))
    || ScalarBreaks(e, s, d)
  }

  // ----- the errors against the rules -----

  lemma MailtoIff(contact: string)
    ensures ContactOk(contact) <==> IsMailto(contact)
  {
    if ContactOk(contact) {
      assert contact == "mailto:" + contact[7..];
    }
    forall email | contact == "mailto:" + email && '@' in email
      ensures ContactOk(contact)
    {
      assert contact[7..] == email;
    }
  }

  lemma TlsMember(e: ValidationError, errors: Errors, l: ListenerConfig, o: Oracle)
    ensures e in TlsErrors(errors, l, o)
       <==> || e in errors
            || (&& (e.AcmeDomainsEmpty? || e.AcmeContactInvalid? || e.ManualCertMissing?
                    || e.CertPathNotReadable? || e.KeyPathNotReadable?)
                && ListenerBreaks(e, l, true, o))
  {
    MailtoIff(l.tls.acmeContact);
    hide ContactOk, IsMailto;
    assert "acme"[0] != "manual"[0];
  }

  lemma ListenerMember(e: ValidationError, errors: Errors, l: ListenerConfig, https: set<BindKey>, http: set<BindKey>,
                       allow: bool, o: Oracle)
    ensures e in ListenerErrors(errors, l, https, http, allow, o)
       <==> || e in errors
            || ListenerBreaks(e, l, allow, o)
            || (e == DuplicateHttpsBind(l.bindAddr, l.httpsPort) && (l.bindAddr, l.httpsPort) in https)
            || (e == DuplicateHttpBind(l.bindAddr, l.httpPort) && 0 < l.httpPort && (l.bindAddr, l.httpPort) in http)
  {
    var e1 := Push(errors, l.bindAddr == "0.0.0.0" && !allow, WildcardBindNotAllowed(l.bindAddr));
    var e2 := Push(e1, HttpsKey(l) in https, DuplicateHttpsBind(l.bindAddr, l.httpsPort));
    var e3 := Push(e2, l.httpPort > 0 && HttpKey(l) in http, DuplicateHttpBind(l.bindAddr, l.httpPort));
    TlsMember(e, PortErrors(e3, l, o), l, o);
    hide TlsErrors, IsMailto;
  }

  lemma {:induction false} ListenersMember(e: ValidationError, errors: Errors, ls: seq<ListenerConfig>, allow: bool, o: Oracle)
    ensures e in AllListenerErrors(errors, ls, allow, o)
       <==> || e in errors
            || (exists i :: 0 <= i < |ls| && ListenerBreaks(e, ls[i], allow, o))
            || (exists i, j :: 0 <= i < j < |ls| && ListenersClash(e, ls[i], ls[j]))
  {
    hide ListenerErrors, ListenerBreaks, ListenersClash, HttpsKeys, HttpKeys;
    if ls != [] {
      var init, l := ls[..|ls| - 1], ls[|ls| - 1];
      ListenersMember(e, errors, init, allow, o);
      ListenerMember(e, AllListenerErrors(errors, init, allow, o), l, HttpsKeys(init), HttpKeys(init), allow, o);
      BreaksSnoc(e, ls, allow, o);
      ClashesSnoc(e, ls);
      ClashIsKnownKey(e, init, l);
    }
  }

  lemma BreaksSnoc(e: ValidationError, ls: seq<ListenerConfig>, allow: bool, o: Oracle)
    requires ls != []
    ensures var init := ls[..|ls| - 1];
            (exists i :: 0 <= i < |ls| && ListenerBreaks(e, ls[i], allow, o)) <==>
              || (exists i :: 0 <= i < |init| && ListenerBreaks(e, init[i], allow, o))
              || ListenerBreaks(e, ls[|init|], allow, o)
  {
    hide ListenerBreaks;
    var init := ls[..|ls| - 1];
    assert forall i :: 0 <= i < |init| ==> init[i] == ls[i];
  }

  /** A clash among listeners is one among the first, or one of the last with an earlier one. */
  lemma ClashesSnoc(e: ValidationError, ls: seq<ListenerConfig>)
    requires ls != []
    ensures var init, l := ls[..|ls| - 1], ls[|ls| - 1];
            (exists i, j :: 0 <= i < j < |ls| && ListenersClash(e, ls[i], ls[j])) <==>
              || (exists i, j :: 0 <= i < j < |init| && ListenersClash(e, init[i], init[j]))
              || (exists i :: 0 <= i < |init| && ListenersClash(e, init[i], l))
  {
    hide ListenersClash;
    var init, l := ls[..|ls| - 1], ls[|ls| - 1];
    assert forall i :: 0 <= i < |init| ==> init[i] == ls[i];
    if i :| 0 <= i < |init| && ListenersClash(e, init[i], l) {
      assert ListenersClash(e, ls[i], ls[|init|]);
    }
    if i, j :| 0 <= i < j < |init| && ListenersClash(e, init[i], init[j]) {
      assert ListenersClash(e, ls[i], ls[j]);
    }
    if i, j :| 0 <= i < j < |ls| && ListenersClash(e, ls[i], ls[j]) {
      assert if j < |init| then ListenersClash(e, init[i], init[j]) else ListenersClash(e, init[i], l);
    }
  }

  lemma ClashIsKnownKey(e: ValidationError, init: seq<ListenerConfig>, l: ListenerConfig)
    ensures (exists i :: 0 <= i < |init| && ListenersClash(e, init[i], l))
       <==> || (e == DuplicateHttpsBind(l.bindAddr, l.httpsPort) && (l.bindAddr, l.httpsPort) in HttpsKeys(init))
            || (e == DuplicateHttpBind(l.bindAddr, l.httpPort) && 0 < l.httpPort && (l.bindAddr, l.httpPort) in HttpKeys(init))
  {
    NewHttpsKey(init, (l.bindAddr, l.httpsPort));
    NewHttpKey(init, (l.bindAddr, l.httpPort));
    hide HttpsKeys, HttpKeys;
    if e.DuplicateHttpsBind? {
      assert forall i :: 0 <= i < |init| ==>
        (ListenersClash(e, init[i], l) <==>
           e == DuplicateHttpsBind(l.bindAddr, l.httpsPort) && HttpsKey(init[i]) == (l.bindAddr, l.httpsPort));
    } else if e.DuplicateHttpBind? {
      assert forall i :: 0 <= i < |init| ==>
        (ListenersClash(e, init[i], l) <==>
           && e == DuplicateHttpBind(l.bindAddr, l.httpPort) && init[i].httpPort > 0
           && HttpKey(init[i]) == (l.bindAddr, l.httpPort));
    }
  }

  lemma {:induction false} HealthMember(e: ValidationError, errors: Errors, ls: seq<ListenerConfig>, port: nat)
    requires 0 < port
    ensures e in HealthErrors(errors, ls, port)
       <==> e in errors || (exists i :: 0 <= i < |ls| && HealthBreaks(e, ls[i], port))
  {
    if ls != [] {
      var init, l := ls[..|ls| - 1], ls[|ls| - 1];
      HealthMember(e, errors, init, port);
      assert forall i :: 0 <= i < |init| ==> init[i] == ls[i];
      assert e in HealthErrors(errors, ls, port) <==> e in HealthErrors(errors, init, port) || HealthBreaks(e, l, port);
    }
  }

  lemma PresenceMember(e: ValidationError, errors: Errors, s: SiteConfig, seen: set<string>)
    ensures e in SitePresenceErrors(errors, s, seen)
       <==> || e in errors
            || (e.SiteHostEmpty? && s.host == "")
            || (e == SiteUpstreamEmpty(s.host) && s.upstream == "")
            || (e == DuplicateSiteHost(Lower(s.host)) && Lower(s.host) in seen)
  {
  }

  lemma SyntaxMember(e: ValidationError, errors: Errors, s: SiteConfig, o: Oracle)
    ensures e in SiteSyntaxErrors(errors, s, o)
       <==> || e in errors
            || (e == SiteHostContainsPort(s.host) && ':' in s.host)
            || (e == SiteHostInvalid(s.host) && !ValidHostname(s.host, o))
            || (e == UpstreamInvalid(s.host, s.upstream) && s.upstream != "" && !ValidUpstream(s.upstream, o))
            || (&& e == UpstreamSchemeInvalid(s.host, s.upstreamScheme)
                && s.upstreamScheme != "http" && s.upstreamScheme != "https")
  {
    hide ValidHostname, ValidUpstream;
  }

  lemma SiteMember(e: ValidationError, errors: Errors, s: SiteConfig, seen: set<string>, o: Oracle)
    ensures e in SiteErrors(errors, s, seen, o)
       <==> || e in errors
            || SiteBreaks(e, s, o)
            || (e == DuplicateSiteHost(Lower(s.host)) && Lower(s.host) in seen)
  {
    hide ValidHostname, ValidUpstream, SitePresenceErrors, SiteSyntaxErrors;
    PresenceMember(e, errors, s, seen);
    SyntaxMember(e, SitePresenceErrors(errors, s, seen), s, o);
  }

  lemma SitesBreakSnoc(e: ValidationError, sites: seq<SiteConfig>, o: Oracle)
    requires sites != []
    ensures var init, s := sites[..|sites| - 1], sites[|sites| - 1];
            (exists i :: 0 <= i < |sites| && SiteBreaks(e, sites[i], o)) <==>
              (exists i :: 0 <= i < |init| && SiteBreaks(e, init[i], o)) || SiteBreaks(e, s, o)
  {
    hide SiteBreaks;
    var init := sites[..|sites| - 1];
    assert forall i :: 0 <= i < |init| ==> init[i] == sites[i];
  }

  lemma SitesClashSnoc(e: ValidationError, sites: seq<SiteConfig>)
    requires sites != []
    ensures var init, s := sites[..|sites| - 1], sites[|sites| - 1];
            (exists i, j :: 0 <= i < j < |sites| && SitesClash(e, sites[i], sites[j])) <==>
              || (exists i, j :: 0 <= i < j < |init| && SitesClash(e, init[i], init[j]))
              || (exists i :: 0 <= i < |init| && SitesClash(e, init[i], s))
  {
    hide SitesClash;
    var init, s := sites[..|sites| - 1], sites[|sites| - 1];
    assert forall i :: 0 <= i < |init| ==> init[i] == sites[i];
    if i :| 0 <= i < |init| && SitesClash(e, init[i], s) {
      assert SitesClash(e, sites[i], sites[|init|]);
    }
    if i, j :| 0 <= i < j < |init| && SitesClash(e, init[i], init[j]) {
      assert SitesClash(e, sites[i], sites[j]);
    }
    if i, j :| 0 <= i < j < |sites| && SitesClash(e, sites[i], sites[j]) {
      assert if j < |init| then SitesClash(e, init[i], init[j]) else SitesClash(e, init[i], s);
    }
  }

  lemma ClashIsKnownHost(e: ValidationError, init: seq<SiteConfig>, s: SiteConfig)
    ensures (exists i :: 0 <= i < |init| && SitesClash(e, init[i], s))
       <==> e == DuplicateSiteHost(Lower(s.host)) && Lower(s.host) in HostsOf(init)
  {
    NewHost(init, Lower(s.host));
    hide HostsOf;
  }

  lemma {:induction false} SitesMember(e: ValidationError, errors: Errors, sites: seq<SiteConfig>, o: Oracle)
    ensures e in AllSiteErrors(errors, sites, o)
       <==> || e in errors
            || (exists i :: 0 <= i < |sites| && SiteBreaks(e, sites[i], o))
            || (exists i, j :: 0 <= i < j < |sites| && SitesClash(e, sites[i], sites[j]))
  {
    hide SiteErrors, SiteBreaks, SitesClash, HostsOf;
    if sites != [] {
      var init, s := sites[..|sites| - 1], sites[|sites| - 1];
      SitesMember(e, errors, init, o);
      SiteMember(e, AllSiteErrors(errors, init, o), s, HostsOf(init), o);
      SitesBreakSnoc(e, sites, o);
      SitesClashSnoc(e, sites);
      ClashIsKnownHost(e, init, s);
    }
  }

  lemma ContainsDots(path: string)
    ensures Contains(path, "..") <==> exists i :: 0 < i < |path| && path[i - 1] == '.' == path[i]
  {
    if i :| 0 <= i <= |path| && ".." <= path[i..] {
      assert path[i..][0] == path[i] == '.' && path[i..][1] == path[i + 1] == '.';
      assert path[i + 1 - 1] == '.' == path[i + 1];
    }
    if i :| 0 < i < |path| && path[i - 1] == '.' == path[i] {
      assert path[i - 1..][0] == '.' && path[i - 1..][1] == '.';
      assert ".." <= path[i - 1..];
    }
  }

  lemma ScalarMember(e: ValidationError, errors: Errors, s: StaticConfig, d: DynamicConfig)
    ensures e in ScalarErrors(errors, s, d) <==> e in errors || ScalarBreaks(e, s, d)
  {
    ContainsDots(s.adminKeyPath);
    hide Contains;
  }

  /** Validation reports an error exactly when the configuration breaks the rule the error names, with
      the listener, site, port or path at fault. */
  lemma {:induction false} ErrorsNameBrokenRules(e: ValidationError, s: StaticConfig, d: DynamicConfig, cliAllow: bool, o: Oracle)
    ensures e in AllErrors(s, d, cliAllow, o) <==> Broken(e, s, d, cliAllow, o)
  {
    hide AllListenerErrors, HealthErrors, AllSiteErrors, ScalarErrors;
    hide ListenerBreaks, ListenersClash, SiteBreaks, SitesClash, ScalarBreaks;
    var allow := s.allowWildcardBind || cliAllow;
    var e1 := Push([], s.listeners == [], NoListeners);
    ListenersMember(e, e1, s.listeners, allow, o);
    var e2 := AllListenerErrors(e1, s.listeners, allow, o);
    if 0 < s.healthCheckPort {
      HealthMember(e, e2, s.listeners, s.healthCheckPort);
    }
    var e3 := if s.healthCheckPort > 0 then HealthErrors(e2, s.listeners, s.healthCheckPort) else e2;
    SitesMember(e, e3, SitesOf(s.listeners), o);
    ScalarMember(e, AllSiteErrors(e3, SitesOf(s.listeners), o), s, d);
  }
}
