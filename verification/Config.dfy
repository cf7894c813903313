/** The configuration of src/config: static and dynamic halves, and the file both come from. */
module Config {
  import opened Text

  datatype SiteConfig = SiteConfig(
    host: string, upstream: string, upstreamScheme: string,
    connectTimeoutSecs: nat, requestTimeoutSecs: nat)

  datatype TlsConfig = TlsConfig(
    mode: string, acmeDomains: seq<string>, acmeCacheDir: string, acmeDirectory: string,
    acmeContact: string, certPath: string, keyPath: string)

  datatype ListenerConfig = ListenerConfig(
    bindAddr: string, httpPort: nat, httpsPort: nat, tls: TlsConfig, sites: seq<SiteConfig>)

  datatype LoggingConfig = LoggingConfig(level: string, format: string, logFilePath: Option<string>)

  datatype RateLimitConfig = RateLimitConfig(requestsPerSecond: nat, burst: nat)

  datatype BodyConfig = BodyConfig(limitBytes: nat)

  datatype StaticConfig = StaticConfig(
    listeners: seq<ListenerConfig>, allowWildcardBind: bool, healthCheckPort: nat, adminKeyPath: string,
    shutdownTimeoutSecs: nat, connectionIdleTimeoutSecs: nat, tlsHandshakeTimeoutSecs: nat,
    maxConnections: nat, logging: LoggingConfig)

  datatype DynamicConfig = DynamicConfig(
    sites: seq<SiteConfig>, routingTable: map<string, SiteConfig>, rateLimit: RateLimitConfig, body: BodyConfig)

  /** The parsed file. */
  datatype FullConfig = FullConfig(
    listeners: seq<ListenerConfig>, allowWildcardBind: bool, healthCheckPort: nat, adminKeyPath: string,
    shutdownTimeoutSecs: nat, connectionIdleTimeoutSecs: nat, tlsHandshakeTimeoutSecs: nat,
    maxConnections: nat, logging: LoggingConfig, rateLimit: RateLimitConfig, body: BodyConfig)

  /** Every site of every listener, in order. */
  function SitesOf(listeners: seq<ListenerConfig>): seq<SiteConfig> {
    if listeners == [] then []
    else SitesOf(listeners[..|listeners| - 1]) + listeners[|listeners| - 1].sites
  }

  /** Collected into a hash map, so a later site replaces an earlier one with the same key. */
  function BuildRoutingTable(sites: seq<SiteConfig>): map<string, SiteConfig> {
    if sites == [] then map[]
    else
      var last := sites[|sites| - 1];
      BuildRoutingTable(sites[..|sites| - 1])[Lower(last.host) := last]
  }

  function FromSites(sites: seq<SiteConfig>, rateLimit: RateLimitConfig, body: BodyConfig): DynamicConfig {
    DynamicConfig(sites, BuildRoutingTable(sites), rateLimit, body)
  }

  /** The dynamic half takes its sites from the listeners. */
  function IntoStaticAndDynamic(full: FullConfig): (StaticConfig, DynamicConfig) {
    var fixed := StaticConfig(
      full.listeners, full.allowWildcardBind, full.healthCheckPort, full.adminKeyPath,
      full.shutdownTimeoutSecs, full.connectionIdleTimeoutSecs, full.tlsHandshakeTimeoutSecs,
      full.maxConnections, full.logging);
    (fixed, FromSites(SitesOf(fixed.listeners), full.rateLimit, full.body))
  }

  /** The dynamic half has exactly the listeners' sites. */
  lemma {:induction false} SitesOfMembers(listeners: seq<ListenerConfig>, site: SiteConfig)
    ensures site in SitesOf(listeners) <==> exists i :: 0 <= i < |listeners| && site in listeners[i].sites
  {
    if listeners != [] {
      var init := listeners[..|listeners| - 1];
      SitesOfMembers(init, site);
      assert forall i :: 0 <= i < |init| ==> init[i] == listeners[i];
    }
  }
}
