/** Host routing: `build_routing_table` and `lookup` of src/config/dynamic_config.rs against a scan
    over the sites, for configurations that validation accepts. */
module Routing {
  import opened Text
  import opened Hosts
  import opened Hostnames
  import opened Config
  import opened Validation

  function Lookup(d: DynamicConfig, host: string): Option<SiteConfig> {
    var key := NormalizeHost(host);
    if key in d.routingTable then Some(d.routingTable[key]) else None
  }

  /** The first site from index `from` on whose host, in lower case, is `key`. */
  function ScanFrom(sites: seq<SiteConfig>, key: string, from: nat): Option<SiteConfig>
    requires from <= |sites|
    decreases |sites| - from
  {
    if from == |sites| then None
    else if Lower(sites[from].host) == key then Some(sites[from])
    else ScanFrom(sites, key, from + 1)
  }

  function Scan(sites: seq<SiteConfig>, key: string): Option<SiteConfig> {
    ScanFrom(sites, key, 0)
  }

  /** `i` is the last site for `key`. */
  ghost predicate IsLastMatch(sites: seq<SiteConfig>, key: string, i: int) {
    && 0 <= i < |sites| && Lower(sites[i].host) == key
    && forall j :: i < j < |sites| ==> Lower(sites[j].host) != key
  }

  /** The keys of the table are the lower-case hosts. */
  lemma {:induction false} TableKeys(sites: seq<SiteConfig>)
    ensures BuildRoutingTable(sites).Keys == HostsOf(sites)
  {
    if sites != [] {
      var init, last := sites[..|sites| - 1], sites[|sites| - 1];
      TableKeys(init);
      HostsSnoc(init, last);
      assert sites == init + [last];
    }
  }

  /** For any sites at all, the table holds the last one for each lower-case host. */
  lemma {:induction false} TableHoldsLastMatch(sites: seq<SiteConfig>, key: string, i: nat)
    requires IsLastMatch(sites, key, i)
    ensures key in BuildRoutingTable(sites) && BuildRoutingTable(sites)[key] == sites[i]
  {
    var init := sites[..|sites| - 1];
    if i < |init| {
      assert forall j :: i < j < |init| ==> init[j] == sites[j];
      TableHoldsLastMatch(init, key, i);
      assert Lower(sites[|init|].host) != key;
    }
  }

  /** With distinct hosts every site has its own entry. */
  lemma {:induction false} TableOfUniqueHosts(sites: seq<SiteConfig>)
    requires UniqueHosts(sites)
    ensures |BuildRoutingTable(sites)| == |sites|
  {
    if sites != [] {
      var init, last := sites[..|sites| - 1], sites[|sites| - 1];
      TableOfUniqueHosts(init);
      TableKeys(init);
      NewHost(init, Lower(last.host));
    }
  }

  lemma {:induction false} ScanFinds(sites: seq<SiteConfig>, key: string, from: nat)
    requires from <= |sites|
    ensures var found := ScanFrom(sites, key, from);
            match found
            case None => forall j :: from <= j < |sites| ==> Lower(sites[j].host) != key
            case Some(s) => exists i :: from <= i < |sites| && sites[i] == s && Lower(sites[i].host) == key
    decreases |sites| - from
  {
    if from < |sites| {
      ScanFinds(sites, key, from + 1);
    }
  }

  /** With distinct hosts, the table agrees with the scan on every key. */
  lemma TableAgreesWithScan(sites: seq<SiteConfig>, key: string)
    requires UniqueHosts(sites)
    ensures key in BuildRoutingTable(sites) <==> Scan(sites, key).Some?
    ensures key in BuildRoutingTable(sites) ==> Scan(sites, key) == Some(BuildRoutingTable(sites)[key])
  {
    hide BuildRoutingTable;
    hide ScanFrom;
    TableKeys(sites);
    NewHost(sites, key);
    ScanFinds(sites, key, 0);
    if Scan(sites, key).Some? {
      var i :| 0 <= i < |sites| && sites[i] == Scan(sites, key).value && Lower(sites[i].host) == key;
      TableHoldsLastMatch(sites, key, i);
    }
  }

  /** Routing refinement: for every configuration file that validation accepts, the hash table answers
      every host as a scan over all listeners' sites for the normalised host, and loses no site. */
  lemma RoutingRefinesScan(full: FullConfig, cliAllow: bool, o: Oracle, host: string)
    requires ValidConfig(IntoStaticAndDynamic(full).0, IntoStaticAndDynamic(full).1, cliAllow, o)
    ensures var d := IntoStaticAndDynamic(full).1;
            && d.sites == SitesOf(full.listeners)
            && Lookup(d, host) == Scan(d.sites, NormalizeHost(host))
            && |d.routingTable| == |d.sites|
  {
    var d := IntoStaticAndDynamic(full).1;
    TableAgreesWithScan(d.sites, NormalizeHost(host));
    TableOfUniqueHosts(d.sites);
  }

  /** A site found in an accepted file is found under its own host. */
  lemma FoundUnderOwnHost(full: FullConfig, cliAllow: bool, o: Oracle, host: string)
    requires ValidConfig(IntoStaticAndDynamic(full).0, IntoStaticAndDynamic(full).1, cliAllow, o)
    ensures var found := Lookup(IntoStaticAndDynamic(full).1, host);
            found.Some? ==> Lower(found.value.host) == NormalizeHost(host)
  {
    hide NormalizeHost;
    RoutingRefinesScan(full, cliAllow, o, host);
    ScanFinds(SitesOf(full.listeners), NormalizeHost(host), 0);
  }

  lemma CaseVariantIsPlain(host: string, variant: string, o: Oracle)
    requires ValidHostname(host, o) && Lower(variant) == Lower(host)
    ensures IsPlain(variant)
  {
    HostnameShape(host, o);
    assert |variant| == |Lower(variant)| == |host|;
    forall i | 0 <= i < |host|
      ensures variant[i] != ':' && variant[i] != '[' && variant[i] != ']'
    {
      assert LowerChar(variant[i]) == Lower(variant)[i] == Lower(host)[i] == LowerChar(host[i]);
      assert IsLabelChar(host[i]) || host[i] == '.';
    }
  }

  /** Every site is found under any spelling of its host in upper and lower case, with or without a
      port. */
  lemma SiteFoundByAnyVariant(full: FullConfig, cliAllow: bool, o: Oracle, i: nat, variant: string, suffix: string)
    requires ValidConfig(IntoStaticAndDynamic(full).0, IntoStaticAndDynamic(full).1, cliAllow, o)
    requires i < |SitesOf(full.listeners)|
    requires Lower(variant) == Lower(SitesOf(full.listeners)[i].host) && IsPortSuffix(suffix)
    ensures Lookup(IntoStaticAndDynamic(full).1, variant + suffix) == Some(SitesOf(full.listeners)[i])
  {
    var sites := SitesOf(full.listeners);
    assert SiteOk(sites[i], o);
    CaseVariantIsPlain(sites[i].host, variant, o);
    NormalizePlain(variant, suffix);
    var key := Lower(sites[i].host);
    TableHoldsLastMatch(sites, key, i);
  }
}
