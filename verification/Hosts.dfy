/** Host names as requests carry them: `strip_port_from_host` of src/utils.rs and `normalize_host` of
    src/config/dynamic_config.rs. */
module Hosts {
  import opened Text

  function StripPort(host: string): string {
    if StartsWith(host, '[') then
      var end := IndexOf(host, ']');
      if end < |host| then host[..end + 1] else host
    else
      var colon := LastIndexOf(host, ':');
      if 0 <= colon then host[..colon] else host
  }

  function NormalizeHost(host: string): string {
    var lower := Lower(StripPort(host));
    var inner := if StartsWith(lower, '[') then lower[1..] else lower;
    if EndsWith(inner, ']') then inner[..|inner| - 1] else lower
  }

  /** A port, as it may follow a host. */
  ghost predicate IsPortSuffix(suffix: string) {
    suffix == "" || (suffix[0] == ':' && ':' !in suffix[1..])
  }

  /** A name that carries neither a port nor brackets. */
  predicate IsPlain(host: string) {
    ':' !in host && !StartsWith(host, '[') && !EndsWith(host, ']')
  }

  lemma StripPortPlain(host: string, suffix: string)
    requires ':' !in host && !StartsWith(host, '[') && IsPortSuffix(suffix)
    ensures StripPort(host + suffix) == host
  {
    if suffix == "" {
      assert host + suffix == host;
    } else {
      assert host + suffix == host + [':'] + suffix[1..];
      LastIndexOfAppend(host, ':', suffix[1..]);
      assert (host + suffix)[0] == if host == [] then ':' else host[0];
    }
  }

  /** With or without a port, a plain name normalises to its lower case. */
  lemma NormalizePlain(host: string, suffix: string)
    requires IsPlain(host) && IsPortSuffix(suffix)
    ensures NormalizeHost(host + suffix) == Lower(host)
  {
    StripPortPlain(host, suffix);
  }

  lemma StripPortBracketed(inner: string, suffix: string)
    requires ']' !in inner
    ensures StripPort("[" + inner + "]" + suffix) == "[" + inner + "]"
  {
    var host := "[" + inner + "]" + suffix;
    assert host == ("[" + inner) + [']'] + suffix;
    IndexOfAppend("[" + inner, ']', suffix);
    assert host[..|inner| + 2] == "[" + inner + "]";
  }

  /** Whatever follows the bracket, a bracketed literal normalises to what is inside it. */
  lemma NormalizeBracketed(inner: string, suffix: string)
    requires ']' !in inner
    ensures NormalizeHost("[" + inner + "]" + suffix) == Lower(inner)
  {
    StripPortBracketed(inner, suffix);
    var lower := Lower("[" + inner + "]");
    assert lower[1..][..|inner|] == Lower(inner);
  }

  /** The names without a port to strip. */
  lemma StripPortIdentityIff(host: string)
    ensures StripPort(host) <= host
    ensures StripPort(host) == host
       <==> if StartsWith(host, '[') then ']' in host ==> IndexOf(host, ']') == |host| - 1
            else ':' !in host
  {
  }

  /** What normalising a bracketed host leaves: all of it when the bracket is never closed. */
  lemma NormalizedBracket(host: string)
    requires StartsWith(host, '[')
    ensures NormalizeHost(host) == Lower(if ']' in host then host[1..IndexOf(host, ']')] else host)
  {
    if ']' in host {
      var end := IndexOf(host, ']');
      assert host == "[" + host[1..end] + "]" + host[end + 1..];
      NormalizeBracketed(host[1..end], host[end + 1..]);
    } else {
      LowerKeepsOthers(host, ']');
    }
  }

  lemma StripPortStart(host: string)
    ensures StartsWith(StripPort(host), '[') ==> StartsWith(host, '[')
  {
  }

  /** What normalising any other host leaves: one closing bracket goes, if there is one. */
  lemma NormalizedName(host: string)
    requires !StartsWith(host, '[')
    ensures var name := StripPort(host);
            NormalizeHost(host) == Lower(if EndsWith(name, ']') then name[..|name| - 1] else name)
  {
    StripPortStart(host);
    hide StripPort;
    var name := StripPort(host);
    assert EndsWith(name, ']') ==> Lower(name)[..|name| - 1] == Lower(name[..|name| - 1]);
  }

  /** The names that normalisation leaves alone, exactly. */
  lemma NormalizeFixedPointIff(host: string)
    ensures NormalizeHost(host) == host
       <==> && Lower(host) == host
            && if StartsWith(host, '[') then ']' !in host
               else ':' !in host && !EndsWith(host, ']')
  {
    hide NormalizeHost, StripPort;
    StripPortIdentityIff(host);
    if StartsWith(host, '[') {
      NormalizedBracket(host);
    } else {
      NormalizedName(host);
    }
  }

  lemma LowerIsFixed(s: string)
    ensures Lower(Lower(s)) == Lower(s)
  {
  }

  /** A lower-cased host is left alone exactly when the host has no port and no brackets to lose. */
  lemma LoweredFixedPointIff(host: string)
    ensures NormalizeHost(Lower(host)) == Lower(host)
       <==> if StartsWith(host, '[') then ']' !in host
            else ':' !in host && !EndsWith(host, ']')
  {
    NormalizeFixedPointIff(Lower(host));
    LowerIsFixed(host);
    LowerKeepsOthers(host, ']');
    LowerKeepsOthers(host, ':');
  }

  /** Two closing brackets at the end. */
  predicate EndsInTwoBrackets(s: string) {
    2 <= |s| && s[|s| - 2] == ']' && s[|s| - 1] == ']'
  }

  /** Exactly where normalising twice is normalising once: for a closed bracket, when it holds no colon
      or opens with another bracket; for a name, when port stripping leaves no colon and no two
      closing brackets at the end. */
  lemma NormalizeIdempotentIff(host: string)
    ensures NormalizeHost(NormalizeHost(host)) == NormalizeHost(host)
       <==> if StartsWith(host, '[') then
              ']' !in host || host[1] == '[' || ':' !in host[..IndexOf(host, ']')]
            else ':' !in StripPort(host) && !EndsInTwoBrackets(StripPort(host))
  {
    hide NormalizeHost, StripPort;
    if StartsWith(host, '[') {
      NormalizedBracket(host);
      var left := if ']' in host then host[1..IndexOf(host, ']')] else host;
      LoweredFixedPointIff(left);
      assert ']' in host ==> host[..IndexOf(host, ']')] == "[" + left;
    } else {
      NormalizedName(host);
      StripPortStart(host);
      var name := StripPort(host);
      var left := if EndsWith(name, ']') then name[..|name| - 1] else name;
      LoweredFixedPointIff(left);
      assert name == if EndsWith(name, ']') then left + "]" else left;
    }
  }

  /** So it fails for every bracketed IPv6 literal, with or without a port: normalising again strips
      the last group as if it were one. */
  lemma BracketedAddressNotIdempotent(address: string, suffix: string)
    requires ']' !in address && ':' in address && address[0] != '['
    ensures var host := "[" + address + "]" + suffix;
            NormalizeHost(NormalizeHost(host)) != NormalizeHost(host)
  {
    var host := "[" + address + "]" + suffix;
    hide NormalizeHost;
    assert host == ("[" + address) + [']'] + suffix;
    IndexOfAppend("[" + address, ']', suffix);
    assert host[..|address| + 1] == "[" + address;
    assert host[1] == address[0];
    NormalizeIdempotentIff(host);
  }

  /** And for a bare IPv6 address, and for a name with two closing brackets. */
  lemma NormalizeNotIdempotent()
    ensures NormalizeHost(NormalizeHost("::1")) != NormalizeHost("::1")
    ensures NormalizeHost(NormalizeHost("a]]")) != NormalizeHost("a]]")
  {
    hide NormalizeHost;
    assert "::1" == ":" + [':'] + "1";
    LastIndexOfAppend(":", ':', "1");
    assert StripPort("::1") == ":" && StripPort("a]]") == "a]]";
    NormalizeIdempotentIff("::1");
    NormalizeIdempotentIff("a]]");
  }
}
