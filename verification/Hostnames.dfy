/** The syntax checks of src/config/validation.rs: `is_valid_hostname` and `is_valid_upstream`.

    Parsing an IP address literal is library code; it enters as an oracle. */
module Hostnames {
  import opened Text

  /** Answers of the standard library and of the file system. */
  datatype Oracle = Oracle(isIp: string -> bool, isIpv6: string -> bool, fileExists: string -> bool)

  // ----- the grammar -----

  predicate IsLabelChar(c: char) {
    'a' <= c <= 'z' || 'A' <= c <= 'Z' || '0' <= c <= '9' || c == '-'
  }

  /** The characters of a label by their ASCII codes: the hyphen, digits, capital and small letters. */
  lemma LabelCharCodes(c: char)
    ensures IsLabelChar(c) <==> c as int == 45 || 48 <= c as int < 58 || 65 <= c as int < 91 || 97 <= c as int < 123
  {
  }

  predicate AllLabelChars(s: string) {
    forall i :: 0 <= i < |s| ==> IsLabelChar(s[i])
  }

  predicate IsLabel(s: string) {
    s != "" && !StartsWith(s, '-') && !EndsWith(s, '-') && AllLabelChars(s)
  }

  /** Dot-separated labels that do not spell an IP address. */
  predicate ValidHostname(host: string, o: Oracle) {
    !o.isIp(host) && forall i :: 0 <= i < |Split(host, '.')| ==> IsLabel(Split(host, '.')[i])
  }

  /** The same as a grammar: labels joined by dots. */
  lemma HostnameGrammar(host: string, o: Oracle)
    ensures ValidHostname(host, o)
       <==> && !o.isIp(host)
            && exists labels: seq<string> ::
                 && labels != []
                 && (forall i :: 0 <= i < |labels| ==> IsLabel(labels[i]))
                 && host == Join(labels, '.')
  {
    if ValidHostname(host, o) {
      JoinSplit(host, '.');
    }
    forall labels: seq<string> |
      && labels != []
      && (forall i :: 0 <= i < |labels| ==> IsLabel(labels[i]))
      && host == Join(labels, '.')
      ensures Split(host, '.') == labels
    {
      forall i | 0 <= i < |labels|
        ensures '.' !in labels[i]
      {
        assert IsLabel(labels[i]);
      }
      SplitJoin(labels, '.');
    }
  }

  /** What every character and both ends of a valid hostname are. */
  lemma HostnameShape(host: string, o: Oracle)
    requires ValidHostname(host, o)
    ensures host != ""
    ensures forall i :: 0 <= i < |host| ==> IsLabelChar(host[i]) || host[i] == '.'
    ensures IsLabelChar(host[0]) && host[0] != '-'
    ensures IsLabelChar(host[|host| - 1]) && host[|host| - 1] != '-'
  {
    JoinSplit(host, '.');
    LabelsShape(Split(host, '.'));
  }

  lemma {:induction false} LabelsShape(labels: seq<string>)
    requires labels != [] && forall i :: 0 <= i < |labels| ==> IsLabel(labels[i])
    ensures var host := Join(labels, '.');
            && host != ""
            && (forall i :: 0 <= i < |host| ==> IsLabelChar(host[i]) || host[i] == '.')
            && IsLabelChar(host[0]) && host[0] != '-'
            && IsLabelChar(host[|host| - 1]) && host[|host| - 1] != '-'
    decreases |labels|
  {
    assert IsLabel(labels[0]);
    if |labels| > 1 {
      LabelsShape(labels[1..]);
    }
  }

  // ----- the checks -----

  /** What the tests before the branch turn away is outside the grammar. */
  lemma EarlyTestsSound(host: string, o: Oracle)
    requires host == "" || ':' in host || StartsWith(host, '-') || EndsWith(host, '-')
    ensures !ValidHostname(host, o)
  {
    if ValidHostname(host, o) {
      HostnameShape(host, o);
      assert false;
    }
  }

  /** Both branches of the check, with and without a dot, accept exactly the grammar. */
  method IsValidHostname(host: string, o: Oracle) returns (ok: bool)
    ensures ok <==> ValidHostname(host, o)
  {
    if host == "" {
      EarlyTestsSound(host, o);
      return false;
    }
    if ':' in host {
      EarlyTestsSound(host, o);
      return false;
    }
    if o.isIp(host) {
      return false;
    }
    if StartsWith(host, '-') || EndsWith(host, '-') {
      EarlyTestsSound(host, o);
      return false;
    }
    if '.' in host {
      ok := AllLabels(Split(host, '.'));
    } else {
      assert Split(host, '.') == [host];
      ok := AllLabelChars(host);
      assert IsLabel(Split(host, '.')[0]) <==> ok;
    }
  }

  /** The loop over the labels. */
  method AllLabels(labels: seq<string>) returns (ok: bool)
    ensures ok <==> forall i :: 0 <= i < |labels| ==> IsLabel(labels[i])
  {
    for k := 0 to |labels|
      invariant forall i :: 0 <= i < k ==> IsLabel(labels[i])
    {
      if labels[k] == "" {
        return false;
      }
      if StartsWith(labels[k], '-') || EndsWith(labels[k], '-') {
        return false;
      }
      if !AllLabelChars(labels[k]) {
        return false;
      }
    }
    return true;
  }

  predicate ValidUpstreamHost(host: string, o: Oracle) {
    if StartsWith(host, '[') && EndsWith(host, ']') then o.isIpv6(host[1..|host| - 1])
    else o.isIp(host) || ValidHostname(host, o)
  }

  predicate ValidHostPort(host: string, port: string, o: Oracle) {
    host != "" && ParseU16(port).Some? && 0 < ParseU16(port).value && ValidUpstreamHost(host, o)
  }

  /** A non-empty host, a colon and a port from 1 to 65535, with no scheme. */
  ghost predicate ValidUpstream(upstream: string, o: Oracle) {
    && !("http://" <= upstream) && !("https://" <= upstream)
    && exists host, port :: upstream == host + [':'] + port && ':' !in port && ValidHostPort(host, port, o)
  }

  /** The last colon is the only place to cut. */
  lemma UpstreamCut(upstream: string, o: Oracle)
    ensures var idx := LastIndexOf(upstream, ':');
            ValidUpstream(upstream, o) <==>
              && 0 <= idx
              && !("http://" <= upstream) && !("https://" <= upstream)
              && ValidHostPort(upstream[..idx], upstream[idx + 1..], o)
  {
    hide ValidHostPort;
    var idx := LastIndexOf(upstream, ':');
    forall host, port | upstream == host + [':'] + port && ':' !in port && ValidHostPort(host, port, o)
      ensures 0 <= idx && host == upstream[..idx] && port == upstream[idx + 1..]
    {
      LastIndexOfAppend(host, ':', port);
    }
    if 0 <= idx {
      assert upstream == upstream[..idx] + [':'] + upstream[idx + 1..];
    }
  }

  method IsValidUpstream(upstream: string, o: Oracle) returns (ok: bool)
    ensures ok <==> ValidUpstream(upstream, o)
  {
    UpstreamCut(upstream, o);
    var idx := LastIndexOf(upstream, ':');
    if idx < 0 {
      return false;
    }
    var hostPart, portPart := upstream[..idx], upstream[idx + 1..];
    if hostPart == "" {
      return false;
    }
    if "http://" <= upstream || "https://" <= upstream {
      return false;
    }
    var port := ParseU16(portPart);
    if port.None? || port.value == 0 {
      return false;
    }
    if StartsWith(hostPart, '[') && EndsWith(hostPart, ']') {
      ok := o.isIpv6(hostPart[1..|hostPart| - 1]);
    } else {
      var valid := IsValidHostname(hostPart, o);
      ok := o.isIp(hostPart) || valid;
    }
  }

  lemma CutOf(host: string, port: nat, o: Oracle)
    ensures var upstream := host + ":" + Digits(port);
            ValidUpstream(upstream, o) <==>
              && !("http://" <= upstream) && !("https://" <= upstream)
              && host != "" && 1 <= port <= 65535 && ValidUpstreamHost(host, o)
  {
    var upstream := host + ":" + Digits(port);
    assert ':' !in Digits(port);
    assert upstream == host + [':'] + Digits(port);
    LastIndexOfAppend(host, ':', Digits(port));
    assert upstream[..|host|] == host && upstream[|host| + 1..] == Digits(port);
    UpstreamCut(upstream, o);
    ParseOfDigits(port);
    hide ValidUpstream, ValidUpstreamHost, Digits, ParseU16;
  }

  lemma ParseOfDigits(n: nat)
    ensures ParseU16(Digits(n)) == if n <= 65535 then Some(n) else None
  {
    ValueOfDigits(n);
    assert IsDigit(Digits(n)[0]);
  }

  lemma SchemeHasSlash(s: string)
    ensures "http://" <= s || "https://" <= s ==> '/' in s
  {
    assert "http://"[5] == '/' && "https://"[6] == '/';
  }

  /** A hostname with a port is an upstream exactly when the port is from 1 to 65535. */
  lemma NamedUpstreamIff(host: string, port: nat, o: Oracle)
    requires ValidHostname(host, o)
    ensures ValidUpstream(host + ":" + Digits(port), o) <==> 1 <= port <= 65535
  {
    HostnameShape(host, o);
    var upstream := host + ":" + Digits(port);
    CutOf(host, port, o);
    assert '/' !in host && '[' !in host && '/' !in Digits(port);
    assert '/' !in upstream;
    SchemeHasSlash(upstream);
    hide ValidUpstream, ValidHostname, Digits;
  }

  /** A bracketed text with a port is an upstream exactly when the text is an IPv6 address and the port
      is from 1 to 65535. */
  lemma BracketedUpstreamIff(address: string, port: nat, o: Oracle)
    ensures ValidUpstream("[" + address + "]:" + Digits(port), o) <==> o.isIpv6(address) && 1 <= port <= 65535
  {
    var host := "[" + address + "]";
    var upstream := host + ":" + Digits(port);
    assert "[" + address + "]:" + Digits(port) == upstream;
    CutOf(host, port, o);
    assert host[1..|host| - 1] == address && upstream[0] == '[';
    hide ValidUpstream, ValidHostname, Digits;
  }
}
