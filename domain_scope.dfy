/** `is_same_domain` of scraper/utils.py: a link belongs to the root's site
    when it is relative, or when the last two `.`-separated labels of the two
    network locations agree. */
module DomainScope {
  import opened Strings

  /** The two fields of `urllib.parse.urlparse`'s result that `is_same_domain` reads.
      `netloc` is raw: it keeps any port and userinfo. */
  datatype ParsedUrl = ParsedUrl(scheme: string, netloc: string)

  /** `not parsed.scheme and not parsed.netloc`. */
  predicate IsRelative(u: ParsedUrl)
  {
    u.scheme == [] && u.netloc == []
  }

  /** Python's `xs[-2:]`. */
  function LastTwo<T>(xs: seq<T>): (r: seq<T>)
    ensures |r| == if |xs| < 2 then |xs| else 2
    ensures r == xs[|xs| - |r|..]
  {
    if |xs| <= 2 then xs else xs[|xs| - 2..]
  }

  /** `'.'.join(netloc.split('.')[-2:])`. */
  function RegistrableDomain(netloc: string): (d: string)
  {
    Join(LastTwo(Split(netloc, '.')), '.')
  }

  /** `is_same_domain(root_url, link)`, on the parsed forms of both URLs. */
  predicate IsSameDomain(root: ParsedUrl, link: ParsedUrl)
  {
    if IsRelative(link) then true
    else RegistrableDomain(root.netloc) == RegistrableDomain(link.netloc)
  }

  /** Reference definition without `split`/`join`: while the host holds two or
      more dots, drop its first label. */
  function RegistrableSuffix(netloc: string): (r: string)
    decreases |netloc|, 1
  {
    var i := IndexOf(netloc, '.');
    if i == |netloc| then netloc else AfterFirstLabel(netloc, netloc[i + 1..])
  }

  /** The second half of `RegistrableSuffix`: `d` is the text of `netloc`
      after its first dot. A dot in `d` means the first label is dropped. */
  function AfterFirstLabel(netloc: string, d: string): (r: string)
    requires |d| < |netloc|
    decreases |netloc|, 0
  {
    if IndexOf(d, '.') == |d| then netloc else RegistrableSuffix(d)
  }

  /** The reference definition only ever drops a prefix: its result is a
      suffix of the network location. */
  lemma {:induction false} RegistrableSuffixIsSuffix(netloc: string)
    ensures IsSuffix(RegistrableSuffix(netloc), netloc)
    decreases |netloc|
  {
    var i := IndexOf(netloc, '.');
    if i == |netloc| {
      RegistrableSuffixNoDot(netloc);
      assert netloc[0..] == netloc;
    } else {
      var d := netloc[i + 1..];
      if IndexOf(d, '.') == |d| {
        RegistrableSuffixOneDot(netloc, d);
        assert netloc[0..] == netloc;
      } else {
        var r := RegistrableSuffix(d);
        RegistrableSuffixDrops(netloc, d);
        RegistrableSuffixIsSuffix(d);
        SuffixOfSuffix(netloc, i + 1, r);
      }
    }
  }

  /** A leading label is ignored once the rest of the host has a dot: every
      subdomain of `d` has the registrable domain of `d`. */
  lemma SubdomainRegistrableDomain(sub: string, d: string)
    requires '.' !in sub
    requires '.' in d
    ensures RegistrableDomain(sub + "." + d) == RegistrableDomain(d)
  {
    SplitCons(sub, '.', d);
    var parts := Split(d, '.');
    IndexOfAbsent(d, '.');
    assert |parts| >= 2;
    var all := [sub] + parts;
    assert LastTwo(all) == LastTwo(parts) by {
      assert all[|all| - 2..] == parts[|parts| - 2..];
    }
  }

  /** A host with at most one dot is its own registrable domain. */
  lemma FewLabelsRegistrableDomain(netloc: string)
    requires |Split(netloc, '.')| <= 2
    ensures RegistrableDomain(netloc) == netloc
  {
    var parts := Split(netloc, '.');
    assert LastTwo(parts) == parts;
    JoinSplit(netloc, '.');
  }

  /** The `split`/`join` computation agrees with the reference definition on
      every host. */
  lemma {:induction false} RegistrableDomainIsSuffix(netloc: string)
    ensures RegistrableDomain(netloc) == RegistrableSuffix(netloc)
    decreases |netloc|
  {
    var i := IndexOf(netloc, '.');
    if i == |netloc| {
      assert Split(netloc, '.') == [netloc];
      FewLabelsRegistrableDomain(netloc);
    } else {
      var sub := netloc[..i];
      var d := netloc[i + 1..];
      assert netloc == sub + "." + d;
      IndexOfAbsent(sub, '.');
      if IndexOf(d, '.') == |d| {
        assert Split(d, '.') == [d];
        SplitCons(sub, '.', d);
        FewLabelsRegistrableDomain(netloc);
      } else {
        IndexOfAbsent(d, '.');
        SubdomainRegistrableDomain(sub, d);
        RegistrableDomainIsSuffix(d);
      }
    }
  }

  /** Relative links are accepted whatever the root is. */
  lemma RelativeLinkAccepted(root: ParsedUrl, link: ParsedUrl)
    requires IsRelative(link)
    ensures IsSameDomain(root, link)
  {
  }

  /** For a link with a scheme or a network location, acceptance means the two
      hosts reduce to the same registrable suffix. */
  lemma AbsoluteLinkSameDomain(root: ParsedUrl, link: ParsedUrl)
    requires !IsRelative(link)
    ensures IsSameDomain(root, link) <==> RegistrableSuffix(root.netloc) == RegistrableSuffix(link.netloc)
  {
    RegistrableDomainIsSuffix(root.netloc);
    RegistrableDomainIsSuffix(link.netloc);
  }

  /** Between absolute URLs the relation is symmetric. */
  lemma SameDomainSymmetric(a: ParsedUrl, b: ParsedUrl)
    requires !IsRelative(a) && !IsRelative(b)
    ensures IsSameDomain(a, b) == IsSameDomain(b, a)
  {
  }

  /** Every URL is on its own site. */
  lemma SameDomainReflexive(u: ParsedUrl)
    ensures IsSameDomain(u, u)
  {
  }

  /** A subdomain link is on the root's site. */
  lemma SubdomainAccepted(scheme: string, sub: string, host: string)
    requires '.' !in sub && '.' in host
    ensures IsSameDomain(ParsedUrl(scheme, host), ParsedUrl(scheme, sub + "." + host))
  {
    SubdomainRegistrableDomain(sub, host);
  }

  /** A host with exactly one dot is its own registrable domain. */
  lemma OneDotRegistrableDomain(name: string, tld: string)
    requires '.' !in name && '.' !in tld
    ensures RegistrableDomain(name + "." + tld) == name + "." + tld
  {
    SplitCons(name, '.', tld);
    IndexOfAbsent(tld, '.');
    assert Split(tld, '.') == [tld];
    FewLabelsRegistrableDomain(name + "." + tld);
  }

  /** `blog.example.com` is on `example.com`'s site. */
  lemma SubdomainExample()
    ensures IsSameDomain(ParsedUrl("https", "example.com"), ParsedUrl("https", "blog.example.com"))
  {
    assert "blog.example.com" == "blog" + "." + "example.com";
    assert '.' in "example.com" by {
      assert "example.com"[7] == '.';
    }
    SubdomainAccepted("https", "blog", "example.com");
  }

  /** Two one-dot hosts that differ only in the last label are different sites:
      `example.org` is not on `example.com`'s site. */
  lemma TopLevelDomainSeparatesSites(scheme: string, name: string, tld1: string, tld2: string)
    requires '.' !in name && '.' !in tld1 && '.' !in tld2
    requires tld1 != tld2
    ensures !IsSameDomain(ParsedUrl(scheme, name + "." + tld1), ParsedUrl(scheme, name + "." + tld2))
  {
    OneDotRegistrableDomain(name, tld1);
    OneDotRegistrableDomain(name, tld2);
    assert (name + "." + tld1)[|name| + 1..] == tld1;
    assert (name + "." + tld2)[|name| + 1..] == tld2;
  }

  /** A host without a dot is its own registrable suffix. */
  lemma RegistrableSuffixNoDot(s: string)
    requires IndexOf(s, '.') == |s|
    ensures RegistrableSuffix(s) == s
  {
  }

  /** A host with a dot continues with the text after its first dot. */
  lemma RegistrableSuffixFirstDot(s: string)
    requires IndexOf(s, '.') < |s|
    ensures RegistrableSuffix(s) == AfterFirstLabel(s, s[IndexOf(s, '.') + 1..])
  {
  }

  /** A host `x.d` whose rest `d` has no dot is its own registrable suffix. */
  lemma RegistrableSuffixOneDot(s: string, d: string)
    requires IndexOf(s, '.') < |s| && d == s[IndexOf(s, '.') + 1..]
    requires IndexOf(d, '.') == |d|
    ensures RegistrableSuffix(s) == s
  {
    RegistrableSuffixFirstDot(s);
  }

  /** A host `x.d` whose rest `d` has a dot loses its first label. */
  lemma RegistrableSuffixDrops(s: string, d: string)
    requires IndexOf(s, '.') < |s| && d == s[IndexOf(s, '.') + 1..]
    requires IndexOf(d, '.') < |d|
    ensures RegistrableSuffix(s) == RegistrableSuffix(d)
  {
    RegistrableSuffixFirstDot(s);
  }

  /** Text without a dot appended to a host is appended to its registrable
      suffix. */
  lemma {:induction false} AppendRegistrableSuffix(host: string, tail: string)
    requires '.' !in tail
    ensures RegistrableSuffix(host + tail) == RegistrableSuffix(host) + tail
    decreases |host|
  {
    var i := IndexOf(host, '.');
    IndexOfAbsent(tail, '.');
    if i == |host| {
      IndexOfAbsent(host, '.');
      PrefixIndexOf(host, '.', tail);
      RegistrableSuffixNoDot(host);
      RegistrableSuffixNoDot(host + tail);
    } else {
      IndexOfAppend(host, tail, '.');
      var d := host[i + 1..];
      assert (host + tail)[i + 1..] == d + tail;
      if IndexOf(d, '.') == |d| {
        IndexOfAbsent(d, '.');
        PrefixIndexOf(d, '.', tail);
        RegistrableSuffixOneDot(host, d);
        RegistrableSuffixOneDot(host + tail, d + tail);
      } else {
        IndexOfAppend(d, tail, '.');
        RegistrableSuffixDrops(host, d);
        RegistrableSuffixDrops(host + tail, d + tail);
        AppendRegistrableSuffix(d, tail);
      }
    }
  }

  /** A port on the link and not on the root separates the two:
      `example.com:8080` is not on `example.com`'s site, because the network
      location is compared raw. */
  lemma PortSeparatesSites(scheme: string, host: string, port: string)
    requires '.' !in port
    ensures !IsSameDomain(ParsedUrl(scheme, host), ParsedUrl(scheme, host + ":" + port))
  {
    assert '.' !in ":" + port;
    assert host + ":" + port == host + (":" + port);
    AppendRegistrableSuffix(host, ":" + port);
    RegistrableDomainIsSuffix(host);
    RegistrableDomainIsSuffix(host + ":" + port);
  }
}
