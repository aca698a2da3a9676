/** The values a `CIDRlist` stores and the membership question it answers:
    `ipaddress.ip_network(entry, strict=False)` for each entry, and for a query
    the strict `IPv4Network` of its text (after an IPv4-mapped `::ffff:`
    prefix is dropped) matched by `overlaps` against every entry. */
module Networks {

  import opened Results
  import opened Text
  import opened Bits
  import Ipv4
  import Ipv6

  /** What `ip_network` returns: an `IPv4Network` or an `IPv6Network`. */
  datatype IpNetwork = V4(v4: Ipv4.Network) | V6(v6: Ipv6.Network)

  predicate IsCanonical(n: IpNetwork) {
    match n
    case V4(m) => Ipv4.IsCanonical(m)
    case V6(m) => Ipv6.IsCanonical(m)
  }

  predicate AllCanonical(entries: seq<IpNetwork>) {
    forall i :: 0 <= i < |entries| ==> IsCanonical(entries[i])
  }

  /** `ip_network(s, strict=False)`: an IPv4 network if the text is one,
      otherwise an IPv6 network, otherwise a `ValueError`. */
  function ParseEntry(s: string): (r: Result<IpNetwork>)
    ensures r.Ok? ==> IsCanonical(r.value)
    ensures r.Err? ==> r.error == NotANetwork(s)
  {
    match Ipv4.ParseNetwork(s, false)
    case Some(n) => Ok(V4(n))
    case None =>
      match Ipv6.ParseNetwork(s, false)
      case Some(n) => Ok(V6(n))
      case None => Err(NotANetwork(s))
  }

  /** The IPv4-mapped IPv6 prefix that a query may carry. */
  const MappedPrefix: string := "::ffff:"

  /** The text a query is parsed from: without a leading `::ffff:`. */
  function QueryText(ip: string): (t: string)
    ensures StartsWith(ip, MappedPrefix) ==> MappedPrefix + t == ip
    ensures !StartsWith(ip, MappedPrefix) ==> t == ip
  {
    if StartsWith(ip, MappedPrefix) then ip[|MappedPrefix|..] else ip
  }

  /** `IPv4Network(text)`, strict: the query as an IPv4 network, or the error
      naming the text that was refused. */
  function ParseQuery(ip: string): (r: Result<Ipv4.Network>)
    ensures r.Ok? ==> Ipv4.IsCanonical(r.value)
    ensures r.Ok? <==> Ipv4.ParseNetwork(QueryText(ip), true).Some?
    ensures r.Err? ==> r.error == NotAnIpv4Network(QueryText(ip))
  {
    match Ipv4.ParseNetwork(QueryText(ip), true)
    case Some(n) => Ok(n)
    case None => Err(NotAnIpv4Network(QueryText(ip)))
  }

  /** `query.overlaps(entry)`; an address of the other family is in no network. */
  predicate Overlaps(query: Ipv4.Network, entry: IpNetwork)
    requires Ipv4.IsCanonical(query) && IsCanonical(entry)
  {
    match entry
    case V4(n) => Ipv4.Overlaps(query, n)
    case V6(_) => false
  }

  /** Some entry overlaps the query. */
  predicate AnyOverlaps(query: Ipv4.Network, entries: seq<IpNetwork>)
    requires Ipv4.IsCanonical(query) && AllCanonical(entries)
  {
    exists i :: 0 <= i < |entries| && Overlaps(query, entries[i])
  }

  /** `ip in cidrlist`: whether some entry overlaps the query, or the error
      raised when the query is not an IPv4 network. */
  function Membership(entries: seq<IpNetwork>, ip: string): (r: Result<bool>)
    requires AllCanonical(entries)
    ensures r.Err? <==> ParseQuery(ip).Err?
    ensures r.Err? ==> r.error == NotAnIpv4Network(QueryText(ip))
  {
    match ParseQuery(ip)
    case Err(e) => Err(e)
    case Ok(q) => Ok(AnyOverlaps(q, entries))
  }

  // ---------------------------------------------------------------------------
  // Entries

  /** An IPv4 entry `t/x` is stored as the address of `t` with its host bits
      cleared, under the prefix that `x` names. */
  lemma EntryMasks(t: string, x: string, a: seq<bool>, p: nat)
    requires '/' !in t && '/' !in x
    requires Ipv4.ParseAddress(t) == Some(a) && Ipv4.ParsePrefix(x) == Some(p)
    ensures ParseEntry(t + "/" + x) == Ok(V4(Ipv4.Network(And(a, Netmask(p, Ipv4.Width)), p)))
  {
    Ipv4.ParseNetworkMasks(t, x, a, p);
  }

  /** A bare IPv4 address is stored as the single-host network of that address. */
  lemma EntryHost(t: string, a: seq<bool>)
    requires Ipv4.ParseAddress(t) == Some(a)
    ensures ParseEntry(t) == Ok(V4(Ipv4.Network(a, Ipv4.Width)))
  {
    Ipv4.ParseHost(t, a, false);
  }

  /** The family of a stored entry follows its text: IPv6 entries are exactly
      the accepted texts holding a ':'. */
  lemma EntryFamily(s: string)
    requires ParseEntry(s).Ok?
    ensures ParseEntry(s).value.V6? <==> ':' in s
  {
    if Ipv4.ParseNetwork(s, false).Some? {
      Ipv4.NetworkTextHasNoColon(s, false);
    } else {
      var parts := Split(s, '/');
      Ipv6.AddressHasColon(parts[0]);
      JoinSplit(s, '/');
      JoinIncludesFirst(parts, '/', ':');
    }
  }

  /** An IPv4 address followed by a prefix text that names no prefix length
      (a number above 32, or a mask contiguous in neither orientation) is
      refused: it is not read as an IPv6 network either. */
  lemma BadPrefixRefused(t: string, x: string)
    requires '/' !in x
    requires Ipv4.ParseAddress(t).Some? && Ipv4.ParsePrefix(x).None?
    ensures ParseEntry(t + "/" + x) == Err(NotANetwork(t + "/" + x))
  {
    var a := Ipv4.ParseAddress(t).value;
    Ipv4.AddressCanonical(t, a);
    Ipv4.AddressTextExcludes(a, '/');
    Ipv4.AddressTextExcludes(a, ':');
    Ipv4.SplitAtSlash(t, x);
    if Ipv6.ParseAddress(t).Some? {
      Ipv6.AddressHasColon(t);
    }
  }

  // ---------------------------------------------------------------------------
  // Queries

  /** A query is refused unless it is IPv4 text: a query (not IPv4-mapped)
      holding a ':', such as any IPv6 address, is an error and not `False`. */
  lemma ColonQueryRefused(entries: seq<IpNetwork>, ip: string)
    requires AllCanonical(entries)
    requires !StartsWith(ip, MappedPrefix) && ':' in ip
    ensures Membership(entries, ip) == Err(NotAnIpv4Network(ip))
  {
    if Ipv4.ParseNetwork(ip, true).Some? {
      Ipv4.NetworkTextHasNoColon(ip, true);
    }
  }

  /** Prepending `::ffff:` changes nothing: `("::ffff:" + s) in c == s in c`
      for every query text `s` that is not itself IPv4-mapped. */
  lemma MappedQuery(entries: seq<IpNetwork>, s: string)
    requires AllCanonical(entries)
    requires !StartsWith(s, MappedPrefix)
    ensures Membership(entries, MappedPrefix + s) == Membership(entries, s)
  {
    assert (MappedPrefix + s)[..|MappedPrefix|] == MappedPrefix;
    assert (MappedPrefix + s)[|MappedPrefix|..] == s;
  }

  /** A bare dotted quad, with or without `::ffff:`, queries the single host it names. */
  lemma HostQuery(t: string, a: seq<bool>)
    requires Ipv4.ParseAddress(t) == Some(a)
    ensures ParseQuery(t) == Ok(Ipv4.Network(a, Ipv4.Width))
    ensures ParseQuery(MappedPrefix + t) == Ok(Ipv4.Network(a, Ipv4.Width))
  {
    Ipv4.ParseHost(t, a, true);
    Ipv4.AddressCanonical(t, a);
    Ipv4.AddressTextExcludes(a, ':');
    assert !StartsWith(t, MappedPrefix);
    assert (MappedPrefix + t)[..|MappedPrefix|] == MappedPrefix;
    assert (MappedPrefix + t)[|MappedPrefix|..] == t;
  }

  /** The host `a` lies in the entry: an IPv4 network whose network address is
      `a` masked to its prefix length. */
  predicate HostIn(a: seq<bool>, entry: IpNetwork)
    requires |a| == Ipv4.Width
  {
    entry.V4? && entry.v4.prefixLen <= Ipv4.Width &&
    And(a, Netmask(entry.v4.prefixLen, Ipv4.Width)) == entry.v4.base
  }

  /** The membership rule for a host: `t in c` exactly when some IPv4 entry's
      network address is the host masked to that entry's prefix length. */
  lemma HostMembership(entries: seq<IpNetwork>, t: string, a: seq<bool>)
    requires AllCanonical(entries)
    requires Ipv4.ParseAddress(t) == Some(a)
    ensures Membership(entries, t) == Ok(exists i :: 0 <= i < |entries| && HostIn(a, entries[i]))
  {
    HostQuery(t, a);
    var q := Ipv4.Network(a, Ipv4.Width);
    forall i | 0 <= i < |entries|
      ensures Overlaps(q, entries[i]) <==> HostIn(a, entries[i])
    {
      if entries[i].V4? {
        Ipv4.HostOverlapsIff(a, entries[i].v4);
      }
    }
  }

  /** An empty list contains nothing. */
  lemma EmptyContainsNothing(ip: string)
    ensures Membership([], ip) != Ok(true)
  {
  }

  /** IPv6 entries never answer an (IPv4) query: adding one anywhere changes no answer. */
  lemma V6EntryIgnored(front: seq<IpNetwork>, n: Ipv6.Network, back: seq<IpNetwork>, ip: string)
    requires AllCanonical(front + back) && Ipv6.IsCanonical(n)
    ensures AllCanonical(front + [V6(n)] + back)
    ensures Membership(front + [V6(n)] + back, ip) == Membership(front + back, ip)
  {
    var with := front + [V6(n)] + back;
    var without := front + back;
    assert forall i :: 0 <= i < |front| ==> with[i] == without[i];
    assert forall i :: |front| < i < |with| ==> with[i] == without[i - 1];
    if ParseQuery(ip).Ok? {
      var q := ParseQuery(ip).value;
      if AnyOverlaps(q, with) {
        var i :| 0 <= i < |with| && Overlaps(q, with[i]);
        if i < |front| {
          assert Overlaps(q, without[i]);
        } else {
          assert Overlaps(q, without[i - 1]);
        }
      }
      if AnyOverlaps(q, without) {
        var i :| 0 <= i < |without| && Overlaps(q, without[i]);
        if i < |front| {
          assert Overlaps(q, with[i]);
        } else {
          assert Overlaps(q, with[i + 1]);
        }
      }
    }
  }

  /** The answer depends only on which networks are stored, not on their order or repetition. */
  lemma MembershipBySet(xs: seq<IpNetwork>, ys: seq<IpNetwork>, ip: string)
    requires AllCanonical(xs) && AllCanonical(ys)
    requires forall n :: n in xs <==> n in ys
    ensures Membership(xs, ip) == Membership(ys, ip)
  {
    if ParseQuery(ip).Ok? {
      var q := ParseQuery(ip).value;
      if AnyOverlaps(q, xs) {
        var i :| 0 <= i < |xs| && Overlaps(q, xs[i]);
        assert xs[i] in ys;
      }
      if AnyOverlaps(q, ys) {
        var i :| 0 <= i < |ys| && Overlaps(q, ys[i]);
        assert ys[i] in xs;
      }
    }
  }
}
