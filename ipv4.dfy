/** IPv4 addresses and networks as Python's `ipaddress.IPv4Address` and
    `ipaddress.IPv4Network` read them from text: dotted quads, prefix lengths,
    netmasks and hostmasks; and the `overlaps` test between two networks. */
module Ipv4 {

  import opened Results
  import opened Text
  import opened Bits

  /** `IPV4LENGTH`, the address width and the largest prefix length. */
  const Width: nat := 32

  /** An `IPv4Network`: its network address (the bits of `network_address`)
      and its prefix length. The netmask is `Netmask(prefixLen, Width)`. */
  datatype Network = Network(base: seq<bool>, prefixLen: nat)

  /** The object invariant `IPv4Network` establishes: a 32-bit base with no
      bit set beyond the prefix. */
  predicate IsCanonical(n: Network) {
    Canonical(n.base, n.prefixLen, Width)
  }

  // ---------------------------------------------------------------------------
  // Dotted quads

  /** `_parse_octet`: one to three ASCII digits, no leading zero, at most 255. */
  function ParseOctet(s: string): (r: Option<nat>)
    ensures r.Some? ==> r.value < 256
  {
    if s == [] then None                         // empty octet
    else if !IsDecimal(s) then None              // only decimal digits
    else if |s| > 3 then None                    // at most three characters
    else if s != "0" && s[0] == '0' then None    // leading zeros
    else if DecimalValue(s) > 255 then None      // octet above 255
    else Some(DecimalValue(s))
  }

  /** `int.from_bytes(map(_parse_octet, parts), 'big')`, as bits. */
  function ParseOctets(parts: seq<string>): (r: Option<seq<bool>>)
    ensures r.Some? ==> |r.value| == 8 * |parts|
  {
    if parts == [] then Some([])
    else match ParseOctet(parts[0])
      case None => None
      case Some(o) =>
        match ParseOctets(parts[1..])
        case None => None
        case Some(rest) => Some(FromNat(o, 8) + rest)
  }

  /** `_ip_int_from_string`: a non-empty string of exactly four dot-separated octets. */
  function ParseAddress(s: string): (r: Option<seq<bool>>)
    ensures r.Some? ==> |r.value| == Width
  {
    if s == [] then None
    else
      var parts := Split(s, '.');
      if |parts| != 4 then None else ParseOctets(parts)
  }

  /** The decimal text of each byte, as `str(IPv4Address)` writes them. */
  function OctetTexts(a: seq<bool>): (r: seq<string>)
    requires |a| % 8 == 0
    ensures |r| == |a| / 8
  {
    if a == [] then [] else [FormatDecimal(ToNat(a[..8]))] + OctetTexts(a[8..])
  }

  /** `str(IPv4Address)`: the dotted-quad text of an address. */
  function FormatAddress(a: seq<bool>): string
    requires |a| == Width
  {
    Join(OctetTexts(a), '.')
  }

  // ---------------------------------------------------------------------------
  // Prefix text and networks

  /** `_make_netmask` on the text after the '/': a decimal prefix length up to
      32 (`_prefix_from_prefix_string`); failing that, a dotted netmask or
      hostmask (`_prefix_from_ip_string`). */
  function ParsePrefix(s: string): (r: Option<nat>)
    ensures r.Some? ==> r.value <= Width
  {
    if IsDecimal(s) && DecimalValue(s) <= Width then Some(DecimalValue(s))
    else match ParseAddress(s)
      case None => None
      case Some(m) => PrefixFromMask(m)
  }

  /** `IPv4Network(s, strict)`: the address before an optional single '/', the
      prefix after it (32 when absent); the host bits are cleared, or, when
      `strict`, a string with host bits set is refused. */
  function ParseNetwork(s: string, strict: bool): (r: Option<Network>)
    ensures r.Some? ==> IsCanonical(r.value)
  {
    var parts := Split(s, '/');
    if |parts| > 2 then None
    else match ParseAddress(parts[0])
      case None => None
      case Some(a) =>
        match (if |parts| == 1 then Some(Width) else ParsePrefix(parts[1]))
        case None => None
        case Some(p) =>
          var base := And(a, Netmask(p, Width));
          MaskedIsCanonical(a, p);
          if strict && base != a then None else Some(Network(base, p))
  }

  // ---------------------------------------------------------------------------
  // Containment and overlap

  /** `address in network`: the address masked by the netmask is the network address. */
  predicate Contains(n: Network, a: seq<bool>)
    requires IsCanonical(n) && |a| == Width
  {
    And(a, Netmask(n.prefixLen, Width)) == n.base
  }

  /** `broadcast_address`: the network address with every host bit set. */
  function Broadcast(n: Network): (b: seq<bool>)
    requires IsCanonical(n)
    ensures |b| == Width
  {
    Or(n.base, Hostmask(n.prefixLen, Width))
  }

  /** `x.overlaps(y)`: either network holds the first or the last address of the other. */
  predicate Overlaps(x: Network, y: Network)
    requires IsCanonical(x) && IsCanonical(y)
  {
    Contains(y, x.base) || Contains(y, Broadcast(x)) || Contains(x, y.base) || Contains(x, Broadcast(y))
  }

  // ---------------------------------------------------------------------------
  // Lemmas

  /** Masking an address gives a canonical network, whatever its host bits were. */
  lemma MaskedIsCanonical(a: seq<bool>, p: nat)
    requires |a| == Width && p <= Width
    ensures IsCanonical(Network(And(a, Netmask(p, Width)), p))
  {
  }

  /** A canonical network is its leading bits followed by zeros. */
  lemma CanonicalShape(n: Network)
    requires IsCanonical(n)
    ensures n.base == n.base[..n.prefixLen] + Zeros(Width - n.prefixLen)
  {
    MaskKeepsPrefix(n.base, n.prefixLen);
  }

  /** An address lies in a canonical network exactly when its first
      `prefixLen` bits are those of the network address. */
  lemma ContainsIff(n: Network, a: seq<bool>)
    requires IsCanonical(n) && |a| == Width
    ensures Contains(n, a) <==> a[..n.prefixLen] == n.base[..n.prefixLen]
  {
    MaskKeepsPrefix(a, n.prefixLen);
    CanonicalShape(n);
    var p := n.prefixLen;
    if a[..p] == n.base[..p] {
      assert And(a, Netmask(p, Width)) == n.base;
    }
    if Contains(n, a) {
      assert (a[..p] + Zeros(Width - p))[..p] == a[..p];
    }
  }

  /** The broadcast address shares the network's leading bits. */
  lemma BroadcastPrefix(n: Network)
    requires IsCanonical(n)
    ensures Broadcast(n)[..n.prefixLen] == n.base[..n.prefixLen]
  {
  }

  /** Agreeing on `n` leading bits means agreeing on any fewer. */
  lemma ShorterPrefix(a: seq<bool>, b: seq<bool>, k: nat, n: nat)
    requires k <= n <= |a| && n <= |b| && a[..n] == b[..n]
    ensures a[..k] == b[..k]
  {
    assert a[..k] == a[..n][..k] && b[..k] == b[..n][..k];
  }

  /** `overlaps` is symmetric. */
  lemma OverlapsSymmetric(x: Network, y: Network)
    requires IsCanonical(x) && IsCanonical(y)
    ensures Overlaps(x, y) <==> Overlaps(y, x)
  {
  }

  /** Overlap of a shorter-prefix network `x` with `y`: they overlap exactly
      when `y` starts with `x`'s prefix, i.e. `y` is inside `x`. */
  lemma OverlapsNested(x: Network, y: Network)
    requires IsCanonical(x) && IsCanonical(y) && x.prefixLen <= y.prefixLen
    ensures Overlaps(x, y) <==> x.base[..x.prefixLen] == y.base[..x.prefixLen]
  {
    var k := x.prefixLen;
    ContainsIff(y, x.base);
    ContainsIff(y, Broadcast(x));
    ContainsIff(x, y.base);
    ContainsIff(x, Broadcast(y));
    BroadcastPrefix(x);
    BroadcastPrefix(y);
    if Contains(y, x.base) {
      ShorterPrefix(x.base, y.base, k, y.prefixLen);
    }
    if Contains(y, Broadcast(x)) {
      ShorterPrefix(Broadcast(x), y.base, k, y.prefixLen);
    }
    if Contains(x, Broadcast(y)) {
      ShorterPrefix(Broadcast(y), y.base, k, y.prefixLen);
    }
  }

  /** Two canonical networks overlap exactly when they agree on the bits of the
      shorter prefix: CIDR blocks are nested or disjoint. */
  lemma OverlapsIff(x: Network, y: Network)
    requires IsCanonical(x) && IsCanonical(y)
    ensures var k := if x.prefixLen <= y.prefixLen then x.prefixLen else y.prefixLen;
      Overlaps(x, y) <==> x.base[..k] == y.base[..k]
  {
    if x.prefixLen <= y.prefixLen {
      OverlapsNested(x, y);
    } else {
      OverlapsNested(y, x);
      OverlapsSymmetric(x, y);
    }
  }

  /** For a single host (a /32 network) overlapping reduces to the membership
      test: the host masked to the network's prefix is the network address. */
  lemma HostOverlapsIff(a: seq<bool>, n: Network)
    requires |a| == Width && IsCanonical(n)
    ensures IsCanonical(Network(a, Width))
    ensures Overlaps(Network(a, Width), n) <==> And(a, Netmask(n.prefixLen, Width)) == n.base
  {
    assert And(a, Netmask(Width, Width)) == a;
    OverlapsIff(Network(a, Width), n);
    ContainsIff(n, a);
  }

  // ---------------------------------------------------------------------------
  // Text round trips

  /** The octet parser accepts exactly the canonical numerals of 0..255. */
  lemma OctetIff(s: string, n: nat)
    ensures ParseOctet(s) == Some(n) <==> n < 256 && s == FormatDecimal(n)
  {
    if ParseOctet(s) == Some(n) {
      CanonicalNumeral(s);
    }
    if n < 256 && s == FormatDecimal(n) {
      FormatDecimalReadsBack(n);
      FormatDecimalLength(n);
    }
  }

  /** Every byte of an address prints as an octet the parser reads back. */
  lemma {:induction false} OctetTextsParse(a: seq<bool>)
    requires |a| % 8 == 0
    ensures ParseOctets(OctetTexts(a)) == Some(a)
    ensures forall k :: 0 <= k < |OctetTexts(a)| ==> IsDecimal(OctetTexts(a)[k])
  {
    if a != [] {
      OctetParses(a[..8]);
      OctetTextsParse(a[8..]);
      assert OctetTexts(a)[1..] == OctetTexts(a[8..]);
      assert a == a[..8] + a[8..];
      forall k | 0 <= k < |OctetTexts(a)|
        ensures IsDecimal(OctetTexts(a)[k])
      {
        if k > 0 {
          assert OctetTexts(a)[k] == OctetTexts(a[8..])[k - 1];
        }
      }
    }
  }

  /** Eight bits, written as a decimal numeral, parse back. */
  lemma OctetParses(b: seq<bool>)
    requires |b| == 8
    ensures IsDecimal(FormatDecimal(ToNat(b)))
    ensures ParseOctet(FormatDecimal(ToNat(b))) == Some(ToNat(b))
    ensures FromNat(ToNat(b), 8) == b
  {
    var n := ToNat(b);
    FromNatToNat(b);
    assert Pow2(8) == 256;
    OctetIff(FormatDecimal(n), n);
    FormatDecimalReadsBack(n);
  }

  /** Octets the parser accepts print back as the same texts. */
  lemma {:induction false} ParseOctetsCanonical(parts: seq<string>, a: seq<bool>)
    requires ParseOctets(parts) == Some(a)
    ensures OctetTexts(a) == parts
  {
    if parts != [] {
      var o := ParseOctet(parts[0]).value;
      var rest := ParseOctets(parts[1..]).value;
      assert a == FromNat(o, 8) + rest;
      assert a[..8] == FromNat(o, 8) && a[8..] == rest;
      assert Pow2(8) == 256;
      ToNatFromNat(o, 8);
      OctetIff(parts[0], o);
      ParseOctetsCanonical(parts[1..], rest);
    }
  }

  /** `IPv4Address(str(a)) == a`: printing an address and parsing it back is the identity. */
  lemma AddressRoundTrip(a: seq<bool>)
    requires |a| == Width
    ensures ParseAddress(FormatAddress(a)) == Some(a)
  {
    OctetTextsParse(a);
    forall k | 0 <= k < |OctetTexts(a)| ensures '.' !in OctetTexts(a)[k] {
      DecimalExcludes(OctetTexts(a)[k], '.');
    }
    SplitJoin(OctetTexts(a), '.');
  }

  /** A dotted quad holds only digits and dots; in particular no '/' and no ':'. */
  lemma AddressTextExcludes(a: seq<bool>, c: char)
    requires |a| == Width && !IsDigit(c) && c != '.'
    ensures c !in FormatAddress(a)
  {
    OctetTextsParse(a);
    forall k | 0 <= k < |OctetTexts(a)| ensures c !in OctetTexts(a)[k] {
      DecimalExcludes(OctetTexts(a)[k], c);
    }
    JoinExcludes(OctetTexts(a), '.', c);
  }

  /** The address parser accepts only the canonical dotted quad of the address it returns. */
  lemma AddressCanonical(s: string, a: seq<bool>)
    requires ParseAddress(s) == Some(a)
    ensures s == FormatAddress(a)
  {
    JoinSplit(s, '.');
    ParseOctetsCanonical(Split(s, '.'), a);
  }

  /** A dotted quad is never a decimal numeral, so it never reads as a prefix length. */
  lemma AddressTextNotDecimal(a: seq<bool>)
    requires |a| == Width
    ensures !IsDecimal(FormatAddress(a))
  {
    AddressRoundTrip(a);
    SplitSingle(FormatAddress(a), '.');
  }

  /** The text after '/' names prefix length `p` exactly when it is a decimal
      numeral of value `p`, the dotted netmask of `p`, or the dotted hostmask of
      a `p` strictly between 0 and 32 (0.0.0.0 reads as /0 and 255.255.255.255
      as /32, as netmasks). */
  lemma ParsePrefixIff(s: string, p: nat)
    ensures ParsePrefix(s) == Some(p) <==>
      p <= Width &&
      ((IsDecimal(s) && DecimalValue(s) == p) ||
       s == FormatAddress(Netmask(p, Width)) ||
       (0 < p < Width && s == FormatAddress(Hostmask(p, Width))))
  {
    if p <= Width {
      if s == FormatAddress(Netmask(p, Width)) {
        AddressTextNotDecimal(Netmask(p, Width));
        AddressRoundTrip(Netmask(p, Width));
        PrefixFromMaskIff(Netmask(p, Width), p);
      } else if 0 < p < Width && s == FormatAddress(Hostmask(p, Width)) {
        AddressTextNotDecimal(Hostmask(p, Width));
        AddressRoundTrip(Hostmask(p, Width));
        PrefixFromMaskIff(Hostmask(p, Width), p);
      }
    }
    if ParsePrefix(s) == Some(p) && !(IsDecimal(s) && DecimalValue(s) <= Width) {
      var m := ParseAddress(s).value;
      AddressCanonical(s, m);
      PrefixFromMaskIff(m, p);
    }
  }

  // ---------------------------------------------------------------------------
  // Network text

  /** The text of a network with an explicit prefix: the address text, '/', the prefix text. */
  lemma SplitAtSlash(t: string, x: string)
    requires '/' !in t && '/' !in x
    ensures Split(t + "/" + x, '/') == [t, x]
  {
    SplitAppend(t, x, '/');
    SplitNoSeparator(x, '/');
  }

  /** Host bits are zeroed, not refused: a non-strict parse of `t/x` is the
      address of `t` masked to the prefix of `x`; a strict parse succeeds
      exactly when no host bit is set, and then gives the same network. */
  lemma ParseNetworkMasks(t: string, x: string, a: seq<bool>, p: nat)
    requires '/' !in t && '/' !in x
    requires ParseAddress(t) == Some(a) && ParsePrefix(x) == Some(p)
    ensures ParseNetwork(t + "/" + x, false) == Some(Network(And(a, Netmask(p, Width)), p))
    ensures ParseNetwork(t + "/" + x, true).Some? <==> And(a, Netmask(p, Width)) == a
    ensures ParseNetwork(t + "/" + x, true).Some? ==> ParseNetwork(t + "/" + x, true) == ParseNetwork(t + "/" + x, false)
  {
    SplitAtSlash(t, x);
  }

  /** A bare address is the single-host network: prefix 32, base the address itself. */
  lemma ParseHost(t: string, a: seq<bool>, strict: bool)
    requires ParseAddress(t) == Some(a)
    ensures ParseNetwork(t, strict) == Some(Network(a, Width))
  {
    AddressCanonical(t, a);
    AddressTextExcludes(a, '/');
    SplitNoSeparator(t, '/');
    assert And(a, Netmask(Width, Width)) == a;
  }

  /** A string with more than one '/' is not a network. */
  lemma TwoSlashesRefused(s: string, strict: bool)
    requires |Split(s, '/')| > 2
    ensures ParseNetwork(s, strict) == None
  {
  }

  /** An IPv4 network text never holds a ':', so IPv6 text is never read as IPv4. */
  lemma NetworkTextHasNoColon(s: string, strict: bool)
    requires ParseNetwork(s, strict).Some?
    ensures ':' !in s
  {
    var parts := Split(s, '/');
    JoinSplit(s, '/');
    var a := ParseAddress(parts[0]).value;
    AddressCanonical(parts[0], a);
    AddressTextExcludes(a, ':');
    if |parts| == 2 {
      var x := parts[1];
      if IsDecimal(x) && DecimalValue(x) <= Width {
        DecimalExcludes(x, ':');
      } else {
        var m := ParseAddress(x).value;
        AddressCanonical(x, m);
        AddressTextExcludes(m, ':');
      }
      assert Join(parts, '/') == parts[0] + ['/'] + x;
    }
  }

  /** A dotted mask after '/' reads as the prefix its bits give, in either orientation. */
  lemma MaskText(m: seq<bool>)
    requires |m| == Width
    ensures ParsePrefix(FormatAddress(m)) == PrefixFromMask(m)
  {
    AddressTextNotDecimal(m);
    AddressRoundTrip(m);
  }

  /** Two prefix texts naming the same prefix length give the same network. */
  lemma SamePrefixSameNetwork(t: string, x: string, y: string, strict: bool)
    requires '/' !in t && '/' !in x && '/' !in y
    requires ParsePrefix(x) == ParsePrefix(y)
    ensures ParseNetwork(t + "/" + x, strict) == ParseNetwork(t + "/" + y, strict)
  {
    SplitAtSlash(t, x);
    SplitAtSlash(t, y);
  }

  /** `t/p`, `t/<netmask of p>` and `t/<hostmask of p>` are the same network
      for every prefix length strictly between 0 and 32. */
  lemma MaskSpellings(t: string, p: nat, strict: bool)
    requires '/' !in t && 0 < p < Width
    ensures ParseNetwork(t + "/" + FormatDecimal(p), strict) == ParseNetwork(t + "/" + FormatAddress(Netmask(p, Width)), strict)
    ensures ParseNetwork(t + "/" + FormatDecimal(p), strict) == ParseNetwork(t + "/" + FormatAddress(Hostmask(p, Width)), strict)
  {
    FormatDecimalReadsBack(p);
    DecimalExcludes(FormatDecimal(p), '/');
    AddressTextExcludes(Netmask(p, Width), '/');
    AddressTextExcludes(Hostmask(p, Width), '/');
    ParsePrefixIff(FormatDecimal(p), p);
    ParsePrefixIff(FormatAddress(Netmask(p, Width)), p);
    ParsePrefixIff(FormatAddress(Hostmask(p, Width)), p);
    SamePrefixSameNetwork(t, FormatDecimal(p), FormatAddress(Netmask(p, Width)), strict);
    SamePrefixSameNetwork(t, FormatDecimal(p), FormatAddress(Hostmask(p, Width)), strict);
  }

  /** A bare address, the address with `/32` and with `/255.255.255.255` are the
      same single-host network. */
  lemma HostSpellings(t: string, a: seq<bool>, strict: bool)
    requires ParseAddress(t) == Some(a)
    ensures ParseNetwork(t, strict) == Some(Network(a, Width))
    ensures ParseNetwork(t + "/" + FormatDecimal(Width), strict) == Some(Network(a, Width))
    ensures ParseNetwork(t + "/" + FormatAddress(Netmask(Width, Width)), strict) == Some(Network(a, Width))
  {
    ParseHost(t, a, strict);
    AddressCanonical(t, a);
    AddressTextExcludes(a, '/');
    FormatDecimalReadsBack(Width);
    DecimalExcludes(FormatDecimal(Width), '/');
    AddressTextExcludes(Netmask(Width, Width), '/');
    ParsePrefixIff(FormatDecimal(Width), Width);
    ParsePrefixIff(FormatAddress(Netmask(Width, Width)), Width);
    assert And(a, Netmask(Width, Width)) == a;
    ParseNetworkMasks(t, FormatDecimal(Width), a, Width);
    ParseNetworkMasks(t, FormatAddress(Netmask(Width, Width)), a, Width);
  }

  /** The all-zeros and all-ones masks read as /0 and /32: as netmasks, never as hostmasks. */
  lemma ExtremeMasks()
    ensures ParsePrefix(FormatAddress(Zeros(Width))) == Some(0)
    ensures ParsePrefix(FormatAddress(Ones(Width))) == Some(Width)
  {
    assert Zeros(Width) == Netmask(0, Width);
    assert Ones(Width) == Netmask(Width, Width);
    ParsePrefixIff(FormatAddress(Zeros(Width)), 0);
    ParsePrefixIff(FormatAddress(Ones(Width)), Width);
  }

  /** A dotted mask whose bits are contiguous in neither orientation is refused. */
  lemma NonContiguousRefused(m: seq<bool>)
    requires |m| == Width
    requires forall p: nat :: p <= Width ==> m != Netmask(p, Width) && m != Hostmask(p, Width)
    ensures ParsePrefix(FormatAddress(m)) == None
  {
    MaskText(m);
    if PrefixFromMask(m).Some? {
      PrefixFromMaskIff(m, PrefixFromMask(m).value);
      assert false;
    }
  }
}
