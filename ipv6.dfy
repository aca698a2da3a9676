/** IPv6 networks as `ipaddress.IPv6Network` reads them from text, so far as
    a list entry needs them: eight colon-separated hextets with at most one
    `::` run of zero hextets, and a decimal prefix length up to 128. */
module Ipv6 {

  import opened Results
  import opened Text
  import opened Bits

  /** `IPV6LENGTH`. */
  const Width: nat := 128
  /** `_HEXTET_COUNT`. */
  const HextetCount: nat := 8

  /** An `IPv6Network`: its network address and its prefix length. */
  datatype Network = Network(base: seq<bool>, prefixLen: nat)

  predicate IsCanonical(n: Network) {
    Canonical(n.base, n.prefixLen, Width)
  }

  // ---------------------------------------------------------------------------
  // Hextets

  predicate IsHexDigit(c: char) {
    IsDigit(c) || 'a' <= c <= 'f' || 'A' <= c <= 'F'
  }

  function HexDigitValue(c: char): (d: nat)
    requires IsHexDigit(c)
    ensures d < 16
  {
    if IsDigit(c) then DigitValue(c)
    else if 'a' <= c <= 'f' then c as int - 'a' as int + 10
    else c as int - 'A' as int + 10
  }

  /** `int(s, 16)` on a string of hexadecimal digits. */
  function HexValue(s: string): (n: nat)
    requires forall i :: 0 <= i < |s| ==> IsHexDigit(s[i])
    ensures n < Pow2(4 * |s|)
  {
    if s == [] then 0
    else
      var init := s[..|s| - 1];
      DropHexDigit(s);
      16 * HexValue(init) + HexDigitValue(s[|s| - 1])
  }

  predicate IsHexText(s: string) {
    forall i :: 0 <= i < |s| ==> IsHexDigit(s[i])
  }

  /** Dropping the last digit of a hexadecimal string leaves hexadecimal
      digits, worth four bits fewer. */
  lemma DropHexDigit(s: string)
    requires |s| > 0 && forall i :: 0 <= i < |s| ==> IsHexDigit(s[i])
    ensures IsHexText(s[..|s| - 1])
    ensures Pow2(4 * |s|) == 16 * Pow2(4 * (|s| - 1))
  {
    PowSplit(4 * (|s| - 1), 4);
    assert Pow2(4) == 16;
  }

  lemma {:induction false} PowSplit(a: nat, b: nat)
    ensures Pow2(a + b) == Pow2(a) * Pow2(b)
  {
    if b > 0 {
      PowSplit(a, b - 1);
    }
  }

  /** `_parse_hextet`: one to four hexadecimal digits. */
  function ParseHextet(s: string): (r: Option<seq<bool>>)
    ensures r.Some? ==> |r.value| == 16
  {
    if 1 <= |s| <= 4 && forall i :: 0 <= i < |s| ==> IsHexDigit(s[i])
    then Some(FromNat(HexValue(s), 16))
    else None
  }

  /** The hextets of `parts`, most significant first. */
  function ParseHextets(parts: seq<string>): (r: Option<seq<bool>>)
    ensures r.Some? ==> |r.value| == 16 * |parts|
  {
    if parts == [] then Some([])
    else match ParseHextet(parts[0])
      case None => None
      case Some(h) =>
        match ParseHextets(parts[1..])
        case None => None
        case Some(rest) => Some(h + rest)
  }

  /** The indices `i` with `lo <= i < hi` whose part is empty: the places of a `::`. */
  function Gaps(parts: seq<string>, lo: nat, hi: nat): (r: seq<nat>)
    requires lo <= hi <= |parts|
    ensures forall k :: 0 <= k < |r| ==> lo <= r[k] < hi && parts[r[k]] == []
    decreases hi - lo
  {
    if lo == hi then []
    else if parts[lo] == [] then [lo] + Gaps(parts, lo + 1, hi)
    else Gaps(parts, lo + 1, hi)
  }

  /** `_ip_int_from_string` for IPv6: split on ':' into 3 to 9 parts; at most one
      inner empty part, which stands for the zero hextets the others leave out
      (at least one); a leading or trailing empty part only as half of a `::`;
      without a `::`, exactly eight hextets. */
  function ParseAddress(s: string): (r: Option<seq<bool>>)
    ensures r.Some? ==> |r.value| == Width
  {
    if s == [] then None
    else
      var parts := Split(s, ':');
      var last := |parts| - 1;
      if |parts| < 3 || |parts| > HextetCount + 1 then None
      else if '.' in parts[last] then None   // an embedded IPv4 suffix is not part of this model
      else
        var gaps := Gaps(parts, 1, last);
        if |gaps| > 1 then None
        else if |gaps| == 1 then
          var k := gaps[0];
          var hi := if parts[0] == [] then k - 1 else k;
          var lo := if parts[last] == [] then last - k - 1 else last - k;
          if parts[0] == [] && hi != 0 then None
          else if parts[last] == [] && lo != 0 then None
          else if hi + lo >= HextetCount then None
          else
            match ParseHextets(parts[..hi])
            case None => None
            case Some(high) =>
              match ParseHextets(parts[|parts| - lo..])
              case None => None
              case Some(low) => Some(high + Zeros(16 * (HextetCount - hi - lo)) + low)
        else if |parts| != HextetCount || parts[0] == [] || parts[last] == [] then None
        else ParseHextets(parts)
  }

  /** `IPv6Network(s, strict)`: the address before an optional single '/', a
      decimal prefix length up to 128 after it (128 when absent); host bits
      are cleared, or refused when `strict`. */
  function ParseNetwork(s: string, strict: bool): (r: Option<Network>)
    ensures r.Some? ==> IsCanonical(r.value)
  {
    var parts := Split(s, '/');
    if |parts| > 2 then None
    else match ParseAddress(parts[0])
      case None => None
      case Some(a) =>
        var prefix := if |parts| == 1 then Some(Width)
                      else if IsDecimal(parts[1]) && DecimalValue(parts[1]) <= Width then Some(DecimalValue(parts[1]))
                      else None;
        match prefix
        case None => None
        case Some(p) =>
          var base := And(a, Netmask(p, Width));
          MaskKeepsPrefix(a, p);
          MaskKeepsPrefix(base, p);
          assert base[..p] == a[..p];
          if strict && base != a then None else Some(Network(base, p))
  }

  // ---------------------------------------------------------------------------
  // The exploded form

  function HexDigitChar(d: nat): (c: char)
    requires d < 16
    ensures IsHexDigit(c) && HexDigitValue(c) == d
  {
    if d < 10 then DigitChar(d) else ('a' as int + d - 10) as char
  }

  /** `'%0*x' % (k, n)`: `n` as exactly `k` lower-case hexadecimal digits. */
  function HexFormat(n: nat, k: nat): (s: string)
    ensures |s| == k && forall i :: 0 <= i < k ==> IsHexDigit(s[i])
  {
    if k == 0 then [] else HexFormat(n / 16, k - 1) + [HexDigitChar(n % 16)]
  }

  /** The hextets of an address, each as four hexadecimal digits. */
  function HextetTexts(a: seq<bool>): (r: seq<string>)
    requires |a| % 16 == 0
    ensures |r| == |a| / 16
  {
    if a == [] then [] else [HexFormat(ToNat(a[..16]), 4)] + HextetTexts(a[16..])
  }

  /** `IPv6Address.exploded`: eight groups of four hexadecimal digits. */
  function Exploded(a: seq<bool>): string
    requires |a| == Width
  {
    Join(HextetTexts(a), ':')
  }

  lemma {:induction false} HexFormatValue(n: nat, k: nat)
    requires n < Pow2(4 * k)
    ensures HexValue(HexFormat(n, k)) == n
  {
    if k > 0 {
      var m, d := n / 16, n % 16;
      DropDigitBound(n, k);
      HexFormatValue(m, k - 1);
      var s := HexFormat(n, k);
      assert s[..|s| - 1] == HexFormat(m, k - 1);
      assert HexDigitValue(s[|s| - 1]) == d;
    }
  }

  /** Dropping the last hexadecimal digit of a k-digit value leaves a (k-1)-digit value. */
  lemma DropDigitBound(n: nat, k: nat)
    requires k > 0 && n < Pow2(4 * k)
    ensures n / 16 < Pow2(4 * (k - 1))
  {
    PowSplit(4 * (k - 1), 4);
    assert Pow2(4) == 16;
  }

  /** Sixteen bits, written as four hexadecimal digits, parse back. */
  lemma HextetParses(b: seq<bool>)
    requires |b| == 16
    ensures ParseHextet(HexFormat(ToNat(b), 4)) == Some(b)
  {
    FromNatToNat(b);
    HexFormatValue(ToNat(b), 4);
  }

  lemma {:induction false} HextetTextsParse(a: seq<bool>)
    requires |a| % 16 == 0
    ensures ParseHextets(HextetTexts(a)) == Some(a)
  {
    if a != [] {
      var t := HextetTexts(a);
      HextetParses(a[..16]);
      assert ParseHextet(t[0]) == Some(a[..16]);
      HextetTextsParse(a[16..]);
      assert t[1..] == HextetTexts(a[16..]);
      assert ParseHextets(t) == Some(a[..16] + a[16..]);
      assert a == a[..16] + a[16..];
    }
  }

  /** Every hextet text is four hexadecimal digits. */
  lemma {:induction false} HextetTextsDigits(a: seq<bool>, k: nat)
    requires |a| % 16 == 0 && k < |a| / 16
    ensures |HextetTexts(a)[k]| == 4
    ensures forall i :: 0 <= i < |HextetTexts(a)[k]| ==> IsHexDigit(HextetTexts(a)[k][i])
  {
    if k > 0 {
      assert HextetTexts(a)[k] == HextetTexts(a[16..])[k - 1];
      HextetTextsDigits(a[16..], k - 1);
    }
  }

  lemma {:induction false} NoGaps(parts: seq<string>, lo: nat, hi: nat)
    requires lo <= hi <= |parts|
    requires forall k :: lo <= k < hi ==> parts[k] != []
    ensures Gaps(parts, lo, hi) == []
    decreases hi - lo
  {
    if lo < hi {
      NoGaps(parts, lo + 1, hi);
    }
  }

  /** `IPv6Address(a.exploded) == a`: the exploded text parses back to the address. */
  lemma ExplodedRoundTrip(a: seq<bool>)
    requires |a| == Width
    ensures ParseAddress(Exploded(a)) == Some(a)
  {
    var parts := HextetTexts(a);
    HextetTextsParse(a);
    forall k | 0 <= k < |parts| ensures ':' !in parts[k] && '.' !in parts[k] && parts[k] != [] {
      HextetTextsDigits(a, k);
      forall i | 0 <= i < |parts[k]| ensures parts[k][i] != ':' && parts[k][i] != '.' {
        assert IsHexDigit(parts[k][i]);
      }
    }
    SplitJoin(parts, ':');
    NoGaps(parts, 1, |parts| - 1);
  }

  /** Every IPv6 address text has a ':', which no IPv4 text has. */
  lemma AddressHasColon(s: string)
    requires ParseAddress(s).Some?
    ensures ':' in s
  {
    SplitSingle(s, ':');
  }
}
