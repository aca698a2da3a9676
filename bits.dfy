/** Fixed-width bit strings, most significant bit first.

    Python's `ipaddress` keeps an address as an unbounded integer below 2^32
    (IPv4) or 2^128 (IPv6) and computes on it with `&`, `|`, `^ ALL_ONES` and
    shifts.  Here such a value is the sequence of its `w` bits, so that bitwise
    operations are pointwise and "the first p bits" is the sequence prefix
    `a[..p]`. */
module Bits {

  import opened Results

  function Ones(n: nat): (r: seq<bool>)
    ensures |r| == n && forall i :: 0 <= i < n ==> r[i]
  {
    seq(n, _ => true)
  }

  function Zeros(n: nat): (r: seq<bool>)
    ensures |r| == n && forall i :: 0 <= i < n ==> !r[i]
  {
    seq(n, _ => false)
  }

  /** `a & b` */
  function And(a: seq<bool>, b: seq<bool>): (r: seq<bool>)
    requires |a| == |b|
    ensures |r| == |a| && forall i :: 0 <= i < |a| ==> (r[i] <==> a[i] && b[i])
  {
    seq(|a|, i requires 0 <= i < |a| => a[i] && b[i])
  }

  /** `a | b` */
  function Or(a: seq<bool>, b: seq<bool>): (r: seq<bool>)
    requires |a| == |b|
    ensures |r| == |a| && forall i :: 0 <= i < |a| ==> (r[i] <==> a[i] || b[i])
  {
    seq(|a|, i requires 0 <= i < |a| => a[i] || b[i])
  }

  /** `a ^ ALL_ONES`, the bitwise complement at the address width. */
  function Not(a: seq<bool>): (r: seq<bool>)
    ensures |r| == |a| && forall i :: 0 <= i < |a| ==> (r[i] <==> !a[i])
  {
    seq(|a|, i requires 0 <= i < |a| => !a[i])
  }

  /** `ALL_ONES ^ (ALL_ONES >> p)`: the netmask of a p-bit prefix at width w. */
  function Netmask(p: nat, w: nat): (m: seq<bool>)
    requires p <= w
    ensures |m| == w
  {
    Ones(p) + Zeros(w - p)
  }

  /** `netmask ^ ALL_ONES`: the hostmask of a p-bit prefix at width w. */
  function Hostmask(p: nat, w: nat): (m: seq<bool>)
    requires p <= w
    ensures |m| == w
  {
    Not(Netmask(p, w))
  }

  /** The object invariant of `IPv4Network` and `IPv6Network`: a w-bit network
      address with no bit set beyond the p-bit prefix. */
  predicate Canonical(base: seq<bool>, p: nat, w: nat) {
    |base| == w && p <= w && And(base, Netmask(p, w)) == base
  }

  // ---------------------------------------------------------------------------
  // Integers and bit strings

  function Pow2(n: nat): (r: nat)
    ensures r >= 1
  {
    if n == 0 then 1 else 2 * Pow2(n - 1)
  }

  /** The w low bits of n, as `n.to_bytes(...)` lays them out (big-endian). */
  function FromNat(n: nat, w: nat): (r: seq<bool>)
    ensures |r| == w
  {
    if w == 0 then [] else FromNat(n / 2, w - 1) + [n % 2 == 1]
  }

  /** `int.from_bytes(..., 'big')`: the unsigned integer a bit string spells. */
  function ToNat(b: seq<bool>): nat {
    if b == [] then 0 else 2 * ToNat(b[..|b| - 1]) + (if b[|b| - 1] then 1 else 0)
  }

  /** A value below 2^w reads back from its w bits. */
  lemma {:induction false} ToNatFromNat(n: nat, w: nat)
    requires n < Pow2(w)
    ensures ToNat(FromNat(n, w)) == n
  {
    if w > 0 {
      ToNatFromNat(n / 2, w - 1);
      var r := FromNat(n, w);
      assert r[..|r| - 1] == FromNat(n / 2, w - 1);
    }
  }

  /** A bit string is the w bits of the number it spells, and that number is below 2^w. */
  lemma {:induction false} FromNatToNat(b: seq<bool>)
    ensures ToNat(b) < Pow2(|b|)
    ensures FromNat(ToNat(b), |b|) == b
  {
    if b != [] {
      var init := b[..|b| - 1];
      FromNatToNat(init);
      var n := ToNat(b);
      assert n / 2 == ToNat(init);
      assert b == init + [b[|b| - 1]];
    }
  }

  // ---------------------------------------------------------------------------
  // Masks

  /** Masking with the netmask keeps the first p bits and clears the rest. */
  lemma MaskKeepsPrefix(a: seq<bool>, p: nat)
    requires p <= |a|
    ensures And(a, Netmask(p, |a|)) == a[..p] + Zeros(|a| - p)
  {
  }

  /** Python's `_count_righthand_zero_bits`: the number of trailing zero bits,
      the full width for an all-zero value. */
  function TrailingZeros(b: seq<bool>): (n: nat)
    ensures n <= |b|
  {
    if b == [] || b[|b| - 1] then 0 else 1 + TrailingZeros(b[..|b| - 1])
  }

  lemma {:induction false} TrailingZerosSpec(b: seq<bool>)
    ensures b[|b| - TrailingZeros(b)..] == Zeros(TrailingZeros(b))
    ensures TrailingZeros(b) < |b| ==> b[|b| - TrailingZeros(b) - 1]
  {
    if b != [] && !b[|b| - 1] {
      var init := b[..|b| - 1];
      TrailingZerosSpec(init);
      var n := TrailingZeros(init);
      var k := |init| - n;
      assert b == init + [false];
      assert b[k..] == init[k..] + [false];
      assert Zeros(n) + [false] == Zeros(n + 1);
      if k > 0 {
        assert b[k - 1] == init[k - 1];
      }
    }
  }

  /** The netmask of p has exactly w - p trailing zeros. */
  lemma {:induction false} TrailingZerosOfNetmask(p: nat, w: nat)
    requires p <= w
    ensures TrailingZeros(Netmask(p, w)) == w - p
  {
    if w > p {
      var m := Netmask(p, w);
      assert m[..w - 1] == Netmask(p, w - 1);
      TrailingZerosOfNetmask(p, w - 1);
    }
  }

  /** Python's `_prefix_from_ip_int`: count the trailing zeros, take the rest as
      the prefix length, and accept only when every bit of that prefix is set. */
  function PrefixFromNetmask(m: seq<bool>): (r: Option<nat>)
    ensures r.Some? ==> r.value <= |m|
  {
    var tz := TrailingZeros(m);
    var p := |m| - tz;
    if m[..p] == Ones(p) then Some(p) else None
  }

  /** A value is accepted as a netmask exactly when it is the netmask of some
      prefix length, and then that prefix length is the answer. */
  lemma PrefixFromNetmaskIff(m: seq<bool>, p: nat)
    ensures PrefixFromNetmask(m) == Some(p) <==> p <= |m| && m == Netmask(p, |m|)
  {
    var tz := TrailingZeros(m);
    TrailingZerosSpec(m);
    var q := |m| - tz;
    if PrefixFromNetmask(m) == Some(p) {
      assert m == m[..q] + m[q..];
    }
    if p <= |m| && m == Netmask(p, |m|) {
      TrailingZerosOfNetmask(p, |m|);
    }
  }

  /** The int part of Python's `_prefix_from_ip_string`: read the mask as a
      netmask, and failing that as a hostmask (its complement a netmask). */
  function PrefixFromMask(m: seq<bool>): (r: Option<nat>)
    ensures r.Some? ==> r.value <= |m|
  {
    match PrefixFromNetmask(m)
    case Some(p) => Some(p)
    case None => PrefixFromNetmask(Not(m))
  }

  /** The hostmask of a prefix strictly between 0 and w is no netmask: its
      first bit is clear and its last bit set. */
  lemma HostmaskIsNoNetmask(p: nat, w: nat)
    requires 0 < p < w
    ensures PrefixFromNetmask(Hostmask(p, w)).None?
  {
    var m := Hostmask(p, w);
    assert !m[0] && m[w - 1];
    if PrefixFromNetmask(m).Some? {
      var q := PrefixFromNetmask(m).value;
      PrefixFromNetmaskIff(m, q);
      assert false;
    }
  }

  /** The hostmasks of /0 and /w are the netmasks of /w and /0. */
  lemma ExtremeHostmasks(w: nat)
    ensures Hostmask(0, w) == Netmask(w, w)
    ensures Hostmask(w, w) == Netmask(0, w)
  {
  }

  /** The netmask reading wins: a mask gives prefix length p exactly when it is
      the netmask of p, or when it is the hostmask of p and no netmask at all.
      The hostmask of p is itself a netmask only for p = 0 (all ones) and
      p = w (all zeros), so those two read as /w and /0, not as their hostmask. */
  lemma PrefixFromMaskIff(m: seq<bool>, p: nat)
    ensures PrefixFromMask(m) == Some(p) <==>
      p <= |m| && (m == Netmask(p, |m|) || (m == Hostmask(p, |m|) && 0 < p < |m|))
  {
    var w := |m|;
    if p <= w && m == Netmask(p, w) {
      PrefixFromNetmaskIff(m, p);
    } else if p <= w && m == Hostmask(p, w) && 0 < p < w {
      HostmaskIsNoNetmask(p, w);
      HostmaskComplement(p, w);
      PrefixFromNetmaskIff(Not(m), p);
    }
    if PrefixFromMask(m) == Some(p) {
      PrefixFromMaskSound(m, p);
    }
  }

  /** What the mask reading accepts: a netmask, or the hostmask of a prefix
      strictly between 0 and w. */
  lemma PrefixFromMaskSound(m: seq<bool>, p: nat)
    requires PrefixFromMask(m) == Some(p)
    ensures p <= |m| && (m == Netmask(p, |m|) || (m == Hostmask(p, |m|) && 0 < p < |m|))
  {
    match PrefixFromNetmask(m)
    case Some(_) => PrefixFromNetmaskIff(m, p);
    case None => HostmaskReading(m, p);
  }

  /** A mask read only through its complement is the hostmask of a prefix
      strictly between 0 and w. */
  lemma HostmaskReading(m: seq<bool>, p: nat)
    requires PrefixFromNetmask(m).None? && PrefixFromNetmask(Not(m)) == Some(p)
    ensures 0 < p < |m| && m == Hostmask(p, |m|)
  {
    var w := |m|;
    PrefixFromNetmaskIff(Not(m), p);
    DoubleComplement(m);
    assert m == Hostmask(p, w);
    ExtremeHostmasks(w);
    if p == 0 {
      PrefixFromNetmaskIff(m, w);
    } else if p == w {
      PrefixFromNetmaskIff(m, 0);
    }
  }

  lemma DoubleComplement(m: seq<bool>)
    ensures Not(Not(m)) == m
  {
  }

  /** Complementing a netmask gives its hostmask, and back. */
  lemma HostmaskComplement(p: nat, w: nat)
    requires p <= w
    ensures Not(Hostmask(p, w)) == Netmask(p, w)
  {
  }
}
