/** The examples of `CIDRlist`'s docstring and the scenario of `cidrlist.py`'s
    own `__main__` block, proved about the model.

    The proofs work on texts spelled from their numbers (`QuadText(192, 168,
    0, 0)` rather than `"192.168.0.0"`): the verifier evaluates every function
    applied to a literal string, which makes lemmas about literals slow. So
    each group comes in three parts: a lemma about the spelled texts that
    carries the proof (`DocstringNetworks`), a small `...AsWritten` lemma that
    equates the spelled texts with the literal ones, and a `...Texts` lemma
    that combines the two and states the fact about the literal texts
    (`DocstringNetworkTexts`). */
module SelfTest {

  import opened Results
  import opened Text
  import opened Bits
  import Ipv4
  import opened Networks
  import opened CidrLists

  /** The address `w.x.y.z`. */
  function Quad(w: nat, x: nat, y: nat, z: nat): (a: seq<bool>)
    requires w < 256 && x < 256 && y < 256 && z < 256
    ensures |a| == Ipv4.Width
  {
    FromNat(w, 8) + FromNat(x, 8) + FromNat(y, 8) + FromNat(z, 8)
  }

  /** The text `"w.x.y.z"`. */
  function QuadText(w: nat, x: nat, y: nat, z: nat): string {
    FormatDecimal(w) + "." + FormatDecimal(x) + "." + FormatDecimal(y) + "." + FormatDecimal(z)
  }

  lemma FromNatInjective(m: nat, n: nat)
    requires m < 256 && n < 256
    ensures FromNat(m, 8) == FromNat(n, 8) <==> m == n
  {
    assert Pow2(8) == 256;
    ToNatFromNat(m, 8);
    ToNatFromNat(n, 8);
  }

  lemma QuadOctets(w: nat, x: nat, y: nat, z: nat)
    requires w < 256 && x < 256 && y < 256 && z < 256
    ensures Ipv4.OctetTexts(Quad(w, x, y, z)) == [FormatDecimal(w), FormatDecimal(x), FormatDecimal(y), FormatDecimal(z)]
  {
    var a := Quad(w, x, y, z);
    assert Pow2(8) == 256;
    ToNatFromNat(w, 8);
    ToNatFromNat(x, 8);
    ToNatFromNat(y, 8);
    ToNatFromNat(z, 8);
    var b := a[8..];
    var c := b[8..];
    var d := c[8..];
    assert a[..8] == FromNat(w, 8) && b == FromNat(x, 8) + FromNat(y, 8) + FromNat(z, 8);
    assert b[..8] == FromNat(x, 8) && c == FromNat(y, 8) + FromNat(z, 8);
    assert c[..8] == FromNat(y, 8) && d == FromNat(z, 8);
    assert d[..8] == FromNat(z, 8) && d[8..] == [];
    assert Ipv4.OctetTexts(d) == [FormatDecimal(z)];
    assert Ipv4.OctetTexts(c) == [FormatDecimal(y), FormatDecimal(z)];
  }

  /** The dotted quad of four octet values parses to the address they make up. */
  lemma ParseQuad(w: nat, x: nat, y: nat, z: nat)
    requires w < 256 && x < 256 && y < 256 && z < 256
    ensures Ipv4.ParseAddress(QuadText(w, x, y, z)) == Some(Quad(w, x, y, z))
  {
    QuadFormat(w, x, y, z);
    Ipv4.AddressRoundTrip(Quad(w, x, y, z));
  }

  /** The dotted-quad text of the address `w.x.y.z` is `"w.x.y.z"`. */
  lemma QuadFormat(w: nat, x: nat, y: nat, z: nat)
    requires w < 256 && x < 256 && y < 256 && z < 256
    ensures Ipv4.FormatAddress(Quad(w, x, y, z)) == QuadText(w, x, y, z)
  {
    QuadOctets(w, x, y, z);
    JoinFour(FormatDecimal(w), FormatDecimal(x), FormatDecimal(y), FormatDecimal(z));
  }

  /** Joining four pieces with dots. */
  lemma JoinFour(a: string, b: string, c: string, d: string)
    ensures Join([a, b, c, d], '.') == a + "." + b + "." + c + "." + d
  {
    var ts := [a, b, c, d];
    assert ts[1..][1..] == [c, d] && ts[1..] == [b, c, d];
    assert Join([c, d], '.') == c + "." + d;
    assert Join([b, c, d], '.') == b + "." + (c + "." + d);
  }

  /** The first `k` octets of two quads agree. */
  predicate SameOctets(w: nat, x: nat, y: nat, z: nat, w': nat, x': nat, y': nat, z': nat, k: nat) {
    w == w' && (k >= 2 ==> x == x') && (k >= 3 ==> y == y') && (k >= 4 ==> z == z')
  }

  /** Two quads agree on their first 8, 16, 24 or 32 bits exactly when they
      agree on their first 1, 2, 3 or 4 octets. */
  lemma QuadPrefix(w: nat, x: nat, y: nat, z: nat, w': nat, x': nat, y': nat, z': nat, k: nat)
    requires w < 256 && x < 256 && y < 256 && z < 256
    requires w' < 256 && x' < 256 && y' < 256 && z' < 256
    requires 1 <= k <= 4
    ensures Quad(w, x, y, z)[..8 * k] == Quad(w', x', y', z')[..8 * k] <==>
      SameOctets(w, x, y, z, w', x', y', z', k)
  {
    var a := Quad(w, x, y, z);
    var b := Quad(w', x', y', z');
    FromNatInjective(w, w');
    FromNatInjective(x, x');
    FromNatInjective(y, y');
    FromNatInjective(z, z');
    assert a[..8] == FromNat(w, 8) && b[..8] == FromNat(w', 8);
    assert a[8..16] == FromNat(x, 8) && b[8..16] == FromNat(x', 8);
    assert a[16..24] == FromNat(y, 8) && b[16..24] == FromNat(y', 8);
    assert a[24..32] == FromNat(z, 8) && b[24..32] == FromNat(z', 8);
    if a[..8 * k] == b[..8 * k] {
      assert a[..8] == a[..8 * k][..8] && b[..8] == b[..8 * k][..8];
      if k >= 2 { assert a[8..16] == a[..8 * k][8..16] && b[8..16] == b[..8 * k][8..16]; }
      if k >= 3 { assert a[16..24] == a[..8 * k][16..24] && b[16..24] == b[..8 * k][16..24]; }
      if k >= 4 { assert a[24..32] == a[..8 * k][24..32] && b[24..32] == b[..8 * k][24..32]; }
    }
    if SameOctets(w, x, y, z, w', x', y', z', k) {
      if k == 1 {
        assert a[..8 * k] == a[..8];
      } else if k == 2 {
        assert a[..16] == a[..8] + a[8..16] && b[..16] == b[..8] + b[8..16];
      } else if k == 3 {
        assert a[..24] == a[..8] + a[8..16] + a[16..24] && b[..24] == b[..8] + b[8..16] + b[16..24];
      } else {
        assert a[..32] == a && b[..32] == b;
      }
    }
  }

  // ---------------------------------------------------------------------------
  // The docstring's spellings

  /** The octets 255 and 0 are all ones and all zeros. */
  lemma ExtremeOctets()
    ensures FromNat(255, 8) == Ones(8) && FromNat(0, 8) == Zeros(8)
  {
    assert FromNat(255, 8) == Ones(8);
  }

  /** The masks the docstring spells out, as quads. */
  lemma MaskQuads()
    ensures Netmask(16, Ipv4.Width) == Quad(255, 255, 0, 0)
    ensures Hostmask(16, Ipv4.Width) == Quad(0, 0, 255, 255)
    ensures Netmask(Ipv4.Width, Ipv4.Width) == Quad(255, 255, 255, 255)
  {
    ExtremeOctets();
  }

  /** `'192.168.0.0/16'`, `'192.168.0.0/255.255.0.0'` and `'192.168.0.0/0.0.255.255'`
      all name the network 192.168.0.0/16. */
  lemma DocstringNetworks()
    ensures ParseEntry(QuadText(192, 168, 0, 0) + "/" + FormatDecimal(16)) == Ok(Net(Quad(192, 168, 0, 0), 16))
    ensures ParseEntry(QuadText(192, 168, 0, 0) + "/" + QuadText(255, 255, 0, 0)) == Ok(Net(Quad(192, 168, 0, 0), 16))
    ensures ParseEntry(QuadText(192, 168, 0, 0) + "/" + QuadText(0, 0, 255, 255)) == Ok(Net(Quad(192, 168, 0, 0), 16))
  {
    var t := QuadText(192, 168, 0, 0);
    ParseQuadEntry(t + "/" + FormatDecimal(16), 192, 168, 0, 0, 16);
    QuadFormat(192, 168, 0, 0);
    Ipv4.AddressTextExcludes(Quad(192, 168, 0, 0), '/');
    Ipv4.MaskSpellings(t, 16, false);
    MaskQuads();
    QuadFormat(255, 255, 0, 0);
    QuadFormat(0, 0, 255, 255);
  }

  /** `'192.168.1.1'`, `'192.168.1.1/255.255.255.255'` and `'192.168.1.1/32'`
      all name the single host 192.168.1.1. */
  lemma DocstringHosts()
    ensures ParseEntry(QuadText(192, 168, 1, 1)) == Ok(Net(Quad(192, 168, 1, 1), 32))
    ensures ParseEntry(QuadText(192, 168, 1, 1) + "/" + QuadText(255, 255, 255, 255)) == Ok(Net(Quad(192, 168, 1, 1), 32))
    ensures ParseEntry(QuadText(192, 168, 1, 1) + "/" + FormatDecimal(32)) == Ok(Net(Quad(192, 168, 1, 1), 32))
  {
    var t := QuadText(192, 168, 1, 1);
    var a := Quad(192, 168, 1, 1);
    ParseQuad(192, 168, 1, 1);
    Ipv4.HostSpellings(t, a, false);
    MaskQuads();
    QuadFormat(255, 255, 255, 255);
    assert And(a, Netmask(32, 32)) == a;
  }

  /** A mask whose bits are contiguous in neither orientation is refused:
      `10.0.0.0/255.0.255.0` is not a network. */
  lemma SplitMaskRefused()
    ensures ParseEntry(QuadText(10, 0, 0, 0) + "/" + QuadText(255, 0, 255, 0)).Err?
  {
    var m := Quad(255, 0, 255, 0);
    SplitMaskShape();
    Ipv4.NonContiguousRefused(m);
    QuadFormat(255, 0, 255, 0);
    Ipv4.AddressTextExcludes(m, '/');
    ParseQuad(10, 0, 0, 0);
    BadPrefixRefused(QuadText(10, 0, 0, 0), QuadText(255, 0, 255, 0));
  }

  /** 255.0.255.0 is neither a netmask nor a hostmask: its bits 0 and 16 are
      set and bit 8 is clear. */
  lemma SplitMaskShape()
    ensures forall p: nat :: p <= Ipv4.Width ==>
      Quad(255, 0, 255, 0) != Netmask(p, Ipv4.Width) && Quad(255, 0, 255, 0) != Hostmask(p, Ipv4.Width)
  {
    var m := Quad(255, 0, 255, 0);
    ExtremeOctets();
    assert m[0] && !m[8] && m[16];
    forall p: nat | p <= Ipv4.Width
      ensures m != Netmask(p, Ipv4.Width) && m != Hostmask(p, Ipv4.Width)
    {
      assert Netmask(p, Ipv4.Width)[0] ==> !Netmask(p, Ipv4.Width)[8] ==> !Netmask(p, Ipv4.Width)[16];
      assert Hostmask(p, Ipv4.Width)[0] ==> Hostmask(p, Ipv4.Width)[8];
    }
  }

  lemma SplitMaskAsWritten()
    ensures QuadText(10, 0, 0, 0) + "/" + QuadText(255, 0, 255, 0) == "10.0.0.0/255.0.255.0"
  {
    BaseAsWritten();
    SplitMaskQuadAsWritten();
  }

  lemma BaseAsWritten()
    ensures QuadText(10, 0, 0, 0) == "10.0.0.0"
  {
  }

  lemma SplitMaskQuadAsWritten()
    ensures QuadText(255, 0, 255, 0) == "255.0.255.0"
  {
  }

  /** The docstring's network spellings, as written, are one network. */
  lemma DocstringNetworkTexts()
    ensures ParseEntry("192.168.0.0/16") == Ok(Net(Quad(192, 168, 0, 0), 16))
    ensures ParseEntry("192.168.0.0/255.255.0.0") == Ok(Net(Quad(192, 168, 0, 0), 16))
    ensures ParseEntry("192.168.0.0/0.0.255.255") == Ok(Net(Quad(192, 168, 0, 0), 16))
  {
    DocstringNetworks();
    DocstringNetworksAsWritten();
  }

  /** The docstring's host spellings, as written, are one host. */
  lemma DocstringHostTexts()
    ensures ParseEntry("192.168.1.1") == Ok(Net(Quad(192, 168, 1, 1), 32))
    ensures ParseEntry("192.168.1.1/255.255.255.255") == Ok(Net(Quad(192, 168, 1, 1), 32))
    ensures ParseEntry("192.168.1.1/32") == Ok(Net(Quad(192, 168, 1, 1), 32))
  {
    DocstringHosts();
    DocstringHostsAsWritten();
  }

  /** `10.0.0.0/255.0.255.0`, as written, is refused. */
  lemma SplitMaskText()
    ensures ParseEntry("10.0.0.0/255.0.255.0").Err?
  {
    SplitMaskRefused();
    SplitMaskAsWritten();
  }

  /** The docstring's network texts, spelled from their numbers. */
  lemma DocstringNetworksAsWritten()
    ensures QuadText(192, 168, 0, 0) + "/" + FormatDecimal(16) == "192.168.0.0/16"
    ensures QuadText(192, 168, 0, 0) + "/" + QuadText(255, 255, 0, 0) == "192.168.0.0/255.255.0.0"
    ensures QuadText(192, 168, 0, 0) + "/" + QuadText(0, 0, 255, 255) == "192.168.0.0/0.0.255.255"
  {
    NetworkQuadsAsWritten();
    MaskQuadsAsWritten();
    assert FormatDecimal(16) == "16";
  }

  /** The docstring's host texts, spelled from their numbers. */
  lemma DocstringHostsAsWritten()
    ensures QuadText(192, 168, 1, 1) == "192.168.1.1"
    ensures QuadText(192, 168, 1, 1) + "/" + QuadText(255, 255, 255, 255) == "192.168.1.1/255.255.255.255"
    ensures QuadText(192, 168, 1, 1) + "/" + FormatDecimal(32) == "192.168.1.1/32"
  {
    NetworkQuadsAsWritten();
    MaskQuadsAsWritten();
    assert FormatDecimal(32) == "32";
  }

  lemma NetworkQuadsAsWritten()
    ensures QuadText(192, 168, 0, 0) == "192.168.0.0"
    ensures QuadText(192, 168, 1, 1) == "192.168.1.1"
  {
    HostQuadAsWritten();
  }

  lemma HostQuadAsWritten()
    ensures QuadText(192, 168, 1, 1) == "192.168.1.1"
  {
  }

  lemma MaskQuadsAsWritten()
    ensures QuadText(255, 255, 0, 0) == "255.255.0.0"
    ensures QuadText(0, 0, 255, 255) == "0.0.255.255"
    ensures QuadText(255, 255, 255, 255) == "255.255.255.255"
  {
    AllOnesAsWritten();
  }

  lemma AllOnesAsWritten()
    ensures QuadText(255, 255, 255, 255) == "255.255.255.255"
  {
  }

  // ---------------------------------------------------------------------------
  // The scenario

  /** The arguments of the list the self-test builds, spelled from their
      numbers (`EntriesAsWritten` shows they are the texts of the self-test). */
  function Entries(): seq<string> {
    [QuadText(10, 0, 0, 0) + "/" + FormatDecimal(8),
     QuadText(127, 0, 0, 1) + "/" + FormatDecimal(8),
     QuadText(1, 2, 3, 0) + "/" + FormatDecimal(24),
     QuadText(8, 8, 8, 8)]
  }

  lemma EntriesAsWritten()
    ensures Entries() == ["10.0.0.0/8", "127.0.0.1/8", "1.2.3.0/24", "8.8.8.8"]
  {
    FirstEntriesAsWritten();
    LastEntriesAsWritten();
  }

  lemma FirstEntriesAsWritten()
    ensures QuadText(10, 0, 0, 0) + "/" + FormatDecimal(8) == "10.0.0.0/8"
    ensures QuadText(127, 0, 0, 1) + "/" + FormatDecimal(8) == "127.0.0.1/8"
  {
    BaseAsWritten();
    assert QuadText(127, 0, 0, 1) == "127.0.0.1";
  }

  lemma LastEntriesAsWritten()
    ensures QuadText(1, 2, 3, 0) + "/" + FormatDecimal(24) == "1.2.3.0/24"
    ensures QuadText(8, 8, 8, 8) == "8.8.8.8"
  {
    assert QuadText(1, 2, 3, 0) == "1.2.3.0";
  }

  /** The IPv4 network of prefix `p` around address `a`, host bits cleared. */
  function Net(a: seq<bool>, p: nat): (n: IpNetwork)
    requires |a| == Ipv4.Width && p <= Ipv4.Width
    ensures IsCanonical(n)
  {
    Ipv4.MaskedIsCanonical(a, p);
    V4(Ipv4.Network(And(a, Netmask(p, Ipv4.Width)), p))
  }

  /** What the list stores: 10.0.0.0/8, 127.0.0.0/8, 1.2.3.0/24, 8.8.8.8/32. */
  function Stored(): (ns: seq<IpNetwork>)
    ensures AllCanonical(ns)
  {
    [Net(Quad(10, 0, 0, 0), 8), Net(Quad(127, 0, 0, 1), 8), Net(Quad(1, 2, 3, 0), 24), Net(Quad(8, 8, 8, 8), 32)]
  }

  /** A host lies in `Net(b, p)` exactly when it shares the first `p` bits of `b`. */
  lemma HostInNet(a: seq<bool>, b: seq<bool>, p: nat)
    requires |a| == Ipv4.Width && |b| == Ipv4.Width && p <= Ipv4.Width
    ensures HostIn(a, Net(b, p)) <==> a[..p] == b[..p]
  {
    MaskKeepsPrefix(a, p);
    MaskKeepsPrefix(b, p);
    var za := a[..p] + Zeros(Ipv4.Width - p);
    var zb := b[..p] + Zeros(Ipv4.Width - p);
    assert za[..p] == a[..p] && zb[..p] == b[..p];
  }

  /** An argument `w.x.y.z/p` is stored as `Net(w.x.y.z, p)`. */
  lemma ParseQuadEntry(t: string, w: nat, x: nat, y: nat, z: nat, p: nat)
    requires w < 256 && x < 256 && y < 256 && z < 256 && p <= Ipv4.Width
    requires t == QuadText(w, x, y, z) + "/" + FormatDecimal(p)
    ensures ParseEntry(t) == Ok(Net(Quad(w, x, y, z), p))
  {
    var a := Quad(w, x, y, z);
    ParseQuad(w, x, y, z);
    FormatDecimalReadsBack(p);
    DecimalExcludes(FormatDecimal(p), '/');
    Ipv4.AddressCanonical(QuadText(w, x, y, z), a);
    Ipv4.AddressTextExcludes(a, '/');
    EntryMasks(QuadText(w, x, y, z), FormatDecimal(p), a, p);
  }

  /** An argument `w.x.y.z` is stored as the single host `Net(w.x.y.z, 32)`. */
  lemma ParseQuadHost(t: string, w: nat, x: nat, y: nat, z: nat)
    requires w < 256 && x < 256 && y < 256 && z < 256
    requires t == QuadText(w, x, y, z)
    ensures ParseEntry(t) == Ok(Net(Quad(w, x, y, z), 32))
  {
    ParseQuad(w, x, y, z);
    EntryHost(t, Quad(w, x, y, z));
    assert And(Quad(w, x, y, z), Netmask(32, 32)) == Quad(w, x, y, z);
  }

  lemma StoredEntry0()
    ensures ParseEntry(Entries()[0]) == Ok(Stored()[0])
  {
    ParseQuadEntry(Entries()[0], 10, 0, 0, 0, 8);
  }

  lemma StoredEntry1()
    ensures ParseEntry(Entries()[1]) == Ok(Stored()[1])
  {
    ParseQuadEntry(Entries()[1], 127, 0, 0, 1, 8);
  }

  lemma StoredEntry2()
    ensures ParseEntry(Entries()[2]) == Ok(Stored()[2])
  {
    ParseQuadEntry(Entries()[2], 1, 2, 3, 0, 24);
  }

  lemma StoredEntry3()
    ensures ParseEntry(Entries()[3]) == Ok(Stored()[3])
  {
    ParseQuadHost(Entries()[3], 8, 8, 8, 8);
  }

  /** Each argument is parsed to the network the self-test expects, with the
      host bits of `127.0.0.1/8` cleared. */
  lemma StoredEntries()
    ensures ParseAll(Entries()) == Ok(Stored())
  {
    var es := Entries();
    StoredEntry0();
    StoredEntry1();
    StoredEntry2();
    StoredEntry3();
    var st := Stored();
    forall i | 0 <= i < |es| ensures ParseEntry(es[i]) == Ok(st[i]) {
      assert i == 0 || i == 1 || i == 2 || i == 3;
    }
    ParseAllOfEach(es, st);
  }

  /** The host `w.x.y.z` lies in `Net(w'.x'.y'.z', 8k)` exactly when the first `k` octets agree. */
  lemma HostInQuadNet(w: nat, x: nat, y: nat, z: nat, w': nat, x': nat, y': nat, z': nat, k: nat)
    requires w < 256 && x < 256 && y < 256 && z < 256
    requires w' < 256 && x' < 256 && y' < 256 && z' < 256
    requires 1 <= k <= 4
    ensures HostIn(Quad(w, x, y, z), Net(Quad(w', x', y', z'), 8 * k)) <==>
      SameOctets(w, x, y, z, w', x', y', z', k)
  {
    HostInNet(Quad(w, x, y, z), Quad(w', x', y', z'), 8 * k);
    QuadPrefix(w, x, y, z, w', x', y', z', k);
  }

  /** The scenario's answer for the host `w.x.y.z`. */
  predicate InScenario(w: nat, x: nat, y: nat, z: nat) {
    w == 10 || w == 127 || (w == 1 && x == 2 && y == 3) || (w == 8 && x == 8 && y == 8 && z == 8)
  }

  /** Entry by entry, which hosts the stored networks hold. */
  lemma StoredHolds(w: nat, x: nat, y: nat, z: nat)
    requires w < 256 && x < 256 && y < 256 && z < 256
    ensures (exists i :: 0 <= i < |Stored()| && HostIn(Quad(w, x, y, z), Stored()[i])) <==> InScenario(w, x, y, z)
  {
    var a := Quad(w, x, y, z);
    var es := Stored();
    HoldsNetworks(w, x, y, z);
    HoldsHosts(w, x, y, z);
    if exists i :: 0 <= i < |es| && HostIn(a, es[i]) {
      var i :| 0 <= i < |es| && HostIn(a, es[i]);
      assert i == 0 || i == 1 || i == 2 || i == 3;
    }
  }

  /** 10.0.0.0/8 and 127.0.0.0/8 hold the hosts with first octet 10 and 127. */
  lemma HoldsNetworks(w: nat, x: nat, y: nat, z: nat)
    requires w < 256 && x < 256 && y < 256 && z < 256
    ensures HostIn(Quad(w, x, y, z), Stored()[0]) <==> w == 10
    ensures HostIn(Quad(w, x, y, z), Stored()[1]) <==> w == 127
  {
    HostInQuadNet(w, x, y, z, 10, 0, 0, 0, 1);
    HostInQuadNet(w, x, y, z, 127, 0, 0, 1, 1);
  }

  /** 1.2.3.0/24 holds the hosts 1.2.3.*, and 8.8.8.8/32 only 8.8.8.8. */
  lemma HoldsHosts(w: nat, x: nat, y: nat, z: nat)
    requires w < 256 && x < 256 && y < 256 && z < 256
    ensures HostIn(Quad(w, x, y, z), Stored()[2]) <==> (w == 1 && x == 2 && y == 3)
    ensures HostIn(Quad(w, x, y, z), Stored()[3]) <==> (w == 8 && x == 8 && y == 8 && z == 8)
  {
    HostInQuadNet(w, x, y, z, 1, 2, 3, 0, 3);
    HostInQuadNet(w, x, y, z, 8, 8, 8, 8, 4);
  }

  /** The self-test list holds the host `w.x.y.z` exactly when it is in
      10.0.0.0/8 or 127.0.0.0/8, in 1.2.3.0/24, or is 8.8.8.8. */
  lemma ScenarioMembership(w: nat, x: nat, y: nat, z: nat)
    requires w < 256 && x < 256 && y < 256 && z < 256
    ensures Membership(Stored(), QuadText(w, x, y, z)) == Ok(InScenario(w, x, y, z))
  {
    ParseQuad(w, x, y, z);
    HostMembership(Stored(), QuadText(w, x, y, z), Quad(w, x, y, z));
    StoredHolds(w, x, y, z);
  }

  /** The arguments, as written, are stored as the four expected networks. */
  lemma ScenarioEntryTexts()
    ensures ParseAll(["10.0.0.0/8", "127.0.0.1/8", "1.2.3.0/24", "8.8.8.8"]) == Ok(Stored())
  {
    StoredEntries();
    EntriesAsWritten();
  }

  /** The five queries the self-test expects to be members, as written. */
  lemma ScenarioMemberTexts()
    ensures Membership(Stored(), "10.10.10.1") == Ok(true)
    ensures Membership(Stored(), "127.0.0.1") == Ok(true)
    ensures Membership(Stored(), "127.0.0.2") == Ok(true)
    ensures Membership(Stored(), "1.2.3.4") == Ok(true)
    ensures Membership(Stored(), "8.8.8.8") == Ok(true)
  {
    ScenarioMembership(10, 10, 10, 1);
    ScenarioMembership(127, 0, 0, 1);
    ScenarioMembership(127, 0, 0, 2);
    ScenarioMembership(1, 2, 3, 4);
    ScenarioMembership(8, 8, 8, 8);
    MemberQueriesAsWritten();
    LocalQueriesAsWritten();
    OtherQueriesAsWritten();
  }

  /** The two queries the self-test expects not to be members, as written. */
  lemma ScenarioOtherTexts()
    ensures Membership(Stored(), "192.168.1.1") == Ok(false)
    ensures Membership(Stored(), "8.8.4.4") == Ok(false)
  {
    ScenarioMembership(192, 168, 1, 1);
    ScenarioMembership(8, 8, 4, 4);
    NetworkQuadsAsWritten();
    OtherQueriesAsWritten();
  }

  /** `CIDRlist('10.0.0.0/8', '127.0.0.1/8', '1.2.3.0/24', '8.8.8.8')`. */
  method Build() returns (c: CidrList)
    ensures fresh(c) && c.Valid() && c.networks == Stored()
  {
    ScenarioEntryTexts();
    var built := CidrList.FromEntries(["10.0.0.0/8", "127.0.0.1/8", "1.2.3.0/24", "8.8.8.8"]);
    c := built.value;
  }

  /** The seven questions of the self-test, spelled from their numbers. */
  lemma MemberQueriesAsWritten()
    ensures QuadText(10, 10, 10, 1) == "10.10.10.1"
    ensures QuadText(1, 2, 3, 4) == "1.2.3.4"
  {
  }

  lemma LocalQueriesAsWritten()
    ensures QuadText(127, 0, 0, 1) == "127.0.0.1"
    ensures QuadText(127, 0, 0, 2) == "127.0.0.2"
  {
  }

  lemma OtherQueriesAsWritten()
    ensures QuadText(8, 8, 8, 8) == "8.8.8.8"
    ensures QuadText(8, 8, 4, 4) == "8.8.4.4"
  {
  }

  /** The self-test: build the list and ask it the seven questions, in order;
      all are members except 192.168.1.1 and 8.8.4.4. */
  method RunSelfTest() returns (answers: seq<Result<bool>>)
    ensures answers == [Ok(true), Ok(true), Ok(true), Ok(false), Ok(true), Ok(true), Ok(false)]
  {
    ScenarioMemberTexts();
    ScenarioOtherTexts();
    var c := Build();
    var a0 := c.Contains("10.10.10.1");
    var a1 := c.Contains("127.0.0.1");
    var a2 := c.Contains("127.0.0.2");
    var a3 := c.Contains("192.168.1.1");
    var a4 := c.Contains("1.2.3.4");
    var a5 := c.Contains("8.8.8.8");
    var a6 := c.Contains("8.8.4.4");
    answers := [a0, a1, a2, a3, a4, a5, a6];
  }
}
