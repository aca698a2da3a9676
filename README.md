# cidrlist, modelled in Dafny

`cidrlist.py` defines `CIDRlist`, a Python `list` of networks. It is meant for
Django's `INTERNAL_IPS`, where an address is checked with `ip in INTERNAL_IPS`.

- **Construction.** `CIDRlist(*entries)` parses each string with
  `ipaddress.ip_network(entry, strict=False)` and appends the result, in order.
  An entry may be a bare host, `address/n`, `address/netmask` or
  `address/hostmask`. Host bits beyond the prefix are cleared rather than
  refused.
- **Membership.** `ip in c` drops a leading `::ffff:` (the IPv4-mapped IPv6
  form). It parses the rest as a strict `IPv4Network` and returns `True` at the
  first stored network that the query `overlaps`. If none overlaps it returns
  `False`.

The model has one module per concern:

| file | module | what it holds |
|---|---|---|
| `results.dfy` | `Results` | `Option`, `Result`, and the two errors: an entry that is not a network, and a query that is not an IPv4 network |
| `text.dfy` | `Text` | `str.split`, `str.join`, ASCII decimal numerals (`int(s)`, `str(n)`) |
| `bits.dfy` | `Bits` | addresses as fixed-width bit strings (most significant bit first), netmasks and hostmasks, `_prefix_from_ip_int`, and the netmask-then-hostmask reading of a dotted mask |
| `ipv4.dfy` | `Ipv4` | dotted quads, prefix texts, `IPv4Network(text, strict)`, and `overlaps` |
| `ipv6.dfy` | `Ipv6` | IPv6 address text with `::` compression, and `IPv6Network(text, strict)` with a decimal prefix |
| `networks.dfy` | `Networks` | `ip_network` for an entry, the query parse, and the membership specification `Membership` |
| `cidrlist.dfy` | `CidrLists` | the class `CidrList`: `FromEntries` (the constructor loop) and `Contains` (the scan with early return) |
| `selftest.dfy` | `SelfTest` | the docstring's spellings and the `__main__` scenario, proved about the model |

The library's behaviour follows Python's `ipaddress` module as documented:
- An octet has one to three digits, no leading zero, and a value of at most 255.
- An address has exactly four octets.
- A network text has at most one `/`.
- A prefix text is a decimal up to 32. Failing that, it is read as a dotted
  netmask, then as a dotted hostmask.
- `overlaps` is true when either network contains the first or the last
  address of the other.

`CidrList.Contains` is a loop that returns early. It is proved equal to the
existential `Networks.Membership`. The properties of `Membership` are proved
as lemmas, and the scenario lemmas are built on them.

## Model

| member | source | states |
|---|---|---|
| `Text.Split` | cidrlist.py:69 | `str.split(sep)`, which the address and network parsers of `ipaddress` apply to the entry: at least one piece, and no piece holds the separator |
| `Text.JoinSplit` | cidrlist.py:69 | joining the pieces of `s.split(sep)` with `sep` gives `s` back |
| `Text.SplitJoin` | cidrlist.py:69 | splitting a join of separator-free pieces gives the pieces back |
| `Text.Join` | cidrlist.py:69 | `sep.join(parts)`, with which `IPv4Address.__str__` writes an address: the result begins with the first piece |
| `Text.DecimalValue` | cidrlist.py:69 | `int(s, 10)` as `_parse_octet` and `_prefix_from_prefix_string` apply it to a digit string; `Text.FormatDecimalReadsBack` and `Text.CanonicalNumeral` make it the inverse of `Text.FormatDecimal` |
| `Text.FormatDecimal` | cidrlist.py:69 | `str(n)`, with which `_string_from_ip_int` writes an octet: a non-empty string of ASCII digits |
| `Text.FormatDecimalReadsBack` | cidrlist.py:69 | `int(str(n)) == n`, and `str(n)` has a leading zero only when it is `0` |
| `Text.CanonicalNumeral` | cidrlist.py:69 | every numeral without a leading zero (other than `0` itself) is `str` of its value |
| `Ipv4.ParseOctet` | cidrlist.py:69 | an accepted octet has a value below 256 |
| `Ipv4.OctetIff` | cidrlist.py:69 | an octet text is accepted with value n exactly when n < 256 and the text is `str(n)`: no leading zeros, no empty octet, no value above 255 |
| `Ipv4.ParseAddress` | cidrlist.py:69 | `IPv4Address._ip_int_from_string`, called by `ip_network` on the text before `/`: an accepted text gives a 32-bit address; `Ipv4.AddressRoundTrip` and `Ipv4.AddressCanonical` characterise what it accepts |
| `Ipv4.FormatAddress` | cidrlist.py:69 | `str(IPv4Address)` (`_string_from_ip_int`): the dotted quad of the four bytes; `Ipv4.AddressRoundTrip` makes it the inverse of `Ipv4.ParseAddress` |
| `Ipv4.AddressRoundTrip` | cidrlist.py:69 | every 32-bit address, written as a dotted quad, parses back to itself |
| `Ipv4.AddressCanonical` | cidrlist.py:69 | the address parser accepts only the canonical dotted quad of the address it returns |
| `Ipv4.ParseNetwork` | cidrlist.py:69 | every network parsed, strict or not, is canonical: 32 bits with no bit set beyond the prefix |
| `Bits.TrailingZeros` | cidrlist.py:59-62 | `_count_righthand_zero_bits` on a mask: a count no larger than the width; `Bits.TrailingZerosSpec` states which bits it counts |
| `Bits.TrailingZerosOfNetmask` | cidrlist.py:59-62 | the netmask of prefix p ends in exactly width − p zero bits |
| `Bits.PrefixFromNetmask` | cidrlist.py:59-62 | `_prefix_from_ip_int`: a prefix length no larger than the width; `Bits.PrefixFromNetmaskIff` states which masks it accepts |
| `Bits.PrefixFromNetmaskIff` | cidrlist.py:56-61 | a mask reads as prefix p exactly when it is the netmask of p: ones followed by zeros |
| `Bits.PrefixFromMask` | cidrlist.py:59-62 | `_prefix_from_ip_string`: the mask as a netmask, failing that its complement as a netmask; a prefix length no larger than the width, characterised by `Bits.PrefixFromMaskIff` |
| `Bits.PrefixFromMaskIff` | cidrlist.py:59-62 | a dotted mask gives prefix p exactly when it is the netmask of p, or the hostmask of p with 0 < p < width |
| `Bits.HostmaskReading` | cidrlist.py:62 | a mask read only through its complement is the hostmask of a prefix strictly between 0 and the width |
| `Bits.TrailingZerosSpec` | cidrlist.py:59-62 | the counted trailing bits are all zero and are preceded by a set bit |
| `Bits.ToNatFromNat` | cidrlist.py:69 | a number below 2^w reads back from its w bits |
| `Bits.FromNatToNat` | cidrlist.py:69 | a bit string is the w bits of the number it spells, which is below 2^w |
| `Ipv4.ParsePrefix` | cidrlist.py:54-62 | `IPv4Network._make_netmask` on the text after `/`: a prefix length of at most 32; `Ipv4.ParsePrefixIff` states which texts name which prefix |
| `Ipv4.ParsePrefixIff` | cidrlist.py:54-62 | the text after `/` names prefix p exactly when it is a numeral of value p ≤ 32, the netmask of p, or the hostmask of p with 0 < p < 32 |
| `Ipv4.ParseNetworkMasks` | cidrlist.py:69 | a non-strict parse of `t/x` is t's address ANDed with the netmask of x's prefix; a strict parse succeeds exactly when no host bit is set |
| `Ipv4.ParseHost` | cidrlist.py:54-55 | a bare address is the single-host network: prefix 32, base the address |
| `Ipv4.HostSpellings` | cidrlist.py:54-57 | `a`, `a/32` and `a/255.255.255.255` are the same single-host network |
| `Ipv4.MaskSpellings` | cidrlist.py:59-62 | for 0 < p < 32, `t/p`, `t/<netmask of p>` and `t/<hostmask of p>` give the same network |
| `Ipv4.SamePrefixSameNetwork` | cidrlist.py:59-62 | two prefix texts that name the same prefix length give the same network |
| `Ipv4.ExtremeMasks` | cidrlist.py:59-62 | `0.0.0.0` reads as /0 and `255.255.255.255` as /32, as netmasks |
| `Ipv4.NonContiguousRefused` | cidrlist.py:59-62 | a mask that is contiguous in neither orientation is refused |
| `Ipv4.NetworkTextHasNoColon` | cidrlist.py:81-83 | an accepted IPv4 network text contains no `:` |
| `Ipv4.Contains` | cidrlist.py:86 | `address in network`, which `overlaps` applies four times: the address masked by the netmask is the network address; `Ipv4.ContainsIff` restates it on prefix bits |
| `Ipv4.Broadcast` | cidrlist.py:86 | `broadcast_address`, the last address `overlaps` looks at: a 32-bit address |
| `Ipv4.BroadcastPrefix` | cidrlist.py:86 | the broadcast address agrees with the network address on every prefix bit |
| `Ipv4.Overlaps` | cidrlist.py:86 | `_BaseNetwork.overlaps`: either network holds the network or the broadcast address of the other; `Ipv4.OverlapsIff` and `Ipv4.OverlapsSymmetric` characterise it |
| `Ipv4.OverlapsSymmetric` | cidrlist.py:86 | `x.overlaps(y)` equals `y.overlaps(x)` |
| `Ipv4.ContainsIff` | cidrlist.py:86 | an address lies in a canonical network exactly when it shares the network's first `prefixLen` bits |
| `Ipv4.OverlapsIff` | cidrlist.py:86 | two canonical networks overlap exactly when they agree on the bits of the shorter prefix |
| `Ipv4.OverlapsNested` | cidrlist.py:86 | a network with the shorter prefix overlaps another exactly when the other starts with its prefix |
| `Ipv4.HostOverlapsIff` | cidrlist.py:86 | a single host overlaps a network exactly when the host, masked to the network's prefix, is the network address |
| `Ipv6.ParseHextet` | cidrlist.py:69 | `IPv6Address._parse_hextet`: one to four hexadecimal digits give 16 bits |
| `Ipv6.ParseAddress` | cidrlist.py:69 | `IPv6Address._ip_int_from_string`, reached when `ip_network` finds no IPv4 network: an accepted text gives a 128-bit address; `Ipv6.ExplodedRoundTrip` and `Ipv6.AddressHasColon` characterise it |
| `Ipv6.ParseNetwork` | cidrlist.py:69 | an IPv6 network parsed from text is canonical: 128 bits with no bit set beyond the prefix |
| `Ipv6.ExplodedRoundTrip` | cidrlist.py:69 | the exploded text of any IPv6 address (eight groups of four hex digits) parses back to it |
| `Ipv6.HexFormatValue` | cidrlist.py:69 | k hex digits of a value below 16^k read back as that value |
| `Ipv6.AddressHasColon` | cidrlist.py:69 | every accepted IPv6 address text contains a `:` |
| `Networks.ParseEntry` | cidrlist.py:69 | an entry is an IPv4 network if it reads as one, otherwise IPv6; the result is canonical, and a refused entry reports its own text |
| `Networks.EntryMasks` | cidrlist.py:69 | an IPv4 entry `t/x` is stored as t's address with its host bits cleared, under the prefix x names |
| `Networks.EntryHost` | cidrlist.py:54-55 | a bare IPv4 address is stored as the single-host network of that address |
| `Networks.EntryFamily` | cidrlist.py:69 | an accepted entry is IPv6 exactly when its text contains a `:` |
| `Networks.BadPrefixRefused` | cidrlist.py:69 | an IPv4 address followed by a prefix text that names no prefix length is refused as an entry |
| `Networks.QueryText` | cidrlist.py:79-83 | a query starting with `::ffff:` loses exactly that prefix; any other query is unchanged |
| `Networks.ParseQuery` | cidrlist.py:79-83 | the query is a strict IPv4 network of the stripped text, or an error naming that text |
| `Networks.Overlaps` | cidrlist.py:86 | `addr.overlaps(cidr)`: an IPv4 query overlaps an IPv4 entry by `Ipv4.Overlaps` and never overlaps an IPv6 entry |
| `Networks.AnyOverlaps` | cidrlist.py:85-89 | the loop's answer: some stored entry overlaps the query |
| `Networks.Membership` | cidrlist.py:79-89 | the answer is an error exactly when the query is not a strict IPv4 network; otherwise it is whether some entry overlaps it |
| `Networks.MappedQuery` | cidrlist.py:79-83 | `("::ffff:" + s) in c` equals `s in c` for every s not itself starting with `::ffff:` |
| `Networks.HostQuery` | cidrlist.py:79-83 | a dotted quad, with or without `::ffff:`, queries the single host it names |
| `Networks.HostIn` | cidrlist.py:85-89 | a host lies in an entry: the entry is IPv4 and its network address is the host masked to its prefix; `Networks.HostMembership` equates it with `overlaps` for a host query |
| `Networks.HostMembership` | cidrlist.py:85-89 | for a host query: a member exactly when some IPv4 entry's base is the host masked to that entry's prefix |
| `Networks.ColonQueryRefused` | cidrlist.py:81-83 | a query with a `:` that is not IPv4-mapped, such as any IPv6 address, raises an error rather than answering `False` |
| `Networks.V6EntryIgnored` | cidrlist.py:85-89 | inserting an IPv6 entry anywhere in the list changes no answer |
| `Networks.MembershipBySet` | cidrlist.py:85-89 | the answer depends only on which networks are stored, not on their order or repeats |
| `CidrLists.Collect` | cidrlist.py:68-69 | gathering per-entry results keeps one value per step |
| `CidrLists.CollectOk` | cidrlist.py:68-69 | gathering succeeds exactly when every step succeeded, and then keeps every value in order |
| `CidrLists.CollectFirstError` | cidrlist.py:68-69 | a failed gathering reports the error of the first step that failed |
| `CidrLists.CollectFailureAt` | cidrlist.py:68-69 | when the steps before i succeeded and step i failed, gathering fails with step i's error: the loop stops at the first entry that raises |
| `CidrLists.ParseAll` | cidrlist.py:67-69 | the networks stored, one per entry, all canonical |
| `CidrLists.ParseAllSpec` | cidrlist.py:67-69 | construction succeeds exactly when every entry is a network; it then stores exactly one network per entry, in entry order; otherwise it reports the first bad entry |
| `CidrLists.ParseAllOfEach` | cidrlist.py:67-69 | when each entry parses to a given network, construction stores exactly those networks |
| `CidrLists.CidrList.Append` | cidrlist.py:69 | `append` adds the network at the end and keeps every stored network canonical |
| `CidrLists.CidrList.FromEntries` | cidrlist.py:50-69 | the constructor loop yields a fresh, valid list whose networks are `ParseAll(entries)`, or the error `ParseAll` reports |
| `CidrLists.CidrList.Contains` | cidrlist.py:71-89 | the scan with early return gives the existential answer `Membership(networks, ip)`; the list is not modified |
| `Networks.EmptyContainsNothing` | cidrlist.py:85-89 | an empty list never answers `True` |
| `SelfTest.ParseQuad` | cidrlist.py:95 | the dotted quad `w.x.y.z` parses to the address made of those four octets |
| `SelfTest.DocstringNetworks` | cidrlist.py:59-62 | `192.168.0.0/16`, `/255.255.0.0` and `/0.0.255.255` are the network 192.168.0.0/16 |
| `SelfTest.DocstringNetworkTexts` | cidrlist.py:60-62 | the entries `'192.168.0.0/16'`, `'192.168.0.0/255.255.0.0'` and `'192.168.0.0/0.0.255.255'`, as written, are the network 192.168.0.0/16 |
| `SelfTest.DocstringHosts` | cidrlist.py:54-57 | `192.168.1.1`, `/255.255.255.255` and `/32` are the single host 192.168.1.1 |
| `SelfTest.DocstringHostTexts` | cidrlist.py:55-57 | the entries `'192.168.1.1'`, `'192.168.1.1/255.255.255.255'` and `'192.168.1.1/32'`, as written, are the single host 192.168.1.1 |
| `SelfTest.SplitMaskRefused` | cidrlist.py:59-62 | `10.0.0.0/255.0.255.0` is refused: its mask is contiguous in neither orientation |
| `SelfTest.SplitMaskText` | cidrlist.py:59-62 | the entry `'10.0.0.0/255.0.255.0'`, as written, is refused |
| `SelfTest.StoredEntries` | cidrlist.py:95 | the self-test list stores 10.0.0.0/8, 127.0.0.0/8 (host bits of 127.0.0.1 cleared), 1.2.3.0/24 and 8.8.8.8/32 |
| `SelfTest.EntriesAsWritten` | cidrlist.py:95 | the arguments spelled from their numbers are the self-test's own texts |
| `SelfTest.ScenarioEntryTexts` | cidrlist.py:95 | constructing from `'10.0.0.0/8'`, `'127.0.0.1/8'`, `'1.2.3.0/24'` and `'8.8.8.8'`, as written, stores the four expected networks |
| `SelfTest.ScenarioMembership` | cidrlist.py:95-116 | the self-test list holds the host w.x.y.z exactly when w is 10 or 127, or it is in 1.2.3.0/24, or it is 8.8.8.8 |
| `SelfTest.ScenarioMemberTexts` | cidrlist.py:97-113 | the queries `'10.10.10.1'`, `'127.0.0.1'`, `'127.0.0.2'`, `'1.2.3.4'` and `'8.8.8.8'`, as written, are members of the self-test list |
| `SelfTest.ScenarioOtherTexts` | cidrlist.py:106-116 | the queries `'192.168.1.1'` and `'8.8.4.4'`, as written, are not members |
| `SelfTest.Build` | cidrlist.py:95 | the constructor loop, run on the self-test's four entry texts, succeeds with the four expected networks |
| `SelfTest.RunSelfTest` | cidrlist.py:95-116 | the scan `CidrList.Contains`, asked the seven query texts in order, answers true, true, true, false, true, true, false |

## Left out

- `setup.py` is packaging metadata that reads `README.md` from disk. It holds no logic and is not part of this model.
- The `print` calls of the `__main__` block are left out. Its assertions are `SelfTest.RunSelfTest` and the lemmas it rests on.
- The `self.cidrs = []` field is never read, so it is not modelled. Neither is the inheritance from `list`: the list is a `seq` field that only `Append` extends.
- Python raises `ValueError` from `CIDRlist(...)` and from `ip in c`. The model returns a `Result`: the error names the refused entry, or the refused query text. Python's message wording is not modelled.
- `CidrLists.CidrList.FromEntries`: on a bad entry Python has a half-built object that the exception discards. The model returns only the error.
- `ipaddress` is used as Python documents it. Its code is a foreign call, and only the behaviour the class relies on is modelled. Leading zeros in an octet are refused, as in current Python; versions before 3.9.5 accepted them.
- `Ipv6.ParseAddress` leaves out an embedded IPv4 suffix (`::ffff:1.2.3.4`) and a `%scope` zone. It returns `None` for such text, so an entry written that way is refused in the model, while Python accepts it. An IPv6 entry never answers a query in either case.
- Entries given as integers, bytes or tuples are out of scope; `ip_network` also accepts those, but the class is documented for strings only.
- A query may carry a `/prefix`. `IPv4Network(ip)` is strict, so a query with host bits set is refused. A strict network query is matched by the full `overlaps` rule, which `Ipv4.OverlapsIff` characterises.
- The textual forms of documented behaviour differ from the code in two places, and the model follows the code:
  - A valid IPv6 query text is an error (`Networks.ColonQueryRefused`), not `False`.
  - A query is parsed as an `IPv4Network`, not as a bare address, so a network query is accepted.
- Addresses are bit strings, and integer widths are modelled exactly. Nothing overflows in the source, so no wrap-around is modelled.
