# cidrgo `pkg/cidr` in Dafny

A model of the IPv4 CIDR calculator package `pkg/cidr` of cidrgo, with proofs.

The package is built around a `Network`. It is made from CIDR notation such as `10.0.0.0/16`: an IPv4 network address with its host bits cleared, and the contiguous-ones mask of a prefix length 0..32. Over a `Network` the package answers these questions:

- whether an address lies in the block (`ContainsIP`);
- whether an address lies in the block and is only its network address or only its directed broadcast address (`ContainsIPAsHostAddress`);
- whether a smaller block lies inside it (`ContainsSubnet`);
- what the block looks like (`Describe`): its address counts, its dotted-decimal netmask and its first and last host addresses.

The /31 (point-to-point, RFC 3021) and /32 (single host) prefixes are exceptions: they have no separate network or broadcast address.

Modules:

- `Bits`, `Octets`, `PrefixBlocks`: exact arithmetic on byte strings. An address is its bytes, most significant first, and `Value` is the number they spell. `PrefixBlocks` proves the block facts of section 3.1 of RFC 4632: masking clears the host part, and the block is the interval from the network address to the broadcast address of section 3.2.1.3 of RFC 1122.
- `Decimal`, `Text`, `NetAddr`: the part of Go's `net`, `strings` and `fmt` packages the package relies on, for IPv4 dotted quads:
  - `NetAddr.ParseIPv4` (`net.ParseIP`) and `NetAddr.ParseCIDR` (`net.ParseCIDR`);
  - `NetAddr.CIDRMask`, `NetAddr.Contains` (`(*IPNet).Contains`);
  - `Octets.Size` (`IPMask.Size`);
  - `Text.Split`/`Join`/`Cut`;
  - `NetAddr.FormatBytes` (decimal bytes joined by dots).
- `Network`, `Exceptions`, `Info`, `Containment`: the four core files (the last models `contains.go`). `network.go`, `exceptions.go` and `contains.go` are pure and are modelled by functions. In `info.go`, the buffer-filling helpers `inverseMask`, `maskWithOR`, `byteToString`, `firstHostAddress` and `lastHostAddress` are methods over fresh arrays, each proved equal to a specification function. The facts about the block are lemmas about those functions.
- `Examples`: the scenarios of `info_test.go` and `contains_test.go` as facts about the model.

A `Network` is a datatype value. No query can change it, and every derived address is a fresh array or a new sequence.

## Model

| member | source | states |
|---|---|---|
| Network.NewNetwork | pkg/cidr/network.go:13-19 | Fails, always with the invalid-CIDR error, exactly when the text is not CIDR notation |
| Network.NewNetworkValid | pkg/cidr/network.go:14-18 | On success: the mask is the canonical 4-byte mask, and its leading-ones count is the number after the '/'; the stored address is written before the '/'; the network address is that address ANDed with the mask |
| Network.NewNetworkOfCIDR | pkg/cidr/network.go:13-19 | Every 4-byte address with every prefix 0..32, written as CIDR, builds the network of that prefix around that address, whose prefix length is that prefix |
| NetAddr.ParseCIDRSuccess | pkg/cidr/network.go:14 | A CIDR string that parses is a canonical dotted quad, a '/', and one or more digits with value at most 32; the network number is the address ANDed with that mask |
| NetAddr.ParseCIDRFormat | pkg/cidr/network.go:14 | A formatted address and prefix parse back to that address and its /p network |
| NetAddr.ParseFormat | pkg/cidr/contains.go:62 | Parsing a formatted 4-byte address gives it back |
| NetAddr.FormatParse | pkg/cidr/contains.go:62 | An address that parses is written in its canonical dotted form |
| NetAddr.SlashIsNoAddress | pkg/cidr/contains.go:62-65 | Text holding a '/' never parses as an address |
| NetAddr.Contains | pkg/cidr/contains.go:14 | Containment implies that the address, the network number and the mask are all 4 bytes long |
| Octets.SizeOfMask | pkg/cidr/exceptions.go:4 | The canonical /p mask of n bytes reports p leading ones out of 8n bits |
| Octets.SizeCanonical | pkg/cidr/exceptions.go:4 | A mask reports (k, 8n) only when it is the canonical /k mask |
| Exceptions.Has31Exception | pkg/cidr/exceptions.go:3-6 | The /31 test on the mask's size; it carries no ensures of its own, and Has31OfMask and ExceptionsOfPrefix state what it means |
| Exceptions.Has32Exception | pkg/cidr/exceptions.go:7-10 | The /32 test on the mask's size; it carries no ensures of its own, and Has32OfMask and ExceptionsOfPrefix state what it means |
| Exceptions.Has31OfMask | pkg/cidr/exceptions.go:3-6 | The /31 exception holds exactly when the mask is the /31 mask; it reads only the mask |
| Exceptions.Has32OfMask | pkg/cidr/exceptions.go:7-10 | The /32 exception holds exactly when the mask is the all-ones mask; it reads only the mask |
| Exceptions.ExceptionsOfPrefix | pkg/cidr/exceptions.go:3-10 | On a constructed network: /31 holds exactly for prefix 31 and /32 for prefix 32; never both; neither up to /30 |
| Info.MaskedOr | pkg/cidr/info.go:85-95 | Nothing exactly when the lengths differ; otherwise a result of the address's length whose byte i is ip[i] OR mask[i] |
| Info.MaskWithOR | pkg/cidr/info.go:85-95 | Null exactly when the lengths differ, otherwise a fresh buffer holding the bytewise OR; its inputs are not modified |
| Info.MaskedOrValue | pkg/cidr/info.go:85-95 | The bytewise OR of equal-length strings is the bitwise OR of their values |
| Info.InverseMask | pkg/cidr/info.go:55-62 | A fresh buffer of the mask's length holding the complement of every mask byte |
| Info.InverseMaskComplements | pkg/cidr/info.go:55-62 | The mask OR its inverse is all ones, the mask AND its inverse is all zeros, and the inverse's value is 2^(8n) - 1 minus the mask's, for a mask of n bytes |
| Info.ByteToString | pkg/cidr/info.go:97-103 | A fresh buffer holding the decimal numeral of each byte, in order |
| Info.NetmaskString | pkg/cidr/info.go:77-82 | The mask bytes in decimal joined by dots |
| Info.NetmaskParses | pkg/cidr/info.go:77-82 | The netmask string parses back to the mask |
| Info.FirstHostAddress | pkg/cidr/info.go:44-53 | A fresh buffer: the network address for /31 and /32, otherwise the network address with its last byte incremented modulo 256 |
| Info.FirstHostValue | pkg/cidr/info.go:49-51 | Up to /30, the incremented last byte is the network address plus one as a 32-bit value, with no carry |
| Info.LastHostAddress | pkg/cidr/info.go:34-42 | A fresh buffer: the network address ORed with the inverse mask for /31 and /32, otherwise that with its last byte decremented modulo 256 |
| Info.LastHostValue | pkg/cidr/info.go:36-40 | Up to /30, the decremented last byte is the broadcast address minus one as a 32-bit value, with no borrow |
| Info.ExceptionHosts | pkg/cidr/info.go:37-38 | For /31 and /32 the first host is the network address and the last host is the broadcast address; for /31 the last is the network address plus one, for /32 the network address itself |
| Info.NetworkOfBlock | pkg/cidr/network.go:14-18 | A constructed network's mask is the /p mask of its network address, whose host part is clear; network OR inverse mask is the broadcast address of the block |
| Info.HostPart | pkg/cidr/info.go:36 | The network address has its 32 - p low bits clear, and the broadcast address lies 2^(32-p) - 1 above it |
| Info.Addresses | pkg/cidr/info.go:64-75 | The available count never exceeds the total |
| Info.AddressesOfPrefix | pkg/cidr/info.go:64-75 | (2, 2) for /31, (1, 1) for /32, and (2^(32-p), 2^(32-p) - 2) up to /30 |
| Info.AddressesMatchRange | pkg/cidr/info.go:19-32 | The total is broadcast - network + 1; first host <= last host; last - first + 1 is the available count |
| Info.Describe | pkg/cidr/info.go:19-32 | The description assembled from the counts, the netmask string and the first and last host addresses |
| Info.DescribedFacts | pkg/cidr/info.go:19-32 | The network address is the network's; the netmask parses to the mask; first <= last; last - first + 1 is the available count; the total is the block size |
| Containment.ParseIP | pkg/cidr/contains.go:61-67 | Succeeds exactly for a dotted quad, whose 4 bytes format back to the text; fails with the invalid-address error |
| Containment.ParseSubnet | pkg/cidr/contains.go:53-59 | Succeeds exactly when the text builds a network, the same one; fails with the invalid-CIDR error |
| Containment.ContainsIP | pkg/cidr/contains.go:9-15 | An error is reported exactly when the text is not a dotted quad, and it is then (false, invalid address) |
| Containment.ContainsInterval | pkg/cidr/contains.go:14 | On a constructed network an address is contained exactly when its value lies between the network and broadcast addresses |
| Containment.InOwnBlock | pkg/cidr/contains.go:14 | An address is contained exactly when it agrees with the address as written under the mask; a network contains the address it was written with |
| Containment.ContainsIPInterval | pkg/cidr/contains.go:9-15 | On an address: no error, and true exactly for the addresses from the network address to the broadcast address |
| Containment.ContainsIPReflexive | pkg/cidr/contains.go:9-15 | A network contains its network address and its address as written, with no error |
| Containment.RejectsCIDRString | pkg/cidr/contains.go:9-13 | Text holding a '/' gives (false, invalid address) from ContainsIP, and (false, false, false, invalid address) from ContainsIPAsHostAddress |
| Containment.ContainsIPAsHostAddress | pkg/cidr/contains.go:20-36 | An error is reported exactly when the text is not a dotted quad, and then every flag is false; HostCheckAgrees, HostCheckExceptions, HostCheckFlags and HostCheckConsistent state the rest |
| Containment.IsBroadcastAddress | pkg/cidr/contains.go:69-73 | True exactly for network OR inverse mask |
| Containment.HostCheckAgrees | pkg/cidr/contains.go:20-36 | inRange and the error agree with ContainsIP; on an error neither flag is set |
| Containment.HostCheckExceptions | pkg/cidr/contains.go:29-31 | For /31 and /32 neither flag is ever set |
| Containment.HostCheckFlags | pkg/cidr/contains.go:33-34 | Up to /30: no error, onlyNetwork exactly for the network address, onlyBroadcast exactly for the broadcast address |
| Containment.HostCheckConsistent | pkg/cidr/contains.go:27-35 | Either flag implies inRange, and the two flags are never both set |
| Containment.ContainsSubnet | pkg/cidr/contains.go:40-51 | An error is reported exactly when the text does not build a network, and it is then (false, invalid CIDR) |
| Containment.SubnetParseError | pkg/cidr/contains.go:41-44 | A candidate that is not CIDR notation gives (false, invalid CIDR) |
| Containment.SubnetShortCircuit | pkg/cidr/contains.go:45-48 | A candidate with a shorter prefix gives (false, no error) whatever its address |
| Containment.WiderOverhangs | pkg/cidr/contains.go:47 | For two networks whose broadcast addresses lie 2^(32-p) - 1 above their network addresses, the one with the shorter prefix does not fit between the other's network and broadcast addresses |
| Containment.WiderEscapes | pkg/cidr/contains.go:47 | Such a block has its network or its broadcast address outside the network |
| Containment.NarrowerInside | pkg/cidr/contains.go:50 | A block with a longer or equal prefix whose address as written is in the network lies wholly inside it |
| Containment.SubnetInside | pkg/cidr/contains.go:40-51 | For a well-formed candidate: no error, and true exactly when every address of the candidate's block is in the network |
| Containment.WrittenAddressUnread | pkg/cidr/network.go:10 | Replacing the address as written changes no answer of ContainsIP, ContainsIPAsHostAddress or ContainsSubnet, and no description |
| PrefixBlocks.BlockIsInterval | pkg/cidr/contains.go:14 | The addresses that agree with a clear network address under the /p mask are exactly those from it to its broadcast address |
| PrefixBlocks.IncrementInBlock | pkg/cidr/info.go:51 | In a block of two or more addresses, incrementing the network address's last byte adds one to its value |
| PrefixBlocks.DecrementInBlock | pkg/cidr/info.go:40 | In a block of two or more addresses, decrementing the broadcast address's last byte subtracts one from its value |
| Examples.DescribeSlash16 | pkg/cidr/info_test.go:15-26 | `10.0.0.0/16` is described as network 10.0.0.0, 65534 hosts of 65536, netmask 255.255.0.0, hosts from 10.0.0.1 to 10.0.255.254 |
| Examples.DescribeSlash32 | pkg/cidr/info_test.go:27-38 | `10.0.0.0/32` is described as network 10.0.0.0, 1 host of 1, netmask 255.255.255.255, first and last 10.0.0.0 |
| Examples.ContainsSlash16 | pkg/cidr/contains_test.go:87-100 | In `10.0.0.0/16`: 10.0.0.0 is only the network address and 10.0.255.255 only the broadcast address; with the cases at contains_test.go lines 15-20, 27-33 and 111-116, 10.0.0.0 is contained and CIDR strings are errors of both address queries |
| Examples.ContainsSlash24Written | pkg/cidr/contains_test.go:21-26 | `10.13.14.15/24`, written with host bits set, builds a network that does not contain 10.13.10.0, with no error |
| Examples.ContainsSlash16Host | pkg/cidr/contains_test.go:63-68 | 10.0.1.0 is in `10.0.0.0/16` and is neither only the network nor only the broadcast address |
| Examples.ContainsSlash31 | pkg/cidr/contains_test.go:75-86 | In `10.0.0.0/31` both addresses are in range and neither flag is set |
| Examples.ContainsSlash32 | pkg/cidr/contains_test.go:69-74 | In `10.0.0.0/32` the single address is in range and neither flag is set |
| Examples.ContainsSlash16Above | pkg/cidr/contains_test.go:101-105 | 10.1.0.0 is not in `10.0.0.0/16`, with no flag and no error |
| Examples.ContainsSlash16Below | pkg/cidr/contains_test.go:107-110 | 10.0.0.0 is not in `10.1.0.0/16`, with no flag and no error |
| Examples.RejectedCIDRs | pkg/cidr/network.go:14-17 | Text with no '/' and a prefix of 33 do not build a network |

## Left out

- IPv6. Addresses, masks and networks are IPv4 only. A 4-byte address stands for both of Go's forms of it: Go's parsers return the 16-byte IPv4-mapped form of a dotted quad, and `Contains`, `To4` and `ip.Equal` normalise it, so on dotted-quad text the answers agree. IPv6 CIDR text does not build a network here; in Go it builds an IPv6 network.
- Containment.ParseIP: only dotted-quad text is an address here. Go's `net.ParseIP` also accepts IPv6 text, and the model answers differently there:
  - For IPv4-mapped text such as `::ffff:10.0.0.1`, Go's `ContainsIP` answers true for `10.0.0.0/16`. `ContainsIPAsHostAddress("::ffff:10.0.0.0")` also sets onlyNetwork there, through `ip.Equal`. The model returns the invalid-address error for both.
  - For other IPv6 text, Go's `ContainsIP` answers false with no error. The model returns the invalid-address error.
- Containment.ParseSubnet: likewise, IPv6 CIDR text, mapped or not, is an invalid-CIDR error here, whereas Go's `net.ParseCIDR` accepts it.
- Text parsing: Go's `net.ParseCIDR` and `net.ParseIP` are not shown in the repository, so they are modelled as a dotted-quad parser. Octets are 0..255 without leading zeros. The prefix is one or more decimal digits with value at most 32; leading zeros there are accepted, as Go accepts them.
- Octets.Size: `IPMask.Size` is modelled by a search over the canonical masks of each length. A non-canonical mask reports (0, 0). Only the 4-byte case is used.
- Info.FirstHostAddress: for /31 and /32 the source returns `n.IP` itself, so a caller that writes into the result writes into the network. The model returns a fresh copy of the same bytes and does not model that aliasing.
- Info.FirstHostAddress: requires a 4-byte network address, which every network built from CIDR text has. A network made otherwise could hold a 16-byte IPv4-mapped address, which `To4` converts. For /31 and /32 the source returns before it increments. Up to /30, a network address of any other length makes `To4` yield nil, and then `first[len-1]++` panics.
- Info.LastHostAddress: requires equal, non-zero lengths of the address and the mask. For /31 and /32 the source returns the OR result, possibly nil, before it decrements. Up to /30, other lengths make `maskWithOR` return nil, and then `last[len-1]--` panics.
- Info.Addresses: `math.Pow` in floating point is replaced by an exact power of two, which `math.Pow` reproduces for exponents up to 32. The conversion to Go's `int` is taken as exact. That holds where `int` has 64 bits. Where it has 32 bits, a /0 network's 2^32 does not fit, and that case is not modelled.
- Error texts from `fmt.Errorf`: errors are modelled as two kinds, invalid CIDR and invalid address.
- `main.go`: CLI parsing, printing and exit codes, and its older copies of the package logic, are not part of this model.
