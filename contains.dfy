/**
  The containment queries of a network: whether an address lies in it,
  whether an address is only its network or broadcast address, and whether
  a whole block lies inside it.

  A Go `(bool, error)` result is a pair whose second half is `None` for a
  nil error.
*/
module Containment {
  import opened Wrappers
  import opened Bits
  import opened Octets
  import opened PrefixBlocks
  import opened NetAddr
  import opened Network
  import opened Exceptions
  import opened Info

  /** `parseIP`: an address in dotted-quad form, or an invalid-address
      error. */
  function ParseIP(s: string): (r: Result<seq<byte>, Error>)
    ensures r.Ok? <==> ParseIPv4(s).Some?
    ensures r.Ok? ==> |r.value| == 4 && FormatBytes(r.value) == s
    ensures r.Err? ==> r.error == InvalidAddress
  {
    match ParseIPv4(s)
    case None => Err(InvalidAddress)
    case Some(ip) => FormatParse(s); Ok(ip)
  }

  /** `parseSubnet`: the address as written and the network of a CIDR
      string, or an invalid-CIDR error. */
  function ParseSubnet(s: string): (r: Result<(seq<byte>, IPNet), Error>)
    ensures r.Ok? <==> NewNetwork(s).Ok?
    ensures r.Ok? ==> NewNetwork(s).value == Network(r.value.1, r.value.0)
    ensures r.Err? ==> r.error == InvalidCIDR
  {
    match ParseCIDR(s)
    case None => Err(InvalidCIDR)
    case Some(p) => Ok(p)
  }

  /** `ContainsIP`. */
  function ContainsIP(n: Network, s: string): (r: (bool, Option<Error>))
    ensures r.1.Some? <==> ParseIPv4(s).None?
    ensures r.1.Some? ==> r == (false, Some(InvalidAddress))
  {
    match ParseIP(s)
    case Err(e) => (false, Some(e))
    case Ok(ip) => (Contains(n.ipNet, ip), None)
  }

  /** The four results of `ContainsIPAsHostAddress`. */
  datatype HostCheck = HostCheck(inRange: bool, onlyNetwork: bool, onlyBroadcast: bool, err: Option<Error>)

  /** `isBroadcastAddress`: the address equals the network address ORed with
      the inverse mask.  A nil `net.IP` is the empty slice, as `Equal` sees
      it. */
  function IsBroadcastAddress(n: Network, ip: seq<byte>): (r: bool)
    ensures |IP(n)| == |Mask(n)| ==> (r <==> ip == Broadcast(n))
  {
    var last := MaskedOr(NotBytes(Mask(n)), IP(n));
    ip == (if last.Some? then last.value else [])
  }

  /** `ContainsIPAsHostAddress`. */
  function ContainsIPAsHostAddress(n: Network, s: string): (r: HostCheck)
    ensures r.err.Some? <==> ParseIPv4(s).None?
    ensures r.err.Some? ==> r == HostCheck(false, false, false, Some(InvalidAddress))
  {
    match ParseIP(s)
    case Err(e) => HostCheck(false, false, false, Some(e))
    case Ok(ip) =>
      var inRange := Contains(n.ipNet, ip);
      if Has31Exception(n) || Has32Exception(n) then HostCheck(inRange, false, false, None)
      else HostCheck(inRange, ip == IP(n), IsBroadcastAddress(n, ip), None)
  }

  /** `ContainsSubnet`: a candidate with a shorter prefix is refused without
      looking at addresses; otherwise the candidate's address as written is
      tested for containment. */
  function ContainsSubnet(n: Network, s: string): (r: (bool, Option<Error>))
    ensures r.1.Some? <==> NewNetwork(s).Err?
    ensures r.1.Some? ==> r == (false, Some(InvalidCIDR))
  {
    match ParseSubnet(s)
    case Err(e) => (false, Some(e))
    case Ok((ip, subnet)) =>
      var (sMaskSize, _) := Size(subnet.mask);
      var (nMaskSize, _) := Size(Mask(n));
      if sMaskSize < nMaskSize then (false, None)
      else (Contains(n.ipNet, ip), None)
  }

  /** A network contains exactly the addresses from its network address to
      its broadcast address. */
  lemma ContainsInterval(n: Network, x: seq<byte>)
    requires Valid(n) && |x| == 4
    ensures Contains(n.ipNet, x) <==> Value(IP(n)) <= Value(x) <= Value(Broadcast(n))
  {
    NetworkOfBlock(n);
    BlockIsInterval(x, IP(n), Prefix(n));
  }

  /** Containment in a constructed network is agreement with the address as
      written under the mask; so that address is in its own network. */
  lemma InOwnBlock(c: Network, x: seq<byte>)
    requires Valid(c) && |x| == 4
    ensures Contains(c.ipNet, x) <==> AndBytes(x, Mask(c)) == AndBytes(c.ip, Mask(c))
    ensures Contains(c.ipNet, c.ip)
  {
    NetworkOfBlock(c);
  }

  /** A block whose prefix is at least as long as the network's, and whose
      address lies in the network, lies wholly inside the network. */
  lemma NarrowerInside(n: Network, c: Network, x: seq<byte>)
    requires Valid(n) && Valid(c) && Prefix(n) <= Prefix(c)
    requires Contains(n.ipNet, c.ip) && |x| == 4 && Contains(c.ipNet, x)
    ensures Contains(n.ipNet, x)
  {
    var p, q := Prefix(n), Prefix(c);
    InOwnBlock(c, x);
    InOwnBlock(n, c.ip);
    assert AndBytes(x, PrefixMask(x, q)) == AndBytes(c.ip, PrefixMask(x, q));
    NestedBlocks(x, c.ip, p, q);
    assert AndBytes(x, Mask(n)) == AndBytes(c.ip, Mask(n));
  }

  /** A block with a shorter prefix than the network's is larger than it:
      it does not fit between the network and broadcast addresses.  Stated
      on the block facts HostPart gives for both networks. */
  lemma WiderOverhangs(n: Network, c: Network)
    requires |IP(n)| == |Mask(n)| == 4 && |IP(c)| == |Mask(c)| == 4 && Prefix(c) < Prefix(n) <= 32
    requires Value(Broadcast(n)) == Value(IP(n)) + Pow2(8 * |IP(n)| - Prefix(n)) - 1
    requires Value(Broadcast(c)) == Value(IP(c)) + Pow2(8 * |IP(c)| - Prefix(c)) - 1
    ensures !(Value(IP(n)) <= Value(IP(c)) && Value(Broadcast(c)) <= Value(Broadcast(n)))
  {
    WiderBlockOverhangs(IP(n), Broadcast(n), IP(c), Broadcast(c), 8 * |IP(n)|, 8 * |IP(c)|, Prefix(n), Prefix(c));
  }

  /** So its network or its broadcast address lies outside the network,
      though both lie in the block. */
  lemma WiderEscapes(n: Network, c: Network)
    requires Valid(n) && Valid(c) && Prefix(c) < Prefix(n)
    ensures !Contains(n.ipNet, IP(c)) || !Contains(n.ipNet, Broadcast(c))
    ensures Contains(c.ipNet, IP(c)) && Contains(c.ipNet, Broadcast(c))
  {
    HostPart(n);
    HostPart(c);
    WiderOverhangs(n, c);
    ContainsInterval(c, IP(c));
    ContainsInterval(c, Broadcast(c));
    ContainsInterval(n, IP(c));
    ContainsInterval(n, Broadcast(c));
  }

  /** A CIDR string, or anything else holding a '/', is not an address:
      both address queries report the error and no flag. */
  lemma RejectsCIDRString(n: Network, s: string)
    requires '/' in s
    ensures ContainsIP(n, s) == (false, Some(InvalidAddress))
    ensures ContainsIPAsHostAddress(n, s) == HostCheck(false, false, false, Some(InvalidAddress))
  {
    SlashIsNoAddress(s);
  }

  /** `ContainsIP` on an address: no error, and true exactly for the
      addresses from the network address to the broadcast address. */
  lemma ContainsIPInterval(n: Network, s: string)
    requires Valid(n) && ParseIP(s).Ok?
    ensures ContainsIP(n, s).1 == None
    ensures ContainsIP(n, s).0 <==> Value(IP(n)) <= Value(ParseIP(s).value) <= Value(Broadcast(n))
  {
    ContainsInterval(n, ParseIP(s).value);
  }

  /** A network contains its network address and the address it was
      written with. */
  lemma ContainsIPReflexive(n: Network)
    requires Valid(n)
    ensures ContainsIP(n, FormatBytes(IP(n))) == (true, None)
    ensures ContainsIP(n, FormatBytes(n.ip)) == (true, None)
  {
    NetworkOfBlock(n);
    ParseFormat(IP(n));
    ParseFormat(n.ip);
    InOwnBlock(n, n.ip);
  }

  /** `ContainsIPAsHostAddress` reports the range and the error of
      `ContainsIP`, and no flag with an error. */
  lemma HostCheckAgrees(n: Network, s: string)
    ensures ContainsIPAsHostAddress(n, s).inRange == ContainsIP(n, s).0
    ensures ContainsIPAsHostAddress(n, s).err == ContainsIP(n, s).1
    ensures ContainsIPAsHostAddress(n, s).err.Some? ==>
              !ContainsIPAsHostAddress(n, s).onlyNetwork && !ContainsIPAsHostAddress(n, s).onlyBroadcast
  {
  }

  /** For /31 and /32 no address is only a network or broadcast address
      (RFC 3021 for /31). */
  lemma HostCheckExceptions(n: Network, s: string)
    requires Valid(n) && Prefix(n) >= 31
    ensures !ContainsIPAsHostAddress(n, s).onlyNetwork && !ContainsIPAsHostAddress(n, s).onlyBroadcast
  {
    ExceptionsOfPrefix(n);
  }

  /** Up to /30 the flags name the network address and the broadcast
      address. */
  lemma HostCheckFlags(n: Network, s: string)
    requires Valid(n) && Prefix(n) <= 30 && ParseIP(s).Ok?
    ensures var r, x := ContainsIPAsHostAddress(n, s), ParseIP(s).value;
            r.err == None && (r.onlyNetwork <==> x == IP(n)) && (r.onlyBroadcast <==> x == Broadcast(n))
  {
    ExceptionsOfPrefix(n);
    NetworkOfBlock(n);
  }

  /** Either flag implies the address is in range, and no address is both
      the network and the broadcast address. */
  lemma HostCheckConsistent(n: Network, s: string)
    requires Valid(n)
    ensures var r := ContainsIPAsHostAddress(n, s);
            (r.onlyNetwork || r.onlyBroadcast ==> r.inRange) && !(r.onlyNetwork && r.onlyBroadcast)
  {
    if Prefix(n) <= 30 && ParseIP(s).Ok? {
      HostCheckFlags(n, s);
      HostPart(n);
      Pow2Monotonic(1, 8 * |IP(n)| - Prefix(n));
      Pow2Small();
      ContainsInterval(n, IP(n));
      ContainsInterval(n, Broadcast(n));
    } else if Prefix(n) >= 31 {
      HostCheckExceptions(n, s);
    }
  }

  /** `ContainsSubnet` reports a candidate that is not CIDR notation as an
      invalid-CIDR error. */
  lemma SubnetParseError(n: Network, s: string)
    requires NewNetwork(s).Err?
    ensures ContainsSubnet(n, s) == (false, Some(InvalidCIDR))
  {
  }

  /** A candidate with a shorter prefix is refused whatever its address. */
  lemma SubnetShortCircuit(n: Network, s: string)
    requires NewNetwork(s).Ok? && Prefix(NewNetwork(s).value) < Prefix(n)
    ensures ContainsSubnet(n, s) == (false, None)
  {
  }

  /** On a constructed network, `ContainsSubnet` holds exactly when every
      address of the candidate block lies in the network. */
  lemma SubnetInside(n: Network, s: string)
    requires Valid(n) && NewNetwork(s).Ok?
    ensures var c := NewNetwork(s).value;
            ContainsSubnet(n, s).1 == None &&
            (ContainsSubnet(n, s).0 <==> forall x | |x| == 4 && Contains(c.ipNet, x) :: Contains(n.ipNet, x))
  {
    var c := NewNetwork(s).value;
    NewNetworkValid(s);
    if Prefix(c) < Prefix(n) {
      WiderEscapes(n, c);
    } else if Contains(n.ipNet, c.ip) {
      forall x | |x| == 4 && Contains(c.ipNet, x)
        ensures Contains(n.ipNet, x)
      {
        NarrowerInside(n, c, x);
      }
    } else {
      InOwnBlock(c, c.ip);
    }
  }

  /** The address as written is kept in a field no query reads: replacing
      it changes no answer and no description. */
  lemma WrittenAddressUnread(n: Network, w: seq<byte>, s: string)
    requires |IP(n)| == |Mask(n)| == 4
    ensures var m := Network(n.ipNet, w);
            ContainsIP(m, s) == ContainsIP(n, s) &&
            ContainsIPAsHostAddress(m, s) == ContainsIPAsHostAddress(n, s) &&
            ContainsSubnet(m, s) == ContainsSubnet(n, s) &&
            Described(m) == Described(n)
  {
    var m := Network(n.ipNet, w);
    assert m.ipNet == n.ipNet && IP(m) == IP(n) && Mask(m) == Mask(n);
    assert Has31Exception(m) == Has31Exception(n) && Has32Exception(m) == Has32Exception(n);
    assert Broadcast(m) == Broadcast(n);
  }
}
