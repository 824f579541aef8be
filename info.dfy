/**
  `Describe` and the queries it is made of: the address counts, the
  dotted-decimal netmask and the first and last host addresses of a network.

  The byte loops of the source (`inverseMask`, `maskWithOR`, `byteToString`,
  and the last-byte increment and decrement) are methods over arrays, each
  proved against a function on sequences; the lemmas relate those functions
  to the 32-bit values of the addresses.
*/
module Info {
  import opened Wrappers
  import opened Bits
  import opened Octets
  import opened PrefixBlocks
  import opened NetAddr
  import opened Network
  import opened Exceptions

  /** `cidr.Info`. */
  datatype Info = Info(networkAddress: seq<byte>, availableHostAddresses: int, allAddresses: int,
                       netmask: string, firstAddress: seq<byte>, lastAddress: seq<byte>)

  /** What `maskWithOR` computes: nothing when the lengths differ, otherwise
      the bytewise OR of the address and the mask. */
  function MaskedOr(mask: seq<byte>, ip: seq<byte>): (r: Option<seq<byte>>)
    ensures r.None? <==> |ip| != |mask|
    ensures r.Some? ==> |r.value| == |ip| && forall i | 0 <= i < |ip| :: r.value[i] == Or(ip[i], mask[i])
  {
    if |ip| != |mask| then None else Some(OrBytes(ip, mask))
  }

  /** The directed broadcast address, the network address ORed with the
      inverse mask as `lastHostAddress` and `isBroadcastAddress` build it. */
  function Broadcast(n: Network): (b: seq<byte>)
    requires |IP(n)| == |Mask(n)|
    ensures |b| == |IP(n)|
  {
    OrBytes(IP(n), NotBytes(Mask(n)))
  }

  /** What `firstHostAddress` returns: the network address for /31 and /32,
      otherwise the network address with its last byte incremented as a Go
      byte, modulo 256. */
  function FirstHost(n: Network): (r: seq<byte>)
    requires |IP(n)| == 4
    ensures |r| == 4
  {
    var nip := IP(n);
    if Has31Exception(n) || Has32Exception(n) then nip
    else Incremented(nip)
  }

  /** What `lastHostAddress` returns: the broadcast address for /31 and /32,
      otherwise the broadcast address with its last byte decremented as a Go
      byte, modulo 256. */
  function LastHost(n: Network): (r: seq<byte>)
    requires |IP(n)| == |Mask(n)| > 0
    ensures |r| == |IP(n)|
  {
    var last := Broadcast(n);
    if Has32Exception(n) || Has31Exception(n) then last
    else Decremented(last)
  }

  /** `addresses`: the size of the block and the number of usable host
      addresses in it, with /31 and /32 as fixed exceptions.  The power of
      two is exact here; the source computes it in floating point. */
  function Addresses(n: Network): (r: (int, int))
    ensures r.1 <= r.0
  {
    if Has31Exception(n) then (2, 2)
    else if Has32Exception(n) then (1, 1)
    else
      var (leadingBits, size) := Size(Mask(n));
      var a := Pow2(size - leadingBits);
      (a, a - 2)
  }

  /** The `Info` that `Describe` returns. */
  function Described(n: Network): Info
    requires |IP(n)| == |Mask(n)| == 4
  {
    var (all, available) := Addresses(n);
    Info(IP(n), available, all, FormatBytes(Mask(n)), FirstHost(n), LastHost(n))
  }

  /** `make` followed by `copy`: a fresh buffer holding the bytes. */
  method Copy(s: seq<byte>) returns (a: array<byte>)
    ensures fresh(a) && a[..] == s
  {
    a := new byte[|s|];
    for i := 0 to |s|
      invariant a[..i] == s[..i]
    {
      a[i] := s[i];
    }
  }

  /** `inverseMask`: a fresh buffer holding the complement of every mask
      byte. */
  method InverseMask(n: Network) returns (im: array<byte>)
    ensures fresh(im) && im[..] == NotBytes(Mask(n))
  {
    var m := Mask(n);
    im := new byte[|m|];
    for i := 0 to |m|
      invariant im[..i] == NotBytes(m)[..i]
    {
      im[i] := NotByte(m[i]);
    }
  }

  /** `maskWithOR`: null when the lengths differ, otherwise a fresh buffer
      with the bytewise OR; its arguments are left alone. */
  method MaskWithOR(mask: array<byte>, ip: seq<byte>) returns (out: array?<byte>)
    ensures out == null <==> MaskedOr(mask[..], ip).None?
    ensures out != null ==> fresh(out) && MaskedOr(mask[..], ip) == Some(out[..])
  {
    var n := |ip|;
    if n != mask.Length {
      return null;
    }
    out := new byte[n];
    for i := 0 to n
      invariant out[..i] == OrBytes(ip, mask[..])[..i]
    {
      out[i] := OrByte(ip[i], mask[i]);
    }
    assert out[..] == out[..n] && OrBytes(ip, mask[..])[..n] == OrBytes(ip, mask[..]);
  }

  /** `byteToString`: a fresh buffer holding each byte in decimal. */
  method ByteToString(b: seq<byte>) returns (s: array<string>)
    ensures fresh(s) && s[..] == ByteNumerals(b)
  {
    s := new string[|b|];
    for i := 0 to |b|
      invariant s[..i] == ByteNumerals(b)[..i]
    {
      s[i] := Decimal.Digits(b[i]);
    }
  }

  /** `netmaskString`: the mask bytes in decimal, joined by dots. */
  method NetmaskString(n: Network) returns (nm: string)
    ensures nm == FormatBytes(Mask(n))
  {
    var s := ByteToString(Mask(n));
    nm := Text.Join(s[..], '.');
  }

  /** `firstHostAddress`. The source hands back the network address itself
      for /31 and /32; a copy of its bytes is returned here. */
  method FirstHostAddress(n: Network) returns (first: array<byte>)
    requires |IP(n)| == 4
    ensures fresh(first) && first[..] == FirstHost(n)
  {
    var nip := IP(n);
    if Has31Exception(n) || Has32Exception(n) {
      first := Copy(nip);
      return;
    }
    first := Copy(nip);
    first[first.Length - 1] := (first[first.Length - 1] as int + 1) % 256;
  }

  /** `lastHostAddress`. */
  method LastHostAddress(n: Network) returns (last: array<byte>)
    requires |IP(n)| == |Mask(n)| > 0
    ensures fresh(last) && last[..] == LastHost(n)
  {
    var im := InverseMask(n);
    var out := MaskWithOR(im, IP(n));
    last := out;
    if Has32Exception(n) || Has31Exception(n) {
      return;
    }
    last[last.Length - 1] := (last[last.Length - 1] as int + 255) % 256;
  }

  /** `Describe`. */
  method Describe(n: Network) returns (info: Info)
    requires |IP(n)| == |Mask(n)| == 4
    ensures info == Described(n)
  {
    var (all, available) := Addresses(n);
    var nm := NetmaskString(n);
    var f := FirstHostAddress(n);
    var l := LastHostAddress(n);
    info := Info(IP(n), available, all, nm, f[..], l[..]);
  }

  /** On a constructed network the mask is the /p mask of the network
      address, the host part of that address is clear, and `Broadcast` is
      the broadcast address of the block. */
  lemma NetworkOfBlock(n: Network)
    requires Valid(n)
    ensures Prefix(n) <= 32 && |IP(n)| == |Mask(n)| == 4
    ensures Mask(n) == PrefixMask(IP(n), Prefix(n))
    ensures HostBitsClear(IP(n), Prefix(n))
    ensures Broadcast(n) == BroadcastOf(IP(n), Prefix(n))
  {
    var p, x := Prefix(n), IP(n);
    assert PrefixMask(n.ip, p) == Mask(n) == PrefixMask(x, p);
    MaskedIsClear(n.ip, p);
  }

  /** The same facts as values: the low 32 - p bits of the network address
      are zero, and the broadcast address lies 2^(32-p) - 1 above it. */
  lemma HostPart(n: Network)
    requires Valid(n)
    ensures Prefix(n) <= 32 && |IP(n)| == |Mask(n)| == 4
    ensures Low(Value(IP(n)), 8 * |IP(n)| - Prefix(n)) == 0
    ensures Value(Broadcast(n)) == Value(IP(n)) + Pow2(8 * |IP(n)| - Prefix(n)) - 1
  {
    NetworkOfBlock(n);
    ClearBlockValues(IP(n), Broadcast(n), Prefix(n));
  }

  /** Up to /30 the host part has at least two bits, so the network address
      is even and incrementing its last byte is adding one to the 32-bit
      value: nothing carries. */
  lemma FirstHostValue(n: Network)
    requires Valid(n) && Prefix(n) <= 30
    ensures Value(FirstHost(n)) == Value(IP(n)) + 1
  {
    HostPart(n);
    ExceptionsOfPrefix(n);
    IncrementInBlock(IP(n), 8 * |IP(n)| - Prefix(n));
  }

  /** Up to /30 the broadcast address is odd, so decrementing its last byte
      is subtracting one from the 32-bit value: nothing borrows. */
  lemma LastHostValue(n: Network)
    requires Valid(n) && Prefix(n) <= 30
    ensures Value(LastHost(n)) == Value(Broadcast(n)) - 1
  {
    HostPart(n);
    ExceptionsOfPrefix(n);
    DecrementInBlock(Broadcast(n), Value(IP(n)), 8 * |IP(n)| - Prefix(n));
  }

  /** For /31 and /32 the first host is the network address and the last is
      the broadcast address: the address after it for /31 (RFC 3021), the
      network address itself for /32. */
  lemma ExceptionHosts(n: Network)
    requires Valid(n) && Prefix(n) >= 31
    ensures FirstHost(n) == IP(n) && LastHost(n) == Broadcast(n)
    ensures Prefix(n) == 31 ==> Value(LastHost(n)) == Value(IP(n)) + 1
    ensures Prefix(n) == 32 ==> LastHost(n) == IP(n)
  {
    HostPart(n);
    ExceptionsOfPrefix(n);
    var h := 8 * |IP(n)| - Prefix(n);
    if Prefix(n) == 32 {
      assert h == 0;
      ValueInjective(Broadcast(n), IP(n));
    } else {
      assert h == 1 && Pow2(h) == 2;
    }
  }

  /** `addresses` on a constructed network: (2, 2) for /31, (1, 1) for /32,
      and otherwise the block size 2^(32-p) with the network and broadcast
      addresses taken off. */
  lemma AddressesOfPrefix(n: Network)
    requires Valid(n)
    ensures Prefix(n) == 31 ==> Addresses(n) == (2, 2)
    ensures Prefix(n) == 32 ==> Addresses(n) == (1, 1)
    ensures Prefix(n) <= 30 ==> Addresses(n) == (Pow2(32 - Prefix(n)), Pow2(32 - Prefix(n)) - 2)
  {
    ExceptionsOfPrefix(n);
    if Prefix(n) <= 30 {
      assert Size(Mask(n)).1 - Size(Mask(n)).0 == 32 - Prefix(n);
    }
  }

  /** The counts agree with the block and its host range: all addresses are
      those from the network to the broadcast address, and the available ones
      run from the first host to the last. */
  lemma AddressesMatchRange(n: Network)
    requires Valid(n)
    ensures Addresses(n).0 == Value(Broadcast(n)) - Value(IP(n)) + 1
    ensures Value(FirstHost(n)) <= Value(LastHost(n))
    ensures Value(LastHost(n)) - Value(FirstHost(n)) + 1 == Addresses(n).1
  {
    HostPart(n);
    AddressesOfPrefix(n);
    if Prefix(n) <= 30 {
      FirstHostValue(n);
      LastHostValue(n);
      Pow2Monotonic(1, 32 - Prefix(n));
      Pow2Small();
    } else {
      ExceptionHosts(n);
      Pow2Small();
    }
  }

  /** The mask and its inverse together cover every bit and share none. */
  lemma InverseMaskComplements(n: Network)
    ensures |NotBytes(Mask(n))| == |Mask(n)|
    ensures OrBytes(Mask(n), NotBytes(Mask(n))) == seq(|Mask(n)|, i => 255)
    ensures AndBytes(Mask(n), NotBytes(Mask(n))) == seq(|Mask(n)|, i => 0)
    ensures Value(NotBytes(Mask(n))) == Pow2(8 * |Mask(n)|) - 1 - Value(Mask(n))
  {
    ComplementBytes(Mask(n));
    NotBytesValue(Mask(n));
  }

  /** The byte loop of `maskWithOR` is the OR of the two values. */
  lemma MaskedOrValue(mask: seq<byte>, ip: seq<byte>)
    requires |mask| == |ip|
    ensures MaskedOr(mask, ip).Some?
    ensures Value(MaskedOr(mask, ip).value) == Or(Value(ip), Value(mask))
  {
    OrBytesValue(ip, mask);
  }

  /** The netmask string is the dotted quad of the mask: it parses back to
      the mask. */
  lemma NetmaskParses(n: Network)
    requires |Mask(n)| == 4
    ensures ParseIPv4(FormatBytes(Mask(n))) == Some(Mask(n))
  {
    ParseFormat(Mask(n));
  }

  /** What `Describe` reports for a constructed network. */
  lemma DescribedFacts(n: Network)
    requires Valid(n)
    ensures |IP(n)| == |Mask(n)| == 4
    ensures var info := Described(n);
            info.networkAddress == IP(n) &&
            ParseIPv4(info.netmask) == Some(Mask(n)) &&
            Value(info.firstAddress) <= Value(info.lastAddress) &&
            Value(info.lastAddress) - Value(info.firstAddress) + 1 == info.availableHostAddresses &&
            info.allAddresses == Value(Broadcast(n)) - Value(IP(n)) + 1
  {
    HostPart(n);
    AddressesMatchRange(n);
    NetmaskParses(n);
  }
}
