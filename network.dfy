/**
  The calculator's `Network` value and its constructor `NewNetwork`.

  A `Network` embeds the `net.IPNet` that `net.ParseCIDR` returns, so its
  promoted fields `IP` (the network address, host bits cleared) and `Mask`
  are what every query reads; the address as written is kept only in the
  unexported field `ip`.  The value is never changed after construction, so
  it is a datatype here.
*/
module Network {
  import opened Wrappers
  import opened Octets
  import opened Decimal
  import opened Text
  import opened NetAddr

  /** `cidr.Network`: the embedded network and the address as written. */
  datatype Network = Network(ipNet: IPNet, ip: seq<byte>)

  /** The two kinds of error the calculator reports. */
  datatype Error = InvalidCIDR | InvalidAddress

  /** The promoted field `n.IP`, the network address. */
  function IP(n: Network): seq<byte>
  {
    n.ipNet.ip
  }

  /** The promoted field `n.Mask`. */
  function Mask(n: Network): seq<byte>
  {
    n.ipNet.mask
  }

  /** The prefix length, the leading-ones count of the mask. */
  function Prefix(n: Network): nat
  {
    Size(Mask(n)).0
  }

  /** What construction establishes: a canonical 4-byte mask of the prefix
      length, and a network address that is the written address with its
      host bits cleared. */
  predicate Valid(n: Network)
  {
    |n.ip| == 4 && Size(Mask(n)).1 == 32 && Mask(n) == CIDRMask(Prefix(n)) &&
    IP(n) == AndBytes(n.ip, Mask(n))
  }

  /** `NewNetwork`: parse CIDR notation; a parse failure is an error. */
  function NewNetwork(s: string): (r: Result<Network, Error>)
    ensures r.Err? <==> ParseCIDR(s).None?
    ensures r.Err? ==> r.error == InvalidCIDR
  {
    match ParseCIDR(s)
    case None => Err(InvalidCIDR)
    case Some((ip, n)) => Ok(Network(n, ip))
  }

  /** A network built from a CIDR string has its invariant, its prefix length
      is the number after the first '/', its address as written is the dotted
      quad before it, and its network address is that address ANDed with the
      mask. */
  lemma NewNetworkValid(s: string)
    requires NewNetwork(s).Ok?
    ensures var n := NewNetwork(s).value;
            Valid(n) && Cut(s, '/').Some? &&
            FormatBytes(n.ip) == Cut(s, '/').value.0 &&
            Prefix(n) == Number(Cut(s, '/').value.1) &&
            IP(n) == AndBytes(n.ip, CIDRMask(Prefix(n)))
  {
    ParseCIDRSuccess(s);
    var (before, after) := Cut(s, '/').value;
    SizeOfMask(Number(after), 4);
  }

  /** Every 4-byte address and prefix length 0..32, written in CIDR notation,
      makes the network of that prefix around that address. */
  lemma NewNetworkOfCIDR(a: seq<byte>, p: nat)
    requires |a| == 4 && p <= 32
    ensures NewNetwork(FormatBytes(a) + "/" + Digits(p)) ==
            Ok(Network(IPNet(AndBytes(a, CIDRMask(p)), CIDRMask(p)), a))
    ensures Prefix(NewNetwork(FormatBytes(a) + "/" + Digits(p)).value) == p
  {
    ParseCIDRFormat(a, p);
    SizeOfMask(p, 4);
  }
}
