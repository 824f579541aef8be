/**
  The part of Go's `net` package the calculator relies on, for IPv4 only.

  An address is its four bytes, most significant first; Go's 16-byte form of
  an IPv4 address is identified with its 4-byte form (`To4`).  `ParseIPv4`
  is `net.ParseIP` restricted to dotted quads, `ParseCIDR` is
  `net.ParseCIDR`, `IPNet` is `net.IPNet` and `Contains` is
  `(*IPNet).Contains`.
*/
module NetAddr {
  import opened Wrappers
  import opened Bits
  import opened Octets
  import opened PrefixBlocks
  import opened Decimal
  import opened Text

  /** `net.IPNet`: a network number and a mask. */
  datatype IPNet = IPNet(ip: seq<byte>, mask: seq<byte>)

  /** `net.CIDRMask(p, 32)`, the 4-byte mask of a /p prefix. */
  function CIDRMask(p: nat): (m: seq<byte>)
    requires p <= 32
    ensures |m| == 4
  {
    MaskBytes(p, 4)
  }

  /** A field of a dotted quad: a decimal numeral without leading zeros whose
      value fits in a byte. */
  predicate IsOctet(f: string)
  {
    Canonical(f) && Number(f) <= 255
  }

  function OctetOf(f: string): byte
    requires IsOctet(f)
  {
    Number(f)
  }

  /** `net.ParseIP` on IPv4 text: exactly four octets separated by dots. */
  function ParseIPv4(s: string): (r: Option<seq<byte>>)
    ensures r.Some? ==> |r.value| == 4
  {
    var fields := Split(s, '.');
    if |fields| == 4 && forall i | 0 <= i < 4 :: IsOctet(fields[i]) then
      Some(seq(4, i requires 0 <= i < 4 && IsOctet(fields[i]) => OctetOf(fields[i])))
    else
      None
  }

  /** The decimal numerals of the bytes of a. */
  function ByteNumerals(a: seq<byte>): (r: seq<string>)
    ensures |r| == |a|
  {
    seq(|a|, i requires 0 <= i < |a| => Digits(a[i]))
  }

  /** The bytes of a in decimal, joined by dots: "10.0.255.254". */
  function FormatBytes(a: seq<byte>): string
  {
    Join(ByteNumerals(a), '.')
  }

  /** The prefix length of a CIDR string: one or more decimal digits whose
      value is at most 32 (leading zeros are allowed). */
  function ParsePrefix(t: string): (r: Option<nat>)
    ensures r.Some? ==> r.value <= 32
  {
    if |t| >= 1 && AllDigits(t) && Number(t) <= 32 then Some(Number(t)) else None
  }

  /**
    `net.ParseCIDR`: the address as written and the network it names, whose
    number is the address with its host bits cleared.  The text is cut at its
    first '/'; without one it is not CIDR notation.
  */
  function ParseCIDR(s: string): (r: Option<(seq<byte>, IPNet)>)
    ensures r.Some? ==> |r.value.0| == 4 && |r.value.1.mask| == 4 && |r.value.1.ip| == 4
  {
    match Cut(s, '/')
    case None => None
    case Some((addr, prefix)) =>
      match (ParseIPv4(addr), ParsePrefix(prefix))
      case (Some(ip), Some(p)) => Some((ip, IPNet(AndBytes(ip, CIDRMask(p)), CIDRMask(p))))
      case _ => None
  }

  /** `(*IPNet).Contains`: x agrees with the network number under the mask.
      The lengths must match, as the bytewise comparison requires. */
  function Contains(n: IPNet, x: seq<byte>): (r: bool)
    ensures r ==> |x| == |n.ip| == |n.mask| == 4
  {
    |n.ip| == 4 && |n.mask| == 4 && |x| == 4 && AndBytes(x, n.mask) == AndBytes(n.ip, n.mask)
  }

  /** Decimal numerals hold neither dots nor slashes. */
  lemma DigitsHoldNoSeparator(s: string)
    requires AllDigits(s)
    ensures '.' !in s && '/' !in s
  {
  }

  /** Every character of a formatted address is a digit or a dot. */
  lemma {:induction false} FormatHoldsNoSlash(parts: seq<string>)
    requires forall i | 0 <= i < |parts| :: AllDigits(parts[i])
    ensures '/' !in Join(parts, '.')
  {
    if |parts| == 1 {
      DigitsHoldNoSeparator(parts[0]);
    } else if |parts| > 1 {
      DigitsHoldNoSeparator(parts[0]);
      FormatHoldsNoSlash(parts[1..]);
    }
  }

  /** Parsing a formatted 4-byte address gives it back. */
  lemma ParseFormat(a: seq<byte>)
    requires |a| == 4
    ensures ParseIPv4(FormatBytes(a)) == Some(a)
  {
    var parts := ByteNumerals(a);
    forall i | 0 <= i < |parts|
      ensures '.' !in parts[i] && IsOctet(parts[i]) && OctetOf(parts[i]) == a[i]
    {
      DigitsHoldNoSeparator(parts[i]);
      NumberOfDigits(a[i]);
    }
    SplitJoin(parts, '.');
    assert ParseIPv4(FormatBytes(a)).value == a;
  }

  /** A parsed address is written in its canonical form. */
  lemma FormatParse(s: string)
    requires ParseIPv4(s).Some?
    ensures FormatBytes(ParseIPv4(s).value) == s
  {
    var fields := Split(s, '.');
    var a := ParseIPv4(s).value;
    forall i | 0 <= i < 4
      ensures Digits(a[i]) == fields[i]
    {
      DigitsOfNumber(fields[i]);
    }
    assert ByteNumerals(a) == fields;
    JoinSplit(s, '.');
  }

  /** Text holding a '/' is not an address, so a CIDR string is rejected. */
  lemma SlashIsNoAddress(s: string)
    requires '/' in s
    ensures ParseIPv4(s).None?
  {
    if ParseIPv4(s).Some? {
      var a := ParseIPv4(s).value;
      FormatParse(s);
      forall i | 0 <= i < |ByteNumerals(a)|
        ensures AllDigits(ByteNumerals(a)[i])
      {
      }
      FormatHoldsNoSlash(ByteNumerals(a));
    }
  }

  /** A CIDR string built from a 4-byte address and a prefix length parses
      back to that address and the network of the prefix. */
  lemma ParseCIDRFormat(a: seq<byte>, p: nat)
    requires |a| == 4 && p <= 32
    ensures ParseCIDR(FormatBytes(a) + "/" + Digits(p)) ==
            Some((a, IPNet(AndBytes(a, CIDRMask(p)), CIDRMask(p))))
  {
    var s := FormatBytes(a) + "/" + Digits(p);
    FormatHoldsSlashFree(a);
    CutAtFirst(FormatBytes(a), Digits(p), '/');
    ParseFormat(a);
    NumberOfDigits(p);
  }

  lemma FormatHoldsSlashFree(a: seq<byte>)
    ensures '/' !in FormatBytes(a)
  {
    var parts := ByteNumerals(a);
    forall i | 0 <= i < |parts|
      ensures AllDigits(parts[i])
    {
    }
    FormatHoldsNoSlash(parts);
  }

  /** What a successful parse says about the text: the address as written is
      the dotted quad before the first '/', the prefix length the numeral
      after it, and the network is the address with its host bits cleared
      under the canonical mask of that length. */
  lemma ParseCIDRSuccess(s: string)
    requires ParseCIDR(s).Some?
    ensures Cut(s, '/').Some?
    ensures var (ip, n) := ParseCIDR(s).value;
            var (before, after) := Cut(s, '/').value;
            FormatBytes(ip) == before && AllDigits(after) && |after| >= 1 &&
            Number(after) <= 32 && n.mask == CIDRMask(Number(after)) &&
            n.ip == AndBytes(ip, n.mask)
  {
    FormatParse(Cut(s, '/').value.0);
  }
}
