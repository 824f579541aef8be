/**
  The scenarios of the repository's tests, as facts about the model.
*/
module Examples {
  import opened Wrappers
  import opened Bits
  import opened Octets
  import opened Decimal
  import opened Text
  import opened NetAddr
  import opened Network
  import opened Exceptions
  import opened Info
  import opened Containment

  lemma Numerals()
    ensures Digits(0) == "0" && Digits(10) == "10" && Digits(16) == "16"
    ensures Digits(32) == "32" && Digits(255) == "255"
  {
    assert Digits(25) == "25";
  }

  lemma QuadOfNetwork()
    ensures FormatBytes([10, 0, 0, 0]) == "10.0.0.0"
  {
    Numerals();
    assert ByteNumerals([10, 0, 0, 0]) == ["10", "0", "0", "0"];
    assert Join(["0", "0"], '.') == "0.0";
  }

  lemma QuadOfMask16()
    ensures FormatBytes([255, 255, 0, 0]) == "255.255.0.0"
  {
    Numerals();
    assert ByteNumerals([255, 255, 0, 0]) == ["255", "255", "0", "0"];
    assert Join(["0", "0"], '.') == "0.0";
  }

  lemma QuadOfMask32()
    ensures FormatBytes([255, 255, 255, 255]) == "255.255.255.255"
  {
    Numerals();
    assert ByteNumerals([255, 255, 255, 255]) == ["255", "255", "255", "255"];
    assert Join(["255", "255"], '.') == "255.255";
  }

  lemma Masks()
    ensures CIDRMask(16) == [255, 255, 0, 0]
    ensures CIDRMask(32) == [255, 255, 255, 255]
    ensures CIDRMask(31) == [255, 255, 255, 254]
  {
    MaskByteValue(8);
    MaskByteValue(7);
    MaskByteValue(0);
    Pow2Small();
    var m16, m31, m32 := CIDRMask(16), CIDRMask(31), CIDRMask(32);
    assert m31[0] == 255 && m31[1] == 255 && m31[2] == 255 && m31[3] == 254;
    assert m16[0] == 255 && m16[1] == 255 && m16[2] == 0 && m16[3] == 0;
    assert m32[0] == 255 && m32[1] == 255 && m32[2] == 255 && m32[3] == 255;
  }

  lemma Masked()
    ensures AndBytes([10, 0, 0, 0], [255, 255, 0, 0]) == [10, 0, 0, 0]
    ensures AndBytes([10, 0, 0, 0], [255, 255, 255, 255]) == [10, 0, 0, 0]
    ensures OrBytes([10, 0, 0, 0], NotBytes([255, 255, 0, 0])) == [10, 0, 255, 255]
    ensures OrBytes([10, 0, 0, 0], NotBytes([255, 255, 255, 255])) == [10, 0, 0, 0]
    ensures AndBytes([10, 0, 255, 255], [255, 255, 0, 0]) == [10, 0, 0, 0]
  {
    Pow2Small();
    AndOnes(10, 8, 255);
    AndOnes(0, 8, 255);
    AndOnes(255, 8, 255);
    assert And(10, 0) == 0 && And(0, 0) == 0 && And(255, 0) == 0;
    OrLow(0, 8, 255);
    OrLow(10, 0, 0);
    OrLow(0, 0, 0);
  }

  lemma Stepped()
    ensures Incremented([10, 0, 0, 0]) == [10, 0, 0, 1]
    ensures Decremented([10, 0, 255, 255]) == [10, 0, 255, 254]
  {
    var a: seq<byte> := [10, 0, 0, 0];
    var b: seq<byte> := [10, 0, 255, 255];
    assert Init(a) == [10, 0, 0];
    assert Init(b) == [10, 0, 255];
    var a1: seq<byte> := [10, 0, 0] + [1];
    assert a1 == [10, 0, 0, 1];
    var b1: seq<byte> := [10, 0, 255] + [254];
    assert b1 == [10, 0, 255, 254];
  }

  /** The network of `s`, built from address a and prefix p. */
  lemma Built(s: string, a: seq<byte>, p: nat)
    requires |a| == 4 && p <= 32 && s == FormatBytes(a) + "/" + Digits(p)
    ensures NewNetwork(s) == Ok(Network(IPNet(AndBytes(a, CIDRMask(p)), CIDRMask(p)), a))
    ensures Size(CIDRMask(p)) == (p, 32)
  {
    NewNetworkOfCIDR(a, p);
    SizeOfMask(p, 4);
  }

  /** `10.0.0.0/16`: 65536 addresses, 65534 of them hosts, netmask
      255.255.0.0, hosts from 10.0.0.1 to 10.0.255.254. */
  lemma DescribeSlash16()
    ensures NewNetwork("10.0.0.0/16").Ok?
    ensures Described(NewNetwork("10.0.0.0/16").value) ==
            Info([10, 0, 0, 0], 65534, 65536, "255.255.0.0", [10, 0, 0, 1], [10, 0, 255, 254])
  {
    QuadOfNetwork();
    Numerals();
    Built("10.0.0.0/16", [10, 0, 0, 0], 16);
    Masks();
    Masked();
    Described16(NewNetwork("10.0.0.0/16").value);
  }

  lemma Described16(n: Network)
    requires IP(n) == [10, 0, 0, 0] && Mask(n) == [255, 255, 0, 0] && Size(Mask(n)) == (16, 32)
    ensures Described(n) == Info([10, 0, 0, 0], 65534, 65536, "255.255.0.0", [10, 0, 0, 1], [10, 0, 255, 254])
  {
    Masked();
    assert Pow2(16) == 65536 by {
      Pow2Small();
      Pow2Add(8, 8);
    }
    assert !Has31Exception(n) && !Has32Exception(n);
    assert Addresses(n) == (65536, 65534);
    assert Broadcast(n) == [10, 0, 255, 255];
    Stepped();
    QuadOfMask16();
  }

  /** `10.0.0.0/32`: a single address, which is also its own first and last
      host. */
  lemma DescribeSlash32()
    ensures NewNetwork("10.0.0.0/32").Ok?
    ensures Described(NewNetwork("10.0.0.0/32").value) ==
            Info([10, 0, 0, 0], 1, 1, "255.255.255.255", [10, 0, 0, 0], [10, 0, 0, 0])
  {
    QuadOfNetwork();
    Numerals();
    Built("10.0.0.0/32", [10, 0, 0, 0], 32);
    Masks();
    Masked();
    Described32(NewNetwork("10.0.0.0/32").value);
  }

  lemma Described32(n: Network)
    requires IP(n) == [10, 0, 0, 0] && Mask(n) == [255, 255, 255, 255] && Size(Mask(n)) == (32, 32)
    ensures Described(n) == Info([10, 0, 0, 0], 1, 1, "255.255.255.255", [10, 0, 0, 0], [10, 0, 0, 0])
  {
    Masked();
    assert Has32Exception(n) && !Has31Exception(n);
    assert Broadcast(n) == [10, 0, 0, 0];
    QuadOfMask32();
  }

  lemma QuadOfBroadcast16()
    ensures FormatBytes([10, 0, 255, 255]) == "10.0.255.255"
  {
    Numerals();
    assert ByteNumerals([10, 0, 255, 255]) == ["10", "0", "255", "255"];
    assert Join(["255", "255"], '.') == "255.255";
    assert Join(["0", "255", "255"], '.') == "0.255.255";
  }

  lemma QuadOfHost()
    ensures FormatBytes([10, 0, 0, 1]) == "10.0.0.1"
  {
    Numerals();
    assert Digits(1) == "1";
    assert ByteNumerals([10, 0, 0, 1]) == ["10", "0", "0", "1"];
    assert Join(["0", "1"], '.') == "0.1";
  }

  lemma Masked31()
    ensures AndBytes([10, 0, 0, 0], [255, 255, 255, 254]) == [10, 0, 0, 0]
    ensures AndBytes([10, 0, 0, 1], [255, 255, 255, 254]) == [10, 0, 0, 0]
  {
    Pow2Small();
    AndOnes(10, 8, 255);
    AndOnes(0, 8, 255);
    assert And(0, 254) == 0 && And(1, 254) == 0;
  }

  lemma Parsed()
    ensures ParseIP("10.0.0.0") == Ok([10, 0, 0, 0])
    ensures ParseIP("10.0.0.1") == Ok([10, 0, 0, 1])
    ensures ParseIP("10.0.255.255") == Ok([10, 0, 255, 255])
  {
    QuadOfNetwork();
    QuadOfHost();
    QuadOfBroadcast16();
    ParseFormat([10, 0, 0, 0]);
    ParseFormat([10, 0, 0, 1]);
    ParseFormat([10, 0, 255, 255]);
  }

  /** In `10.0.0.0/16`, 10.0.0.0 is the network address and 10.0.255.255
      the broadcast address; CIDR strings are not addresses. */
  lemma ContainsSlash16()
    ensures NewNetwork("10.0.0.0/16").Ok?
    ensures var n := NewNetwork("10.0.0.0/16").value;
            ContainsIP(n, "10.0.0.0") == (true, None) &&
            ContainsIP(n, "10.0.0.0/24") == (false, Some(InvalidAddress)) &&
            ContainsIPAsHostAddress(n, "10.0.0.0") == HostCheck(true, true, false, None) &&
            ContainsIPAsHostAddress(n, "10.0.255.255") == HostCheck(true, false, true, None) &&
            ContainsIPAsHostAddress(n, "10.0.0.0/32") == HostCheck(false, false, false, Some(InvalidAddress))
  {
    QuadOfNetwork();
    Numerals();
    Built("10.0.0.0/16", [10, 0, 0, 0], 16);
    Masks();
    Masked();
    var n := NewNetwork("10.0.0.0/16").value;
    Parsed();
    Host16(n, "10.0.0.0", [10, 0, 0, 0]);
    Host16(n, "10.0.255.255", [10, 0, 255, 255]);
    RejectsCIDRString(n, "10.0.0.0/24");
    RejectsCIDRString(n, "10.0.0.0/32");
  }

  lemma Host16(n: Network, s: string, x: seq<byte>)
    requires IP(n) == [10, 0, 0, 0] && Mask(n) == [255, 255, 0, 0] && Size(Mask(n)) == (16, 32)
    requires ParseIP(s) == Ok(x) && (x == [10, 0, 0, 0] || x == [10, 0, 255, 255])
    ensures ContainsIP(n, s) == (true, None)
    ensures ContainsIPAsHostAddress(n, s) == HostCheck(true, x == [10, 0, 0, 0], x == [10, 0, 255, 255], None)
  {
    Masked();
    assert ParseIPv4(s).Some?;
    assert Broadcast(n) == [10, 0, 255, 255];
  }

  /** In `10.0.0.0/31` both addresses are hosts: neither is reported as only
      the network or only the broadcast address. */
  lemma ContainsSlash31()
    ensures NewNetwork("10.0.0.0/31").Ok?
    ensures var n := NewNetwork("10.0.0.0/31").value;
            ContainsIPAsHostAddress(n, "10.0.0.0") == HostCheck(true, false, false, None) &&
            ContainsIPAsHostAddress(n, "10.0.0.1") == HostCheck(true, false, false, None)
  {
    QuadOfNetwork();
    Numerals();
    assert Digits(31) == "31";
    Built("10.0.0.0/31", [10, 0, 0, 0], 31);
    Masks();
    Masked31();
    var n := NewNetwork("10.0.0.0/31").value;
    Parsed();
    Host31(n, "10.0.0.0", [10, 0, 0, 0]);
    Host31(n, "10.0.0.1", [10, 0, 0, 1]);
  }

  lemma Host31(n: Network, s: string, x: seq<byte>)
    requires IP(n) == [10, 0, 0, 0] && Mask(n) == [255, 255, 255, 254] && Size(Mask(n)) == (31, 32)
    requires ParseIP(s) == Ok(x) && (x == [10, 0, 0, 0] || x == [10, 0, 0, 1])
    ensures ContainsIPAsHostAddress(n, s) == HostCheck(true, false, false, None)
  {
    Masked31();
  }

  lemma QuadOfOutside()
    ensures FormatBytes([10, 1, 0, 0]) == "10.1.0.0"
  {
    Numerals();
    assert Digits(1) == "1";
    assert ByteNumerals([10, 1, 0, 0]) == ["10", "1", "0", "0"];
    assert Join(["0", "0"], '.') == "0.0";
  }

  /** 10.1.0.0 lies above `10.0.0.0/16`. */
  lemma ContainsSlash16Above()
    ensures NewNetwork("10.0.0.0/16").Ok?
    ensures var n := NewNetwork("10.0.0.0/16").value;
            ContainsIPAsHostAddress(n, "10.1.0.0") == HostCheck(false, false, false, None)
  {
    QuadOfNetwork();
    Numerals();
    Built("10.0.0.0/16", [10, 0, 0, 0], 16);
    Masks();
    Masked();
    QuadOfOutside();
    ParseFormat([10, 1, 0, 0]);
    Outside16(NewNetwork("10.0.0.0/16").value, "10.1.0.0");
  }

  lemma Outside16(n: Network, s: string)
    requires IP(n) == [10, 0, 0, 0] && Mask(n) == [255, 255, 0, 0] && Size(Mask(n)) == (16, 32)
    requires ParseIP(s) == Ok([10, 1, 0, 0])
    ensures ContainsIPAsHostAddress(n, s) == HostCheck(false, false, false, None)
  {
    Masked();
    MaskedAbove();
    assert Broadcast(n) == [10, 0, 255, 255];
  }

  lemma MaskedAbove()
    ensures AndBytes([10, 1, 0, 0], [255, 255, 0, 0]) == [10, 1, 0, 0]
  {
    Pow2Small();
    AndOnes(10, 8, 255);
    AndOnes(1, 8, 255);
    assert And(0, 0) == 0;
  }

  /** The single address of `10.0.0.0/32` is a host. */
  lemma ContainsSlash32()
    ensures NewNetwork("10.0.0.0/32").Ok?
    ensures var n := NewNetwork("10.0.0.0/32").value;
            ContainsIPAsHostAddress(n, "10.0.0.0") == HostCheck(true, false, false, None)
  {
    QuadOfNetwork();
    Numerals();
    Built("10.0.0.0/32", [10, 0, 0, 0], 32);
    Masks();
    Masked();
    Parsed();
    Host32(NewNetwork("10.0.0.0/32").value, "10.0.0.0");
  }

  lemma Host32(n: Network, s: string)
    requires IP(n) == [10, 0, 0, 0] && Mask(n) == [255, 255, 255, 255] && Size(Mask(n)) == (32, 32)
    requires ParseIP(s) == Ok([10, 0, 0, 0])
    ensures ContainsIPAsHostAddress(n, s) == HostCheck(true, false, false, None)
  {
    Masked();
  }

  /** A 4-byte address is written as its four numerals joined by dots. */
  lemma FormatQuad(a: seq<byte>)
    requires |a| == 4
    ensures FormatBytes(a) == Digits(a[0]) + "." + (Digits(a[1]) + "." + (Digits(a[2]) + "." + Digits(a[3])))
  {
    var d := ByteNumerals(a);
    assert d[1..][1..] == d[2..] && d[2..][1..] == d[3..];
    assert Join(d[3..], '.') == Digits(a[3]);
    assert Join(d[2..], '.') == Digits(a[2]) + "." + Digits(a[3]);
    assert Join(d[1..], '.') == Digits(a[1]) + "." + (Digits(a[2]) + "." + Digits(a[3]));
  }

  lemma Numerals24()
    ensures Digits(13) == "13" && Digits(14) == "14" && Digits(15) == "15" && Digits(24) == "24"
  {
  }

  lemma QuadOfWritten24()
    ensures FormatBytes([10, 13, 14, 15]) == "10.13.14.15"
  {
    FormatQuad([10, 13, 14, 15]);
    Numerals();
    Numerals24();
  }

  lemma QuadOfOutside24()
    ensures FormatBytes([10, 13, 10, 0]) == "10.13.10.0"
  {
    FormatQuad([10, 13, 10, 0]);
    Numerals();
    Numerals24();
  }

  lemma Mask24()
    ensures CIDRMask(24) == [255, 255, 255, 0]
  {
    MaskByteValue(8);
    MaskByteValue(0);
    Pow2Small();
    var m := CIDRMask(24);
    assert m[0] == 255 && m[1] == 255 && m[2] == 255 && m[3] == 0;
  }

  lemma Masked24()
    ensures AndBytes([10, 13, 14, 15], [255, 255, 255, 0]) == [10, 13, 14, 0]
    ensures AndBytes([10, 13, 10, 0], [255, 255, 255, 0]) == [10, 13, 10, 0]
  {
    Pow2Small();
    AndOnes(10, 8, 255);
    AndOnes(13, 8, 255);
    AndOnes(14, 8, 255);
    assert And(15, 0) == 0 && And(0, 0) == 0;
  }

  /** `10.13.14.15/24`, written with host bits set, is the block
      10.13.14.0/24, which does not hold 10.13.10.0. */
  lemma ContainsSlash24Written()
    ensures NewNetwork("10.13.14.15/24").Ok?
    ensures ContainsIP(NewNetwork("10.13.14.15/24").value, "10.13.10.0") == (false, None)
  {
    QuadOfWritten24();
    QuadOfOutside24();
    Numerals24();
    Built("10.13.14.15/24", [10, 13, 14, 15], 24);
    Mask24();
    Masked24();
    ParseFormat([10, 13, 10, 0]);
    Outside24(NewNetwork("10.13.14.15/24").value, "10.13.10.0");
  }

  lemma Outside24(n: Network, s: string)
    requires IP(n) == [10, 13, 14, 0] && Mask(n) == [255, 255, 255, 0]
    requires ParseIP(s) == Ok([10, 13, 10, 0])
    ensures ContainsIP(n, s) == (false, None)
  {
    Masked24();
    assert AndBytes([10, 13, 10, 0], Mask(n)) != AndBytes(IP(n), Mask(n)) by {
      assert AndBytes(IP(n), Mask(n))[2] == And(14, 255);
      AndOnes(14, 8, 255);
      Pow2Small();
    }
  }

  lemma QuadOfInner16()
    ensures FormatBytes([10, 0, 1, 0]) == "10.0.1.0"
  {
    Numerals();
    assert Digits(1) == "1";
    assert ByteNumerals([10, 0, 1, 0]) == ["10", "0", "1", "0"];
    assert Join(["1", "0"], '.') == "1.0";
    assert Join(["0", "1", "0"], '.') == "0.1.0";
  }

  /** 10.0.1.0 is a host of `10.0.0.0/16`: in range, neither flag. */
  lemma ContainsSlash16Host()
    ensures NewNetwork("10.0.0.0/16").Ok?
    ensures var n := NewNetwork("10.0.0.0/16").value;
            ContainsIPAsHostAddress(n, "10.0.1.0") == HostCheck(true, false, false, None)
  {
    QuadOfNetwork();
    Numerals();
    Built("10.0.0.0/16", [10, 0, 0, 0], 16);
    Masks();
    Masked();
    QuadOfInner16();
    ParseFormat([10, 0, 1, 0]);
    Inner16(NewNetwork("10.0.0.0/16").value, "10.0.1.0");
  }

  lemma Inner16(n: Network, s: string)
    requires IP(n) == [10, 0, 0, 0] && Mask(n) == [255, 255, 0, 0] && Size(Mask(n)) == (16, 32)
    requires ParseIP(s) == Ok([10, 0, 1, 0])
    ensures ContainsIPAsHostAddress(n, s) == HostCheck(true, false, false, None)
  {
    Masked();
    MaskedInner();
    assert Broadcast(n) == [10, 0, 255, 255];
  }

  lemma MaskedInner()
    ensures AndBytes([10, 0, 1, 0], [255, 255, 0, 0]) == [10, 0, 0, 0]
  {
    Pow2Small();
    AndOnes(10, 8, 255);
    AndOnes(0, 8, 255);
    assert And(1, 0) == 0 && And(0, 0) == 0;
  }

  /** 10.0.0.0 lies below `10.1.0.0/16`. */
  lemma ContainsSlash16Below()
    ensures NewNetwork("10.1.0.0/16").Ok?
    ensures var n := NewNetwork("10.1.0.0/16").value;
            ContainsIPAsHostAddress(n, "10.0.0.0") == HostCheck(false, false, false, None)
  {
    QuadOfOutside();
    Numerals();
    Built("10.1.0.0/16", [10, 1, 0, 0], 16);
    Masks();
    MaskedAbove();
    Parsed();
    Below16(NewNetwork("10.1.0.0/16").value, "10.0.0.0");
  }

  lemma Below16(n: Network, s: string)
    requires IP(n) == [10, 1, 0, 0] && Mask(n) == [255, 255, 0, 0] && Size(Mask(n)) == (16, 32)
    requires ParseIP(s) == Ok([10, 0, 0, 0])
    ensures ContainsIPAsHostAddress(n, s) == HostCheck(false, false, false, None)
  {
    Masked();
    MaskedAbove();
    assert Broadcast(n)[1] == 1 by {
      assert Broadcast(n)[1] == Or(1, 0);
    }
  }

  /** Text without a '/' and a prefix above 32 are not CIDR notation. */
  lemma RejectedCIDRs()
    ensures NewNetwork("10.0.0.0") == Err(InvalidCIDR)
    ensures NewNetwork("10.0.0.0/33") == Err(InvalidCIDR)
  {
    assert '/' !in "10.0.0.0";
    assert "10.0.0.0/33" == "10.0.0.0" + ['/'] + "33";
    CutAtFirst("10.0.0.0", "33", '/');
    assert Number("33") == 33;
  }
}
