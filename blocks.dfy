/**
  The address block of a prefix (section 3.1 of RFC 4632).

  A /p prefix of an address of n bits keeps its first p bits and frees the
  other n - p, its host part.  The /p mask spells 2^n - 2^(n-p); ANDing an
  address with it clears the host part, and ORing an address with the
  complement of the mask sets the host part.  From these facts the lemmas
  here derive that the addresses that agree with a network address under its
  mask form the interval from the network address to its broadcast address,
  whose host part is all ones.  The lemmas are stated for byte strings of any
  length; IPv4 is the instance of length 4.
*/
module PrefixBlocks {
  import opened Bits
  import opened Octets

  /** The mask of a /p prefix as long as x, `net.CIDRMask(p, 8 * |x|)`. */
  function PrefixMask(x: seq<byte>, p: nat): (m: seq<byte>)
    requires p <= 8 * |x|
    ensures |m| == |x|
  {
    MaskBytes(p, |x|)
  }

  /** An address whose host part under the /p mask is all zeros. */
  predicate HostBitsClear(x: seq<byte>, p: nat)
    requires p <= 8 * |x|
  {
    AndBytes(x, PrefixMask(x, p)) == x
  }

  /** The directed broadcast address of the block of x: x with its host
      part set to all ones (section 3.2.1.3 of RFC 1122). */
  function BroadcastOf(x: seq<byte>, p: nat): (r: seq<byte>)
    requires p <= 8 * |x|
    ensures |r| == |x|
  {
    OrBytes(x, NotBytes(PrefixMask(x, p)))
  }

  /** The /p mask of n bits spells 2^n - 2^(n-p). */
  lemma MaskValue(x: seq<byte>, p: nat)
    requires p <= 8 * |x|
    ensures Value(PrefixMask(x, p)) + Pow2(8 * |x| - p) == Pow2(8 * |x|)
  {
    MaskBytesValue(p, |x|);
  }

  /** ANDing with a mask m = 2^(8|x|) - 2^h clears the h low bits of the
      value. */
  lemma AndHighMask(x: seq<byte>, m: seq<byte>, h: nat)
    requires |x| == |m| && h <= 8 * |x| && Value(m) + Pow2(h) == Pow2(8 * |x|)
    ensures Value(AndBytes(x, m)) == Value(x) - Low(Value(x), h)
  {
    AndBytesValue(x, m);
    ValueBound(x);
    AndHigh(Value(x), 8 * |x|, h, Value(m));
  }

  /** ORing with c = 2^h - 1 sets the h low bits of the value. */
  lemma OrLowOnes(x: seq<byte>, c: seq<byte>, h: nat)
    requires |x| == |c| && Value(c) + 1 == Pow2(h)
    ensures Value(OrBytes(x, c)) == Value(x) - Low(Value(x), h) + Value(c)
  {
    OrBytesValue(x, c);
    OrLow(Value(x), h, Value(c));
  }

  /** ANDing with the /p mask clears the host part of the value. */
  lemma MaskedValue(x: seq<byte>, p: nat)
    requires p <= 8 * |x|
    ensures Value(AndBytes(x, PrefixMask(x, p))) == Value(x) - Low(Value(x), 8 * |x| - p)
  {
    MaskValue(x, p);
    AndHighMask(x, PrefixMask(x, p), 8 * |x| - p);
  }

  /** ORing with the complement of the /p mask sets the host part. */
  lemma BroadcastValue(x: seq<byte>, p: nat)
    requires p <= 8 * |x|
    ensures Value(BroadcastOf(x, p)) == Value(x) - Low(Value(x), 8 * |x| - p) + Pow2(8 * |x| - p) - 1
  {
    var m := PrefixMask(x, p);
    MaskValue(x, p);
    NotBytesValue(m);
    OrLowOnes(x, NotBytes(m), 8 * |x| - p);
  }

  /** The host part is clear exactly when the low bits of the value below
      the prefix are zero. */
  lemma HostBitsClearValue(x: seq<byte>, p: nat)
    requires p <= 8 * |x|
    ensures HostBitsClear(x, p) <==> Low(Value(x), 8 * |x| - p) == 0
  {
    MaskedValue(x, p);
    if Low(Value(x), 8 * |x| - p) == 0 {
      ValueInjective(AndBytes(x, PrefixMask(x, p)), x);
    }
  }

  /** Masking clears the host part, so masking twice is masking once. */
  lemma MaskedIsClear(x: seq<byte>, p: nat)
    requires p <= 8 * |x|
    ensures HostBitsClear(AndBytes(x, PrefixMask(x, p)), p)
  {
    MaskedValue(x, p);
    RoundedDownIsClear(AndBytes(x, PrefixMask(x, p)), x, p);
  }

  /** A value rounded down to a multiple of the block size has a clear host
      part. */
  lemma RoundedDownIsClear(n: seq<byte>, x: seq<byte>, p: nat)
    requires |n| == |x| && p <= 8 * |x| && Value(n) == Value(x) - Low(Value(x), 8 * |x| - p)
    ensures HostBitsClear(n, p)
  {
    var h := 8 * |n| - p;
    assert h == 8 * |x| - p;
    assert Value(n) == Value(x) - Low(Value(x), h);
    LowOfRoundedDown(Value(x), h);
    assert Low(Value(n), h) == 0;
    MaskValue(n, p);
    ClearUnderHighMask(n, PrefixMask(n, p), h);
  }

  /** A value whose h low bits are clear is kept by the mask 2^(8|n|) - 2^h. */
  lemma ClearUnderHighMask(n: seq<byte>, m: seq<byte>, h: nat)
    requires |n| == |m| && h <= 8 * |n| && Value(m) + Pow2(h) == Pow2(8 * |n|)
    requires Low(Value(n), h) == 0
    ensures AndBytes(n, m) == n
  {
    AndHighMask(n, m, h);
    ValueInjective(AndBytes(n, m), n);
  }

  /** The broadcast address of a block whose host part is clear lies
      2^(n-p) - 1 above the network address. */
  lemma BroadcastOfClear(net: seq<byte>, p: nat)
    requires p <= 8 * |net| && HostBitsClear(net, p)
    ensures Value(BroadcastOf(net, p)) == Value(net) + Pow2(8 * |net| - p) - 1
  {
    HostBitsClearValue(net, p);
    BroadcastValue(net, p);
  }

  /** Both facts at once for a clear network address and its broadcast
      address b. */
  lemma ClearBlockValues(x: seq<byte>, b: seq<byte>, p: nat)
    requires p <= 8 * |x| && HostBitsClear(x, p) && b == BroadcastOf(x, p)
    ensures Low(Value(x), 8 * |x| - p) == 0
    ensures Value(b) == Value(x) + Pow2(8 * |x| - p) - 1
  {
    HostBitsClearValue(x, p);
    BroadcastOfClear(x, p);
  }

  /**
    The block of a prefix is an interval.  For a network address whose host
    part is clear, the addresses of its length that agree with it under the
    /p mask are exactly those from the network address to its broadcast
    address.
  */
  lemma BlockIsInterval(x: seq<byte>, net: seq<byte>, p: nat)
    requires |x| == |net| && p <= 8 * |net| && HostBitsClear(net, p)
    ensures Value(BroadcastOf(net, p)) == Value(net) + Pow2(8 * |net| - p) - 1
    ensures AndBytes(x, PrefixMask(net, p)) == AndBytes(net, PrefixMask(net, p)) <==>
            Value(net) <= Value(x) <= Value(BroadcastOf(net, p))
  {
    BroadcastOfClear(net, p);
    AgreeUnderPrefix(x, net, p);
  }

  /** The addresses that agree with a clear network address under the /p
      mask are those from it up to 2^(8|net|-p) above it. */
  lemma AgreeUnderPrefix(x: seq<byte>, net: seq<byte>, p: nat)
    requires |x| == |net| && p <= 8 * |net| && HostBitsClear(net, p)
    ensures AndBytes(x, PrefixMask(net, p)) == AndBytes(net, PrefixMask(net, p)) <==>
            Value(net) <= Value(x) < Value(net) + Pow2(8 * |net| - p)
  {
    MaskValue(net, p);
    AgreeUnderHighMask(x, net, PrefixMask(net, p), 8 * |net| - p);
  }

  /** For a mask m = 2^(8|x|) - 2^h and a network address net the mask
      keeps, the addresses that agree with net under m are those from net up
      to net + 2^h - 1. */
  lemma AgreeUnderHighMask(x: seq<byte>, net: seq<byte>, m: seq<byte>, h: nat)
    requires |x| == |m| == |net| && h <= 8 * |net| && Value(m) + Pow2(h) == Pow2(8 * |net|)
    requires AndBytes(net, m) == net
    ensures AndBytes(x, m) == AndBytes(net, m) <==> Value(net) <= Value(x) < Value(net) + Pow2(h)
  {
    AndHighMask(net, m, h);
    AndHighMask(x, m, h);
    if Value(net) <= Value(x) < Value(net) + Pow2(h) {
      LowInBlock(Value(x), Value(net), h);
      ValueInjective(AndBytes(x, m), net);
    }
  }

  /** A longer prefix's mask has every bit of a shorter one. */
  lemma MaskNesting(x: seq<byte>, p: nat, q: nat)
    requires p <= q <= 8 * |x|
    ensures And(Value(PrefixMask(x, q)), Value(PrefixMask(x, p))) == Value(PrefixMask(x, p))
  {
    MaskValue(x, p);
    MaskValue(x, q);
    HighMasksNest(8 * |x|, 8 * |x| - p, 8 * |x| - q, Value(PrefixMask(x, q)), Value(PrefixMask(x, p)));
  }

  /** Masking with a longer prefix and then a shorter one is masking with the
      shorter one. */
  lemma MaskThenShorter(x: seq<byte>, p: nat, q: nat)
    requires p <= q <= 8 * |x|
    ensures AndBytes(AndBytes(x, PrefixMask(x, q)), PrefixMask(x, p)) == AndBytes(x, PrefixMask(x, p))
  {
    var mp, mq := PrefixMask(x, p), PrefixMask(x, q);
    AndBytesValue(x, mq);
    AndBytesValue(AndBytes(x, mq), mp);
    AndBytesValue(x, mp);
    MaskNesting(x, p, q);
    AndAssoc(Value(x), Value(mq), Value(mp));
    ValueInjective(AndBytes(AndBytes(x, mq), mp), AndBytes(x, mp));
  }

  /** Addresses that agree under a longer prefix agree under a shorter
      one. */
  lemma NestedBlocks(x: seq<byte>, y: seq<byte>, p: nat, q: nat)
    requires |x| == |y| && p <= q <= 8 * |x|
    requires AndBytes(x, PrefixMask(x, q)) == AndBytes(y, PrefixMask(x, q))
    ensures AndBytes(x, PrefixMask(x, p)) == AndBytes(y, PrefixMask(x, p))
  {
    MaskThenShorter(x, p, q);
    MaskThenShorter(y, p, q);
  }

  /** A block of 2^(w-q) addresses does not fit inside one of 2^(w-p)
      addresses when q < p: it would end past the smaller block's end. */
  lemma WiderBlockOverhangs(net: seq<byte>, bn: seq<byte>, sub: seq<byte>, bs: seq<byte>,
                            wn: nat, ws: nat, p: nat, q: nat)
    requires wn == ws && q < p <= wn
    requires Value(bn) == Value(net) + Pow2(wn - p) - 1
    requires Value(bs) == Value(sub) + Pow2(ws - q) - 1
    ensures !(Value(net) <= Value(sub) && Value(bs) <= Value(bn))
  {
    Pow2Monotonic(wn - p, ws - q);
  }

  /** A block of at least two addresses starts at an even address, so its
      last byte is below 255 and incrementing that byte adds one to the
      value. */
  lemma IncrementInBlock(x: seq<byte>, h: nat)
    requires |x| > 0 && 1 <= h && Low(Value(x), h) == 0
    ensures Value(Incremented(x)) == Value(x) + 1
  {
    var last := x[|x| - 1];
    LowStep(Value(x), h);
    LastByteParity(x);
    assert last < 255;
    var u: byte := last + 1;
    DivModUnique(last as int + 1, 256, 0, u);
    assert Incremented(x) == Init(x) + [u];
    ReplaceLast(x, u);
  }

  /** A block of at least two addresses ends at an odd address, so its last
      byte is above 0 and decrementing that byte subtracts one from the
      value. */
  lemma DecrementInBlock(b: seq<byte>, v: nat, h: nat)
    requires |b| > 0 && 1 <= h && Low(v, h) == 0 && Value(b) == v + Pow2(h) - 1
    ensures Value(Decremented(b)) == Value(b) - 1
  {
    var last := b[|b| - 1];
    LastOfBlockIsOdd(b, v, h);
    assert 0 < last;
    var d: byte := last - 1;
    DivModUnique(last as int + 255, 256, 1, d);
    assert Decremented(b) == Init(b) + [d];
    ReplaceLast(b, d);
  }

  /** The last address of a block of at least two addresses is odd. */
  lemma LastOfBlockIsOdd(b: seq<byte>, v: nat, h: nat)
    requires |b| > 0 && 1 <= h && Low(v, h) == 0 && Value(b) == v + Pow2(h) - 1
    ensures b[|b| - 1] % 2 == 1
  {
    LowStep(v, h);
    var k := Pow2(h - 1);
    assert Pow2(h) == 2 * k;
    assert Value(b) == 2 * (v / 2 + k - 1) + 1;
    LastByteParity(b);
  }
}
