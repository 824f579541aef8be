/**
  Byte strings and the unsigned numbers they spell.

  A Go `net.IP` or `net.IPMask` is a byte slice; here it is a sequence of
  `byte`, most significant byte first.  `Value` is the unsigned integer such a
  sequence denotes, so that the bytewise loops of the calculator can be
  related to 32-bit arithmetic on the whole address.  The masks that
  `net.CIDRMask` builds are defined here too, together with their value and
  the leading-ones count `IPMask.Size` reports for them.
*/
module Octets {
  import opened Bits
  import opened Wrappers

  type byte = x: int | 0 <= x < 256

  /** The unsigned number a big-endian byte string denotes. */
  function Value(a: seq<byte>): nat
  {
    if |a| == 0 then 0 else Value(a[..|a| - 1]) * 256 + a[|a| - 1]
  }

  /** The bytes of a byte string but its last. */
  function Init(a: seq<byte>): seq<byte>
    requires |a| > 0
  {
    a[..|a| - 1]
  }

  lemma {:induction false} ValueBound(a: seq<byte>)
    ensures Value(a) < Pow2(8 * |a|)
  {
    if |a| > 0 {
      ValueBound(Init(a));
      Pow2Byte();
      Pow2Add(8 * (|a| - 1), 8);
    }
  }

  /** Splitting a value at its last byte: the quotient by 2^8 is the value of
      the other bytes and the remainder is the last byte. */
  lemma LastByte(a: seq<byte>)
    requires |a| > 0
    ensures ShiftRight(Value(a), 8) == Value(Init(a))
    ensures Low(Value(a), 8) == a[|a| - 1]
  {
    ByteBoundary(Value(a));
    DivModUnique(Value(a), 256, Value(Init(a)), a[|a| - 1]);
  }

  /** Byte strings of one length with the same value are equal. */
  lemma {:induction false} ValueInjective(a: seq<byte>, b: seq<byte>)
    requires |a| == |b| && Value(a) == Value(b)
    ensures a == b
  {
    if |a| > 0 {
      LastByte(a);
      LastByte(b);
      ValueInjective(Init(a), Init(b));
      assert a == Init(a) + [a[|a| - 1]];
      assert b == Init(b) + [b[|b| - 1]];
    }
  }

  /** `b[len(b)-1]++` on a Go byte slice: the last byte goes up by one,
      wrapping from 255 to 0. */
  function Incremented(a: seq<byte>): (r: seq<byte>)
    requires |a| > 0
    ensures |r| == |a| && r[..|a| - 1] == a[..|a| - 1]
  {
    Init(a) + [(a[|a| - 1] as int + 1) % 256]
  }

  /** `b[len(b)-1]--` on a Go byte slice: the last byte goes down by one,
      wrapping from 0 to 255. */
  function Decremented(a: seq<byte>): (r: seq<byte>)
    requires |a| > 0
    ensures |r| == |a| && r[..|a| - 1] == a[..|a| - 1]
  {
    Init(a) + [(a[|a| - 1] as int + 255) % 256]
  }

  /** Replacing the last byte moves the value by the difference of the two
      bytes; no other byte is touched, so nothing carries. */
  lemma ReplaceLast(a: seq<byte>, b: byte)
    requires |a| > 0
    ensures Value(Init(a) + [b]) == Value(a) - a[|a| - 1] + b
  {
    assert Init(Init(a) + [b]) == Init(a);
  }

  /** The last byte has the parity of the value. */
  lemma LastByteParity(a: seq<byte>)
    requires |a| > 0
    ensures a[|a| - 1] % 2 == Value(a) % 2
  {
    LastByte(a);
    LowStep(Value(a), 8);
  }

  function AndByte(x: byte, y: byte): (r: byte)
  {
    And(x, y)
  }

  function OrByte(x: byte, y: byte): (r: byte)
  {
    Pow2Byte();
    OrBelow(x, y, 8);
    Or(x, y)
  }

  /** Go's `^b` on a byte. */
  function NotByte(x: byte): (r: byte)
  {
    255 - x
  }

  /** Bytewise AND of two byte strings of one length. */
  function AndBytes(a: seq<byte>, b: seq<byte>): (r: seq<byte>)
    requires |a| == |b|
    ensures |r| == |a| && forall i | 0 <= i < |a| :: r[i] == And(a[i], b[i])
  {
    seq(|a|, i requires 0 <= i < |a| => AndByte(a[i], b[i]))
  }

  /** Bytewise OR of two byte strings of one length. */
  function OrBytes(a: seq<byte>, b: seq<byte>): (r: seq<byte>)
    requires |a| == |b|
    ensures |r| == |a| && forall i | 0 <= i < |a| :: r[i] == Or(a[i], b[i])
  {
    seq(|a|, i requires 0 <= i < |a| => OrByte(a[i], b[i]))
  }

  /** Bytewise complement of a byte string. */
  function NotBytes(a: seq<byte>): (r: seq<byte>)
    ensures |r| == |a| && forall i | 0 <= i < |a| :: r[i] == 255 - a[i]
  {
    seq(|a|, i requires 0 <= i < |a| => NotByte(a[i]))
  }

  /** The bytewise AND is the AND of the values. */
  lemma {:induction false} AndBytesValue(a: seq<byte>, b: seq<byte>)
    requires |a| == |b|
    ensures Value(AndBytes(a, b)) == And(Value(a), Value(b))
  {
    if |a| > 0 {
      var r := AndBytes(a, b);
      assert Init(r) == AndBytes(Init(a), Init(b));
      AndBytesValue(Init(a), Init(b));
      LastByte(a);
      LastByte(b);
      ShiftRightAnd(Value(a), Value(b), 8);
      LowAnd(Value(a), Value(b), 8);
      ByteBoundary(And(Value(a), Value(b)));
    }
  }

  /** The bytewise OR is the OR of the values. */
  lemma {:induction false} OrBytesValue(a: seq<byte>, b: seq<byte>)
    requires |a| == |b|
    ensures Value(OrBytes(a, b)) == Or(Value(a), Value(b))
  {
    if |a| > 0 {
      var r := OrBytes(a, b);
      assert Init(r) == OrBytes(Init(a), Init(b));
      OrBytesValue(Init(a), Init(b));
      LastByte(a);
      LastByte(b);
      ShiftRightOr(Value(a), Value(b), 8);
      LowOr(Value(a), Value(b), 8);
      ByteBoundary(Or(Value(a), Value(b)));
    }
  }

  /** The bytewise complement is the complement of the value in 8|a| bits. */
  lemma {:induction false} NotBytesValue(a: seq<byte>)
    ensures Value(NotBytes(a)) == Pow2(8 * |a|) - 1 - Value(a)
  {
    if |a| > 0 {
      assert Init(NotBytes(a)) == NotBytes(Init(a));
      NotBytesValue(Init(a));
      Pow2Byte();
      Pow2Add(8 * (|a| - 1), 8);
    }
  }

  /** A byte string ORed with its complement is all ones, and ANDed with it
      is all zeros. */
  lemma ComplementBytes(a: seq<byte>)
    ensures OrBytes(a, NotBytes(a)) == seq(|a|, i => 255)
    ensures AndBytes(a, NotBytes(a)) == seq(|a|, i => 0)
  {
    Pow2Byte();
    forall i | 0 <= i < |a|
      ensures Or(a[i], 255 - a[i]) == 255 && And(a[i], 255 - a[i]) == 0
    {
      Complement(a[i], 8, 255 - a[i]);
    }
  }

  /** The byte with k leading one bits, Go's `^byte(0xff >> k)`. */
  function MaskByte(k: nat): (r: byte)
    requires k <= 8
  {
    255 - ShiftRight(255, k)
  }

  lemma MaskByteValue(k: nat)
    requires k <= 8
    ensures MaskByte(k) == Pow2(8) - Pow2(8 - k)
  {
    Pow2Small();
    assert ShiftRight(255, 8) == 0 by {
      assert ShiftRight(255, 8) == ShiftRight(1, 1);
    }
  }

  /** How many of the first `ones` bits of a mask fall into its byte i. */
  function BitsInByte(ones: nat, i: nat): (k: nat)
    ensures k <= 8
  {
    if ones >= 8 * i + 8 then 8 else if ones <= 8 * i then 0 else ones - 8 * i
  }

  /** The mask of `len` bytes whose first `ones` bits are set, as
      `net.CIDRMask(ones, 8 * len)` builds it byte by byte. */
  function MaskBytes(ones: nat, len: nat): (m: seq<byte>)
    ensures |m| == len
  {
    seq(len, i requires 0 <= i < len => MaskByte(BitsInByte(ones, i)))
  }

  /** A mask of len bytes is the mask of its first len - 1 bytes followed by
      its last byte. */
  lemma MaskBytesLast(ones: nat, len: nat)
    requires len > 0
    ensures Value(MaskBytes(ones, len)) ==
      Value(MaskBytes(if ones <= 8 * (len - 1) then ones else 8 * (len - 1), len - 1)) * 256
      + MaskByte(BitsInByte(ones, len - 1))
  {
    var o := if ones <= 8 * (len - 1) then ones else 8 * (len - 1);
    forall i | 0 <= i < len - 1 ensures BitsInByte(ones, i) == BitsInByte(o, i) {
    }
    assert Init(MaskBytes(ones, len)) == MaskBytes(o, len - 1);
  }

  /** The mask with `ones` leading ones in 8|m| bits spells
      2^(8|m|) - 2^(8|m| - ones). */
  lemma {:induction false} MaskBytesValue(ones: nat, len: nat)
    requires ones <= 8 * len
    ensures Pow2(8 * len - ones) <= Pow2(8 * len)
    ensures Value(MaskBytes(ones, len)) == Pow2(8 * len) - Pow2(8 * len - ones)
  {
    if len > 0 {
      if ones <= 8 * (len - 1) {
        MaskBytesValue(ones, len - 1);
        MaskValueLastZero(ones, len);
      } else {
        MaskBytesValue(8 * (len - 1), len - 1);
        MaskValueLastPartial(ones, len);
      }
    }
  }

  /** The step of MaskBytesValue when the last byte holds no one bits. */
  lemma MaskValueLastZero(ones: nat, len: nat)
    requires 0 < len && ones <= 8 * (len - 1)
    requires Value(MaskBytes(ones, len - 1)) == Pow2(8 * (len - 1)) - Pow2(8 * (len - 1) - ones)
    ensures Pow2(8 * len - ones) <= Pow2(8 * len)
    ensures Value(MaskBytes(ones, len)) == Pow2(8 * len) - Pow2(8 * len - ones)
  {
    MaskBytesLast(ones, len);
    assert MaskByte(0) == 0;
    Pow2Plus8(8 * (len - 1), 8 * len);
    Pow2Plus8(8 * (len - 1) - ones, 8 * len - ones);
    ShiftedDifference(Value(MaskBytes(ones, len - 1)), Value(MaskBytes(ones, len)),
      Pow2(8 * (len - 1)), Pow2(8 * (len - 1) - ones), Pow2(8 * len), Pow2(8 * len - ones));
  }

  /** One more byte multiplies the range by 256. */
  lemma Pow2Plus8(k: nat, j: nat)
    requires j == k + 8
    ensures Pow2(j) == 256 * Pow2(k)
  {
    Pow2Add(k, 8);
    Pow2Byte();
  }

  /** A difference shifted up by one byte. */
  lemma ShiftedDifference(v: int, w: int, a: int, c: int, a8: int, c8: int)
    requires v == a - c && w == v * 256 && a8 == 256 * a && c8 == 256 * c
    ensures w == a8 - c8
  {
  }

  /** The step of MaskBytesValue when the last byte holds the last one bits. */
  lemma MaskValueLastPartial(ones: nat, len: nat)
    requires 0 < len && 8 * (len - 1) < ones <= 8 * len
    requires Value(MaskBytes(8 * (len - 1), len - 1)) == Pow2(8 * (len - 1)) - 1
    ensures Pow2(8 * len - ones) <= Pow2(8 * len)
    ensures Value(MaskBytes(ones, len)) == Pow2(8 * len) - Pow2(8 * len - ones)
  {
    MaskBytesLast(ones, len);
    MaskByteValue(ones - 8 * (len - 1));
    Pow2Plus8(8 * (len - 1), 8 * len);
    Pow2Monotonic(8 * len - ones, 8);
    ShiftedDifference(Value(MaskBytes(8 * (len - 1), len - 1)), Value(MaskBytes(ones, len)) - MaskByte(BitsInByte(ones, len - 1)),
      Pow2(8 * (len - 1)), 1, Pow2(8 * len), 256);
  }

  /** Masks of one length with different leading-ones counts differ. */
  lemma MaskBytesInjective(p: nat, q: nat, len: nat)
    requires p <= 8 * len && q <= 8 * len
    requires MaskBytes(p, len) == MaskBytes(q, len)
    ensures p == q
  {
    MaskBytesValue(p, len);
    MaskBytesValue(q, len);
    if p < q {
      Pow2Monotonic(8 * len - q, 8 * len - p);
    } else if q < p {
      Pow2Monotonic(8 * len - p, 8 * len - q);
    }
  }

  /** The first leading-ones count from `from` on whose mask is m. */
  function FindOnes(m: seq<byte>, from: nat): (r: Option<nat>)
    decreases 8 * |m| + 1 - from
    ensures r.Some? ==> from <= r.value <= 8 * |m| && m == MaskBytes(r.value, |m|)
  {
    if from > 8 * |m| then None
    else if m == MaskBytes(from, |m|) then Some(from)
    else FindOnes(m, from + 1)
  }

  lemma {:induction false} FindOnesOfMask(p: nat, len: nat, from: nat)
    requires from <= p <= 8 * len
    decreases p - from
    ensures FindOnes(MaskBytes(p, len), from) == Some(p)
  {
    var m := MaskBytes(p, len);
    if m == MaskBytes(from, len) {
      MaskBytesInjective(p, from, len);
    } else {
      FindOnesOfMask(p, len, from + 1);
    }
  }

  lemma {:induction false} FindOnesNone(m: seq<byte>, from: nat)
    requires FindOnes(m, from).None?
    decreases 8 * |m| + 1 - from
    ensures forall p: nat | from <= p <= 8 * |m| :: m != MaskBytes(p, |m|)
  {
    if from <= 8 * |m| {
      FindOnesNone(m, from + 1);
    }
  }

  /**
    `IPMask.Size`: the number of leading ones and the length in bits of a
    mask in canonical form (ones followed by zeros), and (0, 0) for any other
    mask.
  */
  function Size(m: seq<byte>): (r: (nat, nat))
    ensures r.0 <= r.1
  {
    match FindOnes(m, 0)
    case Some(ones) => (ones, 8 * |m|)
    case None => (0, 0)
  }

  /** Size recovers the leading-ones count of a canonical mask. */
  lemma SizeOfMask(ones: nat, len: nat)
    requires ones <= 8 * len
    ensures Size(MaskBytes(ones, len)) == (ones, 8 * len)
  {
    FindOnesOfMask(ones, len, 0);
  }

  /** A nonempty mask Size reports with its full length in bits is the
      canonical mask of the count it reports; any other nonempty mask is
      reported as (0, 0). */
  lemma SizeCanonical(m: seq<byte>)
    requires |m| > 0
    ensures Size(m).1 == 8 * |m| <==> m == MaskBytes(Size(m).0, |m|)
    ensures Size(m).1 != 8 * |m| ==> Size(m) == (0, 0) && forall p: nat | p <= 8 * |m| :: m != MaskBytes(p, |m|)
  {
    if FindOnes(m, 0).None? {
      FindOnesNone(m, 0);
    }
  }
}
