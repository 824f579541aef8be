/**
  The two prefix lengths whose blocks have no network or broadcast address
  of their own: /31, the point-to-point links of RFC 3021, and /32, a single
  host.  Both tests read only the mask.
*/
module Exceptions {
  import opened Octets
  import opened NetAddr
  import opened Network

  /** `has31Exception`: a 32-bit mask with 31 leading ones. */
  predicate Has31Exception(n: Network)
  {
    var (ones, bits) := Size(Mask(n));
    bits == 32 && ones == 31
  }

  /** `has32Exception`: a 32-bit mask with 32 leading ones. */
  predicate Has32Exception(n: Network)
  {
    var (ones, bits) := Size(Mask(n));
    bits == 32 && ones == 32
  }

  /** The /31 exception holds exactly for the canonical /31 mask. */
  lemma Has31OfMask(n: Network)
    requires |Mask(n)| == 4
    ensures Has31Exception(n) <==> Mask(n) == CIDRMask(31)
  {
    SizeCanonical(Mask(n));
    SizeOfMask(31, 4);
  }

  /** The /32 exception holds exactly for the all-ones mask. */
  lemma Has32OfMask(n: Network)
    requires |Mask(n)| == 4
    ensures Has32Exception(n) <==> Mask(n) == CIDRMask(32)
  {
    SizeCanonical(Mask(n));
    SizeOfMask(32, 4);
  }

  /** On a constructed network the exceptions are the prefix lengths 31 and
      32, so they never hold together and neither holds up to /30. */
  lemma ExceptionsOfPrefix(n: Network)
    requires Valid(n)
    ensures Has31Exception(n) <==> Prefix(n) == 31
    ensures Has32Exception(n) <==> Prefix(n) == 32
    ensures !(Has31Exception(n) && Has32Exception(n))
    ensures Prefix(n) <= 30 ==> !Has31Exception(n) && !Has32Exception(n)
  {
  }
}
