// The RSA key object of the crypto library, reduced to its three big-number
// fields, and the RSA_set0_key fallback of libcrypto_utils/android_pubkey.c.
module Rsa {
  import opened Wrappers
  import opened BigNum

  /** An RSA key: the modulus n, the public exponent e and the private
      exponent d, each possibly null. */
  class RsaKey {
    var n: Option<BigNum>
    var e: Option<BigNum>
    var d: Option<BigNum>

    /** RSA_new: a key with no fields set. */
    constructor ()
      ensures n.None? && e.None? && d.None?
    {
      n, e, d := None, None, None;
    }

    /** RSA_set0_key: refuses (0) when n or e would stay null; otherwise
        installs exactly the non-null arguments and returns 1. */
    method Set0Key(newN: Option<BigNum>, newE: Option<BigNum>, newD: Option<BigNum>) returns (r: int)
      modifies this
      ensures (old(n).None? && newN.None?) || (old(e).None? && newE.None?) ==>
        r == 0 && n == old(n) && e == old(e) && d == old(d)
      ensures !((old(n).None? && newN.None?) || (old(e).None? && newE.None?)) ==>
        && r == 1
        && n == (if newN.Some? then newN else old(n))
        && e == (if newE.Some? then newE else old(e))
        && d == (if newD.Some? then newD else old(d))
      ensures r == 1 ==> n.Some? && e.Some?
    {
      if (n.None? && newN.None?) || (e.None? && newE.None?) {
        return 0;
      }
      if newN.Some? {
        n := newN;
      }
      if newE.Some? {
        e := newE;
      }
      if newD.Some? {
        d := newD;
      }
      return 1;
    }
  }
}
