// explicit_bzero of lib/util-xbzero.c: overwrite the first len elements of a
// buffer with zero. lib/util-xbzero.c adds a compiler barrier so that the store is
// not optimised away; in this model every store is observable anyway.
module Xbzero {

  /** The contents of s after its first n elements are zeroed. */
  function Zeroed<T>(s: seq<T>, n: nat, zero: T): (r: seq<T>)
    requires n <= |s|
    ensures |r| == |s|
    ensures forall i :: 0 <= i < n ==> r[i] == zero
    ensures forall i :: n <= i < |s| ==> r[i] == s[i]
  {
    seq(n, _ => zero) + s[n..]
  }

  /** explicit_bzero(s, len), with len counted in elements of s. */
  method ExplicitBzero<T>(s: array<T>, len: nat, zero: T)
    requires len <= s.Length
    modifies s
    ensures s[..] == Zeroed(old(s[..]), len, zero)
  {
    forall i | 0 <= i < len {
      s[i] := zero;
    }
  }

  /** Zeroing twice is zeroing once. */
  lemma ZeroedIdempotent<T>(s: seq<T>, n: nat, zero: T)
    requires n <= |s|
    ensures Zeroed(Zeroed(s, n, zero), n, zero) == Zeroed(s, n, zero)
  {
  }

  /** A length of zero changes nothing. */
  lemma ZeroedNone<T>(s: seq<T>, zero: T)
    ensures Zeroed(s, 0, zero) == s
  {
  }

  /** Zeroing the whole buffer leaves only zeros, whatever it held. */
  lemma ZeroedAll<T>(s: seq<T>, t: seq<T>, zero: T)
    requires |s| == |t|
    ensures Zeroed(s, |s|, zero) == Zeroed(t, |t|, zero)
  {
  }
}
