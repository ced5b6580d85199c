/** Shared value types: the failure datatypes and the 32-byte digests that the
    store uses as key hashes and value hashes. */
module Common {

  datatype Option<+T> = None | Some(value: T)

  newtype byte = b: int | 0 <= b < 256

  type Bytes32 = s: seq<byte> | |s| == 32 witness seq(32, i => 0)

  /** A Blake2b-256 result.  The hash function itself is a parameter wherever it is needed. */
  datatype Digest = Digest(bytes: Bytes32)

  function Lookup<K, V>(m: map<K, V>, k: K): Option<V> {
    if k in m then Some(m[k]) else None
  }

  /** Two maps that answer every lookup alike are the same map. */
  lemma EqualLookups<K(!new), V>(m: map<K, V>, n: map<K, V>)
    requires forall k :: Lookup(m, k) == Lookup(n, k)
    ensures m == n
  {
    forall k
      ensures k in m <==> k in n
      ensures k in m ==> m[k] == n[k]
    {
      assert Lookup(m, k) == Lookup(n, k);
    }
  }
}
