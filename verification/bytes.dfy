/** Byte-level helpers shared by the cipher, the key record and the cracker. */
module Bytes {

  function ToByte(i: int): bv8
    requires 0 <= i < 256
  {
    i as bv8
  }

  /** The byte values below n, the part of a 0..255 scan already visited. */
  function BytesBelow(n: nat): set<bv8>
    requires n <= 256
  {
    set i | 0 <= i < n :: ToByte(i)
  }

  /** Visiting value n adds exactly that byte to the visited part. */
  lemma BytesBelowStep(n: nat)
    requires n < 256
    ensures BytesBelow(n + 1) == BytesBelow(n) + {ToByte(n)}
  {
    assert ToByte(n) in BytesBelow(n + 1);
  }

  /** The 256 byte values: the candidate set every key position starts from. */
  function AllBytes(): (s: set<bv8>)
    ensures forall k: bv8 :: k in s
    ensures |s| > 1
  {
    var s := BytesBelow(256);
    assert forall k: bv8 :: k in s by {
      forall k: bv8 ensures k in s {
        assert ToByte(k as int) == k;
      }
    }
    assert 1 in s - {0};
    assert |s| == |s - {0}| + 1;
    s
  }

  /** A full scan visits every byte. */
  lemma AllBytesBelow()
    ensures BytesBelow(256) == AllBytes()
  {
  }

  /** No byte occurs twice: a list collected from a set has this shape. */
  predicate Distinct(xs: seq<bv8>) {
    forall i, j :: 0 <= i < j < |xs| ==> xs[i] != xs[j]
  }
}
