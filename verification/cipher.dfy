/** The repeating-key XOR cipher used to preview decrypted text. */
module Ciphers {

  /** A cipher holds only its key; constructing one stores the key unchanged. */
  datatype Cipher = Cipher(key: seq<bv8>)

  /** Reference definition: byte i of the input XORed with key byte i mod |key|.
      The modulus is only defined for a non-empty key, so an empty key is
      admitted only together with an empty input. */
  function XorWith(key: seq<bv8>, input: seq<bv8>): seq<bv8>
    requires |key| > 0 || |input| == 0
  {
    seq(|input|, i requires 0 <= i < |input| => input[i] ^ key[i % |key|])
  }

  /** Encryption walks the input once, pushing one output byte per input byte. */
  method Encrypt(c: Cipher, input: seq<bv8>) returns (output: seq<bv8>)
    requires |c.key| > 0 || |input| == 0
    ensures |output| == |input|
    ensures forall i :: 0 <= i < |input| ==> output[i] == input[i] ^ c.key[i % |c.key|]
    ensures output == XorWith(c.key, input)
  {
    output := [];
    var index := 0;
    while index < |input|
      invariant 0 <= index <= |input|
      invariant |output| == index
      invariant forall i :: 0 <= i < index ==> output[i] == input[i] ^ c.key[i % |c.key|]
    {
      output := output + [input[index] ^ c.key[index % |c.key|]];
      index := index + 1;
    }
  }

  /** Decryption is encryption: XOR with the same keystream. */
  method Decrypt(c: Cipher, input: seq<bv8>) returns (output: seq<bv8>)
    requires |c.key| > 0 || |input| == 0
    ensures output == XorWith(c.key, input)
  {
    output := Encrypt(c, input);
  }

  /** Applying the cipher twice with the same non-empty key restores the message. */
  lemma SelfInverse(key: seq<bv8>, m: seq<bv8>)
    requires |key| > 0
    ensures XorWith(key, XorWith(key, m)) == m
  {
    var once := XorWith(key, m);
    var twice := XorWith(key, once);
    forall i | 0 <= i < |m|
      ensures twice[i] == m[i]
    {
      assert twice[i] == (m[i] ^ key[i % |key|]) ^ key[i % |key|];
    }
  }

  /** The many-time-pad leak: two ciphertext bytes one key length apart use the
      same key byte, so their XOR equals the XOR of the two plaintext bytes. */
  lemma RepeatedKeyLeak(key: seq<bv8>, m: seq<bv8>, i: nat)
    requires |key| > 0
    requires i + |key| < |m|
    ensures XorWith(key, m)[i] ^ XorWith(key, m)[i + |key|] == m[i] ^ m[i + |key|]
  {
    ModShift(i, |key|);
  }

  /** Shifting an index by the modulus does not change its residue. */
  lemma ModShift(i: nat, n: nat)
    requires n > 0
    ensures (i + n) % n == i % n
  {
    var q, r := i / n, i % n;
    var q', r' := (i + n) / n, (i + n) % n;
    var d := q' - q - 1;
    assert d * n == r - r' by {
      assert i + n == q' * n + r';
      assert i == q * n + r;
      assert q' * n == (q + 1) * n + d * n;
    }
  }
}
