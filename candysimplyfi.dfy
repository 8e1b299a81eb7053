/** `xor_string` of CandySimplyFi.cpp: decrypt a buffer in place with a
    repeating XOR key, and how that relates to the trial decryption of
    `find_xor_key`. */
module CandySimplyFi {
  import XorKnown

  /** The buffer XOR the key repeated along it. The key may be empty only for
      an empty buffer (`i % key.length()` divides by zero otherwise). */
  function XorWith(b: seq<bv8>, key: seq<bv8>): seq<bv8>
    requires |key| > 0 || |b| == 0
  {
    seq(|b|, i requires 0 <= i < |b| => b[i] ^ key[i % |key|])
  }

  /** XOR-ing twice with the same key gives the buffer back, so the same
      routine encrypts and decrypts. */
  lemma XorWithInvolution(b: seq<bv8>, key: seq<bv8>)
    requires |key| > 0 || |b| == 0
    ensures XorWith(XorWith(b, key), key) == b
  {
    var once := XorWith(b, key);
    forall i | 0 <= i < |b|
      ensures XorWith(once, key)[i] == b[i]
    {
      assert once[i] == b[i] ^ key[i % |key|];
    }
  }

  /** With a key that holds no wildcard byte, the trial decryption of
      `find_xor_key` is plain repeating-key XOR. */
  lemma DecryptWithoutWildcards(data: seq<bv8>, key: seq<bv8>)
    requires |key| > 0 && XorKnown.IgnoreCode !in key
    ensures XorKnown.Decrypt(data, key) == XorWith(data, key)
  {
    XorKnown.DecryptAt(data, key);
    forall x | 0 <= x < |data|
      ensures XorKnown.Decrypt(data, key)[x] == XorWith(data, key)[x]
    {
      assert key[x % |key|] in key;
    }
  }

  /** A key found by `find_xor_key` that holds no wildcard turns the buffer
      into printable text under `xor_string`. */
  lemma FoundKeyDecodesBuffer(data: seq<bv8>, known: seq<bv8>)
    requires XorKnown.FindXorKeySpec(data, known) != []
    requires XorKnown.IgnoreCode !in XorKnown.FindXorKeySpec(data, known)
    ensures XorKnown.AllPrintable(XorWith(data, XorKnown.FindXorKeySpec(data, known)))
  {
    XorKnown.FoundKeyDecryptsPrintably(data, known);
    DecryptWithoutWildcards(data, XorKnown.FindXorKeySpec(data, known));
  }

  /** The loop of `xor_string`: XOR every byte of the buffer, in place, with
      the key byte at its position modulo the key length. */
  method XorString(buffer: array<bv8>, key: seq<bv8>)
    requires |key| > 0 || buffer.Length == 0
    modifies buffer
    ensures buffer[..] == XorWith(old(buffer[..]), key)
  {
    var i := 0;
    while i < buffer.Length
      invariant 0 <= i <= buffer.Length
      invariant forall k :: 0 <= k < i ==> buffer[k] == old(buffer[k]) ^ key[k % |key|]
      invariant forall k :: i <= k < buffer.Length ==> buffer[k] == old(buffer[k])
    {
      buffer[i] := buffer[i] ^ key[i % |key|];
      i := i + 1;
    }
  }
}
