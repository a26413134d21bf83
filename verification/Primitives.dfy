/** The cryptographic primitives, left uninterpreted: every theorem holds for
    every choice of them. */
module Primitives {
  import opened Common

  datatype Primitives = Primitives(
    // byte number i of the SHAKE256 output stream of a message
    squeeze: (bytes, nat) -> byte,
    // byte number i of the cipher's keystream for a key and a nonce
    keystream: (Bytes32, Bytes24, nat) -> byte,
    // byte number i of the authenticator of associated data and ciphertext
    mac: (Bytes32, Bytes24, bytes, bytes, nat) -> byte,
    // the longest plaintext the cipher takes
    maxPlaintext: nat,
    // the Merkle root the storage network computes for a file
    merkleRoot: bytes -> Bytes32)
  {
    /** The first `n` bytes of hash output. */
    function Digest(message: bytes, n: nat): (d: bytes)
      ensures |d| == n
    {
      seq<byte>(n, i requires 0 <= i < n => squeeze(message, i))
    }
  }
}
