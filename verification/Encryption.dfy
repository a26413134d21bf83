/** Keys, the versioned envelope, and authenticated encryption. */
module Encryption {
  import opened Common
  import opened Primitives
  import Hex

  const ENVELOPE_VERSION: byte := 1
  const NONCE_BYTES := 24
  const TAG_BYTES := 16

  datatype EncryptionError =
    | InvalidKeyHex
    | InvalidKeyLength(length: nat)
    | MalformedEnvelope
    | UnsupportedVersion(version: byte)
    | AeadFailure

  // -------------------------------------------------------------------- keys

  type Key = Bytes32

  function KeyToHex(key: Key): string {
    Hex.Encode(key)
  }

  function KeyOfHex(text: string): Result<Key, EncryptionError> {
    match Hex.Decode(StripPrefix(text, "0x"))
    case None => Err(InvalidKeyHex)
    case Some(b) => if |b| == 32 then Ok(b) else Err(InvalidKeyLength(|b|))
  }

  /** `EncryptionKey::from_hex`. */
  method KeyFromHex(text: string) returns (r: Result<Key, EncryptionError>)
    ensures r == KeyOfHex(text)
  {
    var decoded := Hex.Decode(StripPrefix(text, "0x"));
    if decoded.None? {
      return Err(InvalidKeyHex);
    }
    var b := decoded.value;
    if |b| != 32 {
      return Err(InvalidKeyLength(|b|));
    }
    var key := new byte[32](i => 0);
    forall i | 0 <= i < 32 {
      key[i] := b[i];
    }
    assert key[..] == b;
    return Ok(key[..]);
  }

  /** A printed key is read back, with or without a prefix. */
  lemma KeyHexRoundTrip(key: Key)
    ensures KeyOfHex(KeyToHex(key)) == Ok(key)
    ensures KeyOfHex("0x" + KeyToHex(key)) == Ok(key)
  {
    Hex.DecodeEncode(key);
    Hex.PrefixIsOptional(KeyToHex(key));
  }

  /** The texts that are read as a key: its 64 digits in either case, optionally
      prefixed. */
  lemma KeyOfHexAccepts(text: string, key: Key)
    ensures KeyOfHex(text) == Ok(key) <==>
            && Hex.AllHexDigits(StripPrefix(text, "0x"))
            && Hex.Lower(StripPrefix(text, "0x")) == KeyToHex(key)
  {
    Hex.DecodesTo(StripPrefix(text, "0x"), key);
  }

  /** The two refusals: for the digits, and for their number. */
  lemma KeyOfHexRefuses(text: string)
    ensures
      var digits := StripPrefix(text, "0x");
      && (KeyOfHex(text) == Err(InvalidKeyHex) <==> |digits| % 2 == 1 || !Hex.AllHexDigits(digits))
      && (forall n: nat :: KeyOfHex(text) == Err(InvalidKeyLength(n)) <==>
            |digits| == 2 * n && n != 32 && Hex.AllHexDigits(digits))
  {
    Hex.DecodesExactly(StripPrefix(text, "0x"));
  }

  // ---------------------------------------------------------------- envelope

  datatype EncryptedPayload = EncryptedPayload(version: byte, nonce: Bytes24, ciphertext: bytes)

  /** `version || nonce || ciphertext`. */
  function Sealed(p: EncryptedPayload): bytes {
    [p.version] + p.nonce + p.ciphertext
  }

  function Opened(b: bytes): Result<EncryptedPayload, EncryptionError> {
    if |b| < 1 + NONCE_BYTES then Err(MalformedEnvelope)
    else if b[0] != ENVELOPE_VERSION then Err(UnsupportedVersion(b[0]))
    else Ok(EncryptedPayload(b[0], b[1..1 + NONCE_BYTES], b[1 + NONCE_BYTES..]))
  }

  /** `EncryptedPayload::to_bytes`. */
  method ToBytes(p: EncryptedPayload) returns (encoded: bytes)
    ensures encoded == Sealed(p)
  {
    encoded := [];
    encoded := encoded + [p.version];
    encoded := encoded + p.nonce;
    encoded := encoded + p.ciphertext;
  }

  /** `EncryptedPayload::from_bytes`. */
  method FromBytes(b: bytes) returns (r: Result<EncryptedPayload, EncryptionError>)
    ensures r == Opened(b)
  {
    if |b| < 1 + NONCE_BYTES {
      return Err(MalformedEnvelope);
    }
    var version := b[0];
    if version != ENVELOPE_VERSION {
      return Err(UnsupportedVersion(version));
    }
    var nonce := new byte[NONCE_BYTES](i => 0);
    forall i | 0 <= i < NONCE_BYTES {
      nonce[i] := b[1 + i];
    }
    assert nonce[..] == b[1..1 + NONCE_BYTES];
    return Ok(EncryptedPayload(version, nonce[..], b[1 + NONCE_BYTES..]));
  }

  /** Where each part of an envelope is. */
  lemma SealedLayout(p: EncryptedPayload)
    ensures
      var b := Sealed(p);
      |b| == 25 + |p.ciphertext| && b[0] == p.version && b[1..25] == p.nonce && b[25..] == p.ciphertext
  {
  }

  lemma OpenSealed(p: EncryptedPayload)
    ensures Opened(Sealed(p)) ==
            if p.version == ENVELOPE_VERSION then Ok(p) else Err(UnsupportedVersion(p.version))
  {
    var b := Sealed(p);
    assert b[0] == p.version;
    assert b[1..1 + NONCE_BYTES] == p.nonce;
    assert b[1 + NONCE_BYTES..] == p.ciphertext;
  }

  /** The accepted byte strings, and that each is the envelope it opens to. */
  lemma SealOpened(b: bytes)
    ensures Opened(b).Ok? <==> |b| >= 25 && b[0] == 1
    ensures Opened(b).Ok? ==> Sealed(Opened(b).value) == b
    ensures Opened(b) == Err(MalformedEnvelope) <==> |b| < 25
  {
  }

  // -------------------------------------------------------------- exclusive or

  function Pow2(width: nat): nat {
    if width == 0 then 1 else 2 * Pow2(width - 1)
  }

  /** Bitwise exclusive or of the low `width` bits. */
  function XorBits(a: nat, b: nat, width: nat): (x: nat)
    ensures x < Pow2(width)
  {
    if width == 0 then 0 else (a + b) % 2 + 2 * XorBits(a / 2, b / 2, width - 1)
  }

  function Xor(a: byte, b: byte): byte {
    assert Pow2(8) == 256 by { assert Pow2(4) == 16; }
    XorBits(a, b, 8)
  }

  lemma LowBit(a: nat, b: nat, high: nat)
    ensures ((a + b) % 2 + 2 * high) / 2 == high
    ensures ((a + b) % 2 + 2 * high + b) % 2 == a % 2
    ensures a % 2 + 2 * (a / 2) == a
  {
    var low := (a + b) % 2;
    assert low == if a % 2 == b % 2 then 0 else 1;
    assert (low + 2 * high + b) % 2 == (low + b) % 2;
  }

  lemma {:induction false} XorBitsTwice(a: nat, b: nat, width: nat)
    requires a < Pow2(width)
    ensures XorBits(XorBits(a, b, width), b, width) == a
  {
    if width == 0 {
    } else {
      var high := XorBits(a / 2, b / 2, width - 1);
      XorBitsTwice(a / 2, b / 2, width - 1);
      LowBit(a, b, high);
    }
  }

  /** Bit number `k`, the lowest being number 0. */
  function BitOf(n: nat, k: nat): nat {
    if k == 0 then n % 2 else BitOf(n / 2, k - 1)
  }

  lemma {:induction false} XorBitsAt(a: nat, b: nat, width: nat, k: nat)
    requires k < width
    ensures BitOf(XorBits(a, b, width), k) == (BitOf(a, k) + BitOf(b, k)) % 2
  {
    var high := XorBits(a / 2, b / 2, width - 1);
    LowBit(a, b, high);
    if k > 0 {
      XorBitsAt(a / 2, b / 2, width - 1, k - 1);
    }
  }

  lemma XorTwice(a: byte, b: byte)
    ensures Xor(Xor(a, b), b) == a
  {
    assert Pow2(8) == 256 by { assert Pow2(4) == 16; }
    XorBitsTwice(a, b, 8);
  }

  // -------------------------------------------------------------------- AEAD

  /** The data under the keystream of a key and a nonce. */
  function Masked(p: Primitives, key: Key, nonce: Bytes24, data: bytes): (m: bytes)
    ensures |m| == |data|
  {
    seq<byte>(|data|, i requires 0 <= i < |data| => Xor(data[i], p.keystream(key, nonce, i)))
  }

  function Tag(p: Primitives, key: Key, nonce: Bytes24, aad: bytes, masked: bytes): (t: bytes)
    ensures |t| == TAG_BYTES
  {
    seq<byte>(TAG_BYTES, i requires 0 <= i < TAG_BYTES => p.mac(key, nonce, aad, masked, i))
  }

  /** `encrypt`, the nonce it draws being given. */
  function Encrypt(p: Primitives, key: Key, nonce: Bytes24, plaintext: bytes, aad: bytes)
    : Result<EncryptedPayload, EncryptionError>
  {
    if |plaintext| > p.maxPlaintext then Err(AeadFailure)
    else
      var masked := Masked(p, key, nonce, plaintext);
      Ok(EncryptedPayload(ENVELOPE_VERSION, nonce, masked + Tag(p, key, nonce, aad, masked)))
  }

  /** `decrypt`: nothing is unmasked before the tag has been compared. */
  function Decrypt(p: Primitives, key: Key, payload: EncryptedPayload, aad: bytes)
    : Result<bytes, EncryptionError>
  {
    if payload.version != ENVELOPE_VERSION then Err(UnsupportedVersion(payload.version))
    else if |payload.ciphertext| < TAG_BYTES then Err(AeadFailure)
    else
      var n := |payload.ciphertext| - TAG_BYTES;
      var masked := payload.ciphertext[..n];
      if n > p.maxPlaintext then Err(AeadFailure)
      else if payload.ciphertext[n..] != Tag(p, key, payload.nonce, aad, masked) then Err(AeadFailure)
      else Ok(Masked(p, key, payload.nonce, masked))
  }

  /** The bytes of an encryption, from the primitives alone: each bit of the
      plaintext plus that of the keystream, and then the 16 bytes of the
      authenticator over the associated data and what is in front of them. */
  lemma EncryptExactly(p: Primitives, key: Key, nonce: Bytes24, plaintext: bytes, aad: bytes)
    ensures Encrypt(p, key, nonce, plaintext, aad).Ok? <==> |plaintext| <= p.maxPlaintext
    ensures |plaintext| > p.maxPlaintext ==> Encrypt(p, key, nonce, plaintext, aad) == Err(AeadFailure)
    ensures |plaintext| <= p.maxPlaintext ==>
              var payload := Encrypt(p, key, nonce, plaintext, aad).value;
              var c, n := payload.ciphertext, |plaintext|;
              && payload.version == 1 && payload.nonce == nonce && |c| == n + 16
              && (forall i, k | 0 <= i < n && 0 <= k < 8 ::
                    BitOf(c[i], k) == (BitOf(plaintext[i], k) + BitOf(p.keystream(key, nonce, i), k)) % 2)
              && (forall j | 0 <= j < 16 :: c[n + j] == p.mac(key, nonce, aad, c[..n], j))
  {
    if |plaintext| <= p.maxPlaintext {
      var n, masked := |plaintext|, Masked(p, key, nonce, plaintext);
      var c := Encrypt(p, key, nonce, plaintext, aad).value.ciphertext;
      assert c[..n] == masked;
      forall i, k | 0 <= i < n && 0 <= k < 8
        ensures BitOf(c[i], k) == (BitOf(plaintext[i], k) + BitOf(p.keystream(key, nonce, i), k)) % 2
      {
        XorBitsAt(plaintext[i], p.keystream(key, nonce, i), 8, k);
      }
    }
  }

  lemma MaskedTwice(p: Primitives, key: Key, nonce: Bytes24, data: bytes)
    ensures Masked(p, key, nonce, Masked(p, key, nonce, data)) == data
  {
    forall i | 0 <= i < |data|
      ensures Xor(Xor(data[i], p.keystream(key, nonce, i)), p.keystream(key, nonce, i)) == data[i]
    {
      XorTwice(data[i], p.keystream(key, nonce, i));
    }
  }

  /** Decryption accepts an envelope with some plaintext exactly when encrypting
      that plaintext, under the envelope's nonce, gives the envelope. */
  lemma DecryptIsInverse(p: Primitives, key: Key, payload: EncryptedPayload, aad: bytes, plaintext: bytes)
    ensures Decrypt(p, key, payload, aad) == Ok(plaintext)
            <==> Encrypt(p, key, payload.nonce, plaintext, aad) == Ok(payload)
    ensures Decrypt(p, key, payload, aad).Err? ==>
              Decrypt(p, key, payload, aad).error ==
              if payload.version != 1 then UnsupportedVersion(payload.version) else AeadFailure
  {
    var c := payload.ciphertext;
    MaskedTwice(p, key, payload.nonce, plaintext);
    if Encrypt(p, key, payload.nonce, plaintext, aad) == Ok(payload) {
      var masked := Masked(p, key, payload.nonce, plaintext);
      assert c == masked + Tag(p, key, payload.nonce, aad, masked);
      assert c[..|plaintext|] == masked;
      assert c[|plaintext|..] == Tag(p, key, payload.nonce, aad, masked);
    }
    if Decrypt(p, key, payload, aad) == Ok(plaintext) {
      var masked := c[..|c| - TAG_BYTES];
      MaskedTwice(p, key, payload.nonce, masked);
      assert c == masked + c[|c| - TAG_BYTES..];
    }
  }

  /** Sizes: 16 bytes of tag, and 25 more of version and nonce. */
  lemma Sizes(p: Primitives, key: Key, nonce: Bytes24, plaintext: bytes, aad: bytes)
    requires Encrypt(p, key, nonce, plaintext, aad).Ok?
    ensures
      var payload := Encrypt(p, key, nonce, plaintext, aad).value;
      |payload.ciphertext| == |plaintext| + 16 && |Sealed(payload)| == |plaintext| + 41
  {
  }
}
