/**
 * The cryptographic library surface used by the encryptor: RSA keys, RSA-OAEP
 * with SHA-256, AES-256/GCM, base64, hex, PKCS#8 PEM and RSA key generation.
 * Their internals are not modelled: each primitive is a field of a `Crypto`
 * value, and `Lawful` collects the round-trip laws the rest of the model may
 * rely on. The random number generator is a class over an unknown stream.
 */
module Primitives {
  import opened Base

  /** SHA-256 output length in bytes (hLen of section 7.1 of RFC 8017). */
  const HashLength: nat := 32
  /** AES-256 key length in bytes. */
  const AesKeyLength: nat := 32
  /** GCM nonce length drawn by the encryptor (96 bits). */
  const NonceLength: nat := 12
  /** Modulus size requested from the key generator. */
  const KeyBits: nat := 2048

  datatype RsaPrivateKey = RsaPrivateKey(n: nat, e: nat, d: nat)
  datatype RsaPublicKey = RsaPublicKey(n: nat, e: nat)

  /** `Botan::RSA_PublicKey(privKey)`: the public half of a private key. */
  function PublicOf(k: RsaPrivateKey): RsaPublicKey
  {
    RsaPublicKey(k.n, k.e)
  }

  /** Number of significant bits of `n`. */
  function BitLength(n: nat): nat
  {
    if n == 0 then 0 else 1 + BitLength(n / 2)
  }

  /** Largest message RSA-OAEP can wrap under `pub`: k - 2 hLen - 2 octets, where
      k is the modulus length in octets (section 7.1.1 of RFC 8017). */
  function OaepCapacity(pub: RsaPublicKey): nat
  {
    var k := (BitLength(pub.n) + 7) / 8;
    if k >= 2 * HashLength + 2 then k - 2 * HashLength - 2 else 0
  }

  /** A freshly generated 2048-bit key can wrap an AES-256 key. */
  lemma GeneratedKeyWrapsAesKey(k: RsaPrivateKey)
    requires BitLength(k.n) == KeyBits
    ensures OaepCapacity(PublicOf(k)) == 190
    ensures AesKeyLength <= OaepCapacity(PublicOf(k))
  {
  }

  /** What `PKCS8::load_key` finds in a PEM file. */
  datatype LoadedKey = Rsa(key: RsaPrivateKey) | OtherAlgorithm

  /** The output stream of a random number generator, from some position on. */
  type Entropy = nat -> Byte

  /** A key produced by RSA key generation and the number of random bytes it used. */
  datatype Generated = Generated(key: RsaPrivateKey, used: nat)

  datatype Crypto = Crypto(
    oaepEncrypt: (RsaPublicKey, Bytes, Bytes) -> Option<Bytes>,  // key, message, seed
    oaepDecrypt: (RsaPrivateKey, Bytes) -> Option<Bytes>,
    gcmEncrypt: (Bytes, Bytes, Bytes) -> Bytes,                   // key, nonce, plaintext
    gcmDecrypt: (Bytes, Bytes, Bytes) -> Option<Bytes>,           // key, nonce, ciphertext
    base64Encode: Bytes -> Bytes,
    base64Decode: Bytes -> Option<Bytes>,
    hexEncode: Bytes -> Bytes,
    hexDecode: Bytes -> Option<Bytes>,
    pemEncode: RsaPrivateKey -> Bytes,
    pemDecode: Bytes -> Option<LoadedKey>,
    rsaGenerate: (Entropy, nat) -> Generated)                     // stream, modulus bits

  /** The base64 alphabet of section 4 of RFC 4648, with the pad character '='. */
  predicate IsBase64Char(b: Byte)
  {
    (65 <= b <= 90) || (97 <= b <= 122) || (48 <= b <= 57) || b == 43 || b == 47 || b == 61
  }

  /** Upper-case hex digits (section 8 of RFC 4648), which Botan's encoder emits. */
  predicate IsHexChar(b: Byte)
  {
    (48 <= b <= 57) || (65 <= b <= 70)
  }

  /** Base64 decodes what it encodes, emits only its alphabet, and the decoder
      skips a trailing line feed (Botan decodes with whitespace ignored). */
  ghost predicate Base64Laws(c: Crypto)
  {
    && (forall b :: c.base64Decode(c.base64Encode(b)) == Some(b))
    && (forall b, i :: 0 <= i < |c.base64Encode(b)| ==> IsBase64Char(c.base64Encode(b)[i]))
    && (forall s :: c.base64Decode(s + [NL]) == c.base64Decode(s))
  }

  ghost predicate HexLaws(c: Crypto)
  {
    && (forall b :: c.hexDecode(c.hexEncode(b)) == Some(b))
    && (forall b, i :: 0 <= i < |c.hexEncode(b)| ==> IsHexChar(c.hexEncode(b)[i]))
  }

  /** OAEP wrapping succeeds exactly for messages within capacity, and the
      matching private key unwraps what the public key wrapped. */
  ghost predicate OaepLaws(c: Crypto)
  {
    && (forall pub, m, seed :: c.oaepEncrypt(pub, m, seed).Some? <==> |m| <= OaepCapacity(pub))
    && (forall k, m, seed ::
          c.oaepEncrypt(PublicOf(k), m, seed).Some? ==>
            c.oaepDecrypt(k, c.oaepEncrypt(PublicOf(k), m, seed).value) == Some(m))
  }

  /** GCM decryption under the same 256-bit key and a non-empty nonce authenticates
      and returns what was encrypted. */
  ghost predicate GcmLaws(c: Crypto)
  {
    forall key, nonce, p ::
      |key| == AesKeyLength && |nonce| > 0 ==> c.gcmDecrypt(key, nonce, c.gcmEncrypt(key, nonce, p)) == Some(p)
  }

  ghost predicate PemLaws(c: Crypto)
  {
    forall k :: c.pemDecode(c.pemEncode(k)) == Some(Rsa(k))
  }

  ghost predicate KeyGenLaws(c: Crypto)
  {
    forall s, bits :: BitLength(c.rsaGenerate(s, bits).key.n) == bits
  }

  ghost predicate Lawful(c: Crypto)
  {
    Base64Laws(c) && HexLaws(c) && OaepLaws(c) && GcmLaws(c) && PemLaws(c) && KeyGenLaws(c)
  }

  /** `len` bytes of stream `s` starting at position `from`. */
  function Block(s: Entropy, from: nat, len: nat): (r: Bytes)
    ensures |r| == len
    ensures forall i :: 0 <= i < len ==> r[i] == s(from + i)
  {
    seq(len, i requires 0 <= i < len => s(from + i))
  }

  /** `Botan::AutoSeeded_RNG`: hands out successive bytes of an unknown stream. */
  class Rng {
    const stream: Entropy
    var drawn: nat

    constructor (stream: Entropy)
      ensures this.stream == stream && drawn == 0
    {
      this.stream := stream;
      drawn := 0;
    }

    /** The stream from the next undrawn byte on. */
    function Upcoming(): (u: Entropy)
      reads this
      ensures forall i: nat :: u(i) == stream(drawn + i)
    {
      var s, d := stream, drawn;
      (i: nat) => s(d + i)
    }

    /** `rng.randomize(buf.data(), buf.size())`: fills `buf` in place. */
    method Randomize(buf: array<Byte>)
      modifies this, buf
      ensures drawn == old(drawn) + buf.Length
      ensures buf[..] == Block(stream, old(drawn), buf.Length)
    {
      var i := 0;
      while i < buf.Length
        invariant 0 <= i <= buf.Length
        invariant drawn == old(drawn)
        invariant forall j :: 0 <= j < i ==> buf[j] == stream(drawn + j)
      {
        buf[i] := stream(drawn + i);
        i := i + 1;
      }
      drawn := drawn + buf.Length;
    }

    /** Consumes `count` bytes inside a library routine (key generation). */
    method Skip(count: nat)
      modifies this
      ensures drawn == old(drawn) + count
    {
      drawn := drawn + count;
    }
  }
}
