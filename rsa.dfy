/**
 * The hybrid envelope of the encryptor: a fresh AES-256/GCM key encrypts the
 * payload and is itself wrapped with RSA-OAEP; the bundle is three text fields
 * (wrapped key in base64, nonce in hex, ciphertext in base64) separated by
 * line feeds. Also the key file: the RSA private key is loaded from a PEM file,
 * or generated and saved there when the file does not exist.
 */
module Rsa {
  import opened Base
  import opened Primitives
  import opened Files

  // ---------------- Bundle text format ----------------

  /** The three fields of a bundle, in their order in the text. */
  datatype Fields = Fields(wrappedKey: Bytes, nonce: Bytes, cipher: Bytes)

  /** The bundle text: key, line feed, nonce, line feed, ciphertext; no final line feed. */
  function Serialize(f: Fields): Bytes
  {
    f.wrappedKey + [NL] + f.nonce + [NL] + f.cipher
  }

  /** `std::getline(in, field, delim)` on the rest `s` of a stream: the text before
      the first `delim` (or all of `s`), and what follows that `delim`. */
  function SplitAt(s: Bytes, delim: Byte): (r: (Bytes, Bytes))
    ensures delim !in r.0
  {
    if s == [] then ([], [])
    else if s[0] == delim then ([], s[1..])
    else
      var (head, rest) := SplitAt(s[1..], delim);
      ([s[0]] + head, rest)
  }

  /** Splitting loses nothing: the line, the delimiter if there was one, and the
      rest make up the input; without a delimiter everything is the line. */
  lemma {:induction false} SplitAtParts(s: Bytes, delim: Byte)
    ensures delim in s ==> s == SplitAt(s, delim).0 + [delim] + SplitAt(s, delim).1
    ensures delim !in s ==> SplitAt(s, delim) == (s, [])
  {
    if s != [] && s[0] != delim {
      SplitAtParts(s[1..], delim);
      assert s == [s[0]] + s[1..];
    }
  }

  /** The first `delim` of `a + [delim] + b` is the one after `a`. */
  lemma {:induction false} SplitAtFirst(a: Bytes, delim: Byte, b: Bytes)
    requires delim !in a
    ensures SplitAt(a + [delim] + b, delim) == (a, b)
  {
    var s := a + [delim] + b;
    if a == [] {
      assert s == [delim] + b;
    } else {
      assert s[0] == a[0] != delim;
      assert s[1..] == a[1..] + [delim] + b;
      SplitAtFirst(a[1..], delim, b);
      assert a == [a[0]] + a[1..];
    }
  }

  /** `hybridDecrypt`'s split: the wrapped key up to the first line feed, the nonce
      up to the second, the ciphertext up to a NUL or the end. Missing fields are empty. */
  function Parse(bundle: Bytes): (f: Fields)
    ensures NL !in f.wrappedKey && NL !in f.nonce && NUL !in f.cipher
  {
    var (key, afterKey) := SplitAt(bundle, NL);
    var (nonce, afterNonce) := SplitAt(afterKey, NL);
    var (cipher, _) := SplitAt(afterNonce, NUL);
    Fields(key, nonce, cipher)
  }

  /** Parsing recovers the three fields of a serialized bundle whenever the first
      two hold no line feed and the third no NUL. */
  lemma ParseSerialize(f: Fields)
    requires NL !in f.wrappedKey && NL !in f.nonce && NUL !in f.cipher
    ensures Parse(Serialize(f)) == f
  {
    assert Serialize(f) == f.wrappedKey + [NL] + (f.nonce + [NL] + f.cipher);
    SplitAtFirst(f.wrappedKey, NL, f.nonce + [NL] + f.cipher);
    SplitAtFirst(f.nonce, NL, f.cipher);
    SplitAtParts(f.cipher, NUL);
  }

  /** The field count is not checked: text without a line feed is all wrapped key,
      and text with one line feed has an empty ciphertext field. */
  lemma ParseShortBundle(bundle: Bytes)
    ensures NL !in bundle ==> Parse(bundle) == Fields(bundle, [], [])
    ensures forall a, b :: bundle == a + [NL] + b && NL !in a && NL !in b ==> Parse(bundle) == Fields(a, b, [])
  {
    SplitAtParts(bundle, NL);
    SplitAtParts([], NL);
    SplitAtParts([], NUL);
    forall a, b | bundle == a + [NL] + b && NL !in a && NL !in b
      ensures Parse(bundle) == Fields(a, b, [])
    {
      SplitAtFirst(a, NL, b);
      SplitAtParts(b, NL);
    }
  }

  /** A line feed appended after the ciphertext stays in the ciphertext field. */
  lemma ParseSerializeNewline(f: Fields)
    requires NL !in f.wrappedKey && NL !in f.nonce && NUL !in f.cipher
    ensures Parse(Serialize(f) + [NL]) == Fields(f.wrappedKey, f.nonce, f.cipher + [NL])
  {
    var g := Fields(f.wrappedKey, f.nonce, f.cipher + [NL]);
    assert Serialize(f) + [NL] == Serialize(g);
    ParseSerialize(g);
  }

  // ---------------- Hybrid encryption ----------------

  datatype EncryptError = MessageTooLong  // the AES key exceeds the OAEP capacity of the public key

  datatype DecryptError =
    | BadWrappedKeyEncoding   // base64 decoding of the first field failed
    | KeyUnwrapFailed         // OAEP decryption failed
    | BadNonceEncoding        // hex decoding of the second field failed
    | BadCipherEncoding       // base64 decoding of the third field failed
    | AuthenticationFailed    // GCM rejected key, nonce or tag

  /** The bundle `hybridEncrypt` builds from its random draws: symmetric key,
      nonce and the OAEP seed. */
  function Envelope(c: Crypto, plaintext: Bytes, pub: RsaPublicKey, aesKey: Bytes, nonce: Bytes, seed: Bytes): Result<Bytes, EncryptError>
  {
    match c.oaepEncrypt(pub, aesKey, seed)
    case None => Failure(MessageTooLong)
    case Some(wrapped) =>
      Success(Serialize(Fields(c.base64Encode(wrapped), c.hexEncode(nonce), c.base64Encode(c.gcmEncrypt(aesKey, nonce, plaintext)))))
  }

  /** Random bytes one `hybridEncrypt` call draws: AES key, nonce, OAEP seed. */
  const EnvelopeDraw: nat := AesKeyLength + NonceLength + HashLength

  /** The bundle `hybridEncrypt` builds when the generator's stream `s` is at `pos`. */
  function EnvelopeAt(c: Crypto, plaintext: Bytes, pub: RsaPublicKey, s: Entropy, pos: nat): Result<Bytes, EncryptError>
  {
    Envelope(c, plaintext, pub,
             Block(s, pos, AesKeyLength),
             Block(s, pos + AesKeyLength, NonceLength),
             Block(s, pos + AesKeyLength + NonceLength, HashLength))
  }

  /** `rsaEncrypt`: OAEP wraps `msg` under `pub` with a seed drawn from `rng`,
      and the result is base64-encoded. */
  method RsaEncrypt(c: Crypto, msg: Bytes, pub: RsaPublicKey, rng: Rng) returns (r: Result<Bytes, EncryptError>)
    modifies rng
    ensures rng.drawn == old(rng.drawn) + HashLength
    ensures r == match c.oaepEncrypt(pub, msg, Block(rng.stream, old(rng.drawn), HashLength))
                 case None => Failure(MessageTooLong)
                 case Some(w) => Success(c.base64Encode(w))
  {
    var seed := new Byte[HashLength];
    rng.Randomize(seed);
    var wrapped := c.oaepEncrypt(pub, msg, seed[..]);
    if wrapped.None? {
      return Failure(MessageTooLong);
    }
    r := Success(c.base64Encode(wrapped.value));
  }

  /** `rsaDecrypt`: base64-decodes the wrapped key and unwraps it with OAEP. */
  function RsaDecrypt(c: Crypto, wrappedB64: Bytes, priv: RsaPrivateKey): (r: Result<Bytes, DecryptError>)
    ensures r.Failure? ==> r.error == BadWrappedKeyEncoding || r.error == KeyUnwrapFailed
    ensures r == Failure(BadWrappedKeyEncoding) <==> c.base64Decode(wrappedB64).None?
    ensures c.base64Decode(wrappedB64).Some? ==>
              (r == Failure(KeyUnwrapFailed) <==> c.oaepDecrypt(priv, c.base64Decode(wrappedB64).value).None?)
    ensures forall wrapped, key :: c.base64Decode(wrappedB64) == Some(wrapped) && c.oaepDecrypt(priv, wrapped) == Some(key) ==> r == Success(key)
    ensures Base64Laws(c) && OaepLaws(c) ==>
              forall m, seed :: c.oaepEncrypt(PublicOf(priv), m, seed).Some? && wrappedB64 == c.base64Encode(c.oaepEncrypt(PublicOf(priv), m, seed).value) ==> r == Success(m)
  {
    match c.base64Decode(wrappedB64)
    case None => Failure(BadWrappedKeyEncoding)
    case Some(wrapped) =>
      match c.oaepDecrypt(priv, wrapped)
      case None => Failure(KeyUnwrapFailed)
      case Some(key) => Success(key)
  }

  /** `hybridEncrypt`: draws a 32-byte AES key and a 12-byte nonce, encrypts the
      plaintext with that key, then wraps that same key with RSA-OAEP. */
  method HybridEncrypt(c: Crypto, plaintext: Bytes, pub: RsaPublicKey, rng: Rng) returns (r: Result<Bytes, EncryptError>)
    modifies rng
    ensures rng.drawn == old(rng.drawn) + EnvelopeDraw
    ensures r == EnvelopeAt(c, plaintext, pub, rng.stream, old(rng.drawn))
    ensures Lawful(c) ==> (r.Success? <==> AesKeyLength <= OaepCapacity(pub))
  {
    var aesKey := new Byte[AesKeyLength];
    rng.Randomize(aesKey);
    var nonce := new Byte[NonceLength];
    rng.Randomize(nonce);

    var buffer := plaintext;
    buffer := c.gcmEncrypt(aesKey[..], nonce[..], buffer);  // enc->finish(buffer)

    var wrappedB64 := RsaEncrypt(c, aesKey[..], pub, rng);
    if wrappedB64.Failure? {
      return Failure(wrappedB64.error);
    }

    var result: Bytes := [];
    result := result + wrappedB64.value + [NL];
    result := result + c.hexEncode(nonce[..]) + [NL];
    result := result + c.base64Encode(buffer);
    assert result == Serialize(Fields(wrappedB64.value, c.hexEncode(nonce[..]), c.base64Encode(buffer)));
    r := Success(result);
  }

  /** `hybridDecrypt`: splits the bundle by position, unwraps the AES key, decodes
      nonce and ciphertext, and decrypts with GCM. */
  function HybridDecrypt(c: Crypto, bundle: Bytes, priv: RsaPrivateKey): (r: Result<Bytes, DecryptError>)
    ensures RsaDecrypt(c, Parse(bundle).wrappedKey, priv).Failure? ==> r == RsaDecrypt(c, Parse(bundle).wrappedKey, priv)
    ensures RsaDecrypt(c, Parse(bundle).wrappedKey, priv).Success? ==>
              (r == Failure(BadNonceEncoding) <==> c.hexDecode(Parse(bundle).nonce).None?)
    ensures RsaDecrypt(c, Parse(bundle).wrappedKey, priv).Success? && c.hexDecode(Parse(bundle).nonce).Some? ==>
              (r == Failure(BadCipherEncoding) <==> c.base64Decode(Parse(bundle).cipher).None?)
    ensures forall key, nonce, cipher ::
              && RsaDecrypt(c, Parse(bundle).wrappedKey, priv) == Success(key)
              && c.hexDecode(Parse(bundle).nonce) == Some(nonce)
              && c.base64Decode(Parse(bundle).cipher) == Some(cipher)
              ==> match c.gcmDecrypt(key, nonce, cipher)
                  case None => r == Failure(AuthenticationFailed)
                  case Some(plain) => r == Success(plain)
  {
    var f := Parse(bundle);
    match RsaDecrypt(c, f.wrappedKey, priv)
    case Failure(e) => Failure(e)
    case Success(aesKey) =>
      match c.hexDecode(f.nonce)
      case None => Failure(BadNonceEncoding)
      case Some(nonce) =>
        match c.base64Decode(f.cipher)
        case None => Failure(BadCipherEncoding)
        case Some(cipher) =>
          match c.gcmDecrypt(aesKey, nonce, cipher)
          case None => Failure(AuthenticationFailed)
          case Some(plain) => Success(plain)
  }

  /** Base64 and hex text holds neither line feeds nor NULs. */
  lemma EncodedFieldsAreLineFree(c: Crypto, b: Bytes)
    requires Base64Laws(c) && HexLaws(c)
    ensures NL !in c.base64Encode(b) && NUL !in c.base64Encode(b)
    ensures NL !in c.hexEncode(b)
  {
  }

  /** Decrypting a bundle with the private key matching the public key it was made
      for returns the plaintext, also when a line feed follows the bundle (as the
      decrypt read loop adds one). */
  lemma EnvelopeRoundTrip(c: Crypto, plaintext: Bytes, priv: RsaPrivateKey, aesKey: Bytes, nonce: Bytes, seed: Bytes)
    requires Lawful(c)
    requires |aesKey| == AesKeyLength && |nonce| == NonceLength
    requires AesKeyLength <= OaepCapacity(PublicOf(priv))
    ensures Envelope(c, plaintext, PublicOf(priv), aesKey, nonce, seed).Success?
    ensures HybridDecrypt(c, Envelope(c, plaintext, PublicOf(priv), aesKey, nonce, seed).value, priv) == Success(plaintext)
    ensures HybridDecrypt(c, Envelope(c, plaintext, PublicOf(priv), aesKey, nonce, seed).value + [NL], priv) == Success(plaintext)
  {
    var wrapped := c.oaepEncrypt(PublicOf(priv), aesKey, seed).value;
    var cipher := c.gcmEncrypt(aesKey, nonce, plaintext);
    var f := Fields(c.base64Encode(wrapped), c.hexEncode(nonce), c.base64Encode(cipher));
    EncodedFieldsAreLineFree(c, wrapped);
    EncodedFieldsAreLineFree(c, nonce);
    EncodedFieldsAreLineFree(c, cipher);
    ParseSerialize(f);
    ParseSerializeNewline(f);
    assert c.base64Decode(f.cipher + [NL]) == c.base64Decode(f.cipher);
  }

  // ---------------- Key file ----------------

  datatype KeyError =
    | OpenForWriteFailed(filename: string)  // "Failed to open <filename> for writing"
    | KeyDecodingFailed                     // PKCS8::load_key rejected the file
    | NotRsa                                // "Loaded key is not RSA"

  /** `generateKey`: a 2048-bit RSA key from the generator's stream. */
  method GenerateKey(c: Crypto, rng: Rng) returns (key: RsaPrivateKey)
    modifies rng
    ensures key == c.rsaGenerate(old(rng.Upcoming()), KeyBits).key
    ensures rng.drawn == old(rng.drawn) + c.rsaGenerate(old(rng.Upcoming()), KeyBits).used
    ensures KeyGenLaws(c) ==> BitLength(key.n) == KeyBits
  {
    var g := c.rsaGenerate(rng.Upcoming(), KeyBits);
    rng.Skip(g.used);
    key := g.key;
  }

  /** `save_rsa_key`: writes the key as unencrypted PKCS#8 PEM, or throws when the
      file cannot be opened for writing. */
  method SaveRsaKey(c: Crypto, key: RsaPrivateKey, store: FileStore, filename: string) returns (r: Outcome<KeyError>)
    modifies store
    ensures r == if filename in store.unwritable then Fail(OpenForWriteFailed(filename)) else Pass
    ensures store.files == if r.Pass? then old(store.files)[filename := c.pemEncode(key)] else old(store.files)
  {
    var pem := c.pemEncode(key);
    var isOpen := store.Write(filename, pem);
    if !isOpen {
      return Fail(OpenForWriteFailed(filename));
    }
    r := Pass;
  }

  /** `load_rsa_key` on the bytes of the key file. */
  function LoadRsaKey(c: Crypto, pem: Bytes): (r: Result<RsaPrivateKey, KeyError>)
    ensures r == Failure(KeyDecodingFailed) <==> c.pemDecode(pem).None?
    ensures r == Failure(NotRsa) <==> c.pemDecode(pem) == Some(OtherAlgorithm)
    ensures forall k :: r == Success(k) <==> c.pemDecode(pem) == Some(Rsa(k))
    ensures PemLaws(c) ==> forall k :: pem == c.pemEncode(k) ==> r == Success(k)
  {
    match c.pemDecode(pem)
    case None => Failure(KeyDecodingFailed)
    case Some(OtherAlgorithm) => Failure(NotRsa)
    case Some(Rsa(k)) => Success(k)
  }

  /** A saved key loads back as the same key. */
  lemma SaveLoadRoundTrip(c: Crypto, key: RsaPrivateKey)
    requires PemLaws(c)
    ensures LoadRsaKey(c, c.pemEncode(key)) == Success(key)
  {
  }

  /** `loadOrGenerateKey`: an existing key file is loaded and nothing is written;
      otherwise a 2048-bit key is generated, saved, and only then returned. */
  method LoadOrGenerateKey(c: Crypto, store: FileStore, filename: string, rng: Rng) returns (r: Result<RsaPrivateKey, KeyError>)
    modifies store, rng
    ensures old(store.Exists(filename)) ==>
              && r == LoadRsaKey(c, old(store.files)[filename])
              && store.files == old(store.files)
              && rng.drawn == old(rng.drawn)
    ensures !old(store.Exists(filename)) ==>
              var g := c.rsaGenerate(old(rng.Upcoming()), KeyBits);
              && rng.drawn == old(rng.drawn) + g.used
              && (filename in store.unwritable ==>
                    r == Failure(OpenForWriteFailed(filename)) && store.files == old(store.files))
              && (filename !in store.unwritable ==>
                    r == Success(g.key) && store.files == old(store.files)[filename := c.pemEncode(g.key)])
  {
    if store.Exists(filename) {
      return LoadRsaKey(c, store.files[filename]);
    }
    var key := GenerateKey(c, rng);
    var saved := SaveRsaKey(c, key, store, filename);
    if saved.Fail? {
      return Failure(saved.error);
    }
    r := Success(key);
  }
}
