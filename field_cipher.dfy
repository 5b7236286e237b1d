/** The field-cipher envelope: a string field is encrypted as
      plaintext --UTF-8--> bytes --RSAES-OAEP--> ciphertext --hex()--> lowercase Base16 text
    and decrypted by the exact inverse. The RSA primitive itself is the `cryptography` library;
    here it is a pair of functions `Rsa`, and its correctness (RSAES-OAEP decryption under the
    matching private key inverts encryption, section 7.1 of RFC 8017) is the hypothesis
    `IsKeyPair` that the lemmas assume. The seed is OAEP's random input, so encryption of equal
    plaintexts may differ. */
module FieldCipher {
  import opened Wrappers
  import opened Text
  import Hex
  import Utf8

  const PrivateKeyPath := "data/private_key.pem"
  const PublicKeyPath := "data/public_key.pem"

  /** Size in bytes of the 2048-bit modulus the keys are generated with. */
  const ModulusBytes := 256

  datatype HashAlgorithm = Sha256

  function DigestSize(h: HashAlgorithm): nat
  {
    match h case Sha256 => 32
  }

  /** Mask generation function MGF1 (appendix B.2.1 of RFC 8017) over a hash. */
  datatype Mgf = Mgf1(hash: HashAlgorithm)

  datatype OaepPadding = OaepPadding(mgf: Mgf, algorithm: HashAlgorithm, oaepLabel: Option<seq<byte>>)

  /** The padding both directions build: MGF1 with SHA-256, SHA-256 digest, no label. */
  const Padding := OaepPadding(Mgf1(Sha256), Sha256, None)

  /** Longest message RSAES-OAEP accepts under `p`: k - 2 hLen - 2 (step 1.b of section 7.1.1 of RFC 8017). */
  function MaxMessageBytes(p: OaepPadding): int
  {
    ModulusBytes - 2 * DigestSize(p.algorithm) - 2
  }

  /** Key material as read from the PEM files; parsing the PEM is not modelled. */
  datatype PublicKey = PublicKey(pem: seq<byte>)
  datatype PrivateKey = PrivateKey(pem: seq<byte>)

  /** OAEP's random seed. */
  type Seed = seq<byte>

  /** The RSA primitive, left uninterpreted: encryption under a public key, and decryption under a
      private key that either yields the message or fails (`None`). */
  datatype Rsa = Rsa(
    encrypt: (PublicKey, OaepPadding, seq<byte>, Seed) -> seq<byte>,
    decrypt: (PrivateKey, OaepPadding, seq<byte>) -> Option<seq<byte>>)

  /** `pk` and `sk` are the two halves of one 2048-bit key pair: every admissible message
      encrypts to `ModulusBytes` bytes and decrypts back under the same padding. */
  ghost predicate IsKeyPair(rsa: Rsa, pk: PublicKey, sk: PrivateKey)
  {
    forall p: OaepPadding, m: seq<byte>, seed: Seed
      :: |m| <= MaxMessageBytes(p) ==>
           |rsa.encrypt(pk, p, m, seed)| == ModulusBytes &&
           rsa.decrypt(sk, p, rsa.encrypt(pk, p, m, seed)) == Some(m)
  }

  /** `sk` belongs to a different key pair than `pk`: it rejects everything `pk` produced. */
  ghost predicate Unrelated(rsa: Rsa, pk: PublicKey, sk: PrivateKey)
  {
    forall p: OaepPadding, m: seq<byte>, seed: Seed :: rsa.decrypt(sk, p, rsa.encrypt(pk, p, m, seed)).None?
  }

  datatype CipherError =
    | KeyNotFound(path: string)   // the key file is missing
    | MessageTooLong              // the UTF-8 plaintext exceeds MaxMessageBytes
    | MalformedHex                // bytes.fromhex rejected the text
    | DecryptionFailed            // wrong length, wrong key or bad padding
    | InvalidUtf8                 // the decrypted bytes do not decode

  /** The primitive together with the key files it reads (path to file contents). */
  datatype Cipher = Cipher(rsa: Rsa, keyFiles: map<string, seq<byte>>)

  /** The key files hold a matching key pair. */
  ghost predicate Sound(c: Cipher)
  {
    PublicKeyPath in c.keyFiles && PrivateKeyPath in c.keyFiles &&
    IsKeyPair(c.rsa, PublicKey(c.keyFiles[PublicKeyPath]), PrivateKey(c.keyFiles[PrivateKeyPath]))
  }

  /** `load_public_key`: a missing file raises. */
  function LoadPublicKey(keyFiles: map<string, seq<byte>>): (r: Result<PublicKey, CipherError>)
    ensures r.Err? <==> PublicKeyPath !in keyFiles
    ensures r.Err? ==> r.error == KeyNotFound(PublicKeyPath)
  {
    if PublicKeyPath in keyFiles then Ok(PublicKey(keyFiles[PublicKeyPath]))
    else Err(KeyNotFound(PublicKeyPath))
  }

  /** `load_private_key`: a missing file raises. */
  function LoadPrivateKey(keyFiles: map<string, seq<byte>>): (r: Result<PrivateKey, CipherError>)
    ensures r.Err? <==> PrivateKeyPath !in keyFiles
    ensures r.Err? ==> r.error == KeyNotFound(PrivateKeyPath)
  {
    if PrivateKeyPath in keyFiles then Ok(PrivateKey(keyFiles[PrivateKeyPath]))
    else Err(KeyNotFound(PrivateKeyPath))
  }

  /** RSAES-OAEP-ENCRYPT: the length check of step 1.b, then the primitive. */
  function OaepEncrypt(rsa: Rsa, pk: PublicKey, p: OaepPadding, m: seq<byte>, seed: Seed): (r: Result<seq<byte>, CipherError>)
    ensures r.Err? <==> |m| > MaxMessageBytes(p)
  {
    if |m| > MaxMessageBytes(p) then Err(MessageTooLong) else Ok(rsa.encrypt(pk, p, m, seed))
  }

  /** RSAES-OAEP-DECRYPT: a ciphertext that is not `ModulusBytes` long is a decryption error
      (step 1.b of section 7.1.2 of RFC 8017); otherwise the primitive decides. */
  function OaepDecrypt(rsa: Rsa, sk: PrivateKey, p: OaepPadding, c: seq<byte>): (r: Result<seq<byte>, CipherError>)
    ensures r.Err? ==> r.error == DecryptionFailed
    ensures |c| != ModulusBytes ==> r.Err?
  {
    if |c| != ModulusBytes then Err(DecryptionFailed)
    else match rsa.decrypt(sk, p, c)
      case None => Err(DecryptionFailed)
      case Some(m) => Ok(m)
  }

  /** `encrypt_data`: load the public key, encrypt the UTF-8 bytes, return lowercase hex. */
  function EncryptData(c: Cipher, seed: Seed, data: string): (r: Result<string, CipherError>)
    ensures r.Ok? <==> PublicKeyPath in c.keyFiles && |Utf8.Encode(data)| <= MaxMessageBytes(Padding)
    ensures PublicKeyPath !in c.keyFiles ==> r == Err(KeyNotFound(PublicKeyPath))
    ensures r.Ok? ==> Hex.IsLowerHex(r.value) && |r.value| % 2 == 0
  {
    var pk :- LoadPublicKey(c.keyFiles);
    var ct :- OaepEncrypt(c.rsa, pk, Padding, Utf8.Encode(data), seed);
    Ok(Hex.ToHex(ct))
  }

  /** `decrypt_data`: load the private key, parse the hex, decrypt, decode UTF-8. Every failure
      is returned as an error; none is replaced by a default value. */
  function DecryptData(c: Cipher, data: string): (r: Result<string, CipherError>)
    ensures PrivateKeyPath !in c.keyFiles ==> r == Err(KeyNotFound(PrivateKeyPath))
    ensures PrivateKeyPath in c.keyFiles && Hex.FromHex(data).None? ==> r == Err(MalformedHex)
    ensures r.Ok? ==> PrivateKeyPath in c.keyFiles && Hex.FromHex(data).Some? &&
                      |Hex.FromHex(data).value| == ModulusBytes
  {
    var sk :- LoadPrivateKey(c.keyFiles);
    var ct :- match Hex.FromHex(data) case Some(b) => Ok(b) case None => Err(MalformedHex);
    var pt :- OaepDecrypt(c.rsa, sk, Padding, ct);
    match Utf8.Decode(pt) case Some(s) => Ok(s) case None => Err(InvalidUtf8)
  }

  /** The field is short enough to encrypt: at most 190 bytes of UTF-8. */
  predicate Fits(s: string)
  {
    |Utf8.Encode(s)| <= MaxMessageBytes(Padding)
  }

  /** With a matching key pair every field that fits encrypts, to exactly 512 hex characters
      (256 ciphertext bytes). */
  lemma EncryptedLength(c: Cipher, seed: Seed, s: string)
    requires Sound(c) && Fits(s)
    ensures EncryptData(c, seed, s).Ok? && |EncryptData(c, seed, s).value| == 2 * ModulusBytes
  {
    var pk := PublicKey(c.keyFiles[PublicKeyPath]);
    var sk := PrivateKey(c.keyFiles[PrivateKeyPath]);
    var m := Utf8.Encode(s);
    assert |c.rsa.encrypt(pk, Padding, m, seed)| == ModulusBytes;
  }

  /** `decrypt_data(encrypt_data(s)) == s` for a matching key pair and any seed. */
  lemma RoundTrip(c: Cipher, seed: Seed, s: string)
    requires Sound(c) && Fits(s)
    ensures EncryptData(c, seed, s).Ok?
    ensures DecryptData(c, EncryptData(c, seed, s).value) == Ok(s)
  {
    var pk := PublicKey(c.keyFiles[PublicKeyPath]);
    var sk := PrivateKey(c.keyFiles[PrivateKeyPath]);
    var m := Utf8.Encode(s);
    var ct := c.rsa.encrypt(pk, Padding, m, seed);
    assert |ct| == ModulusBytes && c.rsa.decrypt(sk, Padding, ct) == Some(m);
    Hex.FromHexToHex(ct);
    Utf8.DecodeEncode(s);
  }

  /** A ciphertext produced under one key pair does not decrypt under an unrelated private key:
      the call fails instead of returning a value. */
  lemma KeyMismatchFails(c: Cipher, other: Cipher, seed: Seed, s: string)
    requires PublicKeyPath in c.keyFiles && PrivateKeyPath in other.keyFiles && other.rsa == c.rsa
    requires Unrelated(c.rsa, PublicKey(c.keyFiles[PublicKeyPath]), PrivateKey(other.keyFiles[PrivateKeyPath]))
    requires Fits(s)
    ensures EncryptData(c, seed, s).Ok?
    ensures DecryptData(other, EncryptData(c, seed, s).value) == Err(DecryptionFailed)
  {
    var pk := PublicKey(c.keyFiles[PublicKeyPath]);
    var ct := c.rsa.encrypt(pk, Padding, Utf8.Encode(s), seed);
    assert c.rsa.decrypt(PrivateKey(other.keyFiles[PrivateKeyPath]), Padding, ct).None?;
    Hex.FromHexToHex(ct);
  }
}
