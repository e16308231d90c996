/** The foreign primitives the signer calls: `ET.tostring`, UTF-8 encoding,
    SHA-256, base64 and the RSA private key. They are carried as opaque
    function values; no cryptographic fact about them is assumed beyond what a
    member states as a hypothesis (a `requires` or the left side of an `==>`
    in its `ensures`). The one concrete piece is the DigestInfo
    step of EMSA-PKCS1-v1_5 with SHA-256 (step 2 in section 9.2 of RFC 8017),
    which fixes how a message reaches the key; the padding (steps 3-5) and the
    RSA primitive are the key's opaque operation. */
module Crypto {
  import opened XmlTree

  newtype byte = x: int | 0 <= x < 256

  type Bytes = seq<byte>

  /** `serialize` is `ET.tostring(e, encoding='unicode')`, `utf8` is
      `str.encode('utf-8')`, `sha256` is `hashes.Hash(hashes.SHA256())`
      updated once and finalized, `base64` is `base64.b64encode(…).decode('utf-8')`,
      and `base64Decode` is the verifier's inverse of `base64`. */
  datatype Primitives = Primitives(
    serialize: Element -> string,
    utf8: string -> Bytes,
    sha256: Bytes -> Bytes,
    base64: Bytes -> string,
    base64Decode: string -> Bytes)

  /** Base64 decoding undoes base64 encoding. */
  ghost predicate DecodesBase64(p: Primitives) {
    forall b :: p.base64Decode(p.base64(b)) == b
  }

  /** An RSA key pair with its certificate. `privateOp` takes the DER
      DigestInfo `T`, applies the EMSA-PKCS1-v1_5 padding for the key's
      modulus and the RSA signature primitive; `publicOp` is the verifier's
      side (the RSA verification primitive, then removal of the padding).
      `certificateDer` is `certificate.public_bytes(Encoding.DER)`. */
  datatype KeyMaterial = KeyMaterial(privateOp: Bytes -> Bytes, publicOp: Bytes -> Bytes, certificateDer: Bytes)

  /** The public half recovers what the private half signed. */
  ghost predicate MatchingKeyPair(key: KeyMaterial) {
    forall t :: key.publicOp(key.privateOp(t)) == t
  }

  /** The DER prefix of a SHA-256 DigestInfo (note 1 of section 9.2 of RFC 8017). */
  const Sha256DigestInfoPrefix: Bytes :=
    [0x30, 0x31, 0x30, 0x0d, 0x06, 0x09, 0x60, 0x86, 0x48, 0x01, 0x65, 0x03, 0x04, 0x02, 0x01, 0x05, 0x00, 0x04, 0x20]

  /** Step 2 of EMSA-PKCS1-v1_5-ENCODE: the DigestInfo of the message's SHA-256 hash. */
  function DigestInfo(p: Primitives, message: Bytes): Bytes {
    Sha256DigestInfoPrefix + p.sha256(message)
  }

  /** RSASSA-PKCS1-V1_5-SIGN with SHA-256 (section 8.2.1 of RFC 8017). This is
      also what `private_key.sign(data, padding.PKCS1v15(), hashes.SHA256())`
      computes: the library hashes `data` itself. */
  function RsassaSign(p: Primitives, key: KeyMaterial, message: Bytes): (r: Bytes)
    ensures MatchingKeyPair(key) ==> RsassaVerify(p, key, message, r)
  {
    key.privateOp(DigestInfo(p, message))
  }

  /** RSASSA-PKCS1-V1_5-VERIFY with SHA-256 (section 8.2.2 of RFC 8017). */
  predicate RsassaVerify(p: Primitives, key: KeyMaterial, message: Bytes, signature: Bytes) {
    key.publicOp(signature) == DigestInfo(p, message)
  }

  /** A signature of `signed` is accepted for `message` exactly when the two
      have the same SHA-256 hash. */
  lemma VerifyAcceptsIffSameHash(p: Primitives, key: KeyMaterial, signed: Bytes, message: Bytes)
    ensures MatchingKeyPair(key) ==>
      (RsassaVerify(p, key, message, RsassaSign(p, key, signed)) <==> p.sha256(signed) == p.sha256(message))
  {
    if MatchingKeyPair(key) {
      var n := |Sha256DigestInfoPrefix|;
      assert DigestInfo(p, signed)[n..] == p.sha256(signed);
      assert DigestInfo(p, message)[n..] == p.sha256(message);
    }
  }
}
