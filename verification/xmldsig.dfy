/** The enveloped XML signature that `ListOfTrustedListsSigner.sign_xml`
    attaches to an ETSI TS 119 612 list: the target lookup and digest of
    `_calculate_digest`, the fixed `Signature`/`SignedInfo`/`Reference` tree of
    the W3C XML Signature recommendation, the SignatureValue of
    `_calculate_signature`, and the attachment as the root's last child.

    Two computations differ from what the recommendation requires, and each is
    modelled twice: as written (`LocateTarget`, `SignatureBytesAsWritten`,
    `SignXmlAsWritten`) and corrected (`LocateTargetCorrected`,
    `SignatureBytes`, `SignXml`). */
module XmlDsig {
  import opened Wrappers
  import opened XmlTree
  import opened Crypto

  const XmlDsigNamespace := "http://www.w3.org/2000/09/xmldsig#"
  const ExcC14nUri := "http://www.w3.org/2001/10/xml-exc-c14n#"
  const RsaSha256Uri := "http://www.w3.org/2001/04/xmldsig-more#rsa-sha256"
  const EnvelopedSignatureUri := "http://www.w3.org/2000/09/xmldsig#enveloped-signature"
  const Sha256DigestUri := "http://www.w3.org/2001/04/xmlenc#sha256"

  datatype SignError =
      /** ElementTree's path compiler raises `SyntaxError("invalid predicate")`
          when the id contains `'`, since it ends the quoted literal early. */
    | InvalidPredicate
      /** The `ValueError` of `_calculate_digest`: no element carries the id. */
    | ElementNotFound(referenceId: string)

  // ---------------------------------------------------------------------
  // The target and its digest
  // ---------------------------------------------------------------------

  /** The lookup of `_calculate_digest` as written: `find` with the
      descendant-only path, then a `ValueError` when nothing matched. */
  function LocateTarget(root: Element, id: string): (r: Result<Element, SignError>)
    ensures '\'' in id ==> r == Failure(InvalidPredicate)
    ensures '\'' !in id && r.Failure? ==> r.error == ElementNotFound(id)
    ensures '\'' !in id ==> (r.Failure? <==> forall d :: d in Descendants(root) ==> !HasId(d, id))
    ensures r.Success? ==> HasId(r.value, id) && r.value in Descendants(root) && r.value != root
  {
    if '\'' in id then Failure(InvalidPredicate)
    else match FindDescendantById(root, id)
      case None => Failure(ElementNotFound(id))
      case Some(t) => FindNeverReturnsRoot(root, id); Success(t)
  }

  /** The corrected lookup: the first element of `root.iter()` (the root
      itself, then its descendants) whose `Id` equals the id, compared directly
      rather than through a path string. */
  function LocateTargetCorrected(root: Element, id: string): (r: Result<Element, SignError>)
    ensures HasId(root, id) ==> r == Success(root)
    ensures r.Failure? <==> !HasId(root, id) && forall d :: d in Descendants(root) ==> !HasId(d, id)
    ensures r.Failure? ==> r.error == ElementNotFound(id)
    ensures r.Success? ==> HasId(r.value, id) && r.value in Subtree(root)
  {
    SelfOrDescendantCases(root, id);
    match FindSelfOrDescendantById(root, id)
    case None => Failure(ElementNotFound(id))
    case Some(t) => Success(t)
  }

  /** The DigestValue text of an element: base64 of the SHA-256 of the UTF-8
      bytes of its `ET.tostring` serialization. */
  function DigestText(p: Primitives, target: Element): (r: string)
    ensures DecodesBase64(p) ==> p.base64Decode(r) == p.sha256(p.utf8(p.serialize(target)))
  {
    p.base64(p.sha256(p.utf8(p.serialize(target))))
  }

  /** `_calculate_digest` as written: the digest of a proper descendant that
      carries the id, or the lookup's error. */
  function CalculateDigest(p: Primitives, root: Element, id: string): (r: Result<string, SignError>)
    ensures '\'' in id ==> r == Failure(InvalidPredicate)
    ensures '\'' !in id ==> (r.Failure? <==> forall d :: d in Descendants(root) ==> !HasId(d, id))
    ensures '\'' !in id && r.Failure? ==> r.error == ElementNotFound(id)
    ensures r.Success? ==> var t := LocateTarget(root, id).value;
                           t in Descendants(root) && t != root && HasId(t, id) && r.value == DigestText(p, t)
  {
    var target :- LocateTarget(root, id);
    Success(DigestText(p, target))
  }

  /** `_calculate_digest` with the corrected lookup: the root's own digest
      when it carries the id, otherwise that of a descendant that does. */
  function CalculateDigestCorrected(p: Primitives, root: Element, id: string): (r: Result<string, SignError>)
    ensures HasId(root, id) ==> r == Success(DigestText(p, root))
    ensures r.Failure? <==> LocateTargetCorrected(root, id).Failure?
    ensures r.Failure? ==> r.error == ElementNotFound(id)
    ensures r.Success? ==> var t := LocateTargetCorrected(root, id).value;
                           t in Subtree(root) && HasId(t, id) && r.value == DigestText(p, t)
  {
    var target :- LocateTargetCorrected(root, id);
    Success(DigestText(p, target))
  }

  // ---------------------------------------------------------------------
  // The SignatureValue
  // ---------------------------------------------------------------------

  /** The bytes `_calculate_signature` signs over: the UTF-8 serialization of
      the whole `SignedInfo` element. */
  function SignedInfoBytes(p: Primitives, signedInfo: Element): Bytes {
    p.utf8(p.serialize(signedInfo))
  }

  /** `_calculate_signature` as written: it hashes the serialized `SignedInfo`
      itself, then hands the hash to a PKCS#1 v1.5 sign call that is told to
      hash with SHA-256 again. Under a matching key pair the verifier accepts
      the result for the `SignedInfo` bytes only when SHA-256 maps their hash
      to itself. */
  function SignatureBytesAsWritten(p: Primitives, key: KeyMaterial, signedInfo: Element): (r: Bytes)
    ensures var m := SignedInfoBytes(p, signedInfo);
            MatchingKeyPair(key) ==> (RsassaVerify(p, key, m, r) <==> p.sha256(p.sha256(m)) == p.sha256(m))
  {
    var digestBytes := p.sha256(SignedInfoBytes(p, signedInfo));
    VerifyAcceptsIffSameHash(p, key, digestBytes, SignedInfoBytes(p, signedInfo));
    RsassaSign(p, key, digestBytes)
  }

  /** The corrected signature: RSASSA-PKCS1-v1_5 with SHA-256 over the
      serialized `SignedInfo`, hashed once by the sign call; under a matching
      key pair the verifier accepts it for those bytes. */
  function SignatureBytes(p: Primitives, key: KeyMaterial, signedInfo: Element): (r: Bytes)
    ensures MatchingKeyPair(key) ==> RsassaVerify(p, key, SignedInfoBytes(p, signedInfo), r)
  {
    VerifyAcceptsIffSameHash(p, key, SignedInfoBytes(p, signedInfo), SignedInfoBytes(p, signedInfo));
    RsassaSign(p, key, SignedInfoBytes(p, signedInfo))
  }

  /** The X509Certificate text: base64 of the certificate's DER bytes. */
  function CertificateText(p: Primitives, key: KeyMaterial): string {
    p.base64(key.certificateDer)
  }

  // ---------------------------------------------------------------------
  // The Signature tree
  // ---------------------------------------------------------------------

  /** `ET.SubElement(parent, tag).set("Algorithm", uri)`, before the append. */
  function AlgorithmElement(tag: string, uri: string): Element {
    SetAttribute(NewElement(tag), "Algorithm", uri)
  }

  /** A child element whose only content is `text`. */
  function TextElement(tag: string, text: string): Element {
    NewElement(tag).(text := Some(text))
  }

  /** The Reference as it stands before the digest is known: the `URI`
      attribute, `Transforms` with the enveloped-signature transform, and
      `DigestMethod`. */
  function ReferenceSkeleton(id: string): Element {
    var reference := SetAttribute(NewElement("Reference"), "URI", "#" + id);
    var transforms := AppendChild(NewElement("Transforms"), AlgorithmElement("Transform", EnvelopedSignatureUri));
    AppendChild(AppendChild(reference, transforms), AlgorithmElement("DigestMethod", Sha256DigestUri))
  }

  /** `SignedInfo` with its two algorithm elements and the completed Reference. */
  function BuildSignedInfo(reference: Element): Element {
    var signedInfo := NewElement("SignedInfo");
    var signedInfo := AppendChild(signedInfo, AlgorithmElement("CanonicalizationMethod", ExcC14nUri));
    var signedInfo := AppendChild(signedInfo, AlgorithmElement("SignatureMethod", RsaSha256Uri));
    AppendChild(signedInfo, reference)
  }

  /** `KeyInfo/X509Data/X509Certificate`. */
  function BuildKeyInfo(certificate: string): Element {
    AppendChild(NewElement("KeyInfo"), AppendChild(NewElement("X509Data"), TextElement("X509Certificate", certificate)))
  }

  /** The `Signature` element in the default XML Signature namespace. */
  function BuildSignature(signedInfo: Element, signatureValue: string, certificate: string): Element {
    var signature := SetAttribute(NewElement("Signature"), "xmlns", XmlDsigNamespace);
    var signature := AppendChild(signature, signedInfo);
    var signature := AppendChild(signature, TextElement("SignatureValue", signatureValue));
    AppendChild(signature, BuildKeyInfo(certificate))
  }

  /** The body of `sign_xml` (lines 188-237), given the digest computation and
      the SignatureValue computation, the two parts in which the code as written
      and its corrected form differ. The digest is computed on `root` before
      anything is attached to it, the DigestValue is inserted before
      `SignedInfo` is signed, and the only change to `root` is the final append. */
  function SignWith(root: Element, id: string, digest: Result<string, SignError>,
                    signatureValue: Element -> string, certificate: string): Result<Element, SignError>
  {
    var reference := ReferenceSkeleton(id);
    var digestText :- digest;
    var signedInfo := BuildSignedInfo(AppendChild(reference, TextElement("DigestValue", digestText)));
    var signature := BuildSignature(signedInfo, signatureValue(signedInfo), certificate);
    Success(AppendChild(root, signature))
  }

  // ---------------------------------------------------------------------
  // The shape of the result, stated by position
  // ---------------------------------------------------------------------

  /** `<tag Algorithm="uri"/>`. */
  predicate IsAlgorithm(e: Element, tag: string, uri: string) {
    e.tag == tag && e.attributes == [Attribute("Algorithm", uri)] && e.text.None? && e.children == []
  }

  /** `<tag>text</tag>`. */
  predicate IsTextLeaf(e: Element, tag: string, text: string) {
    e.tag == tag && e.attributes == [] && e.text == Some(text) && e.children == []
  }

  /** The Reference of section 4.3.3 of XML Signature: URI `#id`, the
      enveloped-signature transform (section 6.6.4), SHA-256 as digest method,
      and the digest value, in that order. */
  predicate IsReference(e: Element, id: string, digest: string) {
    && e.tag == "Reference" && e.attributes == [Attribute("URI", "#" + id)] && e.text.None?
    && |e.children| == 3
    && e.children[0].tag == "Transforms" && e.children[0].attributes == [] && e.children[0].text.None?
    && |e.children[0].children| == 1
    && IsAlgorithm(e.children[0].children[0], "Transform", EnvelopedSignatureUri)
    && IsAlgorithm(e.children[1], "DigestMethod", Sha256DigestUri)
    && IsTextLeaf(e.children[2], "DigestValue", digest)
  }

  /** `SignedInfo` with exactly three children: CanonicalizationMethod
      (exclusive c14n), SignatureMethod (rsa-sha256) and the Reference. */
  predicate IsSignedInfo(e: Element, id: string, digest: string) {
    && e.tag == "SignedInfo" && e.attributes == [] && e.text.None?
    && |e.children| == 3
    && IsAlgorithm(e.children[0], "CanonicalizationMethod", ExcC14nUri)
    && IsAlgorithm(e.children[1], "SignatureMethod", RsaSha256Uri)
    && IsReference(e.children[2], id, digest)
  }

  /** `KeyInfo/X509Data/X509Certificate` holding `certificate`. */
  predicate IsKeyInfo(e: Element, certificate: string) {
    && e.tag == "KeyInfo" && e.attributes == [] && e.text.None? && |e.children| == 1
    && e.children[0].tag == "X509Data" && e.children[0].attributes == [] && e.children[0].text.None?
    && |e.children[0].children| == 1
    && IsTextLeaf(e.children[0].children[0], "X509Certificate", certificate)
  }

  /** The `Signature` element: exactly `SignedInfo`, `SignatureValue` and
      `KeyInfo`, in that order, where the SignatureValue is `signatureValue`
      applied to the `SignedInfo` that is actually in the tree. */
  predicate IsSignature(e: Element, id: string, digest: string, signatureValue: Element -> string, certificate: string) {
    && e.tag == "Signature" && e.attributes == [Attribute("xmlns", XmlDsigNamespace)] && e.text.None?
    && |e.children| == 3
    && IsSignedInfo(e.children[0], id, digest)
    && IsTextLeaf(e.children[1], "SignatureValue", signatureValue(e.children[0]))
    && IsKeyInfo(e.children[2], certificate)
  }

  /** `doc` is `root` with one more child, `signature`, at the end: tag,
      attributes, text and the earlier children are unchanged. */
  predicate EnvelopedIn(root: Element, doc: Element, signature: Element) {
    && doc.tag == root.tag && doc.attributes == root.attributes && doc.text == root.text
    && doc.children == root.children + [signature]
  }

  /** The last child of an element that has one. */
  function LastChild(e: Element): Element
    requires e.children != []
  {
    e.children[|e.children| - 1]
  }

  /** What `sign_xml` promises, for either variant: it fails exactly when the
      digest does, with the same error; otherwise the result is `root` with a
      `Signature` of the fixed shape appended as its last child, carrying the
      digest computed on the unsigned `root`. */
  lemma SignWithShape(root: Element, id: string, digest: Result<string, SignError>,
                      signatureValue: Element -> string, certificate: string)
    ensures SignWith(root, id, digest, signatureValue, certificate).Failure? <==> digest.Failure?
    ensures digest.Failure? ==> SignWith(root, id, digest, signatureValue, certificate) == Failure(digest.error)
    ensures digest.Success? ==>
      var doc := SignWith(root, id, digest, signatureValue, certificate).value;
      && doc.children != []
      && EnvelopedIn(root, doc, LastChild(doc))
      && IsSignature(LastChild(doc), id, digest.value, signatureValue, certificate)
  {
    if digest.Success? {
      var reference := AppendChild(ReferenceSkeleton(id), TextElement("DigestValue", digest.value));
      var signedInfo := BuildSignedInfo(reference);
      var signature := BuildSignature(signedInfo, signatureValue(signedInfo), certificate);
      assert IsReference(reference, id, digest.value);
      assert IsSignedInfo(signedInfo, id, digest.value);
      assert IsKeyInfo(BuildKeyInfo(certificate), certificate);
      assert signature.children[0] == signedInfo;
      assert IsSignature(signature, id, digest.value, signatureValue, certificate);
    }
  }

  /** `sign_xml` as written. It raises exactly when the lookup does; otherwise
      `root` gains a `Signature` of the fixed shape as its last child, whose
      DigestValue is the digest of the target found in the unsigned `root` and
      whose SignatureValue is computed over the `SignedInfo` in the result. */
  function SignXmlAsWritten(p: Primitives, key: KeyMaterial, root: Element, id: string): (r: Result<Element, SignError>)
    ensures r.Failure? <==> LocateTarget(root, id).Failure?
    ensures r.Failure? ==> r.error == LocateTarget(root, id).error
    ensures r.Success? ==>
      && r.value.children != []
      && EnvelopedIn(root, r.value, LastChild(r.value))
      && IsSignature(LastChild(r.value), id, DigestText(p, LocateTarget(root, id).value),
                     si => p.base64(SignatureBytesAsWritten(p, key, si)), CertificateText(p, key))
  {
    var signatureValue := si => p.base64(SignatureBytesAsWritten(p, key, si));
    SignWithShape(root, id, CalculateDigest(p, root, id), signatureValue, CertificateText(p, key));
    SignWith(root, id, CalculateDigest(p, root, id), signatureValue, CertificateText(p, key))
  }

  /** `sign_xml` with both defects corrected: the root may be the target and
      the `SignedInfo` bytes are hashed once. Same shape and order as
      `SignXmlAsWritten`. */
  function SignXml(p: Primitives, key: KeyMaterial, root: Element, id: string): (r: Result<Element, SignError>)
    ensures r.Failure? <==> LocateTargetCorrected(root, id).Failure?
    ensures r.Failure? ==> r.error == ElementNotFound(id)
    ensures r.Success? ==>
      && r.value.children != []
      && EnvelopedIn(root, r.value, LastChild(r.value))
      && IsSignature(LastChild(r.value), id, DigestText(p, LocateTargetCorrected(root, id).value),
                     si => p.base64(SignatureBytes(p, key, si)), CertificateText(p, key))
  {
    var signatureValue := si => p.base64(SignatureBytes(p, key, si));
    SignWithShape(root, id, CalculateDigestCorrected(p, root, id), signatureValue, CertificateText(p, key));
    SignWith(root, id, CalculateDigestCorrected(p, root, id), signatureValue, CertificateText(p, key))
  }
}
