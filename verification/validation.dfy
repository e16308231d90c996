/** The verifier's side of the enveloped signature, and what it says about the
    two variants of `sign_xml`. Core validation (section 3.2 of XML Signature)
    is modelled with the same `ET.tostring` serialization the signer uses in
    place of canonicalization, and with the enveloped-signature transform
    (section 6.6.4) specialised to a signature that is the root's last child. */
module EnvelopedValidation {
  import opened Wrappers
  import opened XmlTree
  import opened Crypto
  import opened XmlDsig

  /** The id named by a same-document reference `URI="#id"`. */
  function ReferencedId(reference: Element): (r: Option<string>)
    ensures r.Some? ==> Lookup(reference.attributes, "URI") == Some("#" + r.value)
  {
    match Lookup(reference.attributes, "URI")
    case Some(uri) =>
      if |uri| > 0 && uri[0] == '#' then
        assert uri == "#" + uri[1..];
        Some(uri[1..])
      else None
    case None => None
  }

  /** The enveloped-signature transform applied to the referenced element of
      `doc`: when the reference is `doc` itself, its last child (the Signature
      being checked) is removed; any other element does not contain it. */
  function EnvelopedTransform(doc: Element, target: Element): Element
    requires doc.children != []
  {
    if target == doc then doc.(children := doc.children[..|doc.children| - 1]) else target
  }

  /** Reference validation: the one declared transform is the enveloped
      signature, the referenced element exists, and the digest of its
      transformed form equals the recorded DigestValue. */
  predicate ReferenceValidates(p: Primitives, doc: Element, reference: Element)
    requires doc.children != []
  {
    && |reference.children| == 3
    && reference.children[0].tag == "Transforms"
    && |reference.children[0].children| == 1
    && IsAlgorithm(reference.children[0].children[0], "Transform", EnvelopedSignatureUri)
    && IsAlgorithm(reference.children[1], "DigestMethod", Sha256DigestUri)
    && ReferencedId(reference).Some?
    && var target := FindSelfOrDescendantById(doc, ReferencedId(reference).value);
       && target.Some?
       && reference.children[2].text == Some(DigestText(p, EnvelopedTransform(doc, target.value)))
  }

  /** Signature validation: the decoded SignatureValue is an RSASSA-PKCS1-v1_5
      SHA-256 signature of the serialized `SignedInfo`. */
  predicate SignatureValueValidates(p: Primitives, key: KeyMaterial, signature: Element)
    requires |signature.children| >= 2
  {
    && |signature.children[0].children| == 3
    && IsAlgorithm(signature.children[0].children[1], "SignatureMethod", RsaSha256Uri)
    && signature.children[1].text.Some?
    && RsassaVerify(p, key, SignedInfoBytes(p, signature.children[0]), p.base64Decode(signature.children[1].text.value))
  }

  /** Core validation of the Signature that is the last child of `doc`. */
  predicate ValidatesEnveloped(p: Primitives, key: KeyMaterial, doc: Element) {
    && doc.children != []
    && var signature := LastChild(doc);
       && signature.tag == "Signature"
       && |signature.children| >= 2
       && SignatureValueValidates(p, key, signature)
       && ReferenceValidates(p, doc, signature.children[0].children[2])
  }

  /** The Reference of a `Signature` of the fixed shape names its id. */
  lemma ReferencedIdOfShape(signature: Element, id: string, digest: string, signatureValue: Element -> string, certificate: string)
    requires IsSignature(signature, id, digest, signatureValue, certificate)
    ensures ReferencedId(signature.children[0].children[2]) == Some(id)
  {
    assert ("#" + id)[1..] == id;
  }

  /** After an append the descendant-or-self lookup on the new document finds
      the element the corrected lookup found on the old one, and the
      enveloped-signature transform turns it back into what was digested. */
  lemma TargetSurvivesAppend(root: Element, doc: Element, signature: Element, id: string)
    requires EnvelopedIn(root, doc, signature)
    requires LocateTargetCorrected(root, id).Success?
    ensures FindSelfOrDescendantById(doc, id).Some?
    ensures EnvelopedTransform(doc, FindSelfOrDescendantById(doc, id).value) == LocateTargetCorrected(root, id).value
  {
    assert doc == AppendChild(root, signature);
    SelfOrDescendantCases(root, id);
    SelfOrDescendantCases(doc, id);
    if HasId(root, id) {
      assert HasId(doc, id);
      assert doc.children[..|doc.children| - 1] == root.children;
    } else {
      FindAfterAppend(root, signature, id);
      RootNotADescendant(doc);
    }
  }

  /** Round trip of the corrected signer: with a matching key pair and a
      base64 decoder that undoes the encoder, whenever some element of
      `root.iter()` carries the id, `SignXml` succeeds and the document it
      produces passes core validation. */
  lemma SignXmlValidates(p: Primitives, key: KeyMaterial, root: Element, id: string)
    requires MatchingKeyPair(key) && DecodesBase64(p)
    requires FindSelfOrDescendantById(root, id).Some?
    ensures SignXml(p, key, root, id).Success?
    ensures ValidatesEnveloped(p, key, SignXml(p, key, root, id).value)
  {
    SelfOrDescendantCases(root, id);
    var doc := SignXml(p, key, root, id).value;
    var signature := LastChild(doc);
    var signedInfo := signature.children[0];
    ReferencedIdOfShape(signature, id, DigestText(p, LocateTargetCorrected(root, id).value),
                        si => p.base64(SignatureBytes(p, key, si)), CertificateText(p, key));
    TargetSurvivesAppend(root, doc, signature, id);
    assert p.base64Decode(signature.children[1].text.value) == SignatureBytes(p, key, signedInfo);
  }

  /** Core validation of a document that is `root` plus a Signature of the
      fixed shape comes down to two checks: the SignatureValue verifies
      against the serialized `SignedInfo`, and the id resolves in the document
      to an element whose transformed digest is the recorded one. */
  lemma ShapeValidates(p: Primitives, key: KeyMaterial, root: Element, doc: Element, id: string,
                       digest: string, signatureValue: Element -> string, certificate: string)
    requires doc.children != [] && EnvelopedIn(root, doc, LastChild(doc))
    requires IsSignature(LastChild(doc), id, digest, signatureValue, certificate)
    ensures var signedInfo := LastChild(doc).children[0];
            var target := FindSelfOrDescendantById(doc, id);
            ValidatesEnveloped(p, key, doc) <==>
              && RsassaVerify(p, key, SignedInfoBytes(p, signedInfo), p.base64Decode(signatureValue(signedInfo)))
              && target.Some?
              && digest == DigestText(p, EnvelopedTransform(doc, target.value))
  {
    ReferencedIdOfShape(LastChild(doc), id, digest, signatureValue, certificate);
  }

  /** What the code as written produces validates only if SHA-256 maps the
      hash of the serialized `SignedInfo` to itself; when the root does not
      carry the id as well, that condition is also sufficient. */
  lemma AsWrittenValidatesOnlyAtHashFixpoint(p: Primitives, key: KeyMaterial, root: Element, id: string)
    requires MatchingKeyPair(key) && DecodesBase64(p)
    requires SignXmlAsWritten(p, key, root, id).Success?
    ensures var doc := SignXmlAsWritten(p, key, root, id).value;
            var m := SignedInfoBytes(p, LastChild(doc).children[0]);
            && (ValidatesEnveloped(p, key, doc) ==> p.sha256(p.sha256(m)) == p.sha256(m))
            && (!HasId(root, id) ==> (ValidatesEnveloped(p, key, doc) <==> p.sha256(p.sha256(m)) == p.sha256(m)))
  {
    var doc := SignXmlAsWritten(p, key, root, id).value;
    var signatureValue := si => p.base64(SignatureBytesAsWritten(p, key, si));
    var digest := DigestText(p, LocateTarget(root, id).value);
    var signedInfo := LastChild(doc).children[0];
    ShapeValidates(p, key, root, doc, id, digest, signatureValue, CertificateText(p, key));
    assert p.base64Decode(signatureValue(signedInfo)) == SignatureBytesAsWritten(p, key, signedInfo);
    if !HasId(root, id) {
      assert doc == AppendChild(root, LastChild(doc));
      AsWrittenTargetSurvivesAppend(root, LastChild(doc), id);
    }
  }

  /** When the root does not carry the id, the target the code as written
      digests is also what the verifier's lookup finds after the append. */
  lemma AsWrittenTargetSurvivesAppend(root: Element, signature: Element, id: string)
    requires LocateTarget(root, id).Success? && !HasId(root, id)
    ensures var doc := AppendChild(root, signature);
            && FindSelfOrDescendantById(doc, id).Some?
            && EnvelopedTransform(doc, FindSelfOrDescendantById(doc, id).value) == LocateTarget(root, id).value
  {
    SelfOrDescendantCases(root, id);
    assert LocateTargetCorrected(root, id) == LocateTarget(root, id);
    TargetSurvivesAppend(root, AppendChild(root, signature), signature, id);
  }

  /** The code as written cannot sign a tree in which only the root carries
      the id: the descendant-only lookup raises `ElementNotFound`, or
      `InvalidPredicate` for an id containing a quote. */
  lemma RootIdNeverResolves(p: Primitives, key: KeyMaterial, root: Element, id: string)
    requires HasId(root, id)
    requires forall d :: d in Descendants(root) ==> !HasId(d, id)
    ensures SignXmlAsWritten(p, key, root, id).Failure?
    ensures '\'' !in id ==> SignXmlAsWritten(p, key, root, id) == Failure(ElementNotFound(id))
  {
  }

  /** The corrected signer signs the root's own id: the DigestValue is the
      digest of the whole unsigned root. */
  lemma RootIdResolves(p: Primitives, key: KeyMaterial, root: Element, id: string)
    requires HasId(root, id)
    ensures SignXml(p, key, root, id).Success?
    ensures var doc := SignXml(p, key, root, id).value;
            LastChild(doc).children[0].children[2].children[2].text == Some(DigestText(p, root))
  {
  }

  /** Nothing guards against signing twice: a second call on the result of the
      first finds the same target and appends a second, identical `Signature`. */
  lemma SigningTwiceAppendsTwoSignatures(p: Primitives, key: KeyMaterial, root: Element, id: string)
    requires SignXmlAsWritten(p, key, root, id).Success?
    ensures var once := SignXmlAsWritten(p, key, root, id).value;
            && SignXmlAsWritten(p, key, once, id).Success?
            && var twice := SignXmlAsWritten(p, key, once, id).value;
               && twice.children == root.children + [LastChild(once), LastChild(once)]
               && LastChild(once).tag == "Signature"
  {
    var once := SignXmlAsWritten(p, key, root, id).value;
    var digest := CalculateDigest(p, root, id);
    var signatureValue := si => p.base64(SignatureBytesAsWritten(p, key, si));
    var signature := LastChild(once);
    assert once == AppendChild(root, signature);
    DigestSurvivesAppend(p, root, signature, id);
    SignWithSameSignature(root, once, id, digest, signatureValue, CertificateText(p, key));
    var twice := SignXmlAsWritten(p, key, once, id).value;
    assert twice.children == once.children + [signature];
    assert root.children + [signature] + [signature] == root.children + [signature, signature];
  }

  /** Once the lookup has found a target, appending a child leaves the digest
      of the code as written unchanged. */
  lemma DigestSurvivesAppend(p: Primitives, root: Element, child: Element, id: string)
    requires LocateTarget(root, id).Success?
    ensures CalculateDigest(p, AppendChild(root, child), id) == CalculateDigest(p, root, id)
  {
    FindAfterAppend(root, child, id);
    assert LocateTarget(AppendChild(root, child), id) == LocateTarget(root, id);
  }

  /** The Signature `sign_xml` appends depends on the digest and the key, not
      on the rest of the tree it is appended to. */
  lemma SignWithSameSignature(a: Element, b: Element, id: string, digest: Result<string, SignError>,
                              signatureValue: Element -> string, certificate: string)
    requires digest.Success?
    ensures SignWith(b, id, digest, signatureValue, certificate)
         == Success(AppendChild(b, LastChild(SignWith(a, id, digest, signatureValue, certificate).value)))
  {
  }
}
