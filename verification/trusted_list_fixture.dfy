/** Concrete instances for the signer: the top of the ListOfTrustedLists tree
    that `create_list_of_trusted_lists` builds (the root is the only element
    with an `Id`), and a set of toy primitives under which the SignatureValue
    the code as written produces is rejected by the verifier. */
module TrustedListFixture {
  import opened Wrappers
  import opened XmlTree
  import opened Crypto
  import opened XmlDsig
  import opened EnvelopedValidation

  /** No element of the tree carries an `Id` attribute at all. */
  predicate NoIdAttribute(e: Element)
    decreases e, 1
  {
    Lookup(e.attributes, "Id").None? && NoIdAttributeIn(e.children)
  }

  predicate NoIdAttributeIn(cs: seq<Element>)
    decreases cs, 0
  {
    cs == [] || (NoIdAttribute(cs[0]) && NoIdAttributeIn(cs[1..]))
  }

  lemma {:induction false} NoIdAttributeSubtree(e: Element, id: string)
    requires NoIdAttribute(e)
    ensures forall d :: d in Subtree(e) ==> !HasId(d, id)
    decreases e, 1
  {
    NoIdAttributeForest(e.children, id);
  }

  lemma {:induction false} NoIdAttributeForest(cs: seq<Element>, id: string)
    requires NoIdAttributeIn(cs)
    ensures forall d :: d in Forest(cs) ==> !HasId(d, id)
    decreases cs, 0
  {
    if cs != [] {
      NoIdAttributeSubtree(cs[0], id);
      NoIdAttributeForest(cs[1..], id);
    }
  }

  function Name(lang: string, text: string): Element {
    SetAttribute(TextElement("Name", text), "xml:lang", lang)
  }

  lemma NameLacksId(lang: string, text: string)
    ensures NoIdAttribute(Name(lang, text))
  {
    StoreThenLookup([], "xml:lang", lang, "Id");
  }

  /** The root as lines 72-76 leave it: `ET.Element` and the three namespace
      attributes. */
  function NamespacedRoot(): Element {
    var root := NewElement("ListOfTrustedLists");
    var root := SetAttribute(root, "xmlns", "http://uri.etsi.org/19612/v2.4.1#");
    var root := SetAttribute(root, "xmlns:xsi", "http://www.w3.org/2001/XMLSchema-instance");
    SetAttribute(root, "xsi:schemaLocation",
      "http://uri.etsi.org/19612/v2.4.1# https://forge.etsi.org/rep/esi/x19_612_trusted_lists/-/raw/v2.4.1/19612_sie_xsd.xsd")
  }

  /** The `ListInformation` of lines 80-148, reduced to three children:
      `ListName` holding only the English `Name`, `ListIdentifier` and
      `ListVersion`. */
  function ListInformation(): Element {
    Element("ListInformation", [], None, [
      Element("ListName", [], None, [Name("en", "WeBuild LSP Trusted Lists Registry")]),
      TextElement("ListIdentifier", "WEBUILD-TL-REGISTRY-001"),
      TextElement("ListVersion", "1")])
  }

  /** The `TrustedLists` container of lines 151-182 with one
      `TrustedListPointer` holding `TSLLocation`, `SchemeTerritory` and
      `SequenceNumber`. */
  function TrustedLists(): Element {
    Element("TrustedLists", [], None, [
      Element("TrustedListPointer", [], None, [
        TextElement("TSLLocation", "https://trust.webuildlsp.example.org/tsl/tsl.xml"),
        TextElement("SchemeTerritory", "IT"),
        TextElement("SequenceNumber", "1")])])
  }

  /** The list: the namespaced root, then `set("Id", list_id)`, then the two
      reduced parts above. Every other element that lines 80-182 build is
      left out (the other `Name`s, the dates, `ListOperatorName`,
      `ListOperatorAddress`, `DistributionPoints`, `TSLType`,
      `SchemeOperatorName`, `SchemeName`); none of them carries an `Id`. */
  function ListOfTrustedLists(listId: string): Element {
    var root := SetAttribute(NamespacedRoot(), "Id", listId);
    root.(children := [ListInformation(), TrustedLists()])
  }

  /** The `set("Id", list_id)` of line 77 puts the id on the root. */
  lemma ListCarriesId(listId: string)
    ensures HasId(ListOfTrustedLists(listId), listId)
  {
    StoreThenLookup(NamespacedRoot().attributes, "Id", listId, "Id");
  }

  /** `create_signed_list_of_trusted_lists` signs the list's own `Id`, which is
      on the root; the code as written therefore always raises. */
  lemma SigningTheListFails(p: Primitives, key: KeyMaterial, listId: string)
    requires '\'' !in listId
    ensures SignXmlAsWritten(p, key, ListOfTrustedLists(listId), listId) == Failure(ElementNotFound(listId))
  {
    ListCarriesId(listId);
    ListBodyLacksId(listId);
    RootIdNeverResolves(p, key, ListOfTrustedLists(listId), listId);
  }

  /** Below the root, no element of the list carries the id. */
  lemma ListBodyLacksId(listId: string)
    ensures forall d :: d in Descendants(ListOfTrustedLists(listId)) ==> !HasId(d, listId)
  {
    var body := [ListInformation(), TrustedLists()];
    ListInformationLacksId();
    assert NoIdAttribute(TrustedLists());
    assert body[1..] == [TrustedLists()] && body[1..][1..] == [];
    assert NoIdAttributeIn(body);
    NoIdAttributeForest(body, listId);
  }

  lemma ListInformationLacksId()
    ensures NoIdAttribute(ListInformation())
  {
    NameLacksId("en", "WeBuild LSP Trusted Lists Registry");
  }

  /** With the corrected signer the same flow succeeds, digests the whole
      unsigned list, and the result passes core validation. */
  lemma SigningTheListCorrected(p: Primitives, key: KeyMaterial, listId: string)
    requires MatchingKeyPair(key) && DecodesBase64(p)
    ensures SignXml(p, key, ListOfTrustedLists(listId), listId).Success?
    ensures var doc := SignXml(p, key, ListOfTrustedLists(listId), listId).value;
            && LastChild(doc).children[0].children[2].children[2].text == Some(DigestText(p, ListOfTrustedLists(listId)))
            && ValidatesEnveloped(p, key, doc)
  {
    var root := ListOfTrustedLists(listId);
    ListCarriesId(listId);
    RootIdResolves(p, key, root, listId);
    SignXmlValidates(p, key, root, listId);
  }

  // ---------------------------------------------------------------------
  // A counterexample for the double hash
  // ---------------------------------------------------------------------

  /** A toy encoding of bytes as characters and its inverse. */
  function ToyEncode(b: Bytes): string {
    if b == [] then [] else [b[0] as int as char] + ToyEncode(b[1..])
  }

  function ToyDecode(s: string): Bytes {
    if s == [] then [] else [(if s[0] as int < 256 then s[0] as int else 0) as byte] + ToyDecode(s[1..])
  }

  lemma {:induction false} ToyRoundTrip(b: Bytes)
    ensures ToyDecode(ToyEncode(b)) == b
  {
    if b != [] {
      ToyRoundTrip(b[1..]);
      assert ToyEncode(b)[1..] == ToyEncode(b[1..]);
    }
  }

  /** Serialization and UTF-8 are constant, the "hash" prefixes a byte, and
      base64 is the toy encoding. */
  function ToyPrimitives(): Primitives {
    Primitives(e => "", s => [], b => [1 as byte] + b, ToyEncode, ToyDecode)
  }

  /** Raw RSA replaced by the identity: trivially a matching pair. */
  function IdentityKey(): KeyMaterial {
    KeyMaterial(t => t, t => t, [])
  }

  /** A list whose `ListInformation` child carries the id, so that the code as
      written finds a target. */
  function SampleList(): Element {
    Element("ListOfTrustedLists", [], None, [Element("ListInformation", [Attribute("Id", "info-1")], None, [])])
  }

  /** Under the toy primitives the code as written signs `SampleList` but its
      output fails core validation, while the corrected signer's passes. */
  lemma AsWrittenSignatureRejected()
    ensures SignXmlAsWritten(ToyPrimitives(), IdentityKey(), SampleList(), "info-1").Success?
    ensures !ValidatesEnveloped(ToyPrimitives(), IdentityKey(), SignXmlAsWritten(ToyPrimitives(), IdentityKey(), SampleList(), "info-1").value)
    ensures SignXml(ToyPrimitives(), IdentityKey(), SampleList(), "info-1").Success?
    ensures ValidatesEnveloped(ToyPrimitives(), IdentityKey(), SignXml(ToyPrimitives(), IdentityKey(), SampleList(), "info-1").value)
  {
    var p, key, root := ToyPrimitives(), IdentityKey(), SampleList();
    forall b: Bytes ensures p.base64Decode(p.base64(b)) == b {
      ToyRoundTrip(b);
    }
    assert MatchingKeyPair(key);
    var child := root.children[0];
    assert Descendants(root) == [child] by {
      assert Forest(root.children[1..]) == [];
    }
    assert HasId(child, "info-1");
    assert LocateTarget(root, "info-1") == Success(child);
    var doc := SignXmlAsWritten(p, key, root, "info-1").value;
    var m := SignedInfoBytes(p, LastChild(doc).children[0]);
    assert |p.sha256(p.sha256(m))| != |p.sha256(m)|;
    AsWrittenValidatesOnlyAtHashFixpoint(p, key, root, "info-1");
    SignXmlValidates(p, key, root, "info-1");
  }
}
