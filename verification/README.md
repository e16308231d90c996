# Enveloped XML signing of a List of Trusted Lists, and the PDF-to-Markdown renderer

This project models two parts of the WeBuild LSP tooling in Dafny.

**The signer.** The core is `ListOfTrustedListsSigner.sign_xml` with its helpers `_calculate_digest` and `_calculate_signature`. The signer attaches an enveloped XML Signature (W3C XML Signature Syntax and Processing) to an ETSI TS 119 612 `ListOfTrustedLists` tree.

- `XmlTree` models the ElementTree elements the signer builds:
  - tag, insertion-ordered attributes, optional text, ordered children;
  - `set`, `get` and `append`;
  - document-order iteration;
  - the `find` lookup `descendant::*[@Id='…']`.
- `Crypto` models the foreign primitives. `ET.tostring`, UTF-8, SHA-256, base64 and the RSA key are uninterpreted function values. Of RSASSA-PKCS1-v1_5 with SHA-256 (sections 8.2 and 9.2 of RFC 8017), only the DigestInfo step of EMSA-PKCS1-v1_5 is written out; the padding and the RSA primitive are the key's opaque operation.
- `XmlDsig` models three things:
  - the target lookup and its errors;
  - the DigestValue;
  - the fixed `Signature` / `SignedInfo` / `Reference` / `KeyInfo` tree, appended as the root's last child.

  Two computations in the source are defective (see Findings), so each one is modelled twice: as written and corrected.
- `EnvelopedValidation` is the verifier's side of signing. It models core validation (section 3.2 of the recommendation) with the enveloped-signature transform (section 6.6.4). A Reference validates only when it declares exactly that transform. It proves two results:
  - the corrected signer's output always validates;
  - the as-written output validates only at a SHA-256 fixpoint.
- `TrustedListFixture` holds concrete instances:
  - the top of the tree that `create_list_of_trusted_lists` builds;
  - toy primitives that exhibit the double hash.

**The renderer.** The core is the rendering inside `pdf_to_markdown`:
- bold and italic wrapping of spans;
- line and paragraph assembly;
- stripping of paragraphs;
- image placeholders;
- 1-based page headers;
- the four header pieces;
- the final join.

`PyText` models the Python string operations it needs: `isspace`, `strip`, `join` and `str(n)`. `PdfMarkdown` models both the functional specification and the loops, as methods that are proved equal to it.

Two behaviours of the code are modelled as they are, not as a full XML Signature implementation would behave:
- **Serialization.** The signer serializes with `ET.tostring`, not with the Exclusive XML Canonicalization that it declares in `CanonicalizationMethod`. The model signs and validates over the same uninterpreted `serialize`.
- **Duplicate ids.** The lookup takes the first match in document order; an id that occurs twice is not rejected.

## Model

| member | source | states |
|---|---|---|
| XmlTree.Lookup | examples/trust-framework/trusted-list.py:242 | `get` of an attribute: `None` exactly when no attribute has the name; a returned value is stored under that name |
| XmlTree.Store | examples/trust-framework/trusted-list.py:73-77 | the definition of `set` on the attribute list; what it does is stated by `StoreThenLookup`, `StorePlacement`, `StoreOverwritesInPlace` and `StoreKeepsNamesUnique` below |
| XmlTree.StoreThenLookup | examples/trust-framework/trusted-list.py:73-77 | after `set(name, v)`, `get(name)` is `v` and every other name reads as before |
| XmlTree.StorePlacement | examples/trust-framework/trusted-list.py:73-77 | `set` of a new name appends it at the end; `set` of an existing name keeps the attribute count |
| XmlTree.StoreOverwritesInPlace | examples/trust-framework/trusted-list.py:73-77 | `set` of a present name overwrites its first occurrence in place and leaves every other entry and the count unchanged |
| XmlTree.StoreKeepsNamesUnique | examples/trust-framework/trusted-list.py:73-77 | `set` never makes a name appear twice |
| XmlTree.FindDescendantById | examples/trust-framework/trusted-list.py:242 | the result carries the id, is a proper descendant, and no earlier descendant in document order carries it; `None` exactly when no descendant carries it |
| XmlTree.AppendChild | examples/trust-framework/trusted-list.py:235 | the definition of `append`; what it does to document order and to the lookup is stated by `DescendantsOfAppend` and `FindAfterAppend` below |
| XmlTree.FindSelfOrDescendantById | examples/trust-framework/trusted-list.py:242-244 | the corrected lookup is the first element of `root.iter()` (the root, then its descendants in document order) that carries the id; `None` exactly when no element of that iteration carries it |
| XmlTree.SelfOrDescendantCases | examples/trust-framework/trusted-list.py:242-244 | the corrected lookup returns the root when the root carries the id, and otherwise returns what the descendant-only lookup returns |
| XmlTree.FirstWithIdPrefix | examples/trust-framework/trusted-list.py:242 | a first match in a prefix of the document order stays the first match when more elements follow |
| XmlTree.DescendantsOfAppend | examples/trust-framework/trusted-list.py:235 | appending a child extends the document order at its end with the child's subtree |
| XmlTree.FindAfterAppend | examples/trust-framework/trusted-list.py:235 | after `append`, the descendant lookup finds the same element it found before |
| XmlTree.RootNotADescendant | examples/trust-framework/trusted-list.py:242 | every descendant is strictly smaller than the root, so the root is never among its own descendants |
| XmlTree.FindNeverReturnsRoot | examples/trust-framework/trusted-list.py:242 | the descendant-only path can never return the element that `find` is called on |
| Crypto.RsassaSign | examples/trust-framework/trusted-list.py:267-271 | `private_key.sign(data, PKCS1v15(), SHA256())` signs the DigestInfo of the SHA-256 of `data`: under a matching key pair, verification accepts the result for `data` |
| Crypto.VerifyAcceptsIffSameHash | examples/trust-framework/trusted-list.py:267-271 | with a matching key pair, PKCS#1 v1.5 verification of a signature over `signed` accepts `message` exactly when the SHA-256 hashes agree |
| XmlDsig.LocateTarget | examples/trust-framework/trusted-list.py:242-244 | an id with an apostrophe is a path error; otherwise the lookup fails with `ElementNotFound(id)` exactly when no proper descendant carries the id; a found target carries it, is a descendant, and is never the root |
| XmlDsig.LocateTargetCorrected | examples/trust-framework/trusted-list.py:242-244 | a root that carries the id is the target; the lookup fails (with `ElementNotFound(id)`) exactly when neither the root nor any descendant carries it; a found target lies in the root's subtree |
| XmlDsig.DigestText | examples/trust-framework/trusted-list.py:247-254 | the DigestValue text of an element: when the decoder undoes base64, decoding it gives back the SHA-256 of the UTF-8 bytes of the element's `ET.tostring` serialization |
| XmlDsig.CalculateDigest | examples/trust-framework/trusted-list.py:239-254 | `_calculate_digest` as written: an id with an apostrophe is a path error; otherwise it fails with `ElementNotFound(id)` exactly when no proper descendant carries the id; a result is the DigestValue text (base64 of SHA-256 of the UTF-8 serialization, `DigestText`) of the element the lookup found, a proper descendant that carries the id |
| XmlDsig.CalculateDigestCorrected | examples/trust-framework/trusted-list.py:239-254 | with the corrected lookup: a root that carries the id is digested itself; the digest fails, with `ElementNotFound(id)`, exactly when the corrected lookup fails, that is when no element of the subtree carries the id; a result is the DigestValue text of the element the corrected lookup found, which lies in the subtree and carries the id |
| XmlDsig.SignatureBytesAsWritten | examples/trust-framework/trusted-list.py:256-273 | `_calculate_signature` as written: under a matching key pair, PKCS#1 v1.5 verification accepts its result for the serialized SignedInfo exactly when SHA-256 maps the hash of those bytes to itself |
| XmlDsig.SignatureBytes | examples/trust-framework/trusted-list.py:256-273 | the corrected signature: under a matching key pair, verification accepts it for the serialized SignedInfo |
| XmlDsig.SignWith | examples/trust-framework/trusted-list.py:186-237 | the definition of the `sign_xml` body given the digest and the SignatureValue computation; what it returns is stated by `SignWithShape` and `SignWithSameSignature` |
| XmlDsig.SignWithShape | examples/trust-framework/trusted-list.py:189-237 | signing fails exactly when the digest does, with the same error; otherwise the result is the root plus a Signature with the fixed SignedInfo (C14N, RSA-SHA256, one Reference to `#id` with the enveloped transform, SHA-256 and the digest), SignatureValue and KeyInfo, appended as the last child |
| XmlDsig.SignXmlAsWritten | examples/trust-framework/trusted-list.py:186-237 | `sign_xml` as written fails exactly when the descendant-only lookup fails, with its error; otherwise the appended Signature carries the digest of the target in the unsigned tree and the double-hashed SignatureValue |
| XmlDsig.SignXml | examples/trust-framework/trusted-list.py:186-237 | the corrected `sign_xml` fails (with `ElementNotFound`) exactly when the corrected lookup fails; otherwise the appended Signature carries the digest of the target in the unsigned tree and the singly-hashed SignatureValue |
| EnvelopedValidation.ReferencedIdOfShape | examples/trust-framework/trusted-list.py:204-205 | the Reference's `URI="#id"` resolves back to the signed id |
| EnvelopedValidation.ShapeValidates | examples/trust-framework/trusted-list.py:186-237 | core validation of the root plus a Signature of the fixed shape holds exactly when the SignatureValue verifies against the serialized SignedInfo and the id resolves in the signed document to an element whose transformed digest is the recorded DigestValue |
| EnvelopedValidation.TargetSurvivesAppend | examples/trust-framework/trusted-list.py:235 | in the signed document, the id still resolves, and the enveloped transform of the resolved element is the element that was digested |
| EnvelopedValidation.SignXmlValidates | examples/trust-framework/trusted-list.py:186-273 | round trip: with a matching key pair and a base64 decoder that undoes the encoder, whenever some element of `root.iter()` carries the id, the corrected signer succeeds and the document it returns passes core validation |
| EnvelopedValidation.AsWrittenValidatesOnlyAtHashFixpoint | examples/trust-framework/trusted-list.py:259-271 | the as-written output validates only if SHA-256 maps the hash of the SignedInfo bytes to itself; when the root does not carry the id, that condition is also sufficient |
| EnvelopedValidation.AsWrittenTargetSurvivesAppend | examples/trust-framework/trusted-list.py:235-244 | when the root does not carry the id, the element the code as written digests is what the verifier's lookup finds in the signed document, after the enveloped transform |
| EnvelopedValidation.RootIdNeverResolves | examples/trust-framework/trusted-list.py:242-244 | when only the root carries the id, the as-written signer always fails, with `ElementNotFound(id)` for an id without an apostrophe |
| EnvelopedValidation.RootIdResolves | examples/trust-framework/trusted-list.py:242-244 | when the root carries the id, the corrected signer succeeds and digests the whole unsigned root |
| EnvelopedValidation.SigningTwiceAppendsTwoSignatures | examples/trust-framework/trusted-list.py:235-237 | nothing guards against signing twice: a second call finds the same target and appends a second, identical Signature |
| EnvelopedValidation.DigestSurvivesAppend | examples/trust-framework/trusted-list.py:235-244 | once the lookup has found a target, appending a child leaves the as-written digest unchanged |
| EnvelopedValidation.SignWithSameSignature | examples/trust-framework/trusted-list.py:189-237 | the appended Signature depends only on the id, the digest, the SignatureValue computation and the certificate, not on the tree it is appended to |
| TrustedListFixture.ListCarriesId | examples/trust-framework/trusted-list.py:72-77 | the list's root, built by `ET.Element` and its four `set` calls, carries `Id=list_id` |
| TrustedListFixture.ListBodyLacksId | examples/trust-framework/trusted-list.py:80-184 | no element below the root carries the id |
| TrustedListFixture.SigningTheListFails | examples/trust-framework/trusted-list.py:275-281 | signing the list under its own id with the code as written always fails with `ElementNotFound(list_id)` |
| TrustedListFixture.SigningTheListCorrected | examples/trust-framework/trusted-list.py:275-281 | the corrected signer signs the list, digests the whole unsigned list, and its output passes core validation |
| TrustedListFixture.ToyRoundTrip | examples/trust-framework/trusted-list.py:254 | the toy base64 stand-in decodes what it encodes |
| TrustedListFixture.AsWrittenSignatureRejected | examples/trust-framework/trusted-list.py:262-271 | concrete primitives under which the as-written SignatureValue is rejected by core validation and the corrected one is accepted |
| PyText.StripLeft | tools/pdf_to_markdown.py:79 | the result is a suffix, the removed prefix is all whitespace, and the result does not start with whitespace |
| PyText.StripRight | tools/pdf_to_markdown.py:79 | the result is a prefix, the removed suffix is all whitespace, and the result does not end with whitespace |
| PyText.Strip | tools/pdf_to_markdown.py:79 | `strip()` returns a slice with only whitespace on either side; it is empty exactly when the input is all whitespace, and otherwise starts and ends with non-whitespace |
| PyText.StripIdempotent | tools/pdf_to_markdown.py:79 | stripping twice equals stripping once |
| PyText.JoinSnoc | tools/pdf_to_markdown.py:79 | `sep.join` of one more part adds the separator and the part; a single part is returned unchanged |
| PyText.Join | tools/pdf_to_markdown.py:79 | the definition of `sep.join(parts)`; what it computes is stated by `JoinSnoc` and `JoinAppend` |
| PyText.JoinAppend | tools/pdf_to_markdown.py:79 | `sep.join` of two non-empty lists of parts is their two joins with one separator between them |
| PyText.Concat | tools/pdf_to_markdown.py:75 | the definition of `"".join(parts)` (also used at lines 89 and 46-49); what it computes is stated by `ConcatAppend` and `ConcatFour` |
| PyText.ConcatAppend | tools/pdf_to_markdown.py:89 | `"".join` distributes over list concatenation |
| PyText.ConcatFour | tools/pdf_to_markdown.py:46-49 | `"".join` of four pieces is their concatenation |
| PyText.DecimalString | tools/pdf_to_markdown.py:56 | `str(n)` for the page number and page count (also lines 48 and 83) is non-empty, made of decimal digits only, and has no leading zero unless it is `"0"` |
| PyText.DecimalRoundTrip | tools/pdf_to_markdown.py:56 | `str(n)` reads back as `n` |
| PdfMarkdown.FlagSet | tools/pdf_to_markdown.py:69-71 | the test `flags & bit` for a power of two `bit`; stated by `FlagSetReadsBit` and `FlagSetComplement` |
| PdfMarkdown.FlagSetReadsBit | tools/pdf_to_markdown.py:69-71 | `flags & 16` and `flags & 2` are non-zero exactly when the floor quotient of `flags` by 16, respectively 2, is odd, which is bit 4, respectively bit 1, of `flags` |
| PdfMarkdown.FlagSetComplement | tools/pdf_to_markdown.py:69-71 | every bit of `~flags` (`-flags - 1`) is the opposite of the same bit of `flags`, so a negative `flags` is tested as Python's two's-complement `&` tests it |
| PdfMarkdown.RenderSpan | tools/pdf_to_markdown.py:67-72 | flag 16 wraps the text in `**`, then flag 2 wraps the result in `*`: `***t***`, `**t**`, `*t*` or `t` |
| PdfMarkdown.RenderSpanUnwraps | tools/pdf_to_markdown.py:67-72 | a rendered span is its text with the same number of `*` on each side (three, two, one or none, by its flags), so dropping them from both ends gives the span's text back |
| PdfMarkdown.SpanPieces | tools/pdf_to_markdown.py:66-73 | one rendered piece per span, in span order |
| PdfMarkdown.SpanPiecesAppend | tools/pdf_to_markdown.py:66-73 | the rendered pieces of concatenated span lists are the concatenated pieces |
| PdfMarkdown.LineIsConcatenationOfSpans | tools/pdf_to_markdown.py:74-75 | spans are joined with no separator, so splitting a line's spans splits its rendering |
| PdfMarkdown.Paragraph | tools/pdf_to_markdown.py:64-75 | at most one entry per line, and no entry at all exactly when every line has no spans |
| PdfMarkdown.ParagraphAppend | tools/pdf_to_markdown.py:64-75 | the paragraph of concatenated line lists is the concatenation of their paragraphs |
| PdfMarkdown.ParagraphSnoc | tools/pdf_to_markdown.py:64-75 | one more line appends exactly that line's own entry, if any, to the paragraph |
| PdfMarkdown.ParagraphOfLine | tools/pdf_to_markdown.py:74-75 | a single line contributes the `"".join` of its rendered spans, or nothing when it has no spans |
| PdfMarkdown.ParagraphEntry | tools/pdf_to_markdown.py:64-75 | the line at index `i`, when it has spans, renders as the paragraph entry that comes after exactly the entries of lines `0..i-1` |
| PdfMarkdown.BlockPieces | tools/pdf_to_markdown.py:62-83 | the definition of what one block appends; stated by `TextBlockEmission`, `ImageBlockEmission` and `BlankParagraphDropped` below |
| PdfMarkdown.TextBlockEmission | tools/pdf_to_markdown.py:62-81 | a block with `lines` adds nothing exactly when its space-joined lines are all whitespace, and otherwise adds the stripped text followed by a blank line; its `image` key is ignored |
| PdfMarkdown.ImageBlockEmission | tools/pdf_to_markdown.py:82-83 | a block with `image` but no `lines` adds one `![Image on page N]` placeholder whose digits read back as the 1-based page number; a block with neither adds nothing |
| PdfMarkdown.BlankParagraphDropped | tools/pdf_to_markdown.py:77-81 | a block whose lines hold only unemphasised whitespace spans adds nothing, whether or not it has `image` |
| PdfMarkdown.BlankParagraph | tools/pdf_to_markdown.py:77-79 | the space-joined paragraph of such lines is all whitespace |
| PdfMarkdown.BlankLineRenders | tools/pdf_to_markdown.py:66-75 | a line of unemphasised whitespace spans renders as whitespace |
| PdfMarkdown.AllSpaceAppend | tools/pdf_to_markdown.py:79 | the concatenation of two whitespace strings is whitespace |
| PdfMarkdown.BlocksPieces | tools/pdf_to_markdown.py:61-83 | the definition of what the block loop of one page appends; stated by `BlocksPiecesAppend` and `EmitBlocks` |
| PdfMarkdown.BlocksPiecesAppend | tools/pdf_to_markdown.py:61-83 | the block loop over two runs of blocks appends the first run's pieces and then the second's: each block's pieces land in block order |
| PdfMarkdown.BlocksPiecesFlatten | tools/pdf_to_markdown.py:61-83 | the pieces of a page's blocks are each block's own pieces, concatenated in block order |
| PdfMarkdown.PagesPieces | tools/pdf_to_markdown.py:52-83 | the definition of the pieces of all pages in index order; stated by `PagesPiecesPrefix`, `PagesPiecesAt` and `PageHeaderPosition` below |
| PdfMarkdown.PagesPiecesPrefix | tools/pdf_to_markdown.py:52-56 | the pieces of the first `i` pages are a prefix of the pieces of all pages |
| PdfMarkdown.PagesPiecesAt | tools/pdf_to_markdown.py:52-56 | among the pages' pieces, page `i`'s 1-based header comes right after exactly the pieces of pages `0..i-1` |
| PdfMarkdown.PageHeaderPosition | tools/pdf_to_markdown.py:52-56 | page `i` starts with its header, after the document header and exactly the pieces of pages `0..i-1`; the header reads back as page `i + 1` |
| PdfMarkdown.PageHeaderNumber | tools/pdf_to_markdown.py:56 | the page header is `"\n## Page "`, then decimal digits denoting the number, then a blank line |
| PdfMarkdown.Markdown | tools/pdf_to_markdown.py:89 | the definition of the written content, the `"".join` of all pieces; stated by `MarkdownStartsWithHeader` and `ConvertToMarkdown` |
| PdfMarkdown.MarkdownStartsWithHeader | tools/pdf_to_markdown.py:46-49 | the content is the title from the stem, the source name, the page count and the separator, in that order, followed by the pages' content |
| PdfMarkdown.CollectLine | tools/pdf_to_markdown.py:65-73 | the span loop computes the rendered pieces of the line's spans, in order |
| PdfMarkdown.CollectParagraph | tools/pdf_to_markdown.py:63-75 | the nested span and line loops compute the paragraph of the block's lines |
| PdfMarkdown.EmitBlock | tools/pdf_to_markdown.py:62-83 | one iteration of the block loop appends exactly the block's pieces |
| PdfMarkdown.EmitBlocks | tools/pdf_to_markdown.py:61-83 | the block loop collects every block's pieces in block order |
| PdfMarkdown.EmitPage | tools/pdf_to_markdown.py:52-83 | one iteration of the page loop appends the 1-based page header, then the page's blocks |
| PdfMarkdown.ConvertToMarkdown | tools/pdf_to_markdown.py:43-89 | the written content is the join of the header pieces and every page's pieces in index order |

## Left out

- Loading the key and certificate (`_load_private_key`, `_load_certificate`, PKCS#12 and PEM) is not modelled. The key material is a parameter.
- Real SHA-256, RSA, base64 and UTF-8 are not modelled. No collision or forgery property is assumed. The only facts used are `MatchingKeyPair` and `DecodesBase64`, each stated as a hypothesis of the member that uses it (a `requires`, or the left side of an `==>` in its `ensures`).
- `ET.tostring` is an uninterpreted `serialize`. It is the same function for signing and for validation, and no canonicalization property is claimed.
- `create_list_of_trusted_lists` is represented only by a reduced fixture. The fixture keeps the root's four attributes and, of the body, a `ListInformation` holding `ListName` (with the English `Name` only), `ListIdentifier` and `ListVersion`, and a `TrustedLists` holding one `TrustedListPointer` with `TSLLocation`, `SchemeTerritory` and `SequenceNumber`. Every other element that lines 80-182 build is left out, none of which carries an `Id`: the Italian and Swedish `Name`s, the timestamps (wall-clock time), `ListOperatorName`, `ListOperatorAddress`, `DistributionPoints`, `TSLType`, `SchemeOperatorName` and `SchemeName`. The random default id (`uuid4`) is left out as well; the id is a parameter.
- Pretty-printing with `minidom`, writing the output file, `main`, the schema validation with `xmllint`, and the console messages are not modelled. They are I/O only.
- Mutation aliasing is not modelled. The tree is immutable, so on failure the caller's tree is unchanged by construction. In Python the `Signature` is only appended at the end, so nothing observable is lost.
- `tail` text of elements is not modelled. The signer never sets it.
- EnvelopedValidation.ReferenceValidates: the only transform chain it accepts is the single enveloped-signature transform the signer declares. A Reference that declares other transforms (canonicalization, XPath) is rejected rather than processed, because transform processing beyond section 6.6.4 of XML Signature is not modelled.
- XmlDsig.LocateTarget: every id that contains an apostrophe is modelled as the path compiler's `SyntaxError`. ElementPath actually parses some such ids as extra predicates (for example `x'][1`), and the model does not follow those parses.
- For the renderer, the following are not modelled; they are inputs or I/O:
  - opening the PDF with `fitz` and `page.get_text("dict")`;
  - `Path` handling, where the stem and name are inputs;
  - the existence check;
  - the output-path derivation;
  - writing the file and `doc.close()`;
  - the command-line `main`.
- Span flags: `flags` is an unbounded integer. The `&` test shifts right by halving until the tested bit is the lowest, then takes the remainder modulo 2. With Dafny's flooring division that agrees with Python's two's-complement `&` for powers of two, including negative values; `FlagSetReadsBit` and `FlagSetComplement` state this.
- Whitespace: `str.isspace` is modelled by the code points Python classifies as whitespace. No Unicode normalization is involved.

## Findings

| source | as written | input that shows it | evidently intended | confidence | as-written member | corrected member |
|---|---|---|---|---|---|---|
| examples/trust-framework/trusted-list.py:242-244 | the lookup `.//*[@Id='…']` searches proper descendants only, but `create_signed_list_of_trusted_lists` signs the id that line 77 puts on the root | any `list_id` without an apostrophe: `create_signed_list_of_trusted_lists` raises `ValueError("Element with ID '…' not found")` | the lookup also considers the root (descendant-or-self), so the whole list is digested | not executed | TrustedListFixture.SigningTheListFails | TrustedListFixture.SigningTheListCorrected |
| examples/trust-framework/trusted-list.py:262-271 | the serialized SignedInfo is hashed with SHA-256, and the hash is then passed to `sign(…, PKCS1v15(), SHA256())`, which hashes it again | the toy primitives of `AsWrittenSignatureRejected`; in general any SignedInfo whose hash is not a SHA-256 fixpoint | sign the serialized SignedInfo bytes directly, so that they are hashed once and a standard verifier accepts the SignatureValue | not executed | TrustedListFixture.AsWrittenSignatureRejected | EnvelopedValidation.SignXmlValidates |
