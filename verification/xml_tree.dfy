/** An immutable model of the part of Python's `xml.etree.ElementTree` that the
    signer uses: elements with a tag, insertion-ordered attributes, optional
    text and ordered children; `set`, `get`, `append`, document-order
    iteration and the `descendant::*[@Id='…']` lookup of `find`. */
module XmlTree {
  import opened Wrappers

  datatype Attribute = Attribute(name: string, value: string)

  /** An element. `attributes` plays the role of ElementTree's `attrib` dict
      (insertion order, unique names); `text` is `None` until it is set. The
      `tail` text is not modelled: the signer never sets it. */
  datatype Element = Element(tag: string, attributes: seq<Attribute>, text: Option<string>, children: seq<Element>)

  /** `ET.Element(tag)`: no attributes, no text, no children. */
  function NewElement(tag: string): Element {
    Element(tag, [], None, [])
  }

  /** An `attrib` dict never holds a name twice. */
  predicate UniqueNames(attrs: seq<Attribute>) {
    forall i, j :: 0 <= i < j < |attrs| ==> attrs[i].name != attrs[j].name
  }

  /** `elem.get(name)`: the value stored under `name`, if any. */
  function Lookup(attrs: seq<Attribute>, name: string): (r: Option<string>)
    ensures r.None? <==> forall i :: 0 <= i < |attrs| ==> attrs[i].name != name
    ensures r.Some? ==> Attribute(name, r.value) in attrs
  {
    if attrs == [] then None
    else if attrs[0].name == name then Some(attrs[0].value)
    else
      var r := Lookup(attrs[1..], name);
      assert forall i :: 1 <= i < |attrs| ==> attrs[i] == attrs[1..][i - 1];
      r
  }

  /** `elem.set(name, value)`: overwrite the value in place when the name is
      present, otherwise add the pair at the end (dict insertion order). */
  function Store(attrs: seq<Attribute>, name: string, value: string): seq<Attribute> {
    if attrs == [] then [Attribute(name, value)]
    else if attrs[0].name == name then [Attribute(name, value)] + attrs[1..]
    else [attrs[0]] + Store(attrs[1..], name, value)
  }

  /** `get` after `set` of the same name yields the stored value, and other
      names are unaffected. */
  lemma {:induction false} StoreThenLookup(attrs: seq<Attribute>, name: string, value: string, other: string)
    ensures Lookup(Store(attrs, name, value), name) == Some(value)
    ensures other != name ==> Lookup(Store(attrs, name, value), other) == Lookup(attrs, other)
  {
    if attrs != [] && attrs[0].name != name {
      StoreThenLookup(attrs[1..], name, value, other);
    }
  }

  /** `set` appends a new name at the end and keeps the number of entries
      when the name is present (where it lands: `StoreOverwritesInPlace`). */
  lemma {:induction false} StorePlacement(attrs: seq<Attribute>, name: string, value: string)
    ensures Lookup(attrs, name).None? ==> Store(attrs, name, value) == attrs + [Attribute(name, value)]
    ensures Lookup(attrs, name).Some? ==> |Store(attrs, name, value)| == |attrs|
  {
    if attrs != [] && attrs[0].name != name {
      StorePlacement(attrs[1..], name, value);
      assert Lookup(attrs, name) == Lookup(attrs[1..], name);
      assert attrs == [attrs[0]] + attrs[1..];
    }
  }

  /** `set` of a name whose first occurrence is at index `k` overwrites that
      entry in place and leaves every other entry where it was. */
  lemma {:induction false} StoreOverwritesInPlace(attrs: seq<Attribute>, name: string, value: string, k: nat)
    requires k < |attrs| && attrs[k].name == name
    requires forall j :: 0 <= j < k ==> attrs[j].name != name
    ensures |Store(attrs, name, value)| == |attrs|
    ensures Store(attrs, name, value)[k] == Attribute(name, value)
    ensures forall j :: 0 <= j < |attrs| && j != k ==> Store(attrs, name, value)[j] == attrs[j]
  {
    if k > 0 {
      var tail := attrs[1..];
      assert forall j :: 0 <= j < k - 1 ==> tail[j] == attrs[j + 1];
      StoreOverwritesInPlace(tail, name, value, k - 1);
      var r := Store(attrs, name, value);
      assert r == [attrs[0]] + Store(tail, name, value);
      forall j | 0 <= j < |attrs| && j != k ensures r[j] == attrs[j] {
        if j > 0 { assert r[j] == Store(tail, name, value)[j - 1]; }
      }
    }
  }

  /** `set` never introduces a duplicate name. */
  lemma {:induction false} StoreKeepsNamesUnique(attrs: seq<Attribute>, name: string, value: string)
    requires UniqueNames(attrs)
    ensures UniqueNames(Store(attrs, name, value))
  {
    if attrs != [] && attrs[0].name != name {
      var tail := attrs[1..];
      UniqueTail(attrs);
      StoreKeepsNamesUnique(tail, name, value);
      StoreThenLookup(tail, name, value, attrs[0].name);
      UniqueCons(attrs[0], Store(tail, name, value));
    }
  }

  lemma UniqueTail(attrs: seq<Attribute>)
    requires UniqueNames(attrs) && attrs != []
    ensures UniqueNames(attrs[1..])
    ensures Lookup(attrs[1..], attrs[0].name).None?
  {
    var tail := attrs[1..];
    forall i, j | 0 <= i < j < |tail| ensures tail[i].name != tail[j].name {
      assert tail[i] == attrs[i + 1] && tail[j] == attrs[j + 1];
    }
    forall i | 0 <= i < |tail| ensures tail[i].name != attrs[0].name {
      assert tail[i] == attrs[i + 1];
    }
  }

  lemma UniqueCons(head: Attribute, rest: seq<Attribute>)
    requires UniqueNames(rest) && Lookup(rest, head.name).None?
    ensures UniqueNames([head] + rest)
  {
    var r := [head] + rest;
    forall i, j | 0 <= i < j < |r| ensures r[i].name != r[j].name {
      assert r[j] == rest[j - 1];
      if i > 0 {
        assert r[i] == rest[i - 1];
      }
    }
  }

  /** `elem.set(name, value)` on an element. */
  function SetAttribute(e: Element, name: string, value: string): Element {
    e.(attributes := Store(e.attributes, name, value))
  }

  /** `parent.append(child)` and `ET.SubElement(parent, …)`: `child` becomes the last child. */
  function AppendChild(parent: Element, child: Element): Element {
    parent.(children := parent.children + [child])
  }

  /** The element carries `Id="id"`. */
  predicate HasId(e: Element, id: string) {
    Lookup(e.attributes, "Id") == Some(id)
  }

  /** `e.iter()`: `e` itself, then its descendants in document order. */
  function Subtree(e: Element): seq<Element>
    decreases e, 1
  {
    [e] + Forest(e.children)
  }

  /** The concatenated document-order iteration of a list of siblings. */
  function Forest(cs: seq<Element>): seq<Element>
    decreases cs, 0
  {
    if cs == [] then [] else Subtree(cs[0]) + Forest(cs[1..])
  }

  /** The proper descendants of `root` in document order: what the descendant wildcard path selects. */
  function Descendants(root: Element): seq<Element> {
    Forest(root.children)
  }

  /** Number of elements in a tree. */
  function Size(e: Element): nat
    decreases e, 1
  {
    1 + ForestSize(e.children)
  }

  function ForestSize(cs: seq<Element>): nat
    decreases cs, 0
  {
    if cs == [] then 0 else Size(cs[0]) + ForestSize(cs[1..])
  }

  /** The index of the first element of `es` that carries `Id="id"`. */
  function FirstWithId(es: seq<Element>, id: string): (r: Option<nat>)
    ensures r.Some? ==> r.value < |es| && HasId(es[r.value], id)
    ensures r.Some? ==> forall j :: 0 <= j < r.value ==> !HasId(es[j], id)
    ensures r.None? <==> forall j :: 0 <= j < |es| ==> !HasId(es[j], id)
  {
    if es == [] then None
    else if HasId(es[0], id) then Some(0)
    else
      assert forall j :: 1 <= j < |es| ==> es[j] == es[1..][j - 1];
      match FirstWithId(es[1..], id)
      case None => None
      case Some(k) => Some(k + 1)
  }

  /** `root.find` with the path `descendant::*[@Id='id']`: the first proper descendant of `root`, in
      document order, whose `Id` attribute equals `id`. */
  function FindDescendantById(root: Element, id: string): (r: Option<Element>)
    ensures r.Some? ==> HasId(r.value, id) && r.value in Descendants(root)
    ensures r.Some? ==> exists i :: 0 <= i < |Descendants(root)| && Descendants(root)[i] == r.value
                                    && forall j :: 0 <= j < i ==> !HasId(Descendants(root)[j], id)
    ensures r.None? <==> forall d :: d in Descendants(root) ==> !HasId(d, id)
  {
    var ds := Descendants(root);
    match FirstWithId(ds, id)
    case None => None
    case Some(i) => Some(ds[i])
  }

  /** `next(root.iter())` filtered on `Id`: the first element of the
      descendant-or-self iteration, in document order, whose `Id` equals
      `id`. */
  function FindSelfOrDescendantById(root: Element, id: string): (r: Option<Element>)
    ensures r.None? <==> forall d :: d in Subtree(root) ==> !HasId(d, id)
    ensures r.Some? ==> exists i :: 0 <= i < |Subtree(root)| && Subtree(root)[i] == r.value && HasId(r.value, id)
                                    && forall j :: 0 <= j < i ==> !HasId(Subtree(root)[j], id)
  {
    var all := Subtree(root);
    match FirstWithId(all, id)
    case None => None
    case Some(i) => Some(all[i])
  }

  /** The descendant-or-self lookup returns the root when it carries the id,
      and otherwise what the descendant-only lookup returns. */
  lemma SelfOrDescendantCases(root: Element, id: string)
    ensures HasId(root, id) ==> FindSelfOrDescendantById(root, id) == Some(root)
    ensures !HasId(root, id) ==> FindSelfOrDescendantById(root, id) == FindDescendantById(root, id)
  {
    var all := Subtree(root);
    assert all[0] == root;
    assert all[1..] == Descendants(root);
    if !HasId(root, id) {
      assert FirstWithId(all, id) == match FirstWithId(all[1..], id) case None => None case Some(k) => Some(k + 1);
      match FirstWithId(Descendants(root), id)
      case None =>
      case Some(k) => assert all[k + 1] == Descendants(root)[k];
    }
  }

  /** A match in a prefix is still the first match once more elements follow. */
  lemma {:induction false} FirstWithIdPrefix(a: seq<Element>, b: seq<Element>, id: string)
    requires FirstWithId(a, id).Some?
    ensures FirstWithId(a + b, id) == FirstWithId(a, id)
  {
    var ab := a + b;
    assert ab[0] == a[0];
    if !HasId(a[0], id) {
      TailOfConcat(a, b);
      var k :| FirstWithId(a[1..], id) == Some(k);
      assert FirstWithId(a, id) == Some(k + 1);
      FirstWithIdPrefix(a[1..], b, id);
      assert FirstWithId(ab, id) == Some(k + 1);
    }
  }

  lemma TailOfConcat<T>(a: seq<T>, b: seq<T>)
    requires a != []
    ensures (a + b)[0] == a[0] && (a + b)[1..] == a[1..] + b
  {
  }

  /** Appending a child does not change which element the descendant lookup
      finds, as long as it found one before. */
  lemma FindAfterAppend(root: Element, child: Element, id: string)
    requires FindDescendantById(root, id).Some?
    ensures FindDescendantById(AppendChild(root, child), id) == FindDescendantById(root, id)
  {
    DescendantsOfAppend(root, child);
    FirstWithIdPrefix(Descendants(root), Subtree(child), id);
    var k := FirstWithId(Descendants(root), id).value;
    assert Descendants(AppendChild(root, child))[k] == Descendants(root)[k];
  }

  lemma {:induction false} ForestAppend(a: seq<Element>, b: seq<Element>)
    ensures Forest(a + b) == Forest(a) + Forest(b)
    decreases |a|
  {
    if a == [] {
      assert a + b == b;
    } else {
      assert (a + b)[0] == a[0];
      assert (a + b)[1..] == a[1..] + b;
      ForestAppend(a[1..], b);
    }
  }

  /** Appending a child extends the document-order iteration at its end, so
      every earlier element keeps its position. */
  lemma DescendantsOfAppend(root: Element, child: Element)
    ensures Descendants(AppendChild(root, child)) == Descendants(root) + Subtree(child)
  {
    ForestAppend(root.children, [child]);
    assert Forest([child]) == Subtree(child) + Forest([]);
  }

  lemma {:induction false} SubtreeBounded(e: Element)
    ensures forall x :: x in Subtree(e) ==> Size(x) <= Size(e)
    decreases e, 1
  {
    ForestBounded(e.children);
  }

  lemma {:induction false} ForestBounded(cs: seq<Element>)
    ensures forall x :: x in Forest(cs) ==> Size(x) <= ForestSize(cs)
    decreases cs, 0
  {
    if cs != [] {
      SubtreeBounded(cs[0]);
      ForestBounded(cs[1..]);
    }
  }

  /** Every proper descendant is strictly smaller than the root, so the root
      is never among its own descendants. */
  lemma RootNotADescendant(root: Element)
    ensures forall d :: d in Descendants(root) ==> Size(d) < Size(root)
    ensures root !in Descendants(root)
  {
    ForestBounded(root.children);
  }

  /** The descendant-only lookup can never return the element it is called on. */
  lemma FindNeverReturnsRoot(root: Element, id: string)
    ensures FindDescendantById(root, id) != Some(root)
  {
    RootNotADescendant(root);
  }
}
