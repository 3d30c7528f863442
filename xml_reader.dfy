/**
 * The part of libxml2's pull parser (xmlTextReader) the library consumes.
 * A parsed document is the finite sequence of nodes the reader steps
 * through, plus whether the parse ends cleanly.  A reader position k names
 * the node the reader sits on after k + 1 calls of xmlTextReaderRead; the
 * position |nodes| is the end, where every further read reports the end again.
 */
module XmlReader {
  import opened Wrappers
  import opened CString

  /** xmlTextReaderNodeType of a start tag (XML_READER_TYPE_ELEMENT). */
  const START: int := 1
  /** xmlTextReaderNodeType of an end tag (XML_READER_TYPE_END_ELEMENT). */
  const END: int := 15

  /**
   * One node: its qualified name (xmlTextReaderConstName), local name, node
   * type, attributes by qualified name (xmlTextReaderGetAttribute),
   * attributes by local name and namespace URI (xmlTextReaderGetAttributeNs),
   * the namespace prefixes in scope (xmlTextReaderLookupNamespace) and its
   * text content (xmlTextReaderReadString).
   */
  datatype XmlNode = XmlNode(
    name: string,
    localName: string,
    nodeType: int,
    attrs: map<string, string>,
    nsAttrs: map<(string, string), string>,
    namespaces: map<string, string>,
    text: Option<string>)

  /** A document as the reader delivers it; wellFormed is false when the parse stops on an error. */
  datatype Doc = Doc(nodes: seq<XmlNode>, wellFormed: bool)

  /** What xmlTextReaderRead returns when it moves to position k: 1 on a node, 0 at a clean end, -1 on an error. */
  function ReadStatus(doc: Doc, k: nat): (r: int)
    ensures r == 1 <==> k < |doc.nodes|
    ensures r == 0 <==> k >= |doc.nodes| && doc.wellFormed
    ensures r == -1 <==> k >= |doc.nodes| && !doc.wellFormed
  {
    if k < |doc.nodes| then 1 else if doc.wellFormed then 0 else -1
  }

  /** The position after one more xmlTextReaderRead; past the last node the reader stays at the end. */
  function Advance(nodes: seq<XmlNode>, k: nat): (r: nat)
    requires k <= |nodes|
    ensures r <= |nodes| && (k < |nodes| ==> r == k + 1) && (k == |nodes| ==> r == k)
  {
    if k < |nodes| then k + 1 else k
  }

  /**
   * The end of the reader is sticky: once a read no longer returns 1 no
   * later read does, and every read past the last node reports the same
   * status, 0 after a clean parse and -1 after an error.
   */
  lemma EndIsSticky(doc: Doc, k: nat, j: nat)
    requires k <= j
    ensures ReadStatus(doc, j) == 1 ==> ReadStatus(doc, k) == 1
    ensures k >= |doc.nodes| ==> ReadStatus(doc, j) == ReadStatus(doc, k) && ReadStatus(doc, k) != 1
  {
  }

  /**
   * A read reports a node exactly when the reader moves on to it; at the end
   * the reader stays put and the next read reports the same end status.
   */
  lemma ReadMoves(doc: Doc, k: nat)
    requires k <= |doc.nodes|
    ensures ReadStatus(doc, k) == 1 <==> Advance(doc.nodes, k) != k
    ensures ReadStatus(doc, k) != 1 ==> ReadStatus(doc, Advance(doc.nodes, k)) == ReadStatus(doc, k)
  {
  }

  /** xmlTextReaderGetAttribute: the attribute's value, or NULL. */
  function GetAttribute(n: XmlNode, name: string): Option<string>
  {
    if name in n.attrs then Some(n.attrs[name]) else None
  }

  /** xmlTextReaderLookupNamespace: the URI bound to a prefix, or NULL. */
  function LookupNamespace(n: XmlNode, prefix: string): Option<string>
  {
    if prefix in n.namespaces then Some(n.namespaces[prefix]) else None
  }

  /** xmlTextReaderGetAttributeNs: the attribute with this local name in this namespace, or NULL. */
  function GetAttributeNs(n: XmlNode, localName: string, ns: Option<string>): Option<string>
  {
    if ns.Some? && (localName, ns.value) in n.nsAttrs then Some(n.nsAttrs[(localName, ns.value)]) else None
  }

  /**
   * Whether a node's qualified name equals a literal ignoring ASCII case.
   * The literal is written in lower case, the form xmlStrcasecmp folds both
   * sides to (see NameTestsAreStrCaseCmp).  Only a name of the literal's
   * length can match.
   */
  predicate NameIs(n: XmlNode, literal: string)
    ensures NameIs(n, literal) ==> |n.name| == |literal|
  {
    Lower(n.name) == literal
  }

  /** Whether a node's local name equals a lower-case literal ignoring ASCII case. */
  predicate LocalIs(n: XmlNode, literal: string)
    ensures LocalIs(n, literal) ==> |n.localName| == |literal|
  {
    Lower(n.localName) == literal
  }

  /** For a literal in lower case, the name tests are exactly xmlStrcasecmp returning 0. */
  lemma NameTestsAreStrCaseCmp(n: XmlNode, literal: string)
    requires Lower(literal) == literal
    ensures NameIs(n, literal) <==> StrCaseCmp(n.name, literal) == 0
    ensures LocalIs(n, literal) <==> StrCaseCmp(n.localName, literal) == 0
  {
  }

  /** A name that folds to one literal does not fold to a literal of another length. */
  lemma LocalIsExcludes(n: XmlNode, a: string, b: string)
    requires LocalIs(n, a) && |a| != |b|
    ensures !LocalIs(n, b)
  {
  }

  /**
   * Where a loop of the form "read; while the read gave a node whose name is
   * not name" stops, scanning from position from: the first such node, or
   * the end of the nodes.
   */
  function StopAt(nodes: seq<XmlNode>, from: nat, name: string): (r: nat)
    requires from <= |nodes|
    ensures from <= r <= |nodes|
    ensures r < |nodes| ==> NameIs(nodes[r], name)
    ensures forall i :: from <= i < r ==> !NameIs(nodes[i], name)
    decreases |nodes| - from
  {
    if from == |nodes| || NameIs(nodes[from], name) then from else StopAt(nodes, from + 1, name)
  }

  /** A position before which no node has the name, and which is the end or a node with the name, is where StopAt stops. */
  lemma {:induction false} StopAtUnique(nodes: seq<XmlNode>, from: nat, name: string, r: nat)
    requires from <= r <= |nodes|
    requires forall i :: from <= i < r ==> !NameIs(nodes[i], name)
    requires r < |nodes| ==> NameIs(nodes[r], name)
    ensures StopAt(nodes, from, name) == r
    decreases r - from
  {
    if from < r {
      StopAtUnique(nodes, from + 1, name, r);
    }
  }

  /** Where a loop that stops at a node named a or b stops, scanning from position from. */
  function StopAtEither(nodes: seq<XmlNode>, from: nat, a: string, b: string): (r: nat)
    requires from <= |nodes|
    ensures from <= r <= |nodes|
    ensures r < |nodes| ==> NameIs(nodes[r], a) || NameIs(nodes[r], b)
    ensures forall i :: from <= i < r ==> !NameIs(nodes[i], a) && !NameIs(nodes[i], b)
    decreases |nodes| - from
  {
    if from == |nodes| || NameIs(nodes[from], a) || NameIs(nodes[from], b) then from else StopAtEither(nodes, from + 1, a, b)
  }

  /** The two-name scan stops where the loop condition first fails. */
  lemma {:induction false} StopAtEitherUnique(nodes: seq<XmlNode>, from: nat, a: string, b: string, r: nat)
    requires from <= r <= |nodes|
    requires forall i :: from <= i < r ==> !NameIs(nodes[i], a) && !NameIs(nodes[i], b)
    requires r < |nodes| ==> NameIs(nodes[r], a) || NameIs(nodes[r], b)
    ensures StopAtEither(nodes, from, a, b) == r
    decreases r - from
  {
    if from < r {
      StopAtEitherUnique(nodes, from + 1, a, b, r);
    }
  }

  /** A name that folds to one literal does not fold to a literal differing from it at position i. */
  lemma NameIsExcludes(n: XmlNode, a: string, b: string, i: nat)
    requires NameIs(n, a) && i < |a| && i < |b| && a[i] != b[i]
    ensures !NameIs(n, b)
  {
  }
}
