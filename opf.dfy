/**
 * The package-document parsers of opf.c: the top-level dispatch over the
 * OPF file, metadata, manifest, spine (with its NCX lookup), guide, the
 * manifest lookup by id and the label lookup by language.  Each reader loop
 * is a method proved equal to a recursive function of the node sequence;
 * the properties are lemmas about those functions.
 */
module Opf {
  import opened Wrappers
  import opened CString
  import opened XmlReader
  import opened EpubTypes
  import opened LinkSort
  import opened ListCmp
  import opened OpfToc
  import opened Ocf

  /**
   * _get_possible_namespace: the attribute in the namespace the prefix "opf"
   * is bound to, and the plain attribute of that name when there is none.
   * A value is found exactly when one of the two attributes exists, it is
   * always one of them, and the namespaced one wins.
   */
  function PossibleNamespace(n: XmlNode, localName: string): (r: Option<string>)
    ensures r.Some? <==> GetAttributeNs(n, localName, LookupNamespace(n, "opf")).Some? || GetAttribute(n, localName).Some?
    ensures r.Some? ==> r == GetAttributeNs(n, localName, LookupNamespace(n, "opf")) || r == GetAttribute(n, localName)
    ensures GetAttributeNs(n, localName, LookupNamespace(n, "opf")).Some? ==> r == GetAttributeNs(n, localName, LookupNamespace(n, "opf"))
  {
    var ns := LookupNamespace(n, "opf");
    var tmp := GetAttributeNs(n, localName, ns);
    if tmp.None? then GetAttribute(n, localName) else tmp
  }

  /** Without an opf prefix in scope only the plain attribute is consulted. */
  lemma PossibleNamespaceWithoutPrefix(n: XmlNode, localName: string)
    requires "opf" !in n.namespaces
    ensures PossibleNamespace(n, localName) == GetAttribute(n, localName)
  {
  }

  // ---------------------------------------------------------------------
  // Start tags in a stretch of the reader
  // ---------------------------------------------------------------------

  /** One value per start tag among the nodes lo..hi-1, in document order. */
  function Starts<T>(nodes: seq<XmlNode>, lo: nat, hi: nat, f: XmlNode -> T): seq<T>
    requires hi <= |nodes|
    decreases hi
  {
    if hi <= lo then []
    else Starts(nodes, lo, hi - 1, f) + (if nodes[hi - 1].nodeType == START then [f(nodes[hi - 1])] else [])
  }

  /** The number of start tags among the nodes lo..hi-1. */
  function StartCount(nodes: seq<XmlNode>, lo: nat, hi: nat): nat
    requires hi <= |nodes|
    decreases hi
  {
    if hi <= lo then 0
    else StartCount(nodes, lo, hi - 1) + (if nodes[hi - 1].nodeType == START then 1 else 0)
  }

  /** There is exactly one value per start tag. */
  lemma {:induction false} StartsLength<T>(nodes: seq<XmlNode>, lo: nat, hi: nat, f: XmlNode -> T)
    requires hi <= |nodes|
    ensures |Starts(nodes, lo, hi, f)| == StartCount(nodes, lo, hi)
    decreases hi
  {
    if lo < hi {
      StartsLength(nodes, lo, hi - 1, f);
    }
  }

  /** Every start tag of the stretch contributes its value. */
  lemma {:induction false} StartsHas<T>(nodes: seq<XmlNode>, lo: nat, hi: nat, f: XmlNode -> T, j: nat)
    requires hi <= |nodes| && lo <= j < hi && nodes[j].nodeType == START
    ensures f(nodes[j]) in Starts(nodes, lo, hi, f)
    decreases hi
  {
    if j < hi - 1 {
      StartsHas(nodes, lo, hi - 1, f, j);
    }
  }

  /** Every value comes from a start tag of the stretch. */
  lemma {:induction false} StartsFrom<T>(nodes: seq<XmlNode>, lo: nat, hi: nat, f: XmlNode -> T, x: T)
    requires hi <= |nodes| && x in Starts(nodes, lo, hi, f)
    ensures exists j :: lo <= j < hi && nodes[j].nodeType == START && x == f(nodes[j])
    decreases hi
  {
    if x !in Starts(nodes, lo, hi - 1, f) {
      assert nodes[hi - 1].nodeType == START && x == f(nodes[hi - 1]);
    } else {
      StartsFrom(nodes, lo, hi - 1, f, x);
    }
  }

  /** Two adjacent stretches give their values one after the other. */
  lemma {:induction false} StartsSplit<T>(nodes: seq<XmlNode>, lo: nat, mid: nat, hi: nat, f: XmlNode -> T)
    requires lo <= mid <= hi <= |nodes|
    ensures Starts(nodes, lo, hi, f) == Starts(nodes, lo, mid, f) + Starts(nodes, mid, hi, f)
    decreases hi
  {
    if mid < hi {
      StartsSplit(nodes, lo, mid, hi - 1, f);
    }
  }

  /** A loop that stops at a name: one more node without the name leaves the stopping point where it was. */
  lemma StopAtSkip(nodes: seq<XmlNode>, p: nat, name: string)
    requires p < |nodes| && !NameIs(nodes[p], name)
    ensures StopAt(nodes, p + 1, name) == StopAt(nodes, p, name)
  {
  }

  // ---------------------------------------------------------------------
  // Metadata
  // ---------------------------------------------------------------------

  /** The element kinds _opf_parse_metadata recognises by local name, and the rest. */
  datatype MetaKind =
    | IdentifierKind | TitleKind | CreatorKind | ContributorKind | MetaElemKind | DateKind
    | SubjectKind | PublisherKind | DescriptionKind | TypeKind | FormatKind | SourceKind
    | LanguageKind | RelationKind | CoverageKind | RightsKind | OtherKind

  /** The local name each recognised kind is selected by; other elements have none. */
  function KindName(k: MetaKind): string
  {
    match k
    case IdentifierKind => "identifier" case TitleKind => "title" case CreatorKind => "creator"
    case ContributorKind => "contributor" case MetaElemKind => "meta" case DateKind => "date"
    case SubjectKind => "subject" case PublisherKind => "publisher" case DescriptionKind => "description"
    case TypeKind => "type" case FormatKind => "format" case SourceKind => "source"
    case LanguageKind => "language" case RelationKind => "relation" case CoverageKind => "coverage"
    case RightsKind => "rights" case OtherKind => ""
  }

  /** The dispatch of the metadata loop: the first local name that matches, ignoring case. */
  function KindOf(n: XmlNode): MetaKind
  {
    if LocalIs(n, "identifier") then IdentifierKind
    else if LocalIs(n, "title") then TitleKind
    else if LocalIs(n, "creator") then CreatorKind
    else if LocalIs(n, "contributor") then ContributorKind
    else if LocalIs(n, "meta") then MetaElemKind
    else if LocalIs(n, "date") then DateKind
    else if LocalIs(n, "subject") then SubjectKind
    else if LocalIs(n, "publisher") then PublisherKind
    else if LocalIs(n, "description") then DescriptionKind
    else if LocalIs(n, "type") then TypeKind
    else if LocalIs(n, "format") then FormatKind
    else if LocalIs(n, "source") then SourceKind
    else if LocalIs(n, "language") then LanguageKind
    else if LocalIs(n, "relation") then RelationKind
    else if LocalIs(n, "coverage") then CoverageKind
    else if LocalIs(n, "rights") then RightsKind
    else OtherKind
  }

  /**
   * The order of the tests does not matter: an element is of a recognised
   * kind exactly when its local name is that kind's name, ignoring case, and
   * of no kind when it matches none of the sixteen names.
   */
  lemma KindOfByName(n: XmlNode, k: MetaKind)
    requires k != OtherKind
    ensures KindOf(n) == k <==> LocalIs(n, KindName(k))
    ensures KindOf(n) == OtherKind ==> !LocalIs(n, KindName(k))
  {
    var l := Lower(n.localName);
    if l == KindName(k) {
      KindOfName(n, k);
    }
  }

  /** An element whose folded local name is that of kind k has kind k. */
  lemma KindOfName(n: XmlNode, k: MetaKind)
    requires k != OtherKind && Lower(n.localName) == KindName(k)
    ensures KindOf(n) == k
  {
    match k
    case IdentifierKind =>
    case TitleKind =>
    case CreatorKind =>
    case ContributorKind =>
    case MetaElemKind =>
    case DateKind =>
    case SubjectKind =>
    case PublisherKind =>
    case DescriptionKind =>
    case TypeKind =>
    case FormatKind =>
    case SourceKind =>
    case LanguageKind =>
    case RelationKind =>
    case CoverageKind =>
    case RightsKind =>
  }

  /** A dc:identifier: its text, the opf:scheme attribute and the id attribute. */
  function IdOf(n: XmlNode): Id
  {
    Id(GetAttribute(n, "id"), PossibleNamespace(n, "scheme"), n.text)
  }

  /** A dc:creator or dc:contributor: its text, opf:file-as and opf:role. */
  function CreatorOf(n: XmlNode): Creator
  {
    Creator(n.text, PossibleNamespace(n, "file-as"), PossibleNamespace(n, "role"))
  }

  /** A meta element: its name and content attributes; its text is dropped. */
  function MetaOf(n: XmlNode): Meta
  {
    Meta(GetAttribute(n, "name"), GetAttribute(n, "content"))
  }

  /** A dc:date: its text and the opf:event attribute. */
  function DateOf(n: XmlNode): Date
  {
    Date(n.text, PossibleNamespace(n, "event"))
  }

  function TextOf(n: XmlNode): Option<string>
  {
    n.text
  }

  /** The body of the metadata loop for one start tag of kind k: one entry on the list k selects, nothing for other kinds. */
  function AddEntry(m: Metadata, k: MetaKind, n: XmlNode): (r: Metadata)
    ensures k == OtherKind ==> r == m
  {
    match k
    case IdentifierKind => m.(id := m.id + [IdOf(n)])
    case TitleKind => m.(title := m.title + [n.text])
    case CreatorKind => m.(creator := m.creator + [CreatorOf(n)])
    case ContributorKind => m.(contrib := m.contrib + [CreatorOf(n)])
    case MetaElemKind => m.(meta := m.meta + [MetaOf(n)])
    case DateKind => m.(date := m.date + [DateOf(n)])
    case SubjectKind => m.(subject := m.subject + [n.text])
    case PublisherKind => m.(publisher := m.publisher + [n.text])
    case DescriptionKind => m.(description := m.description + [n.text])
    case TypeKind => m.(docType := m.docType + [n.text])
    case FormatKind => m.(format := m.format + [n.text])
    case SourceKind => m.(source := m.source + [n.text])
    case LanguageKind => m.(lang := m.lang + [n.text])
    case RelationKind => m.(relation := m.relation + [n.text])
    case CoverageKind => m.(coverage := m.coverage + [n.text])
    case RightsKind => m.(rights := m.rights + [n.text])
    case OtherKind => m
  }

  /** The entry an element of kind k contributes to the list of kind kind: one value, or none. */
  function Grow<T>(k: MetaKind, kind: MetaKind, x: T): seq<T>
  {
    if k == kind then [x] else []
  }

  /** Adding an entry of kind k grows the record lists by the entry of their own kind only. */
  lemma AddEntryRecords(m: Metadata, k: MetaKind, n: XmlNode)
    ensures AddEntry(m, k, n).id == m.id + Grow(k, IdentifierKind, IdOf(n))
    ensures AddEntry(m, k, n).creator == m.creator + Grow(k, CreatorKind, CreatorOf(n))
    ensures AddEntry(m, k, n).contrib == m.contrib + Grow(k, ContributorKind, CreatorOf(n))
  {
  }

  /** The meta and date lists, likewise. */
  lemma AddEntryMoreRecords(m: Metadata, k: MetaKind, n: XmlNode)
    ensures AddEntry(m, k, n).meta == m.meta + Grow(k, MetaElemKind, MetaOf(n))
    ensures AddEntry(m, k, n).date == m.date + Grow(k, DateKind, DateOf(n))
  {
  }

  /** Adding an entry of a recognised kind adds one to the total, of any other kind nothing. */
  lemma AddEntryTotal(m: Metadata, k: MetaKind, n: XmlNode)
    ensures EntryTotal(AddEntry(m, k, n)) == EntryTotal(m) + (if k != OtherKind then 1 else 0)
  {
    if k.IdentifierKind? || k.TitleKind? || k.CreatorKind? || k.ContributorKind? || k.MetaElemKind? || k.DateKind? || k.SubjectKind? || k.PublisherKind? {
      AddEntryTotalFirst(m, k, n);
    } else {
      AddEntryTotalRest(m, k, n);
    }
  }

  /** AddEntryTotal for the first eight kinds. */
  lemma AddEntryTotalFirst(m: Metadata, k: MetaKind, n: XmlNode)
    requires k.IdentifierKind? || k.TitleKind? || k.CreatorKind? || k.ContributorKind? || k.MetaElemKind? || k.DateKind? || k.SubjectKind? || k.PublisherKind?
    ensures EntryTotal(AddEntry(m, k, n)) == EntryTotal(m) + 1
  {
    var m' := AddEntry(m, k, n);
    match k
    case IdentifierKind => assert |m'.id| == |m.id| + 1;
    case TitleKind => assert |m'.title| == |m.title| + 1;
    case CreatorKind => assert |m'.creator| == |m.creator| + 1;
    case ContributorKind => assert |m'.contrib| == |m.contrib| + 1;
    case MetaElemKind => assert |m'.meta| == |m.meta| + 1;
    case DateKind => assert |m'.date| == |m.date| + 1;
    case SubjectKind => assert |m'.subject| == |m.subject| + 1;
    case PublisherKind => assert |m'.publisher| == |m.publisher| + 1;
  }

  /** AddEntryTotal for the other kinds. */
  lemma AddEntryTotalRest(m: Metadata, k: MetaKind, n: XmlNode)
    requires !(k.IdentifierKind? || k.TitleKind? || k.CreatorKind? || k.ContributorKind? || k.MetaElemKind? || k.DateKind? || k.SubjectKind? || k.PublisherKind?)
    ensures EntryTotal(AddEntry(m, k, n)) == EntryTotal(m) + (if k != OtherKind then 1 else 0)
  {
    var m' := AddEntry(m, k, n);
    match k
    case DescriptionKind => assert |m'.description| == |m.description| + 1;
    case TypeKind => assert |m'.docType| == |m.docType| + 1;
    case FormatKind => assert |m'.format| == |m.format| + 1;
    case SourceKind => assert |m'.source| == |m.source| + 1;
    case LanguageKind => assert |m'.lang| == |m.lang| + 1;
    case RelationKind => assert |m'.relation| == |m.relation| + 1;
    case CoverageKind => assert |m'.coverage| == |m.coverage| + 1;
    case RightsKind => assert |m'.rights| == |m.rights| + 1;
    case OtherKind =>
  }

  /** Adding an entry of kind k grows the text lists by the entry of their own kind only. */
  lemma AddEntryTexts(m: Metadata, k: MetaKind, n: XmlNode)
    ensures AddEntry(m, k, n).title == m.title + Grow(k, TitleKind, TextOf(n))
    ensures AddEntry(m, k, n).subject == m.subject + Grow(k, SubjectKind, TextOf(n))
    ensures AddEntry(m, k, n).publisher == m.publisher + Grow(k, PublisherKind, TextOf(n))
    ensures AddEntry(m, k, n).description == m.description + Grow(k, DescriptionKind, TextOf(n))
    ensures AddEntry(m, k, n).docType == m.docType + Grow(k, TypeKind, TextOf(n))
  {
  }

  /** The remaining text lists, likewise. */
  lemma AddEntryMoreTexts(m: Metadata, k: MetaKind, n: XmlNode)
    ensures AddEntry(m, k, n).format == m.format + Grow(k, FormatKind, TextOf(n))
    ensures AddEntry(m, k, n).source == m.source + Grow(k, SourceKind, TextOf(n))
    ensures AddEntry(m, k, n).lang == m.lang + Grow(k, LanguageKind, TextOf(n))
    ensures AddEntry(m, k, n).relation == m.relation + Grow(k, RelationKind, TextOf(n))
    ensures AddEntry(m, k, n).coverage == m.coverage + Grow(k, CoverageKind, TextOf(n))
    ensures AddEntry(m, k, n).rights == m.rights + Grow(k, RightsKind, TextOf(n))
  {
  }

  /** One turn of the metadata loop: tags other than start tags are skipped. */
  function MetaStep(m: Metadata, n: XmlNode): Metadata
  {
    if n.nodeType != START then m else AddEntry(m, KindOf(n), n)
  }

  /**
   * One turn of the metadata loop changes nothing unless it meets the start
   * tag of a recognised element, and then it stores exactly one entry.
   */
  lemma MetaStepTotal(m: Metadata, n: XmlNode)
    ensures n.nodeType != START || KindOf(n) == OtherKind ==> MetaStep(m, n) == m
    ensures EntryTotal(MetaStep(m, n)) == EntryTotal(m) + (if n.nodeType == START && KindOf(n) != OtherKind then 1 else 0)
  {
    if n.nodeType == START {
      AddEntryTotal(m, KindOf(n), n);
    }
  }

  /** The metadata the loop has built after the nodes lo..hi-1, starting from the fresh record. */
  function MetaFold(nodes: seq<XmlNode>, lo: nat, hi: nat): Metadata
    requires hi <= |nodes|
    decreases hi
  {
    if hi <= lo then EmptyMetadata else MetaStep(MetaFold(nodes, lo, hi - 1), nodes[hi - 1])
  }

  /** The metadata loop stores one entry per start tag of a recognised element, and no other. */
  lemma {:induction false} MetaFoldTotal(nodes: seq<XmlNode>, lo: nat, hi: nat)
    requires hi <= |nodes|
    ensures EntryTotal(MetaFold(nodes, lo, hi)) == Recognised(nodes, lo, hi)
    decreases hi
  {
    if hi > lo {
      MetaFoldTotal(nodes, lo, hi - 1);
      MetaStepTotal(MetaFold(nodes, lo, hi - 1), nodes[hi - 1]);
    }
  }

  /** The values of the start tags of one kind among the nodes lo..hi-1, in document order. */
  function Entries<T>(nodes: seq<XmlNode>, lo: nat, hi: nat, kind: MetaKind, f: XmlNode -> T): seq<T>
    requires hi <= |nodes|
    decreases hi
  {
    if hi <= lo then []
    else
      var n := nodes[hi - 1];
      Entries(nodes, lo, hi - 1, kind, f) + (if n.nodeType == START then Grow(KindOf(n), kind, f(n)) else [])
  }

  /** Whether a node is a start tag of the given metadata kind. */
  predicate OfKind(n: XmlNode, kind: MetaKind)
  {
    n.nodeType == START && KindOf(n) == kind
  }

  /** A list of one kind is empty exactly when no start tag of that kind occurs. */
  lemma {:induction false} EntriesEmpty<T>(nodes: seq<XmlNode>, lo: nat, hi: nat, kind: MetaKind, f: XmlNode -> T)
    requires hi <= |nodes|
    ensures Entries(nodes, lo, hi, kind, f) == [] <==> forall j :: lo <= j < hi ==> !OfKind(nodes[j], kind)
    decreases hi
  {
    if lo < hi {
      EntriesEmpty(nodes, lo, hi - 1, kind, f);
      var n := nodes[hi - 1];
      var e := if n.nodeType == START then Grow(KindOf(n), kind, f(n)) else [];
      assert Entries(nodes, lo, hi, kind, f) == Entries(nodes, lo, hi - 1, kind, f) + e;
      assert e == [] <==> !OfKind(n, kind);
      assert (forall j :: lo <= j < hi ==> !OfKind(nodes[j], kind)) <==>
             (forall j :: lo <= j < hi - 1 ==> !OfKind(nodes[j], kind)) && !OfKind(n, kind);
    }
  }

  /** A list of one kind begins with the value of the first start tag of that kind. */
  lemma {:induction false} EntriesFirst<T>(nodes: seq<XmlNode>, lo: nat, hi: nat, kind: MetaKind, f: XmlNode -> T, j: nat)
    requires lo <= j < hi <= |nodes| && OfKind(nodes[j], kind)
    requires forall i :: lo <= i < j ==> !OfKind(nodes[i], kind)
    ensures Entries(nodes, lo, hi, kind, f) != [] && Entries(nodes, lo, hi, kind, f)[0] == f(nodes[j])
    decreases hi
  {
    var n := nodes[hi - 1];
    var tail := if n.nodeType == START then Grow(KindOf(n), kind, f(n)) else [];
    assert Entries(nodes, lo, hi, kind, f) == Entries(nodes, lo, hi - 1, kind, f) + tail;
    if j < hi - 1 {
      EntriesFirst(nodes, lo, hi - 1, kind, f, j);
    } else {
      EntriesEmpty(nodes, lo, hi - 1, kind, f);
      assert tail == [f(n)];
    }
  }

  /** Every metadata field that holds records. */
  predicate RecordFields(m: Metadata, nodes: seq<XmlNode>, lo: nat, hi: nat)
    requires hi <= |nodes|
  {
    m.id == Entries(nodes, lo, hi, IdentifierKind, IdOf) &&
    m.creator == Entries(nodes, lo, hi, CreatorKind, CreatorOf) &&
    m.contrib == Entries(nodes, lo, hi, ContributorKind, CreatorOf) &&
    m.meta == Entries(nodes, lo, hi, MetaElemKind, MetaOf) &&
    m.date == Entries(nodes, lo, hi, DateKind, DateOf)
  }

  /** Every metadata field that holds the element's text. */
  predicate TextFields(m: Metadata, nodes: seq<XmlNode>, lo: nat, hi: nat)
    requires hi <= |nodes|
  {
    m.title == Entries(nodes, lo, hi, TitleKind, TextOf) &&
    m.subject == Entries(nodes, lo, hi, SubjectKind, TextOf) &&
    m.publisher == Entries(nodes, lo, hi, PublisherKind, TextOf) &&
    m.description == Entries(nodes, lo, hi, DescriptionKind, TextOf) &&
    m.docType == Entries(nodes, lo, hi, TypeKind, TextOf) &&
    m.format == Entries(nodes, lo, hi, FormatKind, TextOf) &&
    m.source == Entries(nodes, lo, hi, SourceKind, TextOf) &&
    m.lang == Entries(nodes, lo, hi, LanguageKind, TextOf) &&
    m.relation == Entries(nodes, lo, hi, RelationKind, TextOf) &&
    m.coverage == Entries(nodes, lo, hi, CoverageKind, TextOf) &&
    m.rights == Entries(nodes, lo, hi, RightsKind, TextOf)
  }

  /** One start tag extends exactly the list its kind names. */
  lemma MetaStepRecords(m: Metadata, nodes: seq<XmlNode>, lo: nat, hi: nat)
    requires lo < hi <= |nodes| && RecordFields(m, nodes, lo, hi - 1)
    ensures RecordFields(MetaStep(m, nodes[hi - 1]), nodes, lo, hi)
  {
    var n := nodes[hi - 1];
    if n.nodeType == START {
      AddEntryRecords(m, KindOf(n), n);
      AddEntryMoreRecords(m, KindOf(n), n);
    }
  }

  /** One start tag extends exactly the text list its kind names. */
  lemma MetaStepTexts(m: Metadata, nodes: seq<XmlNode>, lo: nat, hi: nat)
    requires lo < hi <= |nodes| && TextFields(m, nodes, lo, hi - 1)
    ensures TextFields(MetaStep(m, nodes[hi - 1]), nodes, lo, hi)
  {
    var n := nodes[hi - 1];
    if n.nodeType == START {
      AddEntryTexts(m, KindOf(n), n);
      AddEntryMoreTexts(m, KindOf(n), n);
    }
  }

  /**
   * Each of the sixteen metadata lists holds, in document order, one entry
   * per start tag whose local name selects it, and nothing else.
   */
  lemma {:induction false} MetaFoldFields(nodes: seq<XmlNode>, lo: nat, hi: nat)
    requires hi <= |nodes|
    ensures RecordFields(MetaFold(nodes, lo, hi), nodes, lo, hi)
    ensures TextFields(MetaFold(nodes, lo, hi), nodes, lo, hi)
    decreases hi
  {
    if lo < hi {
      MetaFoldFields(nodes, lo, hi - 1);
      MetaStepRecords(MetaFold(nodes, lo, hi - 1), nodes, lo, hi);
      MetaStepTexts(MetaFold(nodes, lo, hi - 1), nodes, lo, hi);
    }
  }

  /** The sixteen list lengths added up. */
  function EntryTotal(m: Metadata): nat
  {
    |m.id| + |m.title| + |m.creator| + |m.contrib| + |m.subject| + |m.publisher| + |m.description| + |m.date| +
    |m.docType| + |m.format| + |m.source| + |m.lang| + |m.relation| + |m.coverage| + |m.rights| + |m.meta|
  }

  /** The number of start tags among the nodes lo..hi-1 whose local name the loop recognises. */
  function Recognised(nodes: seq<XmlNode>, lo: nat, hi: nat): nat
    requires hi <= |nodes|
    decreases hi
  {
    if hi <= lo then 0
    else
      var n := nodes[hi - 1];
      Recognised(nodes, lo, hi - 1) + (if n.nodeType == START && KindOf(n) != OtherKind then 1 else 0)
  }

  /** The name tests ignore case and are tried in order: an element whose local name is "TITLE" is a title. */
  lemma TitleIsTitle(n: XmlNode)
    requires StrCaseCmp(n.localName, "TITLE") == 0
    ensures KindOf(n) == TitleKind
  {
    assert Lower("TITLE") == "title";
    LocalIsExcludes(n, "title", "identifier");
  }

  // ---------------------------------------------------------------------
  // Manifest, spine and guide items
  // ---------------------------------------------------------------------

  /** One manifest item: its seven attributes. */
  function ManifestItem(n: XmlNode): (r: Manifest)
    ensures r.id == GetAttribute(n, "id") && r.href == GetAttribute(n, "href") && r.mediaType == GetAttribute(n, "media-type")
    ensures r.fallback == GetAttribute(n, "fallback") && r.fbStyle == GetAttribute(n, "fallback-style")
    ensures r.nspace == GetAttribute(n, "required-namespace") && r.modules == GetAttribute(n, "required-modules")
  {
    Manifest(GetAttribute(n, "required-namespace"), GetAttribute(n, "required-modules"), GetAttribute(n, "id"),
             GetAttribute(n, "href"), GetAttribute(n, "media-type"), GetAttribute(n, "fallback"),
             GetAttribute(n, "fallback-style"))
  }

  /** The linear flag of an itemref: 0 exactly for a linear attribute reading "no" in any case. */
  function LinearOf(v: Option<string>): (r: int)
    ensures r == 0 || r == 1
    ensures r == 0 <==> v.Some? && Lower(v.value) == "no"
  {
    assert Lower("no") == "no";
    if v.Some? && StrCaseCmp(v.value, "no") == 0 then 0 else 1
  }

  /** Only "no" makes an item non-linear; "yes", any other value and no attribute all leave it linear. */
  lemma LinearOfValues()
    ensures LinearOf(Some("no")) == 0 && LinearOf(Some("NO")) == 0 && LinearOf(Some("No")) == 0
    ensures LinearOf(None) == 1 && LinearOf(Some("yes")) == 1 && LinearOf(Some("")) == 1 && LinearOf(Some("non")) == 1
  {
    assert Lower("yes")[0] == 'y';
    assert Lower("non") != Lower("no");
  }

  /** One spine itemref: its idref and its linear flag. */
  function SpineItem(n: XmlNode): (r: Spine)
    ensures r.idref == GetAttribute(n, "idref")
    ensures r.linear == 0 || r.linear == 1
    ensures r.linear == 0 <==> GetAttribute(n, "linear").Some? && Lower(GetAttribute(n, "linear").value) == "no"
  {
    Spine(GetAttribute(n, "idref"), LinearOf(GetAttribute(n, "linear")))
  }

  /** The number of linear items. */
  function LinearCount(items: seq<Spine>): nat
  {
    if items == [] then 0 else LinearCount(items[..|items| - 1]) + (if items[|items| - 1].linear == 1 then 1 else 0)
  }

  /** linearCount grows by at most one per item, and by one per item exactly when no item is non-linear. */
  lemma {:induction false} LinearCountBounds(items: seq<Spine>)
    requires forall i :: 0 <= i < |items| ==> items[i].linear == 0 || items[i].linear == 1
    ensures LinearCount(items) <= |items|
    ensures LinearCount(items) == |items| <==> forall i :: 0 <= i < |items| ==> items[i].linear == 1
  {
    if items != [] {
      var init := items[..|items| - 1];
      assert forall i :: 0 <= i < |init| ==> init[i] == items[i];
      LinearCountBounds(init);
    }
  }

  /** One more item adds one exactly when it is linear. */
  lemma LinearCountSnoc(items: seq<Spine>, item: Spine)
    ensures LinearCount(items + [item]) == LinearCount(items) + (if item.linear == 1 then 1 else 0)
  {
    assert (items + [item])[..|items|] == items;
  }

  /** Items counted one stretch after another. */
  lemma {:induction false} LinearCountAppend(a: seq<Spine>, b: seq<Spine>)
    ensures LinearCount(a + b) == LinearCount(a) + LinearCount(b)
    decreases |b|
  {
    if b != [] {
      var b' := b[..|b| - 1];
      assert (a + b)[..|a + b| - 1] == a + b';
      assert (a + b)[|a + b| - 1] == b[|b| - 1];
      LinearCountAppend(a, b');
    } else {
      assert a + b == a;
    }
  }

  /** Every spine item read from the document carries a linear flag of 0 or 1. */
  lemma {:induction false} SpineItemsFlags(nodes: seq<XmlNode>, lo: nat, hi: nat)
    requires hi <= |nodes|
    ensures forall i :: 0 <= i < |Starts(nodes, lo, hi, SpineItem)| ==>
              Starts(nodes, lo, hi, SpineItem)[i].linear == 0 || Starts(nodes, lo, hi, SpineItem)[i].linear == 1
    decreases hi
  {
    if lo < hi {
      SpineItemsFlags(nodes, lo, hi - 1);
    }
  }

  /** One guide reference, as opf.c:785-786 reads it: title from the href attribute and href from the title attribute. */
  function GuideItem(n: XmlNode): (r: Guide)
    ensures r.guideType == GetAttribute(n, "type")
    ensures r.title == GetAttribute(n, "href") && r.href == GetAttribute(n, "title")
  {
    Guide(GetAttribute(n, "type"), GetAttribute(n, "href"), GetAttribute(n, "title"))
  }

  // ---------------------------------------------------------------------
  // Lookups
  // ---------------------------------------------------------------------

  /** Whether FindNode with the id comparator, looking for key, only meets items that have an id. */
  predicate IdScanDefined(items: seq<Manifest>, key: string)
  {
    items == [] || (items[0].id.Some? && (items[0].id.value != key ==> IdScanDefined(items[1..], key)))
  }

  /** Whether the id search reaches item j: no item before it carries the key. */
  predicate ScanReaches(items: seq<Manifest>, key: Option<string>, j: nat)
  {
    j < |items| && forall k :: 0 <= k < j ==> items[k].id != key
  }

  /** The search is defined exactly when every item it reaches, up to the first with the key, has an id. */
  lemma {:induction false} IdScanDefinedReaches(items: seq<Manifest>, key: string)
    ensures IdScanDefined(items, key) <==> forall j :: 0 <= j < |items| && ScanReaches(items, Some(key), j) ==> items[j].id.Some?
    decreases |items|
  {
    if items != [] {
      var rest := items[1..];
      IdScanDefinedReaches(rest, key);
      forall j | 0 <= j < |rest|
        ensures ScanReaches(rest, Some(key), j) <== items[0].id != Some(key) && ScanReaches(items, Some(key), j + 1)
        ensures items[0].id != Some(key) && ScanReaches(rest, Some(key), j) ==> ScanReaches(items, Some(key), j + 1)
      {
        if items[0].id != Some(key) && ScanReaches(rest, Some(key), j) {
          forall k | 0 <= k < j + 1
            ensures items[k].id != Some(key)
          {
            if k > 0 {
              assert items[k] == rest[k - 1];
            }
          }
        }
      }
      assert ScanReaches(items, Some(key), 0);
    }
  }

  /** _opf_manifest_get_by_id: the first item whose id equals key, or NULL. */
  function ManifestGetById(items: seq<Manifest>, key: string): (r: Option<Manifest>)
    requires IdScanDefined(items, key)
    ensures r.Some? ==> exists i :: 0 <= i < |items| && r.value == items[i] && items[i].id == Some(key) &&
                                     forall j :: 0 <= j < i ==> items[j].id != Some(key)
    ensures r.None? <==> forall j :: 0 <= j < |items| ==> items[j].id != Some(key)
  {
    if items == [] then None
    else if ManifestById(items[0], Manifest(None, None, Some(key), None, None, None, None)) == 0 then
      Some(items[0])
    else
      var r := ManifestGetById(items[1..], key);
      assert forall j :: 1 <= j < |items| ==> items[j] == items[1..][j - 1];
      if r.Some? then
        var i :| 0 <= i < |items[1..]| && r.value == items[1..][i] && items[1..][i].id == Some(key) &&
                 forall j :: 0 <= j < i ==> items[1..][j].id != Some(key);
        assert r.value == items[i + 1] && forall j :: 0 <= j < i + 1 ==> items[j].id != Some(key);
        r
      else r
  }

  /** When ids are unique the lookup finds the item carrying the id. */
  lemma ManifestGetByIdUnique(items: seq<Manifest>, key: string, i: nat)
    requires IdScanDefined(items, key)
    requires i < |items| && items[i].id == Some(key)
    requires forall j :: 0 <= j < |items| && j != i ==> items[j].id != Some(key)
    ensures ManifestGetById(items, key) == Some(items[i])
  {
  }

  /** Whether FindNode with the language comparator, looking for lang, only meets present labels. */
  predicate LabelScanDefined(labels: seq<Option<TocLabel>>, lang: Option<string>)
  {
    labels == [] ||
    (labels[0].Some? && (LabelByLang(labels[0].value, TocLabel(lang, None, None)) != 0 ==> LabelScanDefined(labels[1..], lang)))
  }

  /** Whether a label answers a language query: either side without a language, or the same language. */
  predicate LangMatches(t: TocLabel, lang: Option<string>)
  {
    t.lang.None? || lang.None? || t.lang == lang
  }

  /** Label i is the first label matching the language, every label before it present and not matching. */
  predicate FirstMatch(labels: seq<Option<TocLabel>>, lang: Option<string>, i: int)
  {
    0 <= i < |labels| && labels[i].Some? && LangMatches(labels[i].value, lang) &&
    forall j :: 0 <= j < i ==> labels[j].Some? && !LangMatches(labels[j].value, lang)
  }

  /**
   * _opf_label_get_by_lang: the text of the first label matching the
   * language under the label comparator, or NULL when none matches (or the
   * matching label has no text).
   */
  function LabelGetByLang(labels: seq<Option<TocLabel>>, lang: Option<string>): (r: Option<string>)
    requires LabelScanDefined(labels, lang)
    ensures (forall j :: 0 <= j < |labels| ==> labels[j].Some? && !LangMatches(labels[j].value, lang)) ==> r.None?
    ensures forall i :: FirstMatch(labels, lang, i) ==> r == labels[i].value.text
    ensures r.Some? ==> exists i :: FirstMatch(labels, lang, i) && r == labels[i].value.text
  {
    if labels == [] then None
    else if LabelByLang(labels[0].value, TocLabel(lang, None, None)) == 0 then
      assert forall i :: FirstMatch(labels, lang, i) ==> i == 0;
      labels[0].value.text
    else
      var r := LabelGetByLang(labels[1..], lang);
      assert forall j :: 1 <= j < |labels| ==> labels[j] == labels[1..][j - 1];
      assert forall i :: FirstMatch(labels, lang, i) ==> i >= 1 && FirstMatch(labels[1..], lang, i - 1);
      if r.Some? then
        var i :| 0 <= i < |labels[1..]| && labels[1..][i].Some? && LangMatches(labels[1..][i].value, lang) &&
                 r == labels[1..][i].value.text &&
                 forall j :: 0 <= j < i ==> labels[1..][j].Some? && !LangMatches(labels[1..][j].value, lang);
        assert labels[i + 1] == labels[1..][i];
        assert forall j :: 0 <= j < i + 1 ==> labels[j].Some? && !LangMatches(labels[j].value, lang);
        assert FirstMatch(labels, lang, i + 1);
        r
      else r
  }

  /** A query without a language takes the first label's text. */
  lemma LabelGetByLangNoLang(labels: seq<Option<TocLabel>>)
    requires |labels| > 0 && labels[0].Some?
    ensures LabelScanDefined(labels, None)
    ensures LabelGetByLang(labels, None) == labels[0].value.text
  {
  }

  /** The document language: the first dc:language entry, NULL when there is none. */
  function DocLang(m: Metadata): (r: Option<string>)
    ensures m.lang == [] ==> r.None?
    ensures m.lang != [] ==> r == m.lang[0]
  {
    if m.lang == [] then None else m.lang[0]
  }

  /**
   * The document language of a parsed metadata section is the text of its
   * first dc:language element, and NULL when it has none.
   */
  lemma DocLangOfMetadata(nodes: seq<XmlNode>, lo: nat, hi: nat)
    requires hi <= |nodes|
    ensures (forall j :: lo <= j < hi ==> !OfKind(nodes[j], LanguageKind)) ==> DocLang(MetaFold(nodes, lo, hi)).None?
    ensures forall j :: lo <= j < hi && OfKind(nodes[j], LanguageKind) && (forall i :: lo <= i < j ==> !OfKind(nodes[i], LanguageKind)) ==>
              DocLang(MetaFold(nodes, lo, hi)) == nodes[j].text
  {
    MetaFoldFields(nodes, lo, hi);
    EntriesEmpty(nodes, lo, hi, LanguageKind, TextOf);
    forall j | lo <= j < hi && OfKind(nodes[j], LanguageKind) && (forall i :: lo <= i < j ==> !OfKind(nodes[i], LanguageKind))
      ensures DocLang(MetaFold(nodes, lo, hi)) == nodes[j].text
    {
      EntriesFirst(nodes, lo, hi, LanguageKind, TextOf, j);
    }
  }

  /** _opf_label_get_by_doc_lang: the label lookup for the document language. */
  function LabelGetByDocLang(m: Metadata, labels: seq<Option<TocLabel>>): (r: Option<string>)
    requires LabelScanDefined(labels, DocLang(m))
    ensures (forall j :: 0 <= j < |labels| ==> labels[j].Some? && !LangMatches(labels[j].value, DocLang(m))) ==> r.None?
    ensures forall i :: FirstMatch(labels, DocLang(m), i) ==> r == labels[i].value.text
    ensures r.Some? ==> exists i :: FirstMatch(labels, DocLang(m), i) && r == labels[i].value.text
    ensures m.lang == [] && |labels| > 0 ==> r == labels[0].value.text
  {
    LabelGetByLang(labels, DocLang(m))
  }

  /** A book whose first dc:language is "fr" shows the French label even when an English one comes first. */
  lemma LabelGetByDocLangPicksLanguage(m: Metadata, en: string, fr: string)
    requires m.lang != [] && m.lang[0] == Some("fr")
    ensures var labels := [Some(TocLabel(Some("en"), None, Some(en))), Some(TocLabel(Some("fr"), None, Some(fr)))];
            LabelScanDefined(labels, DocLang(m)) && LabelGetByDocLang(m, labels) == Some(fr)
  {
    var l1, l2 := TocLabel(Some("en"), None, Some(en)), TocLabel(Some("fr"), None, Some(fr));
    var labels := [Some(l1), Some(l2)];
    var key := TocLabel(Some("fr"), None, None);
    assert "en"[0] != "fr"[0];
    assert LabelByLang(l1, key) != 0;
    assert LabelByLang(l2, key) == 0;
    assert labels[1..] == [Some(l2)];
    assert LabelScanDefined(labels[1..], Some("fr")) && LabelGetByLang(labels[1..], Some("fr")) == Some(fr);
  }

  // ---------------------------------------------------------------------
  // The package record and the dispatch
  // ---------------------------------------------------------------------

  /**
   * The fields of struct opf the parsers fill, as a value: the NCX file the
   * toc was parsed from stands for the toc itself, whose play-order list is
   * described only up to its order (see TocFrom).
   */
  datatype OpfState = OpfState(
    metadata: Option<Metadata>,
    manifest: Option<seq<Manifest>>,
    spine: Option<seq<Spine>>,
    guide: Option<seq<Guide>>,
    tocSource: Option<string>,
    tocName: Option<string>,
    linearCount: int)

  /** _opf_parse's set-up: guide and toc NULL; the fields it leaves uninitialised are absent, linearCount is whatever it was. */
  function InitState(linearCount: int): (r: OpfState)
    ensures r.metadata.None? && r.manifest.None? && r.spine.None? && r.guide.None?
    ensures r.tocSource.None? && r.tocName.None? && r.linearCount == linearCount
  {
    OpfState(None, None, None, None, None, None, linearCount)
  }

  /** A toc is what _opf_parse_toc builds from its NCX text. */
  ghost predicate TocParsedFrom(toc: Toc, tocStr: string, parse: string -> Option<Doc>)
  {
    toc.pageList.None? && Sorted(toc.playOrder, TocOrder) &&
    (parse(tocStr).None? ==> toc == EmptyToc) &&
    (parse(tocStr).Some? ==>
       var t := TocRun(parse(tocStr).value.nodes, 0, EmptyToc);
       toc.navMap == t.navMap && toc.navList == t.navList && multiset(toc.playOrder) == multiset(t.playOrder) &&
       exists perm :: Follows(t.playOrder, toc.playOrder, perm) && Stable(perm, toc.playOrder, TocOrder))
  }

  /** A toc slot and the NCX text it came from: NULL with no text, otherwise the parse of that text. */
  ghost predicate TocFrom(toc: Option<Toc>, src: Option<string>, parse: string -> Option<Doc>)
    ensures TocFrom(toc, src, parse) && toc.Some? ==> toc.value.pageList.None? && Sorted(toc.value.playOrder, TocOrder)
    ensures TocFrom(toc, src, parse) ==> (toc.None? <==> src.None?)
  {
    (toc.None? <==> src.None?) && (src.Some? ==> TocParsedFrom(toc.value, src.value, parse))
  }

  /**
   * The spine's toc lookup: the toc attribute names a manifest item, whose
   * file under the data path is parsed as NCX when it has at least one byte.
   * The second component is false where the C code is undefined: no manifest
   * yet, a NULL id met by the search, no item with that id, an item without
   * href, or no data path.
   */
  function SpineToc(st: OpfState, n: XmlNode, archive: map<string, seq<char>>, datapath: Option<string>): (r: (OpfState, bool))
    ensures r.0 == st.(tocName := r.0.tocName, tocSource := r.0.tocSource)
    ensures r.0.tocName == GetAttribute(n, "toc")
    ensures r.0.tocName.None? ==> r.1 && r.0.tocSource.None?
  {
    var tocName := GetAttribute(n, "toc");
    var st1 := st.(tocName := tocName);
    if tocName.None? then (st1.(tocSource := None), true)
    else if st.manifest.None? || !IdScanDefined(st.manifest.value, tocName.value) then (st1, false)
    else
      var item := ManifestGetById(st.manifest.value, tocName.value);
      if item.None? || item.value.href.None? || datapath.None? then (st1, false)
      else
        var path := datapath.value + item.value.href.value;
        if path in archive && |archive[path]| > 0 then (st1.(tocSource := Some(archive[path])), true)
        else (st1, true)
  }

  /** A toc reference that resolves to a non-empty file makes that file the toc's source. */
  lemma SpineTocResolves(st: OpfState, n: XmlNode, archive: map<string, seq<char>>, datapath: Option<string>, item: Manifest)
    requires GetAttribute(n, "toc").Some? && st.manifest.Some?
    requires IdScanDefined(st.manifest.value, GetAttribute(n, "toc").value)
    requires ManifestGetById(st.manifest.value, GetAttribute(n, "toc").value) == Some(item)
    requires item.href.Some? && datapath.Some?
    ensures var path := datapath.value + item.href.value;
            SpineToc(st, n, archive, datapath).1 &&
            (path in archive && |archive[path]| > 0 ==> SpineToc(st, n, archive, datapath).0.tocSource == Some(archive[path])) &&
            (path !in archive || |archive[path]| == 0 ==> SpineToc(st, n, archive, datapath).0.tocSource == st.tocSource)
  {
  }

  /**
   * _opf_parse_spine from the spine tag at position k: the toc lookup, then
   * one item per start tag up to the next node called "spine", and linearCount
   * raised by the linear ones.  The last component is where the loop stopped.
   */
  function SpineOf(nodes: seq<XmlNode>, k: nat, st: OpfState, archive: map<string, seq<char>>, datapath: Option<string>): (r: (OpfState, bool, nat))
    requires k < |nodes|
    ensures r.1 ==> r.0.spine.Some? && k < r.2 <= |nodes|
  {
    var (st1, ok) := SpineToc(st, nodes[k], archive, datapath);
    if !ok then (st1, false, k + 1)
    else
      var stop := StopAt(nodes, k + 1, "spine");
      var items := Starts(nodes, k + 1, stop, SpineItem);
      (st1.(spine := Some(items), linearCount := st.linearCount + LinearCount(items)), true, stop)
  }

  /** Each parsed spine raises linearCount by its linear items, at most one per item. */
  lemma SpineOfCounts(nodes: seq<XmlNode>, k: nat, st: OpfState, archive: map<string, seq<char>>, datapath: Option<string>)
    requires k < |nodes| && SpineOf(nodes, k, st, archive, datapath).1
    ensures var r := SpineOf(nodes, k, st, archive, datapath).0;
            st.linearCount <= r.linearCount == st.linearCount + LinearCount(r.spine.value) <= st.linearCount + |r.spine.value|
  {
    var r := SpineOf(nodes, k, st, archive, datapath).0;
    SpineItemsFlags(nodes, k + 1, StopAt(nodes, k + 1, "spine"));
    LinearCountBounds(r.spine.value);
  }

  /**
   * One turn of the _opf_parse loop at position pos: the parser the
   * qualified name selects (compared exactly, with case), and the position
   * of the next read.  The second component is false where the C code is
   * undefined: the tours parser, or a spine whose toc lookup is.
   */
  function OpfStep(nodes: seq<XmlNode>, pos: nat, st: OpfState, archive: map<string, seq<char>>, datapath: Option<string>): (r: (OpfState, bool, nat))
    requires pos < |nodes|
    ensures r.1 ==> pos < r.2 <= |nodes|
  {
    var name := nodes[pos].name;
    if name == "metadata" then
      var stop := StopAt(nodes, pos + 1, "metadata");
      (st.(metadata := Some(MetaFold(nodes, pos + 1, stop))), true, Advance(nodes, stop))
    else if name == "manifest" then
      var stop := StopAt(nodes, pos + 1, "manifest");
      (st.(manifest := Some(Starts(nodes, pos + 1, stop, ManifestItem))), true, Advance(nodes, stop))
    else if name == "spine" then
      var (s, ok, stop) := SpineOf(nodes, pos, st, archive, datapath);
      (s, ok, if ok then Advance(nodes, stop) else pos + 1)
    else if name == "guide" then
      var stop := StopAt(nodes, pos + 1, "guides");
      (st.(guide := Some(Starts(nodes, pos + 1, stop, GuideItem))), true, Advance(nodes, stop))
    else if name == "tours" then (st, false, pos + 1)
    else (st, true, pos + 1)
  }

  /** The _opf_parse loop from pos to the end, and whether every turn was defined. */
  function OpfRun(nodes: seq<XmlNode>, pos: nat, st: OpfState, archive: map<string, seq<char>>, datapath: Option<string>): (r: (OpfState, bool))
    requires pos <= |nodes|
    ensures Keeps(st, r.0)
    decreases |nodes| - pos
  {
    if pos == |nodes| then (st, true)
    else
      var (s, ok, next) := OpfStep(nodes, pos, st, archive, datapath);
      OpfStepKeeps(nodes, pos, st, archive, datapath);
      if !ok then (s, false) else OpfRun(nodes, next, s, archive, datapath)
  }

  /** A later state keeps every section an earlier one had, and linearCount only grows. */
  predicate Keeps(st: OpfState, s: OpfState)
  {
    (st.metadata.Some? ==> s.metadata.Some?) && (st.manifest.Some? ==> s.manifest.Some?) &&
    (st.spine.Some? ==> s.spine.Some?) && (st.guide.Some? ==> s.guide.Some?) &&
    st.linearCount <= s.linearCount
  }

  /** One turn of the dispatch keeps what the state had. */
  lemma OpfStepKeeps(nodes: seq<XmlNode>, pos: nat, st: OpfState, archive: map<string, seq<char>>, datapath: Option<string>)
    requires pos < |nodes|
    ensures Keeps(st, OpfStep(nodes, pos, st, archive, datapath).0)
  {
    if nodes[pos].name == "spine" {
      if SpineOf(nodes, pos, st, archive, datapath).1 {
        SpineOfCounts(nodes, pos, st, archive, datapath);
      }
    }
  }

  /** A package without tours and without a spine toc attribute parses without undefined behaviour. */
  lemma {:induction false} OpfRunDefined(nodes: seq<XmlNode>, pos: nat, st: OpfState, archive: map<string, seq<char>>, datapath: Option<string>)
    requires pos <= |nodes|
    requires forall i :: pos <= i < |nodes| ==> nodes[i].name != "tours" && (nodes[i].name == "spine" ==> "toc" !in nodes[i].attrs)
    ensures OpfRun(nodes, pos, st, archive, datapath).1
    decreases |nodes| - pos
  {
    if pos < |nodes| {
      var (s, ok, next) := OpfStep(nodes, pos, st, archive, datapath);
      assert ok;
      OpfRunDefined(nodes, next, s, archive, datapath);
    }
  }

  /** One turn of the dispatch leaves the data path, the guide and the metadata alone unless it parses them. */
  lemma OpfStepTouches(nodes: seq<XmlNode>, pos: nat, st: OpfState, archive: map<string, seq<char>>, datapath: Option<string>)
    requires pos < |nodes|
    ensures var s := OpfStep(nodes, pos, st, archive, datapath).0;
            (nodes[pos].name != "metadata" ==> s.metadata == st.metadata) &&
            (nodes[pos].name != "manifest" ==> s.manifest == st.manifest) &&
            (nodes[pos].name != "spine" ==> s.spine == st.spine && s.tocSource == st.tocSource && s.linearCount == st.linearCount) &&
            (nodes[pos].name != "guide" ==> s.guide == st.guide)
  {
  }

  /**
   * The guide loop runs to a node called "guides", which an OPF file does
   * not have: the closing guide tag does not stop it, and every later start
   * tag of the document becomes a guide entry.
   */
  lemma GuideRunsToTheEnd(nodes: seq<XmlNode>, pos: nat, j: nat, st: OpfState, archive: map<string, seq<char>>, datapath: Option<string>)
    requires pos < j < |nodes| && nodes[pos].name == "guide" && nodes[j].nodeType == START
    requires forall i :: pos < i < |nodes| ==> !NameIs(nodes[i], "guides")
    ensures var r := OpfStep(nodes, pos, st, archive, datapath);
            r.2 == |nodes| && GuideItem(nodes[j]) in r.0.guide.value
  {
    StopAtUnique(nodes, pos + 1, "guides", |nodes|);
    StartsHas(nodes, pos + 1, |nodes|, GuideItem, j);
  }

  /** struct opf, with the archive and XML parser the library reaches through opf->epub. */
  class Opf {
    const ocf: Ocf
    const parse: string -> Option<Doc>
    var metadata: Option<Metadata>
    var manifest: Option<seq<Manifest>>
    var spine: Option<seq<Spine>>
    var guide: Option<seq<Guide>>
    var toc: Option<Toc>
    /** The NCX text the toc was parsed from. */
    ghost var tocSource: Option<string>
    var tocName: Option<string>
    var linearCount: int

    /** The parsers' fields as a value. */
    ghost function State(): OpfState
      reads this
    {
      OpfState(metadata, manifest, spine, guide, tocSource, tocName, linearCount)
    }

    ghost predicate TocValid()
      reads this
    {
      TocFrom(toc, tocSource, parse)
    }

    /** The allocation in _opf_parse: guide and toc NULL, every other field as uninitialised as malloc leaves it. */
    constructor (ocf: Ocf, parse: string -> Option<Doc>, linearCount: int)
      ensures this.ocf == ocf && this.parse == parse
      ensures State() == InitState(linearCount) && toc.None? && TocValid()
    {
      this.ocf := ocf;
      this.parse := parse;
      metadata, manifest, spine, guide, toc := None, None, None, None, None;
      tocSource := None;
      tocName := None;
      this.linearCount := linearCount;
    }

    /** _opf_parse_metadata from the metadata tag at position k; stop is where the loop ended. */
    method ParseMetadata(nodes: seq<XmlNode>, k: nat) returns (stop: nat)
      requires k < |nodes|
      modifies this`metadata
      ensures stop == StopAt(nodes, k + 1, "metadata")
      ensures metadata == Some(MetaFold(nodes, k + 1, stop))
    {
      var meta;
      meta, stop := ReadMetadata(nodes, k);
      metadata := Some(meta);
    }

    /** _opf_parse_manifest from the manifest tag at position k. */
    method ParseManifest(nodes: seq<XmlNode>, k: nat) returns (stop: nat)
      requires k < |nodes|
      modifies this`manifest
      ensures stop == StopAt(nodes, k + 1, "manifest")
      ensures manifest == Some(Starts(nodes, k + 1, stop, ManifestItem))
    {
      var items;
      items, stop := ReadManifestItems(nodes, k);
      manifest := Some(items);
    }

    /** _opf_parse_guide from the guide tag at position k. */
    method ParseGuide(nodes: seq<XmlNode>, k: nat) returns (stop: nat)
      requires k < |nodes|
      modifies this`guide
      ensures stop == StopAt(nodes, k + 1, "guides")
      ensures guide == Some(Starts(nodes, k + 1, stop, GuideItem))
    {
      var items;
      items, stop := ReadGuideItems(nodes, k);
      guide := Some(items);
    }

    /** The toc lookup at the head of _opf_parse_spine, for the spine tag n. */
    method SpineTocLookup(n: XmlNode) returns (defined: bool)
      requires TocValid()
      modifies this`tocName, this`toc, this`tocSource
      ensures (State(), defined) == SpineToc(old(State()), n, ocf.archive, ocf.datapath)
      ensures TocValid()
    {
      tocName := GetAttribute(n, "toc");
      if tocName.None? {
        toc, tocSource := None, None;
        return true;
      }
      if manifest.None? || !IdScanDefined(manifest.value, tocName.value) {
        return false;
      }
      var item := ManifestGetById(manifest.value, tocName.value);
      if item.None? || item.value.href.None? || ocf.datapath.None? {
        return false;
      }
      var size, tocStr := ocf.GetDataFile(item.value.href.value);
      if size > 0 {
        var path := ocf.datapath.value + item.value.href.value;
        assert path in ocf.archive && tocStr.value[..size] == ocf.archive[path];
        var t := ParseToc(tocStr.value[..size], parse);
        toc, tocSource := Some(t), Some(tocStr.value[..size]);
      }
      defined := true;
    }

    /** _opf_parse_spine from the spine tag at position k. */
    method ParseSpine(nodes: seq<XmlNode>, k: nat) returns (defined: bool, stop: nat)
      requires k < |nodes| && TocValid()
      modifies this`tocName, this`toc, this`tocSource, this`spine, this`linearCount
      ensures (State(), defined, stop) == SpineOf(nodes, k, old(State()), ocf.archive, ocf.datapath)
      ensures TocValid()
    {
      defined := SpineTocLookup(nodes[k]);
      if !defined {
        return false, k + 1;
      }
      var items, count;
      items, count, stop := ReadSpineItems(nodes, k, linearCount);
      spine, linearCount := Some(items), count;
    }

    /** One turn of the _opf_parse loop at position pos. */
    method Dispatch(nodes: seq<XmlNode>, pos: nat) returns (defined: bool, next: nat)
      requires pos < |nodes| && TocValid()
      modifies this`metadata, this`manifest, this`spine, this`guide, this`toc, this`tocSource, this`tocName, this`linearCount
      ensures (State(), defined, next) == OpfStep(nodes, pos, old(State()), ocf.archive, ocf.datapath)
      ensures TocValid()
    {
      var name := nodes[pos].name;
      if name == "metadata" {
        var stop := ParseMetadata(nodes, pos);
        return true, Advance(nodes, stop);
      } else if name == "manifest" {
        var stop := ParseManifest(nodes, pos);
        return true, Advance(nodes, stop);
      } else if name == "spine" {
        var stop;
        defined, stop := ParseSpine(nodes, pos);
        next := if defined then Advance(nodes, stop) else pos + 1;
      } else if name == "guide" {
        var stop := ParseGuide(nodes, pos);
        return true, Advance(nodes, stop);
      } else if name == "tours" {
        return false, pos + 1;
      } else {
        return true, pos + 1;
      }
    }
  }

  /** The item loop of _opf_parse_manifest after the manifest tag at position k. */
  method ReadManifestItems(nodes: seq<XmlNode>, k: nat) returns (items: seq<Manifest>, stop: nat)
    requires k < |nodes|
    ensures stop == StopAt(nodes, k + 1, "manifest")
    ensures items == Starts(nodes, k + 1, stop, ManifestItem)
  {
    items := [];
    var p := k + 1;
    while p < |nodes| && !NameIs(nodes[p], "manifest")
      invariant k + 1 <= p <= |nodes|
      invariant StopAt(nodes, p, "manifest") == StopAt(nodes, k + 1, "manifest")
      invariant items == Starts(nodes, k + 1, p, ManifestItem)
      decreases |nodes| - p
    {
      StopAtSkip(nodes, p, "manifest");
      if nodes[p].nodeType == START {
        items := items + [ManifestItem(nodes[p])];
      }
      p := p + 1;
    }
    stop := p;
  }

  /** The item loop of _opf_parse_guide after the guide tag at position k. */
  method ReadGuideItems(nodes: seq<XmlNode>, k: nat) returns (items: seq<Guide>, stop: nat)
    requires k < |nodes|
    ensures stop == StopAt(nodes, k + 1, "guides")
    ensures items == Starts(nodes, k + 1, stop, GuideItem)
  {
    items := [];
    var p := k + 1;
    while p < |nodes| && !NameIs(nodes[p], "guides")
      invariant k + 1 <= p <= |nodes|
      invariant StopAt(nodes, p, "guides") == StopAt(nodes, k + 1, "guides")
      invariant items == Starts(nodes, k + 1, p, GuideItem)
      decreases |nodes| - p
    {
      StopAtSkip(nodes, p, "guides");
      if nodes[p].nodeType == START {
        items := items + [GuideItem(nodes[p])];
      }
      p := p + 1;
    }
    stop := p;
  }

  /** The metadata loop of _opf_parse_metadata after the metadata tag at position k. */
  method ReadMetadata(nodes: seq<XmlNode>, k: nat) returns (meta: Metadata, stop: nat)
    requires k < |nodes|
    ensures stop == StopAt(nodes, k + 1, "metadata")
    ensures meta == MetaFold(nodes, k + 1, stop)
  {
    meta := EmptyMetadata;
    var p := k + 1;
    while p < |nodes| && !NameIs(nodes[p], "metadata")
      invariant k + 1 <= p <= |nodes|
      invariant StopAt(nodes, p, "metadata") == StopAt(nodes, k + 1, "metadata")
      invariant meta == MetaFold(nodes, k + 1, p)
      decreases |nodes| - p
    {
      StopAtSkip(nodes, p, "metadata");
      meta := MetaNode(nodes, k + 1, p, meta);
      p := p + 1;
    }
    stop := p;
  }

  /** One turn of the metadata loop, on the record built from the nodes lo..p-1. */
  method MetaNode(nodes: seq<XmlNode>, lo: nat, p: nat, meta: Metadata) returns (meta': Metadata)
    requires lo <= p < |nodes| && meta == MetaFold(nodes, lo, p)
    ensures meta' == MetaFold(nodes, lo, p + 1)
  {
    meta' := MetaStep(meta, nodes[p]);
  }

  /** The itemref loop of _opf_parse_spine after the spine tag at position k, counting linear items on top of linearCount. */
  method ReadSpineItems(nodes: seq<XmlNode>, k: nat, linearCount: int) returns (items: seq<Spine>, count: int, stop: nat)
    requires k < |nodes|
    ensures stop == StopAt(nodes, k + 1, "spine")
    ensures items == Starts(nodes, k + 1, stop, SpineItem)
    ensures count == linearCount + LinearCount(items)
  {
    items, count := [], linearCount;
    var p := k + 1;
    while p < |nodes| && !NameIs(nodes[p], "spine")
      invariant k + 1 <= p <= |nodes|
      invariant StopAt(nodes, p, "spine") == StopAt(nodes, k + 1, "spine")
      invariant SpineRead(nodes, k + 1, p, items, count, linearCount)
      decreases |nodes| - p
    {
      StopAtSkip(nodes, p, "spine");
      items, count := SpineNode(nodes, k + 1, p, items, count, linearCount);
      p := p + 1;
    }
    stop := p;
  }

  /** The itemref loop has read the nodes lo..p-1: one item per start tag, and the linear ones counted. */
  predicate SpineRead(nodes: seq<XmlNode>, lo: nat, p: nat, items: seq<Spine>, count: int, linearCount: int)
    requires p <= |nodes|
  {
    items == Starts(nodes, lo, p, SpineItem) && count == linearCount + LinearCount(items)
  }

  /** One node of the itemref loop: a start tag appends its item and counts it when it is linear. */
  method SpineNode(nodes: seq<XmlNode>, lo: nat, p: nat, items: seq<Spine>, count: int, ghost linearCount: int)
    returns (items': seq<Spine>, count': int)
    requires lo <= p < |nodes|
    requires SpineRead(nodes, lo, p, items, count, linearCount)
    ensures SpineRead(nodes, lo, p + 1, items', count', linearCount)
  {
    items', count' := items, count;
    if nodes[p].nodeType == START {
      var item := SpineItem(nodes[p]);
      LinearCountSnoc(items, item);
      if item.linear == 1 {
        count' := count + 1;
      }
      items' := items + [item];
    }
  }

  /**
   * _opf_parse: NULL when no reader can be made or the read ends in an
   * error; otherwise the package record the dispatch loop built.  defined
   * is false when the loop reached undefined behaviour, and then nothing is
   * said about the result.
   */
  method ParseOpf(opfStr: string, ocf: Ocf, parse: string -> Option<Doc>, linearCount: int) returns (opf: Opf?, defined: bool)
    ensures parse(CStr(opfStr)).None? ==> opf == null && defined
    ensures parse(CStr(opfStr)).Some? ==>
              var doc := parse(CStr(opfStr)).value;
              var run := OpfRun(doc.nodes, 0, InitState(linearCount), ocf.archive, ocf.datapath);
              defined == run.1 &&
              (defined ==> (opf != null <==> doc.wellFormed)) &&
              (defined && opf != null ==> opf.ocf == ocf && opf.parse == parse && opf.State() == run.0 && opf.TocValid())
  {
    var o := new Opf(ocf, parse, linearCount);
    var reader := parse(CStr(opfStr));
    if reader.None? {
      return null, true;
    }
    var doc := reader.value;
    var nodes := doc.nodes;
    var pos := 0;
    while pos < |nodes|
      invariant pos <= |nodes| && o.ocf == ocf && o.parse == parse && o.TocValid()
      invariant OpfRun(nodes, pos, o.State(), ocf.archive, ocf.datapath) == OpfRun(nodes, 0, InitState(linearCount), ocf.archive, ocf.datapath)
      decreases |nodes| - pos
    {
      var ok, next := o.Dispatch(nodes, pos);
      if !ok {
        return o, false;
      }
      pos := next;
    }
    defined := true;
    opf := if ReadStatus(doc, |nodes|) != 0 then null else o;
  }
}
