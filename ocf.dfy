/**
 * The Open Container Format layer: the zip archive as a finite map from
 * entry names to their bytes, the mimetype entry, the rootfile list of
 * META-INF/container.xml and file reads relative to the package directory.
 */
module Ocf {
  import opened Wrappers
  import opened CString
  import opened XmlReader
  import opened EpubTypes

  const MIMETYPE_FILENAME: string := "mimetype"
  const CONTAINER_PATH: string := "META-INF/container.xml"
  const DEFAULT_MIMETYPE: string := "application/epub+zip"

  /**
   * What _ocf_get_file reports for an entry: -1 and a NULL buffer when the
   * archive has no such entry, otherwise the entry's byte count and a
   * buffer holding the bytes followed by a NUL.
   */
  predicate GotFile(archive: map<string, seq<char>>, name: string, size: int, fileStr: Option<seq<char>>)
  {
    if name in archive then size == |archive[name]| && fileStr == Some(archive[name] + ['\0'])
    else size == -1 && fileStr.None?
  }

  /** The root a rootfile node contributes: its media-type and full-path attributes, either possibly NULL. */
  function RootOf(n: XmlNode): (r: Root)
    ensures r.mediatype == GetAttribute(n, "media-type") && r.fullpath == GetAttribute(n, "full-path")
  {
    Root(GetAttribute(n, "media-type"), GetAttribute(n, "full-path"))
  }

  /** Whether a node is a rootfile, by case-insensitive local name and whatever its node type. */
  predicate IsRootfile(n: XmlNode)
    ensures IsRootfile(n) ==> |n.localName| == |"rootfile"|
  {
    LocalIs(n, "rootfile")
  }

  /** The rootfile test is xmlStrcasecmp of the local name with "rootfile" returning 0, for start and end tags alike. */
  lemma RootfileTest(n: XmlNode)
    ensures IsRootfile(n) <==> StrCaseCmp(n.localName, "rootfile") == 0
    ensures IsRootfile(n) == IsRootfile(n.(nodeType := START)) == IsRootfile(n.(nodeType := END))
  {
    assert Lower("rootfile") == "rootfile";
    NameTestsAreStrCaseCmp(n, "rootfile");
  }

  /** The roots a run of reader nodes contributes, in document order. */
  function RootsOf(nodes: seq<XmlNode>): (r: seq<Root>)
    ensures |r| <= |nodes|
  {
    if nodes == [] then []
    else RootsOf(nodes[..|nodes| - 1]) + (if IsRootfile(nodes[|nodes| - 1]) then [RootOf(nodes[|nodes| - 1])] else [])
  }

  /** The roots of consecutive runs of nodes are the roots of each run, in order. */
  lemma {:induction false} RootsOfAppend(a: seq<XmlNode>, b: seq<XmlNode>)
    ensures RootsOf(a + b) == RootsOf(a) + RootsOf(b)
  {
    if b == [] {
      assert a + b == a;
    } else {
      var last := b[|b| - 1];
      assert (a + b)[..|a + b| - 1] == a + b[..|b| - 1];
      RootsOfAppend(a, b[..|b| - 1]);
    }
  }

  /** One more node read adds its root, if it is a rootfile. */
  lemma RootsOfPrefix(nodes: seq<XmlNode>, k: nat)
    requires k < |nodes|
    ensures RootsOf(nodes[..k + 1]) == RootsOf(nodes[..k]) + if IsRootfile(nodes[k]) then [RootOf(nodes[k])] else []
  {
    assert nodes[..k + 1][..k] == nodes[..k];
  }

  /** A single node gives its root exactly when it is a rootfile. */
  lemma RootsOfSingle(n: XmlNode)
    ensures RootsOf([n]) == if IsRootfile(n) then [RootOf(n)] else []
  {
    assert [n][..0] == [];
  }

  /** Nodes none of which is a rootfile give no root. */
  lemma {:induction false} RootsOfNone(nodes: seq<XmlNode>)
    requires forall i :: 0 <= i < |nodes| ==> !IsRootfile(nodes[i])
    ensures RootsOf(nodes) == []
  {
    if nodes != [] {
      RootsOfNone(nodes[..|nodes| - 1]);
    }
  }

  /** The container and rootfiles elements, start or end, add no root. */
  lemma ContainerElementsAddNothing(n: XmlNode)
    requires LocalIs(n, "container") || LocalIs(n, "rootfiles")
    ensures RootsOf([n]) == []
  {
    if LocalIs(n, "container") {
      LocalIsExcludes(n, "container", "rootfile");
    } else {
      LocalIsExcludes(n, "rootfiles", "rootfile");
    }
    RootsOfSingle(n);
  }

  /** Two rootfile nodes in a row, the second without attributes. */
  lemma RootsOfPair(start: XmlNode, end: XmlNode)
    requires IsRootfile(start) && IsRootfile(end) && end.attrs == map[]
    ensures RootsOf([start, end]) == [RootOf(start), Root(None, None)]
  {
    assert GetAttribute(end, "media-type").None? && GetAttribute(end, "full-path").None?;
    RootsOfSingle(start);
    RootsOfSingle(end);
    RootsOfAppend([start], [end]);
    assert [start] + [end] == [start, end];
  }

  /**
   * Without a node-type check, a rootfile written with an explicit end tag
   * adds two roots: its own, and one with the end node's attributes, none
   * when the end node carries none.
   */
  lemma RootfileEndTagAddsRoot(before: seq<XmlNode>, start: XmlNode, end: XmlNode, after: seq<XmlNode>)
    requires IsRootfile(start) && IsRootfile(end) && end.attrs == map[]
    ensures RootsOf(before + [start, end] + after) == RootsOf(before) + [RootOf(start), Root(None, None)] + RootsOf(after)
  {
    var pair := [RootOf(start), Root(None, None)];
    RootsOfPair(start, end);
    RootsOfAppend(before, [start, end]);
    RootsOfAppend(before + [start, end], after);
    assert RootsOf(before + [start, end] + after) == RootsOf(before) + pair + RootsOf(after);
  }

  /** The early exit of _ocf_parse_container, as ocf.c:26 writes it: C's ! on the size, true only for 0. */
  predicate ContainerGuardAsWritten(size: int)
    ensures size < 0 ==> !ContainerGuardAsWritten(size)
  {
    size == 0
  }

  /** A missing container reports -1 and a NULL buffer, and the guard as written lets it through to strlen. */
  lemma MissingContainerPassesGuard(archive: map<string, seq<char>>, size: int, fileStr: Option<seq<char>>)
    requires CONTAINER_PATH !in archive && GotFile(archive, CONTAINER_PATH, size, fileStr)
    ensures !ContainerGuardAsWritten(size) && fileStr.None?
  {
  }

  /** The early exit as intended: stop unless the read produced at least one byte. */
  predicate ContainerGuard(size: int)
    ensures ContainerGuard(size) <==> ContainerGuardAsWritten(size) || size < 0
  {
    size <= 0
  }

  /** Past the intended guard there is always a buffer, and it holds the whole entry. */
  lemma ContainerGuardAdmitsOnlyBuffers(archive: map<string, seq<char>>, name: string, size: int, fileStr: Option<seq<char>>)
    requires GotFile(archive, name, size, fileStr)
    ensures !ContainerGuard(size) <==> name in archive && |archive[name]| > 0
    ensures !ContainerGuard(size) ==> fileStr.Some? && fileStr.value[..size] == archive[name]
  {
    if name in archive {
      assert fileStr.value[..size] == archive[name];
    }
  }

  /** Whether a scan for the first root of this media type compares only present media types. */
  predicate ScanDefined(roots: seq<Root>, mediaType: string)
  {
    roots == [] || (roots[0].mediatype.Some? && (roots[0].mediatype.value != mediaType ==> ScanDefined(roots[1..], mediaType)))
  }

  /** Where FindNode with the media-type comparator stops: the first root of this media type. */
  function FirstOfType(roots: seq<Root>, mediaType: string): (r: Option<nat>)
    requires ScanDefined(roots, mediaType)
    ensures r.Some? ==> r.value < |roots| && roots[r.value].mediatype == Some(mediaType)
    ensures r.Some? ==> forall j :: 0 <= j < r.value ==> roots[j].mediatype != Some(mediaType)
    ensures r.None? ==> forall j :: 0 <= j < |roots| ==> roots[j].mediatype != Some(mediaType)
  {
    if roots == [] then None
    else if StrCmp(roots[0].mediatype.value, mediaType) == 0 then Some(0)
    else match FirstOfType(roots[1..], mediaType)
      case None => None
      case Some(k) => Some(k + 1)
  }

  /**
   * _ocf_root_fullpath_by_type: a copy of the full path of the first root of
   * this media type, or NULL when there is none.
   */
  function RootFullpathByType(roots: seq<Root>, mediaType: string): (r: Option<string>)
    requires ScanDefined(roots, mediaType)
    requires FirstOfType(roots, mediaType).Some? ==> roots[FirstOfType(roots, mediaType).value].fullpath.Some?
    ensures r.None? <==> forall j :: 0 <= j < |roots| ==> roots[j].mediatype != Some(mediaType)
    ensures r.Some? ==> exists i :: 0 <= i < |roots| && roots[i].mediatype == Some(mediaType) && r == roots[i].fullpath &&
                                      forall j :: 0 <= j < i ==> roots[j].mediatype != Some(mediaType)
  {
    match FirstOfType(roots, mediaType)
    case None => None
    case Some(i) => roots[i].fullpath
  }

  /** struct ocf: the open archive, the package directory, the mimetype and the roots. */
  class Ocf {
    const archive: map<string, seq<char>>
    var datapath: Option<string>
    var mimetype: Option<string>
    var roots: seq<Root>

    /** _ocf_parse's set-up: no data path yet and an empty root list. */
    constructor (archive: map<string, seq<char>>)
      ensures this.archive == archive && datapath.None? && mimetype.None? && roots == []
    {
      this.archive := archive;
      datapath := None;
      mimetype := None;
      roots := [];
    }

    /**
     * _ocf_get_file: -1 and NULL for a missing entry; otherwise the byte
     * count n and a buffer of n + 1 bytes, the entry followed by a NUL.
     */
    method GetFile(filename: string) returns (size: int, fileStr: Option<seq<char>>)
      ensures GotFile(archive, filename, size, fileStr)
      ensures size == -1 <==> fileStr.None?
      ensures fileStr.Some? ==> size >= 0 && |fileStr.value| == size + 1 && fileStr.value[size] == '\0'
      ensures fileStr.Some? ==> CStr(fileStr.value) == CStr(archive[filename])
    {
      if filename !in archive {
        return -1, None;
      }
      var content := archive[filename];
      CStrTerminated(content);
      size, fileStr := |content|, Some(content + ['\0']);
    }

    /** _ocf_get_data_file: _ocf_get_file on the name joined onto the data path. */
    method GetDataFile(filename: string) returns (size: int, fileStr: Option<seq<char>>)
      requires datapath.Some?
      ensures GotFile(archive, datapath.value + filename, size, fileStr)
    {
      size, fileStr := GetFile(datapath.value + filename);
    }

    /** _ocf_parse_mimetype: the mimetype entry's text, or the EPUB media type when there is no entry. */
    method ParseMimetype() returns (r: int)
      modifies this`mimetype
      ensures r == 1
      ensures MIMETYPE_FILENAME in archive ==> mimetype == Some(CStr(archive[MIMETYPE_FILENAME]))
      ensures MIMETYPE_FILENAME !in archive ==> mimetype == Some(DEFAULT_MIMETYPE)
    {
      var size, fileStr := GetFile(MIMETYPE_FILENAME);
      if size == -1 {
        mimetype := Some(DEFAULT_MIMETYPE);
      } else {
        mimetype := Some(CStr(fileStr.value));
      }
      return 1;
    }

    /**
     * _ocf_parse_container, with the guard corrected: nothing happens and 0
     * is returned unless META-INF/container.xml has content and a reader can
     * be made for its text; then every rootfile node appends its root, and
     * the result is 1 exactly when the read ends cleanly.
     */
    method ParseContainer(parse: string -> Option<Doc>) returns (r: int)
      modifies this`roots
      ensures r == 0 || r == 1
      ensures CONTAINER_PATH !in archive || |archive[CONTAINER_PATH]| == 0 ==> r == 0 && roots == old(roots)
      ensures CONTAINER_PATH in archive && |archive[CONTAINER_PATH]| > 0 ==>
                match parse(CStr(archive[CONTAINER_PATH]))
                case None => r == 0 && roots == old(roots)
                case Some(doc) => roots == old(roots) + RootsOf(doc.nodes) && (r == 1 <==> doc.wellFormed)
    {
      var size, containerXml := GetFile(CONTAINER_PATH);
      if ContainerGuard(size) {
        return 0;
      }
      var reader := parse(CStr(containerXml.value));
      if reader.None? {
        return 0;
      }
      var ret := ReadRoots(reader.value);
      if ret != 0 {
        return 0;
      }
      return 1;
    }

    /** The read loop of _ocf_parse_container: every node is dispatched, then the read reports how it ended. */
    method ReadRoots(doc: Doc) returns (ret: int)
      modifies this`roots
      ensures roots == old(roots) + RootsOf(doc.nodes)
      ensures ret == ReadStatus(doc, |doc.nodes|)
    {
      var k := 0;
      ret := ReadStatus(doc, k);
      while ret == 1
        invariant 0 <= k <= |doc.nodes| && ret == ReadStatus(doc, k)
        invariant roots == old(roots) + RootsOf(doc.nodes[..k])
        decreases |doc.nodes| - k
      {
        var added := ContainerNode(doc.nodes[k]);
        roots := roots + added;
        RootsOfPrefix(doc.nodes, k);
        k := k + 1;
        ret := ReadStatus(doc, k);
      }
      assert doc.nodes[..k] == doc.nodes;
    }

    /** The dispatch on one reader node: container and rootfiles are only recognised, a rootfile gives its root. */
    method ContainerNode(node: XmlNode) returns (added: seq<Root>)
      ensures added == if IsRootfile(node) then [RootOf(node)] else []
    {
      if LocalIs(node, "container") {
        LocalIsExcludes(node, "container", "rootfile");
        added := [];
      } else if LocalIs(node, "rootfiles") {
        LocalIsExcludes(node, "rootfiles", "rootfile");
        added := [];
      } else if LocalIs(node, "rootfile") {
        added := [RootOf(node)];
      } else {
        added := [];
      }
    }
  }
}
