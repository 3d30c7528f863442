/**
 * epub.c: the package directory worked out when a book is opened, the
 * spine iterators, the table-of-contents iterators and the metadata
 * accessor.  The spine, guide and toc lists are the sequences the parsers
 * built; a node of one of them is an index into its sequence, and NULL is
 * None.
 */
module Epub {
  import opened Wrappers
  import CString
  import opened XmlReader
  import opened EpubTypes
  import opened Ocf
  import opened Opf

  /** PATH_SEPARATOR outside Windows. */
  const PATH_SEPARATOR: char := '/'

  /** The media type epub_open looks for among the container's roots. */
  const OPF_MEDIA_TYPE: string := "application/oebps-package+xml"

  // ---------------------------------------------------------------------
  // The data path
  // ---------------------------------------------------------------------

  /** strrchr for the separator: the position of the last separator, or NULL. */
  function LastSeparator(s: string): (r: Option<nat>)
    ensures r.Some? ==> r.value < |s| && s[r.value] == PATH_SEPARATOR
    ensures r.Some? ==> forall j :: r.value < j < |s| ==> s[j] != PATH_SEPARATOR
    ensures r.None? ==> forall j :: 0 <= j < |s| ==> s[j] != PATH_SEPARATOR
  {
    if s == [] then None
    else if s[|s| - 1] == PATH_SEPARATOR then Some(|s| - 1)
    else LastSeparator(s[..|s| - 1])
  }

  /**
   * The data path epub_open stores in the ocf: the package path up to and
   * including its last separator, or the empty string when it has none.
   */
  function DataPath(opfName: string): (r: string)
    ensures |r| <= |opfName| && r == opfName[..|r|]
    ensures r == [] || r[|r| - 1] == PATH_SEPARATOR
    ensures forall j :: |r| <= j < |opfName| ==> opfName[j] != PATH_SEPARATOR
  {
    match LastSeparator(opfName)
    case None => []
    case Some(i) => opfName[..i + 1]
  }

  /** A directory (empty or ending in the separator) followed by a bare file name has that directory as its data path. */
  lemma DataPathUnique(dir: string, name: string)
    requires dir == [] || dir[|dir| - 1] == PATH_SEPARATOR
    requires forall j :: 0 <= j < |name| ==> name[j] != PATH_SEPARATOR
    ensures DataPath(dir + name) == dir
  {
    var s := dir + name;
    var r := DataPath(s);
    assert r == s[..|dir|];
  }

  /** What _ocf_get_file leaves in its buffer for an entry name: the bytes and a NUL, or NULL when there is no such entry. */
  function DataFile(archive: map<string, seq<char>>, name: string): (r: Option<seq<char>>)
    ensures r.Some? <==> name in archive
  {
    if name in archive then Some(archive[name] + ['\0']) else None
  }

  /** struct epub: the container and the package record (the error slot and the debug level are not modelled). */
  class Epub {
    const ocf: Ocf
    const opf: Opf

    constructor (ocf: Ocf, opf: Opf)
      ensures this.ocf == ocf && this.opf == opf
    {
      this.ocf := ocf;
      this.opf := opf;
    }
  }

  /**
   * epub_open, after _ocf_parse has produced ocf: find the package
   * document among the roots, set the data path from its name, read it and
   * parse it; NULL when there is no package root, no such entry, or the
   * package does not parse.  garbage is the value malloc left in
   * linearCount.  defined is false once undefined behaviour is reached (a
   * root without a media type met by the scan, a package root without a
   * full path, or undefined behaviour in the package parser), and then
   * nothing more is said.
   */
  method Open(ocf: Ocf, parse: string -> Option<Doc>, garbage: int) returns (epub: Epub?, defined: bool)
    modifies ocf`datapath
    ensures !ScanDefined(ocf.roots, OPF_MEDIA_TYPE) ==> !defined
    ensures ScanDefined(ocf.roots, OPF_MEDIA_TYPE) && FirstOfType(ocf.roots, OPF_MEDIA_TYPE).None? ==>
              epub == null && defined && ocf.datapath == old(ocf.datapath)
    ensures ScanDefined(ocf.roots, OPF_MEDIA_TYPE) && FirstOfType(ocf.roots, OPF_MEDIA_TYPE).Some? ==>
              var name := ocf.roots[FirstOfType(ocf.roots, OPF_MEDIA_TYPE).value].fullpath;
              (name.None? ==> !defined) &&
              (name.Some? ==> (ocf.datapath == Some(DataPath(name.value)) &&
                (name.value !in ocf.archive ==> epub == null && defined) &&
                (name.value in ocf.archive ==>
                  var text := CString.CStr(ocf.archive[name.value] + ['\0']);
                  (parse(text).None? ==> epub == null && defined) &&
                  (parse(text).Some? ==>
                    var doc := parse(text).value;
                    var run := OpfRun(doc.nodes, 0, InitState(garbage), ocf.archive, ocf.datapath);
                    defined == run.1 &&
                    (defined ==> (epub != null <==> doc.wellFormed)) &&
                    (defined && epub != null ==>
                       epub.ocf == ocf && epub.opf.ocf == ocf && epub.opf.parse == parse &&
                       epub.opf.State() == run.0 && epub.opf.TocValid())))))
  {
    if !ScanDefined(ocf.roots, OPF_MEDIA_TYPE) {
      return null, false;
    }
    var first := FirstOfType(ocf.roots, OPF_MEDIA_TYPE);
    if first.Some? && ocf.roots[first.value].fullpath.None? {
      return null, false;
    }
    var opfName := RootFullpathByType(ocf.roots, OPF_MEDIA_TYPE);
    if opfName.None? {
      return null, true;
    }
    ocf.datapath := Some(DataPath(opfName.value));
    var size, opfStr := ocf.GetFile(opfName.value);
    if opfStr.None? {
      return null, true;
    }
    var opf;
    opf, defined := ParseOpf(opfStr.value, ocf, parse, garbage);
    if !defined || opf == null {
      return null, defined;
    }
    epub := new Epub(ocf, opf);
  }

  // ---------------------------------------------------------------------
  // Spine iterators
  // ---------------------------------------------------------------------

  /** The first spine position at or after start whose linear flag is linear, or NULL. */
  function FirstWith(spine: seq<Spine>, start: nat, linear: int): (r: Option<nat>)
    ensures r.Some? ==> start <= r.value < |spine| && spine[r.value].linear == linear
    ensures r.Some? ==> forall j :: start <= j < r.value ==> spine[j].linear != linear
    ensures r.None? ==> forall j :: start <= j < |spine| ==> spine[j].linear != linear
    decreases |spine| - start
  {
    if start >= |spine| then None
    else if spine[start].linear == linear then Some(start)
    else FirstWith(spine, start + 1, linear)
  }

  /** A position with the flag and none before it since start is the one FirstWith finds. */
  lemma {:induction false} FirstWithUnique(spine: seq<Spine>, start: nat, linear: int, i: nat)
    requires start <= i < |spine| && spine[i].linear == linear
    requires forall j :: start <= j < i ==> spine[j].linear != linear
    ensures FirstWith(spine, start, linear) == Some(i)
    decreases i - start
  {
    if start < i {
      FirstWithUnique(spine, start + 1, linear, i);
    }
  }

  /**
   * _get_spine_it_next: NULL for a NULL node; otherwise the first node
   * whose flag equals linear, from curr itself when init is set and from
   * the node after it otherwise, or NULL when there is none.  (Inside the
   * loop a node always has data, so its NULL-data check never fires.)
   */
  method SpineItNext(spine: seq<Spine>, curr: Option<nat>, linear: int, init: bool) returns (r: Option<nat>)
    requires curr.Some? ==> curr.value < |spine|
    ensures curr.None? ==> r.None?
    ensures curr.Some? ==> r == FirstWith(spine, if init then curr.value else curr.value + 1, linear)
  {
    if curr.None? {
      return None;
    }
    ghost var start := if init then curr.value else curr.value + 1;
    var c := curr.value;
    if !init {
      c := c + 1;
    }
    while c < |spine|
      invariant start <= c <= |spine|
      invariant FirstWith(spine, c, linear) == FirstWith(spine, start, linear)
      decreases |spine| - c
    {
      if spine[c].linear == linear {
        return Some(c);
      }
      c := c + 1;
    }
    return None;
  }

  /** enum eiterator_type. */
  datatype EIteratorType = SpineIterator | LinearIterator | NonLinearIterator

  /** The linear flag a filtering iterator looks for. */
  function Flag(t: EIteratorType): int
  {
    if t == LinearIterator then 1 else 0
  }

  /** Whether an iterator of type t stops at a spine entry. */
  predicate Selects(t: EIteratorType, s: Spine)
  {
    t == SpineIterator || s.linear == Flag(t)
  }

  /** The positions from start on an iterator of type t stops at, in spine order. */
  function Selected(spine: seq<Spine>, t: EIteratorType, start: nat): (r: seq<nat>)
    ensures forall k :: 0 <= k < |r| ==> start <= r[k] < |spine| && Selects(t, spine[r[k]])
    decreases |spine| - start
  {
    if start >= |spine| then []
    else (if Selects(t, spine[start]) then [start] else []) + Selected(spine, t, start + 1)
  }

  /** Selected lists its positions in increasing order. */
  lemma {:induction false} SelectedIncreasing(spine: seq<Spine>, t: EIteratorType, start: nat)
    ensures forall a, b :: 0 <= a < b < |Selected(spine, t, start)| ==> Selected(spine, t, start)[a] < Selected(spine, t, start)[b]
    decreases |spine| - start
  {
    if start < |spine| {
      SelectedIncreasing(spine, t, start + 1);
      var rest := Selected(spine, t, start + 1);
      if Selects(t, spine[start]) {
        var r := [start] + rest;
        assert Selected(spine, t, start) == r;
        forall a, b | 0 <= a < b < |r|
          ensures r[a] < r[b]
        {
          if a > 0 {
            assert r[a] == rest[a - 1] && r[b] == rest[b - 1];
          } else {
            assert r[b] == rest[b - 1];
          }
        }
      } else {
        assert Selected(spine, t, start) == rest;
      }
    }
  }

  /** Every position from start the iterator stops at is in Selected. */
  lemma {:induction false} SelectedComplete(spine: seq<Spine>, t: EIteratorType, start: nat, j: nat)
    requires start <= j < |spine| && Selects(t, spine[j])
    ensures j in Selected(spine, t, start)
    decreases j - start
  {
    if start < j {
      SelectedComplete(spine, t, start + 1, j);
    }
  }

  /** Positions the iterator passes over add nothing. */
  lemma {:induction false} SkipUnselected(spine: seq<Spine>, t: EIteratorType, a: nat, b: nat)
    requires a <= b <= |spine|
    requires forall j :: a <= j < b ==> !Selects(t, spine[j])
    ensures Selected(spine, t, a) == Selected(spine, t, b)
    decreases b - a
  {
    if a < b {
      SkipUnselected(spine, t, a + 1, b);
    }
  }

  /** The positions still ahead of an iterator standing at curr, curr included. */
  function Ahead(spine: seq<Spine>, t: EIteratorType, curr: Option<nat>): seq<nat>
  {
    match curr
    case None => []
    case Some(i) => Selected(spine, t, i)
  }

  /**
   * An iterator standing at curr after visiting seen: curr is a position it
   * stops at, and what it has seen followed by what is ahead is everything
   * it stops at.
   */
  predicate Tracks(spine: seq<Spine>, t: EIteratorType, seen: seq<nat>, curr: Option<nat>)
  {
    (curr.Some? ==> curr.value < |spine| && Selects(t, spine[curr.value])) &&
    seen + Ahead(spine, t, curr) == Selected(spine, t, 0)
  }

  /** Where epub_get_iterator starts. */
  function Start(spine: seq<Spine>, t: EIteratorType): (r: Option<nat>)
    ensures r.Some? ==> r.value < |spine| && Selects(t, spine[r.value]) && forall j :: 0 <= j < r.value ==> !Selects(t, spine[j])
    ensures r.None? ==> forall j :: 0 <= j < |spine| ==> !Selects(t, spine[j])
  {
    if |spine| == 0 then None
    else if t == SpineIterator then Some(0)
    else FirstWith(spine, 0, Flag(t))
  }

  /** Where epub_it_get_next moves from position i. */
  function Following(spine: seq<Spine>, t: EIteratorType, i: nat): (r: Option<nat>)
    ensures r.Some? ==> i < r.value < |spine| && Selects(t, spine[r.value]) && forall j :: i < j < r.value ==> !Selects(t, spine[j])
    ensures r.None? ==> forall j :: i < j < |spine| ==> !Selects(t, spine[j])
  {
    if t == SpineIterator then (if i + 1 < |spine| then Some(i + 1) else None)
    else FirstWith(spine, i + 1, Flag(t))
  }

  /** After the first FirstWith from start, the selected positions are the ones from where it stopped. */
  lemma FirstWithAhead(spine: seq<Spine>, t: EIteratorType, start: nat)
    requires t != SpineIterator && start <= |spine|
    ensures var f := FirstWith(spine, start, Flag(t));
            (f.Some? ==> Selects(t, spine[f.value])) && Ahead(spine, t, f) == Selected(spine, t, start)
  {
    var f := FirstWith(spine, start, Flag(t));
    if f.Some? {
      SkipUnselected(spine, t, start, f.value);
    } else {
      SkipUnselected(spine, t, start, |spine|);
    }
  }

  /** A fresh iterator has seen nothing and stands at its first stop. */
  lemma StartTracks(spine: seq<Spine>, t: EIteratorType)
    ensures Tracks(spine, t, [], Start(spine, t))
  {
    if |spine| > 0 && t != SpineIterator {
      FirstWithAhead(spine, t, 0);
    }
  }

  /** What is ahead after moving on from a position i is what Selected lists after i. */
  lemma FollowingAhead(spine: seq<Spine>, t: EIteratorType, i: nat)
    requires i < |spine|
    ensures var f := Following(spine, t, i);
            (f.Some? ==> f.value < |spine| && Selects(t, spine[f.value])) && Ahead(spine, t, f) == Selected(spine, t, i + 1)
  {
    if t != SpineIterator {
      FirstWithAhead(spine, t, i + 1);
    }
  }

  /** Moving on from position i adds i to what has been seen and keeps the iterator on track. */
  lemma NextTracks(spine: seq<Spine>, t: EIteratorType, seen: seq<nat>, i: nat)
    requires Tracks(spine, t, seen, Some(i))
    ensures Tracks(spine, t, seen + [i], Following(spine, t, i))
  {
    var rest := Selected(spine, t, i + 1);
    assert Selected(spine, t, i) == [i] + rest;
    FollowingAhead(spine, t, i);
    assert seen + [i] + rest == seen + ([i] + rest);
  }

  /**
   * An iterator that has run off the end has visited exactly the entries
   * its type selects, each once and in spine order: all of them for SPINE,
   * those with linear == 1 for LINEAR and linear == 0 for NONLINEAR.
   */
  lemma Visited(spine: seq<Spine>, t: EIteratorType, seen: seq<nat>)
    requires Tracks(spine, t, seen, None)
    ensures forall j :: j in seen <==> 0 <= j < |spine| && Selects(t, spine[j])
    ensures forall a, b :: 0 <= a < b < |seen| ==> seen[a] < seen[b]
  {
    assert seen == Selected(spine, t, 0);
    SelectedIncreasing(spine, t, 0);
    forall j | 0 <= j < |spine| && Selects(t, spine[j])
      ensures j in seen
    {
      SelectedComplete(spine, t, 0, j);
    }
  }

  /** Whether _opf_manifest_get_by_id with this idref is defined: a NULL or empty manifest, or an idref scan that meets only ids. */
  predicate UrlDefined(manifest: Option<seq<Manifest>>, idref: Option<string>)
    ensures manifest.Some? && manifest.value != [] && idref.None? ==> !UrlDefined(manifest, idref)
    ensures manifest.Some? && idref.Some? ==>
              (UrlDefined(manifest, idref) <==> forall j :: 0 <= j < |manifest.value| && ScanReaches(manifest.value, idref, j) ==> manifest.value[j].id.Some?)
  {
    if manifest.Some? && idref.Some? then
      IdScanDefinedReaches(manifest.value, idref.value);
      manifest.value == [] || IdScanDefined(manifest.value, idref.value)
    else manifest.None? || manifest.value == []
  }

  /**
   * _get_spine_it_url for a spine entry with this idref: the href of the
   * first manifest item with that id, NULL when the idref is dangling.
   */
  function SpineUrl(manifest: Option<seq<Manifest>>, idref: Option<string>): (r: Option<string>)
    requires UrlDefined(manifest, idref)
    ensures r.Some? ==> (manifest.Some? && idref.Some? &&
              exists i :: 0 <= i < |manifest.value| && manifest.value[i].id == idref && manifest.value[i].href == r &&
                          forall j :: 0 <= j < i ==> manifest.value[j].id != idref)
    ensures manifest.Some? && (forall j :: 0 <= j < |manifest.value| ==> manifest.value[j].id != idref) ==> r.None?
  {
    if manifest.None? || manifest.value == [] then None
    else match ManifestGetById(manifest.value, idref.value)
      case None => None
      case Some(m) => m.href
  }

  /** The url of an entry whose id is carried by exactly one manifest item is that item's href. */
  lemma SpineUrlFinds(manifest: seq<Manifest>, idref: string, i: nat)
    requires IdScanDefined(manifest, idref)
    requires i < |manifest| && manifest[i].id == Some(idref)
    requires forall j :: 0 <= j < |manifest| && j != i ==> manifest[j].id != Some(idref)
    ensures UrlDefined(Some(manifest), Some(idref)) && SpineUrl(Some(manifest), Some(idref)) == manifest[i].href
  {
    ManifestGetByIdUnique(manifest, idref, i);
  }

  /**
   * struct eiterator: its type, book and option, the current spine node
   * and the cached content of that node's file.  seen records the
   * positions the iterator has moved past.
   */
  class EIterator {
    const kind: EIteratorType
    const epub: Epub
    const opt: int
    var curr: Option<nat>
    var cache: Option<seq<char>>
    ghost var seen: seq<nat>

    ghost predicate Valid()
      reads this, epub, epub.opf
    {
      epub.opf.spine.Some? && Tracks(epub.opf.spine.value, kind, seen, curr)
    }

    /** Whether reading the current entry's file is defined: a current node, a data path and a url for its idref. */
    ghost predicate CanRead()
      reads this, epub, epub.opf, epub.ocf
      requires Valid()
    {
      curr.Some? && epub.ocf.datapath.Some? &&
      UrlDefined(epub.opf.manifest, epub.opf.spine.value[curr.value].idref) &&
      SpineUrl(epub.opf.manifest, epub.opf.spine.value[curr.value].idref).Some?
    }

    /** The buffer _ocf_get_data_file gives for the current entry. */
    ghost function CurrFile(): Option<seq<char>>
      reads this, epub, epub.opf, epub.ocf
      requires Valid() && CanRead()
    {
      DataFile(epub.ocf.archive, epub.ocf.datapath.value + SpineUrl(epub.opf.manifest, epub.opf.spine.value[curr.value].idref).value)
    }

    /** The allocation in epub_get_iterator: no cache, nothing seen, standing at curr. */
    constructor (kind: EIteratorType, epub: Epub, opt: int, curr: Option<nat>)
      requires epub.opf.spine.Some? && Tracks(epub.opf.spine.value, kind, [], curr)
      ensures this.kind == kind && this.epub == epub && this.opt == opt
      ensures this.curr == curr && cache.None? && seen == [] && Valid()
    {
      this.kind := kind;
      this.epub := epub;
      this.opt := opt;
      this.curr := curr;
      cache := None;
      seen := [];
    }

    /**
     * epub_it_get_curr_url through _get_spine_it_url: the href of the
     * current entry's manifest item, NULL when the idref is dangling.
     * Undefined without a current node (its data is dereferenced) or when
     * the manifest lookup is.
     */
    method GetCurrUrl() returns (url: Option<string>, defined: bool)
      requires Valid()
      ensures curr.None? ==> !defined
      ensures curr.Some? ==> var idref := epub.opf.spine.value[curr.value].idref;
                             defined == UrlDefined(epub.opf.manifest, idref) &&
                             (defined ==> url == SpineUrl(epub.opf.manifest, idref))
    {
      if curr.None? {
        return None, false;
      }
      var idref := epub.opf.spine.value[curr.value].idref;
      if !UrlDefined(epub.opf.manifest, idref) {
        return None, false;
      }
      return SpineUrl(epub.opf.manifest, idref), true;
    }

    /**
     * epub_it_get_curr: NULL without a current node; the cached buffer when
     * there is one; otherwise the current entry's file, read through
     * _ocf_get_data_file and kept as the cache.  A dangling idref hands a
     * NULL url to _ocf_get_data_file, which is undefined.
     */
    method GetCurr() returns (r: Option<seq<char>>, defined: bool)
      requires Valid()
      modifies this`cache
      ensures Valid()
      ensures curr.None? ==> r.None? && cache == old(cache) && defined
      ensures curr.Some? && old(cache).Some? ==> r == old(cache) && cache == old(cache) && defined
      ensures curr.Some? && old(cache).None? ==> (defined <==> CanRead()) && (defined ==> cache == CurrFile() && r == cache)
    {
      if curr.None? {
        return None, true;
      }
      if cache.None? {
        var fileStr;
        fileStr, defined := ReadCurr();
        if !defined {
          return None, false;
        }
        cache := fileStr;
      }
      return cache, true;
    }

    /** The read in epub_it_get_curr: _ocf_get_data_file on the current entry's url. */
    method ReadCurr() returns (fileStr: Option<seq<char>>, defined: bool)
      requires Valid() && curr.Some?
      ensures defined <==> CanRead()
      ensures defined ==> fileStr == CurrFile()
    {
      var url, ok := GetCurrUrl();
      if !ok || url.None? || epub.ocf.datapath.None? {
        return None, false;
      }
      var size;
      size, fileStr := epub.ocf.GetDataFile(url.value);
      defined := true;
    }

    /**
     * epub_it_get_next: release the cache; NULL when there is no current
     * node; otherwise move to the next node the type selects and read it as
     * epub_it_get_curr does.
     */
    method GetNext() returns (r: Option<seq<char>>, defined: bool)
      requires Valid()
      modifies this`cache, this`curr, this`seen
      ensures Valid()
      ensures old(curr).None? ==> r.None? && curr.None? && cache.None? && seen == old(seen) && defined
      ensures old(curr).Some? ==> seen == old(seen) + [old(curr).value] &&
                                  curr == Following(epub.opf.spine.value, kind, old(curr).value)
      ensures old(curr).Some? && curr.None? ==> r.None? && cache.None? && defined
      ensures old(curr).Some? && curr.Some? ==> (defined <==> CanRead()) && (defined ==> cache == CurrFile() && r == cache)
    {
      cache := None;
      if curr.None? {
        return None, true;
      }
      Step();
      r, defined := GetCurr();
    }

    /** The move in epub_it_get_next: the next node the type selects, the old one recorded as seen. */
    method Step()
      requires Valid() && curr.Some?
      modifies this`curr, this`seen
      ensures Valid()
      ensures seen == old(seen) + [old(curr).value] && curr == Following(epub.opf.spine.value, kind, old(curr).value)
    {
      var spine := epub.opf.spine.value;
      var i := curr.value;
      NextTracks(spine, kind, seen, i);
      if kind == SpineIterator {
        curr := if i + 1 < |spine| then Some(i + 1) else None;
      } else {
        curr := SpineItNext(spine, curr, Flag(kind), false);
      }
      seen := seen + [i];
    }

    /** epub_free_iterator: the cache is released first; the object itself is not modelled past this. */
    method Free()
      modifies this`cache
      ensures cache.None?
    {
      cache := None;
    }
  }

  /**
   * epub_get_iterator: NULL for NULL epub; otherwise an iterator standing
   * at the first entry its type selects.  The spine list is dereferenced,
   * so a book without a spine is undefined.
   */
  method GetIterator(epub: Epub?, kind: EIteratorType, opt: int) returns (it: EIterator?, defined: bool)
    ensures epub == null ==> it == null && defined
    ensures epub != null ==> (defined <==> epub.opf.spine.Some?)
    ensures epub != null && defined ==>
              it != null && fresh(it) && it.kind == kind && it.epub == epub && it.opt == opt &&
              it.Valid() && it.seen == [] && it.cache.None? && it.curr == Start(epub.opf.spine.value, kind)
  {
    if epub == null {
      return null, true;
    }
    if epub.opf.spine.None? {
      return null, false;
    }
    var spine := epub.opf.spine.value;
    var head := if |spine| > 0 then Some(0) else None;
    var curr;
    if kind == SpineIterator {
      curr := head;
    } else {
      curr := SpineItNext(spine, head, Flag(kind), true);
    }
    StartTracks(spine, kind);
    it := new EIterator(kind, epub, opt, curr);
    defined := true;
  }

  // ---------------------------------------------------------------------
  // Table-of-contents iterators
  // ---------------------------------------------------------------------

  /** enum titerator_type. */
  datatype TIteratorType = NavMapIterator | GuideIterator | PagesIterator

  /** A node of the list a table-of-contents iterator walks: a guide reference or a toc item. */
  datatype TitNode = GuideNode(guide: Guide) | ItemNode(item: TocItem)

  /** Whether epub_tit_next on this node is defined: the label lookup needs the metadata and the item's label list. */
  predicate NodeDefined(metadata: Option<Metadata>, n: TitNode)
  {
    n.GuideNode? ||
    (metadata.Some? && n.item.labels.Some? && LabelScanDefined(n.item.labels.value, DocLang(metadata.value)))
  }

  /** The label epub_tit_next caches: a guide entry's title; an item's document-language label, or its id. */
  function NodeLabel(metadata: Option<Metadata>, n: TitNode): (r: Option<string>)
    requires NodeDefined(metadata, n)
    ensures n.GuideNode? ==> r == n.guide.title
    ensures n.ItemNode? ==>
              forall i :: FirstMatch(n.item.labels.value, DocLang(metadata.value), i) && n.item.labels.value[i].value.text.Some? ==>
                r == n.item.labels.value[i].value.text
    ensures n.ItemNode? && LabelGetByDocLang(metadata.value, n.item.labels.value).Some? ==> r == LabelGetByDocLang(metadata.value, n.item.labels.value)
    ensures n.ItemNode? && LabelGetByDocLang(metadata.value, n.item.labels.value).None? ==> r == n.item.id
  {
    match n
    case GuideNode(g) => g.title
    case ItemNode(t) =>
      var l := LabelGetByDocLang(metadata.value, t.labels.value);
      if l.None? then t.id else l
  }

  /** The link epub_tit_next caches: a guide entry's href, an item's src. */
  function NodeLink(n: TitNode): (r: Option<string>)
    ensures n.GuideNode? ==> r == n.guide.href
    ensures n.ItemNode? ==> r == n.item.src
  {
    match n
    case GuideNode(g) => g.href
    case ItemNode(t) => t.src
  }

  /** The depth epub_tit_next caches: 1 for a guide entry, an item's own depth. */
  function NodeDepth(n: TitNode): (r: int)
    ensures n.GuideNode? ==> r == 1
    ensures n.ItemNode? ==> r == n.item.depth
  {
    match n
    case GuideNode(_) => 1
    case ItemNode(t) => t.depth
  }

  /** A toc item whose labels include none for the document language is labelled by its id. */
  lemma NodeLabelFallsBack(metadata: Metadata, t: TocItem)
    requires t.labels.Some?
    requires forall j :: 0 <= j < |t.labels.value| ==> t.labels.value[j].Some? && !LangMatches(t.labels.value[j].value, DocLang(metadata))
    ensures NodeDefined(Some(metadata), ItemNode(t)) && NodeLabel(Some(metadata), ItemNode(t)) == t.id
  {
    NoMatchScanDefined(t.labels.value, DocLang(metadata));
  }

  /** A label list none of whose labels matches can be scanned to its end. */
  lemma {:induction false} NoMatchScanDefined(labels: seq<Option<TocLabel>>, lang: Option<string>)
    requires forall j :: 0 <= j < |labels| ==> labels[j].Some? && !LangMatches(labels[j].value, lang)
    ensures LabelScanDefined(labels, lang)
  {
    if labels != [] {
      assert labels[0].Some? && !LangMatches(labels[0].value, lang);
      assert forall j :: 0 <= j < |labels[1..]| ==> labels[1..][j] == labels[j + 1];
      NoMatchScanDefined(labels[1..], lang);
    }
  }

  /** What the cache of a table-of-contents iterator holds after a step: label, link and depth. */
  datatype Shown = Shown(caption: Option<string>, link: Option<string>, depth: int)

  /** The cache epub_tit_next fills from one node. */
  function ShowOf(metadata: Option<Metadata>, n: TitNode): Shown
    requires NodeDefined(metadata, n)
  {
    Shown(NodeLabel(metadata, n), NodeLink(n), NodeDepth(n))
  }

  /** The caches successive epub_tit_next calls fill from the nodes ns, in order. */
  function Shows(metadata: Option<Metadata>, ns: seq<TitNode>): (r: seq<Shown>)
    requires forall i :: 0 <= i < |ns| ==> NodeDefined(metadata, ns[i])
    ensures |r| == |ns|
  {
    if ns == [] then [] else Shows(metadata, ns[..|ns| - 1]) + [ShowOf(metadata, ns[|ns| - 1])]
  }

  /** The i-th cache is filled from the i-th node. */
  lemma {:induction false} ShowsAt(metadata: Option<Metadata>, ns: seq<TitNode>, i: nat)
    requires forall j :: 0 <= j < |ns| ==> NodeDefined(metadata, ns[j])
    requires i < |ns|
    ensures Shows(metadata, ns)[i] == ShowOf(metadata, ns[i])
    decreases |ns|
  {
    if i < |ns| - 1 {
      ShowsAt(metadata, ns[..|ns| - 1], i);
    }
  }

  /** The guide as the list a GUIDE iterator walks. */
  function GuideNodes(guide: seq<Guide>): (r: seq<TitNode>)
    ensures |r| == |guide| && forall i :: 0 <= i < |r| ==> r[i] == GuideNode(guide[i])
  {
    seq(|guide|, i requires 0 <= i < |guide| => GuideNode(guide[i]))
  }

  /** A category's items as the list a NAVMAP or PAGES iterator walks. */
  function ItemNodes(items: seq<TocItem>): (r: seq<TitNode>)
    ensures |r| == |items| && forall i :: 0 <= i < |r| ==> r[i] == ItemNode(items[i])
  {
    seq(|items|, i requires 0 <= i < |items| => ItemNode(items[i]))
  }

  /**
   * A GUIDE iterator walked to its end shows every guide reference once, in
   * guide order, each with its title, its href and depth 1.
   */
  lemma GuideWalk(metadata: Option<Metadata>, guide: seq<Guide>)
    ensures forall i :: 0 <= i < |guide| ==> NodeDefined(metadata, GuideNodes(guide)[i])
    ensures |Shows(metadata, GuideNodes(guide))| == |guide|
    ensures forall i :: 0 <= i < |guide| ==> Shows(metadata, GuideNodes(guide))[i] == Shown(guide[i].title, guide[i].href, 1)
  {
    forall i | 0 <= i < |guide|
      ensures Shows(metadata, GuideNodes(guide))[i] == Shown(guide[i].title, guide[i].href, 1)
    {
      ShowsAt(metadata, GuideNodes(guide), i);
    }
  }

  /**
   * A NAVMAP iterator walked to its end shows every navPoint once, in
   * document order, each with its document-language label (or its id), its
   * src and its depth.
   */
  lemma NavMapWalk(metadata: Option<Metadata>, items: seq<TocItem>)
    requires forall i :: 0 <= i < |items| ==> NodeDefined(metadata, ItemNode(items[i]))
    ensures forall i :: 0 <= i < |items| ==> NodeDefined(metadata, ItemNodes(items)[i])
    ensures |Shows(metadata, ItemNodes(items))| == |items|
    ensures forall i :: 0 <= i < |items| ==>
              Shows(metadata, ItemNodes(items))[i] == Shown(NodeLabel(metadata, ItemNode(items[i])), items[i].src, items[i].depth)
  {
    forall i | 0 <= i < |items|
      ensures Shows(metadata, ItemNodes(items))[i] == Shown(NodeLabel(metadata, ItemNode(items[i])), items[i].src, items[i].depth)
    {
      ShowsAt(metadata, ItemNodes(items), i);
    }
  }

  /**
   * struct titerator: its type, book and option, the list it walks, the
   * pending node, whether the cache holds an entry, and the cached label,
   * link and depth.
   */
  class TIterator {
    const kind: TIteratorType
    const epub: Epub
    const opt: int
    const nodes: seq<TitNode>
    var next: Option<nat>
    var valid: int
    var caption: Option<string>
    var target: Option<string>
    var depth: int
    /** The caches filled so far, one per node consumed. */
    ghost var shown: seq<Shown>

    /** The pending node is in the list, which holds guide entries exactly for GUIDE. */
    ghost predicate Valid()
      reads this
    {
      (next.Some? ==> next.value < |nodes|) &&
      forall i :: 0 <= i < |nodes| ==> (nodes[i].GuideNode? <==> kind == GuideIterator)
    }

    /**
     * The walk so far: the nodes before the pending one (all nodes once
     * nothing is pending) were consumed in list order, each filling the
     * cache once.
     */
    ghost predicate Walking()
      reads this, epub.opf
    {
      var k := if next.Some? then next.value else |nodes|;
      k <= |nodes| && (forall i :: 0 <= i < k ==> NodeDefined(epub.opf.metadata, nodes[i])) &&
      shown == Shows(epub.opf.metadata, nodes[..k])
    }

    /** Once nothing is pending the walk has shown every node exactly once, in order. */
    lemma Exhausted()
      requires Walking() && next.None?
      ensures forall i :: 0 <= i < |nodes| ==> NodeDefined(epub.opf.metadata, nodes[i])
      ensures shown == Shows(epub.opf.metadata, nodes)
    {
      assert nodes[..|nodes|] == nodes;
    }

    /** The allocation in epub_get_titerator: nothing pending, not valid, no label or link, depth -1. */
    constructor (kind: TIteratorType, epub: Epub, opt: int, nodes: seq<TitNode>)
      requires forall i :: 0 <= i < |nodes| ==> (nodes[i].GuideNode? <==> kind == GuideIterator)
      ensures this.kind == kind && this.epub == epub && this.opt == opt && this.nodes == nodes
      ensures next.None? && valid == 0 && caption.None? && target.None? && depth == -1 && Valid()
      ensures shown == []
    {
      this.kind := kind;
      this.epub := epub;
      this.opt := opt;
      this.nodes := nodes;
      next := None;
      valid := 0;
      caption := None;
      target := None;
      depth := -1;
      shown := [];
    }

    /**
     * epub_tit_next: with nothing pending, valid becomes 0 and the result
     * is 0; otherwise the pending node is consumed, its label, link and
     * depth are cached, the node after it becomes pending, valid becomes 1
     * and the result is 1.  Undefined for a toc item without a label list,
     * or without metadata.
     */
    method TitNext() returns (r: int, defined: bool)
      requires Valid()
      modifies this`next, this`valid, this`caption, this`target, this`depth, this`shown
      ensures Valid()
      ensures old(next).None? ==> r == 0 && valid == 0 && defined && next.None? &&
                                  caption == old(caption) && target == old(target) && depth == old(depth) &&
                                  shown == old(shown)
      ensures old(next).Some? ==>
                var i := old(next).value;
                next == (if i + 1 < |nodes| then Some(i + 1) else None) &&
                (defined <==> NodeDefined(epub.opf.metadata, nodes[i])) &&
                (defined ==> r == 1 && valid == 1 && caption == NodeLabel(epub.opf.metadata, nodes[i]) &&
                             target == NodeLink(nodes[i]) && depth == NodeDepth(nodes[i]))
      ensures old(next).Some? && defined ==> shown == old(shown) + [ShowOf(epub.opf.metadata, nodes[old(next).value])]
      ensures old(Walking()) && defined ==> Walking()
    {
      if next.None? {
        valid := 0;
        return 0, true;
      }
      var i := next.value;
      next := if i + 1 < |nodes| then Some(i + 1) else None;
      if kind == GuideIterator {
        var g := nodes[i].guide;
        caption, target, depth := g.title, g.href, 1;
      } else {
        var t := nodes[i].item;
        var metadata := epub.opf.metadata;
        if metadata.None? || t.labels.None? || !LabelScanDefined(t.labels.value, DocLang(metadata.value)) {
          return 0, false;
        }
        caption := LabelGetByDocLang(metadata.value, t.labels.value);
        if caption.None? {
          caption := t.id;
        }
        depth, target := t.depth, t.src;
      }
      assert nodes[..i + 1][..i] == nodes[..i];
      assert i + 1 == |nodes| ==> nodes[..i + 1] == nodes;
      shown := shown + [ShowOf(epub.opf.metadata, nodes[i])];
      valid := 1;
      return 1, true;
    }
  }

  /** Whether the NAVMAP category label lookup is defined. */
  predicate CategoryDefined(metadata: Option<Metadata>, c: TocCategory)
  {
    metadata.Some? && LabelScanDefined(c.labels, DocLang(metadata.value))
  }

  /**
   * epub_get_titerator: NULL for NULL epub, for NAVMAP without a toc or
   * navMap and for GUIDE without a guide.  The PAGES test is inverted: NULL
   * without a toc or with a pageList, and with a toc but no pageList the
   * NULL pageList is dereferenced.  NAVMAP caches the navMap's label at
   * depth 0 and is valid; when no label was cached the iterator moves to
   * the first node.
   */
  method GetTIterator(epub: Epub?, kind: TIteratorType, opt: int) returns (it: TIterator?, defined: bool)
    ensures epub == null ==> it == null && defined
    ensures epub != null && kind == GuideIterator ==>
              var g := epub.opf.guide;
              (g.None? ==> it == null && defined) &&
              (g.Some? ==> defined && it != null && fresh(it) && it.Valid() && it.Walking() && it.nodes == GuideNodes(g.value) &&
                           (|g.value| == 0 ==> it.valid == 0 && it.next.None? && it.caption.None? && it.target.None? &&
                                               it.depth == -1 && it.shown == []) &&
                           (|g.value| > 0 ==> it.valid == 1 && it.next == (if |g.value| > 1 then Some(1) else None) &&
                                              it.caption == g.value[0].title && it.target == g.value[0].href && it.depth == 1 &&
                                              it.shown == [Shown(g.value[0].title, g.value[0].href, 1)]))
    ensures epub != null && kind == PagesIterator ==>
              (epub.opf.toc.None? || epub.opf.toc.value.pageList.Some? ==> it == null && defined) &&
              (epub.opf.toc.Some? && epub.opf.toc.value.pageList.None? ==> !defined)
    ensures epub != null && kind == NavMapIterator ==>
              var toc := epub.opf.toc;
              (toc.None? || toc.value.navMap.None? ==> it == null && defined) &&
              (toc.Some? && toc.value.navMap.Some? ==>
                var c := toc.value.navMap.value;
                var m := epub.opf.metadata;
                (!CategoryDefined(m, c) ==> !defined) &&
                (CategoryDefined(m, c) ==>
                  var l := LabelGetByDocLang(m.value, c.labels);
                  (l.Some? ==> defined && it != null && fresh(it) && it.Valid() && it.Walking() && it.nodes == ItemNodes(c.items) &&
                               it.valid == 1 && it.caption == l && it.target.None? && it.depth == 0 && it.shown == [] &&
                               it.next == (if |c.items| > 0 then Some(0) else None)) &&
                  (l.None? && c.items == [] ==> defined && it != null && fresh(it) && it.Valid() && it.Walking() && it.nodes == [] &&
                                                it.valid == 0 && it.next.None? && it.caption.None? && it.target.None? &&
                                                it.depth == 0 && it.shown == []) &&
                  (l.None? && c.items != [] ==>
                    (defined <==> NodeDefined(m, ItemNode(c.items[0]))) &&
                    (defined ==> it != null && fresh(it) && it.Valid() && it.Walking() && it.nodes == ItemNodes(c.items) &&
                                 it.valid == 1 && it.next == (if |c.items| > 1 then Some(1) else None) &&
                                 it.caption == NodeLabel(m, ItemNode(c.items[0])) && it.target == c.items[0].src &&
                                 it.depth == c.items[0].depth && it.shown == [ShowOf(m, ItemNode(c.items[0]))]))))
  {
    if epub == null {
      return null, true;
    }
    var opf := epub.opf;
    if kind == NavMapIterator && (opf.toc.None? || opf.toc.value.navMap.None?) {
      return null, true;
    }
    if kind == GuideIterator && opf.guide.None? {
      return null, true;
    }
    if kind == PagesIterator && (opf.toc.None? || opf.toc.value.pageList.Some?) {
      return null, true;
    }
    if kind == PagesIterator {
      // it->next = epub->opf->toc->pageList->items->Head with a NULL pageList
      return null, false;
    }
    if kind == GuideIterator {
      var g := opf.guide.value;
      it := new TIterator(kind, epub, opt, GuideNodes(g));
      it.next := if |g| > 0 then Some(0) else None;
    } else {
      var c := opf.toc.value.navMap.value;
      if !CategoryDefined(opf.metadata, c) {
        return null, false;
      }
      it := new TIterator(kind, epub, opt, ItemNodes(c.items));
      it.next := if |c.items| > 0 then Some(0) else None;
      it.caption := LabelGetByDocLang(opf.metadata.value, c.labels);
      it.depth := 0;
      it.valid := 1;
    }
    if it.caption.None? {
      var _, ok := it.TitNext();
      if !ok {
        return null, false;
      }
    }
    defined := true;
  }

  /**
   * In a package record the parser built, a toc never has a pageList (the
   * pageList parser stores into navList), so by GetTIterator's contract a
   * PAGES iterator is NULL without a toc and undefined with one.
   */
  lemma PagesNeverIterate(opf: Opf)
    requires opf.TocValid()
    ensures opf.toc.Some? ==> opf.toc.value.pageList.None?
  {
  }

  // ---------------------------------------------------------------------
  // Metadata
  // ---------------------------------------------------------------------

  /** enum epub_metadata. */
  datatype MetadataType =
    | EpubId | EpubTitle | EpubCreator | EpubContrib | EpubSubject | EpubPublisher | EpubDescription | EpubDate
    | EpubType | EpubFormat | EpubSource | EpubLang | EpubRelation | EpubCoverage | EpubRights | EpubMeta

  /** The enum value with this number, or none for a number outside the enum. */
  function TypeOf(code: int): (r: Option<MetadataType>)
    ensures r.Some? <==> 0 <= code < 16
  {
    if code == 0 then Some(EpubId) else if code == 1 then Some(EpubTitle)
    else if code == 2 then Some(EpubCreator) else if code == 3 then Some(EpubContrib)
    else if code == 4 then Some(EpubSubject) else if code == 5 then Some(EpubPublisher)
    else if code == 6 then Some(EpubDescription) else if code == 7 then Some(EpubDate)
    else if code == 8 then Some(EpubType) else if code == 9 then Some(EpubFormat)
    else if code == 10 then Some(EpubSource) else if code == 11 then Some(EpubLang)
    else if code == 12 then Some(EpubRelation) else if code == 13 then Some(EpubCoverage)
    else if code == 14 then Some(EpubRights) else if code == 15 then Some(EpubMeta)
    else None
  }

  /** A payload of a metadata list, as the void pointer the formatter receives. */
  datatype Entry = IdEntry(id: Id) | TextEntry(text: Option<string>) | DateEntry(date: Date)
                 | CreatorEntry(creator: Creator) | MetaEntry(meta: Meta)

  /** What printf writes for a %s argument: the string, or "(null)" for NULL as the GNU C library does. */
  function PrintfStr(s: Option<string>): (r: string)
    ensures s.Some? ==> r == s.value
    ensures s.None? ==> r == "(null)"
  {
    if s.Some? then s.value else "(null)"
  }

  /** A present string, or the default. */
  function Or(s: Option<string>, default: string): string
  {
    if s.Some? then s.value else default
  }

  /** _getIdStr: "scheme (id:string)", a missing scheme or id printed as Unspecified. */
  function IdStr(d: Id): (r: string)
    ensures Or(d.scheme, "Unspecified") + " (" <= r && r[|r| - 1] == ')'
    ensures |r| == |Or(d.scheme, "Unspecified")| + |Or(d.id, "Unspecified")| + |PrintfStr(d.str)| + 4
  {
    Or(d.scheme, "Unspecified") + " (" + Or(d.id, "Unspecified") + ":" + PrintfStr(d.str) + ")"
  }

  /** _getDateStr: "event: date", a missing event printed as Unspecified. */
  function DateStr(d: Date): (r: string)
    ensures Or(d.event, "Unspecified") + ": " <= r
    ensures r[|Or(d.event, "Unspecified")| + 2..] == PrintfStr(d.date)
  {
    Or(d.event, "Unspecified") + ": " + PrintfStr(d.date)
  }

  /** _getMetaStr: "name: content", either missing part printed as Unspecified. */
  function MetaStr(d: Meta): (r: string)
    ensures Or(d.name, "Unspecified") + ": " <= r
    ensures r[|Or(d.name, "Unspecified")| + 2..] == Or(d.content, "Unspecified")
  {
    Or(d.name, "Unspecified") + ": " + Or(d.content, "Unspecified")
  }

  /** _getRoleStr: "role: name(fileAs)", the role defaulting to Author and the file-as name to the name. */
  function RoleStr(d: Creator): (r: string)
    ensures Or(d.role, "Author") + ": " + PrintfStr(d.name) + "(" <= r && r[|r| - 1] == ')'
    ensures d.fileAs.None? ==> r == Or(d.role, "Author") + ": " + PrintfStr(d.name) + "(" + PrintfStr(d.name) + ")"
  {
    Or(d.role, "Author") + ": " + PrintfStr(d.name) + "(" + (if d.fileAs.Some? then d.fileAs.value else PrintfStr(d.name)) + ")"
  }

  /** The formatter epub_get_metadata picks for a payload; _getXmlStr copies a text, NULL staying NULL. */
  function Format(e: Entry): (r: Option<string>)
    ensures e.TextEntry? ==> r == e.text
    ensures !e.TextEntry? ==> r.Some?
  {
    match e
    case IdEntry(d) => Some(IdStr(d))
    case TextEntry(t) => t
    case DateEntry(d) => Some(DateStr(d))
    case CreatorEntry(d) => Some(RoleStr(d))
    case MetaEntry(d) => Some(MetaStr(d))
  }

  /** A text list as payloads. */
  function Texts(xs: seq<Option<string>>): (r: seq<Entry>)
    ensures |r| == |xs| && forall i :: 0 <= i < |r| ==> r[i] == TextEntry(xs[i])
  {
    seq(|xs|, i requires 0 <= i < |xs| => TextEntry(xs[i]))
  }

  /** A creator or contributor list as payloads. */
  function Creators(xs: seq<Creator>): (r: seq<Entry>)
    ensures |r| == |xs| && forall i :: 0 <= i < |r| ==> r[i] == CreatorEntry(xs[i])
  {
    seq(|xs|, i requires 0 <= i < |xs| => CreatorEntry(xs[i]))
  }

  /** A text list is returned as it is stored: the same strings in the same order, NULL entries included. */
  lemma TextsVerbatim(xs: seq<Option<string>>)
    ensures Formatted(Texts(xs)) == xs
  {
  }

  /** A creator list is returned as one role string per record, in order. */
  lemma CreatorsFormatted(xs: seq<Creator>)
    ensures Formatted(Creators(xs)) == seq(|xs|, i requires 0 <= i < |xs| => Some(RoleStr(xs[i])))
  {
  }

  /** The list the switch of epub_get_metadata selects, as payloads. */
  function ListOf(m: Metadata, t: MetadataType): (r: seq<Entry>)
    ensures t == EpubId ==> Formatted(r) == seq(|m.id|, i requires 0 <= i < |m.id| => Some(IdStr(m.id[i])))
    ensures t == EpubCreator ==> Formatted(r) == seq(|m.creator|, i requires 0 <= i < |m.creator| => Some(RoleStr(m.creator[i])))
    ensures t == EpubContrib ==> Formatted(r) == seq(|m.contrib|, i requires 0 <= i < |m.contrib| => Some(RoleStr(m.contrib[i])))
    ensures t == EpubDate ==> Formatted(r) == seq(|m.date|, i requires 0 <= i < |m.date| => Some(DateStr(m.date[i])))
    ensures t == EpubMeta ==> Formatted(r) == seq(|m.meta|, i requires 0 <= i < |m.meta| => Some(MetaStr(m.meta[i])))
    ensures t == EpubTitle ==> Formatted(r) == m.title
    ensures t == EpubSubject ==> Formatted(r) == m.subject
    ensures t == EpubPublisher ==> Formatted(r) == m.publisher
    ensures t == EpubDescription ==> Formatted(r) == m.description
    ensures t == EpubType ==> Formatted(r) == m.docType
    ensures t == EpubFormat ==> Formatted(r) == m.format
    ensures t == EpubSource ==> Formatted(r) == m.source
    ensures t == EpubLang ==> Formatted(r) == m.lang
    ensures t == EpubRelation ==> Formatted(r) == m.relation
    ensures t == EpubCoverage ==> Formatted(r) == m.coverage
    ensures t == EpubRights ==> Formatted(r) == m.rights
  {
    match t
    case EpubId => seq(|m.id|, i requires 0 <= i < |m.id| => IdEntry(m.id[i]))
    case EpubTitle => TextsVerbatim(m.title); Texts(m.title)
    case EpubCreator => CreatorsFormatted(m.creator); Creators(m.creator)
    case EpubContrib => CreatorsFormatted(m.contrib); Creators(m.contrib)
    case EpubSubject => TextsVerbatim(m.subject); Texts(m.subject)
    case EpubPublisher => TextsVerbatim(m.publisher); Texts(m.publisher)
    case EpubDescription => TextsVerbatim(m.description); Texts(m.description)
    case EpubDate => seq(|m.date|, i requires 0 <= i < |m.date| => DateEntry(m.date[i]))
    case EpubType => TextsVerbatim(m.docType); Texts(m.docType)
    case EpubFormat => TextsVerbatim(m.format); Texts(m.format)
    case EpubSource => TextsVerbatim(m.source); Texts(m.source)
    case EpubLang => TextsVerbatim(m.lang); Texts(m.lang)
    case EpubRelation => TextsVerbatim(m.relation); Texts(m.relation)
    case EpubCoverage => TextsVerbatim(m.coverage); Texts(m.coverage)
    case EpubRights => TextsVerbatim(m.rights); Texts(m.rights)
    case EpubMeta => seq(|m.meta|, i requires 0 <= i < |m.meta| => MetaEntry(m.meta[i]))
  }

  /** The strings epub_get_metadata returns for a list: one per payload, in list order. */
  function Formatted(list: seq<Entry>): (r: seq<Option<string>>)
    ensures |r| == |list| && forall i :: 0 <= i < |r| ==> r[i] == Format(list[i])
    ensures forall i :: 0 <= i < |r| ==> (r[i].None? <==> list[i].TextEntry? && list[i].text.None?)
  {
    seq(|list|, i requires 0 <= i < |list| => Format(list[i]))
  }

  /**
   * epub_get_metadata: NULL (and *size untouched) for NULL epub, a book
   * without metadata, a number outside the enum or an empty list;
   * otherwise a fresh array of one formatted string per list entry, in
   * list order, with *size set to the list's length.
   */
  method GetMetadata(epub: Epub?, code: int) returns (data: array?<Option<string>>, size: Option<int>)
    ensures epub == null || epub.opf.metadata.None? || TypeOf(code).None? ==> data == null && size.None?
    ensures epub != null && epub.opf.metadata.Some? && TypeOf(code).Some? ==>
              var list := ListOf(epub.opf.metadata.value, TypeOf(code).value);
              (list == [] ==> data == null && size.None?) &&
              (list != [] ==> data != null && fresh(data) && size == Some(|list|) && data[..] == Formatted(list))
  {
    if epub == null || epub.opf.metadata.None? {
      return null, None;
    }
    var t := TypeOf(code);
    if t.None? {
      return null, None;
    }
    var list := ListOf(epub.opf.metadata.value, t.value);
    if |list| <= 0 {
      return null, None;
    }
    data := FillStrings(list);
    size := Some(|list|);
  }

  /** The allocation and the loop of epub_get_metadata: slot i holds the formatted entry i. */
  method FillStrings(list: seq<Entry>) returns (data: array<Option<string>>)
    requires list != []
    ensures fresh(data) && data[..] == Formatted(list)
  {
    data := new Option<string>[|list|];
    data[0] := Format(list[0]);
    var i := 1;
    while i < |list|
      invariant 1 <= i <= |list| && data.Length == |list|
      invariant forall k :: 0 <= k < i ==> data[k] == Format(list[k])
      decreases |list| - i
    {
      data[i] := Format(list[i]);
      i := i + 1;
    }
    assert data[..] == Formatted(list);
  }

  /** A creator with only a name reads "Author: name(name)". */
  lemma RoleStrDefaults(name: string)
    ensures RoleStr(Creator(Some(name), None, None)) == "Author: " + name + "(" + name + ")"
  {
  }

  /** An identifier without scheme or id reads "Unspecified (Unspecified:text)". */
  lemma IdStrDefaults(text: string)
    ensures IdStr(Id(None, None, Some(text))) == "Unspecified (Unspecified:" + text + ")"
  {
  }

  /** A date without an event reads "Unspecified: date", a meta without name or content "Unspecified: Unspecified". */
  lemma DateAndMetaDefaults(date: string)
    ensures DateStr(Date(Some(date), None)) == "Unspecified: " + date
    ensures MetaStr(Meta(None, None)) == "Unspecified: Unspecified"
  {
  }

  /** The text before the first c, which is all of s when s has no c. */
  function UpTo(s: string, c: char): (r: string)
    ensures |r| <= |s| && r == s[..|r|] && c !in r
    ensures |r| < |s| ==> s[|r|] == c
  {
    if s == [] || s[0] == c then [] else [s[0]] + UpTo(s[1..], c)
  }

  /** A text without c followed by c is what UpTo recovers. */
  lemma UpToJoin(a: string, b: string, c: char)
    requires c !in a && b != [] && b[0] == c
    ensures UpTo(a + b, c) == a
  {
    var r := UpTo(a + b, c);
    assert r == (a + b)[..|a|];
  }

  /** The role (Author when missing) is the text before the first colon whenever it has no colon itself. */
  lemma RoleStrField(d: Creator)
    requires ':' !in Or(d.role, "Author")
    ensures UpTo(RoleStr(d), ':') == Or(d.role, "Author")
  {
    var rest := ": " + PrintfStr(d.name) + "(" + (if d.fileAs.Some? then d.fileAs.value else PrintfStr(d.name)) + ")";
    assert RoleStr(d) == Or(d.role, "Author") + rest;
    UpToJoin(Or(d.role, "Author"), rest, ':');
  }

  /** The event (Unspecified when missing) is the text before the first colon whenever it has no colon itself. */
  lemma DateStrField(d: Date)
    requires ':' !in Or(d.event, "Unspecified")
    ensures UpTo(DateStr(d), ':') == Or(d.event, "Unspecified")
  {
    var rest := ": " + PrintfStr(d.date);
    assert DateStr(d) == Or(d.event, "Unspecified") + rest;
    UpToJoin(Or(d.event, "Unspecified"), rest, ':');
  }

  /** The meta name (Unspecified when missing) is the text before the first colon whenever it has no colon itself. */
  lemma MetaStrField(d: Meta)
    requires ':' !in Or(d.name, "Unspecified")
    ensures UpTo(MetaStr(d), ':') == Or(d.name, "Unspecified")
  {
    var rest := ": " + Or(d.content, "Unspecified");
    assert MetaStr(d) == Or(d.name, "Unspecified") + rest;
    UpToJoin(Or(d.name, "Unspecified"), rest, ':');
  }

  /** The scheme (Unspecified when missing) is the text before the first space whenever it has no space itself. */
  lemma IdStrField(d: Id)
    requires ' ' !in Or(d.scheme, "Unspecified")
    ensures UpTo(IdStr(d), ' ') == Or(d.scheme, "Unspecified")
  {
    var rest := " (" + Or(d.id, "Unspecified") + ":" + PrintfStr(d.str) + ")";
    assert IdStr(d) == Or(d.scheme, "Unspecified") + rest;
    UpToJoin(Or(d.scheme, "Unspecified"), rest, ' ');
  }
}
