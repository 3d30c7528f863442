/**
 * The records of epublib.h that the parsers build.  Every pointer that may be
 * NULL is an Option; the lists the records own (each a LIST-type container,
 * appended to in call order) are sequences.  Field names follow the C
 * structs, renamed where the C name is a Dafny keyword (type, class, label).
 */
module EpubTypes {
  import opened Wrappers

  /** struct root: one rootfile of META-INF/container.xml. */
  datatype Root = Root(mediatype: Option<string>, fullpath: Option<string>)

  /** struct id: a dc:identifier. */
  datatype Id = Id(id: Option<string>, scheme: Option<string>, str: Option<string>)

  /** struct date: a dc:date and its event. */
  datatype Date = Date(date: Option<string>, event: Option<string>)

  /** struct creator: a dc:creator or dc:contributor. */
  datatype Creator = Creator(name: Option<string>, fileAs: Option<string>, role: Option<string>)

  /** struct meta: an extra meta element. */
  datatype Meta = Meta(name: Option<string>, content: Option<string>)

  /** struct metadata: the sixteen metadata lists, in element order. */
  datatype Metadata = Metadata(
    id: seq<Id>,
    title: seq<Option<string>>,
    creator: seq<Creator>,
    contrib: seq<Creator>,
    subject: seq<Option<string>>,
    publisher: seq<Option<string>>,
    description: seq<Option<string>>,
    date: seq<Date>,
    docType: seq<Option<string>>,
    format: seq<Option<string>>,
    source: seq<Option<string>>,
    lang: seq<Option<string>>,
    relation: seq<Option<string>>,
    coverage: seq<Option<string>>,
    rights: seq<Option<string>>,
    meta: seq<Meta>)

  /** _opf_init_metadata: all sixteen lists empty. */
  const EmptyMetadata: Metadata := Metadata([], [], [], [], [], [], [], [], [], [], [], [], [], [], [], [])

  /** struct manifest: one manifest item and its seven attributes. */
  datatype Manifest = Manifest(
    nspace: Option<string>,
    modules: Option<string>,
    id: Option<string>,
    href: Option<string>,
    mediaType: Option<string>,
    fallback: Option<string>,
    fbStyle: Option<string>)

  /** struct spine: one itemref; linear is 1 or 0. */
  datatype Spine = Spine(idref: Option<string>, linear: int)

  /** struct guide: one guide reference. */
  datatype Guide = Guide(guideType: Option<string>, title: Option<string>, href: Option<string>)

  /** struct tocLabel: a navLabel or navInfo. */
  datatype TocLabel = TocLabel(lang: Option<string>, dir: Option<string>, text: Option<string>)

  /**
   * struct tocItem: a navPoint, navTarget or pageTarget.  Its label list is
   * NULL until the first navLabel inside it; an entry of a label list is NULL
   * when the label's parse ran into the end of the document.
   */
  datatype TocItem = TocItem(
    id: Option<string>,
    src: Option<string>,
    className: Option<string>,
    itemType: Option<string>,
    labels: Option<seq<Option<TocLabel>>>,
    depth: int,
    playOrder: int,
    value: int)

  /** struct tocCategory: a navMap, navList or pageList. */
  datatype TocCategory = TocCategory(
    id: Option<string>,
    className: Option<string>,
    info: seq<Option<TocLabel>>,
    labels: seq<Option<TocLabel>>,
    items: seq<TocItem>)

  /** _opf_init_toc_category: no id or class and three empty lists. */
  const EmptyCategory: TocCategory := TocCategory(None, None, [], [], [])

  /** struct toc: the three categories and every recorded item in play order. */
  datatype Toc = Toc(
    navMap: Option<TocCategory>,
    pageList: Option<TocCategory>,
    navList: Option<TocCategory>,
    playOrder: seq<TocItem>)
}
