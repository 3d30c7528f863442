/**
 * The comparators the library hands to FindNode and SortList for its own
 * records: roots by media type, manifest items by id, TOC labels by language
 * and TOC items by play order.
 */
module ListCmp {
  import opened Wrappers
  import opened LinkSort
  import opened CString
  import opened EpubTypes

  /** _list_cmp_root_by_mediatype: strcmp of the two media types, which must both be present. */
  function RootByMediatype(root1: Root, root2: Root): (r: int)
    requires root1.mediatype.Some? && root2.mediatype.Some?
    ensures -1 <= r <= 1
    ensures r == 0 <==> root1.mediatype == root2.mediatype
  {
    StrCmp(root1.mediatype.value, root2.mediatype.value)
  }

  /** _list_cmp_manifest_by_id: strcmp of the two ids, which must both be present. */
  function ManifestById(m1: Manifest, m2: Manifest): (r: int)
    requires m1.id.Some? && m2.id.Some?
    ensures -1 <= r <= 1
    ensures r == 0 <==> m1.id == m2.id
  {
    StrCmp(m1.id.value, m2.id.value)
  }

  /** _list_cmp_label_by_lang: 0 when either label has no language, strcmp of the languages otherwise. */
  function LabelByLang(t1: TocLabel, t2: TocLabel): (r: int)
    ensures -1 <= r <= 1
    ensures t1.lang.None? || t2.lang.None? ==> r == 0
    ensures t1.lang.Some? && t2.lang.Some? ==> (r == 0 <==> t1.lang == t2.lang)
  {
    if t1.lang.None? || t2.lang.None? then 0 else StrCmp(t1.lang.value, t2.lang.value)
  }

  /** _list_cmp_toc_by_playorder: the sign of the play-order difference; 0 when either item is NULL. */
  function TocByPlayorder(t1: Option<TocItem>, t2: Option<TocItem>): (r: int)
    ensures -1 <= r <= 1
    ensures t1.None? || t2.None? ==> r == 0
    ensures t1.Some? && t2.Some? ==> (r > 0 <==> t1.value.playOrder > t2.value.playOrder)
    ensures t1.Some? && t2.Some? ==> (r < 0 <==> t1.value.playOrder < t2.value.playOrder)
  {
    if t1.None? || t2.None? then 0
    else if t1.value.playOrder > t2.value.playOrder then 1
    else if t1.value.playOrder < t2.value.playOrder then -1
    else 0
  }

  /** The play-order comparator on present items, the form SortList receives it in. */
  function TocOrder(a: TocItem, b: TocItem): int
  {
    TocByPlayorder(Some(a), Some(b))
  }

  /** On present items the play-order comparator is a comparator SortList can rely on. */
  lemma TocOrderThreeWay()
    ensures ThreeWay(TocOrder)
  {
  }

  /** A sequence sorted under the play-order comparator has non-decreasing play orders, and conversely. */
  lemma SortedByPlayOrder(s: seq<TocItem>)
    ensures Sorted(s, TocOrder) <==> forall i, j :: 0 <= i < j < |s| ==> s[i].playOrder <= s[j].playOrder
  {
    if Sorted(s, TocOrder) {
      forall i, j | 0 <= i < j < |s|
        ensures s[i].playOrder <= s[j].playOrder
      {
        assert TocOrder(s[i], s[j]) <= 0;
      }
    }
  }

  /** Swapping two roots flips the sign of the media-type comparison. */
  lemma RootByMediatypeAntisymmetric(root1: Root, root2: Root)
    requires root1.mediatype.Some? && root2.mediatype.Some?
    ensures RootByMediatype(root1, root2) == -RootByMediatype(root2, root1)
  {
    StrCmpAntisymmetric(root1.mediatype.value, root2.mediatype.value);
  }

  /**
   * A label without a language matches every query, and a query without a
   * language matches every label; so once NULL languages occur, "equal
   * language" is not transitive: en ~ (none) ~ fr although en and fr differ.
   */
  lemma LabelLangNullMatchesAll(t: TocLabel, key: TocLabel)
    ensures t.lang.None? ==> LabelByLang(t, key) == 0
    ensures key.lang.None? ==> LabelByLang(t, key) == 0
    ensures var en := TocLabel(Some("en"), None, None);
            var fr := TocLabel(Some("fr"), None, None);
            var none := TocLabel(None, None, None);
            LabelByLang(en, none) == 0 && LabelByLang(none, fr) == 0 && LabelByLang(en, fr) != 0
  {
  }
}
