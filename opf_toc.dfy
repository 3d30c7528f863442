/**
 * The NCX navigation parsers of opf.c: navLabel and navInfo, the navMap
 * state machine that counts navPoint depth, the navList and pageList
 * target lists, the toc dispatch and the final play-order sort.  Each loop
 * over the reader is a method proved equal to a recursive function that
 * runs the same step; the properties are lemmas about those functions.
 */
module OpfToc {
  import opened Wrappers
  import opened CString
  import opened XmlReader
  import opened EpubTypes
  import opened LinkSort
  import opened ListCmp
  import opened LinkListFlags
  import opened LinkList
  import opened LinkListUsage

  /** _opf_init_toc_item: no strings and no label list, the given depth, play order and value -1. */
  function InitTocItem(depth: int): (r: TocItem)
    ensures r.id.None? && r.src.None? && r.className.None? && r.itemType.None? && r.labels.None?
    ensures r.depth == depth && r.playOrder == -1 && r.value == -1
  {
    TocItem(None, None, None, None, None, depth, -1, -1)
  }

  /** _get_attribute_as_positive_int: atoi of the attribute, or -1 when it is absent. */
  function PositiveInt(n: XmlNode, name: string): (r: int)
    ensures GetAttribute(n, name).None? ==> r == -1
    ensures GetAttribute(n, name).Some? && GetAttribute(n, name).value != [] &&
            (forall i :: 0 <= i < |GetAttribute(n, name).value| ==> IsDigit(GetAttribute(n, name).value[i]))
            ==> r == DecValue(GetAttribute(n, name).value)
  {
    match GetAttribute(n, name)
    case None => -1
    case Some(v) =>
      if v != [] && forall i :: 0 <= i < |v| ==> IsDigit(v[i]) then AtoiOfDigits(v); Atoi(v)
      else Atoi(v)
  }

  /** A decimal attribute reads back as its number. */
  lemma PositiveIntOfNumeral(n: XmlNode, name: string, v: nat)
    requires GetAttribute(n, name) == Some(Decimal(v))
    ensures PositiveInt(n, name) == v
  {
    AtoiOfDecimal(v);
  }

  /** An attribute "-1" cannot be told from a missing one, and a non-numeral reads as 0. */
  lemma PositiveIntAmbiguities(n: XmlNode, name: string)
    ensures GetAttribute(n, name) == Some("-1") ==> PositiveInt(n, name) == -1
    ensures GetAttribute(n, name) == Some("abc") ==> PositiveInt(n, name) == 0
  {
    if GetAttribute(n, name) == Some("-1") {
      AtoiOfNegated(1);
      assert "-" + Decimal(1) == "-1";
    }
    if GetAttribute(n, name) == Some("abc") {
      var t := "abc";
      assert !IsSpace(t[0]) && !IsDigit(t[0]) && t[0] != '-' && t[0] != '+';
      assert SkipSpace(t) == t;
      assert DigitRun(t) == [];
    }
  }

  /** Whether a node is a start tag named text, the only node a label takes its text from. */
  predicate IsTextStart(n: XmlNode)
  {
    NameIs(n, "text") && n.nodeType == START
  }

  /**
   * The read loop of _opf_parse_navlabel from position p: it runs to the next
   * node named navLabel or navInfo, and every text start tag on the way
   * replaces the text taken so far.  The result is the text and the stop.
   */
  function LabelScan(nodes: seq<XmlNode>, p: nat, text: Option<string>): (r: (Option<string>, nat))
    requires p <= |nodes|
    ensures p <= r.1 <= |nodes|
    decreases |nodes| - p
  {
    if p == |nodes| || NameIs(nodes[p], "navlabel") || NameIs(nodes[p], "navinfo") then (text, p)
    else LabelScan(nodes, p + 1, if IsTextStart(nodes[p]) then nodes[p].text else text)
  }

  /** The scan stops at the first navLabel or navInfo, whatever text it carries. */
  lemma {:induction false} LabelScanStop(nodes: seq<XmlNode>, p: nat, text: Option<string>)
    requires p <= |nodes|
    ensures LabelScan(nodes, p, text).1 == StopAtEither(nodes, p, "navlabel", "navinfo")
    decreases |nodes| - p
  {
    if p < |nodes| && !NameIs(nodes[p], "navlabel") && !NameIs(nodes[p], "navinfo") {
      LabelScanStop(nodes, p + 1, if IsTextStart(nodes[p]) then nodes[p].text else text);
    }
  }

  /** Without a text start tag before the stop, the scan keeps the text it started with. */
  lemma {:induction false} LabelScanKeeps(nodes: seq<XmlNode>, p: nat, text: Option<string>)
    requires p <= |nodes|
    requires forall i :: p <= i < StopAtEither(nodes, p, "navlabel", "navinfo") ==> !IsTextStart(nodes[i])
    ensures LabelScan(nodes, p, text).0 == text
    decreases |nodes| - p
  {
    if p < |nodes| && !NameIs(nodes[p], "navlabel") && !NameIs(nodes[p], "navinfo") {
      LabelScanKeeps(nodes, p + 1, text);
    }
  }

  /** Whether i is the last text start tag between p and the next navLabel or navInfo. */
  predicate LastTextAt(nodes: seq<XmlNode>, p: nat, i: nat)
  {
    p <= |nodes| && p <= i < StopAtEither(nodes, p, "navlabel", "navinfo") && IsTextStart(nodes[i]) &&
    forall j :: i < j < StopAtEither(nodes, p, "navlabel", "navinfo") ==> !IsTextStart(nodes[j])
  }

  /** The scan ends with the text of the last text start tag before the stop. */
  lemma {:induction false} LabelScanLast(nodes: seq<XmlNode>, p: nat, text: Option<string>, i: nat)
    requires LastTextAt(nodes, p, i)
    ensures LabelScan(nodes, p, text).0 == nodes[i].text
    decreases |nodes| - p
  {
    var next := if IsTextStart(nodes[p]) then nodes[p].text else text;
    if p < i {
      LabelScanLast(nodes, p + 1, next, i);
    } else {
      LabelScanKeeps(nodes, p + 1, next);
    }
  }

  /**
   * _opf_parse_navlabel on the navLabel or navInfo node at pos: the label
   * with the node's lang and dir and the scanned text, or NULL when the
   * reader ran out before the next navLabel or navInfo.  The second
   * component is where the reader is left.
   */
  function NavLabelOf(nodes: seq<XmlNode>, pos: nat): (r: (Option<TocLabel>, nat))
    requires pos < |nodes|
    ensures r.1 == StopAtEither(nodes, pos + 1, "navlabel", "navinfo") && pos < r.1 <= |nodes|
    ensures r.0.None? <==> r.1 == |nodes|
  {
    LabelScanStop(nodes, pos + 1, None);
    var (text, stop) := LabelScan(nodes, pos + 1, None);
    if stop < |nodes| then (Some(TocLabel(GetAttribute(nodes[pos], "lang"), GetAttribute(nodes[pos], "dir"), text)), stop)
    else (None, stop)
  }

  /** The label's text is what the scan took. */
  lemma NavLabelText(nodes: seq<XmlNode>, pos: nat)
    requires pos < |nodes|
    ensures NavLabelOf(nodes, pos).0.Some? ==> NavLabelOf(nodes, pos).0.value.text == LabelScan(nodes, pos + 1, None).0
  {
  }

  /** A navLabel whose content holds no text start tag gets a NULL text, like the uninitialised one of opf.c. */
  lemma NavLabelWithoutText(nodes: seq<XmlNode>, pos: nat)
    requires pos < |nodes|
    requires forall i :: pos < i < |nodes| ==> !IsTextStart(nodes[i])
    ensures NavLabelOf(nodes, pos).0.Some? ==> NavLabelOf(nodes, pos).0.value.text.None?
  {
    LabelScanKeeps(nodes, pos + 1, None);
  }

  /** The label text is that of the last text start tag before the stop. */
  lemma NavLabelTakesLastText(nodes: seq<XmlNode>, pos: nat, i: nat)
    requires pos < |nodes| && LastTextAt(nodes, pos + 1, i)
    ensures NavLabelOf(nodes, pos).0.Some? ==> NavLabelOf(nodes, pos).0.value.text == nodes[i].text
  {
    LabelScanLast(nodes, pos + 1, None, i);
    NavLabelText(nodes, pos);
  }

  /** _opf_parse_navlabel as the read loop it is. */
  method ParseNavLabel(nodes: seq<XmlNode>, pos: nat) returns (lbl: Option<TocLabel>, stop: nat)
    requires pos < |nodes|
    ensures (lbl, stop) == NavLabelOf(nodes, pos)
  {
    var lang := GetAttribute(nodes[pos], "lang");
    var dir := GetAttribute(nodes[pos], "dir");
    var text: Option<string> := None;
    var p := pos + 1;
    while p < |nodes| && !NameIs(nodes[p], "navlabel") && !NameIs(nodes[p], "navinfo")
      invariant pos + 1 <= p <= |nodes|
      invariant LabelScan(nodes, p, text) == LabelScan(nodes, pos + 1, None)
      decreases |nodes| - p
    {
      if NameIs(nodes[p], "text") && nodes[p].nodeType == START {
        text := nodes[p].text;
      }
      p := p + 1;
    }
    stop := p;
    if p == |nodes| {
      lbl := None;
    } else {
      lbl := Some(TocLabel(lang, dir, text));
    }
  }

  /**
   * The state of an NCX loop: the navPoint depth counter, the item being
   * filled (NULL once it has been recorded), the category being built and
   * the toc's play-order list.
   */
  datatype NcxState = NcxState(depth: int, item: Option<TocItem>, tc: TocCategory, played: seq<TocItem>)

  /** The open item, if any, as the list of what recording it appends. */
  function Pending(st: NcxState): seq<TocItem>
  {
    if st.item.Some? then [st.item.value] else []
  }

  /** Recording an item: AddNode to the category's items and to the toc's play-order list, then the slot is empty. */
  function Record(st: NcxState): (r: NcxState)
    ensures r.depth == st.depth && r.item.None?
    ensures r.tc.items == st.tc.items + Pending(st) && r.played == st.played + Pending(st)
    ensures r.tc.id == st.tc.id && r.tc.className == st.tc.className
  {
    match st.item
    case None => st
    case Some(it) => st.(item := None, tc := st.tc.(items := st.tc.items + [it]), played := st.played + [it])
  }

  /** A label appended to an item's label list, which is created on the first one. */
  function AddLabel(item: TocItem, lbl: Option<TocLabel>): TocItem
  {
    item.(labels := Some((if item.labels.Some? then item.labels.value else []) + [lbl]))
  }

  /**
   * Whether a step left the depth, the recorded items and the play-order
   * list alone, and edited at most the open item, keeping its depth.
   */
  predicate KeepsRecords(st: NcxState, s: NcxState)
  {
    s.depth == st.depth && s.tc.items == st.tc.items && s.played == st.played &&
    (st.item.None? <==> s.item.None?) && (s.item.Some? ==> s.item.value.depth == st.item.value.depth)
  }

  /** A navLabel goes to the open item's label list, or to the category's when no item is open. */
  function WithLabel(st: NcxState, lbl: Option<TocLabel>): (r: NcxState)
    ensures KeepsRecords(st, r)
    ensures r.tc.info == st.tc.info
  {
    if st.item.Some? then st.(item := Some(AddLabel(st.item.value, lbl)))
    else st.(tc := st.tc.(labels := st.tc.labels + [lbl]))
  }

  /** A navInfo always goes to the category's info list. */
  function WithInfo(st: NcxState, lbl: Option<TocLabel>): (r: NcxState)
    ensures KeepsRecords(st, r) && r.item == st.item
    ensures r.tc.labels == st.tc.labels && r.tc.info == st.tc.info + [lbl]
  {
    st.(tc := st.tc.(info := st.tc.info + [lbl]))
  }

  /** A content tag sets the open item's src; without an open item it is ignored. */
  function WithSrc(st: NcxState, src: Option<string>): (r: NcxState)
    ensures KeepsRecords(st, r) && r.tc == st.tc
    ensures r.item.Some? ==> r.item.value.src == src
  {
    if st.item.Some? then st.(item := Some(st.item.value.(src := src))) else st
  }

  /**
   * The shared tail of the three NCX loops on a start tag: navLabel goes to
   * the open item or else to the category, navInfo always to the category,
   * content sets the open item's src.  The position is where the next read
   * leaves the reader.
   */
  function AttachStep(nodes: seq<XmlNode>, pos: nat, st: NcxState): (r: (NcxState, nat))
    requires pos < |nodes|
    ensures pos < r.1 <= |nodes|
  {
    var n := nodes[pos];
    if NameIs(n, "navlabel") then
      var l := NavLabelOf(nodes, pos);
      (WithLabel(st, l.0), Advance(nodes, l.1))
    else if NameIs(n, "navinfo") then
      var l := NavLabelOf(nodes, pos);
      (WithInfo(st, l.0), Advance(nodes, l.1))
    else if NameIs(n, "content") then (WithSrc(st, GetAttribute(n, "src")), pos + 1)
    else (st, pos + 1)
  }

  /**
   * The label and content handling leaves the depth, the recorded items and
   * the play-order list alone, and only edits the open item, if any.
   */
  lemma AttachStepKeeps(nodes: seq<XmlNode>, pos: nat, st: NcxState)
    requires pos < |nodes|
    ensures KeepsRecords(st, AttachStep(nodes, pos, st).0)
  {
  }

  /** The shared tail of the NCX loops, as the branches of the loop body. */
  method AttachNode(nodes: seq<XmlNode>, pos: nat, st: NcxState) returns (r: NcxState, next: nat)
    requires pos < |nodes|
    ensures (r, next) == AttachStep(nodes, pos, st)
  {
    var n := nodes[pos];
    if NameIs(n, "navlabel") {
      var lbl, stop := ParseNavLabel(nodes, pos);
      r, next := WithLabel(st, lbl), Advance(nodes, stop);
    } else if NameIs(n, "navinfo") {
      var lbl, stop := ParseNavLabel(nodes, pos);
      r, next := WithInfo(st, lbl), Advance(nodes, stop);
    } else if NameIs(n, "content") {
      r, next := WithSrc(st, GetAttribute(n, "src")), pos + 1;
    } else {
      r, next := st, pos + 1;
    }
  }

  /** A navPoint start tag opens an item one level deeper, with its id, class and playOrder. */
  function NavPointItem(n: XmlNode, depth: int): TocItem
  {
    InitTocItem(depth).(id := GetAttribute(n, "id"), className := GetAttribute(n, "class"), playOrder := PositiveInt(n, "playOrder"))
  }

  /**
   * The depth bookkeeping of the _opf_parse_navmap loop: a navPoint start
   * records the open item, deepens and opens a new one; a navPoint end
   * records the open item and goes up a level.
   */
  function NavPointTag(n: XmlNode, st: NcxState): (r: NcxState)
    ensures !NameIs(n, "navpoint") || (n.nodeType != START && n.nodeType != END) ==> r == st
    ensures NameIs(n, "navpoint") && n.nodeType == START ==>
              r.depth == st.depth + 1 && r.item == Some(NavPointItem(n, st.depth + 1)) &&
              r.tc.items == st.tc.items + Pending(st) && r.played == st.played + Pending(st)
    ensures NameIs(n, "navpoint") && n.nodeType == END ==>
              r.depth == st.depth - 1 && r.item.None? &&
              r.tc.items == st.tc.items + Pending(st) && r.played == st.played + Pending(st)
  {
    if !NameIs(n, "navpoint") then st
    else if n.nodeType == START then Record(st).(depth := st.depth + 1, item := Some(NavPointItem(n, st.depth + 1)))
    else if n.nodeType == END then Record(st).(depth := st.depth - 1)
    else st
  }

  /** One turn of the _opf_parse_navmap loop: the navPoint bookkeeping, then a start tag goes to the shared label and content handling. */
  function NavMapStep(nodes: seq<XmlNode>, pos: nat, st: NcxState): (r: (NcxState, nat))
    requires pos < |nodes|
    ensures pos < r.1 <= |nodes|
  {
    var s1 := NavPointTag(nodes[pos], st);
    if nodes[pos].nodeType != START then (s1, pos + 1) else AttachStep(nodes, pos, s1)
  }

  /** The _opf_parse_navmap loop from pos on, up to a node named navMap or the end of the nodes. */
  function NavMapRun(nodes: seq<XmlNode>, pos: nat, st: NcxState): (r: (NcxState, nat))
    requires pos <= |nodes|
    ensures pos <= r.1 <= |nodes| && (r.1 < |nodes| ==> NameIs(nodes[r.1], "navmap"))
    decreases |nodes| - pos
  {
    if pos == |nodes| || NameIs(nodes[pos], "navmap") then (st, pos)
    else
      var (s, next) := NavMapStep(nodes, pos, st);
      NavMapRun(nodes, next, s)
  }

  /** The category a navMap, navList or pageList start tag founds: its id, and its class where the parser reads one. */
  function NewCategory(n: XmlNode, withClass: bool): TocCategory
  {
    EmptyCategory.(id := GetAttribute(n, "id"), className := if withClass then GetAttribute(n, "class") else None)
  }

  /** _opf_parse_navmap on the navMap start tag at k: the category, the extended play-order list and where the reader stops. */
  function NavMapOf(nodes: seq<XmlNode>, k: nat, playOrder: seq<TocItem>): (r: (TocCategory, seq<TocItem>, nat))
    requires k < |nodes|
    ensures k < r.2 <= |nodes|
    ensures r.1 == playOrder + r.0.items
  {
    var init := NcxState(0, None, NewCategory(nodes[k], false), playOrder);
    NavMapLockstep(nodes, k + 1, init, playOrder);
    var (st, stop) := NavMapRun(nodes, k + 1, init);
    (st.tc, st.played, stop)
  }

  /** One turn of the navMap loop, as the branches of the loop body. */
  method NavMapNode(nodes: seq<XmlNode>, pos: nat, st: NcxState) returns (r: NcxState, next: nat)
    requires pos < |nodes|
    ensures (r, next) == NavMapStep(nodes, pos, st)
  {
    var n := nodes[pos];
    r := st;
    if NameIs(n, "navpoint") {
      if n.nodeType == START {
        r := Record(r);
        r := r.(depth := r.depth + 1);
        r := r.(item := Some(NavPointItem(n, r.depth)));
      } else if n.nodeType == END {
        r := Record(r);
        r := r.(depth := r.depth - 1);
      }
    }
    assert r == NavPointTag(n, st);
    if n.nodeType != START {
      next := pos + 1;
      return;
    }
    r, next := AttachNode(nodes, pos, r);
  }

  /** _opf_parse_navmap: the read loop over the navMap's content, up to the closing navMap. */
  method ParseNavMap(nodes: seq<XmlNode>, k: nat, playOrder: seq<TocItem>) returns (tc: TocCategory, played: seq<TocItem>, stop: nat)
    requires k < |nodes|
    ensures (tc, played, stop) == NavMapOf(nodes, k, playOrder)
    ensures played == playOrder + tc.items
  {
    var init := NcxState(0, None, NewCategory(nodes[k], false), playOrder);
    var st := init;
    var pos := k + 1;
    while pos < |nodes| && !NameIs(nodes[pos], "navmap")
      invariant k + 1 <= pos <= |nodes|
      invariant NavMapRun(nodes, pos, st) == NavMapRun(nodes, k + 1, init)
      decreases |nodes| - pos
    {
      st, pos := NavMapNode(nodes, pos, st);
    }
    tc, played, stop := st.tc, st.played, pos;
  }

  /** Whether the navPoint items recorded so far sit at the end of the play-order list, in the same order. */
  predicate InStep(st: NcxState, base: seq<TocItem>)
  {
    st.played == base + st.tc.items
  }

  /** The navMap loop records every item in the category and in the play-order list alike. */
  lemma {:induction false} NavMapLockstep(nodes: seq<XmlNode>, pos: nat, st: NcxState, base: seq<TocItem>)
    requires pos <= |nodes| && InStep(st, base)
    ensures InStep(NavMapRun(nodes, pos, st).0, base)
    decreases |nodes| - pos
  {
    if pos < |nodes| && !NameIs(nodes[pos], "navmap") {
      var (s, next) := NavMapStep(nodes, pos, st);
      NavMapStepInStep(nodes, pos, st, base);
      NavMapLockstep(nodes, next, s, base);
    }
  }

  /** Recording the open item appends it to the category and to the play-order list alike. */
  lemma RecordInStep(st: NcxState, base: seq<TocItem>)
    requires InStep(st, base)
    ensures InStep(Record(st), base)
  {
    if st.item.Some? {
      assert base + (st.tc.items + [st.item.value]) == (base + st.tc.items) + [st.item.value];
    }
  }

  /** The label and content handling keeps the lockstep. */
  lemma AttachInStep(nodes: seq<XmlNode>, pos: nat, st: NcxState, base: seq<TocItem>)
    requires pos < |nodes| && InStep(st, base)
    ensures InStep(AttachStep(nodes, pos, st).0, base)
  {
    AttachStepKeeps(nodes, pos, st);
  }

  /** One turn of the navMap loop keeps the lockstep. */
  lemma NavMapStepInStep(nodes: seq<XmlNode>, pos: nat, st: NcxState, base: seq<TocItem>)
    requires pos < |nodes| && InStep(st, base)
    ensures InStep(NavMapStep(nodes, pos, st).0, base)
  {
    RecordInStep(st, base);
    assert InStep(NavPointTag(nodes[pos], st), base);
    AttachInStep(nodes, pos, NavPointTag(nodes[pos], st), base);
  }

  /** Whether the open item, if any, sits at the depth the counter shows. */
  predicate DepthAgrees(st: NcxState)
  {
    st.item.Some? ==> st.item.value.depth == st.depth
  }

  /**
   * The open navPoint item always carries the depth counter's value: every
   * navPoint start raises the counter by one and opens its item at the new
   * value, and every navPoint end lowers it and closes the item.
   */
  lemma {:induction false} NavMapDepth(nodes: seq<XmlNode>, pos: nat, st: NcxState)
    requires pos <= |nodes| && DepthAgrees(st)
    ensures DepthAgrees(NavMapRun(nodes, pos, st).0)
    decreases |nodes| - pos
  {
    if pos < |nodes| && !NameIs(nodes[pos], "navmap") {
      var (s, next) := NavMapStep(nodes, pos, st);
      NavMapStepDepth(nodes, pos, st);
      NavMapDepth(nodes, next, s);
    }
  }

  /** One turn of the navMap loop keeps the open item at the counter's depth. */
  lemma NavMapStepDepth(nodes: seq<XmlNode>, pos: nat, st: NcxState)
    requires pos < |nodes| && DepthAgrees(st)
    ensures DepthAgrees(NavMapStep(nodes, pos, st).0)
  {
    var s1 := NavPointTag(nodes[pos], st);
    NavPointTagDepth(nodes[pos], st);
    AttachStepKeeps(nodes, pos, s1);
    NavMapStepSplit(nodes, pos, st);
  }

  /** The navPoint bookkeeping opens items at the counter's new value. */
  lemma NavPointTagDepth(n: XmlNode, st: NcxState)
    requires DepthAgrees(st)
    ensures DepthAgrees(NavPointTag(n, st))
  {
  }

  /** A turn of the navMap loop is the navPoint bookkeeping followed, on a start tag, by the shared tail. */
  lemma NavMapStepSplit(nodes: seq<XmlNode>, pos: nat, st: NcxState)
    requires pos < |nodes|
    ensures NavMapStep(nodes, pos, st).0 ==
              if nodes[pos].nodeType != START then NavPointTag(nodes[pos], st)
              else AttachStep(nodes, pos, NavPointTag(nodes[pos], st)).0
  {
  }

  /** A navPoint start tag records the open item and opens a new item one level deeper. */
  lemma NavPointStartRecords(nodes: seq<XmlNode>, pos: nat, st: NcxState)
    requires pos < |nodes| && NameIs(nodes[pos], "navpoint") && nodes[pos].nodeType == START
    ensures var s := NavMapStep(nodes, pos, st).0;
            s.depth == st.depth + 1 && s.item == Some(NavPointItem(nodes[pos], st.depth + 1)) &&
            s.tc.items == (if st.item.Some? then st.tc.items + [st.item.value] else st.tc.items)
  {
    var n := nodes[pos];
    NameIsExcludes(n, "navpoint", "navlabel", 3);
    NameIsExcludes(n, "navpoint", "navinfo", 3);
    NameIsExcludes(n, "navpoint", "content", 0);
  }

  /** A navPoint end tag records the open item, so a label after it goes to the category, and goes up a level. */
  lemma NavPointEndRecords(nodes: seq<XmlNode>, pos: nat, st: NcxState)
    requires pos < |nodes| && NameIs(nodes[pos], "navpoint") && nodes[pos].nodeType == END
    ensures var s := NavMapStep(nodes, pos, st).0;
            s.depth == st.depth - 1 && s.item.None? &&
            s.tc.items == (if st.item.Some? then st.tc.items + [st.item.value] else st.tc.items)
  {
  }

  /** A navLabel start tag with no open item adds its label to the category's labels. */
  lemma NavLabelWithoutItem(nodes: seq<XmlNode>, pos: nat, st: NcxState)
    requires pos < |nodes| && NameIs(nodes[pos], "navlabel") && nodes[pos].nodeType == START && st.item.None?
    ensures NavMapStep(nodes, pos, st).0 == st.(tc := st.tc.(labels := st.tc.labels + [NavLabelOf(nodes, pos).0]))
  {
    NameIsExcludes(nodes[pos], "navlabel", "navpoint", 3);
  }

  /** navList or pageList: the two target lists, parsed by one loop. */
  datatype ListKind = NavListKind | PageListKind

  /** The element that closes the list. */
  function ListName(kind: ListKind): string
  {
    if kind == NavListKind then "navlist" else "pagelist"
  }

  /** The element that makes an item. */
  function TargetName(kind: ListKind): string
  {
    if kind == NavListKind then "navtarget" else "pagetarget"
  }

  /** A navTarget or pageTarget start tag opens a depth-1 item with id, class, playOrder and value; a pageTarget also its type. */
  function TargetItem(n: XmlNode, kind: ListKind): TocItem
  {
    var item := InitTocItem(1).(id := GetAttribute(n, "id"), className := GetAttribute(n, "class"),
                                playOrder := PositiveInt(n, "playOrder"), value := PositiveInt(n, "value"));
    if kind == PageListKind then item.(itemType := GetAttribute(n, "type")) else item
  }

  /** A target lies at depth 1, and lacks play order and value exactly as its start tag lacks the attributes. */
  lemma TargetItemDefaults(n: XmlNode, kind: ListKind)
    ensures TargetItem(n, kind).depth == 1
    ensures GetAttribute(n, "playOrder").None? ==> TargetItem(n, kind).playOrder == -1
    ensures GetAttribute(n, "value").None? ==> TargetItem(n, kind).value == -1
    ensures TargetItem(n, kind).labels.None? && TargetItem(n, kind).src.None?
  {
  }

  /**
   * The item bookkeeping of the _opf_parse_navlist / _opf_parse_pagelist
   * loop: a target start tag opens a new item (an unrecorded one is
   * dropped), a target end tag records the open item.
   */
  function TargetTag(n: XmlNode, kind: ListKind, st: NcxState): (r: NcxState)
    ensures r.depth == st.depth
    ensures !NameIs(n, TargetName(kind)) || (n.nodeType != START && n.nodeType != END) ==> r == st
    ensures NameIs(n, TargetName(kind)) && n.nodeType == START ==>
              r.item == Some(TargetItem(n, kind)) && r.tc == st.tc && r.played == st.played
    ensures NameIs(n, TargetName(kind)) && n.nodeType == END ==>
              r.item.None? && r.tc.items == st.tc.items + Pending(st) && r.played == st.played + Pending(st)
  {
    if !NameIs(n, TargetName(kind)) then st
    else if n.nodeType == START then st.(item := Some(TargetItem(n, kind)))
    else if n.nodeType == END then Record(st)
    else st
  }

  /** One turn of the target-list loop: the item bookkeeping, then a start tag goes to the shared label and content handling. */
  function TargetStep(nodes: seq<XmlNode>, pos: nat, kind: ListKind, st: NcxState): (r: (NcxState, nat))
    requires pos < |nodes|
    ensures pos < r.1 <= |nodes|
  {
    var s1 := TargetTag(nodes[pos], kind, st);
    if nodes[pos].nodeType != START then (s1, pos + 1) else AttachStep(nodes, pos, s1)
  }

  /** The target-list loop from pos on, up to a node named like the list or the end of the nodes. */
  function TargetRun(nodes: seq<XmlNode>, pos: nat, kind: ListKind, st: NcxState): (r: (NcxState, nat))
    requires pos <= |nodes|
    ensures pos <= r.1 <= |nodes| && (r.1 < |nodes| ==> NameIs(nodes[r.1], ListName(kind)))
    decreases |nodes| - pos
  {
    if pos == |nodes| || NameIs(nodes[pos], ListName(kind)) then (st, pos)
    else
      var (s, next) := TargetStep(nodes, pos, kind, st);
      TargetRun(nodes, next, kind, s)
  }

  /** The target-list parser on the list's start tag at k: the category, the extended play-order list and the stop. */
  function TargetListOf(nodes: seq<XmlNode>, k: nat, kind: ListKind, playOrder: seq<TocItem>): (r: (TocCategory, seq<TocItem>, nat))
    requires k < |nodes|
    ensures k < r.2 <= |nodes|
    ensures r.1 == playOrder + r.0.items
    ensures forall i :: 0 <= i < |r.0.items| ==> r.0.items[i].depth == 1
  {
    var init := NcxState(0, None, NewCategory(nodes[k], true), playOrder);
    TargetLockstep(nodes, k + 1, kind, init, playOrder);
    TargetDepthOne(nodes, k + 1, kind, init);
    var (st, stop) := TargetRun(nodes, k + 1, kind, init);
    (st.tc, st.played, stop)
  }

  /** One turn of the target-list loop, as the branches of the loop body. */
  method TargetNode(nodes: seq<XmlNode>, pos: nat, kind: ListKind, st: NcxState) returns (r: NcxState, next: nat)
    requires pos < |nodes|
    ensures (r, next) == TargetStep(nodes, pos, kind, st)
  {
    var n := nodes[pos];
    r := st;
    if NameIs(n, TargetName(kind)) {
      if n.nodeType == START {
        r := r.(item := Some(TargetItem(n, kind)));
      } else if n.nodeType == END {
        r := Record(r);
      }
    }
    assert r == TargetTag(n, kind, st);
    if n.nodeType != START {
      next := pos + 1;
      return;
    }
    r, next := AttachNode(nodes, pos, r);
  }

  /** _opf_parse_navlist and _opf_parse_pagelist: the read loop over the list's content, up to its closing tag. */
  method ParseTargetList(nodes: seq<XmlNode>, k: nat, kind: ListKind, playOrder: seq<TocItem>)
      returns (tc: TocCategory, played: seq<TocItem>, stop: nat)
    requires k < |nodes|
    ensures (tc, played, stop) == TargetListOf(nodes, k, kind, playOrder)
    ensures played == playOrder + tc.items
    ensures forall i :: 0 <= i < |tc.items| ==> tc.items[i].depth == 1
  {
    var init := NcxState(0, None, NewCategory(nodes[k], true), playOrder);
    var st := init;
    var pos := k + 1;
    while pos < |nodes| && !NameIs(nodes[pos], ListName(kind))
      invariant k + 1 <= pos <= |nodes|
      invariant TargetRun(nodes, pos, kind, st) == TargetRun(nodes, k + 1, kind, init)
      decreases |nodes| - pos
    {
      st, pos := TargetNode(nodes, pos, kind, st);
    }
    tc, played, stop := st.tc, st.played, pos;
  }

  /** The target-list loop records every item in the category and in the play-order list alike. */
  lemma {:induction false} TargetLockstep(nodes: seq<XmlNode>, pos: nat, kind: ListKind, st: NcxState, base: seq<TocItem>)
    requires pos <= |nodes| && InStep(st, base)
    ensures InStep(TargetRun(nodes, pos, kind, st).0, base)
    decreases |nodes| - pos
  {
    if pos < |nodes| && !NameIs(nodes[pos], ListName(kind)) {
      var (s, next) := TargetStep(nodes, pos, kind, st);
      TargetStepInStep(nodes, pos, kind, st, base);
      TargetLockstep(nodes, next, kind, s, base);
    }
  }

  /** One turn of the target-list loop keeps the lockstep. */
  lemma TargetStepInStep(nodes: seq<XmlNode>, pos: nat, kind: ListKind, st: NcxState, base: seq<TocItem>)
    requires pos < |nodes| && InStep(st, base)
    ensures InStep(TargetStep(nodes, pos, kind, st).0, base)
  {
    RecordInStep(st, base);
    assert InStep(TargetTag(nodes[pos], kind, st), base);
    AttachInStep(nodes, pos, TargetTag(nodes[pos], kind, st), base);
  }

  /** Whether every recorded item and the open one lie at depth 1. */
  predicate FlatItems(st: NcxState)
  {
    (forall i :: 0 <= i < |st.tc.items| ==> st.tc.items[i].depth == 1) &&
    (st.item.Some? ==> st.item.value.depth == 1)
  }

  /** Every item of a navList or pageList lies at depth 1. */
  lemma {:induction false} TargetDepthOne(nodes: seq<XmlNode>, pos: nat, kind: ListKind, st: NcxState)
    requires pos <= |nodes| && FlatItems(st)
    ensures FlatItems(TargetRun(nodes, pos, kind, st).0)
    decreases |nodes| - pos
  {
    if pos < |nodes| && !NameIs(nodes[pos], ListName(kind)) {
      var (s, next) := TargetStep(nodes, pos, kind, st);
      TargetStepFlat(nodes, pos, kind, st);
      TargetDepthOne(nodes, next, kind, s);
    }
  }

  /** One turn of the target-list loop keeps every item at depth 1. */
  lemma TargetStepFlat(nodes: seq<XmlNode>, pos: nat, kind: ListKind, st: NcxState)
    requires pos < |nodes| && FlatItems(st)
    ensures FlatItems(TargetStep(nodes, pos, kind, st).0)
  {
    var s1 := TargetTag(nodes[pos], kind, st);
    TargetTagFlat(nodes[pos], kind, st);
    AttachStepKeeps(nodes, pos, s1);
    TargetStepSplit(nodes, pos, kind, st);
  }

  /** The target bookkeeping opens and records items at depth 1 only. */
  lemma TargetTagFlat(n: XmlNode, kind: ListKind, st: NcxState)
    requires FlatItems(st)
    ensures FlatItems(TargetTag(n, kind, st))
  {
    assert TargetItem(n, kind).depth == 1;
    if st.item.Some? {
      assert Record(st).tc.items == st.tc.items + [st.item.value];
    }
  }

  /** A turn of the target-list loop is the item bookkeeping followed, on a start tag, by the shared tail. */
  lemma TargetStepSplit(nodes: seq<XmlNode>, pos: nat, kind: ListKind, st: NcxState)
    requires pos < |nodes|
    ensures TargetStep(nodes, pos, kind, st).0 ==
              if nodes[pos].nodeType != START then TargetTag(nodes[pos], kind, st)
              else AttachStep(nodes, pos, TargetTag(nodes[pos], kind, st)).0
  {
  }

  /** _opf_init_toc: no categories and an empty play-order list. */
  const EmptyToc: Toc := Toc(None, None, None, [])

  /**
   * One turn of the _opf_parse_toc loop: navList, navMap and pageList
   * (ignoring case) hand the reader to their parser, and the next read
   * follows where that parser stopped.  The pageList category is stored in
   * the navList slot, as opf.c:603 writes it.
   */
  function TocStep(nodes: seq<XmlNode>, pos: nat, toc: Toc): (r: (Toc, nat))
    requires pos < |nodes|
    ensures pos < r.1 <= |nodes|
  {
    var n := nodes[pos];
    if NameIs(n, "navlist") then
      var t := TargetListOf(nodes, pos, NavListKind, toc.playOrder);
      (toc.(navList := Some(t.0), playOrder := t.1), Advance(nodes, t.2))
    else if NameIs(n, "navmap") then
      var t := NavMapOf(nodes, pos, toc.playOrder);
      (toc.(navMap := Some(t.0), playOrder := t.1), Advance(nodes, t.2))
    else if NameIs(n, "pagelist") then
      var t := TargetListOf(nodes, pos, PageListKind, toc.playOrder);
      (toc.(navList := Some(t.0), playOrder := t.1), Advance(nodes, t.2))
    else (toc, pos + 1)
  }

  /** The _opf_parse_toc loop from pos to the end of the nodes. */
  function TocRun(nodes: seq<XmlNode>, pos: nat, toc: Toc): (r: Toc)
    requires pos <= |nodes|
    ensures r.pageList == toc.pageList
    ensures toc.playOrder <= r.playOrder
    decreases |nodes| - pos
  {
    if pos == |nodes| then toc
    else
      var (t, next) := TocStep(nodes, pos, toc);
      TocStepKeeps(nodes, pos, toc);
      TocRun(nodes, next, t)
  }

  /** One turn of the toc loop, as the branches of the loop body. */
  method TocNode(nodes: seq<XmlNode>, pos: nat, toc: Toc) returns (r: Toc, next: nat)
    requires pos < |nodes|
    ensures (r, next) == TocStep(nodes, pos, toc)
  {
    var name := nodes[pos];
    if NameIs(name, "navlist") {
      var tc, played, stop := ParseTargetList(nodes, pos, NavListKind, toc.playOrder);
      r, next := toc.(navList := Some(tc), playOrder := played), Advance(nodes, stop);
    } else if NameIs(name, "navmap") {
      var tc, played, stop := ParseNavMap(nodes, pos, toc.playOrder);
      r, next := toc.(navMap := Some(tc), playOrder := played), Advance(nodes, stop);
    } else if NameIs(name, "pagelist") {
      var tc, played, stop := ParseTargetList(nodes, pos, PageListKind, toc.playOrder);
      r, next := toc.(navList := Some(tc), playOrder := played), Advance(nodes, stop);
    } else {
      r, next := toc, pos + 1;
    }
  }

  /** One turn of the toc loop keeps the pageList slot and extends the play-order list. */
  lemma TocStepKeeps(nodes: seq<XmlNode>, pos: nat, toc: Toc)
    requires pos < |nodes|
    ensures TocStep(nodes, pos, toc).0.pageList == toc.pageList
    ensures toc.playOrder <= TocStep(nodes, pos, toc).0.playOrder
  {
    var n := nodes[pos];
    if NameIs(n, "navlist") {
      PrefixOfAppend(toc.playOrder, TargetListOf(nodes, pos, NavListKind, toc.playOrder).0.items);
    } else if NameIs(n, "navmap") {
      PrefixOfAppend(toc.playOrder, NavMapOf(nodes, pos, toc.playOrder).0.items);
    } else if NameIs(n, "pagelist") {
      PrefixOfAppend(toc.playOrder, TargetListOf(nodes, pos, PageListKind, toc.playOrder).0.items);
    }
  }

  lemma PrefixOfAppend<T>(a: seq<T>, b: seq<T>)
    ensures a <= a + b
  {
    assert (a + b)[..|a|] == a;
  }

  /**
   * The play-order sort of _opf_parse_toc: the items are loaded into a LIST
   * container with the play-order comparator and SortList puts them in
   * order; the toc keeps the container's contents.  Items with the same
   * play order keep their document order: the item at p came from perm[p].
   */
  method SortPlayOrder(items: seq<TocItem>) returns (sorted: seq<TocItem>, ghost perm: seq<int>)
    ensures multiset(sorted) == multiset(items)
    ensures Sorted(sorted, TocOrder)
    ensures forall i, j :: 0 <= i < j < |sorted| ==> sorted[i].playOrder <= sorted[j].playOrder
    ensures Follows(items, sorted, perm) && Stable(perm, sorted, TocOrder)
  {
    CompositeTypesDecode();
    var list := FillAtCurrent(LIST, Some(TocOrder), items);
    TocOrderThreeWay();
    perm := list.SortList();
    sorted := ReadAll(list);
    SortedByPlayOrder(sorted);
  }

  /**
   * _opf_parse_toc: a fresh toc, the categories of the document in reader
   * order when a reader can be made for the file, and the play-order list
   * sorted by play order whatever happened.
   */
  method ParseToc(tocStr: string, parse: string -> Option<Doc>) returns (toc: Toc)
    ensures toc.pageList.None? && Sorted(toc.playOrder, TocOrder)
    ensures parse(tocStr).None? ==> toc == EmptyToc
    ensures parse(tocStr).Some? ==>
              var t := TocRun(parse(tocStr).value.nodes, 0, EmptyToc);
              toc.navMap == t.navMap && toc.navList == t.navList && multiset(toc.playOrder) == multiset(t.playOrder) &&
              exists perm :: Follows(t.playOrder, toc.playOrder, perm) && Stable(perm, toc.playOrder, TocOrder)
  {
    toc := EmptyToc;
    var reader := parse(tocStr);
    if reader.Some? {
      var nodes := reader.value.nodes;
      var pos := 0;
      while pos < |nodes|
        invariant pos <= |nodes| && TocRun(nodes, pos, toc) == TocRun(nodes, 0, EmptyToc)
        decreases |nodes| - pos
      {
        toc, pos := TocNode(nodes, pos, toc);
      }
    }
    var sorted;
    ghost var perm;
    sorted, perm := SortPlayOrder(toc.playOrder);
    toc := toc.(playOrder := sorted);
  }
}
