/**
 * The splay-tree configuration of the linked container (STREE in
 * linklist.h).  In this configuration a node's Prev link is its left child and
 * its Next link its right child, and Head is the root.  SplayList is the
 * top-down splay of Sleator and Tarjan's 1985 paper; SplayInsertList splays
 * and then roots the new node; SplayRemoveList deletes the root; BTFind walks
 * from Current.  The tree is modelled as a value: a rotation builds the
 * rotated tree instead of rewriting links in place.
 */
module Splay {
  import opened Wrappers
  import opened LinkListFlags
  import opened LinkSort
  import opened LinkList
  import opened LinkCompare

  /** A tree node: Prev is the left subtree, Next the right subtree. */
  datatype Tree<T> = Leaf | Node(Prev: Tree<T>, Data: T, Next: Tree<T>)

  /** The data in left-to-right order. */
  function InOrder<T>(t: Tree<T>): seq<T>
  {
    match t
    case Leaf => []
    case Node(l, d, r) => InOrder(l) + [d] + InOrder(r)
  }

  /** Strictly increasing under cmp. */
  ghost predicate Increasing<T(!new)>(s: seq<T>, cmp: (T, T) -> int)
  {
    forall i, j :: 0 <= i < j < |s| ==> cmp(s[i], s[j]) < 0
  }

  /** The search-tree property: the in-order sequence is strictly increasing. */
  ghost predicate Ordered<T(!new)>(t: Tree<T>, cmp: (T, T) -> int)
  {
    Increasing(InOrder(t), cmp)
  }

  /** The key is greater than every element of s. */
  ghost predicate AllBelow<T(!new)>(s: seq<T>, key: T, cmp: (T, T) -> int)
  {
    forall i :: 0 <= i < |s| ==> cmp(key, s[i]) > 0
  }

  /** The key is less than every element of s. */
  ghost predicate AllAbove<T(!new)>(s: seq<T>, key: T, cmp: (T, T) -> int)
  {
    forall i :: 0 <= i < |s| ==> cmp(key, s[i]) < 0
  }

  /** Some element of s compares equal to the key. */
  ghost predicate Occurs<T(!new)>(s: seq<T>, key: T, cmp: (T, T) -> int)
  {
    exists i :: 0 <= i < |s| && cmp(key, s[i]) == 0
  }

  /** The root separates the key: its left subtree lies below it and its right subtree above it. */
  ghost predicate SplitsAt<T(!new)>(t: Tree<T>, key: T, cmp: (T, T) -> int)
  {
    t.Node? && AllBelow(InOrder(t.Prev), key, cmp) && AllAbove(InOrder(t.Next), key, cmp)
  }

  // ---------------------------------------------------------------------
  // Order facts

  /** cmp(a, b) <= 0 and cmp(b, c) < 0 give cmp(a, c) < 0. */
  lemma LeLess<T(!new)>(a: T, b: T, c: T, cmp: (T, T) -> int)
    requires ThreeWay(cmp) && cmp(a, b) <= 0 && cmp(b, c) < 0
    ensures cmp(a, c) < 0
  {
    assert cmp(c, b) > 0;
    assert cmp(c, a) <= 0 ==> cmp(c, b) <= 0;
  }

  /** cmp(a, b) < 0 and cmp(b, c) <= 0 give cmp(a, c) < 0. */
  lemma LessLe<T(!new)>(a: T, b: T, c: T, cmp: (T, T) -> int)
    requires ThreeWay(cmp) && cmp(a, b) < 0 && cmp(b, c) <= 0
    ensures cmp(a, c) < 0
  {
    assert cmp(b, a) > 0;
    assert cmp(c, a) <= 0 ==> cmp(b, a) <= 0;
  }

  /** The pieces of an increasing sequence around one element. */
  lemma IncreasingParts<T(!new)>(a: seq<T>, d: T, b: seq<T>, cmp: (T, T) -> int)
    requires Increasing(a + [d] + b, cmp)
    ensures Increasing(a, cmp) && Increasing(b, cmp)
    ensures forall i :: 0 <= i < |a| ==> cmp(a[i], d) < 0
    ensures forall j :: 0 <= j < |b| ==> cmp(d, b[j]) < 0
  {
    var s := a + [d] + b;
    assert forall i :: 0 <= i < |a| ==> s[i] == a[i];
    assert s[|a|] == d;
    assert forall j :: 0 <= j < |b| ==> s[|a| + 1 + j] == b[j];
  }

  /** Leaving out a middle stretch keeps a sequence increasing. */
  lemma IncreasingDropMiddle<T(!new)>(x: seq<T>, m: seq<T>, y: seq<T>, cmp: (T, T) -> int)
    requires Increasing(x + m + y, cmp)
    ensures Increasing(x + y, cmp)
  {
    var s, t := x + m + y, x + y;
    forall i, j | 0 <= i < j < |t|
      ensures cmp(t[i], t[j]) < 0
    {
      var i', j' := if i < |x| then i else i + |m|, if j < |x| then j else j + |m|;
      assert t[i] == s[i'] && t[j] == s[j'];
    }
  }

  /** The subtrees of a search tree are search trees ordered around the root. */
  lemma OrderedParts<T(!new)>(t: Tree<T>, cmp: (T, T) -> int)
    requires t.Node? && Ordered(t, cmp)
    ensures Ordered(t.Prev, cmp) && Ordered(t.Next, cmp)
    ensures forall i :: 0 <= i < |InOrder(t.Prev)| ==> cmp(InOrder(t.Prev)[i], t.Data) < 0
    ensures forall j :: 0 <= j < |InOrder(t.Next)| ==> cmp(t.Data, InOrder(t.Next)[j]) < 0
  {
    IncreasingParts(InOrder(t.Prev), t.Data, InOrder(t.Next), cmp);
  }

  /** A key not above the root is below the whole right subtree. */
  lemma AboveOf<T(!new)>(t: Tree<T>, key: T, cmp: (T, T) -> int)
    requires ThreeWay(cmp) && t.Node? && Ordered(t, cmp) && cmp(key, t.Data) <= 0
    ensures AllAbove(InOrder(t.Next), key, cmp)
  {
    OrderedParts(t, cmp);
    forall j | 0 <= j < |InOrder(t.Next)|
      ensures cmp(key, InOrder(t.Next)[j]) < 0
    {
      LeLess(key, t.Data, InOrder(t.Next)[j], cmp);
    }
  }

  /** A key not below the root is above the whole left subtree. */
  lemma BelowOf<T(!new)>(t: Tree<T>, key: T, cmp: (T, T) -> int)
    requires ThreeWay(cmp) && t.Node? && Ordered(t, cmp) && cmp(key, t.Data) >= 0
    ensures AllBelow(InOrder(t.Prev), key, cmp)
  {
    OrderedParts(t, cmp);
    assert cmp(t.Data, key) <= 0;
    forall i | 0 <= i < |InOrder(t.Prev)|
      ensures cmp(key, InOrder(t.Prev)[i]) > 0
    {
      LessLe(InOrder(t.Prev)[i], t.Data, key, cmp);
    }
  }

  // ---------------------------------------------------------------------
  // The left and right trees of the top-down splay

  /** A node moved into the left tree: its Next link is still open. */
  datatype LeftPiece<T> = LeftPiece(Prev: Tree<T>, Data: T)

  /** A node moved into the right tree: its Prev link is still open. */
  datatype RightPiece<T> = RightPiece(Data: T, Next: Tree<T>)

  /** The left tree, pieces in the order they were linked, with t in the last open Next link. */
  function HangLeft<T>(ls: seq<LeftPiece<T>>, t: Tree<T>): Tree<T>
  {
    if ls == [] then t else Node(ls[0].Prev, ls[0].Data, HangLeft(ls[1..], t))
  }

  /** The right tree, pieces in the order they were linked, with t in the last open Prev link. */
  function HangRight<T>(rs: seq<RightPiece<T>>, t: Tree<T>): Tree<T>
  {
    if rs == [] then t else Node(HangRight(rs[1..], t), rs[0].Data, rs[0].Next)
  }

  /** The data of the left tree, in order. */
  function LeftSeq<T>(ls: seq<LeftPiece<T>>): seq<T>
  {
    if ls == [] then [] else InOrder(ls[0].Prev) + [ls[0].Data] + LeftSeq(ls[1..])
  }

  /** The data of the right tree, in order. */
  function RightSeq<T>(rs: seq<RightPiece<T>>): seq<T>
  {
    if rs == [] then [] else RightSeq(rs[1..]) + [rs[0].Data] + InOrder(rs[0].Next)
  }

  lemma Assoc<T>(a: seq<T>, b: seq<T>, c: seq<T>)
    ensures (a + b) + c == a + (b + c)
  {
  }

  lemma Assoc4<T>(a: seq<T>, b: seq<T>, c: seq<T>, d: seq<T>)
    ensures ((a + b) + c) + d == a + ((b + c) + d)
  {
  }

  lemma {:induction false} HangLeftInOrder<T>(ls: seq<LeftPiece<T>>, t: Tree<T>)
    ensures InOrder(HangLeft(ls, t)) == LeftSeq(ls) + InOrder(t)
  {
    if ls != [] {
      HangLeftInOrder(ls[1..], t);
      var p, rest := ls[0], HangLeft(ls[1..], t);
      assert InOrder(HangLeft(ls, t)) == InOrder(p.Prev) + [p.Data] + InOrder(rest);
      assert LeftSeq(ls) == InOrder(p.Prev) + [p.Data] + LeftSeq(ls[1..]);
      Assoc(InOrder(p.Prev) + [p.Data], LeftSeq(ls[1..]), InOrder(t));
    }
  }

  lemma {:induction false} HangRightInOrder<T>(rs: seq<RightPiece<T>>, t: Tree<T>)
    ensures InOrder(HangRight(rs, t)) == InOrder(t) + RightSeq(rs)
  {
    if rs != [] {
      HangRightInOrder(rs[1..], t);
      var p, rest := rs[0], HangRight(rs[1..], t);
      assert InOrder(HangRight(rs, t)) == InOrder(rest) + [p.Data] + InOrder(p.Next);
      assert RightSeq(rs) == RightSeq(rs[1..]) + [p.Data] + InOrder(p.Next);
      Assoc4(InOrder(t), RightSeq(rs[1..]), [p.Data], InOrder(p.Next));
    }
  }

  /** Linking one more node into the left tree puts it, with its left subtree, right of everything there. */
  lemma {:induction false} LeftSeqSnoc<T>(ls: seq<LeftPiece<T>>, p: LeftPiece<T>)
    ensures LeftSeq(ls + [p]) == LeftSeq(ls) + (InOrder(p.Prev) + [p.Data])
  {
    if ls == [] {
      assert ls + [p] == [p];
    } else {
      assert (ls + [p])[0] == ls[0] && (ls + [p])[1..] == ls[1..] + [p];
      LeftSeqSnoc(ls[1..], p);
    }
  }

  /** Linking one more node into the right tree puts it, with its right subtree, left of everything there. */
  lemma {:induction false} RightSeqSnoc<T>(rs: seq<RightPiece<T>>, p: RightPiece<T>)
    ensures RightSeq(rs + [p]) == ([p.Data] + InOrder(p.Next)) + RightSeq(rs)
  {
    if rs == [] {
      assert rs + [p] == [p];
    } else {
      assert (rs + [p])[0] == rs[0] && (rs + [p])[1..] == rs[1..] + [p];
      RightSeqSnoc(rs[1..], p);
    }
  }

  // ---------------------------------------------------------------------
  // The splay

  /** Current's left child rises: the rotation SplayList performs when the key is left of both. */
  function RotateRight<T>(t: Tree<T>): (r: Tree<T>)
    requires t.Node? && t.Prev.Node?
    ensures InOrder(r) == InOrder(t)
  {
    Node(t.Prev.Prev, t.Prev.Data, Node(t.Prev.Next, t.Data, t.Next))
  }

  /** Current's right child rises. */
  function RotateLeft<T>(t: Tree<T>): (r: Tree<T>)
    requires t.Node? && t.Next.Node?
    ensures InOrder(r) == InOrder(t)
  {
    Node(Node(t.Prev, t.Data, t.Next.Prev), t.Next.Data, t.Next.Next)
  }

  /** The final relinking: Current's subtrees go to the open links, the two trees under Current. */
  function Assemble<T>(cur: Tree<T>, ls: seq<LeftPiece<T>>, rs: seq<RightPiece<T>>): (r: Tree<T>)
    requires cur.Node?
  {
    Node(HangLeft(ls, cur.Prev), cur.Data, HangRight(rs, cur.Next))
  }

  /**
   * The rest of the splay loop from Current cur with left and right trees ls
   * and rs: one iteration per call, zig-zig rotations included.
   */
  function SplayFrom<T>(cur: Tree<T>, ls: seq<LeftPiece<T>>, rs: seq<RightPiece<T>>, key: T, cmp: (T, T) -> int): (r: Tree<T>)
    requires cur.Node?
    ensures r.Node?
    decreases cur
  {
    if cmp(key, cur.Data) < 0 then
      if cur.Prev.Leaf? then Assemble(cur, ls, rs)
      else if cmp(key, cur.Prev.Data) < 0 then
        var top := RotateRight(cur);
        if top.Prev.Leaf? then Assemble(top, ls, rs)
        else SplayFrom(top.Prev, ls, rs + [RightPiece(top.Data, top.Next)], key, cmp)
      else SplayFrom(cur.Prev, ls, rs + [RightPiece(cur.Data, cur.Next)], key, cmp)
    else if cmp(key, cur.Data) > 0 then
      if cur.Next.Leaf? then Assemble(cur, ls, rs)
      else if cmp(key, cur.Next.Data) > 0 then
        var top := RotateLeft(cur);
        if top.Next.Leaf? then Assemble(top, ls, rs)
        else SplayFrom(top.Next, ls + [LeftPiece(top.Prev, top.Data)], rs, key, cmp)
      else SplayFrom(cur.Next, ls + [LeftPiece(cur.Prev, cur.Data)], rs, key, cmp)
    else
      Assemble(cur, ls, rs)
  }

  /** The tree SplayList leaves: t splayed around the key, starting with empty left and right trees. */
  function Splayed<T>(t: Tree<T>, key: T, cmp: (T, T) -> int): (r: Tree<T>)
    ensures r.Node? <==> t.Node?
  {
    if t.Leaf? then Leaf else SplayFrom(t, [], [], key, cmp)
  }

  lemma AssembleInOrder<T>(cur: Tree<T>, ls: seq<LeftPiece<T>>, rs: seq<RightPiece<T>>)
    requires cur.Node?
    ensures InOrder(Assemble(cur, ls, rs)) == LeftSeq(ls) + InOrder(cur) + RightSeq(rs)
  {
    var hl, hr := HangLeft(ls, cur.Prev), HangRight(rs, cur.Next);
    assert Assemble(cur, ls, rs) == Node(hl, cur.Data, hr);
    HangLeftInOrder(ls, cur.Prev);
    HangRightInOrder(rs, cur.Next);
    RegroupAround(LeftSeq(ls), InOrder(cur.Prev), cur.Data, InOrder(cur.Next), RightSeq(rs));
  }

  /** Bracketing of the in-order parts when the middle tree is put between the left and right trees. */
  lemma RegroupAround<T>(l: seq<T>, a: seq<T>, d: T, b: seq<T>, r: seq<T>)
    ensures (l + a) + [d] + (b + r) == l + (a + [d] + b) + r
  {
  }

  /** Bracketing of the in-order parts when a node joins the right tree. */
  lemma RegroupRight<T>(l: seq<T>, x: seq<T>, d: T, y: seq<T>, r: seq<T>)
    ensures l + x + (([d] + y) + r) == l + (x + [d] + y) + r
  {
  }

  /** Bracketing of the in-order parts when a node joins the left tree. */
  lemma RegroupLeft<T>(l: seq<T>, x: seq<T>, d: T, y: seq<T>, r: seq<T>)
    ensures (l + (x + [d])) + y + r == l + (x + [d] + y) + r
  {
  }

  /** The splay only rearranges: the in-order sequence of the three parts is kept. */
  lemma {:induction false} SplayFromInOrder<T>(cur: Tree<T>, ls: seq<LeftPiece<T>>, rs: seq<RightPiece<T>>, key: T, cmp: (T, T) -> int)
    requires cur.Node?
    ensures InOrder(SplayFrom(cur, ls, rs, key, cmp)) == LeftSeq(ls) + InOrder(cur) + RightSeq(rs)
    decreases cur, 1
  {
    if cmp(key, cur.Data) < 0 {
      SplayLeftInOrder(cur, ls, rs, key, cmp);
    } else if cmp(key, cur.Data) > 0 {
      SplayRightInOrder(cur, ls, rs, key, cmp);
    } else {
      AssembleInOrder(cur, ls, rs);
    }
  }

  /** SplayFromInOrder when the key is left of Current. */
  lemma {:induction false} SplayLeftInOrder<T>(cur: Tree<T>, ls: seq<LeftPiece<T>>, rs: seq<RightPiece<T>>, key: T, cmp: (T, T) -> int)
    requires cur.Node? && cmp(key, cur.Data) < 0
    ensures InOrder(SplayFrom(cur, ls, rs, key, cmp)) == LeftSeq(ls) + InOrder(cur) + RightSeq(rs)
    decreases cur, 0
  {
    if cur.Prev.Leaf? {
      AssembleInOrder(cur, ls, rs);
    } else {
      var top := if cmp(key, cur.Prev.Data) < 0 then RotateRight(cur) else cur;
      if top.Prev.Leaf? {
        AssembleInOrder(top, ls, rs);
      } else {
        var p := RightPiece(top.Data, top.Next);
        assert SplayFrom(cur, ls, rs, key, cmp) == SplayFrom(top.Prev, ls, rs + [p], key, cmp);
        SplayFromInOrder(top.Prev, ls, rs + [p], key, cmp);
        RightSeqSnoc(rs, p);
        RegroupRight(LeftSeq(ls), InOrder(top.Prev), top.Data, InOrder(top.Next), RightSeq(rs));
      }
    }
  }

  /** SplayFromInOrder when the key is right of Current. */
  lemma {:induction false} SplayRightInOrder<T>(cur: Tree<T>, ls: seq<LeftPiece<T>>, rs: seq<RightPiece<T>>, key: T, cmp: (T, T) -> int)
    requires cur.Node? && cmp(key, cur.Data) > 0
    ensures InOrder(SplayFrom(cur, ls, rs, key, cmp)) == LeftSeq(ls) + InOrder(cur) + RightSeq(rs)
    decreases cur, 0
  {
    if cur.Next.Leaf? {
      AssembleInOrder(cur, ls, rs);
    } else {
      var top := if cmp(key, cur.Next.Data) > 0 then RotateLeft(cur) else cur;
      if top.Next.Leaf? {
        AssembleInOrder(top, ls, rs);
      } else {
        var p := LeftPiece(top.Prev, top.Data);
        assert SplayFrom(cur, ls, rs, key, cmp) == SplayFrom(top.Next, ls + [p], rs, key, cmp);
        SplayFromInOrder(top.Next, ls + [p], rs, key, cmp);
        LeftSeqSnoc(ls, p);
        RegroupLeft(LeftSeq(ls), InOrder(top.Prev), top.Data, InOrder(top.Next), RightSeq(rs));
      }
    }
  }

  /** Relinking a Current that has no subtree on the key's side leaves a root that separates the key. */
  lemma AssembleSplits<T(!new)>(cur: Tree<T>, ls: seq<LeftPiece<T>>, rs: seq<RightPiece<T>>, key: T, cmp: (T, T) -> int)
    requires ThreeWay(cmp) && cur.Node? && Ordered(cur, cmp)
    requires AllBelow(LeftSeq(ls), key, cmp) && AllAbove(RightSeq(rs), key, cmp)
    requires cur.Prev.Leaf? || cmp(key, cur.Data) >= 0
    requires cur.Next.Leaf? || cmp(key, cur.Data) <= 0
    ensures SplitsAt(Assemble(cur, ls, rs), key, cmp)
  {
    HangLeftInOrder(ls, cur.Prev);
    HangRightInOrder(rs, cur.Next);
    if cur.Prev.Node? {
      BelowOf(cur, key, cmp);
    }
    if cur.Next.Node? {
      AboveOf(cur, key, cmp);
    }
  }

  /** A right-tree piece whose node is above the key keeps the right tree above it. */
  lemma RightPieceAbove<T(!new)>(t: Tree<T>, rs: seq<RightPiece<T>>, key: T, cmp: (T, T) -> int)
    requires ThreeWay(cmp) && t.Node? && Ordered(t, cmp) && cmp(key, t.Data) < 0
    requires AllAbove(RightSeq(rs), key, cmp)
    ensures AllAbove(RightSeq(rs + [RightPiece(t.Data, t.Next)]), key, cmp)
    ensures Ordered(t.Prev, cmp)
  {
    RightSeqSnoc(rs, RightPiece(t.Data, t.Next));
    AboveOf(t, key, cmp);
    OrderedParts(t, cmp);
  }

  /** A left-tree piece whose node is below the key keeps the left tree below it. */
  lemma LeftPieceBelow<T(!new)>(t: Tree<T>, ls: seq<LeftPiece<T>>, key: T, cmp: (T, T) -> int)
    requires ThreeWay(cmp) && t.Node? && Ordered(t, cmp) && cmp(key, t.Data) > 0
    requires AllBelow(LeftSeq(ls), key, cmp)
    ensures AllBelow(LeftSeq(ls + [LeftPiece(t.Prev, t.Data)]), key, cmp)
    ensures Ordered(t.Next, cmp)
  {
    LeftSeqSnoc(ls, LeftPiece(t.Prev, t.Data));
    BelowOf(t, key, cmp);
    OrderedParts(t, cmp);
  }

  /**
   * On a search tree, the root the splay brings up separates the key: every
   * node left of it is below the key and every node right of it above.
   */
  lemma {:induction false} SplayFromSplits<T(!new)>(cur: Tree<T>, ls: seq<LeftPiece<T>>, rs: seq<RightPiece<T>>, key: T, cmp: (T, T) -> int)
    requires ThreeWay(cmp) && cur.Node? && Ordered(cur, cmp)
    requires AllBelow(LeftSeq(ls), key, cmp) && AllAbove(RightSeq(rs), key, cmp)
    ensures SplitsAt(SplayFrom(cur, ls, rs, key, cmp), key, cmp)
    decreases cur
  {
    if cmp(key, cur.Data) < 0 {
      if cur.Prev.Leaf? {
        AssembleSplits(cur, ls, rs, key, cmp);
      } else if cmp(key, cur.Prev.Data) < 0 {
        var top := RotateRight(cur);
        if top.Prev.Leaf? {
          AssembleSplits(top, ls, rs, key, cmp);
        } else {
          RightPieceAbove(top, rs, key, cmp);
          SplayFromSplits(top.Prev, ls, rs + [RightPiece(top.Data, top.Next)], key, cmp);
        }
      } else {
        RightPieceAbove(cur, rs, key, cmp);
        SplayFromSplits(cur.Prev, ls, rs + [RightPiece(cur.Data, cur.Next)], key, cmp);
      }
    } else if cmp(key, cur.Data) > 0 {
      if cur.Next.Leaf? {
        AssembleSplits(cur, ls, rs, key, cmp);
      } else if cmp(key, cur.Next.Data) > 0 {
        var top := RotateLeft(cur);
        if top.Next.Leaf? {
          AssembleSplits(top, ls, rs, key, cmp);
        } else {
          LeftPieceBelow(top, ls, key, cmp);
          SplayFromSplits(top.Next, ls + [LeftPiece(top.Prev, top.Data)], rs, key, cmp);
        }
      } else {
        LeftPieceBelow(cur, ls, key, cmp);
        SplayFromSplits(cur.Next, ls + [LeftPiece(cur.Prev, cur.Data)], rs, key, cmp);
      }
    } else {
      AssembleSplits(cur, ls, rs, key, cmp);
    }
  }

  /** Under a root that separates the key, the key occurs exactly when the root matches it. */
  lemma SplitFinds<T(!new)>(r: Tree<T>, key: T, cmp: (T, T) -> int)
    requires SplitsAt(r, key, cmp)
    ensures Occurs(InOrder(r), key, cmp) <==> cmp(key, r.Data) == 0
  {
    var a, b := InOrder(r.Prev), InOrder(r.Next);
    var s := InOrder(r);
    assert s == a + [r.Data] + b;
    assert s[|a|] == r.Data;
    if cmp(key, r.Data) != 0 {
      forall i | 0 <= i < |s|
        ensures cmp(key, s[i]) != 0
      {
        if i < |a| {
          assert s[i] == a[i];
        } else if i > |a| {
          assert s[i] == b[i - |a| - 1];
        }
      }
    }
  }

  /**
   * SplayList's loop: a top-down splay of t around the key.  The result is
   * the tree Splayed describes; it holds the same data in the same order,
   * and on a search tree its root separates the key and matches it exactly
   * when the key occurs.
   */
  method TopDownSplay<T(!new)>(t: Tree<T>, key: T, cmp: (T, T) -> int) returns (r: Tree<T>)
    ensures r == Splayed(t, key, cmp)
    ensures InOrder(r) == InOrder(t) && (r.Leaf? <==> t.Leaf?)
    ensures ThreeWay(cmp) && Ordered(t, cmp) && t.Node? ==> SplitsAt(r, key, cmp)
    ensures ThreeWay(cmp) && Ordered(t, cmp) && t.Node? ==> (cmp(key, r.Data) == 0 <==> Occurs(InOrder(t), key, cmp))
  {
    if t.Leaf? {
      return Leaf;
    }
    var cur, ls, rs := t, [], [];
    while true
      invariant cur.Node? && SplayFrom(cur, ls, rs, key, cmp) == SplayFrom(t, [], [], key, cmp)
      decreases cur
    {
      var test := cmp(key, cur.Data);
      if test < 0 {
        if cur.Prev.Leaf? {
          break;
        }
        if cmp(key, cur.Prev.Data) < 0 {
          var top := RotateRight(cur);
          if top.Prev.Leaf? {
            cur := top;
            break;
          }
          rs := rs + [RightPiece(top.Data, top.Next)];
          cur := top.Prev;
        } else {
          rs := rs + [RightPiece(cur.Data, cur.Next)];
          cur := cur.Prev;
        }
      } else if test > 0 {
        if cur.Next.Leaf? {
          break;
        }
        if cmp(key, cur.Next.Data) > 0 {
          var top := RotateLeft(cur);
          if top.Next.Leaf? {
            cur := top;
            break;
          }
          ls := ls + [LeftPiece(top.Prev, top.Data)];
          cur := top.Next;
        } else {
          ls := ls + [LeftPiece(cur.Prev, cur.Data)];
          cur := cur.Next;
        }
      } else {
        break;
      }
    }
    r := Assemble(cur, ls, rs);
    SplayedSplits(t, key, cmp);
  }

  /** Splaying keeps the in-order sequence; on an ordered tree it splits at the key and finds it exactly when it occurs. */
  lemma SplayedSplits<T(!new)>(t: Tree<T>, key: T, cmp: (T, T) -> int)
    requires t.Node?
    ensures InOrder(Splayed(t, key, cmp)) == InOrder(t)
    ensures ThreeWay(cmp) && Ordered(t, cmp) ==> SplitsAt(Splayed(t, key, cmp), key, cmp)
    ensures ThreeWay(cmp) && Ordered(t, cmp) ==> (cmp(key, Splayed(t, key, cmp).Data) == 0 <==> Occurs(InOrder(t), key, cmp))
  {
    var r := Splayed(t, key, cmp);
    SplayFromInOrder(t, [], [], key, cmp);
    if ThreeWay(cmp) && Ordered(t, cmp) {
      SplayFromSplits(t, [], [], key, cmp);
      SplitFinds(r, key, cmp);
    }
  }

  // ---------------------------------------------------------------------
  // Insertion

  /** Where a sorted insertion puts x: after every element x is greater than. */
  function InsertSorted<T>(s: seq<T>, x: T, cmp: (T, T) -> int): (r: seq<T>)
    ensures |r| == |s| + 1 && multiset(r) == multiset(s) + multiset{x}
  {
    if s == [] then [x]
    else if cmp(x, s[0]) > 0 then
      assert s == [s[0]] + s[1..];
      [s[0]] + InsertSorted(s[1..], x, cmp)
    else [x] + s
  }

  /** Between a prefix below x and a suffix that begins above it, InsertSorted puts x. */
  lemma {:induction false} InsertSortedBetween<T(!new)>(p: seq<T>, q: seq<T>, x: T, cmp: (T, T) -> int)
    requires AllBelow(p, x, cmp) && (q == [] || cmp(x, q[0]) < 0)
    ensures InsertSorted(p + q, x, cmp) == p + [x] + q
  {
    if p != [] {
      assert (p + q)[0] == p[0] && (p + q)[1..] == p[1..] + q;
      InsertSortedBetween(p[1..], q, x, cmp);
    }
  }

  /** x between a prefix below it and a suffix above it keeps an increasing sequence increasing. */
  lemma InsertedIncreasing<T(!new)>(p: seq<T>, q: seq<T>, x: T, cmp: (T, T) -> int)
    requires Antisymmetric(cmp) && Increasing(p + q, cmp) && AllBelow(p, x, cmp) && AllAbove(q, x, cmp)
    ensures Increasing(p + [x] + q, cmp)
  {
    var s, t := p + q, p + [x] + q;
    forall i, j | 0 <= i < j < |t|
      ensures cmp(t[i], t[j]) < 0
    {
      if i < |p| && j < |p| {
        assert t[i] == s[i] && t[j] == s[j];
      } else if i < |p| && j == |p| {
        assert t[i] == p[i] && t[j] == x;
      } else if i < |p| {
        assert t[i] == s[i] && t[j] == s[j - 1];
      } else if i == |p| {
        assert t[i] == x && t[j] == q[j - |p| - 1];
      } else {
        assert t[i] == s[i - 1] && t[j] == s[j - 1];
      }
    }
  }

  /**
   * The relinking SplayInsertList does once the splay missed: the new node
   * becomes the root with the old root on the side the comparison names, and
   * the old root's subtree on the far side moves under the new node.  A
   * missing child is NULL data for the comparator in the source; either
   * branch then builds the same tree.
   */
  function LinkNewRoot<T>(h: Tree<T>, x: T, cmp: (T, T) -> int): (r: Tree<T>)
    requires h.Node?
    ensures r.Node? && r.Data == x
  {
    if cmp(x, h.Data) > 0 then
      if h.Next.Node? && cmp(x, h.Next.Data) < 0 then Node(Node(h.Prev, h.Data, Leaf), x, h.Next)
      else Node(h, x, Leaf)
    else
      if h.Prev.Node? && cmp(x, h.Prev.Data) > 0 then Node(h.Prev, x, Node(Leaf, h.Data, h.Next))
      else Node(Leaf, x, h)
  }

  /** Whatever the comparator, the relinked tree holds the old tree's keys and the new one. */
  lemma LinkNewRootKeeps<T>(h: Tree<T>, x: T, cmp: (T, T) -> int)
    requires h.Node?
    ensures multiset(InOrder(LinkNewRoot(h, x, cmp))) == multiset(InOrder(h)) + multiset{x}
  {
    var a, b, d := InOrder(h.Prev), InOrder(h.Next), h.Data;
    var m := multiset(a) + multiset{d} + multiset(b);
    assert multiset(InOrder(h)) == m;
    var r := LinkNewRoot(h, x, cmp);
    if cmp(x, d) > 0 {
      if h.Next.Node? && cmp(x, h.Next.Data) < 0 {
        assert InOrder(r.Prev) == a + [d] + [];
        assert InOrder(r) == InOrder(r.Prev) + [x] + b;
      } else {
        assert InOrder(r) == InOrder(h) + [x] + [];
      }
    } else {
      if h.Prev.Node? && cmp(x, h.Prev.Data) > 0 {
        assert InOrder(r.Next) == [] + [d] + b;
        assert InOrder(r) == a + [x] + InOrder(r.Next);
      } else {
        assert InOrder(r) == [] + [x] + InOrder(h);
      }
    }
  }

  /** After a missed splay, the new root sits exactly where a sorted insertion puts it. */
  lemma LinkNewRootSorted<T(!new)>(h: Tree<T>, x: T, cmp: (T, T) -> int)
    requires Antisymmetric(cmp) && Ordered(h, cmp) && SplitsAt(h, x, cmp) && cmp(x, h.Data) != 0
    ensures InOrder(LinkNewRoot(h, x, cmp)) == InsertSorted(InOrder(h), x, cmp)
    ensures Ordered(LinkNewRoot(h, x, cmp), cmp) && LinkNewRoot(h, x, cmp).Data == x
  {
    var a, b := InOrder(h.Prev), InOrder(h.Next);
    if cmp(x, h.Data) > 0 {
      LinkAbove(h, x, cmp);
      InsertedBetween(a + [h.Data], b, x, cmp);
    } else {
      LinkBelow(h, x, cmp);
      InsertedBetween(a, [h.Data] + b, x, cmp);
    }
  }

  /** x placed between a part below it and a part above it: the increasing sorted insertion. */
  lemma InsertedBetween<T(!new)>(p: seq<T>, q: seq<T>, x: T, cmp: (T, T) -> int)
    requires Antisymmetric(cmp) && Increasing(p + q, cmp) && AllBelow(p, x, cmp) && AllAbove(q, x, cmp)
    ensures InsertSorted(p + q, x, cmp) == p + [x] + q && Increasing(p + [x] + q, cmp)
  {
    InsertSortedBetween(p, q, x, cmp);
    InsertedIncreasing(p, q, x, cmp);
  }

  /** One element between two stretches, bracketed with the stretch after it. */
  lemma Regroup<T>(a: seq<T>, d: T, b: seq<T>)
    ensures a + [d] + b == a + ([d] + b)
  {
  }

  /** A key below d and below all of b is below all of [d] + b. */
  lemma BelowSplit<T(!new)>(b: seq<T>, d: T, x: T, cmp: (T, T) -> int)
    requires cmp(x, d) < 0 && AllAbove(b, x, cmp)
    ensures AllAbove([d] + b, x, cmp)
  {
    assert forall j :: 0 <= j < |b| ==> ([d] + b)[j + 1] == b[j];
  }

  /** A key above d and above all of a is above all of a + [d]. */
  lemma AboveSplit<T(!new)>(a: seq<T>, d: T, x: T, cmp: (T, T) -> int)
    requires cmp(x, d) > 0 && AllBelow(a, x, cmp)
    ensures AllBelow(a + [d], x, cmp)
  {
    assert forall j :: 0 <= j < |a| ==> (a + [d])[j] == a[j];
  }

  /** A new key above the root: the old root and its left subtree go left of it, its right subtree right. */
  lemma LinkAbove<T(!new)>(h: Tree<T>, x: T, cmp: (T, T) -> int)
    requires SplitsAt(h, x, cmp) && cmp(x, h.Data) > 0
    ensures InOrder(LinkNewRoot(h, x, cmp)) == (InOrder(h.Prev) + [h.Data]) + [x] + InOrder(h.Next)
    ensures InOrder(h) == (InOrder(h.Prev) + [h.Data]) + InOrder(h.Next) && LinkNewRoot(h, x, cmp).Data == x
    ensures AllBelow(InOrder(h.Prev) + [h.Data], x, cmp)
  {
    LinkAboveInOrder(h, x, cmp);
    AboveSplit(InOrder(h.Prev), h.Data, x, cmp);
  }

  /** The in-order sequence of the tree LinkNewRoot builds for a key above the root. */
  lemma LinkAboveInOrder<T(!new)>(h: Tree<T>, x: T, cmp: (T, T) -> int)
    requires SplitsAt(h, x, cmp) && cmp(x, h.Data) > 0
    ensures InOrder(LinkNewRoot(h, x, cmp)) == (InOrder(h.Prev) + [h.Data]) + [x] + InOrder(h.Next)
    ensures LinkNewRoot(h, x, cmp).Data == x
  {
    var a, b := InOrder(h.Prev), InOrder(h.Next);
    var r := LinkNewRoot(h, x, cmp);
    if h.Next.Node? {
      assert b[|InOrder(h.Next.Prev)|] == h.Next.Data;
      assert cmp(x, h.Next.Data) < 0;
      assert r == Node(Node(h.Prev, h.Data, Leaf), x, h.Next);
      assert InOrder(r.Prev) == a + [h.Data];
    } else {
      assert r == Node(h, x, Leaf);
      assert b == [];
    }
  }

  /** A new key below the root: the old root and its right subtree go right of it, its left subtree left. */
  lemma LinkBelow<T(!new)>(h: Tree<T>, x: T, cmp: (T, T) -> int)
    requires SplitsAt(h, x, cmp) && cmp(x, h.Data) < 0
    ensures InOrder(LinkNewRoot(h, x, cmp)) == InOrder(h.Prev) + [x] + ([h.Data] + InOrder(h.Next))
    ensures InOrder(h) == InOrder(h.Prev) + ([h.Data] + InOrder(h.Next)) && LinkNewRoot(h, x, cmp).Data == x
    ensures AllAbove([h.Data] + InOrder(h.Next), x, cmp)
  {
    LinkBelowInOrder(h, x, cmp);
    Regroup(InOrder(h.Prev), h.Data, InOrder(h.Next));
    BelowSplit(InOrder(h.Next), h.Data, x, cmp);
  }

  /** The in-order sequence of the tree LinkNewRoot builds for a key below the root. */
  lemma LinkBelowInOrder<T(!new)>(h: Tree<T>, x: T, cmp: (T, T) -> int)
    requires SplitsAt(h, x, cmp) && cmp(x, h.Data) < 0
    ensures InOrder(LinkNewRoot(h, x, cmp)) == InOrder(h.Prev) + [x] + ([h.Data] + InOrder(h.Next))
    ensures LinkNewRoot(h, x, cmp).Data == x
  {
    var a, b := InOrder(h.Prev), InOrder(h.Next);
    var r := LinkNewRoot(h, x, cmp);
    if h.Prev.Node? {
      assert a[|InOrder(h.Prev.Prev)|] == h.Prev.Data;
      assert cmp(x, h.Prev.Data) > 0;
      assert r == Node(h.Prev, x, Node(Leaf, h.Data, h.Next));
      assert InOrder(r.Next) == [h.Data] + b;
    } else {
      assert r == Node(Leaf, x, h);
      assert a == [];
    }
  }

  // ---------------------------------------------------------------------
  // Removal, as written

  /**
   * The tree SplayRemoveList leaves after deleting the root t.  With two
   * subtrees it splays t around its left child's data, which brings that
   * child to the root with t as its right child, and then overwrites the new
   * root's right link with t's right subtree.
   */
  function RemoveRoot<T>(t: Tree<T>, cmp: (T, T) -> int): (r: Tree<T>)
    requires t.Node?
    ensures t.Next.Leaf? ==> r == t.Prev
    ensures t.Next.Node? && t.Prev.Leaf? ==> r == t.Next
    ensures t.Next.Node? && t.Prev.Node? ==> r.Node? && r.Next == t.Next
  {
    if t.Next.Leaf? then t.Prev
    else if t.Prev.Node? then
      var s := Splayed(t, t.Prev.Data, cmp);
      Node(s.Prev, s.Data, t.Next)
    else t.Next
  }

  /** On a search tree the splay in SplayRemoveList is a single zig: t becomes its left child's right child. */
  lemma SplayOnLeftChild<T(!new)>(t: Tree<T>, cmp: (T, T) -> int)
    requires ThreeWay(cmp) && t.Node? && t.Prev.Node? && Ordered(t, cmp)
    ensures Splayed(t, t.Prev.Data, cmp) == Node(t.Prev.Prev, t.Prev.Data, Node(t.Prev.Next, t.Data, t.Next))
  {
    var k := t.Prev.Data;
    OrderedParts(t, cmp);
    assert InOrder(t.Prev)[|InOrder(t.Prev.Prev)|] == k;
    assert cmp(k, t.Data) < 0;
    assert cmp(k, k) == 0;
    var rs := [RightPiece(t.Data, t.Next)];
    assert [] + rs == rs && rs[1..] == [];
    assert SplayFrom(t, [], [], k, cmp) == SplayFrom(t.Prev, [], rs, k, cmp);
    assert SplayFrom(t.Prev, [], rs, k, cmp) == Assemble(t.Prev, [], rs);
    assert HangRight(rs, t.Prev.Next) == Node(t.Prev.Next, t.Data, t.Next);
  }

  /**
   * What SplayRemoveList keeps of a search tree: one subtree when the other is
   * missing, and otherwise the left child with its left subtree and the old
   * right subtree, so the left child's right subtree is lost.
   */
  lemma RemoveRootKeeps<T(!new)>(t: Tree<T>, cmp: (T, T) -> int)
    requires ThreeWay(cmp) && t.Node? && Ordered(t, cmp)
    ensures t.Next.Leaf? ==> InOrder(RemoveRoot(t, cmp)) == InOrder(t.Prev)
    ensures t.Next.Node? && t.Prev.Leaf? ==> InOrder(RemoveRoot(t, cmp)) == InOrder(t.Next)
    ensures t.Next.Node? && t.Prev.Node? ==>
      InOrder(RemoveRoot(t, cmp)) == InOrder(t.Prev.Prev) + [t.Prev.Data] + InOrder(t.Next)
    ensures Ordered(RemoveRoot(t, cmp), cmp) && |InOrder(RemoveRoot(t, cmp))| < |InOrder(t)|
  {
    OrderedParts(t, cmp);
    if t.Next.Node? && t.Prev.Node? {
      SplayOnLeftChild(t, cmp);
      var l := t.Prev;
      var x, m, y := InOrder(l.Prev) + [l.Data], InOrder(l.Next) + [t.Data], InOrder(t.Next);
      assert InOrder(t) == x + m + y;
      IncreasingDropMiddle(x, m, y, cmp);
    }
  }

  /** The loss is real: removing 3 from this search tree also removes 2. */
  lemma RemoveRootLosesNodes()
    ensures var t := Node(Node(Leaf, 1, Node(Leaf, 2, Leaf)), 3, Node(Leaf, 4, Leaf));
      InOrder(t) == [1, 2, 3, 4] && InOrder(RemoveRoot(t, IntOrder)) == [1, 4]
  {
    var t := Node(Node(Leaf, 1, Node(Leaf, 2, Leaf)), 3, Node(Leaf, 4, Leaf));
    IntOrderThreeWay();
    assert InOrder(t) == [1, 2, 3, 4];
    SplayOnLeftChild(t, IntOrder);
  }

  // ---------------------------------------------------------------------
  // BTFind

  /** The data met walking Prev links from t. */
  function LeftSpine<T>(t: Tree<T>): seq<T>
  {
    if t.Leaf? then [] else [t.Data] + LeftSpine(t.Prev)
  }

  /** Everything on the left spine is in the tree, so a bound on the tree bounds the spine. */
  lemma {:induction false} LeftSpineBelow<T(!new)>(t: Tree<T>, key: T, cmp: (T, T) -> int)
    requires AllBelow(InOrder(t), key, cmp)
    ensures AllBelow(LeftSpine(t), key, cmp)
  {
    if t.Node? {
      var s := InOrder(t);
      assert s == InOrder(t.Prev) + [t.Data] + InOrder(t.Next);
      assert s[|InOrder(t.Prev)|] == t.Data;
      assert forall i :: 0 <= i < |InOrder(t.Prev)| ==> s[i] == InOrder(t.Prev)[i];
      LeftSpineBelow(t.Prev, key, cmp);
    }
  }

  /** After a splay, BTFind from the root finds the key exactly when the root matches it. */
  lemma BTFindAfterSplay<T(!new)>(r: Tree<T>, key: T, cmp: (T, T) -> int)
    requires ThreeWay(cmp) && SplitsAt(r, key, cmp)
    ensures FindFirst(LeftSpine(r), Matches(cmp, key)) == (if cmp(key, r.Data) == 0 then Some(0) else None)
  {
    var sp := LeftSpine(r);
    var p := Matches(cmp, key);
    LeftSpineBelow(r.Prev, key, cmp);
    assert sp == [r.Data] + LeftSpine(r.Prev);
    assert forall j :: 1 <= j < |sp| ==> sp[j] == LeftSpine(r.Prev)[j - 1];
    assert forall j :: 1 <= j < |sp| ==> cmp(key, sp[j]) > 0;
    assert forall j :: 1 <= j < |sp| ==> !p(sp[j]);
    if cmp(key, r.Data) == 0 {
      FindFirstHit(sp, p, 0);
    } else {
      FindFirstMiss(sp, p);
    }
  }

  /** BTFind only ever follows Prev links, so it misses keys that lie to the right. */
  lemma BTFindMissesRight()
    ensures var t := Node(Leaf, 1, Node(Leaf, 2, Leaf));
      Occurs(InOrder(t), 2, IntOrder) && FindFirst(LeftSpine(t), Matches(IntOrder, 2)).None?
  {
    var t := Node(Leaf, 1, Node(Leaf, 2, Leaf));
    assert InOrder(t)[1] == 2;
    FindFirstMiss(LeftSpine(t), Matches(IntOrder, 2));
  }

  // ---------------------------------------------------------------------
  // The container in tree configuration

  class STree<T(!new)> {
    /** The root (Head in the source). */
    var Root: Tree<T>
    /** The subtree at Current. */
    var Current: Tree<T>
    var Size: int
    var Flags: FlagWord
    const compare: (T, T) -> int

    /**
     * A search tree under a three-way comparator.  Size counts insertions
     * less removals, which is never less than the nodes still reachable.
     */
    ghost predicate Valid()
      reads this
    {
      TreeConfig(Flags) && ThreeWay(compare) && Ordered(Root, compare) && |InOrder(Root)| <= Size
    }

    /** NewList with a tree configuration: an empty tree. */
    constructor(listType: FlagWord, cmp: (T, T) -> int)
      requires TreeConfig(listType) && ThreeWay(cmp)
      ensures Valid() && Root == Leaf && Current == Leaf && Size == 0
      ensures Flags == listType && compare == cmp
    {
      Root, Current, Size, Flags, compare := Leaf, Leaf, 0, listType, cmp;
    }

    /**
     * SplayList: splay around the key, leave the new root as Current and
     * return it when it matches the key.
     */
    method SplayList(key: T) returns (r: Option<Tree<T>>)
      requires Valid()
      modifies this`Root, this`Current
      ensures Valid() && InOrder(Root) == old(InOrder(Root)) && Current == Root
      ensures Root == Splayed(old(Root), key, compare)
      ensures Root.Node? ==> SplitsAt(Root, key, compare)
      ensures r.Some? <==> Occurs(old(InOrder(Root)), key, compare)
      ensures r.Some? ==> r.value == Root && Root.Node? && compare(key, Root.Data) == 0
      ensures r.None? && Root.Node? ==> compare(key, Root.Data) != 0
    {
      var t := TopDownSplay(Root, key, compare);
      Root, Current := t, t;
      if t.Node? && compare(key, t.Data) == 0 {
        r := Some(t);
      } else {
        r := None;
      }
    }

    /**
     * SplayInsertList, which AddNode calls for a tree: a key already present
     * is refused with LLIST_BADVALUE after the splay; otherwise the new node
     * becomes the root, in its sorted place, and Size grows by one.
     */
    method SplayInsertList(x: T) returns (status: int)
      requires Valid()
      modifies this`Root, this`Current, this`Size
      ensures Valid() && Current == Root
      ensures Occurs(old(InOrder(Root)), x, compare) ==>
        status == LLIST_BADVALUE && Size == old(Size) && InOrder(Root) == old(InOrder(Root))
      ensures !Occurs(old(InOrder(Root)), x, compare) ==>
        status == LLIST_NOERROR && Size == old(Size) + 1 && Root.Node? && Root.Data == x &&
        InOrder(Root) == InsertSorted(old(InOrder(Root)), x, compare)
    {
      if Root.Node? {
        var hit := SplayList(x);
        if hit.Some? {
          return LLIST_BADVALUE;
        }
        LinkNewRootSorted(Root, x, compare);
        Root := LinkNewRoot(Root, x, compare);
      } else {
        Root := Node(Leaf, x, Leaf);
      }
      Current := Root;
      Size := Size + 1;
      status := LLIST_NOERROR;
    }

    /**
     * SplayRemoveList, which DelNode calls for a tree: delete the root.  Size
     * drops by one even where the relinking also loses the left child's
     * right subtree.
     */
    method SplayRemoveList() returns (status: int)
      requires Valid()
      modifies this`Root, this`Current, this`Size
      ensures Valid() && status == LLIST_NOERROR
      ensures old(Root).Leaf? ==> Root.Leaf? && Size == old(Size) && Current == old(Current)
      ensures old(Root).Node? ==>
        Root == RemoveRoot(old(Root), compare) && Current == Root && Size == old(Size) - 1
    {
      if Root.Leaf? {
        return LLIST_NOERROR;
      }
      var del := Root;
      RemoveRootKeeps(del, compare);
      if Root.Next.Leaf? {
        Root := Root.Prev;
      } else if Root.Prev.Node? {
        var _ := SplayList(Root.Prev.Data);
        // the deleted node went into the right tree whole, so its Next link is as before
        Root := Node(Root.Prev, Root.Data, del.Next);
      } else {
        Root := Root.Next;
      }
      Current := Root;
      Size := Size - 1;
      status := LLIST_NOERROR;
    }

    /**
     * BTFind from Current.  The comparison result is reduced to 0 or 1 before
     * its sign is tested, so every mismatch steps to Prev: the walk follows
     * the left spine to the first matching node, or to NULL.
     */
    method BTFind(key: T) returns (r: Option<T>)
      modifies this`Current
      ensures var sp := LeftSpine(old(Current));
        match FindFirst(sp, Matches(compare, key))
        case Some(i) => r == Some(sp[i]) && Current.Node? && LeftSpine(Current) == sp[i..] &&
          (i == 0 ==> Current == old(Current))
        case None => r.None? && Current.Leaf?
    {
      ghost var sp := LeftSpine(Current);
      ghost var p := Matches(compare, key);
      ghost var i := 0;
      var c := 1;
      while c != 0 && Current.Node?
        invariant 0 <= i <= |sp| && LeftSpine(Current) == sp[i..] && 0 <= c <= 1
        invariant forall j :: 0 <= j < i ==> !p(sp[j])
        invariant c == 0 ==> Current.Node? && p(sp[i])
        invariant i == 0 ==> Current == old(Current)
        decreases |LeftSpine(Current)|, c
      {
        assert sp[i..] == [Current.Data] + LeftSpine(Current.Prev);
        c := if compare(Current.Data, key) != 0 then 1 else 0;
        if c != 0 {
          // c is 0 or 1 here, so the source's c < 0 arm toward Next is never taken
          Current := Current.Prev;
          assert sp[i + 1..] == sp[i..][1..];
          i := i + 1;
        }
      }
      if Current.Node? {
        assert sp[i..][0] == Current.Data;
        FindFirstHit(sp, p, i);
        r := Some(Current.Data);
      } else {
        FindFirstMiss(sp, p);
        r := None;
      }
    }

    /**
     * FindNode on a tree: splay around the key, then BTFind from the new
     * root.  The key's data is returned, and left as Current, exactly when
     * it occurs; on a miss Current ends NULL.
     */
    method FindNode(key: T) returns (r: Option<T>)
      requires Valid()
      modifies this`Root, this`Current
      ensures Valid() && InOrder(Root) == old(InOrder(Root)) && Root == Splayed(old(Root), key, compare)
      ensures r.Some? <==> Occurs(old(InOrder(Root)), key, compare)
      ensures r.Some? ==> Current == Root && Root.Node? && r == Some(Root.Data) && compare(key, Root.Data) == 0
      ensures r.None? ==> Current.Leaf?
    {
      var hit := SplayList(key);
      if Root.Node? {
        BTFindAfterSplay(Root, key, compare);
      } else {
        FindFirstMiss(LeftSpine(Root), Matches(compare, key));
      }
      var found := BTFind(key);
      if hit.Some? || found.Some? {
        r := Some(Current.Data);
      } else {
        r := None;
      }
    }
  }
}
