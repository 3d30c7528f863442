/**
 * The generic container of linklist.c: a doubly linked list of nodes whose
 * configuration word (LinkListFlags) chooses where AddNode, DelNode and
 * GetNode act.  Nodes are heap objects whose Next and Prev fields the
 * operations rewrite in place; the ghost sequences Nodes and Contents give the
 * list order from Head to Tail, and Cur the position of the cursor Current.
 *
 * Splay-tree configurations are modelled separately (module Splay).
 */
module LinkList {
  import opened Wrappers
  import opened LinkListFlags
  import opened LinkSort

  class Node<T> {
    var Data: T
    var Next: Node?<T>
    var Prev: Node?<T>

    /** NewListNode: a detached node holding the given data. */
    constructor (data: T)
      ensures Data == data && Next == null && Prev == null
    {
      Data := data;
      Next := null;
      Prev := null;
    }
  }

  /** Each node's Next is the node after it in n. */
  ghost predicate NextLinked<T>(n: seq<Node<T>>)
    reads n
  {
    forall i {:trigger n[i].Next} :: 0 <= i < |n| - 1 ==> n[i].Next == n[i + 1]
  }

  /** Each node's Prev is the node before it in n. */
  ghost predicate PrevLinked<T>(n: seq<Node<T>>)
    reads n
  {
    forall i {:trigger n[i].Prev} :: 0 < i < |n| ==> n[i].Prev == n[i - 1]
  }

  /** The nodes of n hold the data of c, position by position. */
  ghost predicate Paired<T>(n: seq<Node<T>>, c: seq<T>)
    reads n
  {
    |n| == |c| && forall i :: 0 <= i < |n| ==> n[i].Data == c[i]
  }

  /**
   * n, holding the data c, is a doubly linked chain from head to tail: the
   * first node has no Prev and the last no Next.
   */
  ghost predicate Linked<T>(n: seq<Node<T>>, c: seq<T>, head: Node?<T>, tail: Node?<T>)
    reads n
  {
    Paired(n, c) && NextLinked(n) && PrevLinked(n) &&
    (|n| > 0 ==> head == n[0] && n[0].Prev == null) &&
    (|n| > 0 ==> tail == n[|n| - 1] && n[|n| - 1].Next == null)
  }

  /** The position of the first element accepted by p, as a linear scan finds it. */
  function FindFirst<T>(s: seq<T>, p: T --> bool): (r: Option<nat>)
    requires forall j :: 0 <= j < |s| ==> p.requires(s[j])
    ensures r.Some? ==> r.value < |s| && p(s[r.value])
    ensures r.Some? ==> forall j :: 0 <= j < r.value ==> !p(s[j])
    ensures r.None? ==> forall j :: 0 <= j < |s| ==> !p(s[j])
  {
    if s == [] then None
    else if p(s[0]) then Some(0)
    else match FindFirst(s[1..], p)
      case None => None
      case Some(k) => Some(k + 1)
  }

  /** Inserting x after position k of a Next-linked run that is broken only at k. */
  lemma SplicedNext<T>(n: seq<Node<T>>, k: int, x: Node<T>)
    requires 0 <= k < |n|
    requires forall i {:trigger n[i].Next} :: 0 <= i < |n| - 1 && i != k ==> n[i].Next == n[i + 1]
    requires n[k].Next == x && x.Next == (if k + 1 < |n| then n[k + 1] else null)
    ensures NextLinked(n[..k + 1] + [x] + n[k + 1..])
  {
    var m := n[..k + 1] + [x] + n[k + 1..];
    forall i | 0 <= i < |m| - 1
      ensures m[i].Next == m[i + 1]
    {
      if i < k {
        assert m[i] == n[i] && m[i + 1] == n[i + 1];
      } else if i == k {
        assert m[i] == n[k] && m[i + 1] == x;
      } else if i == k + 1 {
        assert m[i] == x && m[i + 1] == n[k + 1];
      } else {
        assert m[i] == n[i - 1] && m[i + 1] == n[i];
      }
    }
  }

  /** Inserting x after position k of a Prev-linked run that is broken only at k + 1. */
  lemma SplicedPrev<T>(n: seq<Node<T>>, k: int, x: Node<T>)
    requires 0 <= k < |n|
    requires forall i {:trigger n[i].Prev} :: 0 < i < |n| && i != k + 1 ==> n[i].Prev == n[i - 1]
    requires x.Prev == n[k] && (k + 1 < |n| ==> n[k + 1].Prev == x)
    ensures PrevLinked(n[..k + 1] + [x] + n[k + 1..])
  {
    var m := n[..k + 1] + [x] + n[k + 1..];
    forall i | 0 < i < |m|
      ensures m[i].Prev == m[i - 1]
    {
      if i <= k {
        assert m[i] == n[i] && m[i - 1] == n[i - 1];
      } else if i == k + 1 {
        assert m[i] == x && m[i - 1] == n[k];
      } else if i == k + 2 {
        assert m[i] == n[k + 1] && m[i - 1] == x;
      } else {
        assert m[i] == n[i - 1] && m[i - 1] == n[i - 2];
      }
    }
  }

  /** Inserting a node and its datum at the same position keeps them paired. */
  lemma SplicedData<T>(n: seq<Node<T>>, c: seq<T>, k: int, x: Node<T>)
    requires |n| == |c| && 0 <= k < |n|
    requires Paired(n, c)
    ensures Paired(n[..k + 1] + [x] + n[k + 1..], c[..k + 1] + [x.Data] + c[k + 1..])
  {
    var m, d := n[..k + 1] + [x] + n[k + 1..], c[..k + 1] + [x.Data] + c[k + 1..];
    forall i | 0 <= i < |m|
      ensures m[i].Data == d[i]
    {
      if i <= k {
        assert m[i] == n[i] && d[i] == c[i];
      } else if i > k + 1 {
        assert m[i] == n[i - 1] && d[i] == c[i - 1];
      }
    }
  }

  /** Dropping position k from a Next-linked run whose node k - 1 skips over k. */
  lemma RemovedNext<T>(n: seq<Node<T>>, k: int)
    requires 0 < k < |n| - 1
    requires forall i {:trigger n[i].Next} :: 0 <= i < |n| - 1 && i != k - 1 ==> n[i].Next == n[i + 1]
    requires n[k - 1].Next == n[k + 1]
    ensures NextLinked(RemoveAt(n, k))
  {
    var m := RemoveAt(n, k);
    forall i | 0 <= i < |m| - 1
      ensures m[i].Next == m[i + 1]
    {
      if i < k - 1 {
        assert m[i] == n[i] && m[i + 1] == n[i + 1];
      } else if i == k - 1 {
        assert m[i] == n[k - 1] && m[i + 1] == n[k + 1];
      } else {
        assert m[i] == n[i + 1] && m[i + 1] == n[i + 2];
      }
    }
  }

  /** Dropping position k from a Prev-linked run whose node k + 1 skips over k. */
  lemma RemovedPrev<T>(n: seq<Node<T>>, k: int)
    requires 0 < k < |n| - 1
    requires forall i {:trigger n[i].Prev} :: 0 < i < |n| && i != k + 1 ==> n[i].Prev == n[i - 1]
    requires n[k + 1].Prev == n[k - 1]
    ensures PrevLinked(RemoveAt(n, k))
  {
    var m := RemoveAt(n, k);
    forall i | 0 < i < |m|
      ensures m[i].Prev == m[i - 1]
    {
      if i < k {
        assert m[i] == n[i] && m[i - 1] == n[i - 1];
      } else if i == k {
        assert m[i] == n[k + 1] && m[i - 1] == n[k - 1];
      } else {
        assert m[i] == n[i + 1] && m[i - 1] == n[i];
      }
    }
  }

  /** Dropping a node and its datum at the same position keeps them paired. */
  lemma RemovedData<T>(n: seq<Node<T>>, c: seq<T>, k: int)
    requires |n| == |c| && 0 <= k < |n|
    requires Paired(n, c)
    ensures Paired(RemoveAt(n, k), RemoveAt(c, k))
  {
    var m, d := RemoveAt(n, k), RemoveAt(c, k);
    forall i | 0 <= i < |m|
      ensures m[i].Data == d[i]
    {
      if i < k {
        assert m[i] == n[i] && d[i] == c[i];
      } else {
        assert m[i] == n[i + 1] && d[i] == c[i + 1];
      }
    }
  }

  class LList<T(!new)> {
    var Current: Node?<T>
    var Head: Node?<T>
    var Tail: Node?<T>
    var Size: int
    var Flags: FlagWord
    var compare: Option<(T, T) -> int>

    /** The nodes from Head to Tail. */
    ghost var Nodes: seq<Node<T>>
    /** Their data, in the same order. */
    ghost var Contents: seq<T>
    /** The position of Current in Nodes, or -1 when Current is NULL. */
    ghost var Cur: int

    /** The links of Nodes form a proper doubly linked chain from Head to Tail. */
    ghost predicate Chain()
      reads this`Head, this`Tail, this`Nodes, this`Contents, Nodes
    {
      Linked(Nodes, Contents, Head, Tail)
    }

    /**
     * No node occurs twice in a chain: following Next from a repeated node
     * would reach the NULL after Tail too early.
     */
    lemma {:induction false} DistinctNodes(i: int, j: int)
      requires Chain() && 0 <= i < j < |Nodes|
      ensures Nodes[i] != Nodes[j]
      decreases |Nodes| - j
    {
      assert Nodes[i].Next == Nodes[i + 1];
      if j < |Nodes| - 1 {
        assert Nodes[j].Next == Nodes[j + 1];
        DistinctNodes(i + 1, j + 1);
      } else {
        assert Nodes[j].Next == null;
      }
    }

    /** The node at position k differs from every other node of the chain. */
    lemma DistinctFrom(k: int)
      requires Chain() && 0 <= k < |Nodes|
      ensures forall i :: 0 <= i < |Nodes| && i != k ==> Nodes[i] != Nodes[k]
    {
      forall i | 0 <= i < |Nodes| && i != k
        ensures Nodes[i] != Nodes[k]
      {
        if i < k { DistinctNodes(i, k); } else { DistinctNodes(k, i); }
      }
    }

    /**
     * The container invariant.  On an empty list Head and Tail are not
     * constrained: DelTailList and DelHeadList leave them pointing at the node
     * they freed.
     */
    ghost predicate Valid()
      reads this, Nodes
    {
      Chain() && ListConfig(Flags) && Size == |Nodes| &&
      -1 <= Cur < |Nodes| && Current == (if Cur < 0 then null else Nodes[Cur])
    }

    /** Head is NULL or a node of the list (not one already freed). */
    ghost predicate HeadLive()
      reads this
    {
      Head != null ==> |Nodes| > 0
    }

    /** Tail is NULL or a node of the list (not one already freed). */
    ghost predicate TailLive()
      reads this
    {
      Tail != null ==> |Nodes| > 0
    }

    /** NewListAlloc: an empty container of the given type and comparator. */
    constructor (listType: FlagWord, cfunc: Option<(T, T) -> int>)
      requires ListConfig(listType)
      ensures Valid() && HeadLive() && TailLive()
      ensures Flags == listType && compare == cfunc
      ensures Contents == [] && Cur == -1 && Head == null && Tail == null
    {
      Current, Head, Tail := null, null, null;
      Size := 0;
      Flags := listType;
      compare := cfunc;
      Nodes, Contents, Cur := [], [], -1;
    }

    /**
     * The pointer writes of InsertList when Current is a node of the list:
     * afterwards the old chain is linked everywhere except around Current,
     * where the node now sits.
     */
    method SpliceLinks(node: Node<T>)
      requires Valid() && Current != null
      requires node !in Nodes && node.Next == null && node.Prev == null
      modifies this`Tail, Nodes, node`Next, node`Prev
      ensures node.Data == old(node.Data) && node.Prev == Current == Nodes[Cur]
      ensures node.Next == (if Cur + 1 < |Nodes| then Nodes[Cur + 1] else null)
      ensures Current.Next == node && (Cur + 1 < |Nodes| ==> Nodes[Cur + 1].Prev == node)
      ensures Tail == (if Cur + 1 < |Nodes| then Nodes[|Nodes| - 1] else node) && Tail.Next == null
      ensures Head == Nodes[0] && Head.Prev == null
      ensures forall i :: 0 <= i < |Nodes| ==> Nodes[i].Data == Contents[i]
      ensures forall i {:trigger Nodes[i].Next} :: 0 <= i < |Nodes| - 1 && i != Cur ==> Nodes[i].Next == Nodes[i + 1]
      ensures forall i {:trigger Nodes[i].Prev} :: 0 < i < |Nodes| && i != Cur + 1 ==> Nodes[i].Prev == Nodes[i - 1]
    {
      assert Current == Nodes[Cur];
      assert Cur + 1 < |Nodes| ==> Current.Next == Nodes[Cur + 1];
      DistinctFrom(Cur);
      if Cur + 1 < |Nodes| { DistinctFrom(Cur + 1); }
      node.Prev := Current;
      node.Next := Current.Next;
      Current.Next := node;
      if node.Next == null {
        Tail := node;
      } else {
        node.Next.Prev := node;
      }
    }

    /** The linking half of InsertList when Current is a node of the list. */
    method LinkAfterCurrent(node: Node<T>)
      requires Valid() && Current != null
      requires node !in Nodes && node.Next == null && node.Prev == null
      modifies this`Tail, this`Nodes, this`Contents, this`Cur, Nodes, node`Next, node`Prev
      ensures Nodes == old(Nodes)[..old(Cur) + 1] + [node] + old(Nodes)[old(Cur) + 1..]
      ensures Chain() && Cur == old(Cur) + 1 && Nodes[Cur] == node
      ensures Contents == old(Contents)[..old(Cur) + 1] + [node.Data] + old(Contents)[old(Cur) + 1..]
    {
      ghost var n, c, k := Nodes, Contents, Cur;
      SpliceLinks(node);
      Nodes := n[..k + 1] + [node] + n[k + 1..];
      Contents := c[..k + 1] + [node.Data] + c[k + 1..];
      Cur := k + 1;
      SplicedNext(n, k, node);
      SplicedPrev(n, k, node);
      SplicedData(n, c, k, node);
    }

    /**
     * InsertList: link the node after Current and make it Current.  On an
     * empty list it becomes Head and Tail.  On a non-empty list whose Current
     * is NULL (after a FindNode miss, say) the node is not linked at all:
     * Size still grows, Head and Tail stay, and Current is the orphan, a state
     * outside Valid().
     */
    method InsertList(node: Node?<T>) returns (status: int)
      requires Valid()
      requires node != null ==> node !in Nodes && node.Next == null && node.Prev == null
      modifies this`Current, this`Head, this`Tail, this`Size, this`Nodes, this`Contents, this`Cur, Nodes, node
      ensures node != null ==> node.Data == old(node.Data)
      ensures node == null ==> status == LLIST_NULL && Valid()
      ensures node == null ==> Contents == old(Contents) && Cur == old(Cur) && Nodes == old(Nodes)
      ensures node == null ==> Head == old(Head) && Tail == old(Tail)
      ensures node != null ==> status == LLIST_NOERROR
      ensures node != null && (old(Cur) >= 0 || old(|Nodes|) == 0) ==>
        Valid() && HeadLive() && TailLive() && Cur == old(Cur) + 1 &&
        Contents == old(Contents)[..old(Cur) + 1] + [node.Data] + old(Contents)[old(Cur) + 1..] &&
        Nodes == old(Nodes)[..old(Cur) + 1] + [node] + old(Nodes)[old(Cur) + 1..]
      ensures node != null && old(Cur) < 0 && old(|Nodes|) > 0 ==>
        Chain() && Nodes == old(Nodes) && Contents == old(Contents) &&
        Size == |Nodes| + 1 && Current == node && node.Next == null && node.Prev == null
    {
      if node == null {
        return LLIST_NULL;
      }
      if Current != null {
        LinkAfterCurrent(node);
      } else if |Nodes| == 0 {
        Nodes, Contents, Cur := [node], [node.Data], 0;
      }
      Current := node;
      Size := Size + 1;
      if Size == 1 {
        Head := node;
        Tail := node;
      }
      status := LLIST_NOERROR;
    }

    /** HeadList: the node becomes the new Head and Current. */
    method HeadList(node: Node?<T>) returns (status: int)
      requires Valid() && HeadLive()
      requires node != null ==> node !in Nodes && node.Next == null && node.Prev == null
      modifies this`Current, this`Head, this`Tail, this`Size, this`Nodes, this`Contents, this`Cur, Nodes, node
      ensures node != null ==> node.Data == old(node.Data)
      ensures Valid()
      ensures node == null ==> status == LLIST_NULL && Contents == old(Contents) && Cur == old(Cur)
      ensures node == null ==> Nodes == old(Nodes) && Head == old(Head) && Tail == old(Tail)
      ensures node != null ==> status == LLIST_NOERROR && HeadLive() && TailLive()
      ensures node != null ==> Contents == [node.Data] + old(Contents) && Cur == 0
      ensures node != null ==> Nodes == [node] + old(Nodes)
    {
      if node == null {
        return LLIST_NULL;
      }
      if Head != null {
        DistinctFrom(0);
        node.Next := Head;
        Head.Prev := node;
      }
      Head := node;
      Current := node;
      Size := Size + 1;
      if Size == 1 {
        Tail := node;
      }
      Nodes, Contents, Cur := [node] + Nodes, [node.Data] + Contents, 0;
      status := LLIST_NOERROR;
    }

    /** TailList: the node becomes the new Tail and Current. */
    method TailList(node: Node?<T>) returns (status: int)
      requires Valid() && TailLive()
      requires node != null ==> node !in Nodes && node.Next == null && node.Prev == null
      modifies this`Current, this`Head, this`Tail, this`Size, this`Nodes, this`Contents, this`Cur, Nodes, node
      ensures node != null ==> node.Data == old(node.Data)
      ensures Valid()
      ensures node == null ==> status == LLIST_NULL && Contents == old(Contents) && Cur == old(Cur)
      ensures node == null ==> Nodes == old(Nodes) && Head == old(Head) && Tail == old(Tail)
      ensures node != null ==> status == LLIST_NOERROR && HeadLive() && TailLive()
      ensures node != null ==> Contents == old(Contents) + [node.Data] && Cur == |Contents| - 1
      ensures node != null ==> Nodes == old(Nodes) + [node]
    {
      if node == null {
        return LLIST_NULL;
      }
      if Tail != null {
        DistinctFrom(|Nodes| - 1);
        node.Prev := Tail;
        Tail.Next := node;
      }
      Tail := node;
      Current := node;
      Size := Size + 1;
      if Size == 1 {
        Head := node;
      }
      Nodes, Contents := Nodes + [node], Contents + [node.Data];
      Cur := |Nodes| - 1;
      status := LLIST_NOERROR;
    }

    /**
     * DelHeadList: unlink the Head; the next node becomes Head and Current.
     * When the list empties, Tail keeps pointing at the freed node.
     */
    method DelHeadList() returns (status: int)
      requires Valid() && HeadLive()
      modifies this`Current, this`Head, this`Tail, this`Size, this`Nodes, this`Contents, this`Cur, Nodes
      ensures Valid() && HeadLive() && status == LLIST_NOERROR
      ensures old(|Nodes|) == 0 ==> Contents == old(Contents) && Cur == old(Cur) && Tail == old(Tail)
      ensures old(|Nodes|) > 0 ==>
        Contents == RemoveAt(old(Contents), 0) && Nodes == RemoveAt(old(Nodes), 0) &&
        Cur == CurAfterDelete(old(|Nodes|), 0)
      ensures |Nodes| == 0 ==> Head == null && Tail == old(Tail)
    {
      if Head == null {
        return LLIST_NOERROR;
      }
      var temp := Head;
      assert temp == Nodes[0];
      if temp.Next != null {
        assert temp.Next == Nodes[1];
        DistinctFrom(1);
        temp.Next.Prev := null;
      }
      Head := temp.Next;
      Current := Head;
      Size := Size - 1;
      Nodes, Contents := RemoveAt(Nodes, 0), RemoveAt(Contents, 0);
      Cur := if |Nodes| > 0 then 0 else -1;
      status := LLIST_NOERROR;
    }

    /**
     * DelTailList: unlink the Tail; the previous node becomes Tail and
     * Current.  When the list empties, Head keeps pointing at the freed node.
     */
    method DelTailList() returns (status: int)
      requires Valid() && TailLive()
      modifies this`Current, this`Head, this`Tail, this`Size, this`Nodes, this`Contents, this`Cur, Nodes
      ensures Valid() && TailLive() && status == LLIST_NOERROR
      ensures old(|Nodes|) == 0 ==> Contents == old(Contents) && Cur == old(Cur) && Head == old(Head)
      ensures old(|Nodes|) > 0 ==>
        Contents == RemoveAt(old(Contents), old(|Nodes|) - 1) &&
        Nodes == RemoveAt(old(Nodes), old(|Nodes|) - 1) &&
        Cur == CurAfterDelete(old(|Nodes|), old(|Nodes|) - 1)
      ensures |Nodes| == 0 ==> Tail == null && Head == old(Head)
    {
      if Tail == null {
        return LLIST_NOERROR;
      }
      var temp := Tail;
      assert temp == Nodes[|Nodes| - 1];
      if temp.Prev != null {
        assert temp.Prev == Nodes[|Nodes| - 2];
        DistinctFrom(|Nodes| - 2);
        temp.Prev.Next := null;
      }
      Tail := temp.Prev;
      Current := Tail;
      Size := Size - 1;
      Nodes, Contents := RemoveAt(Nodes, |Nodes| - 1), RemoveAt(Contents, |Contents| - 1);
      Cur := |Nodes| - 1;
      status := LLIST_NOERROR;
    }

    /**
     * RemoveList: delete Current.  At the Head this is DelHeadList, at the
     * Tail DelTailList (Current moves back to the new Tail), elsewhere the
     * node is unlinked and Current moves to its successor.  A NULL Current
     * deletes nothing.
     */
    method RemoveList() returns (status: int)
      requires Valid()
      modifies this`Current, this`Head, this`Tail, this`Size, this`Nodes, this`Contents, this`Cur, Nodes
      ensures Valid() && status == LLIST_NOERROR
      ensures old(Cur) < 0 ==> Contents == old(Contents) && Nodes == old(Nodes) && Cur == old(Cur)
      ensures old(Cur) < 0 ==> Head == old(Head) && Tail == old(Tail)
      ensures old(Cur) >= 0 ==>
        Contents == RemoveAt(old(Contents), old(Cur)) && Nodes == RemoveAt(old(Nodes), old(Cur)) &&
        Cur == CurAfterDelete(old(|Contents|), old(Cur)) && HeadLive()
    {
      if Current == null {
        return LLIST_NOERROR;
      }
      DistinctFrom(Cur);
      if Current == Head {
        status := DelHeadList();
      } else if Current == Tail {
        status := DelTailList();
      } else {
        status := RemoveInterior();
      }
    }

    /** RemoveList when Current is neither Head nor Tail. */
    method RemoveInterior() returns (status: int)
      requires Valid() && Current != null && Current != Head && Current != Tail
      modifies this`Current, this`Head, this`Tail, this`Size, this`Nodes, this`Contents, this`Cur, Nodes
      ensures Valid() && status == LLIST_NOERROR && 0 < old(Cur) < old(|Nodes|) - 1
      ensures Contents == RemoveAt(old(Contents), old(Cur)) && Nodes == RemoveAt(old(Nodes), old(Cur))
      ensures Cur == old(Cur) && HeadLive() && TailLive()
    {
      ghost var n, c, k := Nodes, Contents, Cur;
      UnlinkCurrent();
      RemovedLinked(n, c, k, Head, Tail);
      Current := Current.Next;
      Size := Size - 1;
      Nodes, Contents := RemoveAt(n, k), RemoveAt(c, k);
      status := LLIST_NOERROR;
    }

    /**
     * The pointer writes of RemoveList for an interior Current: its
     * neighbours now point at each other, every other link is as before.
     */
    method UnlinkCurrent()
      requires Valid() && Current != null && Current != Head && Current != Tail
      modifies Nodes
      ensures 0 < Cur < |Nodes| - 1 && Current == Nodes[Cur]
      ensures Current.Next == Nodes[Cur + 1]
      ensures Nodes[Cur - 1].Next == Nodes[Cur + 1] && Nodes[Cur + 1].Prev == Nodes[Cur - 1]
      ensures Head == Nodes[0] && Head.Prev == null
      ensures Tail == Nodes[|Nodes| - 1] && Tail.Next == null
      ensures forall i :: 0 <= i < |Nodes| ==> Nodes[i].Data == Contents[i]
      ensures forall i {:trigger Nodes[i].Next} :: 0 <= i < |Nodes| - 1 && i != Cur - 1 ==> Nodes[i].Next == Nodes[i + 1]
      ensures forall i {:trigger Nodes[i].Prev} :: 0 < i < |Nodes| && i != Cur + 1 ==> Nodes[i].Prev == Nodes[i - 1]
    {
      var temp := Current;
      assert 0 < Cur < |Nodes| - 1;
      assert temp.Prev == Nodes[Cur - 1] && temp.Next == Nodes[Cur + 1];
      DistinctFrom(Cur - 1);
      DistinctFrom(Cur + 1);
      temp.Prev.Next := Current.Next;
      temp.Next.Prev := Current.Prev;
    }

    /**
     * GetNode: the data of the node the read policy names (Head, Tail or
     * Current), or NULL when that node is missing.  With LISTDELREAD the node
     * is then deleted (the data itself is not).
     */
    method GetNode() returns (r: Option<T>)
      requires Valid()
      requires ReadPolicyOf(Flags) == ReadAtHead ==> HeadLive()
      requires ReadPolicyOf(Flags) == ReadAtTail ==> TailLive()
      modifies this`Current, this`Head, this`Tail, this`Size, this`Nodes, this`Contents, this`Cur, Nodes
      ensures Valid() && Flags == old(Flags) && compare == old(compare)
      ensures ReadPolicyOf(Flags) == ReadAtHead ==> HeadLive()
      ensures ReadPolicyOf(Flags) == ReadAtTail ==> TailLive()
      ensures var k := ReadIndex(old(|Contents|), old(Cur), ReadPolicyOf(Flags));
        r == (if k < 0 then None else Some(old(Contents)[k]))
      ensures var k := ReadIndex(old(|Contents|), old(Cur), ReadPolicyOf(Flags));
        k < 0 || !DeleteOnRead(Flags) ==> Contents == old(Contents) && Cur == old(Cur) && Nodes == old(Nodes)
      ensures var k := ReadIndex(old(|Contents|), old(Cur), ReadPolicyOf(Flags));
        k >= 0 && DeleteOnRead(Flags) ==>
          Contents == RemoveAt(old(Contents), k) && Cur == CurAfterDelete(old(|Contents|), k) &&
          Nodes == RemoveAt(old(Nodes), k)
    {
      var delete := DeleteOnRead(Flags);
      r := None;
      match ReadPolicyOf(Flags)
      case ReadAtHead =>
        if Head != null {
          r := Some(Head.Data);
          if delete {
            var _ := DelHeadList();
          }
        }
      case ReadAtTail =>
        if Tail != null {
          r := Some(Tail.Data);
          if delete {
            var _ := DelTailList();
          }
        }
      case ReadAtCurrent =>
        if Current != null {
          r := Some(Current.Data);
          if delete {
            var _ := RemoveList();
          }
        }
    }

    /**
     * AddNode: InsertList, HeadList or TailList as the add policy says (an
     * unknown add nibble means InsertList); the splay policy is the Splay
     * module's.
     */
    method AddNode(node: Node?<T>) returns (status: int)
      requires Valid()
      requires node != null ==> node !in Nodes && node.Next == null && node.Prev == null
      requires AddPolicyOf(Flags) == AddAtHead ==> HeadLive()
      requires AddPolicyOf(Flags) == AddAtTail ==> TailLive()
      modifies this`Current, this`Head, this`Tail, this`Size, this`Nodes, this`Contents, this`Cur, Nodes, node
      ensures node != null ==> node.Data == old(node.Data)
      ensures Flags == old(Flags) && compare == old(compare)
      ensures status == (if node == null then LLIST_NULL else LLIST_NOERROR)
      ensures node == null ==> Valid() && Contents == old(Contents) && Cur == old(Cur) && Nodes == old(Nodes)
      ensures node != null && AddPolicyOf(Flags) == AddAtHead ==>
        Valid() && HeadLive() && TailLive() && Contents == [node.Data] + old(Contents) && Cur == 0 &&
        Nodes == [node] + old(Nodes)
      ensures node != null && AddPolicyOf(Flags) == AddAtTail ==>
        Valid() && HeadLive() && TailLive() && Contents == old(Contents) + [node.Data] &&
        Cur == |Contents| - 1 && Nodes == old(Nodes) + [node]
      ensures node != null && AddPolicyOf(Flags) == AddAtCurrent && (old(Cur) >= 0 || old(|Contents|) == 0) ==>
        Valid() && HeadLive() && TailLive() && Cur == old(Cur) + 1 &&
        Contents == old(Contents)[..old(Cur) + 1] + [node.Data] + old(Contents)[old(Cur) + 1..] &&
        Nodes == old(Nodes)[..old(Cur) + 1] + [node] + old(Nodes)[old(Cur) + 1..]
      ensures node != null && AddPolicyOf(Flags) == AddAtCurrent && old(Cur) < 0 && old(|Contents|) > 0 ==>
        Chain() && Contents == old(Contents) && Size == |Nodes| + 1 && Current == node
    {
      match AddPolicyOf(Flags)
      case AddAtHead => status := HeadList(node);
      case AddAtTail => status := TailList(node);
      case AddAtCurrent => status := InsertList(node);
      case AddSplay => assert false;
    }

    /**
     * DelNode: RemoveList, DelHeadList or DelTailList as the delete policy
     * says (an unknown delete nibble means RemoveList).
     */
    method DelNode() returns (status: int)
      requires Valid()
      requires DelPolicyOf(Flags) == DelAtHead ==> HeadLive()
      requires DelPolicyOf(Flags) == DelAtTail ==> TailLive()
      modifies this`Current, this`Head, this`Tail, this`Size, this`Nodes, this`Contents, this`Cur, Nodes
      ensures Valid() && status == LLIST_NOERROR && Flags == old(Flags)
      ensures var k := DeleteIndex(old(|Contents|), old(Cur), DelPolicyOf(Flags));
        k < 0 ==> Contents == old(Contents) && Cur == old(Cur)
      ensures var k := DeleteIndex(old(|Contents|), old(Cur), DelPolicyOf(Flags));
        k >= 0 ==> Contents == RemoveAt(old(Contents), k) && Cur == CurAfterDelete(old(|Contents|), k)
    {
      match DelPolicyOf(Flags)
      case DelAtHead => status := DelHeadList();
      case DelAtTail => status := DelTailList();
      case DelAtCurrent => status := RemoveList();
      case DelSplay => assert false;
    }

    /**
     * NextNode: step Current to its successor and return its data; past the
     * Tail Current is NULL, or the Head again on a LISTCIRCULAR list.
     */
    method NextNode() returns (r: Option<T>)
      requires Valid()
      requires Circular(Flags) ==> HeadLive()
      modifies this`Current, this`Cur
      ensures Valid()
      ensures Cur == NextIndex(|Contents|, old(Cur), Circular(Flags))
      ensures r == (if Cur < 0 then None else Some(Contents[Cur]))
    {
      ghost var c := NextIndex(|Nodes|, Cur, Circular(Flags));
      if Current != null {
        assert Cur + 1 < |Nodes| ==> Current.Next == Nodes[Cur + 1];
        assert Cur == |Nodes| - 1 ==> Current.Next == null;
        Current := Current.Next;
      }
      if Circular(Flags) && Current == null {
        Current := Head;
      }
      Cur := c;
      r := GetNodeData(Current);
    }

    /**
     * PrevNode: step Current to its predecessor and return its data; before
     * the Head Current is NULL, or the Tail again on a LISTCIRCULAR list.
     */
    method PrevNode() returns (r: Option<T>)
      requires Valid()
      requires Circular(Flags) ==> TailLive()
      modifies this`Current, this`Cur
      ensures Valid()
      ensures Cur == PrevIndex(|Contents|, old(Cur), Circular(Flags))
      ensures r == (if Cur < 0 then None else Some(Contents[Cur]))
    {
      ghost var c := PrevIndex(|Nodes|, Cur, Circular(Flags));
      if Current != null {
        assert Cur > 0 ==> Current.Prev == Nodes[Cur - 1];
        assert Cur == 0 ==> Current.Prev == null;
        Current := Current.Prev;
      }
      if Circular(Flags) && Current == null {
        Current := Tail;
      }
      Cur := c;
      r := GetNodeData(Current);
    }

    /**
     * IndexNode: make the Index-th node (counting from 1 at Head; an Index
     * below 1 means Head) Current and return its data.  An Index beyond Size
     * returns NULL and leaves Current alone.
     */
    method IndexNode(index: int) returns (r: Option<T>)
      requires Valid() && HeadLive()
      modifies this`Current, this`Cur
      ensures Valid()
      ensures index > |Contents| ==> r.None? && Cur == old(Cur)
      ensures index <= |Contents| && |Contents| == 0 ==> r.None? && Cur == -1
      ensures index <= |Contents| && |Contents| > 0 ==>
        Cur == (if index < 1 then 0 else index - 1) && r == Some(Contents[Cur])
    {
      if Size < index {
        return None;
      }
      Current := Head;
      Cur := if |Nodes| > 0 then 0 else -1;
      var count := 1;
      while count < index
        invariant 1 <= count && (count <= index || count == 1) && (|Nodes| > 0 ==> count <= |Nodes|)
        invariant Valid() && Cur == (if |Nodes| > 0 then count - 1 else -1)
        decreases index - count
      {
        assert Current.Next == Nodes[Cur + 1];
        Current := Current.Next;
        Cur := Cur + 1;
        count := count + 1;
      }
      r := GetNodeData(Current);
    }

    /**
     * FindNode on a list: walk from Head to the first node whose data the
     * comparator calls equal to the key and leave Current there.  A miss
     * returns NULL with Current NULL; without a comparator nothing happens.
     */
    method FindNode(key: T) returns (r: Option<T>)
      requires Valid()
      requires compare.Some? ==> HeadLive()
      modifies this`Current, this`Cur
      ensures Valid()
      ensures compare.None? ==> r.None? && Cur == old(Cur)
      ensures compare.Some? ==>
        match FindFirst(Contents, Matches(compare.value, key))
        case Some(i) => Cur == i && r == Some(Contents[i])
        case None => Cur == -1 && r.None?
    {
      if compare.None? {
        return None;
      }
      var cmp := compare.value;
      ghost var p := Matches(cmp, key);
      ghost var i := Walk(cmp, key);
      Cur := if i < |Nodes| then i else -1;
      if Current == null {
        FindFirstMiss(Contents, p);
        return None;
      }
      FindFirstHit(Contents, p, Cur);
      r := Some(Current.Data);
    }

    /** The walk of FindNode: from Head along Next to the first node whose data matches the key, or to NULL. */
    method Walk(cmp: (T, T) -> int, key: T) returns (ghost i: int)
      requires Chain() && HeadLive()
      modifies this`Current
      ensures 0 <= i <= |Nodes| && Current == (if i < |Nodes| then Nodes[i] else null)
      ensures forall j :: 0 <= j < i ==> !Matches(cmp, key)(Contents[j])
      ensures i < |Nodes| ==> Matches(cmp, key)(Contents[i])
    {
      Current := Head;
      i := 0;
      while Current != null && cmp(Current.Data, key) != 0
        invariant 0 <= i <= |Nodes| && Current == (if i < |Nodes| then Nodes[i] else null)
        invariant forall j :: 0 <= j < i ==> !Matches(cmp, key)(Contents[j])
        decreases |Nodes| - i
      {
        NextOf(i);
        Current := Current.Next;
        i := i + 1;
      }
    }

    /**
     * The pointer writes of SwapList: Current and its successor trade places,
     * every other link is as before.
     */
    method SwapLinks()
      requires Valid() && Current != null && Current.Next != null
      modifies this`Head, this`Tail, Nodes
      ensures 0 <= Cur < |Nodes| - 1 && Current == Nodes[Cur]
      ensures Linked(SwapAt(Nodes, Cur), SwapAt(Contents, Cur), Head, Tail)
    {
      var temp1 := Current;
      var temp2 := Current.Next;
      assert temp1 == Nodes[Cur] && Cur + 1 < |Nodes| && temp2 == Nodes[Cur + 1];
      assert Cur + 2 < |Nodes| ==> temp2.Next == Nodes[Cur + 2];
      assert Cur > 0 ==> temp1.Prev == Nodes[Cur - 1];
      DistinctFrom(Cur);
      DistinctFrom(Cur + 1);
      if Cur > 0 { DistinctFrom(Cur - 1); }
      if Cur + 2 < |Nodes| { DistinctFrom(Cur + 2); }
      temp1.Next := temp2.Next;
      if temp2.Next != null {
        temp2.Next.Prev := temp1;
      } else {
        Tail := temp1;
      }
      temp2.Prev := temp1.Prev;
      if temp1.Prev != null {
        temp1.Prev.Next := temp2;
      } else {
        Head := temp2;
      }
      temp1.Prev := temp2;
      temp2.Next := temp1;
      SwappedLinked(Nodes, Contents, Cur, Head, Tail);
    }

    /**
     * SwapList: exchange Current with its successor.  Current keeps pointing
     * at the same node, which is now one place further on.  Without a
     * successor nothing happens.
     */
    method SwapList()
      requires Valid()
      modifies this`Head, this`Tail, this`Nodes, this`Contents, this`Cur, Nodes
      ensures Valid()
      ensures 0 <= old(Cur) < old(|Contents|) - 1 ==>
        Contents == SwapAt(old(Contents), old(Cur)) && Nodes == SwapAt(old(Nodes), old(Cur)) &&
        Cur == old(Cur) + 1
      ensures !(0 <= old(Cur) < old(|Contents|) - 1) ==>
        Contents == old(Contents) && Nodes == old(Nodes) && Cur == old(Cur) &&
        Head == old(Head) && Tail == old(Tail)
    {
      if Current == null {
        return;
      }
      assert Cur + 1 < |Nodes| ==> Current.Next == Nodes[Cur + 1];
      if Current.Next != null {
        SwapWithNext();
      }
    }

    /** SwapList when Current has a successor. */
    method SwapWithNext()
      requires Valid() && Current != null && Current.Next != null
      modifies this`Head, this`Tail, this`Nodes, this`Contents, this`Cur, Nodes
      ensures Valid() && 0 <= old(Cur) < old(|Contents|) - 1
      ensures Contents == SwapAt(old(Contents), old(Cur)) && Nodes == SwapAt(old(Nodes), old(Cur))
      ensures Cur == old(Cur) + 1
    {
      ghost var n, c, k := Nodes, Contents, Cur;
      SwapLinks();
      Nodes, Contents, Cur := SwapAt(n, k), SwapAt(c, k), k + 1;
    }

    /**
     * SortList: bubble passes from Head, swapping every neighbouring pair the
     * comparator calls greater, until a pass swaps nothing; Current ends at
     * Head.  Without a comparator, or on an empty list, nothing happens.
     * The sort is stable: the node now at position p was at position
     * perm[p] before, and nodes whose data compare equal keep their order.
     */
    method SortList() returns (ghost perm: seq<int>)
      requires Valid()
      requires compare.Some? ==> HeadLive() && ThreeWay(compare.value)
      modifies this`Current, this`Head, this`Tail, this`Nodes, this`Contents, this`Cur, Nodes
      ensures Valid() && multiset(Contents) == multiset(old(Contents))
      ensures compare.None? || old(|Contents|) == 0 ==> Contents == old(Contents) && Cur == old(Cur)
      ensures compare.Some? && old(|Contents|) > 0 ==> Sorted(Contents, compare.value) && Cur == 0
      ensures Follows(old(Nodes), Nodes, perm) && Follows(old(Contents), Contents, perm)
      ensures compare.Some? ==> Stable(perm, Contents, compare.value)
      ensures old(HeadLive()) ==> HeadLive()
    {
      if compare.None? || Head == null {
        perm := Identity(|Nodes|);
        IdentityFollows(Nodes);
        IdentityFollows(Contents);
        if compare.Some? {
          IdentityStable(Contents, compare.value);
        }
        return;
      }
      perm := SortPasses(compare.value);
      AdjacentSortedIsSorted(Contents, compare.value);
    }

    /** The passes of SortList on a list that is not empty. */
    method SortPasses(cmp: (T, T) -> int) returns (ghost perm: seq<int>)
      requires Valid() && |Nodes| > 0 && Antisymmetric(cmp)
      modifies this`Current, this`Head, this`Tail, this`Nodes, this`Contents, this`Cur, Nodes
      ensures Valid() && multiset(Contents) == multiset(old(Contents)) && |Nodes| == old(|Nodes|)
      ensures AdjacentSorted(Contents, cmp) && Cur == 0
      ensures Follows(old(Nodes), Nodes, perm) && Follows(old(Contents), Contents, perm) && Stable(perm, Contents, cmp)
    {
      var move := 1;
      perm := Identity(|Nodes|);
      IdentityFollows(Nodes);
      IdentityFollows(Contents);
      IdentityStable(Contents, cmp);
      while move != 0
        invariant Valid() && |Nodes| == old(|Nodes|) > 0
        invariant multiset(Nodes) == multiset(old(Nodes))
        invariant multiset(Contents) == multiset(old(Contents))
        invariant move >= 0 && (move == 0 ==> AdjacentSorted(Contents, cmp))
        invariant Follows(old(Nodes), Nodes, perm) && Follows(old(Contents), Contents, perm) && Stable(perm, Contents, cmp)
        decreases Inversions(Contents, cmp) + (if move != 0 then 1 else 0)
      {
        SameMembers(Nodes, old(Nodes));
        move, perm := BubblePass(cmp, old(Nodes), old(Contents), perm);
      }
      Rewind();
    }

    /**
     * One pass of SortList: from Head to Tail, swap Current with its
     * successor whenever cmp calls it greater, and step on.  The result is
     * the number of swaps, each of which removed one inversion.
     */
    method BubblePass(cmp: (T, T) -> int, ghost n0: seq<Node<T>>, ghost c0: seq<T>, ghost perm0: seq<int>)
        returns (move: int, ghost perm: seq<int>)
      requires Valid() && |Nodes| > 0 && Antisymmetric(cmp)
      requires Follows(n0, Nodes, perm0) && Follows(c0, Contents, perm0) && Stable(perm0, Contents, cmp)
      modifies this`Current, this`Head, this`Tail, this`Nodes, this`Contents, this`Cur, Nodes
      ensures Valid() && |Nodes| == old(|Nodes|) && move >= 0
      ensures multiset(Nodes) == multiset(old(Nodes))
      ensures multiset(Contents) == multiset(old(Contents))
      ensures Inversions(Contents, cmp) + move == old(Inversions(Contents, cmp))
      ensures move == 0 ==> AdjacentSorted(Contents, cmp)
      ensures Follows(n0, Nodes, perm) && Follows(c0, Contents, perm) && Stable(perm, Contents, cmp)
    {
      ghost var start := Inversions(Contents, cmp);
      move := 0;
      perm := perm0;
      Rewind();
      while Current.Next != null
        invariant Valid() && |Nodes| == old(|Nodes|) && 0 <= Cur < |Nodes|
        invariant multiset(Nodes) == multiset(old(Nodes))
        invariant multiset(Contents) == multiset(old(Contents))
        invariant move >= 0 && Inversions(Contents, cmp) + move == start
        invariant move == 0 ==> AdjacentSortedBelow(Contents, cmp, Cur)
        invariant Follows(n0, Nodes, perm) && Follows(c0, Contents, perm) && Stable(perm, Contents, cmp)
        decreases |Nodes| - Cur
      {
        NextOf(Cur);
        SameMembers(Nodes, old(Nodes));
        move, perm := PassStep(cmp, start, move, n0, c0, perm);
      }
      NextOf(Cur);
    }

    /** Current := Head, on a list that is not empty. */
    method Rewind()
      requires Valid() && |Nodes| > 0
      modifies this`Current, this`Cur
      ensures Valid() && Cur == 0
    {
      Current := Head;
      Cur := 0;
    }

    /** One turn of a SortList pass: compare, maybe swap, and step on. */
    method PassStep(cmp: (T, T) -> int, ghost start: int, move: int, ghost n0: seq<Node<T>>, ghost c0: seq<T>, ghost perm: seq<int>)
        returns (move': int, ghost perm': seq<int>)
      requires Valid() && 0 <= Cur < |Nodes| - 1 && Antisymmetric(cmp)
      requires move >= 0 && Inversions(Contents, cmp) + move == start
      requires move == 0 ==> AdjacentSortedBelow(Contents, cmp, Cur)
      requires Follows(n0, Nodes, perm) && Follows(c0, Contents, perm) && Stable(perm, Contents, cmp)
      modifies this`Current, this`Head, this`Tail, this`Nodes, this`Contents, this`Cur, Nodes
      ensures Valid() && |Nodes| == old(|Nodes|) && old(Cur) < Cur < |Nodes|
      ensures multiset(Nodes) == multiset(old(Nodes)) && multiset(Contents) == multiset(old(Contents))
      ensures move' >= 0 && Inversions(Contents, cmp) + move' == start
      ensures move' == 0 ==> AdjacentSortedBelow(Contents, cmp, Cur)
      ensures Follows(n0, Nodes, perm') && Follows(c0, Contents, perm') && Stable(perm', Contents, cmp)
    {
      NextOf(Cur);
      ghost var n, c, k := Nodes, Contents, Cur;
      var swapped := SwapIfGreater(cmp);
      move' := move;
      perm' := perm;
      if swapped {
        FollowsSwap(n0, n, perm, k);
        FollowsSwap(c0, c, perm, k);
        StableSwap(perm, c, k, cmp);
        perm' := SwapAt(perm, k);
        move' := move + 1;
      } else if move == 0 {
        AdjacentSortedStep(Contents, cmp, Cur);
      }
      if Current.Next != null {
        StepForward();
      }
    }

    /**
     * The step of a SortList pass: when cmp calls Current greater than its
     * successor, SwapList, which removes one inversion.
     */
    method SwapIfGreater(cmp: (T, T) -> int) returns (swapped: bool)
      requires Valid() && Current != null && Current.Next != null && Antisymmetric(cmp)
      modifies this`Head, this`Tail, this`Nodes, this`Contents, this`Cur, Nodes
      ensures Valid() && |Nodes| == old(|Nodes|) && 0 <= old(Cur) < |Nodes| - 1
      ensures multiset(Nodes) == multiset(old(Nodes)) && multiset(Contents) == multiset(old(Contents))
      ensures swapped <==> cmp(old(Contents)[old(Cur)], old(Contents)[old(Cur) + 1]) > 0
      ensures swapped ==> Contents == SwapAt(old(Contents), old(Cur)) && Nodes == SwapAt(old(Nodes), old(Cur)) && Cur == old(Cur) + 1
      ensures swapped ==> Inversions(Contents, cmp) + 1 == old(Inversions(Contents, cmp))
      ensures !swapped ==> Contents == old(Contents) && Nodes == old(Nodes) && Cur == old(Cur)
    {
      NextOf(Cur);
      swapped := cmp(Current.Data, Current.Next.Data) > 0;
      if swapped {
        SwapAtLowersInversions(Contents, Cur, cmp);
        SwapWithNext();
      }
    }

    /** Following Next from the node at j reaches the node at j + 1, or NULL after Tail. */
    lemma NextOf(j: int)
      requires Chain() && 0 <= j < |Nodes|
      ensures Nodes[j].Next == (if j < |Nodes| - 1 then Nodes[j + 1] else null)
    {
    }

    /** Current := Current->Next, on a node that has a successor. */
    method StepForward()
      requires Valid() && Current != null && Current.Next != null
      modifies this`Current, this`Cur
      ensures Valid() && Cur == old(Cur) + 1
    {
      NextOf(Cur);
      Current := Current.Next;
      Cur := Cur + 1;
    }
  }

  /** GetNodeData: the data of a node, NULL for no node. */
  function GetNodeData<T>(node: Node?<T>): (r: Option<T>)
    reads node
    ensures r.Some? <==> node != null
    ensures node != null ==> r.value == node.Data
  {
    if node == null then None else Some(node.Data)
  }

  /**
   * What NextNode, PrevNode and IndexNode hand back: GetNodeData of the
   * cursor is NULL exactly when the cursor is, and otherwise the element at
   * the cursor's position in the list.
   */
  lemma CurrentData<T(!new)>(list: LList<T>)
    requires list.Valid()
    ensures GetNodeData(list.Current).None? <==> list.Cur < 0
    ensures list.Cur >= 0 ==> GetNodeData(list.Current) == Some(list.Contents[list.Cur])
  {
  }

  /** The position GetNode reads in a list of n nodes with cursor cur, or -1 for none. */
  function ReadIndex(n: nat, cur: int, p: ReadPolicy): (k: int)
    requires -1 <= cur < n
    ensures -1 <= k < n && (k < 0 <==> n == 0 || (p == ReadAtCurrent && cur < 0))
  {
    match p
    case ReadAtHead => if n > 0 then 0 else -1
    case ReadAtTail => n - 1
    case ReadAtCurrent => cur
  }

  /** The position DelNode deletes in a list of n nodes with cursor cur, or -1 for none. */
  function DeleteIndex(n: nat, cur: int, p: DelPolicy): (k: int)
    requires -1 <= cur < n
    ensures -1 <= k < n && (k < 0 <==> n == 0 || (p in {DelAtCurrent, DelSplay} && cur < 0))
  {
    match p
    case DelAtHead => if n > 0 then 0 else -1
    case DelAtTail => n - 1
    case DelAtCurrent => cur
    case DelSplay => cur
  }

  /** s without its element at k. */
  function RemoveAt<T>(s: seq<T>, k: int): (r: seq<T>)
    requires 0 <= k < |s|
    ensures |r| == |s| - 1
    ensures forall i :: 0 <= i < k ==> r[i] == s[i]
    ensures forall i :: k <= i < |r| ==> r[i] == s[i + 1]
  {
    seq(|s| - 1, i requires 0 <= i < |s| - 1 => if i < k then s[i] else s[i + 1])
  }

  /**
   * Removing position k keeps the elements before and after it, in order,
   * and loses exactly one occurrence of the removed element.
   */
  lemma RemoveAtSplits<T>(s: seq<T>, k: int)
    requires 0 <= k < |s|
    ensures RemoveAt(s, k) == s[..k] + s[k + 1..]
    ensures multiset(RemoveAt(s, k)) + multiset{s[k]} == multiset(s)
  {
    assert RemoveAt(s, k) == s[..k] + s[k + 1..];
    assert s == s[..k] + [s[k]] + s[k + 1..];
  }

  /**
   * Where the cursor stands after the node at k of n is deleted: on the new
   * Head after deleting the Head, on the new Tail after deleting the Tail,
   * and on the successor (now at k) otherwise.
   */
  function CurAfterDelete(n: nat, k: int): (c: int)
    requires 0 <= k < n
    ensures -1 <= c < n - 1
    ensures c < 0 <==> n == 1
  {
    if k == 0 then (if n > 1 then 0 else -1)
    else if k == n - 1 then k - 1
    else k
  }

  /** The cursor position NextNode moves to. */
  function NextIndex(n: nat, cur: int, circular: bool): (c: int)
    requires -1 <= cur < n
    ensures -1 <= c < n
  {
    if 0 <= cur < n - 1 then cur + 1
    else if circular && n > 0 then 0
    else -1
  }

  /** The cursor position PrevNode moves to. */
  function PrevIndex(n: nat, cur: int, circular: bool): (c: int)
    requires -1 <= cur < n
    ensures -1 <= c < n
  {
    if cur > 0 then cur - 1
    else if circular && n > 0 then n - 1
    else -1
  }

  /** NextNode and PrevNode undo each other on a node that has the neighbour stepped to. */
  lemma StepsInvert(n: nat, cur: int, circular: bool)
    requires 0 <= cur < n
    ensures circular || cur < n - 1 ==> PrevIndex(n, NextIndex(n, cur, circular), circular) == cur
    ensures circular || cur > 0 ==> NextIndex(n, PrevIndex(n, cur, circular), circular) == cur
  {
  }

  /** The cursor position after some NextNode calls on a LISTCIRCULAR list. */
  function StepsFrom(n: nat, cur: int, steps: nat): (c: int)
    requires 0 <= cur < n
    ensures 0 <= c < n
  {
    if steps == 0 then cur else NextIndex(n, StepsFrom(n, cur, steps - 1), true)
  }

  /** Up to n NextNode calls on a LISTCIRCULAR list walk forwards and wrap from Tail to Head once. */
  lemma {:induction false} CircularSteps(n: nat, cur: int, steps: nat)
    requires 0 <= cur < n && steps <= n
    ensures StepsFrom(n, cur, steps) == if cur + steps < n then cur + steps else cur + steps - n
  {
    if steps > 0 {
      CircularSteps(n, cur, steps - 1);
    }
  }

  /** n NextNode calls on a LISTCIRCULAR list of n nodes come back to the start. */
  lemma CircularReturns(n: nat, cur: int)
    requires 0 <= cur < n
    ensures StepsFrom(n, cur, n) == cur
  {
    CircularSteps(n, cur, n);
  }

  /** The predicate FindNode tests: the comparator calls the data equal to the key. */
  function Matches<T(!new)>(cmp: (T, T) -> int, key: T): (p: T -> bool)
    ensures forall x :: p(x) <==> cmp(x, key) == 0
  {
    x => cmp(x, key) == 0
  }

  /**
   * Under a three-way comparator two keys that compare equal select the same
   * data, so FindNode finds the same element for either of them.
   */
  lemma EqualKeysFindAlike<T(!new)>(s: seq<T>, cmp: (T, T) -> int, a: T, b: T)
    requires ThreeWay(cmp) && cmp(a, b) == 0
    ensures forall x :: Matches(cmp, a)(x) <==> Matches(cmp, b)(x)
    ensures FindFirst(s, Matches(cmp, a)) == FindFirst(s, Matches(cmp, b))
  {
    assert cmp(b, a) == 0;
    forall x
      ensures cmp(x, a) == 0 <==> cmp(x, b) == 0
    {
      if cmp(x, a) == 0 {
        assert cmp(a, x) == 0;
        assert cmp(x, b) <= 0 && cmp(b, x) <= 0;
      }
      if cmp(x, b) == 0 {
        assert cmp(b, x) == 0;
        assert cmp(x, a) <= 0 && cmp(a, x) <= 0;
      }
    }
    match FindFirst(s, Matches(cmp, a))
    case Some(i) => FindFirstHit(s, Matches(cmp, b), i);
    case None => FindFirstMiss(s, Matches(cmp, b));
  }

  lemma FindFirstMiss<T>(s: seq<T>, p: T -> bool)
    requires forall j :: 0 <= j < |s| ==> !p(s[j])
    ensures FindFirst(s, p).None?
  {
  }

  lemma FindFirstHit<T>(s: seq<T>, p: T -> bool, i: int)
    requires 0 <= i < |s| && p(s[i]) && forall j :: 0 <= j < i ==> !p(s[j])
    ensures FindFirst(s, p) == Some(i)
  {
  }


  /** Exchanging positions k and k + 1 of a Next-linked run relinked around them. */
  lemma SwappedNext<T>(n: seq<Node<T>>, k: int)
    requires 0 <= k < |n| - 1
    requires forall i {:trigger n[i].Next} :: 0 <= i < |n| - 1 && i != k - 1 && i != k && i != k + 1 ==> n[i].Next == n[i + 1]
    requires n[k].Next == (if k + 2 < |n| then n[k + 2] else null)
    requires n[k + 1].Next == n[k] && (k > 0 ==> n[k - 1].Next == n[k + 1])
    ensures NextLinked(SwapAt(n, k))
  {
    var m := SwapAt(n, k);
    forall i | 0 <= i < |m| - 1
      ensures m[i].Next == m[i + 1]
    {
      if i < k - 1 {
        assert m[i] == n[i] && m[i + 1] == n[i + 1];
      } else if i == k - 1 {
        assert m[i] == n[k - 1] && m[i + 1] == n[k + 1];
      } else if i == k {
        assert m[i] == n[k + 1] && m[i + 1] == n[k];
      } else if i == k + 1 {
        assert m[i] == n[k] && m[i + 1] == n[k + 2];
      } else {
        assert m[i] == n[i] && m[i + 1] == n[i + 1];
      }
    }
  }

  /** Exchanging positions k and k + 1 of a Prev-linked run relinked around them. */
  lemma SwappedPrev<T>(n: seq<Node<T>>, k: int)
    requires 0 <= k < |n| - 1
    requires forall i {:trigger n[i].Prev} :: 0 < i < |n| && i != k && i != k + 1 && i != k + 2 ==> n[i].Prev == n[i - 1]
    requires n[k].Prev == n[k + 1] && n[k + 1].Prev == (if k > 0 then n[k - 1] else null)
    requires k + 2 < |n| ==> n[k + 2].Prev == n[k]
    ensures PrevLinked(SwapAt(n, k))
  {
    var m := SwapAt(n, k);
    forall i | 0 < i < |m|
      ensures m[i].Prev == m[i - 1]
    {
      if i < k {
        assert m[i] == n[i] && m[i - 1] == n[i - 1];
      } else if i == k {
        assert m[i] == n[k + 1] && m[i - 1] == n[k - 1];
      } else if i == k + 1 {
        assert m[i] == n[k] && m[i - 1] == n[k + 1];
      } else if i == k + 2 {
        assert m[i] == n[k + 2] && m[i - 1] == n[k];
      } else {
        assert m[i] == n[i] && m[i - 1] == n[i - 1];
      }
    }
  }

  /** Exchanging a node and its datum at the same positions keeps them paired. */
  lemma SwappedData<T>(n: seq<Node<T>>, c: seq<T>, k: int)
    requires |n| == |c| && 0 <= k < |n| - 1
    requires Paired(n, c)
    ensures Paired(SwapAt(n, k), SwapAt(c, k))
  {
    var m, d := SwapAt(n, k), SwapAt(c, k);
    forall i | 0 <= i < |m|
      ensures m[i].Data == d[i]
    {
      if i == k {
        assert m[i] == n[k + 1] && d[i] == c[k + 1];
      } else if i == k + 1 {
        assert m[i] == n[k] && d[i] == c[k];
      } else {
        assert m[i] == n[i] && d[i] == c[i];
      }
    }
  }

  /** The links SwapLinks leaves behind make the swapped sequence a chain. */
  lemma SwappedLinked<T>(n: seq<Node<T>>, c: seq<T>, k: int, head: Node?<T>, tail: Node?<T>)
    requires 0 <= k < |n| - 1 && Paired(n, c)
    requires forall i {:trigger n[i].Next} :: 0 <= i < |n| - 1 && i != k - 1 && i != k && i != k + 1 ==> n[i].Next == n[i + 1]
    requires n[k].Next == (if k + 2 < |n| then n[k + 2] else null)
    requires n[k + 1].Next == n[k] && (k > 0 ==> n[k - 1].Next == n[k + 1])
    requires forall i {:trigger n[i].Prev} :: 0 < i < |n| && i != k && i != k + 1 && i != k + 2 ==> n[i].Prev == n[i - 1]
    requires n[k].Prev == n[k + 1] && n[k + 1].Prev == (if k > 0 then n[k - 1] else null)
    requires k + 2 < |n| ==> n[k + 2].Prev == n[k]
    requires head == SwapAt(n, k)[0] && head.Prev == null
    requires tail == SwapAt(n, k)[|n| - 1] && tail.Next == null
    ensures Linked(SwapAt(n, k), SwapAt(c, k), head, tail)
  {
    SwappedNext(n, k);
    SwappedPrev(n, k);
    SwappedData(n, c, k);
  }

  /** The links UnlinkCurrent leaves behind make the shortened sequence a chain. */
  lemma RemovedLinked<T>(n: seq<Node<T>>, c: seq<T>, k: int, head: Node?<T>, tail: Node?<T>)
    requires 0 < k < |n| - 1 && Paired(n, c)
    requires forall i {:trigger n[i].Next} :: 0 <= i < |n| - 1 && i != k - 1 ==> n[i].Next == n[i + 1]
    requires forall i {:trigger n[i].Prev} :: 0 < i < |n| && i != k + 1 ==> n[i].Prev == n[i - 1]
    requires n[k - 1].Next == n[k + 1] && n[k + 1].Prev == n[k - 1]
    requires head == n[0] && head.Prev == null && tail == n[|n| - 1] && tail.Next == null
    ensures Linked(RemoveAt(n, k), RemoveAt(c, k), head, tail)
  {
    RemovedNext(n, k);
    RemovedPrev(n, k);
    RemovedData(n, c, k);
  }

  /** Sequences with the same multiset of nodes have the same members. */
  lemma SameMembers<T>(n: seq<Node<T>>, m: seq<Node<T>>)
    requires multiset(n) == multiset(m)
    ensures forall i :: 0 <= i < |n| ==> n[i] in m
  {
    forall i | 0 <= i < |n|
      ensures n[i] in m
    {
      assert n[i] in multiset(n);
    }
  }

  /** The payloads that are not NULL, in list order. */
  function Present<U>(s: seq<Option<U>>): (r: seq<U>)
    ensures |r| <= |s|
    ensures r == [] <==> forall i :: 0 <= i < |s| ==> s[i].None?
  {
    assert forall i :: 1 <= i < |s| ==> s[i] == s[1..][i - 1];
    if s == [] then [] else (if s[0].Some? then [s[0].value] else []) + Present(s[1..])
  }

  /** Present distributes over concatenation. */
  lemma {:induction false} PresentAppend<U>(s: seq<Option<U>>, t: seq<Option<U>>)
    ensures Present(s + t) == Present(s) + Present(t)
  {
    if s == [] {
      assert s + t == t;
    } else {
      assert (s + t)[0] == s[0] && (s + t)[1..] == s[1..] + t;
      PresentAppend(s[1..], t);
    }
  }

  /** A payload is passed to DataFree exactly when it is not NULL. */
  lemma {:induction false} PresentMembers<U>(s: seq<Option<U>>, x: U)
    ensures x in Present(s) <==> Some(x) in s
  {
    if s != [] {
      PresentMembers(s[1..], x);
      assert s == [s[0]] + s[1..];
    }
  }

  lemma AppendAssoc<U>(a: seq<U>, b: seq<U>, c: seq<U>)
    ensures a + (b + c) == (a + b) + c
  {
  }

  /**
   * The DataFree calls FreeList makes on payloads s: at most one per node,
   * none at all exactly when there is no DataFree or no payload is present,
   * and with a DataFree every present payload and nothing else.
   */
  function Freed<U(!new)>(dataFree: bool, s: seq<Option<U>>): (r: seq<U>)
    ensures |r| <= |s|
    ensures r == [] <==> !dataFree || forall i :: 0 <= i < |s| ==> s[i].None?
    ensures forall x :: x in r <==> dataFree && Some(x) in s
  {
    PresentAll(s);
    if dataFree then Present(s) else []
  }

  /** PresentMembers for every payload at once. */
  lemma PresentAll<U>(s: seq<Option<U>>)
    ensures forall x :: x in Present(s) <==> Some(x) in s
  {
    forall x
      ensures x in Present(s) <==> Some(x) in s
    {
      PresentMembers(s, x);
    }
  }

  /** Deleting the Head makes the DataFree call for its payload, if any. */
  lemma FreedStep<U(!new)>(dataFree: bool, s: seq<Option<U>>)
    requires |s| > 0
    ensures Freed(dataFree, s) == (if dataFree && s[0].Some? then [s[0].value] else []) + Freed(dataFree, RemoveAt(s, 0))
  {
    assert RemoveAt(s, 0) == s[1..];
  }

  /**
   * FreeList: delete the nodes from the Head one by one, handing each
   * non-NULL payload to DataFree first (freed lists those calls in order;
   * without a DataFree there are none).  The header itself is then released,
   * which the model leaves as the empty list.
   */
  method FreeList<U(!new)>(list: LList?<Option<U>>, dataFree: bool) returns (status: int, freed: seq<U>)
    requires list != null ==> list.Valid()
    modifies if list == null then {} else {list}
    modifies if list == null then [] else list.Nodes
    ensures list == null ==> status == LLIST_NULL && freed == []
    ensures list != null ==> status == LLIST_NOERROR && list.Contents == [] && list.Size == 0
    ensures list != null ==> freed == Freed(dataFree, old(list.Contents))
  {
    if list == null {
      return LLIST_NULL, [];
    }
    status, freed := FreeNodes(list, dataFree);
  }

  /** The loop of FreeList on a list that exists. */
  method FreeNodes<U(!new)>(list: LList<Option<U>>, dataFree: bool) returns (status: int, freed: seq<U>)
    requires list.Valid()
    modifies list`Current, list`Head, list`Tail, list`Size, list`Nodes, list`Contents, list`Cur, list.Nodes
    ensures status == LLIST_NOERROR && list.Contents == [] && list.Size == 0
    ensures freed == Freed(dataFree, old(list.Contents))
  {
    list.Current := list.Head;
    status := LLIST_NOERROR;
    freed := [];
    if list.Size == 0 {
      return;
    }
    list.Cur := 0;
    while status == LLIST_NOERROR && list.Size > 0
      invariant list.Valid() && status == LLIST_NOERROR
      invariant forall i :: 0 <= i < |list.Nodes| ==> list.Nodes[i] in old(list.Nodes)
      invariant freed + Freed(dataFree, list.Contents) == Freed(dataFree, old(list.Contents))
      decreases list.Size
    {
      ghost var before := freed;
      var h;
      status, h := FreeHead(list, dataFree);
      freed := freed + h;
      AppendAssoc(before, h, Freed(dataFree, list.Contents));
    }
  }

  /** One turn of the FreeList loop: hand the Head's payload to DataFree, if any, and delete the Head. */
  method FreeHead<U(!new)>(list: LList<Option<U>>, dataFree: bool) returns (status: int, h: seq<U>)
    requires list.Valid() && |list.Contents| > 0
    modifies list`Current, list`Head, list`Tail, list`Size, list`Nodes, list`Contents, list`Cur, list.Nodes
    ensures list.Valid() && status == LLIST_NOERROR && |list.Contents| < old(|list.Contents|)
    ensures forall i :: 0 <= i < |list.Nodes| ==> list.Nodes[i] in old(list.Nodes)
    ensures Freed(dataFree, old(list.Contents)) == h + Freed(dataFree, list.Contents)
  {
    ghost var c := list.Contents;
    FreedStep(dataFree, c);
    var head := list.Head;
    assert head == list.Nodes[0] && head.Data == c[0];
    h := [];
    if dataFree && head.Data.Some? {
      h := [head.Data.value];
    }
    status := list.DelHeadList();
  }
}
