/**
 * The container behaviours the linklist.h header documents for its composite
 * types, stated end to end: a LIST grows in AddNode call order, a QUEUE gives
 * its data back first in, first out, and a STACK last in, first out.  Each
 * GetNode on a QUEUE or STACK deletes the node it read.
 */
module LinkListUsage {
  import opened Wrappers
  import opened LinkListFlags
  import opened LinkList

  /** s back to front. */
  function Reversed<T>(s: seq<T>): (r: seq<T>)
    ensures |r| == |s|
    ensures forall i :: 0 <= i < |s| ==> r[i] == s[|s| - 1 - i]
  {
    if s == [] then [] else Reversed(s[1..]) + [s[0]]
  }

  /** Reversing a sequence with one more element at the end puts it in front. */
  lemma ReversedSnoc<T>(s: seq<T>, x: T)
    ensures Reversed(s + [x]) == [x] + Reversed(s)
  {
    var r, t := Reversed(s + [x]), [x] + Reversed(s);
    assert |r| == |t|;
    forall i | 0 <= i < |r|
      ensures r[i] == t[i]
    {
      if i > 0 {
        assert r[i] == (s + [x])[|s| - i];
      }
    }
  }

  /** One more element of a prefix goes in front of its reversal. */
  lemma ReversedPrefix<T>(xs: seq<T>, i: nat)
    requires i < |xs|
    ensures Reversed(xs[..i + 1]) == [xs[i]] + Reversed(xs[..i])
  {
    assert xs[..i + 1] == xs[..i] + [xs[i]];
    ReversedSnoc(xs[..i], xs[i]);
  }

  /** AddNode, one fresh node per element of xs, on a new container that adds at its Tail. */
  method FillAtTail<T(!new)>(listType: FlagWord, xs: seq<T>) returns (list: LList<T>)
    requires ListConfig(listType) && AddPolicyOf(listType) == AddAtTail
    ensures fresh(list) && list.Valid() && list.HeadLive() && list.Flags == listType
    ensures forall j :: 0 <= j < |list.Nodes| ==> fresh(list.Nodes[j])
    ensures list.Contents == xs
  {
    list := new LList<T>(listType, None);
    var i := 0;
    while i < |xs|
      invariant 0 <= i <= |xs| && fresh(list) && list.Flags == listType
      invariant list.Valid() && list.HeadLive() && list.TailLive() && list.Contents == xs[..i]
      invariant forall j :: 0 <= j < |list.Nodes| ==> fresh(list.Nodes[j])
    {
      AddOneAtTail(list, xs[i]);
      assert xs[..i + 1] == xs[..i] + [xs[i]];
      i := i + 1;
    }
    assert xs[..i] == xs;
  }

  /** AddNode, one fresh node per element of xs, on a new container that adds at its Head. */
  method FillAtHead<T(!new)>(listType: FlagWord, xs: seq<T>) returns (list: LList<T>)
    requires ListConfig(listType) && AddPolicyOf(listType) == AddAtHead
    ensures fresh(list) && list.Valid() && list.HeadLive() && list.Flags == listType
    ensures forall j :: 0 <= j < |list.Nodes| ==> fresh(list.Nodes[j])
    ensures list.Contents == Reversed(xs)
  {
    list := new LList<T>(listType, None);
    var i := 0;
    while i < |xs|
      invariant 0 <= i <= |xs| && fresh(list) && list.Flags == listType
      invariant list.Valid() && list.HeadLive() && list.Contents == Reversed(xs[..i])
      invariant forall j :: 0 <= j < |list.Nodes| ==> fresh(list.Nodes[j])
    {
      AddOneAtHead(list, xs[i]);
      ReversedPrefix(xs, i);
      i := i + 1;
    }
    assert xs[..i] == xs;
  }

  /** AddNode, one fresh node per element of xs, on a new container that adds after Current. */
  method FillAtCurrent<T(!new)>(listType: FlagWord, cfunc: Option<(T, T) -> int>, xs: seq<T>) returns (list: LList<T>)
    requires ListConfig(listType) && AddPolicyOf(listType) == AddAtCurrent
    ensures fresh(list) && list.Valid() && list.HeadLive() && list.Flags == listType && list.compare == cfunc
    ensures list.Contents == xs && list.Cur == |xs| - 1
    ensures forall j :: 0 <= j < |list.Nodes| ==> fresh(list.Nodes[j])
  {
    list := new LList<T>(listType, cfunc);
    var i := 0;
    while i < |xs|
      invariant 0 <= i <= |xs| && fresh(list) && list.Flags == listType && list.compare == cfunc
      invariant list.Valid() && list.HeadLive() && list.Contents == xs[..i] && list.Cur == i - 1
      invariant forall j :: 0 <= j < |list.Nodes| ==> fresh(list.Nodes[j])
    {
      AddAfterLast(list, xs[i]);
      assert xs[..i + 1] == xs[..i] + [xs[i]];
      i := i + 1;
    }
    assert xs[..i] == xs;
  }

  /** AddNode of one fresh node on a container that adds at its Tail. */
  method AddOneAtTail<T(!new)>(list: LList<T>, x: T)
    requires list.Valid() && list.TailLive() && AddPolicyOf(list.Flags) == AddAtTail
    modifies list`Current, list`Head, list`Tail, list`Size, list`Nodes, list`Contents, list`Cur, list.Nodes
    ensures list.Valid() && list.HeadLive() && list.TailLive() && list.Flags == old(list.Flags)
    ensures list.Contents == old(list.Contents) + [x]
    ensures |list.Nodes| == |old(list.Nodes)| + 1 && fresh(list.Nodes[|old(list.Nodes)|])
    ensures list.Nodes[..|old(list.Nodes)|] == old(list.Nodes)
  {
    var node := new Node(x);
    var _ := list.AddNode(node);
  }

  /** AddNode of one fresh node on a container that adds at its Head. */
  method AddOneAtHead<T(!new)>(list: LList<T>, x: T)
    requires list.Valid() && list.HeadLive() && AddPolicyOf(list.Flags) == AddAtHead
    modifies list`Current, list`Head, list`Tail, list`Size, list`Nodes, list`Contents, list`Cur, list.Nodes
    ensures list.Valid() && list.HeadLive() && list.Flags == old(list.Flags)
    ensures list.Contents == [x] + old(list.Contents)
    ensures |list.Nodes| == |old(list.Nodes)| + 1 && fresh(list.Nodes[0])
    ensures list.Nodes[1..] == old(list.Nodes)
  {
    var node := new Node(x);
    var _ := list.AddNode(node);
  }

  /** AddNode of one fresh node on a container that adds after Current, with Current on the last node. */
  method AddAfterLast<T(!new)>(list: LList<T>, x: T)
    requires list.Valid() && AddPolicyOf(list.Flags) == AddAtCurrent && list.Cur == |list.Contents| - 1
    modifies list`Current, list`Head, list`Tail, list`Size, list`Nodes, list`Contents, list`Cur, list.Nodes
    ensures list.Valid() && list.Flags == old(list.Flags)
    ensures list.Contents == old(list.Contents) + [x] && list.Cur == |list.Contents| - 1
    ensures |list.Nodes| == |old(list.Nodes)| + 1 && fresh(list.Nodes[|old(list.Nodes)|])
    ensures list.Nodes[..|old(list.Nodes)|] == old(list.Nodes)
  {
    ghost var c, ns := list.Contents, list.Nodes;
    assert c[..|c|] == c && c[|c|..] == [] && ns[..|c|] == ns && ns[|c|..] == [];
    var node := new Node(x);
    var _ := list.AddNode(node);
    assert list.Nodes == ns + [node];
  }

  /** GetNode on a non-empty container that reads and deletes at its Head. */
  method GetFirst<T(!new)>(list: LList<T>) returns (x: T)
    requires list.Valid() && list.HeadLive() && |list.Contents| > 0
    requires ReadPolicyOf(list.Flags) == ReadAtHead && DeleteOnRead(list.Flags)
    modifies list`Current, list`Head, list`Tail, list`Size, list`Nodes, list`Contents, list`Cur, list.Nodes
    ensures list.Valid() && list.HeadLive() && list.Flags == old(list.Flags)
    ensures x == old(list.Contents)[0] && list.Contents == old(list.Contents)[1..]
    ensures list.Nodes == old(list.Nodes)[1..]
  {
    var r := list.GetNode();
    x := r.value;
    assert RemoveAt(old(list.Contents), 0) == old(list.Contents)[1..];
    assert RemoveAt(old(list.Nodes), 0) == old(list.Nodes)[1..];
  }

  /** A prefix one element longer. */
  lemma TakeOneMore<T>(s: seq<T>, k: nat)
    requires k < |s|
    ensures s[..k + 1] == s[..k] + [s[k]]
  {
  }

  /** GetNode n times on a container that reads and deletes at its Head. */
  method Drain<T(!new)>(list: LList<T>, n: nat) returns (out: seq<T>)
    requires list.Valid() && list.HeadLive() && n <= |list.Contents|
    requires ReadPolicyOf(list.Flags) == ReadAtHead && DeleteOnRead(list.Flags)
    modifies list`Current, list`Head, list`Tail, list`Size, list`Nodes, list`Contents, list`Cur, list.Nodes
    ensures out == old(list.Contents)[..n] && list.Contents == old(list.Contents)[n..]
  {
    out := [];
    var k := 0;
    while k < n
      invariant 0 <= k <= n && list.Flags == old(list.Flags)
      invariant list.Valid() && list.HeadLive()
      invariant out == old(list.Contents)[..k] && list.Contents == old(list.Contents)[k..]
      invariant list.Nodes == old(list.Nodes)[k..]
    {
      ghost var c := list.Contents;
      assert c[0] == old(list.Contents)[k];
      var x := GetFirst(list);
      TakeOneMore(old(list.Contents), k);
      out := out + [x];
      k := k + 1;
    }
  }

  /** The data from Head to Tail, read by following Next the way the library walks its lists. */
  method ReadAll<T(!new)>(list: LList<T>) returns (out: seq<T>)
    requires list.Valid() && list.HeadLive()
    ensures out == list.Contents
  {
    var node := list.Head;
    ghost var i := 0;
    out := [];
    while node != null
      invariant 0 <= i <= |list.Nodes| && node == (if i < |list.Nodes| then list.Nodes[i] else null)
      invariant out == list.Contents[..i]
      decreases |list.Nodes| - i
    {
      assert list.Nodes[i].Data == list.Contents[i];
      out := out + [node.Data];
      assert list.Contents[..i + 1] == list.Contents[..i] + [list.Contents[i]];
      node := node.Next;
      i := i + 1;
    }
    assert list.Contents[..i] == list.Contents;
  }

  /** Repeated AddNode on a LIST appends, because each new node becomes Current. */
  method ListAppendsInOrder<T(!new)>(xs: seq<T>) returns (list: LList<T>)
    ensures list.Valid() && list.Contents == xs && list.Cur == |xs| - 1
  {
    CompositeTypesDecode();
    list := FillAtCurrent(LIST, None, xs);
  }

  /** Adding xs to a QUEUE and reading it |xs| times gives xs back, and empties it. */
  method QueueRoundTrip<T(!new)>(xs: seq<T>) returns (out: seq<T>)
    ensures out == xs
  {
    CompositeTypesDecode();
    var list := FillAtTail(QUEUE, xs);
    out := Drain(list, |xs|);
  }

  /** Adding xs to a STACK and reading it |xs| times gives xs reversed. */
  method StackRoundTrip<T(!new)>(xs: seq<T>) returns (out: seq<T>)
    ensures out == Reversed(xs)
  {
    CompositeTypesDecode();
    var list := FillAtHead(STACK, xs);
    out := Drain(list, |xs|);
  }
}
