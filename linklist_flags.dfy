/**
 * The configuration word of a linklist.h container: one nibble selects how
 * nodes are added, one how they are deleted, one how they are read, and the
 * top nibble holds the operation flags.  The switches in linklist.c decode it.
 */
module LinkListFlags {
  type FlagWord = bv32

  const LISTADDCURR: FlagWord := 0x300
  const LISTADDHEAD: FlagWord := 0x100
  const LISTADDTAIL: FlagWord := 0x200
  const LISTADDSPLAY: FlagWord := 0x400
  const LISTDELCURR: FlagWord := 0x030
  const LISTDELHEAD: FlagWord := 0x010
  const LISTDELTAIL: FlagWord := 0x020
  const LISTDELSPLAY: FlagWord := 0x040
  const LISTREADCURR: FlagWord := 0x003
  const LISTREADHEAD: FlagWord := 0x001
  const LISTREADTAIL: FlagWord := 0x002

  const LISTDELREAD: FlagWord := 0x1000
  const LISTCIRCULAR: FlagWord := 0x2000
  const LISTBTREE: FlagWord := 0x4000

  const LISTADDMASK: FlagWord := 0xF00
  const LISTDELMASK: FlagWord := 0x0F0
  const LISTREADMASK: FlagWord := 0x00F
  const LISTFLAGMASK: FlagWord := 0xF000

  const LIST: FlagWord := LISTADDCURR | LISTREADCURR | LISTDELCURR
  const FIFO: FlagWord := LISTADDTAIL | LISTREADHEAD | LISTDELHEAD
  const LIFO: FlagWord := LISTADDHEAD | LISTREADHEAD | LISTDELHEAD
  const QUEUE: FlagWord := FIFO | LISTDELREAD
  const STACK: FlagWord := LIFO | LISTDELREAD
  const CIRCULAR_QUEUE: FlagWord := QUEUE | LISTCIRCULAR
  const STREE: FlagWord := LISTBTREE | LISTADDSPLAY | LISTDELSPLAY | LISTREADCURR

  /** Return codes of the container operations. */
  const LLIST_NOERROR: int := 0
  const LLIST_NULL: int := 1
  const LLIST_ERROR: int := -1
  const LLIST_OK: int := LLIST_NOERROR
  const LLIST_BADVALUE: int := LLIST_NULL

  /** Where AddNode puts a node; an unknown add nibble falls back to InsertList. */
  datatype AddPolicy = AddAtCurrent | AddAtHead | AddAtTail | AddSplay

  /** What GetNode reads; an unknown read nibble falls back to the current node. */
  datatype ReadPolicy = ReadAtCurrent | ReadAtHead | ReadAtTail

  /** What DelNode deletes; an unknown delete nibble falls back to RemoveList. */
  datatype DelPolicy = DelAtCurrent | DelAtHead | DelAtTail | DelSplay

  function AddPolicyOf(f: FlagWord): AddPolicy
  {
    var m := f & LISTADDMASK;
    if m == LISTADDHEAD then AddAtHead
    else if m == LISTADDTAIL then AddAtTail
    else if m == LISTADDSPLAY then AddSplay
    else AddAtCurrent
  }

  function ReadPolicyOf(f: FlagWord): ReadPolicy
  {
    var m := f & LISTREADMASK;
    if m == LISTREADHEAD then ReadAtHead
    else if m == LISTREADTAIL then ReadAtTail
    else ReadAtCurrent
  }

  function DelPolicyOf(f: FlagWord): DelPolicy
  {
    var m := f & LISTDELMASK;
    if m == LISTDELHEAD then DelAtHead
    else if m == LISTDELTAIL then DelAtTail
    else if m == LISTDELSPLAY then DelSplay
    else DelAtCurrent
  }

  predicate DeleteOnRead(f: FlagWord) { (f & LISTFLAGMASK) & LISTDELREAD != 0 }
  predicate Circular(f: FlagWord) { (f & LISTFLAGMASK) & LISTCIRCULAR != 0 }
  predicate IsTree(f: FlagWord) { (f & LISTFLAGMASK) & LISTBTREE != 0 }
  /** The bit FindNode tests to decide whether to splay first. */
  predicate SplaysOnFind(f: FlagWord) { (f & LISTADDMASK) & LISTADDSPLAY != 0 }
  /** The bit FreeList tests to decide how to delete. */
  predicate SplaysOnDelete(f: FlagWord) { (f & LISTDELMASK) & LISTDELSPLAY != 0 }

  /** A configuration the plain (non-tree) container handles: no tree bit, no splay bit. */
  predicate ListConfig(f: FlagWord)
  {
    !IsTree(f) && !SplaysOnFind(f) && !SplaysOnDelete(f)
  }

  /** A configuration the splay-tree container handles. */
  predicate TreeConfig(f: FlagWord)
  {
    IsTree(f) && AddPolicyOf(f) == AddSplay && DelPolicyOf(f) == DelSplay
  }

  /** The four masks are disjoint nibbles that together cover the low 16 bits. */
  lemma MasksAreDisjointNibbles()
    ensures LISTADDMASK & LISTDELMASK == 0 && LISTADDMASK & LISTREADMASK == 0
    ensures LISTADDMASK & LISTFLAGMASK == 0 && LISTDELMASK & LISTREADMASK == 0
    ensures LISTDELMASK & LISTFLAGMASK == 0 && LISTREADMASK & LISTFLAGMASK == 0
    ensures LISTADDMASK | LISTDELMASK | LISTREADMASK | LISTFLAGMASK == 0xFFFF
  {
  }

  /** Each composite container type decodes to the policies its name promises. */
  lemma CompositeTypesDecode()
    ensures AddPolicyOf(LIST) == AddAtCurrent && ReadPolicyOf(LIST) == ReadAtCurrent
    ensures DelPolicyOf(LIST) == DelAtCurrent && !DeleteOnRead(LIST) && ListConfig(LIST)
    ensures AddPolicyOf(FIFO) == AddAtTail && ReadPolicyOf(FIFO) == ReadAtHead
    ensures DelPolicyOf(FIFO) == DelAtHead && !DeleteOnRead(FIFO) && ListConfig(FIFO)
    ensures AddPolicyOf(LIFO) == AddAtHead && ReadPolicyOf(LIFO) == ReadAtHead
    ensures DelPolicyOf(LIFO) == DelAtHead && !DeleteOnRead(LIFO) && ListConfig(LIFO)
    ensures AddPolicyOf(QUEUE) == AddAtTail && ReadPolicyOf(QUEUE) == ReadAtHead
    ensures DeleteOnRead(QUEUE) && !Circular(QUEUE) && ListConfig(QUEUE)
    ensures AddPolicyOf(STACK) == AddAtHead && ReadPolicyOf(STACK) == ReadAtHead
    ensures DeleteOnRead(STACK) && !Circular(STACK) && ListConfig(STACK)
    ensures AddPolicyOf(CIRCULAR_QUEUE) == AddAtTail && DeleteOnRead(CIRCULAR_QUEUE)
    ensures Circular(CIRCULAR_QUEUE) && ListConfig(CIRCULAR_QUEUE)
    ensures TreeConfig(STREE) && ReadPolicyOf(STREE) == ReadAtCurrent && SplaysOnFind(STREE)
    ensures SplaysOnDelete(STREE) && !DeleteOnRead(STREE)
  {
  }
}
