# libepub in Dafny

A model of libepub, the EPUB 2 reading library of ebook-tools. The library opens a book's zip
archive. It reads the Open Container Format file `META-INF/container.xml` to find the package
(OPF) file. It parses the package's metadata, manifest, spine and guide, and the NCX table of
contents. It then offers a reading-order iterator over the spine, a table-of-contents iterator
and a metadata accessor. Underneath it is a generic doubly-linked container, which is also a
splay tree, plus two string helpers: path canonicalisation and `%20` decoding.

The two external libraries are abstract here:
- the zip archive is a `map<string, seq<char>>` from entry name to bytes;
- a libxml2 text reader over a document is a sequence of `XmlNode` events (qualified name,
  local name, node type 1 or 15, attributes, text). A `parse: string -> Option<Doc>`
  parameter says whether a reader can be made and what it yields.

Modules:

| module | file | models |
|---|---|---|
| `Wrappers` | wrappers.dfy | `Option` |
| `CString` | cstring.dfy | `strcmp`, `tolower`, `xmlStrcasecmp`, `atoi` and NUL-terminated buffers |
| `LinkListFlags` | linklist_flags.dfy | the flag words, masks and composite container types of linklist.h |
| `LinkList` | linklist.dfy | the heap container: class `LList` over class `Node`, cursor `Current`, ghost `Nodes`/`Contents` |
| `LinkSort` | linklist_sort.dfy | what sorted under a comparator means, the adjacent swap, and the inversion count that bounds `SortList` |
| `LinkCompare` | linklist_compare.dfy | `StringCompare`, `IntCompare` |
| `LinkListUsage` | linklist_usage.dfy | `AddNode`/`GetNode` on queues and stacks, `FreeList` |
| `Splay` | splay.dfy | the `LISTBTREE` configuration: a tree datatype, top-down splaying, splay insert and remove |
| `EpubTypes` | epub_types.dfy | the records of epublib.h |
| `ListCmp` | list_cmp.dfy | the comparators of list.c |
| `XmlReader` | xml_reader.dfy | the reader as a node sequence, and the name tests |
| `Ocf` | ocf.dfy | the container: roots, mimetype, file reads |
| `Opf` | opf.dfy | the package parser |
| `OpfToc` | opf_toc.dfy | the NCX parser |
| `Epub` | epub.dfy | `epub_open`'s data path, the iterators, the metadata accessor |
| `PathCanon` | path_canon.dfy | `canonicalize_filename` |
| `UrlDecode` | url_decode.dfy | `url_decode` |

Each source loop is a Dafny `method` with a `while` loop. It is proved equal to a recursive
function over the node sequence, and the lemmas state what that function does. Objects that the
source updates in place are classes:
- `LList` and `STree`;
- `Ocf` and `Opf`;
- the two iterators `EIterator` and `TIterator`.

Some source behaviour is undefined and depends only on the document, such as a NULL dereference
on a dangling reference. The model does not exclude it with a precondition. Instead the method
returns a `defined` flag, which is false exactly on the inputs that reach the undefined step.
One exception: `_opf_parse` leaves the metadata and manifest fields uninitialised when the
package has no such section (opf.c:6-10). The model reads those fields as NULL, so a later
read of them (epub.c:124, opf.c:763) is defined here, where in C it reads an indeterminate
pointer.

## Model

| member | source | states |
|---|---|---|
| CString.StrCmp | ebook-tools/src/libepub/list.c:129-136 | the `strcmp` both id and media-type comparators call: a sign, 0 exactly for equal strings |
| CString.StrCmpAntisymmetric | ebook-tools/src/libepub/list.c:129-132 | swapping the arguments flips the sign |
| CString.StrCmpTransitive | ebook-tools/src/libepub/list.c:129-132 | `a <= b <= c` under `strcmp` gives `a <= c` |
| CString.StrCmpThreeWay | ebook-tools/src/libepub/linklist.h:126-133 | `strcmp` is a comparator in the `NodeCompareFunc` sense: antisymmetric and transitive |
| CString.ToLower | ebook-tools/src/libepub/ocf.c:39-51 | C-locale `tolower`: the result is never upper case; a character changes exactly when it is `A`..`Z`, and then moves to the same place in `a`..`z`; the result is a lower-case letter exactly when the input is a letter |
| CString.LowerIdempotent | ebook-tools/src/libepub/ocf.c:39-51 | folding a folded string changes nothing, so the name tests can fold either side |
| CString.LowerAt | ebook-tools/src/libepub/ocf.c:39-51 | the folded string holds the folded characters position by position |
| CString.StrCaseCmp | ebook-tools/src/libepub/ocf.c:39-51 | `xmlStrcasecmp`: 0 exactly when the folded strings are equal |
| CString.StrCaseCmpIsFoldedStrCmp | ebook-tools/src/libepub/opf.c:313-316 | case-insensitive comparison is `strcmp` of the folded strings |
| CString.CStr | ebook-tools/src/libepub/ocf.c:157-165 | the C string a buffer holds: a NUL-free prefix, followed by a NUL when shorter than the buffer |
| CString.CStrOfPlain | ebook-tools/src/libepub/ocf.c:157-165 | a NUL-free text reads back whole |
| CString.CStrTerminated | ebook-tools/src/libepub/ocf.c:164 | the terminating NUL written after the bytes read does not change the string |
| CString.DigitRun | ebook-tools/src/libepub/opf.c:353 | the run of digits `atoi` reads: the longest digit prefix |
| CString.Decimal | ebook-tools/src/libepub/opf.c:353 | the decimal numeral of a number: digits only, no leading zero |
| CString.DecValueOfDecimal | ebook-tools/src/libepub/opf.c:353 | a numeral's value is the number it was written from |
| CString.DigitRunOfNumeral | ebook-tools/src/libepub/opf.c:353 | a numeral followed by a non-digit is exactly the digit run |
| CString.SkipSpace | ebook-tools/src/libepub/opf.c:353 | `atoi`'s leading white space skip: a suffix that starts with no space |
| CString.AtoiOfDigits | ebook-tools/src/libepub/opf.c:353 | `atoi` of a digit run is its value |
| CString.AtoiOfDecimal | ebook-tools/src/libepub/opf.c:348-358 | `atoi` reads a numeral back as its number |
| CString.AtoiOfNegated | ebook-tools/src/libepub/opf.c:348-358 | `atoi` reads `-` and a numeral as the negated number |
| CString.Atoi | ebook-tools/src/libepub/opf.c:353 | a negative result needs a leading `-` after the white space; text that does not start with a digit or sign after white space reads as 0 |
| LinkListFlags.MasksAreDisjointNibbles | ebook-tools/src/libepub/linklist.h:91-95 | the add, delete, read and flag masks are pairwise disjoint and cover the low 16 bits |
| LinkListFlags.CompositeTypesDecode | ebook-tools/src/libepub/linklist.h:97-104 | LIST adds, reads and deletes at the cursor; FIFO/QUEUE add at the tail and read at the head; LIFO/STACK add and read at the head; QUEUE and STACK delete on read; CIRCULAR_QUEUE is circular; STREE is a splaying tree |
| LinkList.Node.constructor | ebook-tools/src/libepub/linklist.c:32-49 | `NewListNode`: a node carrying the data, with no links |
| LinkList.FindFirst | ebook-tools/src/libepub/linklist.c:110-119 | the first index whose element satisfies the test, none before it; None when no element does |
| LinkList.LList.constructor | ebook-tools/src/libepub/linklist.c:11-30 | `NewListAlloc`: an empty container with the given flags and comparator, no cursor |
| LinkList.LList.InsertList | ebook-tools/src/libepub/linklist.c:209-234 | the new node goes right after the cursor and becomes the cursor; on an empty list it is the only node; a NULL node gives LLIST_NULL and changes nothing; a NULL cursor on a non-empty list leaves the node orphaned as Current with Size one higher |
| LinkList.LList.HeadList | ebook-tools/src/libepub/linklist.c:236-254 | the node is prepended and becomes the cursor, contents grow by it at the front, every other node stays; NULL gives LLIST_NULL |
| LinkList.LList.TailList | ebook-tools/src/libepub/linklist.c:256-274 | the node is appended and becomes the cursor, contents grow by it at the back; NULL gives LLIST_NULL |
| LinkList.LList.DelHeadList | ebook-tools/src/libepub/linklist.c:352-373 | an empty list is left alone; otherwise exactly the head is removed and the cursor is the new head; when the list empties the Tail is left as it was |
| LinkList.LList.DelTailList | ebook-tools/src/libepub/linklist.c:375-396 | an empty list is left alone; otherwise exactly the tail is removed and the cursor is the new tail; when the list empties the Head is left as it was |
| LinkList.LList.RemoveList | ebook-tools/src/libepub/linklist.c:323-350 | a NULL cursor changes nothing; otherwise exactly the cursor's node is removed and its successor, or the new tail, is the cursor |
| LinkList.LList.RemoveInterior | ebook-tools/src/libepub/linklist.c:341-348 | an interior cursor node is unlinked and the next node takes its place as cursor |
| LinkList.LList.GetNode | ebook-tools/src/libepub/linklist.c:51-82 | the data at the read position of the flags (cursor, head or tail), NULL on an empty list or a NULL cursor; with LISTDELREAD that node is removed, otherwise nothing changes |
| LinkList.LList.AddNode | ebook-tools/src/libepub/linklist.c:156-170 | dispatch on the add policy to HeadList, TailList or InsertList, with their results; a NULL node gives LLIST_NULL |
| LinkList.LList.DelNode | ebook-tools/src/libepub/linklist.c:307-321 | dispatch on the delete policy: removes the head, tail or cursor node, or nothing when there is none |
| LinkList.LList.NextNode | ebook-tools/src/libepub/linklist.c:398-411 | the cursor moves one link forward and its data is returned; off the tail it becomes NULL, or wraps to the head on a circular list |
| LinkList.LList.PrevNode | ebook-tools/src/libepub/linklist.c:413-426 | one link backward, off the head NULL or, circular, the tail |
| LinkList.LList.IndexNode | ebook-tools/src/libepub/linklist.c:428-444 | index above Size gives NULL with the cursor unchanged; otherwise the cursor is on node `index` counted from 1 (index 0 or below stays on the head) and its data is returned |
| LinkList.LList.FindNode | ebook-tools/src/libepub/linklist.c:92-128 | no comparator gives NULL; otherwise the data of the first node from the head that compares 0 with the key, with the cursor on it; on a miss NULL with a NULL cursor |
| LinkList.LList.Walk | ebook-tools/src/libepub/linklist.c:110-115 | the search loop stops on the first matching node, or runs off the end |
| LinkList.LList.SwapList | ebook-tools/src/libepub/linklist.c:471-498 | the cursor's node and its successor trade places and the cursor follows its node; without a successor nothing changes |
| LinkList.LList.SwapLinks | ebook-tools/src/libepub/linklist.c:478-496 | the six link writes of the swap leave a well-linked chain in swapped order |
| LinkList.LList.SortList | ebook-tools/src/libepub/linklist.c:500-534 | the contents are a permutation of the old ones and the nodes move with their data; with a comparator and a non-empty list they are sorted and the cursor is on the head; the sort is stable: two elements that compare 0 stay in their old order; with no comparator or an empty list nothing changes |
| LinkList.LList.SortPasses | ebook-tools/src/libepub/linklist.c:510-531 | the `do ... while (move)` passes end adjacent-sorted, with the nodes and data moved by one stable permutation |
| LinkList.LList.BubblePass | ebook-tools/src/libepub/linklist.c:512-530 | one pass from the head: a permutation, the inversion count drops by the number of swaps, a pass without swaps leaves the list adjacent-sorted, and equal elements keep their order |
| LinkList.LList.SwapIfGreater | ebook-tools/src/libepub/linklist.c:515-524 | swaps exactly when the pair is strictly out of order, lowering the inversion count by one |
| LinkList.CurrentData | ebook-tools/src/libepub/linklist.c:84-90 | the data NextNode, PrevNode and IndexNode hand back: NULL exactly when the cursor is NULL, otherwise the element at the cursor's position in the contents |
| LinkList.ReadIndex | ebook-tools/src/libepub/linklist.c:51-82 | the position GetNode reads: none exactly for an empty list or a NULL cursor under the cursor policy |
| LinkList.DeleteIndex | ebook-tools/src/libepub/linklist.c:307-321 | the position DelNode removes: none exactly for an empty list or a NULL cursor under the cursor policy |
| LinkList.RemoveAtSplits | ebook-tools/src/libepub/linklist.c:323-396 | one removal keeps the elements before and after position k in order and loses exactly one occurrence of the removed element |
| LinkList.CurAfterDelete | ebook-tools/src/libepub/linklist.c:323-396 | the cursor after a removal is NULL exactly when the list empties |
| LinkList.StepsInvert | ebook-tools/src/libepub/linklist.c:398-426 | NextNode then PrevNode, or the reverse, returns to the start unless an end is stepped off a non-circular list |
| LinkList.CircularSteps | ebook-tools/src/libepub/linklist.c:398-411 | on a circular list k steps forward land `k` places on, modulo the size |
| LinkList.CircularReturns | ebook-tools/src/libepub/linklist.c:398-411 | Size steps forward on a circular list come back to the start |
| LinkList.FindFirstMiss | ebook-tools/src/libepub/linklist.c:117-119 | a test no element passes finds nothing |
| LinkList.FindFirstHit | ebook-tools/src/libepub/linklist.c:110-115 | the first passing element is the one found |
| LinkList.Freed | ebook-tools/src/libepub/linklist.h:315-322 | the payloads DataFree receives: never more than the nodes, none exactly when there is no DataFree or no node has a payload, and a payload is released exactly when some node holds it |
| LinkList.PresentAll | ebook-tools/src/libepub/linklist.c:455-466 | a payload is among the non-NULL ones exactly when some node holds it |
| LinkList.FreedStep | ebook-tools/src/libepub/linklist.c:455-466 | freeing the head hands over its payload, if present, then the rest |
| LinkList.FreeList | ebook-tools/src/libepub/linklist.c:446-469 | NULL gives LLIST_NULL; otherwise every node is deleted, Size is 0, and DataFree got exactly the non-NULL payloads in list order |
| LinkList.FreeNodes | ebook-tools/src/libepub/linklist.c:455-466 | the delete loop empties the list and frees exactly the non-NULL payloads |
| LinkList.FreeHead | ebook-tools/src/libepub/linklist.c:458-465 | one turn frees the head's payload and shortens the list |
| LinkSort.SwapAt | ebook-tools/src/libepub/linklist.c:471-498 | the sequence with positions k and k+1 exchanged and everything else in place, a permutation |
| LinkSort.SwapLowersInversions | ebook-tools/src/libepub/linklist.c:515-524 | swapping a strictly greater adjacent pair lowers the inversion count by exactly one, so the sort ends |
| LinkSort.AdjacentSortedIsSorted | ebook-tools/src/libepub/linklist.c:526-530 | for a comparator, no out-of-order adjacent pair means sorted |
| LinkSort.Identity | ebook-tools/src/libepub/linklist.c:510 | where a list not yet moved came from: position i from position i |
| LinkSort.IdentityFollows | ebook-tools/src/libepub/linklist.c:510 | before any swap every element stands at its own place |
| LinkSort.IdentityStable | ebook-tools/src/libepub/linklist.c:510 | before any swap equal elements are in their original order |
| LinkSort.FollowsSwap | ebook-tools/src/libepub/linklist.c:471-498 | an adjacent swap of the list is the same swap of where its elements came from |
| LinkSort.StableSwap | ebook-tools/src/libepub/linklist.c:516-524 | swapping a strictly greater adjacent pair keeps equal elements in their original order, so the bubble sort is stable |
| LinkCompare.StringCompare | ebook-tools/src/libepub/linklist.c:627-634 | `strcmp` on two strings, 0 exactly for equal ones; 0 when either is NULL |
| LinkCompare.IntCompare | ebook-tools/src/libepub/linklist.c:636-648 | 1, -1, 0 as the first is greater, smaller, equal; 0 when either is NULL |
| LinkCompare.IntOrderThreeWay | ebook-tools/src/libepub/linklist.c:636-648 | on present integers IntCompare is a comparator |
| LinkCompare.StringOrderThreeWay | ebook-tools/src/libepub/linklist.c:627-634 | on present strings StringCompare is a comparator |
| LinkCompare.StringCompareNullBreaksOrder | ebook-tools/src/libepub/linklist.c:629-630 | with NULL allowed the order is not transitive: "b" > "a" while NULL ties with both |
| LinkListUsage.Reversed | ebook-tools/src/libepub/linklist.h:98-102 | the reverse of a sequence, element by element |
| LinkListUsage.FillAtTail | ebook-tools/src/libepub/linklist.c:256-274 | AddNode of x1..xn on a tail-adding list holds x1..xn |
| LinkListUsage.FillAtHead | ebook-tools/src/libepub/linklist.c:236-254 | AddNode of x1..xn on a head-adding list holds xn..x1 |
| LinkListUsage.FillAtCurrent | ebook-tools/src/libepub/linklist.c:209-234 | AddNode of x1..xn on a LIST holds x1..xn, cursor on the last |
| LinkListUsage.AddOneAtTail | ebook-tools/src/libepub/linklist.c:256-274 | one tail add appends exactly one fresh node |
| LinkListUsage.AddOneAtHead | ebook-tools/src/libepub/linklist.c:236-254 | one head add prepends exactly one fresh node |
| LinkListUsage.AddAfterLast | ebook-tools/src/libepub/linklist.c:209-234 | an add after the last node appends and keeps the cursor last |
| LinkListUsage.GetFirst | ebook-tools/src/libepub/linklist.h:206-214 | GetNode on a delete-on-read head reader returns the first element and removes its node |
| LinkListUsage.Drain | ebook-tools/src/libepub/linklist.h:206-214 | n GetNode calls return the first n elements in order and leave the rest |
| LinkListUsage.ReadAll | ebook-tools/src/libepub/linklist.h:138-157 | following the Next links from the Head visits exactly the contents, in order |
| LinkListUsage.ListAppendsInOrder | ebook-tools/src/libepub/linklist.h:235-260 | repeated AddNode on a LIST appends in call order |
| LinkListUsage.QueueRoundTrip | ebook-tools/src/libepub/linklist.h:98-102 | adding x1..xn to a QUEUE and getting n times returns x1..xn |
| LinkListUsage.StackRoundTrip | ebook-tools/src/libepub/linklist.h:98-102 | adding x1..xn to a STACK and getting n times returns xn..x1 |
| Splay.RotateRight | ebook-tools/src/libepub/linklist.c:558-566 | the zig rotation keeps the in-order sequence |
| Splay.RotateLeft | ebook-tools/src/libepub/linklist.c:580-588 | the zag rotation keeps the in-order sequence |
| Splay.HangLeftInOrder | ebook-tools/src/libepub/linklist.c:589-608 | hanging the subtree on the left accumulator puts the accumulated keys before it |
| Splay.HangRightInOrder | ebook-tools/src/libepub/linklist.c:567-574 | hanging the subtree on the right accumulator puts the accumulated keys after it |
| Splay.AssembleInOrder | ebook-tools/src/libepub/linklist.c:605-620 | the final assembly is left keys, then the current subtree, then right keys |
| Splay.SplayFromInOrder | ebook-tools/src/libepub/linklist.c:553-620 | the reference splay from any state keeps left keys + current + right keys as the in-order sequence |
| Splay.SplayFromSplits | ebook-tools/src/libepub/linklist.c:553-620 | on an ordered tree and a comparator, the splayed root has only smaller keys on its left and only larger ones on its right |
| Splay.SplitFinds | ebook-tools/src/libepub/linklist.c:621-622 | at such a root the key occurs in the tree exactly when it compares 0 with the root |
| Splay.TopDownSplay | ebook-tools/src/libepub/linklist.c:537-625 | the `for(;;)` loop with its rotations and Left/Right accumulators computes the reference splay, keeps the in-order sequence, and on an ordered tree splits at the key and roots it exactly when it is present |
| Splay.SplayedSplits | ebook-tools/src/libepub/linklist.c:537-625 | the reference splay of a non-empty tree keeps its keys, splits at the key and finds it exactly when it occurs |
| Splay.InsertSorted | ebook-tools/src/libepub/linklist.c:172-207 | the in-order sequence after an insertion: one element more, the multiset grown by it |
| Splay.InsertSortedBetween | ebook-tools/src/libepub/linklist.c:183-200 | in a sequence split at the insertion point the new key lands between the two halves |
| Splay.LinkNewRootSorted | ebook-tools/src/libepub/linklist.c:183-203 | after a splay that missed, the new node becomes the root of an ordered tree holding the old keys with it inserted in order |
| Splay.LinkNewRoot | ebook-tools/src/libepub/linklist.c:183-203 | the new node is the root |
| Splay.LinkNewRootKeeps | ebook-tools/src/libepub/linklist.c:183-203 | the keys under the new root are the old ones plus the new key |
| Splay.InsertedBetween | ebook-tools/src/libepub/linklist.c:183-200 | the inserted sequence is increasing when the key fits between the halves |
| Splay.RemoveRootKeeps | ebook-tools/src/libepub/linklist.c:276-305 | SplayRemoveList as written: with no left subtree the right subtree remains; with no right one the left remains; with both, the keys of the left child's right subtree are lost; the result is ordered and smaller |
| Splay.SplayOnLeftChild | ebook-tools/src/libepub/linklist.c:291-295 | splaying the left subtree at its own root is one zig, so the old root keeps its right subtree |
| Splay.RemoveRootLosesNodes | ebook-tools/src/libepub/linklist.c:291-295 | removing the root 3 of the tree with in-order 1 2 3 4 leaves 1 4: key 2 is lost |
| Splay.RemoveRoot | ebook-tools/src/libepub/linklist.c:276-305 | without a right subtree the left one remains; without a left one the right one; with both, a root whose right subtree is the old right subtree |
| Splay.LeftSpineBelow | ebook-tools/src/libepub/linklist.c:138-147 | the nodes BTFind visits, always going to Prev, lie below the root in order |
| Splay.BTFindAfterSplay | ebook-tools/src/libepub/linklist.c:138-147 | because `Compare` is 1 or 0, BTFind after a splay finds the key only at the root |
| Splay.BTFindMissesRight | ebook-tools/src/libepub/linklist.c:140 | a key stored in the right subtree is not found |
| Splay.STree.constructor | ebook-tools/src/libepub/linklist.c:11-30 | an empty tree with the given flags and comparator |
| Splay.STree.SplayList | ebook-tools/src/libepub/linklist.c:537-625 | the root becomes the splay of the old root at the key and is Current, in-order keys unchanged; the result is present exactly when the key occurs, and then it is the root node (not its data) and compares 0 |
| Splay.STree.SplayInsertList | ebook-tools/src/libepub/linklist.c:172-207 | a present key gives LLIST_BADVALUE with Size and keys unchanged; otherwise the new node is the root and Current, Size grows by one, and the keys are the old ones with it inserted in order |
| Splay.STree.SplayRemoveList | ebook-tools/src/libepub/linklist.c:276-305 | an empty tree is left alone; otherwise the root is replaced by RemoveRoot as written, is Current, and Size drops by one |
| Splay.STree.BTFind | ebook-tools/src/libepub/linklist.c:130-153 | from Current, walks the Prev links only and stops at the first node that compares 0, returning its data; NULL with a NULL Current when there is none |
| Splay.STree.FindNode | ebook-tools/src/libepub/linklist.c:92-108 | on a tree FindNode splays first: the keys are kept, the result is present exactly when the key occurs, and then it is the root's data with Current on the root |
| ListCmp.RootByMediatype | ebook-tools/src/libepub/list.c:129-132 | `strcmp` of the two media types, which must be present: a sign, 0 exactly for equal types |
| ListCmp.ManifestById | ebook-tools/src/libepub/list.c:134-136 | `strcmp` of the two ids, which must be present: 0 exactly for equal ids |
| ListCmp.LabelByLang | ebook-tools/src/libepub/list.c:138-144 | 0 when either language is NULL; otherwise 0 exactly for equal languages |
| ListCmp.TocByPlayorder | ebook-tools/src/libepub/list.c:146-158 | 0 when either item is NULL; otherwise positive or negative exactly as the first play order is greater or smaller |
| ListCmp.TocOrderThreeWay | ebook-tools/src/libepub/list.c:146-158 | on present items the play-order comparator is antisymmetric and transitive, as SortList needs |
| ListCmp.SortedByPlayOrder | ebook-tools/src/libepub/list.c:146-158 | sorted under the comparator means non-decreasing play orders, both ways |
| ListCmp.RootByMediatypeAntisymmetric | ebook-tools/src/libepub/list.c:129-132 | swapping two roots flips the sign |
| ListCmp.LabelLangNullMatchesAll | ebook-tools/src/libepub/list.c:140-141 | a label without a language matches every query and a query without one matches every label, so "en" ties with NULL and NULL with "fr" while "en" and "fr" differ |
| XmlReader.EndIsSticky | ebook-tools/src/libepub/ocf.c:35-37 | once a read has not given a node no later one does, and the end status never changes |
| XmlReader.ReadMoves | ebook-tools/src/libepub/ocf.c:65 | a read gives a node exactly when the reader moves on; at the end it stays put and reports the same status again |
| XmlReader.NameTestsAreStrCaseCmp | ebook-tools/src/libepub/ocf.c:39-51 | for a lower-case literal, the name tests are exactly `xmlStrcasecmp` returning 0 |
| XmlReader.LocalIsExcludes | ebook-tools/src/libepub/opf.c:136-239 | a local name that matches one literal does not match a literal of another length |
| XmlReader.NameIsExcludes | ebook-tools/src/libepub/opf.c:313-316 | nor one that differs at some position |
| XmlReader.NameIs | ebook-tools/src/libepub/opf.c:313-316 | a qualified name that matches has the literal's length |
| XmlReader.LocalIs | ebook-tools/src/libepub/opf.c:136-239 | a local name that matches has the literal's length |
| XmlReader.StopAt | ebook-tools/src/libepub/opf.c:683-685 | where "read; while the read gave a node whose name is not X" stops: the first node named X from the start, or the end |
| XmlReader.StopAtUnique | ebook-tools/src/libepub/opf.c:683-685 | any position with no X before it that is the end or an X is that stop |
| XmlReader.StopAtEither | ebook-tools/src/libepub/opf.c:312-315 | the stop of a loop ended by either of two names |
| XmlReader.StopAtEitherUnique | ebook-tools/src/libepub/opf.c:312-315 | the two-name stop is where the loop condition first fails |
| Ocf.RootsOf | ebook-tools/src/libepub/ocf.c:37-66 | the roots a run of nodes adds: at most one per node |
| Ocf.RootsOfAppend | ebook-tools/src/libepub/ocf.c:37-66 | the roots of consecutive runs are those of each run, in document order |
| Ocf.RootsOfPrefix | ebook-tools/src/libepub/ocf.c:50-58 | reading one more node adds its root exactly when it is a rootfile |
| Ocf.RootsOfSingle | ebook-tools/src/libepub/ocf.c:50-58 | one node gives `{media-type, full-path}` exactly when its local name is `rootfile` in any case |
| Ocf.RootOf | ebook-tools/src/libepub/ocf.c:50-58 | a new root holds the node's media-type and full-path attributes |
| Ocf.IsRootfile | ebook-tools/src/libepub/ocf.c:50-51 | a rootfile name has the length of `rootfile` |
| Ocf.RootfileTest | ebook-tools/src/libepub/ocf.c:50-51 | the rootfile test is `xmlStrcasecmp` of the local name with `rootfile`, and ignores the node type |
| Ocf.RootsOfNone | ebook-tools/src/libepub/ocf.c:37-66 | nodes none of which is a rootfile add no root |
| Ocf.ContainerElementsAddNothing | ebook-tools/src/libepub/ocf.c:39-49 | `container` and `rootfiles`, start or end tag, add nothing |
| Ocf.RootsOfPair | ebook-tools/src/libepub/ocf.c:50-58 | a rootfile start tag and its end tag add two roots, the second with NULL attributes |
| Ocf.RootfileEndTagAddsRoot | ebook-tools/src/libepub/ocf.c:50-58 | without a node-type check, `<rootfile ...></rootfile>` anywhere in the document adds an extra root with NULL media type and path |
| Ocf.MissingContainerPassesGuard | ebook-tools/src/libepub/ocf.c:26-32 | a missing container gives -1 and a NULL buffer, which `!` lets through to `strlen` |
| Ocf.ContainerGuardAsWritten | ebook-tools/src/libepub/ocf.c:26-27 | the guard as written: it stops only on a size of 0, so a negative size passes |
| Ocf.ContainerGuard | ebook-tools/src/libepub/ocf.c:26-32 | the corrected guard stops exactly when the guard as written does or the size is negative |
| Ocf.ContainerGuardAdmitsOnlyBuffers | ebook-tools/src/libepub/ocf.c:26-32 | with the guard stopping unless at least one byte was read, what passes is exactly a present, non-empty entry, whose whole content is in the buffer |
| Ocf.FirstOfType | ebook-tools/src/libepub/ocf.c:239 | where FindNode with the media-type comparator stops: the first root of that media type, none before it; none when no root has it |
| Ocf.RootFullpathByType | ebook-tools/src/libepub/ocf.c:235-248 | NULL exactly when no root has the media type; otherwise the full path of a root with it, and of the first one |
| Ocf.Ocf.constructor | ebook-tools/src/libepub/ocf.c:196-200 | `_ocf_parse`'s set-up: no data path, no mimetype, an empty root list |
| Ocf.Ocf.GetFile | ebook-tools/src/libepub/ocf.c:133-184 | -1 and NULL for a missing entry; otherwise the byte count n and a buffer of n + 1 bytes ending in NUL, holding the entry |
| Ocf.Ocf.GetDataFile | ebook-tools/src/libepub/ocf.c:224-233 | `_ocf_get_file` on the data path followed by the name |
| Ocf.Ocf.ParseMimetype | ebook-tools/src/libepub/ocf.c:3-17 | returns 1; the mimetype is the entry's text, or `application/epub+zip` when there is no entry |
| Ocf.Ocf.ParseContainer | ebook-tools/src/libepub/ocf.c:19-81 | with the corrected guard: 0 and no roots for a missing or empty container; otherwise 0 when no reader can be made, else the roots grow by RootsOf of the document and the result is 1 exactly when the read ended cleanly |
| Ocf.Ocf.ReadRoots | ebook-tools/src/libepub/ocf.c:35-66 | the read loop appends RootsOf of all nodes and ends with the reader's final status |
| Ocf.Ocf.ContainerNode | ebook-tools/src/libepub/ocf.c:39-64 | the body of the loop on one node: a root for a rootfile, nothing otherwise |
| Opf.PossibleNamespace | ebook-tools/src/libepub/opf.c:53-68 | found exactly when the attribute exists in the opf namespace or unqualified; the namespaced one wins when both exist, and what is found is one of the two |
| Opf.PossibleNamespaceWithoutPrefix | ebook-tools/src/libepub/opf.c:53-68 | with no opf prefix declared only the unqualified attribute is read |
| Opf.StartsLength | ebook-tools/src/libepub/opf.c:726-753 | a list-building loop adds exactly one item per start tag it meets |
| Opf.StartsHas | ebook-tools/src/libepub/opf.c:730-734 | every start tag between the section's opening and the stop node is turned into an item |
| Opf.StartsFrom | ebook-tools/src/libepub/opf.c:730-734 | every item in such a list comes from one of those start tags |
| Opf.StartsSplit | ebook-tools/src/libepub/opf.c:726-753 | the items of a stretch of nodes are the items of its first part followed by those of the rest |
| Opf.StopAtSkip | ebook-tools/src/libepub/opf.c:124-125 | a node whose name is not the stop name does not end a section loop |
| Opf.ManifestItem | ebook-tools/src/libepub/opf.c:738-745 | a manifest item holds the id, href, media-type, fallback, fallback-style, required-namespace and required-modules attributes |
| Opf.SpineItem | ebook-tools/src/libepub/opf.c:686-712 | a spine item holds the idref attribute and a linear flag of 0 or 1, 0 exactly when the linear attribute reads "no" in any case |
| Opf.GuideItem | ebook-tools/src/libepub/opf.c:784-786 | a guide entry holds the type attribute, with the href attribute as its title and the title attribute as its href, as written |
| Opf.AddEntryRecords | ebook-tools/src/libepub/opf.c:136-185 | a metadata entry appends an identifier, creator or contributor record to that list exactly when its local name selects it |
| Opf.AddEntryMoreRecords | ebook-tools/src/libepub/opf.c:176-194 | the same for meta and date records |
| Opf.AddEntryTexts | ebook-tools/src/libepub/opf.c:146-210 | the same for titles, subjects, publishers, descriptions and types, each holding the element's text |
| Opf.AddEntryMoreTexts | ebook-tools/src/libepub/opf.c:211-233 | the same for formats, sources, languages, relations, coverages and rights |
| Opf.AddEntryTotal | ebook-tools/src/libepub/opf.c:133-239 | a recognised element adds exactly one entry to all the lists together; an unrecognised one adds none |
| Opf.AddEntryTotalFirst | ebook-tools/src/libepub/opf.c:136-202 | the first eight kinds each add exactly one entry |
| Opf.AddEntryTotalRest | ebook-tools/src/libepub/opf.c:203-239 | the remaining kinds add one entry, the unrecognised kind none |
| Opf.KindOfByName | ebook-tools/src/libepub/opf.c:136-239 | an element is of a recognised kind exactly when its local name is that kind's name in any case |
| Opf.AddEntry | ebook-tools/src/libepub/opf.c:133-239 | an unrecognised element leaves the metadata as it was |
| Opf.MetaStepTotal | ebook-tools/src/libepub/opf.c:124-241 | one turn of the metadata loop: a node that is not the start tag of a recognised element changes nothing; one that is adds exactly one entry |
| Opf.MetaStepRecords | ebook-tools/src/libepub/opf.c:124-241 | one more turn of the metadata loop keeps each record list equal to the records of the elements read so far |
| Opf.MetaStepTexts | ebook-tools/src/libepub/opf.c:124-241 | the same for the text lists |
| Opf.MetaFoldFields | ebook-tools/src/libepub/opf.c:113-243 | after the metadata loop each list holds, in document order, one entry per start tag of its kind between the metadata tags |
| Opf.MetaFoldTotal | ebook-tools/src/libepub/opf.c:113-243 | the number of entries the metadata loop stores equals the number of recognised start tags it met |
| Opf.TitleIsTitle | ebook-tools/src/libepub/opf.c:136-149 | local names are compared without regard to case, so TITLE is a title |
| Opf.LinearOf | ebook-tools/src/libepub/opf.c:696-702 | an itemref is non-linear exactly when its linear attribute reads "no" in any case; the flag is always 0 or 1 |
| Opf.LinearOfValues | ebook-tools/src/libepub/opf.c:696-702 | "no", "NO" and "No" are non-linear; a missing attribute, "yes", "" and "non" are linear |
| Opf.LinearCountBounds | ebook-tools/src/libepub/opf.c:696-702 | linearCount grows by at most the number of items, and by all of them exactly when every item is linear |
| Opf.LinearCountSnoc | ebook-tools/src/libepub/opf.c:696-702 | one more itemref raises the count by one exactly when it is linear |
| Opf.LinearCountAppend | ebook-tools/src/libepub/opf.c:683-713 | the count of two stretches of items is the sum of their counts |
| Opf.SpineItemsFlags | ebook-tools/src/libepub/opf.c:683-713 | every spine item the loop builds has linear flag 0 or 1 |
| Opf.ManifestGetById | ebook-tools/src/libepub/opf.c:759-765 | the first manifest item whose id is the key, or none exactly when no item has that id |
| Opf.ManifestGetByIdUnique | ebook-tools/src/libepub/opf.c:759-765 | an id that only one item has finds that item |
| Opf.IdScanDefinedReaches | ebook-tools/src/libepub/opf.c:759-765 | the id search is defined exactly when every item it reaches before a match has an id, since the comparator takes `strcmp` of it |
| Opf.LabelGetByLang | ebook-tools/src/libepub/opf.c:859-866 | the text of the first label that matches the language, where a NULL language matches every label, whenever one matches; no label when none matches; a label returned is always that of the first match |
| Opf.LabelGetByLangNoLang | ebook-tools/src/libepub/opf.c:859-866 | without a language the first label's text is returned |
| Opf.DocLangOfMetadata | ebook-tools/src/libepub/opf.c:868-872 | the document language of a parsed metadata section is the text of its first language element, and NULL when it has none |
| Opf.EntriesEmpty | ebook-tools/src/libepub/opf.c:113-243 | the list of one kind is empty exactly when no start tag of that kind was read |
| Opf.EntriesFirst | ebook-tools/src/libepub/opf.c:113-243 | the first entry of a kind's list comes from the first start tag of that kind |
| Opf.LabelGetByDocLang | ebook-tools/src/libepub/opf.c:868-872 | the first label matching the document language gives the text; none matching gives none; a document without a language entry takes the first label's text |
| Opf.LabelGetByDocLangPicksLanguage | ebook-tools/src/libepub/opf.c:868-872 | a French document picks the French label over an earlier English one |
| Opf.SpineToc | ebook-tools/src/libepub/opf.c:658-680 | only the toc name and the toc source change; the name is the spine's toc attribute; without that attribute the toc stays empty and nothing is undefined |
| Opf.SpineTocResolves | ebook-tools/src/libepub/opf.c:658-680 | a toc id that resolves to an item with an href takes as toc source the file under the data path when that file is non-empty, and keeps the old source otherwise |
| Opf.TocFrom | ebook-tools/src/libepub/opf.c:667-680 | a toc is present exactly when a toc source was read, and then it has no page list and its play-order list is sorted |
| Opf.SpineOf | ebook-tools/src/libepub/opf.c:651-714 | a defined spine parse stores a spine list and stops at a later position |
| Opf.SpineOfCounts | ebook-tools/src/libepub/opf.c:683-713 | a parsed spine raises linearCount by exactly its linear items, never by more than its length |
| Opf.OpfStep | ebook-tools/src/libepub/opf.c:20-38 | a defined turn of the dispatch always moves the reader forward |
| Opf.OpfRunDefined | ebook-tools/src/libepub/opf.c:20-38 | a package with no tours element and no spine toc attribute is read without undefined behaviour |
| Opf.OpfStepTouches | ebook-tools/src/libepub/opf.c:20-38 | one turn changes only the section its element names |
| Opf.OpfRun | ebook-tools/src/libepub/opf.c:20-38 | the dispatch run never takes away a section once read, and never lowers the linear count |
| Opf.OpfStepKeeps | ebook-tools/src/libepub/opf.c:20-38 | one turn of the dispatch keeps every section read so far and never lowers the linear count |
| Opf.InitState | ebook-tools/src/libepub/opf.c:6-10 | the parse starts with no metadata, manifest, spine, guide or toc, and the given linear count |
| Opf.GuideRunsToTheEnd | ebook-tools/src/libepub/opf.c:767-794 | the guide loop does not stop at the end of the guide element: it runs to the end of the document and turns every later start tag into a guide entry |
| Opf.Opf.constructor | ebook-tools/src/libepub/opf.c:6-10 | a new package record with no sections, no toc and no guide |
| Opf.Opf.ParseMetadata | ebook-tools/src/libepub/opf.c:113-243 | _opf_parse_metadata stops at the next metadata node and stores the folded metadata of the nodes before it |
| Opf.Opf.ParseManifest | ebook-tools/src/libepub/opf.c:716-757 | _opf_parse_manifest stops at the next manifest node and stores one item per start tag before it |
| Opf.Opf.ParseGuide | ebook-tools/src/libepub/opf.c:767-794 | _opf_parse_guide stops at the next guides node and stores one guide entry per start tag before it |
| Opf.Opf.SpineTocLookup | ebook-tools/src/libepub/opf.c:658-680 | the toc lookup of _opf_parse_spine, as SpineToc states it, keeping the toc equal to the parse of its source |
| Opf.Opf.ParseSpine | ebook-tools/src/libepub/opf.c:651-714 | _opf_parse_spine, as SpineOf states it |
| Opf.Opf.Dispatch | ebook-tools/src/libepub/opf.c:20-38 | one turn of the _opf_parse loop, as OpfStep states it |
| Opf.ReadManifestItems | ebook-tools/src/libepub/opf.c:724-756 | the manifest loop returns its stop position and the manifest item of every start tag before it |
| Opf.ReadGuideItems | ebook-tools/src/libepub/opf.c:773-793 | the guide loop returns its stop position and the guide entry of every start tag before it |
| Opf.ReadSpineItems | ebook-tools/src/libepub/opf.c:683-713 | the spine loop returns its stop position, the spine item of every start tag before it, and linearCount raised by the linear ones |
| Opf.SpineNode | ebook-tools/src/libepub/opf.c:686-712 | one turn of the spine loop extends the items and the count by the current node |
| Opf.ParseOpf | ebook-tools/src/libepub/opf.c:3-51 | no record when the text cannot be read; otherwise a record exactly when the document is well formed, holding the state of the whole dispatch run, whenever that run is defined |
| OpfToc.PositiveIntOfNumeral | ebook-tools/src/libepub/opf.c:348-358 | an attribute holding a decimal numeral reads as its value |
| OpfToc.PositiveIntAmbiguities | ebook-tools/src/libepub/opf.c:348-358 | an attribute "-1" reads the same as a missing one, and a non-numeral reads as 0 |
| OpfToc.PositiveInt | ebook-tools/src/libepub/opf.c:348-358 | -1 for a missing attribute; the value of the digits for an attribute of digits only |
| OpfToc.InitTocItem | ebook-tools/src/libepub/opf.c:333-346 | a new item at the given depth with no label, type, src, id or class, play order -1 and value -1 |
| OpfToc.LabelScan | ebook-tools/src/libepub/opf.c:312-321 | the label loop never moves the reader backwards or past the end |
| OpfToc.LabelScanStop | ebook-tools/src/libepub/opf.c:312-321 | the label loop stops at the first later node named navLabel or navInfo, ignoring case, or at the end |
| OpfToc.LabelScanKeeps | ebook-tools/src/libepub/opf.c:316-319 | with no text start tag before the stop the text stays what it was |
| OpfToc.LabelScanLast | ebook-tools/src/libepub/opf.c:316-319 | the text is that of the last text start tag before the stop |
| OpfToc.NavLabelOf | ebook-tools/src/libepub/opf.c:303-331 | the reader is left at the next navLabel or navInfo node; the label is NULL exactly when the reader ran out first |
| OpfToc.NavLabelText | ebook-tools/src/libepub/opf.c:303-331 | a label's text is what the label loop took |
| OpfToc.NavLabelWithoutText | ebook-tools/src/libepub/opf.c:303-331 | a label whose content has no text start tag has no text |
| OpfToc.NavLabelTakesLastText | ebook-tools/src/libepub/opf.c:316-319 | a label's text is that of its last text start tag |
| OpfToc.ParseNavLabel | ebook-tools/src/libepub/opf.c:303-331 | _opf_parse_navlabel, as NavLabelOf states it |
| OpfToc.Record | ebook-tools/src/libepub/opf.c:380-408 | storing the open item, if any, appends it to both the category's items and the play-order list, empties the item slot and keeps the depth and the category's id and class |
| OpfToc.WithLabel | ebook-tools/src/libepub/opf.c:417-426 | a navLabel changes neither the stored items nor the category's info list |
| OpfToc.WithInfo | ebook-tools/src/libepub/opf.c:427-432 | a navInfo appends its label to the category's info list and changes nothing else |
| OpfToc.WithSrc | ebook-tools/src/libepub/opf.c:434-440 | a content tag sets the open item's src and changes nothing else |
| OpfToc.AttachStep | ebook-tools/src/libepub/opf.c:411-444 | the start-tag half of a turn always moves the reader forward |
| OpfToc.AttachStepKeeps | ebook-tools/src/libepub/opf.c:411-444 | labels, info and content never change the stored items or the depth |
| OpfToc.AttachNode | ebook-tools/src/libepub/opf.c:411-444 | the start-tag half of a turn as a method, as AttachStep states it |
| OpfToc.NavMapStep | ebook-tools/src/libepub/opf.c:375-444 | one turn of the navMap loop always moves the reader forward |
| OpfToc.NavMapRun | ebook-tools/src/libepub/opf.c:372-444 | the navMap loop stops at the next node named navMap, ignoring case, or at the end |
| OpfToc.NavMapOf | ebook-tools/src/libepub/opf.c:360-447 | the navMap parse stops past its tag, and every item it stores is also appended to the play-order list |
| OpfToc.NavMapNode | ebook-tools/src/libepub/opf.c:375-444 | one turn of the navMap loop as a method, as NavMapStep states it |
| OpfToc.ParseNavMap | ebook-tools/src/libepub/opf.c:360-447 | _opf_parse_navmap, as NavMapOf states it: the play-order list grows by exactly the category's items |
| OpfToc.NavMapLockstep | ebook-tools/src/libepub/opf.c:380-405 | items are added to the category and to the play-order list at the same moments, so the two stay in step |
| OpfToc.RecordInStep | ebook-tools/src/libepub/opf.c:380-386 | storing an item keeps the two lists in step |
| OpfToc.AttachInStep | ebook-tools/src/libepub/opf.c:411-444 | the start-tag half of a turn keeps the two lists in step |
| OpfToc.NavMapStepInStep | ebook-tools/src/libepub/opf.c:375-444 | one turn keeps the two lists in step |
| OpfToc.NavMapDepth | ebook-tools/src/libepub/opf.c:362-408 | the depth counter always equals the number of open navPoint elements less the closed ones, and the open item carries the depth it was opened at |
| OpfToc.NavMapStepDepth | ebook-tools/src/libepub/opf.c:375-444 | one turn keeps that agreement |
| OpfToc.NavPointTagDepth | ebook-tools/src/libepub/opf.c:375-408 | a navPoint tag keeps that agreement |
| OpfToc.NavMapStepSplit | ebook-tools/src/libepub/opf.c:375-444 | a turn is the navPoint handling, followed by the label and content handling only for a start tag |
| OpfToc.NavPointStartRecords | ebook-tools/src/libepub/opf.c:375-396 | a navPoint start tag stores the open item, if any, raises the depth by one and opens an item at the new depth |
| OpfToc.NavPointEndRecords | ebook-tools/src/libepub/opf.c:398-408 | a navPoint end tag stores the open item, if any, lowers the depth by one and leaves no item open |
| OpfToc.NavPointTag | ebook-tools/src/libepub/opf.c:375-408 | a node other than a navPoint start or end tag changes nothing; a start tag stores the open item in both lists, raises the depth and opens a navPoint item at the new depth; an end tag stores it, lowers the depth and leaves none open |
| OpfToc.NavLabelWithoutItem | ebook-tools/src/libepub/opf.c:417-426 | a navLabel outside any navPoint becomes a label of the category |
| OpfToc.TargetItemDefaults | ebook-tools/src/libepub/opf.c:333-346 | a target item has depth 1, play order and value -1 when their attributes are missing, and no label list and no src (the target parsers call it at opf.c:466 and opf.c:544) |
| OpfToc.TargetStep | ebook-tools/src/libepub/opf.c:464-521 | one turn of a target-list loop always moves the reader forward |
| OpfToc.TargetRun | ebook-tools/src/libepub/opf.c:461-521 | a target-list loop stops at the next node with its list's name, ignoring case, or at the end (the pageList loop at opf.c:540-600 is the same) |
| OpfToc.TargetListOf | ebook-tools/src/libepub/opf.c:449-527 | a navList or pageList parse stops past its tag, every stored item is appended to the play-order list, and every item has depth 1 (likewise _opf_parse_pagelist, opf.c:529-606) |
| OpfToc.TargetNode | ebook-tools/src/libepub/opf.c:464-521 | one turn of a target-list loop as a method, as TargetStep states it |
| OpfToc.ParseTargetList | ebook-tools/src/libepub/opf.c:449-527 | _opf_parse_navlist and _opf_parse_pagelist, as TargetListOf states them (opf.c:529-606 for the page list) |
| OpfToc.TargetLockstep | ebook-tools/src/libepub/opf.c:476-487 | the category's items and the play-order list stay in step through a target list (opf.c:555-566 in the page list) |
| OpfToc.TargetStepInStep | ebook-tools/src/libepub/opf.c:464-521 | one turn keeps them in step |
| OpfToc.TargetDepthOne | ebook-tools/src/libepub/opf.c:466 | every item a target list opens or stores has depth 1 (opf.c:544 in the page list) |
| OpfToc.TargetStepFlat | ebook-tools/src/libepub/opf.c:464-521 | one turn keeps that |
| OpfToc.TargetTagFlat | ebook-tools/src/libepub/opf.c:464-487 | a target tag keeps that |
| OpfToc.TargetTag | ebook-tools/src/libepub/opf.c:464-487 | the depth never changes; a node other than a target start or end tag changes nothing; a start tag opens a target item and stores nothing; an end tag stores the open item in both lists and leaves none open |
| OpfToc.TargetStepSplit | ebook-tools/src/libepub/opf.c:464-521 | a turn is the target handling, followed by the label and content handling only for a start tag |
| OpfToc.TocStep | ebook-tools/src/libepub/opf.c:624-637 | one turn of the toc dispatch always moves the reader forward |
| OpfToc.TocNode | ebook-tools/src/libepub/opf.c:624-637 | one turn of the toc dispatch as a method, as TocStep states it |
| OpfToc.TocStepKeeps | ebook-tools/src/libepub/opf.c:624-637 | no turn sets the page-list slot, since the page list is stored in the navList slot, and the play-order list only grows at its end (opf.c:603) |
| OpfToc.TocRun | ebook-tools/src/libepub/opf.c:608-649 | the whole toc dispatch leaves the page-list slot as it was and only appends to the play-order list |
| OpfToc.SortPlayOrder | ebook-tools/src/libepub/opf.c:647 | SortList on the play-order list with the play-order comparator gives a permutation of the items in ascending play order, items with equal play order in their document order |
| OpfToc.ParseToc | ebook-tools/src/libepub/opf.c:608-649 | _opf_parse_toc: an empty toc when no reader can be made; otherwise the categories of the dispatch run; in both cases the play-order list is the stable sort by play order of the items collected |
| Epub.LastSeparator | ebook-tools/src/libepub/epub.c:37 | the position of the last separator in the name, or none exactly when the name has no separator |
| Epub.DataPath | ebook-tools/src/libepub/epub.c:36-44 | the data path is the longest prefix of the package name that ends in the separator, or empty when the name has none |
| Epub.DataPathUnique | ebook-tools/src/libepub/epub.c:36-44 | a directory followed by a bare file name gives back exactly that directory |
| Epub.DataFile | ebook-tools/src/libepub/ocf.c:133-184 | a NUL-terminated copy of the entry exactly when the archive has it |
| Epub.Epub.constructor | ebook-tools/src/libepub/epub.c:7-66 | a book record holding the container and the package record |
| Epub.Open | ebook-tools/src/libepub/epub.c:7-66 | no book when the container has no package root, the package entry is missing or the package does not parse; otherwise the data path is set from the package name and the book holds the state of the package parse, which exists exactly when the package is well formed; undefined when a root lacks a media type or the package root lacks a full path |
| Epub.FirstWith | ebook-tools/src/libepub/epub.c:223-248 | the first spine position from the start whose linear flag is the one asked for, or none exactly when no later position has it |
| Epub.FirstWithUnique | ebook-tools/src/libepub/epub.c:223-248 | a position with that flag and none before it from the start is the one found |
| Epub.SpineItNext | ebook-tools/src/libepub/epub.c:223-248 | _get_spine_it_next: NULL for a NULL node; otherwise the first node with the flag, starting at the node itself when init is set and at its successor otherwise |
| Epub.Selected | ebook-tools/src/libepub/epub.c:289-376 | the positions an iterator kind selects from a start all lie in the spine and carry the kind's flag |
| Epub.SelectedIncreasing | ebook-tools/src/libepub/epub.c:289-376 | those positions are in spine order |
| Epub.SelectedComplete | ebook-tools/src/libepub/epub.c:289-376 | every position at or after the start with the kind's flag is selected |
| Epub.SkipUnselected | ebook-tools/src/libepub/epub.c:363-376 | positions without the flag can be skipped without changing what is still to come |
| Epub.FirstWithAhead | ebook-tools/src/libepub/epub.c:223-248 | the node _get_spine_it_next finds is selected, and the positions still to come from it are all selected positions from the start (as the iterator steps at epub.c:363-376) |
| Epub.StartTracks | ebook-tools/src/libepub/epub.c:289-299 | a new iterator has visited nothing and has every selected position still to come |
| Epub.Start | ebook-tools/src/libepub/epub.c:289-299 | the first position of the kind: it is selected and none before it is; none exactly when no position is selected |
| Epub.FollowingAhead | ebook-tools/src/libepub/epub.c:363-376 | the node after a step is selected, and what is still to come from it is what is selected after the old node |
| Epub.Following | ebook-tools/src/libepub/epub.c:363-376 | the next position of the kind after i: selected with none selected between; none exactly when none is selected after i |
| Epub.NextTracks | ebook-tools/src/libepub/epub.c:363-376 | a step adds the current position to the visited ones and keeps visited-then-ahead equal to all selected positions |
| Epub.Visited | ebook-tools/src/libepub/epub.c:289-376 | once an iterator has run out it has visited exactly the positions of its kind (every entry, or the linear or non-linear ones), each once and in spine order |
| Epub.SpineUrl | ebook-tools/src/libepub/epub.c:250-268 | the href of the first manifest item whose id is the current idref, and none when no item has it |
| Epub.SpineUrlFinds | ebook-tools/src/libepub/epub.c:250-268 | an idref held by exactly one manifest item gives that item's href |
| Epub.UrlDefined | ebook-tools/src/libepub/epub.c:250-268 | with a non-empty manifest a NULL idref is undefined; with an idref the lookup is defined exactly when every item the scan reaches before a match has an id |
| Epub.EIterator.constructor | ebook-tools/src/libepub/epub.c:270-303 | a new iterator with the kind, book and option given, no cache, and the current node given |
| Epub.EIterator.GetCurrUrl | ebook-tools/src/libepub/epub.c:317-330 | the url of the current spine entry, defined only while there is a current entry and its lookup is (through _get_spine_it_url, epub.c:250-268) |
| Epub.EIterator.GetCurr | ebook-tools/src/libepub/epub.c:332-349 | NULL when the iterator has run out; the cached buffer when there is one; otherwise the current entry's file is read into the cache and returned |
| Epub.EIterator.ReadCurr | ebook-tools/src/libepub/epub.c:343 | the read of the current entry's file under the data path, defined exactly when its url is |
| Epub.EIterator.GetNext | ebook-tools/src/libepub/epub.c:350-379 | the cache is released first; an iterator that has run out returns NULL and changes nothing else; otherwise it steps to the next node of its kind and returns that node's file |
| Epub.EIterator.Step | ebook-tools/src/libepub/epub.c:363-376 | one step to the next node of the iterator's kind, recording the old node as visited |
| Epub.EIterator.Free | ebook-tools/src/libepub/epub.c:305-314 | the cache is released |
| Epub.GetIterator | ebook-tools/src/libepub/epub.c:270-303 | NULL for no book; otherwise defined exactly when the package has a spine, giving a fresh iterator with no cache at the first node of its kind |
| Epub.NodeLabel | ebook-tools/src/libepub/epub.c:455-474 | a guide entry is captioned by its title; a toc item by the text of its first label in the document language when that lookup gives one, and by its id otherwise |
| Epub.NodeLabelFallsBack | ebook-tools/src/libepub/epub.c:466-474 | an item none of whose labels is in the document language takes its id as caption |
| Epub.NodeLink | ebook-tools/src/libepub/epub.c:442-486 | the target cached: a guide entry's href, a toc item's src |
| Epub.NodeDepth | ebook-tools/src/libepub/epub.c:442-486 | the depth cached: 1 for a guide entry, a toc item's own depth |
| Epub.GuideWalk | ebook-tools/src/libepub/epub.c:455-461 | a guide iterator walked to the end shows every guide entry once, in guide order, each with its title, its href and depth 1 |
| Epub.NavMapWalk | ebook-tools/src/libepub/epub.c:464-474 | a navMap iterator walked to the end shows every toc item once, in order, with its document-language label or id, its src and its depth |
| Epub.Shows | ebook-tools/src/libepub/epub.c:442-486 | one cache filled per node consumed |
| Epub.ShowsAt | ebook-tools/src/libepub/epub.c:442-486 | the i-th cache filled is that of the i-th node |
| Epub.TIterator.constructor | ebook-tools/src/libepub/epub.c:513-521 | a new toc iterator with no pending node, not valid, no caption and no target, and depth -1 |
| Epub.TIterator.TitNext | ebook-tools/src/libepub/epub.c:442-486 | with no pending node: 0 and not valid, nothing else changed; otherwise the node is consumed, the caption, target and depth are set from it, the next node becomes pending, the iterator is valid, the walk so far grows by that node's cache and stays the walk of the nodes before the pending one |
| Epub.TIterator.Exhausted | ebook-tools/src/libepub/epub.c:442-486 | once nothing is pending every node has been shown exactly once, in list order |
| Epub.GetTIterator | ebook-tools/src/libepub/epub.c:488-559 | NULL for no book, for a navMap iterator without toc or navMap and for a guide iterator without a guide; a guide iterator with entries has advanced once: it shows the first entry at depth 1, is valid and has the second pending, or none; one without entries is invalid with nothing pending; a navMap iterator with a category label shows it at depth 0 with the first item pending; without one it advances once, showing the first item, or is invalid when there is none; in every case the walk starts as the walk of the nodes before the pending one; a pages iterator is NULL or undefined |
| Epub.PagesNeverIterate | ebook-tools/src/libepub/epub.c:506-508 | the page-list slot of a parsed toc is always empty, so the inverted check either returns NULL or goes on to read the missing list (opf.c:603 stores the page list elsewhere) |
| Epub.TypeOf | ebook-tools/src/libepub/epub.c:129-196 | a metadata kind code is recognised exactly when it is one of the sixteen kinds |
| Epub.TextsVerbatim | ebook-tools/src/libepub/epub.c:134-180 | the text kinds give back the stored texts verbatim, in order, NULL ones included |
| Epub.CreatorsFormatted | ebook-tools/src/libepub/epub.c:181-188 | the creator and contributor kinds give one role string per stored record, in order |
| Epub.Formatted | ebook-tools/src/libepub/epub.c:207-215 | one string per entry, in list order; a string is NULL exactly when the entry is a NULL text, since every record formats to a string |
| Epub.GetMetadata | ebook-tools/src/libepub/epub.c:117-218 | NULL for no book, no metadata, an unknown kind or an empty list; otherwise a fresh array of exactly Size strings, the formatted entries in list order, and Size reported |
| Epub.FillStrings | ebook-tools/src/libepub/epub.c:200-215 | the fill loop writes each entry's formatted string at its index |
| Epub.RoleStrDefaults | ebook-tools/src/libepub/epub.c:107-115 | a creator without role or file-as reads as "Author: name(name)" |
| Epub.IdStrDefaults | ebook-tools/src/libepub/epub.c:73-83 | an identifier without scheme or id reads as "Unspecified (Unspecified:text)" |
| Epub.DateAndMetaDefaults | ebook-tools/src/libepub/epub.c:85-105 | a date without event reads as "Unspecified: date", a meta without name or content as "Unspecified: Unspecified" |
| Epub.UpTo | ebook-tools/src/libepub/epub.c:73-115 | the longest prefix of a string not containing a character, which is then followed by that character |
| Epub.UpToJoin | ebook-tools/src/libepub/epub.c:73-115 | the prefix up to a character of a join is its first part when that part lacks the character |
| Epub.RoleStrField | ebook-tools/src/libepub/epub.c:107-115 | the text of a creator string before its first colon is the role, or "Author" |
| Epub.DateStrField | ebook-tools/src/libepub/epub.c:85-94 | the text of a date string before its first colon is the event, or "Unspecified" |
| Epub.MetaStrField | ebook-tools/src/libepub/epub.c:96-105 | the text of a meta string before its first colon is the name, or "Unspecified" |
| Epub.IdStrField | ebook-tools/src/libepub/epub.c:73-83 | the text of an identifier string before its first space is the scheme, or "Unspecified" |
| Epub.PrintfStr | ebook-tools/src/libepub/epub.c:73-115 | what `%s` prints: the string, or `(null)` for NULL |
| Epub.IdStr | ebook-tools/src/libepub/epub.c:73-83 | `scheme (`, with Unspecified for a NULL scheme, then the rest and a closing parenthesis; four characters beyond its three fields |
| Epub.DateStr | ebook-tools/src/libepub/epub.c:85-94 | `event: `, with Unspecified for a NULL event, followed by what `%s` prints for the date |
| Epub.MetaStr | ebook-tools/src/libepub/epub.c:96-105 | `name: `, with Unspecified for a NULL name, followed by the content or Unspecified |
| Epub.RoleStr | ebook-tools/src/libepub/epub.c:107-115 | `role: name(`, with Author for a NULL role, then a closing parenthesis; without a file-as the name is repeated inside |
| Epub.Format | ebook-tools/src/libepub/epub.c:198-215 | a text entry is listed as its text, NULL included; every record gives a string |
| Epub.ListOf | ebook-tools/src/libepub/epub.c:129-196 | the formatted list of each of the sixteen kinds: the stored texts verbatim for the text kinds, and one IdStr, RoleStr, DateStr or MetaStr per stored record, in order, for the others |
| PathCanon.Run | ebook-tools/src/libepub/path.c:24-59 | the loop body never makes the output longer than the input read, never writes a NUL into it, and leaves the last character read as cprev |
| PathCanon.Input | ebook-tools/src/libepub/path.c:24 | the characters the loop reads: the C string of the argument, cut at 4096 characters |
| PathCanon.StrNDup | ebook-tools/src/libepub/path.c:60 | strndup returns at most n characters and no NUL |
| PathCanon.Canon | ebook-tools/src/libepub/path.c:11-61 | the result is never longer than the input and at most 4095 characters, and holds no NUL |
| PathCanon.RunAppend | ebook-tools/src/libepub/path.c:24-59 | running the loop over two pieces of input is running it over the first and then the second |
| PathCanon.RunSnoc | ebook-tools/src/libepub/path.c:24-59 | one more input character is one more turn of the loop |
| PathCanon.StrNDupOfHeld | ebook-tools/src/libepub/path.c:60 | strndup of the NUL-terminated output buffer copies the output, cut at n characters |
| PathCanon.CStrAtFront | ebook-tools/src/libepub/path.c:60 | a buffer that holds a string followed by a NUL reads as that string |
| PathCanon.CutBack | ebook-tools/src/libepub/path.c:40-48 | the truncation loop cuts the output to the start position when it is longer, and leaves the buffer holding it |
| PathCanon.PathStep | ebook-tools/src/libepub/path.c:25-58 | one turn of the loop on the result buffer, as Step describes it |
| PathCanon.Step | ebook-tools/src/libepub/path.c:25-58 | one turn: a plain character is appended; a slash is dropped after a slash or on empty output, otherwise appended and remembered as the last slash; a `..` never lengthens the output; the output grows by at most one character, stays without NUL, and the character read becomes cprev |
| PathCanon.Canonicalize | ebook-tools/src/libepub/path.c:11-61 | canonicalize_filename: NULL exactly for a NULL argument, otherwise the canonical form of the input it reads |
| PathCanon.RunPrefix | ebook-tools/src/libepub/path.c:24-59 | the state after i+1 characters is one turn past the state after i |
| PathCanon.NextInput | ebook-tools/src/libepub/path.c:24 | while the loop runs it reads the input's next character |
| PathCanon.EndOfInput | ebook-tools/src/libepub/path.c:24 | the loop ends exactly at the end of the input it reads |
| PathCanon.DropLead | ebook-tools/src/libepub/path.c:29 | leading slashes are dropped: the rest is a suffix that does not start with a slash |
| PathCanon.Keep | ebook-tools/src/libepub/path.c:29-36 | collapsing slash runs keeps the first character and never lengthens the text |
| PathCanon.KeepSnoc | ebook-tools/src/libepub/path.c:29-36 | a slash right after a slash is skipped, any other character is kept |
| PathCanon.DropLeadSnoc | ebook-tools/src/libepub/path.c:29-36 | with leading slashes dropped, one more character is the step of Push |
| PathCanon.KeepOfPlain | ebook-tools/src/libepub/path.c:54-56 | text without slashes is kept as it is |
| PathCanon.StepRel | ebook-tools/src/libepub/path.c:25-58 | without a dot after a dot, one turn extends the output as Push does |
| PathCanon.RunRel | ebook-tools/src/libepub/path.c:24-59 | without two dots in a row, the output is the input with leading slashes dropped and slash runs collapsed |
| PathCanon.RunRelStep | ebook-tools/src/libepub/path.c:24-59 | the induction step of RunRel |
| PathCanon.StepRelAt | ebook-tools/src/libepub/path.c:25-58 | StepRel for a given next state and output |
| PathCanon.LastNotDotDot | ebook-tools/src/libepub/path.c:38-39 | in text without two dots in a row the last character is never a dot after a dot |
| PathCanon.NoDotDotFront | ebook-tools/src/libepub/path.c:38-39 | a prefix of such text has no two dots in a row either |
| PathCanon.NoDotDotSqueezes | ebook-tools/src/libepub/path.c:28-56 | for input without two dots in a row the output is the input with leading slash runs dropped and every other slash run collapsed to one (the cases of path_test.cxx:15-47) |
| PathCanon.RunPlain | ebook-tools/src/libepub/path.c:49-56 | text without slashes and without two dots in a row is copied as it is |
| PathCanon.KeepOfSingle | ebook-tools/src/libepub/path.c:29-36 | text without two slashes in a row is kept as it is |
| PathCanon.NormalUnchanged | ebook-tools/src/libepub/path.c:11-61 | a path that is already normal (no leading slash, no double slash, no two dots in a row, under 4096 characters) is returned unchanged |
| PathCanon.Ups | ebook-tools/tests/path_test.cxx:49-63 | n leading "../" are 3n characters |
| PathCanon.RunUp | ebook-tools/src/libepub/path.c:39-48 | a leading "../" leaves the output empty |
| PathCanon.RunUps | ebook-tools/src/libepub/path.c:39-48 | any number of leading "../" leaves the output empty |
| PathCanon.SameOut | ebook-tools/src/libepub/path.c:60 | inputs that leave the same output in the buffer have the same result |
| PathCanon.UpsDropped | ebook-tools/src/libepub/path.c:39-48 | leading "../" runs are dropped: "../x" and "../../x" both give x (path_test.cxx:49-63) |
| PathCanon.NoDotDotJoin | ebook-tools/src/libepub/path.c:38-39 | joining two texts without two dots in a row, the second not starting with a dot, keeps that |
| PathCanon.AfterFirstSlash | ebook-tools/src/libepub/path.c:28-36 | after "a/" the output is "a/" and the last slash is at the length of a |
| PathCanon.AfterSecondSlash | ebook-tools/src/libepub/path.c:28-36 | after "a/b/" the output is "a/b/" and the two slash offsets are those of the two slashes |
| PathCanon.SlashDotDot | ebook-tools/src/libepub/path.c:38-48 | the characters x, "/", "." and "." join to x followed by "/.." |
| PathCanon.AfterSegment | ebook-tools/src/libepub/path.c:38-48 | after "a/b/.." the output is cut back to a, the input offset of the first slash |
| PathCanon.SegmentRemoved | ebook-tools/src/libepub/path.c:34-48 | "a/b/.." followed by a rest removes the segment b: "a/b/../c" gives "a/c" (path_test.cxx:70-73) |
| UrlDecode.Decode | ebook-tools/src/libepub/url.c:16-26 | decoding never lengthens the text |
| UrlDecode.DecodeNoCode | ebook-tools/src/libepub/url.c:16-24 | text without "%20", a lone "%" included, is left unchanged (the cases of url_test.cxx:14-23) |
| UrlDecode.DecodeNoNul | ebook-tools/src/libepub/url.c:16-26 | decoding text without NUL gives text without NUL |
| UrlDecode.DecodeShorter | ebook-tools/src/libepub/url.c:20-24 | each "%20" becomes one space, shortening the text by two |
| UrlDecode.Encode | ebook-tools/src/libepub/url.c:20-24 | encoding spaces never shortens the text |
| UrlDecode.DecodeEncode | ebook-tools/src/libepub/url.c:16-26 | decoding the encoding of text without "%" gives the text back (as url_test.cxx:25-31 expects) |
| UrlDecode.CodeBeforeNul | ebook-tools/src/libepub/url.c:21 | a "%20" that starts before the NUL ends before it, so the comparison never reads past the string |
| UrlDecode.CStrAt | ebook-tools/src/libepub/url.c:16-26 | a buffer holding text followed by a NUL reads as that text |
| UrlDecode.Step | ebook-tools/src/libepub/url.c:16-25 | one turn of the loop keeps the loop invariant: the write index never passes the read index, the output so far is the decoding of the input read so far, and nothing at or past len changes |
| UrlDecode.StepBeforeNul | ebook-tools/src/libepub/url.c:17-24 | the same for a turn that reads before the NUL |
| UrlDecode.StepOnCode | ebook-tools/src/libepub/url.c:20-24 | a turn on "%20" writes a space and moves the read offset on by two |
| UrlDecode.StepOnByte | ebook-tools/src/libepub/url.c:17-18 | a turn on any other character copies it |
| UrlDecode.StepOnNul | ebook-tools/src/libepub/url.c:16-18 | a turn that reads the NUL copies it |
| UrlDecode.StepAfterNul | ebook-tools/src/libepub/url.c:16-18 | a turn that reads past the NUL keeps the invariant |
| UrlDecode.Start | ebook-tools/src/libepub/url.c:11-16 | the invariant holds before the first turn |
| UrlDecode.Finish | ebook-tools/src/libepub/url.c:16-26 | when the loop ends with len = strlen + 1 the buffer is the decoding, a NUL and the untouched rest; with a longer len it reads as the decoding; with len = 0 or no "%20" it is unchanged |
| UrlDecode.DecodeStep | ebook-tools/src/libepub/url.c:17-25 | one turn of the loop on the buffer, keeping the invariant and moving the offset by two exactly on a replacement |
| UrlDecode.DecodeLoop | ebook-tools/src/libepub/url.c:16-26 | the loop runs until the read index reaches len or the write index meets a NUL, and leaves the invariant holding |
| UrlDecode.Decoder | ebook-tools/src/libepub/url.c:7-27 | url_decode: a NULL buffer is left alone; nothing at or past len changes; with len = strlen + 1 the buffer is the decoded string, a NUL and the old tail; with a larger len it reads as the decoded string; with len = 0 or no "%20" it is unchanged |
| CString.Lower | ebook-tools/src/libepub/ocf.c:39-51 | the folded string has the same length, each character folded as ToLower does |
| LinkList.LList.SpliceLinks | ebook-tools/src/libepub/linklist.c:214-223 | the pointer writes of InsertList after a cursor node: the new node sits between the cursor and its old successor, the tail moves to it when the cursor was the tail, and every other link is unchanged |
| LinkList.LList.LinkAfterCurrent | ebook-tools/src/libepub/linklist.c:214-225 | the node is linked in right after the cursor, the contents gain its data at that place, and the cursor moves onto it |
| LinkList.LList.UnlinkCurrent | ebook-tools/src/libepub/linklist.c:340-341 | the cursor's neighbours now point at each other; every other link is unchanged |
| LinkList.LList.SwapWithNext | ebook-tools/src/libepub/linklist.c:471-497 | SwapList on a node with a successor exchanges the two nodes and their data in list order and leaves the cursor one place further on |
| LinkList.LList.Rewind | ebook-tools/src/libepub/linklist.c:515 | the cursor goes back to the head |
| LinkList.LList.PassStep | ebook-tools/src/libepub/linklist.c:516-529 | one turn of an inner SortList pass keeps the nodes and data as permutations, lowers the inversion count by exactly the swaps counted, moves the cursor forward, and never swaps an equal pair |
| LinkList.LList.StepForward | ebook-tools/src/libepub/linklist.c:527-528 | the cursor moves to its successor |
| LinkList.NextIndex | ebook-tools/src/libepub/linklist.c:398-411 | the cursor position after NextNode stays a position of the list or none |
| LinkList.PrevIndex | ebook-tools/src/libepub/linklist.c:413-426 | the cursor position after PrevNode stays a position of the list or none |
| LinkList.StepsFrom | ebook-tools/src/libepub/linklist.c:398-411 | on a circular list, steps from a node always land on a node |
| LinkList.EqualKeysFindAlike | ebook-tools/src/libepub/linklist.c:92-123 | under a comparator two keys that compare 0 select the same data, so FindNode finds the same element for either |
| LinkList.Present | ebook-tools/src/libepub/linklist.c:446-469 | the non-NULL payloads, never more than the nodes |
| Splay.SplayFrom | ebook-tools/src/libepub/linklist.c:553-620 | the rest of the SplayList loop from a node always leaves a node at the root |
| Splay.Splayed | ebook-tools/src/libepub/linklist.c:537-625 | splaying leaves a tree exactly when there was one |

## Left out

- The zip archive, `stat`, `fread` and `fclose` (ocf.c:133-184): the archive is a map from entry name to bytes, and a read always gets the whole entry. An `fread` failure (a -1 result with a buffer) and an `fclose` failure (a second free of the stat record) are not modelled.
- `_ocf_open`, `_ocf_close`, `_ocf_check_file`, `_ocf_not_supported` and the zip part of `_ocf_parse`: they only wrap zip calls. The model starts from an `Ocf` holding the archive.
- `_ocf_root_by_type`: it only reads a root file through the zip library.
- libxml2: a reader is the `XmlNode` sequence of `parse`. The reader's memory, the encoding and `LIBXML_TEST_VERSION` are not modelled, and `xmlTextReaderReadString` is the node's `text`.
- Memory ownership: `malloc` failures, `free`, every `_list_free_*` and `_opf_free_*`, `_opf_close`, `epub_close`, `epub_free_titerator` and the allocator slots of `NewListAlloc`. Dafny has no free. `FreeList` is modelled by how many payloads its callback would release.
- `_epub_print_debug`, `epub_set_debug`, the dump functions, `DumpList`, `PrintList`, `GraphicTree`, `PrintTree`, the test `main` and the `einfo` tool: they only print.
- The last-error slot (`epub_last_errStr`, `_epub_err_set_*`): its fields are not declared in the headers at hand.
- `DoubleCompare` (linklist.c:650-662): floating point.
- The 10000-byte buffers of `_getIdStr`, `_getDateStr`, `_getMetaStr` and `_getRoleStr`: a formatted string is not cut at 9999 characters.
- Epub.PrintfStr: a NULL string passed to `%s` prints as `(null)`, which is what the GNU C library's `vsnprintf` behind `xmlStrPrintf` prints; the C standard leaves it undefined.
- Epub.GetMetadata: the NULL `size` pointer case is not modelled, since the size is always returned.
- The `epub_tit_*` getters (`epub_tit_curr_valid`, `epub_tit_get_curr_label`, `epub_tit_get_curr_depth`, `epub_tit_get_curr_link`): they are the `valid`, `caption`, `depth` and `target` fields of `Epub.TIterator`, read directly. The NULL iterator guards of these getters and of the iterator functions are not modelled.
- `epub_get_ocf_file` and `epub_get_data`: they forward to `Ocf.Ocf.GetFile` and `Ocf.Ocf.GetDataFile`.
- `_opf_parse_tours` and `_opf_parse_tour` (opf.c:796-857): they free a name the reader owns and then loop on it. A tours element therefore makes the dispatch undefined (`Opf.OpfStep` returns false).
- PATH_SEPARATOR is `/`. The Windows separator is not modelled.
- Undefined behaviour that depends on the document is a `defined` result, and nothing more is said once it is false. This covers:
  - the unchecked toc lookup (opf.c:667-668);
  - a NULL media type or id met by a comparator scan;
  - a dangling spine idref passed to `_ocf_get_data_file` (epub.c:343);
  - `_opf_label_get_by_lang` on an item without labels (opf.c:862);
  - the inverted PAGES check (epub.c:506, 544).
- Opf.InitState: the fields `_opf_parse` leaves uninitialised (opf.c:6-10) are absent, except `linearCount`. `linearCount` holds the `garbage` parameter and the spine adds to it.
- OpfToc.NavLabelOf: a label without a text child has an uninitialised text in C (opf.c:307-318). Here it is absent.
- OpfToc.PositiveIntOfNumeral: `atoi` overflow is not modelled, and numerals are unbounded.
- Opf.Opf.SpineTocLookup: the toc slot is described by the NCX text it was parsed from, via `TocFrom`, and not as one value. Its play-order list is pinned down as the stable sort of the parsed items (a permutation that is sorted and keeps items of equal play order in document order), stated through the permutation `SortList` returns.
- LinkList.LList.SortList: requires a comparator that is antisymmetric and transitive. With an inconsistent comparator the bubble sort may never end, so the source has no result to describe.
- LinkList.LList.HeadList: requires that the `Head` or `Tail` it dereferences is not left dangling by an earlier emptying (linklist.c:363-366, 386-389); following a dangling pointer has no defined result.
- LinkList.LList.TailList: requires that the `Head` or `Tail` it dereferences is not left dangling by an earlier emptying (linklist.c:363-366, 386-389); following a dangling pointer has no defined result.
- LinkList.LList.DelHeadList: requires that the `Head` or `Tail` it dereferences is not left dangling by an earlier emptying (linklist.c:363-366, 386-389); following a dangling pointer has no defined result.
- LinkList.LList.DelTailList: requires that the `Head` or `Tail` it dereferences is not left dangling by an earlier emptying (linklist.c:363-366, 386-389); following a dangling pointer has no defined result.
- LinkList.LList.GetNode: requires that the `Head` or `Tail` it dereferences is not left dangling by an earlier emptying (linklist.c:363-366, 386-389); following a dangling pointer has no defined result.
- LinkList.LList.AddNode: requires that the `Head` or `Tail` it dereferences is not left dangling by an earlier emptying (linklist.c:363-366, 386-389); following a dangling pointer has no defined result.
- LinkList.LList.DelNode: requires that the `Head` or `Tail` it dereferences is not left dangling by an earlier emptying (linklist.c:363-366, 386-389); following a dangling pointer has no defined result.
- LinkList.LList.NextNode: requires that the `Head` or `Tail` it dereferences is not left dangling by an earlier emptying (linklist.c:363-366, 386-389); following a dangling pointer has no defined result.
- LinkList.LList.PrevNode: requires that the `Head` or `Tail` it dereferences is not left dangling by an earlier emptying (linklist.c:363-366, 386-389); following a dangling pointer has no defined result.
- LinkList.LList.IndexNode: requires that the `Head` or `Tail` it dereferences is not left dangling by an earlier emptying (linklist.c:363-366, 386-389); following a dangling pointer has no defined result.
- LinkList.LList.FindNode: requires that the `Head` or `Tail` it dereferences is not left dangling by an earlier emptying (linklist.c:363-366, 386-389); following a dangling pointer has no defined result.
- LinkList.LList.SortList: requires that the `Head` or `Tail` it dereferences is not left dangling by an earlier emptying (linklist.c:363-366, 386-389); following a dangling pointer has no defined result.
- LinkList.LList.constructor: only the linear configurations are modelled. `LISTBTREE` is `Splay.STree`, and mixed flag words are not modelled.
- Splay.STree.constructor: requires a consistent comparator, which the ordering proofs need. The source accepts any function.
- Splay.STree.FindNode: on a miss the source reads an uninitialised `Compare` (linklist.c:94-123). The model takes it as non-zero, so the result is NULL.
- LinkList.FreeList: the `LISTBTREE` branch of `FreeList` is not modelled. After a lossy `SplayRemoveList` it follows a NULL root or loops.
- ListCmp.RootByMediatype: requires both media types to be present, since `strcmp` on NULL is undefined (list.c:129-158).
- ListCmp.ManifestById: requires both ids to be present, since `strcmp` on NULL is undefined (list.c:129-158).
- Ocf.RootFullpathByType: requires the root found to have a full path, since the source `strdup`s it unchecked (ocf.c:235-248).
- Ocf.Ocf.GetDataFile: requires a data path, since the source takes its `strlen` unchecked (ocf.c:224-233).
- The path_test.cxx cases at lines 75-88: they are not satisfied by path.c as written, which mixes input and output offsets (path.c:35, 42). `PathCanon` models the code as written and proves no property for those inputs.
- `url_decode`'s `return NULL` in a void function (url.c:14) is a plain return.
- Ocf.Ocf.ParseContainer: models the corrected guard `size <= 0`, the corrected member of the row under "## Findings", not the `!size` written at ocf.c:26; the guard as written is `Ocf.ContainerGuardAsWritten`.

## Findings

| source | as written | input that shows it | evidently intended | confidence | as-written member | corrected member |
|---|---|---|---|---|---|---|
| ebook-tools/src/libepub/ocf.c:26 | `!` is applied to the size `_ocf_get_file` returns, so only 0 stops the container parse | an archive without `META-INF/container.xml`: the size is -1 and the buffer NULL, so the guard lets the parse go on to `strlen(NULL)` | stop unless at least one byte was read (`<= 0`) | not executed | Ocf.MissingContainerPassesGuard | Ocf.ContainerGuardAdmitsOnlyBuffers |
