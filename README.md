# trabalhoIIEDI core, modelled in Dafny

This project models the core of a C program that reads a city of shapes and runs query commands on it. The shapes are circles, rectangles, lines, texts and text styles. The modelled commands are:

- the "anteparo" command, which turns shapes into barrier segments;
- the clone step of the cloning bomb;
- the visibility region seen from a bomb's position.

The model covers:

- the generic containers the program is built on: a parent-pointer binary search tree, a doubly linked list, a stack, a queue, and an insertion and merge sort;
- the colour and command-line helpers;
- the city registry;
- the geometry primitives;
- the deterministic parts of the visibility computation: the vertex buffer, the bounding box, the angle-0 split, the event list, the two comparators, and the active-tree bookkeeping of the sweep.

Each C file has one Dafny module with the same role:

| Dafny file | module | C source |
|---|---|---|
| `common.dfy` | `Common` | the `NULL` handle, `Option`, and the UTF-8 byte length `strlen` measures |
| `shapes.dfy` | `Shapes` | the shape records of `src/lib/shapes` |
| `stack.dfy` | `Stacks` | `src/lib/commons/stack/stack.c` |
| `queue.dfy` | `Queues` | `src/lib/commons/queue/queue.c` |
| `list.dfy` | `Lists` | `src/lib/commons/list/list.c` |
| `bst.dfy` | `Bst` | `src/lib/commons/bst/bst.c` |
| `sorting.dfy` | `Sorting` | `src/lib/commons/sorting/sorting.c` |
| `utils.dfy` | `Utils` | `src/lib/commons/utils/utils.c` |
| `args.dfy` | `Args` | `src/lib/args_handler/args_handler.c` |
| `city.dfy` | `Cities` | `src/lib/city/city.c` |
| `geometry.dfy` | `Geometry` | `src/lib/visibility/geometry.c` |
| `visibility.dfy` | `Visibility` | `src/lib/visibility/visibility.c` |
| `qry.dfy` | `Query` | `src/lib/qry_handler/qry_handler.c` |

## Modelling choices

- **Containers are arenas.** The C containers are linked nodes, but the classes here keep their nodes in `seq` fields indexed by a handle, with `Null == -1` standing for `NULL`. `next`, `prev`, `left`, `right` and `parent` become sequences of handles that the methods reassign. This covers the stack, the queue, the list and the tree.
- **Ghost abstractions.** Each container keeps a ghost abstraction that its methods are proved against: `Contents` for the stack, queue and list, and a ghost `Tree` for the BST. `Valid()` ties the links to that abstraction: links are mutual inverses, `head`/`tail` are the ends, and `size` is the node count.
- **Shape pointers in the city.** The city keeps every shape record in a `heap: seq<Shape>`. A shape pointer is an index into that `seq`, so pointer identity, which `list_remove` compares, is index equality.
- **Sorting.** The sort routines work in place on an `array<T>`. The C `void *` plus element size becomes a generic `T`. The comparator is a function-typed parameter.
- **Strings.** A string is a sequence of Unicode characters. Where the C code measures a text with `strlen`, the model counts the bytes of its UTF-8 encoding, `Common.Utf8Length`.
- **Points.** Points are pairs of `real`. The C `double`s are modelled as exact reals (see Left out).
- **Transcendental functions.** `atan2`, `sqrt`, `cos` and `sin` are function-typed parameters, and nothing about them is assumed except where a lemma states it as a precondition.
- **Loops as pure passes.** A loop that walks the city is specified by a pure function of the state it starts from. `Query.Visited` is the anteparo scan, and `Query.CloneAll` is the clone loop.
- **Two comparators with surprising behaviour.** `compare_segments` gives 1 in both orders for two distinct segments with the same id at the same distance, so it is not antisymmetric. The 1e-9 tolerance in `compare_vertices` makes that comparator non-transitive. Both are stated as lemmas, because the C code behaves this way.

## Model

| member | source | states |
|---|---|---|
| Common.CharBytes | src/lib/city/city.c:121 | a character takes one to four UTF-8 bytes, exactly one when it is ASCII |
| Common.Utf8Length | src/lib/city/city.c:121 | the byte count `strlen` gives lies between the character count and four times it, and equals it exactly for ASCII text |
| Common.Utf8LengthAppend | src/lib/qry_handler/qry_handler.c:252 | the byte count of a concatenation is the sum of the parts' counts |
| Common.Utf8LengthExample | src/lib/qry_handler/qry_handler.c:252 | "ação" is four characters and six bytes |
| Stacks.Stack.constructor | src/lib/commons/stack/stack.c:20-31 | a new stack is empty with size 0 |
| Stacks.Stack.Push | src/lib/commons/stack/stack.c:51-73 | the element becomes the new top, the rest is unchanged below it, size grows by one, and true is returned |
| Stacks.Stack.Pop | src/lib/commons/stack/stack.c:75-94 | an empty stack returns NULL and is unchanged; otherwise the top is returned and removed, and size drops by one |
| Stacks.Stack.Peek | src/lib/commons/stack/stack.c:96-109 | returns the top, or NULL when empty, without changing the stack |
| Stacks.Stack.PeekAt | src/lib/commons/stack/stack.c:111-135 | returns the element `index` places below the top (0 is the top) and NULL for a negative or too large index; the walk loop is proved against `Contents` |
| Stacks.Stack.IsEmpty | src/lib/commons/stack/stack.c:137-148 | true exactly when the stack holds no element |
| Stacks.Stack.Size | src/lib/commons/stack/stack.c:150-161 | equals the number of elements |
| Stacks.Stack.Clear | src/lib/commons/stack/stack.c:163-171 | the pop loop leaves an empty, valid and reusable stack |
| Stacks.PushAllThenPopAll | src/lib/commons/stack/stack.c:51-94 | pushing any sequence and then popping everything returns it reversed (LIFO) |
| Queues.Queue.constructor | src/lib/commons/queue/queue.c:21-32 | a new queue is empty with size 0 |
| Queues.Queue.IsEmpty | src/lib/commons/queue/queue.c:125-136 | true exactly when the queue holds no element |
| Queues.Queue.Size | src/lib/commons/queue/queue.c:138-149 | equals the number of elements |
| Queues.Queue.Enqueue | src/lib/commons/queue/queue.c:53-82 | the element is appended at the rear, size grows by one, and true is returned |
| Queues.Queue.Dequeue | src/lib/commons/queue/queue.c:84-109 | an empty queue returns NULL and is unchanged; otherwise the front is returned and removed; the `Valid()` it keeps has front NULL exactly when rear is NULL |
| Queues.Queue.Peek | src/lib/commons/queue/queue.c:111-123 | returns the front, or NULL when empty, without changing the queue |
| Queues.Queue.Clear | src/lib/commons/queue/queue.c:151-159 | the dequeue loop leaves an empty, valid and reusable queue |
| Queues.EnqueueAllThenDequeueAll | src/lib/commons/queue/queue.c:53-109 | enqueuing any sequence and then dequeuing everything returns it in the same order (FIFO) |
| Lists.List.constructor | src/lib/commons/list/list.c:17-29 | a new list is empty with size 0 |
| Lists.List.InsertBack | src/lib/commons/list/list.c:48-77 | appends the element, keeps next/prev mutual inverses with head and tail at the ends, size grows by one, and true is returned |
| Lists.List.InsertFront | src/lib/commons/list/list.c:79-108 | prepends the element, keeps the link invariant, size grows by one |
| Lists.List.Find | src/lib/commons/list/list.c:117-143 | the search loop finds the node of the FIRST element equal to `x`, or NULL exactly when `x` is absent |
| Lists.List.Unlink | src/lib/commons/list/list.c:119-139 | unlinking the k-th node removes exactly the k-th element and keeps the link invariant |
| Lists.List.Remove | src/lib/commons/list/list.c:110-144 | returns true exactly when the element was present; the contents lose its first occurrence and nothing else, and the list is unchanged otherwise |
| Lists.List.Get | src/lib/commons/list/list.c:146-163 | returns the element at `index`, or NULL when the index is negative or at least the size |
| Lists.List.GetFirst | src/lib/commons/list/list.c:165-177 | returns the first element, or NULL on an empty list |
| Lists.List.GetLast | src/lib/commons/list/list.c:179-191 | returns the last element, or NULL on an empty list |
| Lists.List.Size | src/lib/commons/list/list.c:193-200 | equals the number of elements |
| Lists.List.IsEmpty | src/lib/commons/list/list.c:202-209 | true exactly when the list is empty |
| Lists.List.Clear | src/lib/commons/list/list.c:211-228 | leaves an empty, valid and reusable list |
| Lists.RemoveFirstRemovesOne | src/lib/commons/list/list.c:110-144 | removing the first occurrence takes exactly one copy of the element out of the multiset of contents |
| Lists.RemoveFirstAt | src/lib/commons/list/list.c:117-143 | when the first occurrence is at position k, the result is the contents with position k cut out |
| Lists.AppendKeepsLinked | src/lib/commons/list/list.c:61-75 | the tail-append rewiring keeps links mutual inverses and head/tail at the ends |
| Lists.PrependKeepsLinked | src/lib/commons/list/list.c:92-104 | the head-insert rewiring keeps the link invariant |
| Lists.UnlinkKeepsLinked | src/lib/commons/list/list.c:119-134 | bridging prev and next around a node keeps the link invariant for the remaining order |
| Bst.Create | src/lib/commons/bst/bst.c:111-127 | a NULL comparator gives NULL; otherwise a fresh, empty, valid tree with size 0 and that comparator |
| Bst.BST.constructor | src/lib/commons/bst/bst.c:111-127 | the tree starts with no node, root NULL and size 0 |
| Bst.BST.Insert | src/lib/commons/bst/bst.c:129-174 | a new leaf is hung where the descent (left only when compare < 0, so equal keys go right) ends; the returned handle stores the datum, the live nodes grow by exactly that handle, size grows by one, and the parent/child links stay consistent |
| Bst.BST.Transplant | src/lib/commons/bst/bst.c:75-90 | replaces the subtree at `u` by `v` in the parent's child slot (or at the root) and sets `v`'s parent |
| Bst.BST.MinNode | src/lib/commons/bst/bst.c:45-58 | walking left from a node reaches the handle of its subtree's minimum, or NULL for an empty subtree |
| Bst.BST.ReplaceBySuccessor | src/lib/commons/bst/bst.c:193-207 | the two-child case's rewiring produces exactly the successor links |
| Bst.BST.RemoveNode | src/lib/commons/bst/bst.c:176-211 | NULL changes nothing; otherwise the tree becomes the model tree with exactly that node deleted in all three cases, it loses exactly that handle, size drops by one, and the links stay consistent |
| Bst.BST.Remove | src/lib/commons/bst/bst.c:213-237 | returns true exactly when the search path meets a node comparing equal, and deletes that node; otherwise the tree is unchanged |
| Bst.BST.FindMinNode | src/lib/commons/bst/bst.c:244-253 | the leftmost handle, or NULL for an empty tree |
| Bst.BST.FindMin | src/lib/commons/bst/bst.c:239-242 | the datum at the leftmost node, or NULL for an empty tree |
| Bst.BST.NodeData | src/lib/commons/bst/bst.c:255-262 | NULL for a NULL handle; otherwise the datum stored at that node |
| Bst.BST.IsEmpty | src/lib/commons/bst/bst.c:264-271 | true exactly when no node is live |
| Bst.BST.Size | src/lib/commons/bst/bst.c:273-280 | equals the number of live nodes |
| Bst.BST.Clear | src/lib/commons/bst/bst.c:282-291 | leaves an empty tree with size 0 |
| Bst.InsertionPoint | src/lib/commons/bst/bst.c:140-160 | the insert descent ends at a node of the tree, or at the given parent when the tree is empty |
| Bst.Search | src/lib/commons/bst/bst.c:219-234 | a found handle is live and its datum compares equal to the key |
| Bst.MinHandle | src/lib/commons/bst/bst.c:45-58 | the leftmost handle is a node of the tree |
| Bst.MinHasNoLeft | src/lib/commons/bst/bst.c:45-58 | the minimum node has no left child |
| Bst.DeleteAtHandles | src/lib/commons/bst/bst.c:176-211 | deleting a node removes exactly that handle |
| Bst.InsertedHandles | src/lib/commons/bst/bst.c:129-174 | inserting adds exactly the new handle |
| Bst.HungShaped | src/lib/commons/bst/bst.c:146-170 | the arrays after hanging the new node realise the model tree with the node inserted |
| Bst.ChildRealizes | src/lib/commons/bst/bst.c:184-191 | in the one-child cases, transplanting the child realises the tree with the node deleted |
| Bst.SuccessorRealizes | src/lib/commons/bst/bst.c:193-207 | in the two-child case, the successor rewiring realises the tree with the node deleted |
| Bst.InsertedOrdered | src/lib/commons/bst/bst.c:146-170 | with a comparator that orders by a key, insertion keeps the search-tree ordering |
| Bst.DeleteOrdered | src/lib/commons/bst/bst.c:176-211 | deleting any node keeps the search-tree ordering |
| Bst.SearchComplete | src/lib/commons/bst/bst.c:213-237 | on an ordered tree the search finds a node exactly when some live node has an equal key |
| Bst.MinLeast | src/lib/commons/bst/bst.c:239-253 | on an ordered tree the leftmost node holds the least key |
| Bst.MinAfterRemoval | src/lib/commons/bst/bst.c:176-253 | after the minimum of a tree with two or more nodes is deleted, the new leftmost node holds the least remaining key |
| Sorting.CompareInt | src/lib/commons/sorting/sorting.spec.c:13-17 | the ascending integer comparator is negative, zero or positive exactly as a < b, a == b or a > b |
| Sorting.CompareIntDesc | src/lib/commons/sorting/sorting.spec.c:19-23 | the descending comparator is the reverse order |
| Sorting.CompareIntIsOrder | src/lib/commons/sorting/sorting.spec.c:13-23 | both test comparators are asymmetric and transitive |
| Sorting.InsertionSort | src/lib/commons/sorting/sorting.c:33-58 | the range becomes the insertion-sort result of its old contents; every element outside it is unchanged |
| Sorting.InsertKey | src/lib/commons/sorting/sorting.c:46-54 | the shift loop places the key into the sorted prefix exactly as `Inserted` says |
| Sorting.InsertedAt | src/lib/commons/sorting/sorting.c:49 | the key lands after the last element that does not compare greater, so equal elements keep their order |
| Sorting.InsSortPermutes | src/lib/commons/sorting/sorting.c:45-55 | insertion sort is a permutation |
| Sorting.InsSortSorted | src/lib/commons/sorting/sorting.c:45-55 | insertion sort leaves no adjacent pair with compare > 0, for any asymmetric comparator |
| Sorting.Merge | src/lib/commons/sorting/sorting.c:63-106 | `[left..right]` becomes the merge of the two runs, taking from the left on ties; elements outside are unchanged |
| Sorting.MergeRuns | src/lib/commons/sorting/sorting.c:82-91 | the two-sided merge loop writes the merge prefix taken so far |
| Sorting.CopyBack | src/lib/commons/sorting/sorting.c:93-105 | the two tail loops finish the merge |
| Sorting.MergedPermutes | src/lib/commons/sorting/sorting.c:63-106 | the merge is a permutation of both runs together |
| Sorting.MergedSorted | src/lib/commons/sorting/sorting.c:63-106 | merging two sorted runs gives a sorted run whose head is the smaller head |
| Sorting.MergeSortRec | src/lib/commons/sorting/sorting.c:111-133 | the range becomes the merge sort of its old contents; at or below the threshold it is the insertion sort; outside the range nothing changes |
| Sorting.MSortPermutes | src/lib/commons/sorting/sorting.c:111-133 | merge sort is a permutation for every threshold |
| Sorting.MSortSorted | src/lib/commons/sorting/sorting.c:111-133 | merge sort is sorted for every threshold and asymmetric comparator |
| Sorting.EffectiveThreshold | src/lib/commons/sorting/sorting.c:141-143 | a threshold <= 0 becomes 10; a positive one is kept |
| Sorting.SortingMergesort | src/lib/commons/sorting/sorting.c:135-154 | the first `nmemb` elements become the merge sort with the effective threshold; the rest is unchanged |
| Sorting.SortingSort | src/lib/commons/sorting/sorting.c:156-176 | the result is a permutation, sorted for an asymmetric comparator, and for `MergeSort` it is exactly `sorting_mergesort` |
| Sorting.InsSortDecreasing | src/lib/commons/sorting/sorting.spec.c:42-76 | insertion sort of a strictly decreasing input is its reverse |
| Sorting.MergeSortThresholdExample | src/lib/commons/sorting/sorting.spec.c:117-145 | with threshold 5, two decreasing halves of five are each insertion-sorted and then merged |
| Utils.DuplicateString | src/lib/commons/utils/utils.c:9-19 | NULL gives NULL; otherwise a string with the same characters |
| Utils.HexValue | src/lib/commons/utils/utils.c:22-30 | a hex digit of either case maps into 0..15, everything else to -1 |
| Utils.HexDigitValue | src/lib/commons/utils/utils.c:22-30 | every value 0..15 has an uppercase digit that `hex_value` maps back to it |
| Utils.HexValueDigit | src/lib/commons/utils/utils.c:22-30 | re-printing a digit's value gives its uppercase form |
| Utils.HexColorInBytes | src/lib/commons/utils/utils.c:33-50 | every parsed component is in 0..255 |
| Utils.ParseHexColor | src/lib/commons/utils/utils.c:33-50 | status 0 exactly for `#` plus six hex digits, with the parsed colour; otherwise -1 with the outputs untouched |
| Utils.NamedColor | src/lib/commons/utils/utils.c:53-116 | only lowercase names of 3 to 6 letters are recognised (so "Red" is not), with byte components |
| Utils.NamedColorTable | src/lib/commons/utils/utils.c:53-116 | the eleven names map to their listed components, no other name is recognised, and NULL gives none |
| Utils.RecognizedInBytes | src/lib/commons/utils/utils.c:118-144 | a colour `invert_color` recognises, hexadecimal or named, has components in 0..255 |
| Utils.InvertColor | src/lib/commons/utils/utils.c:118-144 | NULL gives NULL, unrecognised input an unchanged copy, and a recognised colour its component-wise 255 complement |
| Utils.InvertedShape | src/lib/commons/utils/utils.c:130-143 | the inverted form of a recognised colour is always `#` and six uppercase hex digits |
| Utils.ParseFormat | src/lib/commons/utils/utils.c:33-50 | parsing the printed form of any byte colour gives the colour back |
| Utils.FormatParse | src/lib/commons/utils/utils.c:33-50 | printing a parsed hex colour gives its uppercase form |
| Utils.InvertTwice | src/lib/commons/utils/utils.c:118-144 | inverting a valid hex colour twice gives its uppercase form |
| Utils.InvertGreen | src/lib/commons/utils/utils.spec.c:142-298 | "green" inverts to "#FF7FFF" |
| Args.OptFormat | src/lib/args_handler/args_handler.c:12-13 | the option key starts with `-`, is at most 63 long, and is `-` plus the whole name whenever the name's UTF-8 bytes fit in the 62 left |
| Args.GetOptionValue | src/lib/args_handler/args_handler.c:11-23 | the loop over argv[1..argc-2] returns the value after the first match, as `ValueAfter` defines it |
| Args.ValueAfterFirst | src/lib/args_handler/args_handler.c:15-22 | a found value follows the first occurrence before the last argument; nothing is found exactly when no such position holds the key |
| Args.RemovePair | src/lib/args_handler/args_handler.c:48-51 | the shift loop cuts the pair at i out of the live prefix |
| Args.StripPairs | src/lib/args_handler/args_handler.c:39-55 | the in-place removal with the `i--` rescan computes `Stripped` |
| Args.GetCommandSuffix | src/lib/args_handler/args_handler.c:28-69 | on a copy of argv (the caller's is untouched): one argument left gives NULL, two give the second, more is the fatal error |
| Args.StrippedKeepsPrefix | src/lib/args_handler/args_handler.c:42-55 | stripping removes an even number of arguments and never touches the program name |
| Args.StripOnceIsNotEnough | src/lib/args_handler/args_handler.c:42-55 | with `-a -b x y`, only `-b x` is removed, and the command stops with "more than one suffix" |
| Args.OptionConsumesSuffix | src/lib/args_handler/args_handler.spec.c:193-204 | an option followed by the would-be suffix consumes it (NULL); a lone trailing option is the suffix |
| Cities.City.constructor | src/lib/city/city.c:20-33 | the three containers are empty and the id counter is 1 |
| Cities.City.AddShape | src/lib/city/city.c:50-56 | the shape is appended to the shape and svg lists and pushed onto the cleanup stack |
| Cities.City.RemoveShape | src/lib/city/city.c:498-515 | returns whether the shape was in the shape list; removes its first occurrence from both lists and never from the cleanup stack; NULL removes nothing |
| Cities.City.GetNextId | src/lib/city/city.c:517-524 | returns the counter and then increments it |
| Cities.IdsIncrease | src/lib/city/city.c:517-524 | two successive ids strictly increase, and each is larger than any id the counter had passed |
| Cities.City.UpdateMaxId | src/lib/city/city.c:568-577 | the counter becomes the larger of itself and id + 1 |
| Cities.City.GetShapeById | src/lib/city/city.c:526-566 | the loop returns the first listed shape with that id, or NULL |
| Cities.FindByIdMeaning | src/lib/city/city.c:526-566 | NULL exactly when no listed shape has the id; otherwise a listed shape with that id |
| Cities.ShapeId | src/lib/city/city.c:540-558 | text styles have no id, so they never match |
| Cities.City.GetBarriers | src/lib/city/city.c:473-496 | a new list of exactly the barrier lines, in shape-list order |
| Cities.SelectMembers | src/lib/city/city.c:473-496 | the filtered handles are exactly the listed ones satisfying the predicate |
| Cities.City.GetBoundingBox | src/lib/city/city.c:58-157 | the min/max fold over the svg list's extents, or (0,0,1000,1000) when nothing contributes |
| Cities.CoverIsTight | src/lib/city/city.c:83-156 | no extent exactly when every shape lacks one; otherwise the box contains every extent and each of its four sides is attained by one |
| Cities.ExtentOrdered | src/lib/city/city.c:91-135 | with a nonnegative radius or size, each extent's lower corner is below its upper corner |
| Cities.TextExtentAnchors | src/lib/city/city.c:116-135 | a text spans 10 per byte of its UTF-8 text (`strlen`) at height y, starting at x for 'i'/'I', centred for 'm'/'M', and ending at x otherwise |
| Cities.TextExtentCountsBytes | src/lib/city/city.c:116-135 | "ação" anchored by 'i' at 0 spans 0 to 60: six bytes, not four characters |
| Query.Orientation | src/lib/qry_handler/qry_handler.c:147-156 | the first character of the orientation token, or 'h' when it is missing |
| Query.CircleSegmentIsDiameter | src/lib/qry_handler/qry_handler.c:175-203 | a circle becomes one segment of length 2r through its centre, vertical for 'v'/'V' and horizontal otherwise |
| Query.RectangleSidesClosed | src/lib/qry_handler/qry_handler.c:205-234 | a rectangle becomes four sides with the given ids; each ends where the next begins, and the last returns to (x,y) |
| Query.TextSegmentPlacement | src/lib/qry_handler/qry_handler.c:244-276 | a text becomes a horizontal segment at y of length 10 times the `strlen` (UTF-8 byte count) of its text, starting at x for 'i'/'I', ending at x for 'f'/'F', centred otherwise |
| Query.TextSegmentMatchesExtent | src/lib/qry_handler/qry_handler.c:244-276 | for the anchors "iImMfF" the segment spans exactly the text's bounding-box extent |
| Query.OtherAnchorsDisagree | src/lib/city/city.c:116-135 | for any other anchor the segment is centred while the bounding box ends at x |
| Query.SegmentsAreBarriers | src/lib/qry_handler/qry_handler.c:175-276 | one segment for a circle or text, four for a rectangle, none otherwise; all barriers with consecutive ids |
| Query.AddedAreBarriers | src/lib/qry_handler/qry_handler.c:165-282 | every segment the command adds is a barrier line, numbered consecutively from the counter |
| Query.RemovedShapes | src/lib/qry_handler/qry_handler.c:165-242 | only listed circles, rectangles and texts with ids in range are removed, each once |
| Query.RemovedAll | src/lib/qry_handler/qry_handler.c:165-242 | every circle, rectangle and text found for an id in range is removed |
| Query.RemovedNoLine | src/lib/qry_handler/qry_handler.c:236-242 | a line is never removed |
| Query.VisitedIsPlanned | src/lib/qry_handler/qry_handler.c:165-282 | the scan over the ids queues exactly the planned removals, allocates exactly the planned segments after the old records, and marks exactly the found lines as barriers |
| Query.VisitId | src/lib/qry_handler/qry_handler.c:165-282 | one id of the scan changes the city as `Visit` says |
| Query.CollectRewrites | src/lib/qry_handler/qry_handler.c:165-282 | the scan loop changes the city as `Visited` says |
| Query.RewriteShape | src/lib/qry_handler/qry_handler.c:175-276 | allocates the shape's barrier segments after the old records, drawing one id per segment |
| Query.RewriteSingle | src/lib/qry_handler/qry_handler.c:175-203 | a circle or text allocates its single segment with the next id |
| Query.RewriteRectangle | src/lib/qry_handler/qry_handler.c:205-234 | a rectangle draws four ids and allocates its four sides |
| Query.DrawIds | src/lib/qry_handler/qry_handler.c:216-218 | the id loop fills the array with consecutive counter values |
| Query.AllocateAll | src/lib/qry_handler/qry_handler.c:226-230 | the segments are marked and allocated in order |
| Query.AllocateBarrier | src/lib/qry_handler/qry_handler.c:196-201 | a segment is allocated with its barrier flag set |
| Query.RemoveAll | src/lib/qry_handler/qry_handler.c:283-288 | the removal loop removes each queued shape's first occurrence from both lists |
| Query.AddAll | src/lib/qry_handler/qry_handler.c:289-293 | the addition loop appends each segment to both lists and pushes it onto the cleanup stack |
| Query.Anteparo | src/lib/qry_handler/qry_handler.c:144-299 | the city ends with the planned removals and additions: the circles, rectangles and texts leave both lists before their barrier segments are appended, lines are only marked |
| Query.TranslatedBack | src/lib/qry_handler/qry_handler.c:630-668 | a clone carries the new id; translating it back by (−dx,−dy) with the old id restores the original (a line's clone is not a barrier) |
| Query.ClonesInOrder | src/lib/qry_handler/qry_handler.c:622-675 | the clones of the selected shapes are their translations, with ids consecutive from the counter |
| Query.CloneAllHeap | src/lib/qry_handler/qry_handler.c:622-675 | the clone loop allocates exactly the clones and draws one id per selected shape |
| Query.CloneAllMeaning | src/lib/qry_handler/qry_handler.c:670-672 | each clone is appended to both lists in order |
| Query.CloneAllCleanup | src/lib/qry_handler/qry_handler.c:670-672 | the clones are pushed onto the cleanup stack, the last one on top |
| Query.CloneOne | src/lib/qry_handler/qry_handler.c:624-675 | one pass of the clone loop changes the city as `CloneInto` says and keeps the old records |
| Query.CloneShapes | src/lib/qry_handler/qry_handler.c:622-675 | the clone loop changes the city as `CloneAll` says |
| Query.SelectReached | src/lib/qry_handler/qry_handler.c:613-620 | the selection loop keeps exactly the listed shapes the region reaches, in order |
| Query.AlongIsOnSegment | src/lib/qry_handler/qry_handler.c:723-738 | every point of the segment satisfies `point_on_segment` |
| Query.PointOnSegmentReversed | src/lib/qry_handler/qry_handler.c:723-738 | the test does not depend on the segment's direction |
| Query.PointInRectCornersAndClone | src/lib/qry_handler/qry_handler.c:794-800 | the closed rectangle contains both corners, and translating a point and a rectangle together keeps inclusion |
| Geometry.CrossExamples | src/lib/visibility/geometry.c:157-167 | the cross product is positive for a left turn, negative for a right turn, and zero for collinear points |
| Geometry.CrossSwap | src/lib/visibility/geometry.c:157-167 | swapping the second and third points negates it; rotating the three points keeps it |
| Geometry.CrossCollinear | src/lib/visibility/geometry.c:157-167 | a point on the line through the first two gives zero |
| Geometry.SegmentsCrossSymmetric | src/lib/visibility/geometry.c:169-187 | the crossing test is symmetric in the two segments and under reversing either |
| Geometry.TouchingDoesNotCross | src/lib/visibility/geometry.c:169-187 | segments are not crossing when any endpoint of either lies on the other's line (a touch, a T-junction, a collinear overlap) |
| Geometry.SharedEndpointDoesNotCross | src/lib/visibility/geometry.c:169-187 | segments that share any endpoint are not crossing |
| Geometry.CrossingParameters | src/lib/visibility/geometry.c:169-187 | crossing segments meet at a point strictly inside both |
| Geometry.CrossingPoint | src/lib/visibility/geometry.c:169-187 | crossing segments share an interior point |
| Geometry.CrossingExamples | src/lib/visibility/geometry.c:169-187 | the diagonals of a square cross; a T-junction does not |
| Geometry.PointInPolygon | src/lib/visibility/geometry.c:109-135 | the crossing-count loop returns the parity that `InPolygon` defines, false for NULL or fewer than 3 vertices |
| Geometry.InPolygonRotate | src/lib/visibility/geometry.c:117-134 | the result is invariant under rotating the vertex list |
| Geometry.SquareExample | src/lib/visibility/visibility.spec.c:91-112 | (5,5) is inside the square (0,0)-(10,10), and (15,5) is outside |
| Geometry.Clamped | src/lib/visibility/geometry.c:195-203 | the projection parameter is clamped into [0,1] |
| Geometry.ClosestPointOnSegment | src/lib/visibility/geometry.c:189-206 | the projected point is the segment point at the clamped parameter |
| Geometry.ClosestPointIsClosest | src/lib/visibility/geometry.c:189-206 | no point of the segment is closer to the query point |
| Geometry.DistanceIsLeast | src/lib/visibility/geometry.c:189-206 | for a monotone `sqrt`, the point-segment distance is at most the distance to any segment point |
| Geometry.RayHitOnBoth | src/lib/visibility/geometry.c:64-107 | a reported hit has t >= 0, and a parameter u in [0,1] puts the ray point at t on the segment |
| Geometry.RaySolve | src/lib/visibility/geometry.c:85-94 | Cramer's rule on the 2x2 system gives the meeting point |
| Visibility.PushedMeaning | src/lib/visibility/visibility.c:64-78 | earlier vertices are kept; the point is dropped exactly when both coordinates are within 1e-9 of the last vertex, and appended otherwise |
| Visibility.GrownDoubling | src/lib/visibility/visibility.c:54-62 | growth goes from 0 to 16 and then doubles, so the capacity is always 16·2^k |
| Visibility.Polygon.constructor | src/lib/visibility/visibility.c:211-216 | a new polygon has no vertex and no buffer |
| Visibility.Polygon.AddVertex | src/lib/visibility/visibility.c:50-79 | the vertices become `Pushed` of the old ones; a full buffer grows first, even when the point is then dropped; count <= capacity stays |
| Visibility.Polygon.Grow | src/lib/visibility/visibility.c:54-62 | growing keeps the vertices and leaves room for one more |
| Visibility.PushVertex | src/lib/visibility/visibility.c:50-53 | NULL is a no-op; otherwise `add_vertex` |
| Visibility.VertexCount | src/lib/visibility/visibility.c:506-510 | 0 for a NULL polygon |
| Visibility.Vertices | src/lib/visibility/visibility.c:500-504 | NULL for a NULL polygon or an unallocated buffer; otherwise the vertices |
| Visibility.ContainsPoint | src/lib/visibility/visibility.c:512-518 | false for NULL; otherwise `point_in_polygon` on the vertices, and false with fewer than 3 vertices |
| Visibility.BarrierLines | src/lib/visibility/visibility.c:286-302 | the working lines are barrier lines from the input |
| Visibility.BarrierLinesComplete | src/lib/visibility/visibility.c:286-302 | every barrier line in the input is used |
| Visibility.ComputeBounds | src/lib/visibility/visibility.c:225-253 | the min/max loop starting at the source computes `BoundsOf` |
| Visibility.BoundsEnclose | src/lib/visibility/visibility.c:225-253 | the bounds contain the source and every barrier endpoint |
| Visibility.BoundsAttained | src/lib/visibility/visibility.c:225-253 | each bound is the source or some barrier endpoint |
| Visibility.BoxSegments | src/lib/visibility/visibility.c:272-283 | four box edges, in corner order |
| Visibility.BoxIsClosed | src/lib/visibility/visibility.c:272-283 | edge i ends where edge i+1 begins; the ids are −1..−4 and distinct |
| Visibility.BoxSurrounds | src/lib/visibility/visibility.c:256-270 | the box is the bounds widened by 50, so every enclosed point is at least 50 inside |
| Visibility.AppendBarriers | src/lib/visibility/visibility.c:286-302 | the barrier lines follow the box edges, in list order |
| Visibility.SplitAtZero | src/lib/visibility/visibility.c:304-326 | each segment is replaced by its first piece, and the second pieces follow in order |
| Visibility.SplitJoins | src/lib/visibility/visibility.c:308-323 | a split segment becomes two pieces with the same id joined at the crossing point of y = source.y, strictly inside the segment |
| Visibility.NothingCrossesAfterSplit | src/lib/visibility/visibility.c:304-326 | no piece crosses the angle-0 ray strictly |
| Visibility.SplitAtMostOnce | src/lib/visibility/visibility.c:304-326 | each original splits at most once; without straddling segments nothing is added |
| Visibility.MakeEvents | src/lib/visibility/visibility.c:328-363 | each segment is oriented, and gives exactly a START event at its first point and an END event at its second |
| Visibility.OrientedMeaning | src/lib/visibility/visibility.c:334-349 | orienting keeps the id and the endpoints, with the smaller angle first |
| Visibility.NormalizedRange | src/lib/visibility/visibility.c:334-340 | a normalised atan2 angle lies in [0, 2π) |
| Visibility.CompareVertices | src/lib/visibility/visibility.c:150-166 | the result is −1, 0 or 1 |
| Visibility.CompareVerticesAntisymmetric | src/lib/visibility/visibility.c:150-166 | swapping arguments negates the result, and an event equals itself |
| Visibility.StartBeforeEnd | src/lib/visibility/visibility.c:150-166 | a segment's START sorts before its END |
| Visibility.CompareVerticesNotTransitive | src/lib/visibility/visibility.c:150-166 | three events 6e-10 apart in angle: neighbours compare equal, the ends do not |
| Visibility.RayDistanceOnBoth | src/lib/visibility/visibility.c:111-131 | a finite ray distance is a ray parameter whose point lies on the segment, up to the tolerance |
| Visibility.CompareSegments | src/lib/visibility/visibility.c:133-148 | 0 exactly for the same segment; otherwise −1 or 1 |
| Visibility.CompareSegmentsAntisymmetric | src/lib/visibility/visibility.c:133-148 | antisymmetric for distinct ids or clearly different distances |
| Visibility.CompareSegmentsNotAntisymmetric | src/lib/visibility/visibility.c:133-148 | two copies of a segment compare 1 in both orders |
| Visibility.Collected | src/lib/visibility/visibility.c:272-302 | four box edges plus one segment per barrier line |
| Visibility.CollectedShape | src/lib/visibility/visibility.c:272-326 | the working set starts with the closed box, and no piece crosses the angle-0 ray |
| Visibility.Prepare | src/lib/visibility/visibility.c:203-365 | NULL barriers give NULL; otherwise the oriented split segments with their two events each |
| Visibility.HandledMember | src/lib/visibility/visibility.c:367-376 | a helper is set exactly when its segment is in the handled set |
| Visibility.HandledIsInTree | src/lib/visibility/visibility.c:367-474 | the segments with a helper are exactly the data of the tree's live nodes |
| Visibility.TrackedInsert | src/lib/visibility/visibility.c:432-434 | inserting a segment and storing the handle keeps the helper/tree correspondence |
| Visibility.TrackedRemove | src/lib/visibility/visibility.c:444-447 | removing the node and clearing the helper keeps the correspondence |
| Visibility.Sweep.constructor | src/lib/visibility/visibility.c:367-368 | an empty tree with the comparator, and no helper set |
| Visibility.Sweep.Enter | src/lib/visibility/visibility.c:432-434 | START inserts only when the helper is NULL; afterwards the helper is set and the others are unchanged |
| Visibility.Sweep.Leave | src/lib/visibility/visibility.c:444-447 | END removes the node and clears the helper; the others are unchanged |
| Visibility.Sweep.Seed | src/lib/visibility/visibility.c:370-376 | the seeding loop sets the helper exactly for the segments hit by the seed ray |
| Visibility.Sweep.Process | src/lib/visibility/visibility.c:389-474 | after the events, a helper is set exactly for the segments `Replay` leaves active |
| Visibility.ReplayMeaning | src/lib/visibility/visibility.c:389-474 | a segment is active after the events exactly when its last event was START, or it had none and was seeded |
| Visibility.ReplayDrains | src/lib/visibility/visibility.c:389-474 | when every segment's last event is END, no segment stays in the tree |
| Visibility.Bookkeeping | src/lib/visibility/visibility.c:367-474 | the tree, seeding and event loop leave a helper set exactly for the segments active after seeding and replaying the sorted events |

## Left out

- Memory management. `malloc`, `free`, the `destroy` functions and every allocation-failure path are not modelled: each method succeeds, and its `ok` result is always true. This includes the `realloc` and `geometry_point_create` failures in `add_vertex`.
- NULL receivers of container operations. A NULL stack, queue, list, tree or city is outside the classes. The NULL arguments the model does keep are NULL data, NULL shapes and handles, the NULL comparator in `bst_create`, and the NULL polygon and NULL barriers in visibility.
- Integer width. `int` and `size_t` are unbounded. The capacity doubling in `add_vertex` and the id counter do not wrap.
- Floating point. `double` is modelled as exact `real`, so rounding and `DBL_MAX` behaviour are not captured. `DBL_MAX` as the starting bound of `city_get_bounding_box` is replaced by an explicit "no extent yet" case, with the same result.
- Transcendental maths. `atan2`, `sqrt`, `cos` and `sin` are parameters. `geometry_calculate_angle` and `geometry_distance` are therefore applications of those parameters.
- `geometry_compare_angles` is not modelled. Nothing in the modelled code calls it.
- The sweep's geometric decisions and the vertex emission in `visibility_calculate` (visibility.c:378-474) are not modelled: `is_in_front`, `find_closest`, `ray_segment_intersect` and the closest-segment bookkeeping. Only the active-tree handle bookkeeping is modelled, so nothing is proved about occlusion or the resulting polygon.
- `max_radius` is not mentioned by any contract, because `visibility_calculate` never reads it.
- The sort of the events. C `qsort` over `compare_vertices` is a library call. `Visibility.Bookkeeping` takes the sorted events as a parameter.
- Visibility.Bookkeeping: the active tree's comparator is fixed at angle 0. The C code changes the comparator's context angle at each event, but membership and handles do not depend on the comparator.
- Mutation of the segments array. `visibility_calculate` grows the segments array with `realloc` and swaps endpoints in place; here the working segments are values in a `seq`.
- Barriers passed to `visibility_calculate` are a `seq<Option<Shape>>` rather than a `List`. Shapes other than barrier lines are skipped, whereas the C code casts every list element to a line.
- The `qsort` branch of `sorting_sort` is a library call. Sorting.SortingSort models it by the merge sort and promises only a sorted permutation for it.
- Sorting.InsertedAt states where equal keys are inserted; stability of the whole sort is not stated as a separate theorem.
- Geometry.ClosestPointIsClosest: requires the squared length to be nonzero or the endpoints to coincide. Every pair of real points meets this, since a sum of two squares is zero only when both are, but the model states it rather than deriving it from the nonlinear arithmetic.
- Geometry.DistanceIsLeast: has the same requirement, and assumes a monotone `sqrt`.
- `line_is_barrier` and `line_set_barrier` are called (city.c:489, visibility.c:232, qry_handler.c:200) but defined in neither line.c nor line.h. The model reads and sets the `barrier` field of `Shapes.Shape.Line` in their place.
- Args.OptFormat: a key longer than the buffer is cut after 63 characters, where `snprintf` cuts after 63 bytes. The two agree on ASCII names; a byte cut inside a multi-byte character has no counterpart in a string of characters.
- `bst_foreach` is declared but has no body in the source, so it is not modelled.
- The call at qry_handler.c:332 passes 10 arguments to `visibility_calculate`, while visibility.h declares 4. The model follows the 4-argument definition in visibility.c.
- The visibility test at visibility.spec.c:146 expects at least 32 vertices with no barriers. The code produces a box-shaped region, so the model follows the code.
- Output and text parsing are not modelled: SVG and report writing, every `printf`/`fprintf`, `strtok`/`atoi`/`atof` command dispatch, file reading, `geo_handler.c` and `main.c`.
- The bomb commands' visibility tests (`is_circle_visible`, `is_rectangle_visible`, `is_segment_visible`) are not modelled. They need the polygon the sweep would emit. The reached-shape predicate is a parameter of Query.SelectReached.
- Bst.BST.Insert: the NULL-data case (NULL result, tree unchanged) is not modelled, because the element type has no NULL; the same holds for Bst.BST.Remove.
- The trivial shape records (circle.c, rectangle.c, line.c, text.c, text_style.c, shapes.c) are folded into the `Shapes.Shape` datatype. The test framework is not modelled.
