# Sorted doubly linked list of strings

A model of the list engine of `doubly_linked_list.c`. The engine is a
sorted, duplicate-free, doubly linked list of strings with these operations:

- Insert places a string in alphabetical position.
- Member tests whether a string is present.
- Delete unlinks a string.
- ReverseMyList reverses the list.
- Free_list releases every node.
- Print walks the list forward.

The model is imperative, as the C code is:

- `struct list_node_s` becomes the class `Node`.
- `struct list_s` becomes the class `List`, with its `head` (`h_p`) and `tail` (`t_p`) fields.
- Each operation is a method with the same loop and the same case split, updating `prev`/`next` in place.

A ghost field `nodes` lists the nodes in the order a forward walk visits them. Three predicates tie the real pointers to it:

- `ForwardChain`: `head` starts the walk and the `next` links run through `nodes` to null.
- `Linked`: also `tail` is the last node and the `prev` links agree.
- `Valid`: also the strings are strictly ascending under `strcmp`.

`Contents()` is what Print prints.

The methods are proved against value-level specification functions in `ListSpec`:

- `InsertSorted` is the scan of Insert over a sequence.
- `Remove` drops the first equal element.
- `Reversed` reads a sequence backwards.

Lemmas about these functions give the properties the source promises:

- The result stays ascending.
- Membership changes exactly by the inserted or deleted string.
- Inserting a string twice is inserting it once.
- Insert and Delete undo each other.

`strcmp` (section 7.24.4.2 of ISO/IEC 9899:2011) is modelled in `CString` as the sign of the comparison. Its order is proved to be the standard's lexicographic one, with a proper prefix comparing less, and to be antisymmetric, total and transitive.

Files:

- `cstring.dfy`: module `CString`, which models `strcmp`.
- `listspec.dfy`: module `ListSpec`, the value-level specification.
- `doublylinkedlist.dfy`: module `DoublyLinkedList`, the classes and the operations.
- `findings.dfy`: module `Findings`, command sequences that show the two defects below.

`Free_list` (lines 297-311) never resets `h_p` or `t_p`, so `FreeList` does not either; `Clear` is the corrected variant that does.

## Model

| member | source | states |
|---|---|---|
| CString.Strcmp | doubly_linked_list.c:168-177 | the comparison Insert makes: its sign is -1, 0 or 1, and it is 0 exactly when the two strings are equal |
| CString.StrcmpAntisymmetric | doubly_linked_list.c:262 | swapping the arguments flips the sign: Delete's `strcmp(string, data)` and Insert's `strcmp(data, string)` decide the same order |
| CString.LessTotal | doubly_linked_list.c:168-177 | of two different strings exactly one sorts before the other, so the scan either meets an equal string or a greater one |
| CString.LessTransitive | doubly_linked_list.c:168-177 | the strcmp order is transitive, so a list sorted pairwise is sorted throughout |
| CString.LessIsLexLess | doubly_linked_list.c:168-177 | sorting before means: being a proper prefix, or having the smaller character at the first position where the strings differ |
| CString.ProperPrefixIsLess | doubly_linked_list.c:173 | a proper prefix compares less than the longer string |
| ListSpec.InsertSorted | doubly_linked_list.c:166-193 | the contents after Insert's scan: a list starting with an equal string is unchanged, `s` goes before the first string that compares greater, or at the end; its meaning is stated by InsertSortedAt, InsertSortedFound and InsertSortedProperties |
| ListSpec.Remove | doubly_linked_list.c:261-286 | the contents after Delete's scan: the first string equal to `s` is dropped and the others keep their order; its meaning is stated by RemoveAt, RemoveAbsent and RemoveProperties |
| ListSpec.Reversed | doubly_linked_list.c:122-140 | the reversed sequence has the same length and element k is element length-1-k of the original |
| ListSpec.ReversedTwice | doubly_linked_list.c:122-140 | reversing twice gives back the original sequence |
| ListSpec.ReversedNotAscending | doubly_linked_list.c:122-140 | reversing an ascending list of two or more strings leaves it not ascending, so after the `r` command the list no longer meets Insert's ordering assumption |
| ListSpec.AscendingPairs | doubly_linked_list.c:151-195 | in a sorted list every earlier string sorts before every later one |
| ListSpec.AscendingDistinct | doubly_linked_list.c:252-253 | a sorted list holds each string at most once, so Delete removes at most one node |
| ListSpec.LessThanFirst | doubly_linked_list.c:180-183 | a string sorts before the first element exactly when it sorts before every element, which is when Insert makes it the new head |
| ListSpec.GreaterThanLast | doubly_linked_list.c:184-187 | a string sorts after the last element exactly when it sorts after every element, which is when Insert makes it the new tail |
| ListSpec.LastNotBefore | doubly_linked_list.c:173-174 | once the scan meets an element that does not sort before the string, the last element does not either |
| ListSpec.InsertSortedAt | doubly_linked_list.c:166-193 | when the first k strings sort before s and string k (if any) after it, inserting puts s exactly at position k |
| ListSpec.InsertSortedFound | doubly_linked_list.c:169-171 | when the scan meets a string equal to s, the contents are left as they were |
| ListSpec.InsertSortedMeets | doubly_linked_list.c:169-171 | at an equal string nothing changes, and s sorts neither before the head nor after the tail, so neither end moves |
| ListSpec.InsertSortedSplit | doubly_linked_list.c:173-193 | where the scan stops at a greater string or the end, s is new, goes in at that index, and the result is ascending; the index is 0 exactly when s sorts before the head and the length exactly when s sorts after the tail |
| ListSpec.InsertSortedProperties | doubly_linked_list.c:151-195 | inserting into a sorted list keeps it sorted, the members are the old ones plus s, a present s changes nothing, and an absent s makes it one longer |
| ListSpec.InsertSortedIdempotent | doubly_linked_list.c:169-171 | inserting a string a second time changes nothing |
| ListSpec.RemoveAt | doubly_linked_list.c:261-267 | deleting removes exactly the first element equal to s, and the others keep their order |
| ListSpec.RemoveAbsent | doubly_linked_list.c:270-271 | deleting an absent string changes nothing |
| ListSpec.RemoveSplit | doubly_linked_list.c:261-286 | where the scan of Delete stops, that element goes, the rest stay ascending, and it is the head or the tail exactly when s is |
| ListSpec.RemoveProperties | doubly_linked_list.c:257-290 | deleting from a sorted list keeps it sorted, the members are the old ones without s, and the length drops by one exactly when s was present |
| ListSpec.RemoveInsertSorted | doubly_linked_list.c:257-290 | inserting an absent string and then deleting it restores the list |
| ListSpec.InsertSortedRemove | doubly_linked_list.c:257-290 | deleting a present string from a sorted list and inserting it again restores the list |
| DoublyLinkedList.NextLinkedDistinct | doubly_linked_list.c:207-210 | a chain of `next` links that ends in null visits no node twice, so every forward walk terminates |
| DoublyLinkedList.NextLinkedUnique | doubly_linked_list.c:207-210 | each node of a chain occurs at one position only |
| DoublyLinkedList.SpliceNextLinked | doubly_linked_list.c:180-193 | after the new node and its predecessor are pointed forward, the `next` links run through the longer chain |
| DoublyLinkedList.SplicePrevLinked | doubly_linked_list.c:180-193 | after the new node and its successor are pointed back, the `prev` links run through the longer chain |
| DoublyLinkedList.CutNextLinked | doubly_linked_list.c:274-286 | once the predecessor points past the removed node, the `next` links run through the shorter chain |
| DoublyLinkedList.CutPrevLinked | doubly_linked_list.c:274-286 | once the successor points back past the removed node, the `prev` links run through the shorter chain |
| DoublyLinkedList.ReversedNextLinked | doubly_linked_list.c:129-139 | nodes whose `next` each point at the node before them form, read backwards, a chain ending in null |
| DoublyLinkedList.ReversedPrevLinked | doubly_linked_list.c:129-139 | nodes whose `prev` each point at the node after them have, read backwards, consistent `prev` links |
| DoublyLinkedList.Node.constructor | doubly_linked_list.c:154-157 | a new node holds a copy of the string and both links are null |
| DoublyLinkedList.List.constructor | doubly_linked_list.c:58 | the empty list has null head and tail, is valid, and has no contents |
| DoublyLinkedList.List.Insert | doubly_linked_list.c:151-195 | keeps the list valid and sets the contents to the sorted insertion of s. A present s leaves the list object and every node untouched. An absent s adds exactly one fresh node at one position. An empty list gets a sole node with null links as both head and tail. The head changes exactly when s sorts before the old head, the tail exactly when s sorts after the old tail |
| DoublyLinkedList.List.Link | doubly_linked_list.c:180-193 | the three linking cases put the node at index i of the chain with links in both directions consistent; the head moves only at index 0 and the tail only at the end |
| DoublyLinkedList.List.Member | doubly_linked_list.c:222-233 | returns 1 exactly when some node holds s and 0 exactly when none does, changing nothing |
| DoublyLinkedList.List.Traverse | doubly_linked_list.c:203-210 | the forward walk from the head visits exactly the strings of the chain, in order |
| DoublyLinkedList.List.Delete | doubly_linked_list.c:257-290 | keeps the list valid and removes s from the contents. An absent s, including on an empty list, leaves the list object and every node untouched. A present s removes exactly its node, leaving the other nodes in order. The head advances exactly when the head held s, and the tail retreats exactly when the tail held s |
| DoublyLinkedList.List.Unlink | doubly_linked_list.c:274-286 | the four unlinking cases (sole node, head, tail, interior) remove the node at index i with links in both directions consistent; the head moves only at index 0 and the tail only at the end |
| DoublyLinkedList.List.ReverseMyList | doubly_linked_list.c:122-140 | as written: the forward chain is the old one reversed and the contents read backwards, but the tail and every `prev` keep their old values; a consistent list of two or more nodes is inconsistent afterwards and its new last node has a null `prev` |
| DoublyLinkedList.List.Reverse | doubly_linked_list.c:122-140 | corrected: swapping `prev` and `next` on every node and then head and tail keeps the links consistent, and the chain and contents read backwards |
| DoublyLinkedList.List.FreeList | doubly_linked_list.c:297-311 | as written: the walk releases every node of the chain, in order, and the head still names the first released node |
| DoublyLinkedList.List.Clear | doubly_linked_list.c:297-311 | corrected: releases every node and leaves a valid, empty list with null head and tail |
| Findings.ReverseThenDelete | doubly_linked_list.c:280-282 | after inserting "a" and "b" and reversing, the last node of the chain, the head's successor, holds "a" and has a null `prev`, and the tail is some other node, so Delete of "a" would store through a null tail |
| Findings.ReverseThenDeleteCorrected | doubly_linked_list.c:280-282 | with the corrected reversal the same sequence leaves the node holding "a" as the tail with a non-null `prev` |
| Findings.FreeThenPrint | doubly_linked_list.c:297-311 | after inserting "a" and freeing the list, the head still names the released node |
| Findings.FreeThenPrintCorrected | doubly_linked_list.c:297-311 | with Clear the same sequence leaves an empty list with a null head |

## Left out

- The interactive driver is not modelled: `main`'s command loop (lines 52-102), `Get_command` and `Get_string` (console input) and the `STRING_MAX` input buffer bound. Operations are called directly with their arguments.
- Printed output is not modelled: the `printf` calls of `Print` and `Print_node` and the messages of the driver. `Traverse` keeps only `Print`'s walk, as the sequence of strings it would print.
- Allocation and release are modelled in Dafny's own terms. `Allocate_node` plus `strcpy` becomes `new Node(s)`. A `free` has no Dafny counterpart, so the free walk returns the nodes it releases.
- Also not modelled: the missing null check after `malloc`, the over-sized `size + 1` buffer, and the leak of the string buffer when Insert frees a duplicate node (line 170).
- `Node.data` is a constant field, because no operation writes a node's string after it is copied in.
- Strings are taken to be free of NUL characters, as the words `scanf("%s")` reads are; on a string holding one, `Strcmp` compares past it where C would stop.
- Strings are character sequences without the terminating null; the end of the sequence plays its part.
- Characters compare by their codes. These are never negative, which is how `strcmp` compares (as `unsigned char`).
- Only the sign of `strcmp` is modelled, because the callers use only its sign.
- Insert and Delete are modelled on a list satisfying the full invariant (consistent links, strictly ascending strings). The source relies on this: it relies on sorted order for the insertion point and on uniqueness for single deletion. What the C code does when called on a reversed list is not modelled. `ReversedNotAscending` shows that a reversal of two or more strings breaks that invariant.
- The linking cases of Insert and the unlinking cases of Delete run in the helper methods `Link` and `Unlink`, which hold the same statements in the same order as the C code.
- ReverseMyList's comment assumes at least three elements. The model places no such bound and proves the loop correct for any length.

## Findings

| source | as written | input that shows it | evidently intended | confidence | as-written member | corrected member |
|---|---|---|---|---|---|---|
| doubly_linked_list.c:122-140 | ReverseMyList redirects only each node's `next` and the head; every `prev` and the tail keep their old values | commands `i a`, `i b`, `r`, `d a`: the node holding "a" is now last but its `prev` is null, so Delete's tail case (lines 281-282) sets the tail to null and writes through it | reverse both link directions: swap `prev` and `next` on every node, then swap head and tail | not executed | Findings.ReverseThenDelete | DoublyLinkedList.List.Reverse |
| doubly_linked_list.c:297-311 | Free_list releases every node but leaves the head and tail pointing at released storage | commands `i a`, `f`, `p`: Print walks from the released node; `q` after `f` makes `main` free the same nodes again | reset head and tail to null after releasing the nodes | not executed | Findings.FreeThenPrint | DoublyLinkedList.List.Clear |
