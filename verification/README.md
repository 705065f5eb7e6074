# libsrt: verified model of its containers and codecs

A Dafny model of the index-based data structures and the in-place codecs of libsrt, a C library of containers that live in
one block of memory. Code that works in place is modelled by classes and methods over arrays and sequences of cells, each
proved against a function on plain values; what the library promises is proved about those functions.

* **Red-black tree in one array of nodes** (`src/saux/stree.c`). `RbModel` has trees and the context around a position;
  `RbInsert` and `RbDelete` are the top-down walks as functions on (context, subtree) and what they do to keys, slots,
  colours and black heights (`RbDeleteColours`, `RbDeleteRedRed`); `TreeArray`, `InsertSteps` and `DeleteSteps` relate
  trees to the node array and to the rotating four-entry window with its stale entries; `STree` is the code in place.
  `TreeReading` is about which tree an array holds, if any. `TreeMap` and `TreeRun` compare whole runs with a finite map.
  `Unbalanced`, `Onward`, `LostKey`, `TooHigh` and `Astray` follow runs that go wrong tree by tree (`RunSteps`).
  `RbHeight` and `SMap` are the height bound and the range scan with an explicit stack (`src/smap.h`).
* **Hash map without tombstones** (`src/shmap.c`). `HashTable` says what the counted buckets mean, `HashGrowth` is about
  sizes and the block move on growth, `SHMap` is the map in place and whole runs against a finite map. The hash function
  is arbitrary.
* **LZ77 codec** (`src/saux/senc.c`, `src/saux/scommon.c`): `Varint`, `RecCopy`, `LzFormat`, `Lz`; `LzPlan`
  says which references are stored.
* **Checksums and search** (`src/saux/shash.c`, `src/saux/ssearch.c`): `Crc32`, `Adler32`,
  `Search`; `Crc32Division` is about division of polynomials.
* **Encoders that run backwards** (`src/saux/senc.c`): `Escapes`, `Base64`.
* `Bits` has the integer logarithms; `Sequences` and `Wrappers` are helpers.

Where the code does not do what one would expect, the model follows the code:

* An insertion that finds its key present can leave the root's bit red (`src/saux/stree.c:366-375`). Later insertions cope
  with that. A deletion does so exactly when the shape `Bad` is not met: root bit red, the walk going to a black son
  without red sons, and the other son red. `RbDeleteColours.DeleteStrictIffNotBad` is the equivalence, for all trees and
  keys, and `Unbalanced.UnbalancedRun` is a run of public operations that meets it.
* In a tree that is no longer balanced a deletion can end on a root that holds the key. The code then relinks only the
  auxiliary node above the root, and `t->root` keeps naming the slot given up (`src/saux/stree.c:524-530`), so keys get
  lost. `LosesKeys` is the exact condition (`RootOnly`, which can be read off the root and its sons, and more than one
  node). `STree.Tree32.Delete` proves both directions for every search tree, and `LostKey.LosingRun` is a run that gets
  there. The condition can be checked before the call (`WouldLose`).
* A deletion in an unbalanced tree can leave a red-red edge (`RbDeleteRedRed.DeleteNoRedIffNoClash`). An insertion can then
  rotate twice in a row, the second time with a great-grandfather that the first has turned below the grandfather
  (`src/saux/stree.c:357-362`), and make a cycle. `InsertsSteadily` is the exact condition, `STree.Tree32.InsertRw` proves
  both directions, and `Astray.AstrayRun` is a run whose deletions lose nothing and that gets there. Trees without red-red
  edges are safe from that.
* The stack of a range scan is allocated for a red-black tree (`src/smap.h:726-728`), and outside debug builds nothing
  checks its end. A tree that is no longer balanced can be higher. `SMap.Itr` says exactly when the scan leaves its stack,
  and `TooHigh.HighRun` is a run that ends with such a tree.
* Up to the first such operation nothing is lost: `TreeRun.Simulate` proves map agreement for every run, past any number
  of `Bad` deletions, and that a run without a harmful operation is the same as a `Sound` one.
* The fast search hands over to the slow one at the end of the current window (`src/saux/ssearch.c:40-42`), so it can step
  over an occurrence that straddles that place. `Search.FindCsumFast` states the exact condition, and
  `Search.FastSearchMisses` is an input that fails.
* The validation of a tree notices sons out of order only when both are (`src/saux/stree.c:206-207`); `AssertAux` says
  so.
* The comment above the compressor announces 1.125 times the input size; the code announces, and needs, up to 2.25 times
  (`src/saux/senc.c:697-700`). The bound proved is 2 ss + 9 bytes.
* The rounded-up logarithm of one is 1, not 0 (`src/saux/scommon.c:177-182`).

The standards behind the codecs: section 8 of RFC 1952 (CRC-32), section 8.2 of RFC 1950 (Adler-32), sections 4 and 8 of
RFC 4648 (base64, hexadecimal), sections 2.1 and 2.3 of RFC 3986 (percent encoding), section 2.5 of RFC 4627 (JSON
strings), section 4.6 of XML 1.0 (predefined entities).

## Model

| member | source | states |
|---|---|---|
| STree.Tree32.Rot1x | src/saux/stree.c:135-165 | the four writes of a single rotation give exactly the rotated, recoloured array, and the new top |
| STree.Tree32.Rot2x | src/saux/stree.c:167-174 | two single rotations give the double rotation |
| STree.Tree32.FixDoubleRed | src/saux/stree.c:348-365 | a red node under a red father becomes the rotated tree, linked from above; linked from a stale window entry, whatever tree the array still holds lacks at least two nodes |
| STree.Tree32.FlipSons | src/saux/stree.c:343-346 | two red sons become a red father with black sons, in place |
| STree.Tree32.Attach | src/saux/stree.c:326-342 | the new leaf hangs below the last node of the walk, and the root is black |
| STree.Tree32.InsertLoop | src/saux/stree.c:308-383 | in any search tree the loop over the four-entry window terminates and leaves the tree that the walk on trees yields, or comes to a rotation with a stale great-grandfather, which it does exactly when the walk on trees is not steady |
| STree.Tree32.InsertRw | src/saux/stree.c:274-385 | insertion or update in place, in any search tree, balanced or not: the array goes on to hold the map with the new data from the callback if and only if the walk is steady (no rotation uses a stale window entry), and otherwise neither the new entries nor the old ones; the balance invariant and the absence of red-red edges are kept; refused only at capacity |
| InsertSteps.StaleBreaks | src/saux/stree.c:348-365 | linking a rotated subtree from a stale window entry makes a cycle, or leaves only the old grandfather and what is below it reachable |
| STree.Tree32.PushDown | src/saux/stree.c:448-499 | one step of pushing a red node down, for all six branches, with the window entries it leaves |
| STree.Tree32.PushByRotation | src/saux/stree.c:455-465 | the branch that rotates the red other son above the current node |
| STree.Tree32.PushFromBrother | src/saux/stree.c:482-498 | the branch that brings red over from the sons of the brother by rotations and colouring |
| STree.Tree32.TurnFather | src/saux/stree.c:480-493 | the branch that rotates the father, single or double, and relinks it |
| STree.Tree32.ColourTurned | src/saux/stree.c:494-497 | colours after that rotation |
| STree.Tree32.DeleteLoop | src/saux/stree.c:428-510 | the deletion walk ends at the node the walk on trees ends at, with its father and the found node in the window |
| STree.Tree32.TakeOut | src/saux/stree.c:519-531 | key and data of the last node move to the found node, and the last node is unlinked; when it is the root the array stays as it is |
| STree.Tree32.LocateParent | src/saux/stree.c:73-87 | the search by key finds the true father of the node in the last slot, and the side, after the unlink |
| STree.Tree32.MoveLast | src/saux/stree.c:540-560 | the last slot moves to the freed slot: the exact cells left, whatever that slot is, and the same tree with that slot renamed when it is free |
| STree.Tree32.Delete | src/saux/stree.c:387-567 | deletion in place, in any search tree, balanced or not: the array holds the map without the key if and only if not (a root alone holds the key and there are more nodes); then also search order and slots 0 to size - 1; the answer is right in any case; a valid tree is valid again exactly when the bad shape is not met |
| STree.Tree32.WouldLose | src/saux/stree.c:524-531 | whether a deletion would lose keys, read off the root and its right son before the call |
| STree.Tree32.Locate | src/saux/stree.c:569-579 | on a non-empty tree the lookup agrees with the map |
| STree.Tree32.AssertAux | src/saux/stree.c:193-225 | the validation walk is non-zero exactly for no red-red edge, equal black heights and no node with both sons swapped; then it is the black height plus one |
| STree.Tree32.Assert | src/saux/stree.c:761-767 | on a search tree the validation accepts exactly the red-black trees (root of either colour unless it is alone) |
| TreeRun.Simulate | src/saux/stree.c:269-579 | every run on a new tree, up to its first harmful operation: array, answers and lookups are those of a finite map, balanced or not; that operation, if there is one, leaves an array that does not hold the entries of the map; there is none if and only if the run is sound; a safe run (no deletion meets `Bad`) keeps the tree valid |
| RbInsert.StepDecreases | src/saux/stree.c:325-383 | the walk terminates although a double rotation puts it back above a node it has left |
| RbInsert.InsertKeepsNoRed | src/saux/stree.c:348-382 | in a tree without red-red edges, balanced or not, no rotation uses a stale window entry, and no red-red edge is left |
| RbInsert.InsertPuts | src/saux/stree.c:274-385 | in-order sequence after insertion is the old one with the entry put in its place |
| RbInsert.PutPresent | src/saux/stree.c:368-375 | a present key: only the data of that entry changes, keys and slots stay |
| RbInsert.PutAbsent | src/saux/stree.c:326-342 | an absent key: one entry more, in slot `size`, at the rank of its key |
| RbInsert.InsertKeepsRedBlack | src/saux/stree.c:274-385 | red-black with the root counted as black is kept; for an absent key the result is red-black with a black root |
| RbInsert.InsertCompact | src/saux/stree.c:330-340 | slots 0 to size - 1 stay used exactly once |
| RbDelete.DeleteWalkReading | src/saux/stree.c:448-510 | the rotations and flips of the walk change neither keys nor data nor their order |
| RbDelete.DeleteRemoves | src/saux/stree.c:387-567 | keys and data after deletion are the old ones without the key, in order, unless a root alone holds the key and there are more nodes |
| RbDelete.DeleteCompact | src/saux/stree.c:532-562 | after moving the last slot, slots 0 to size - 1 are used exactly once, with the same exception |
| RbDeleteColours.DeleteWalkColours | src/saux/stree.c:448-499 | invariant of the walk: what it has pushed down keeps colours and black heights, and it ends on a red node |
| RbDeleteColours.DeleteStrictIffNotBad | src/saux/stree.c:387-567 | a tree that is red-black with the root counted as black stays red-black exactly when the root bit is not red next to a red son on the other side of a black son without red sons |
| RbDeleteColours.DeleteKeepsStrict | src/saux/stree.c:387-567 | deleting any key, present or absent, from a red-black tree gives a red-black tree |
| RbDelete.RootOnlyWalk | src/saux/stree.c:433-510 | the walk ends on a root that holds the key exactly when it has no left son and is red or has no red right son |
| RbDeleteColours.WeakLosesNothing | src/saux/stree.c:524-531 | no red-black tree, the root counted as black, meets the exception |
| DeleteSteps.RootLost | src/saux/stree.c:524-565 | in the exception the array no longer holds a tree with the remaining entries: its root index is behind the last slot, or its root is its own son, or the father of the last slot has become unreachable |
| RbDeleteRedRed.DeleteNoRedIffNoClash | src/saux/stree.c:448-510 | in a tree without red-red edges, balanced or not, deletion leaves one if and only if its walk takes red from a brother at a black father below a red grandfather that is not the root |
| TreeMap.InsertContents | src/saux/stree.c:274-385 | insertion is an update of the map |
| TreeMap.DeleteContents | src/saux/stree.c:387-567 | deletion is removal from the map, with the same exception |
| TreeMap.FindsContents | src/saux/stree.c:569-579 | the search finds a key exactly when the map has it |
| TreeMap.RunKeeps | src/saux/stree.c:269-567 | every sound run, balanced or not: search order, compact slots, and agreement with the map |
| TreeMap.RunTidy | src/saux/stree.c:269-567 | runs whose deletions lose no key and leave no red-red edge are sound, whatever they insert |
| TreeMap.RunBalanced | src/saux/stree.c:269-567 | runs that never meet the bad shape are tidy and sound, and keep the tree red-black with the root counted as black |
| TreeMap.RunPastBad | src/saux/stree.c:387-567 | the first deletion that meets the bad shape loses nothing but the balance, and neither do insertions after it |
| TreeMap.RunStrict | src/saux/stree.c:269-567 | runs that insert absent keys only never meet the bad shape and keep the strict red-black form |
| Unbalanced.UnbalancedRun | src/saux/stree.c:366-375 | fifteen insertions (updates leave the root bit red) after which a deletion breaks the black heights |
| LostKey.LosingRun | src/saux/stree.c:524-531 | a sound run of 48 public operations to a tree of nine nodes in which the deletion of the root key meets the exception |
| TreeRun.LoseKey | src/saux/stree.c:524-565 | that run and that deletion in place: the array does not hold the eight other entries |
| Astray.AstrayRun | src/saux/stree.c:348-365 | a sound run of 51 public operations, none losing a key, to a tree in which an insertion rotates with a stale great-grandfather |
| TreeRun.GoAstray | src/saux/stree.c:348-383 | that run and that insertion in place: the array does not hold the entries of the map |
| TooHigh.HighRun | src/smap.h:724-734 | a sound run of 54 public operations to a tree of 14 nodes and 12 levels, for which the range scan has a stack of 11 entries |
| TreeRun.LeaveStack | src/smap.h:724-788 | that run and a scan of all keys in place: the scan pushes beyond its stack |
| RbHeight.HeightBlackHeight | src/saux/stree.c:618-623 | at most twice as many levels as black nodes, and at least 2^h - 1 nodes |
| RbHeight.HeightBound | src/smap.h:724-734 | a red-black tree, the root counted as black, has at most 2 * (floor(log2 n) + 1) levels |
| SMap.WantedExact | src/smap.h:710-713 | the pairs in range, ascending, are exactly the entries of the map with a key in [kmin, kmax] |
| SMap.Visit | src/smap.h:745-765 | one visit delivers the node and leaves exactly what is still due on the stack |
| SMap.GoLeft | src/smap.h:736-744 | going left first changes nothing of what is due, and the work left shrinks |
| SMap.MirrorsPush | src/smap.h:736-765 | a push, where there is room for it, keeps the stack in step with the subtrees still to be read |
| SMap.TrackVisit | src/smap.h:752-766 | the visit of a node and the push that may follow: the levels in use and those to come stay the span of the scan, and a push beyond the stack shows that the span is larger |
| SMap.RoomForAllBounds | src/smap.h:724-734 | a stack of a given size is enough for all bounds if and only if the tree has no more levels |
| SMap.RedBlackFits | src/smap.h:724-734 | the allocated stack is enough for every red-black tree, with three entries to spare |
| SMap.Scan | src/smap.h:733-795 | the loop over a stack of any size: it delivers what is due and stays inside exactly when the span is no larger, unless the callback stops it first |
| SMap.Itr | src/smap.h:710-797 | on any search tree, balanced or not: the callback sees exactly the pairs in range in ascending order, once each; count returned; a stop leaves a prefix; unless stopped, the scan stays inside its stack if and only if the levels it visits are no more than the entries allocated |
| Bits.Slog2Step | src/saux/scommon.c:147-151 | one step of the ladder keeps bits counted plus logarithm left |
| Bits.Slog2_32 | src/saux/scommon.c:154-163 | floor of the binary logarithm of a 32-bit number |
| Bits.Slog2_64 | src/saux/scommon.c:165-175 | floor of the binary logarithm of a 64-bit number |
| Bits.Slog2Ceil | src/saux/scommon.c:177-193 | the rounded-up logarithm, 1 for one |
| HashTable.Home | src/shmap.c:37-40 | the highest bits of the hash name a bucket of the table |
| HashTable.WalkEnd | src/shmap.c:469-483 | a lookup that has met as many members as the home bucket counts has met them all: the key is not registered |
| HashTable.WalkGoesOn | src/shmap.c:469-470 | while members are missing the walk has not gone around: it terminates |
| HashTable.FreeSlot | src/shmap.c:355-362 | fewer elements than buckets leave a free bucket |
| HashTable.ProbeStep | src/shmap.c:355-356 | so the probe for a free bucket terminates |
| HashTable.RegisteredCounted | src/shmap.c:345-365 | registering keeps each count equal to the number of used slots with that home |
| HashTable.FreedCounted | src/shmap.c:517-519 | and so does freeing a slot |
| HashTable.TailIndexed | src/shmap.c:527-543 | moving the last element into the hole keeps slots and elements in bijection |
| HashGrowth.HdrSize | src/shmap.h:309-317 | header and buckets rounded up to a multiple of the element size, by less than one element |
| HashGrowth.HdrGrows | src/shmap.h:309-317 | two header sizes differ by a whole number of elements |
| HashGrowth.GrowTurnsBlock | src/shmap.c:408-440 | the one block move turns the element array by whole elements, whichever way it is done |
| HashGrowth.ThresholdBounds | src/shmap.c:378-379 | the rehash threshold is below the number of buckets and grows with every doubling |
| HashGrowth.PctBounds | src/saux/scommon.h:580-583 | the share in percent rounded down, above 10000 to a multiple of the percentage |
| SHMap.HMap.constructor | src/shmap.c:556-582 | a new map is valid and empty |
| SHMap.HMap.RegHash | src/shmap.c:345-365 | registers one element; the overwrite branch is never taken |
| SHMap.HMap.LookUp | src/shmap.c:456-485 | finds the element and slot of a registered key, or tells there is none |
| SHMap.HMap.Rehash | src/shmap.c:367-386 | all elements registered once, counts and mask and threshold as for a new table |
| SHMap.HMap.Grow | src/shmap.c:408-445 | twice the buckets, element block turned, same map, room below the threshold |
| SHMap.HMap.InsertCheck | src/shmap.c:388-446 | room for one more element unless the map holds 2^32 - 1; the map is kept |
| SHMap.HMap.Insert | src/shmap.c:784-802 | insertion or overwriting in the finite map, refused exactly when full |
| SHMap.HMap.Inc | src/shmap.c:808-819 | combines with the stored value, or inserts |
| SHMap.HMap.Del | src/shmap.c:487-550 | removes the key, answers whether it was there |
| SHMap.HMap.CloseHole | src/shmap.c:523-545 | the lookup of the last element finds its slot although one element is unregistered meanwhile |
| SHMap.HMap.At | src/shmap.h:418-520 | lookup agrees with the map |
| SHMap.Simulate | src/shmap.c:456-819 | every run of insertions, increments, deletions and lookups on a new map, for any hash function: replies and contents are those of a finite map |
| Varint.StPk | src/saux/scommon.c:50-102 | stores the packed number and touches at most the word it writes |
| Varint.LdPk | src/saux/scommon.c:104-134 | loads back any packed number that is complete, whatever bytes follow, and moves past it |
| Varint.UnPkPk | src/saux/scommon.c:50-143 | loading undoes storing for every 64-bit number |
| Varint.SizeLeast | src/saux/scommon.c:50-102 | the least number of bytes with seven bits of payload each, up to seven, else nine |
| Varint.PkIs | src/saux/scommon.c:50-102 | the bytes as a number: payload above a lowest set bit that tells the size, or all eight bytes behind a first byte of 128 |
| Varint.FirstByte | src/saux/scommon.c:135-143 | the first byte tells the size of every packed number |
| RecCopy.RecCpy1 | src/saux/senc.c:805-810 | the byte-by-byte overlapped copy |
| RecCopy.RecCpyFast | src/saux/senc.c:812-837 | the doubling copy gives the same bytes and writes at most max(n, 16) bytes |
| RecCopy.RecCpyAt | src/saux/senc.c:805-810 | such a copy repeats the last `dist` bytes |
| LzFormat.StreamAt | src/saux/senc.c:876-906 | reading from the front, each operation lies where the previous one ends |
| Lz.TokenCost | src/saux/senc.c:633-665 | an operation the compressor stores costs at most twice the bytes it covers |
| Lz.Match | src/saux/senc.c:667-682 | length of the longest common prefix, up to the limit |
| Lz.FindMatch | src/saux/senc.c:747-767 | the last place entered with the same table index, which is replaced by this one, and the longest common prefix when it is four bytes or more |
| Lz.SameIsRecCpy | src/saux/senc.c:839-843 | bytes equal to those `dist` back are what a reference reproduces, also where they overlap |
| Lz.SencLz | src/saux/senc.c:689-793 | the output is a stream that stands for the input, at most 2 ss + 9 bytes, below the announced size; at every place not inside a reference a reference starts, with distance to the last such place of the same table index and the longest common prefix as its length, exactly when that is four bytes or more and not just four from more than 500000 back; literals are stored in maximal runs |
| Lz.HashIsSlot | src/saux/senc.c:684-687 | the table index of four bytes, byte by byte |
| Lz.HashSize | src/saux/senc.c:719-722 | entries of the table: a quarter of the input as a power of two, at least 2^8 and at most 2^hashMaxBits |
| LzPlan.TrackPlace | src/saux/senc.c:752-753 | entering a place keeps the table equal to the last place of every index |
| LzPlan.TrackEnd | src/saux/senc.c:746-789 | where the loop stops the stored operations are those of the greedy search |
| Lz.MaxOutIs | src/saux/senc.c:697-700 | the announced size is nine quarters of the input and 32 bytes, but for rounding |
| Lz.ReadOp | src/saux/senc.c:880-905 | the numbers loaded are kind, distance and length of the operation stored |
| Lz.SdecLz | src/saux/senc.c:859-910 | a complete stream is unpacked to what it stands for |
| Lz.RoundTrip | src/saux/senc.c:689-910 | unpacking the packed form gives the input back, for every non-empty input below 2^61 bytes and every table size |
| Crc32.FeedConcat | src/saux/shash.c:58-74 | feeding x then y is feeding x + y |
| Crc32.CrcConcat | src/saux/shash.c:58-74 | the checksum of the first part is the accumulator for the second |
| Crc32.BytesXor | src/saux/shash.c:66-70 | the bit steps are linear |
| Crc32.NextEntry | src/saux/shash.c:314-321 | the recurrence of the table generator is one more byte of bit steps |
| Crc32.MakeTable | src/saux/shash.c:301-331 | the generator fills all sixteen rows |
| Crc32.WordByTable | src/saux/shash.c:131-134 | a word of four bytes is the sum of four table entries |
| Crc32.FeedWord | src/saux/shash.c:115-130 | four bytes at once through a little-endian word |
| Crc32.SliceStep | src/saux/shash.c:114-155 | one step over 4, 8, 12 or 16 bytes |
| Crc32.Crc32Bitwise | src/saux/shash.c:58-74 | the compact form computes the checksum |
| Crc32.Crc32Sliced | src/saux/shash.c:103-160 | the table form with 1, 4, 8, 12 or 16 bytes per step computes the same checksum |
| Crc32Division.CrcIsRemainder | src/saux/shash.c:58-74 | the complemented checksum is the remainder of the message times x^32, the complemented accumulator added in front, divided by x^32 + x^26 + x^23 + x^22 + x^16 + x^12 + x^11 + x^10 + x^8 + x^7 + x^5 + x^4 + x^2 + x + 1, bits reflected |
| Crc32Division.RemainderUnique | src/saux/shash.c:58-74 | there is no other remainder |
| Crc32Division.CheckValue | src/saux/shash.c:58-74 | the checksum of the digits 1 to 9 is 0xcbf43926 |
| Adler32.NoOverflow | src/saux/shash.c:164-165 | no 32-bit overflow in a block of 5552 bytes, even from halves of 65535 |
| Adler32.RawIsSums | src/saux/shash.c:178-213 | reducing once after a block is reducing after every byte |
| Adler32.ShAdler32 | src/saux/shash.c:167-217 | the checksum of section 8.2 of RFC 1950, for every accumulator |
| Adler32.CheckValue | src/saux/shash.c:164-217 | a checksum whose second sum passes the modulus |
| Adler32.AdlerConcat | src/saux/shash.c:167-217 | feeding in pieces |
| Search.WindowMove | src/saux/ssearch.c:26-29 | moving the window keeps the rolling sum equal to the sum of the window modulo 2^32 |
| Search.OccursSameWindow | src/saux/ssearch.c:20-25 | an occurrence has the checksum of the target |
| Search.Prepare | src/saux/ssearch.c:71-100 | both sums of the first window, four positions per round |
| Search.FindCsumSlow | src/saux/ssearch.c:124-133 | the first occurrence from `off` on, or none exactly when there is none |
| Search.FindCsumFast | src/saux/ssearch.c:135-145 | an answer is an occurrence from `off` on, and the first one if and only if there is no hand-over or nothing straddles its place; a hand-over comes at the last of at least 3 + |t| / 2 windows with the byte total of the target that are no occurrence, the last 3 + |t| / 2 of them within ten target lengths; it comes when the first ones are that close, and never when there are fewer |
| Search.HandOverCounts | src/saux/ssearch.c:31-45 | the same for the search from any place on, with the collisions counted so far |
| Search.FastSearchMisses | src/saux/ssearch.c:32-47 | a text and target for which the fast search answers that there is no occurrence although there is one |
| Escapes.StepEsc | src/saux/senc.c:118-121 | each decoder recognises what its encoder made of one byte, whatever follows |
| Escapes.RoundTrip | src/saux/senc.c:123-605 | decoding undoes encoding: XML, JSON, URL, doubled quotes, hexadecimal of either case |
| Escapes.ReqSize | src/saux/senc.c:258-278 | adding up what each byte needs beyond itself gives the size of the output |
| Escapes.ExtraIs | src/saux/senc.c:258-278 | what each byte needs beyond itself: the numbers of the size functions against the escapes |
| Escapes.XmlSize | src/saux/senc.c:258-278 | five for every quote and apostrophe, four for every ampersand, three for every angle bracket |
| Escapes.EncodeEscapes | src/saux/senc.c:280-609 | the output is made of one unit per byte, each a byte that may stand as it is or a well-formed escape: entities, backslash letters, percent signs with two upper-case digits, doubled quotes, digits of the chosen case |
| Escapes.EntityBack | src/saux/senc.c:319-380 | each of the five entities decodes to its character, whatever follows |
| Escapes.StepPlain | src/saux/senc.c:319-605 | what begins no escape is taken as it is |
| Escapes.SlashBack | src/saux/senc.c:476-481 | JSON also knows an escaped slash |
| Escapes.EncodeBuffer | src/saux/senc.c:280-317 | the backward encoders write the encoding of the original input, also into the input buffer itself |
| Escapes.DecodeBuffer | src/saux/senc.c:319-380 | the forward decoders, also in place |
| Escapes.InPlaceRoundTrip | src/saux/senc.c:280-609 | encoding and decoding in one buffer gives the bytes back |
| Base64.BlockBack | src/saux/senc.c:106-112 | three bytes survive the way through four characters |
| Base64.RoundTrip | src/saux/senc.c:154-225 | decoding undoes encoding for every byte string, all three paddings |
| Base64.EncodeBuffer | src/saux/senc.c:154-194 | the backward block encoder, also in place |
| Base64.EncodeAt | src/saux/senc.c:154-194 | every six bits of the input give the character of that number in the alphabet, and equals signs fill up to whole blocks of four |
| Base64.PadsAtEnd | src/saux/senc.c:167-182 | equals signs at the end only: none, two or one for a rest of no byte, one byte or two |
| Base64.DecodeLength | src/saux/senc.c:204-223 | a last block that ends in two equals signs gives one byte, one that ends in one gives two |
| Base64.ValueIs | src/saux/senc.c:77-87 | the look-up gives the number of a character of the alphabet and 0 for any other |
| Base64.DecodeBuffer | src/saux/senc.c:196-225 | the block decoder, also in place |
| Base64.InPlaceRoundTrip | src/saux/senc.c:154-225 | encoding and decoding in one buffer gives the bytes back |

## Left out

- Allocation, growth of buffers and their failure: arrays and sequences have the room they need. Callbacks that free
  strings, `FILE*` input and output, wide characters, printf and the per-type instances of maps and sets: one integer key
  and value type stands for all. The rewrite and increment callbacks and the hash function are arbitrary functions.
- Tree traversals other than the range scan, `st_dup`, and the deletion callback.
- A tree of exactly 2^31 - 1 nodes cannot be deleted from (`src/saux/stree.c:408`): the code refuses, and so does `Delete`.
- STree.Tree32.Locate: requires a non-empty tree, because the code compares before it checks for a null node
  (`src/saux/stree.c:572-577`).
- STree.Tree32.Delete: of a valid tree that meets the bad shape, and of every tree after that, it is not said how far the
  black heights come apart. After a deletion that meets `LosesKeys` map agreement is false, and nothing is said about
  later operations. The colour write to a root slot behind the last one is not modelled.
- STree.Tree32.InsertRw: a call that has rotated with a stale great-grandfather stops there in the model. What the rest of
  that call does, and whether it ends, is not part of the model.
- SMap.Itr: a scan that is about to push beyond its stack stops there in the model.
- The walking window and the auxiliary node above the root are local values rather than memory cells, and a node's links
  are full indices, not bit fields.
- `shm_clear` followed by reuse (it leaves the bucket table), `shm_cpy` into an existing map (mask and threshold are not
  refreshed), maps on the stack, and the set form of insertion, which differs only in having no value.
- String keys of the hash map: on a rehash the code hands the stored element, not its key, to the comparison
  (`src/shmap.c:384-385`), which matters only when two different strings share all 32 bits of the hash.
- SHMap.HMap.Grow: the element block is a sequence of elements; HashGrowth.GrowTurnsBlock is the statement about the bytes.
- Calls with a null output buffer, which only announce a size, except for `MaxOut` and `ReqSize`.
- Lz.SdecLz: complete streams only. Malformed streams, the unused bytes of word loads and stores beyond the slack the
  buffers have, and whether a copy of 16 bytes whose regions overlap is defined in C: its bytes past the length asked for
  are arbitrary here.
- Escapes.DecodeBuffer: an escape cut short at the end of the input is taken literally, where the code looks one byte past
  the end. The hexadecimal loops handle two bytes per round in the code.
- Base64.DecodeBuffer: characters of unpadded blocks are below 128, because the code looks them up in a table of 128
  entries unmasked (`src/saux/senc.c:207-208`). Inputs of fewer than two characters are out, where the code reads in front
  of the buffer, and padded inputs of two or three, where its loop bound wraps around.
- CRC-32 by processor instructions and the literal tables of `scrc32.h`: the tables are those of the generator.
- FNV and MurmurHash, radix sort, case tables and UTF-8, string and vector wrappers, tests and build files.
