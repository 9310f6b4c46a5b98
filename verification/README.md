# Verified models of ffbase algorithms

ffbase is a library of C containers and algorithms.  This project models several of its
headers in Dafny and proves what they are for.  Code that updates fields, arrays and
pointers step by step is modelled by classes and methods with loops, each proved against
a specification on plain values.

| file | models | main results |
|---|---|---|
| `rbshape.dfy`, `rbstore.dfy`, `rbremoval.dfy`, `rbtree.dfy` | the red-black tree of `ffbase/rbtree.h`, with real `left`, `right`, `parent` pointers and a sentinel whose `parent` serves as scratch | insert and remove keep a sound tree and place or take exactly one node; search, successor, walk and emptying loop |
| `ring.dfy` | the lock-free queue of `ffbase/ringqueue.h` and the byte ring of `ffbase/ring.h` as one protocol of single memory accesses | invariant over every run, first-in first-out, owned slots, exact refusals, no deadlock, another's progress behind every failure, and the exact condition on cursor wrap-around with a violating run for every configuration |
| `jsontext.dfy`, `jsonstep.dfy`, `jsongrammar.dfy`, `jsonparser.dfy`, `jsonvalidate.dfy`, `jsonspelling.dfy`, `jsonlanguage.dfy`, `jsonliterals.dfy`, `jsonwriter.dfy`, `jsonroundtrip.dfy`, `jsonexact.dfy` | the incremental JSON reader and the writer of `ffbase/json.h` and `ffbase/json-writer.h` with the conversions they use | exactly which texts are accepted and what they mean, exactly which documents come back after writing, input may be cut anywhere, events follow the grammar |
| `map.dfy`, `powers.dfy` | the hash table of `ffbase/map.h` | a multiset of pairs under add, remove and growth; removal without tombstones keeps every item reachable |
| `fntree.dfy`, `fnwalk.dfy`, `fncompare.dfy` | cursors, freeing and comparison of `ffbase/fntree.h` | every entry once in two orders, freeing after what is inside, each relative path reported once |
| `sort.dfy` | `ffbase/sort-merge.h`, `ffbase/sort-insertion.h` | the stable sorted permutation, in place, within a bound on comparisons |
| `calendar.dfy`, `words.dfy` | joining and splitting dates in `ffbase/time.h` | round trips and their exact range in 32-bit arithmetic |
| `stream.dfy` | `ffbase/stream.h` | a queue of bytes that hands out contiguous data |
| `optional.dfy`, `modulo.dfy` | a value that may be missing; division with remainder | |

## Reading the models

*Red-black tree.*  `Path` is the way from a position up to the root, `Plug` puts a subtree
into it.  `Focus` says that the memory spells out a path and the subtree at its end, so a
rotation is one lemma about the subtree.  `Short` is the invariant of the removal loop: all
ways through the position are one black node short.  The loop's measure is lexicographic,
because the rotation at a red sibling moves the position down before the loop ends.

*Rings.*  A thread's program counter and the cursor values it has read are part of the
state, and every access to a shared field is a step of its own, so stale values occur.
Memory is sequentially consistent.  The cursors are stored modulo `modulus`, which stands
for 2^32 or 2^64; ghost cursors hold the positions without wrap-around.  One assumption
about the environment is explicit: `NoReuse` says that when a thread's compare-and-swap
finds the head it has read, that head has advanced by less than `modulus` since.
`HeadUnchanged` shows that this is exactly when the compare-and-swap is right, and
`ReuseBreaks` gives, for every configuration, a run that goes wrong without it.

*JSON.*  `Step` is one pass through the parser's switch as a function of the fields and one
byte.  The class `Parser` has the fields of the structure, refers to the input instead of
copying where the source does, and refines `Step`.  The grammar (`Next`, `Follow`) is an
independent definition of nested values, and a spelling (`Token`, `Piece`) an independent
definition of the text.  Which texts the floating-point reader accepts is a parameter, so
the results hold for every such reader.

*File-name tree.*  Blocks are values with an identity that stands for their address.  A
cursor is seen as a stack of frames, each with the position where reading goes on; `Ahead`
of two stacks is defined by merging, for any two depths.  The stack of a cursor has 64
places; each walk is modelled on all trees, with the point where it stops on deeper ones.

*Calendar.*  `DayNumber` adds up the lengths of years and months and knows nothing of the
formulas of the source.

Where the code and its comments differ, the models follow the code: the hexadecimal
conversion accepts the characters before `A` and `a` as 9; `}` is accepted after a comma
in an object; a comment is closed only by a star right after an even number of stars, so
not by `**/`; `ffjson_validate` refuses a document that space follows; joining a date
carries too many nanoseconds the wrong way round; a stream's capacity above 2^31 becomes 0.

## Model

| member | source | states |
|---|---|---|
| `RbTrees.RbTree.Insert` | ffbase/rbtree.h:222-280 | inserting a fresh node into a valid tree gives a valid red-black tree (order, black root, no red node with a red child, equal black heights, parent and child links that agree, black sentinel, right `len`) whose in-order sequence is the old one with the node placed after all keys not greater than its own; the nodes are the old ones and the new one |
| `RbTrees.RbTree.InsertFixup` | ffbase/rbtree.h:231-277 | the loop ends, and turns a tree whose only fault is one red node under a red parent into a sound one with the same in-order sequence; the grandparent of a red node under a red parent is never the sentinel |
| `RbTrees.RbTree.NodeInsert` | ffbase/rbtree.h:141-168 | the node becomes a leaf between all keys not greater than its own and all greater keys |
| `RbTrees.RbTree.FindPlace` | ffbase/rbtree.h:147-161 | the search for the parent stops at an empty position between the keys not greater than the key and the greater ones |
| `RbTrees.RbTree.Remove` | ffbase/rbtree.h:321-407 | removing any node of a valid tree leaves a valid red-black tree whose in-order sequence is the old one without exactly that node, whose nodes are the old ones without it, and whose removed node has null pointers |
| `RbTrees.RbTree.NodeRm` | ffbase/rbtree.h:283-318 | relinking, never copying a key, leaves a hole at the position of the removed node or of its successor; what fills the hole has the hole's parent as its parent, even when it is the sentinel |
| `RbTrees.RbTree.RmFixup` | ffbase/rbtree.h:342-402 | the loop ends, although a red sibling moves the position one level down, and from `one black short at x` reaches a tree that is sound once x is black, with the same in-order sequence |
| `RbTrees.RbTree.ExchangeColors` | ffbase/rbtree.h:330-340 | a successor that took the node's place takes its colour; the colour that is lost is that of the position the hole is at |
| `RbTrees.RbTree.LeftRotate` | ffbase/rbtree.h:202-209 | the pointer assignments turn exactly the subtree at this position into its left rotation and leave the rest of the tree as it is; the sentinel's scratch parent changes only when the sentinel is moved |
| `RbTrees.RbTree.RightRotate` | ffbase/rbtree.h:211-218 | the same for the right rotation |
| `RbTrees.RbTree.RelinkParent` | ffbase/rbtree.h:190-200 | the new node hangs where the old one hung, be it the root, a left or a right child |
| `RbTrees.RbTree.LinkLeftChild` | ffbase/rbtree.h:174-178 | parent and left child point at each other, and no other pointer changes |
| `RbTrees.RbTree.LinkRightChild` | ffbase/rbtree.h:183-187 | parent and right child point at each other, and no other pointer changes |
| `RbTrees.RbTree.NodeMin` | ffbase/rbtree.h:60-67 | the leftmost node of the subtree, or the sentinel for an empty one |
| `RbTrees.RbTree.Find` | ffbase/rbtree.h:125-138 | returns a node with the key if and only if the tree holds the key, also when equal keys stand on both sides of a node, within 2*log2(len+1) steps |
| `RbTrees.RbTree.Locate` | ffbase/rbtree.h:94-108 | in the subtree at any position: returns a node with the key if there is one, else the node below which the key would belong, the sentinel for an empty subtree; within as many steps as the subtree is high, and 2*log2(len+1) |
| `RbTrees.RbTree.First` | ffbase/rbtree.h:70-73 | the first node of the in-order sequence, or the sentinel |
| `RbTrees.RbTree.Successor` | ffbase/rbtree.h:76-90 | the next node of the in-order sequence, or the sentinel after the last one |
| `RbTrees.RbTree.Walk` | ffbase/rbtree.h:111-114 | walking by successor visits exactly the in-order sequence |
| `RbTrees.RbTree.Drain` | ffbase/rbtree.h:118-121 | the loop that takes the successor before it removes the current node visits every node in order and empties the tree |
| `RbShape.RBPlug` | ffbase/rbtree.h:342-402 | a tree is sound if and only if its part at a position is sound and the surroundings accept its black height and root colour |
| `RbShape.InorderPlug` | ffbase/rbtree.h:111-114 | the in-order sequence is what comes before a position, the part at the position, and what comes after |
| `RbShape.HeightBound` | ffbase/rbtree.h:125-138 | a sound tree of n nodes is at most 2*log2(n+1) high |
| `RbShape.HeightByBlacks` | ffbase/rbtree.h:125-138 | the height is at most twice the black height, and a tree of black height b holds at least 2^b - 1 nodes |
| `RbShape.PlacedSorted` | ffbase/rbtree.h:152-161 | the place of a new node is the one place after all keys not greater than its own, and keeps the sequence sorted |
| `RbShape.PlacedBetween` | ffbase/rbtree.h:152-161 | between keys not greater and keys greater there is no other place for it |
| `RbShape.WithoutSorted` | ffbase/rbtree.h:321-407 | taking a node out keeps the sequence sorted and one shorter exactly when the node was in it |
| `RbShape.SearchStep` | ffbase/rbtree.h:128-136 | going left or right keeps the key between what comes before and after the position |
| `RbShape.SearchEnd` | ffbase/rbtree.h:128-137 | a search that ends at an empty position proves the key absent |
| `RbShape.NextInOrder` | ffbase/rbtree.h:76-90 | what follows a node is the first of its right subtree, or else the first of what comes after its position |
| `RbShape.InorderDistinct` | ffbase/rbtree.h:111-114 | no node occurs twice in the in-order sequence |
| `RbStore.LeftRotateFocus` | ffbase/rbtree.h:202-209 | the three relinking steps of a left rotation, one after the other on any memory, give the memory of the rotated tree |
| `RbStore.RightRotateFocus` | ffbase/rbtree.h:211-218 | the same for the right rotation |
| `RbStore.FocusPlug` | ffbase/rbtree.h:190-200 | pointers describe a position with its surroundings exactly when they describe the whole tree |
| `RbStore.RelinkPath` | ffbase/rbtree.h:190-200 | relinking puts a subtree with another root at a position without disturbing what is around it |
| `RbStore.NextIsChild` | ffbase/rbtree.h:301-316 | a successor that is the right child takes the node's place with the node's left subtree, in these three steps |
| `RbStore.TakeOver` | ffbase/rbtree.h:303-314 | a successor from further down takes over both subtrees and the place of the node |
| `RbStore.SpliceFocus` | ffbase/rbtree.h:305 | the right child of a successor takes its place, the sentinel included |
| `RbStore.AttachFocus` | ffbase/rbtree.h:163-167 | a new leaf fills an empty position |
| `RbRemoval.RemovedInorder` | ffbase/rbtree.h:283-318 | the tree after relinking has the old in-order sequence without the node, whichever of the three cases applies |
| `RbRemoval.RemovedColors` | ffbase/rbtree.h:330-340 | when the lost colour is red the tree is still sound, else exactly the ways through the hole are one black short |
| `RbRemoval.LoweredShort` | ffbase/rbtree.h:349-354 | the rotation at a red sibling keeps `one black short` one level lower, under a red parent |
| `RbRemoval.ClosedLeftRB` | ffbase/rbtree.h:364-367 | the final rotation at a left child with a red far nephew ends the shortage: same root colour, same black height, same in-order sequence |
| `RbRemoval.ClosedRightRB` | ffbase/rbtree.h:390-393 | the mirror image |
| `RbRemoval.StraightLeftRB` | ffbase/rbtree.h:357-362 | the preparatory rotation keeps the sibling sound and makes its far child red |
| `RbRemoval.StraightRightRB` | ffbase/rbtree.h:383-388 | the mirror image |
| `RbRemoval.RaisedShort` | ffbase/rbtree.h:399-401 | reddening a black sibling with black children moves the shortage to the parent |
| `RbRemoval.ShortBlackened` | ffbase/rbtree.h:405 | a shortage at the root, or at a red node that is painted black, is none |
| `RbTrees.RaisedLeftRB` | ffbase/rbtree.h:243-251 | the rotations for a black uncle give a sound subtree of the same black height and in-order sequence with a black root |
| `RbTrees.RaisedRightRB` | ffbase/rbtree.h:258-266 | the mirror image |
| `RbTrees.RedRaisedRB` | ffbase/rbtree.h:270-274 | recolouring for a red uncle keeps black heights and in-order sequence and moves the only fault up two levels |
| `Ring.Fifo` | ffbase/ringqueue.h:58-133 | over every run of any number of writers and readers, what has been taken out, followed by what is in the queue, is exactly what has been put in, in the order of the `wtail` stores; at most `cap` elements are inside |
| `Ring.CursorOrder` | ffbase/ringqueue.h:58-133 | in every reachable state `rtail <= rhead <= wtail <= whead <= rtail + cap` holds for the cursors without wrap-around |
| `Ring.RunKeeps` | ffbase/ring.h:89-331 | every state of every run satisfies the full protocol invariant |
| `Ring.StepKeeps` | ffbase/ring.h:89-331 | each single read, compare-and-swap, copy, wait and store of any thread keeps the invariant |
| `Ring.StepRefines` | ffbase/ringqueue.h:84-88 | each step leaves the abstract queue alone, or appends the whole region when `wtail` is stored, or takes a region off its front when `rhead` moves |
| `Ring.RunLog` | ffbase/ring.h:180-211 | after any part of a run the elements put in are the log of published elements, and those taken out its part before `rhead` |
| `Ring.ReaderGetsItsOwn` | ffbase/ring.h:218-281 | as long as a reader is busy after its reservation, what it has copied is a prefix, and at the release all, of exactly the elements that left the queue when it reserved, whatever other threads did meanwhile |
| `Ring.SlotsOwned` | ffbase/ring.h:127-135 | no slot lies in the unfinished regions of two threads, be they writers or readers |
| `Ring.CopySlot` | ffbase/ring.h:187 | a copy step touches, in one or two pieces, the slot of the true position, and no unfinished region of another thread has that slot |
| `Ring.PieceIndexMod` | ffbase/ring.h:127-135 | the k-th element of a region in one or two pieces lies in the slot (position + k) mod cap |
| `Ring.WriteRefused` | ffbase/ring.h:98-118 | a write is refused exactly when the space free at the moment `rtail` was read, reckoned with wrapped cursors, does not hold the amount asked for, or is zero; else it goes on with the amount asked for, or for an at-most write with the greatest one not above that, the free space and the rest of the buffer behind the head; that space is the true one if and only if the cursors have not wrapped since the head was read, and then the reservations made leave less than the amount free; for a queue: all slots were reserved |
| `Ring.ReadRefused` | ffbase/ring.h:227-254 | a read is refused exactly when the elements published at the moment `wtail` was read do not reach the amount asked for, or are none; else it goes on with exactly the amount asked for, the greatest one not above that and the published count, the same within the rest of the buffer, or for an at-least read with all that is published; that count is the true one if and only if the cursors have not wrapped since the head was read, and then the queue holds fewer; for a queue: it is empty |
| `Ring.FreeSpace` | ffbase/ring.h:98 | the wrapped subtraction of possibly stale cursors never overstates the free space, and gives it exactly if and only if the cursors have not wrapped in between |
| `Ring.UsedSpace` | ffbase/ring.h:227 | the wrapped subtraction of possibly stale cursors never overstates the published elements, and gives them exactly if and only if the cursors have not wrapped in between |
| `Ring.HeadUnchanged` | ffbase/ring.h:122 | a compare-and-swap that finds the value it has read finds the position it has read if and only if the head has advanced by less than the modulus since |
| `Ring.ReuseBreaks` | ffbase/ring.h:122 | that condition cannot be dropped, in any configuration: a run that meets it up to there ends in a full ring where a writer that slept while the head went once around passes its compare-and-swap, and more than `cap` elements are claimed |
| `Ring.UndisturbedWrite` | ffbase/ring.h:89-176 | from every reachable state with no reservation pending, an exact or at-most write that nobody disturbs and that has room runs to its end and appends the first of its elements, as many as the free space and, at most, the rest of the buffer take |
| `Ring.UndisturbedRead` | ffbase/ring.h:218-281 | from every reachable state with no read pending, a read in any of the four modes that nobody disturbs, of published elements, runs to its end and takes as many as the mode says |
| `Ring.OnePublisher` | ffbase/ringqueue.h:83-88 | never do two threads have the turn to publish at the same time |
| `Ring.WaitsForOther` | ffbase/ring.h:165-167 | a thread that waits for its turn waits for another one that is on its way and does not wait itself |
| `Ring.CanMove` | ffbase/ring.h:89-176 | a thread that does not wait can take its next step, whatever the age of the cursors it has read |
| `Ring.SomeoneMoves` | ffbase/ring.h:165-167 | no deadlock: while an operation is under way, some thread in an operation can step |
| `Ring.FailureMeansProgress` | ffbase/ring.h:122 | a failed compare-and-swap costs no time of all threads together: between the step in which the thread reads the head and its failure, another thread has made a reservation |
| `JsonText.ToInt64` | ffbase/str-convert.h:53-151 | the digit loop, with its overflow checks, computes the conversion `ToInt`: how many bytes were used and the 64-bit value |
| `JsonText.IntRoundTrip` | ffbase/str-convert.h:225-328 | reading any printed signed 64-bit integer uses the whole text and gives the integer back |
| `JsonText.IntReported` | ffbase/str-convert.h:53-151 | of any text that starts with a sign or not and some decimal digits: it is converted if and only if there is a digit and the value of the digits is below 2^64; then just sign and digits are used up, the value is right modulo 2^64, and right if and only if it fits a signed 64-bit word |
| `JsonText.DigitAt` | ffbase/str-convert.h:225-328 | the k-th character from the right of a printed number is the digit of 10^k |
| `JsonText.FromInt64` | ffbase/str-convert.h:225-328 | the loop that fills a 32-byte buffer from its end writes the sign and the decimal digits, and the buffer is long enough |
| `JsonText.IntLength` | ffbase/str-convert.h:193 | no 64-bit integer takes more than 21 characters, so the size reckoned for it suffices |
| `JsonText.EscapeSize` | ffbase/json-writer.h:158-169 | the sizing pass gives exactly the length of the escaped text |
| `JsonText.Escape` | ffbase/json-writer.h:171-196 | for every text and room: the escaped text is written whole if it fits; else nothing is, unless the first byte too many needs no escape, and exactly then that byte is stored behind the destination, because only escapes look at the room |
| `JsonText.Utf8RoundTrip` | ffbase/unicode.h:94-182 | decoding the encoding of any 31-bit number gives it back and uses exactly its bytes, whatever follows |
| `JsonText.DecodeUtf8` | ffbase/unicode.h:152-182 | the decoding loop computes `Decoded`: the value and the bytes used, 0 for bad bytes, the number needed, negated, when there are too few |
| `JsonText.Supplementary` | ffbase/unicode.h:205-217 | joining a surrogate pair is undone by splitting the code point again |
| `JsonStep.Step` | ffbase/json.h:314-717 | one pass through the switch keeps the reader's invariant: contexts match states, buffers are empty where a value starts, escape counters are in range; a byte is looked at again only finitely often |
| `JsonStep.RunAppend` | ffbase/json.h:291-717 | reading two pieces one after the other gives the same events and the same state or error as reading them joined |
| `JsonStep.OffsetsAppend` | ffbase/json.h:700-717 | and the same number of used bytes at each event |
| `JsonStep.UsedAppend` | ffbase/json.h:700-717 | and the same place where reading ends |
| `JsonGrammar.StepFits` | ffbase/json.h:314-717 | every step stays at its place in the grammar of nested values or emits an event that may stand there |
| `JsonGrammar.EventsGrammatical` | ffbase/json.h:306-312 | for every text the events nest properly, keys and values alternate inside objects, and the context stack is the stack of open brackets |
| `JsonGrammar.AcceptedExactly` | ffbase/json.h:306-312 | with comments off the end of the input is accepted exactly when one complete value was returned; with comments on exactly unless the reader stands in a comment: in a line comment it accepts even without a value, in an unfinished block comment it refuses even after one |
| `JsonGrammar.AfterDocument` | ffbase/json.h:584-608 | with comments off nothing but space may follow a complete document, and all other input is refused |
| `JsonGrammar.CommentAccepted` | ffbase/json.h:306-312 | the text `//` is accepted as a document although it holds no value |
| `JsonGrammar.BoolsReported` | ffbase/json.h:553-572 | every boolean event is the word just read, `true` as 1 and `false` as 0 |
| `JsonGrammar.FollowAppend` | ffbase/json.h:306-312 | the place after two sequences of events is the place after the second from the place after the first |
| `JsonParser.Parser.constructor` | ffbase/json.h:104-108 | a new reader stands at line 1, character 1, before a value |
| `JsonParser.Parser.Parse` | ffbase/json.h:291-717 | one call returns the first event of the rest of the input, or the error, or asks for more, exactly as `Run` says for the whole input; `val` and `intval` hold the event's value; line and character number are those of the bytes used; when it asks for more, nothing refers to the caller's input any more; the events returned so far follow the grammar, and the fields agree with the place they lead to |
| `JsonParser.Parser.Dispatch` | ffbase/json.h:314-699 | one pass through the switch on the object's fields is one `Step`, and a text taken by reference stays adjacent to the read position |
| `JsonParser.Parser.Add` | ffbase/json.h:250-265 | a byte is added to the text, which stays a reference into the input if it was one, and a copy if not |
| `JsonParser.Parser.AddChar` | ffbase/json.h:268-275 | a character that is not in the input is added after copying what was referred to |
| `JsonParser.Parser.OnEscape` | ffbase/json.h:453-516 | escapes add the bytes of the character they name; after an escape the text is the object's own |
| `JsonParser.Parser.OnNumber` | ffbase/json.h:518-551 | a number ends before a byte that cannot belong to it; it is reported as an integer if it converts whole, else handed to the floating-point reader; at most 65 bytes |
| `JsonParser.Parser.Keep` | ffbase/json.h:708-711 | at the end of a piece what still refers to it is copied, with the same text, so that nothing refers to it any more |
| `JsonParser.Parser.Finish` | ffbase/json.h:306-312 | the end of the input is accepted if and only if the events returned so far are one complete value, except in the two cases of a comment that `CommentMisleads` names, and in those it is not so |
| `JsonParser.ParseAll` | ffbase/json.h:291-717 | feeding a document in any pieces to `ffjson_parse` and then asking `ffjson_fin` gives events, values, line and character numbers, and the final verdict with its place, that depend only on the joined text |
| `JsonParser.PositionNext` | ffbase/json.h:700-705 | line and character numbers count the newlines and the bytes since the last one |
| `JsonWriter.Writer.Add` | ffbase/json-writer.h:254-400 | appends exactly the element's comma, line break, text and colon for the current flags, sets flags and stack for what follows, refuses a closing bracket that fits nothing, and returns the number of bytes |
| `JsonWriter.Writer.Size` | ffbase/json-writer.h:199-238 | the room reckoned for an element is enough for all that writing it appends |
| `JsonWriter.Writer.AddLead` | ffbase/json-writer.h:268-299 | comma and indentation before an element |
| `JsonWriter.Writer.AddQuoted` | ffbase/json-writer.h:309-317 | a string fits between its quotes in the room that is left |
| `JsonWriter.WrittenAs` | ffbase/json-writer.h:254-400 | of every sequence of elements, placed well or not: an element is preceded by a comma if it is no closing bracket and the one before it no key and no opening bracket; in a pretty layout, inside of brackets and not after a key, by a line feed and for each open bracket, a closing one apart, a tab or four blanks; a key is followed by a colon and in a pretty layout by one blank; a closing bracket that fits nothing is not written; and there is nothing else |
| `JsonWriter.LaidOut` | ffbase/json-writer.h:254-400 | the same of a document whose elements stand where they may: the indentation is that of the brackets that the grammar says are open |
| `JsonWriter.Compact` | ffbase/json-writer.h:254-400 | without a layout nothing is written between elements but commas, a key is followed by its colon alone, and there is no space outside of strings, keys and the texts of numbers |
| `JsonWriter.WriteAll` | ffbase/json-writer.h:254-400 | writing events one after the other gives the document |
| `JsonRoundTrip.RoundTrip` | ffbase/json-writer.h:254-400 | for every complete sequence of events (strings and keys, 64-bit integers, other numbers with their text, booleans, nulls, nested arrays and objects), in every layout and with every option, reading what was written returns the same events and accepts the end, if and only if the document is not a bare number; of a bare number nothing is returned.  Strings are arbitrary bytes where the writer escapes and the reader resolves escapes, else they are `Safe` |
| `JsonRoundTrip.RoundTripInPieces` | ffbase/json.h:291-717 | the same through the incremental reader, with the document cut anywhere |
| `JsonExact.RoundTripExactly` | ffbase/json-writer.h:254-400 | for every complete sequence of events that can be written, in every layout and with every option: the same events come back and the end is accepted if and only if the document is not a bare number, every string and key is `Safe` for this writer and reader, every boolean is 0 or 1, and every other number has a text that is read as a number and not as an integer |
| `JsonExact.OnlySafe` | ffbase/json-writer.h:309-317 | a string or key that is not `Safe` never comes back from between its quotes, whatever the document goes on with, if that has no backslash before its next quote |
| `JsonExact.Closes` | ffbase/json.h:427-516 | a reader that resolves escapes closes a string at the latest at its own quote and then gains no byte, unless a backslash at its end swallows that quote, and then what it returns does not end in a backslash |
| `JsonExact.RunNums` | ffbase/json.h:518-551 | whatever the input, every number that is returned comes with a text that is read as that number and not as an integer |
| `JsonRoundTrip.DocumentSpelled` | ffbase/json-writer.h:254-400 | what the writer writes of a complete sequence of events is a spelling of these events |
| `JsonRoundTrip.StringSpelled` | ffbase/json-writer.h:171-196 | a safe string as it is written, escaped or not, is a sequence of characters and escapes that stand for exactly its bytes |
| `JsonSpelling.AnySpelling` | ffbase/json.h:291-717 | any spelling of a complete sequence of events is read as these events and its end accepted: any space, and comments if they are on, around tokens and commas and at the end, every character of a string as itself or as any escape that stands for it, hexadecimal digits of either case (with the values that `JsonLiterals.WordValue` states), any text of a number, a comma before a closing brace; the one exception is a number alone that nothing follows, and of that nothing is returned |
| `JsonSpelling.ReadsToken` | ffbase/json.h:314-699 | one token, with the space, comments and comma before it, is read as its event, with a number before it returned first, and reader and grammar are at the same place again |
| `JsonSpelling.ReadsGap` | ffbase/json.h:384-420 | a byte of space, a comment up to the end of its line, and a comment whose text does not close it are skipped, and the reader goes on where it was |
| `JsonSpelling.ReadsPieces` | ffbase/json.h:427-516 | characters and escapes add exactly the bytes they stand for |
| `JsonSpelling.ReadsUnicode` | ffbase/json.h:483-516 | a `\u` escape of any character of the Basic Multilingual Plane adds its UTF-8 bytes |
| `JsonSpelling.ReadsSurrogates` | ffbase/json.h:471-516 | a surrogate pair adds the UTF-8 bytes of the character it stands for |
| `JsonSpelling.ReadsNumberText` | ffbase/json.h:518-551 | a text that is read as one number is taken to its last character and is pending with its value |
| `JsonSpelling.LastNumber` | ffbase/json.h:518-551 | a complete document that ends in a number is that number alone |
| `JsonLiterals.UnicodeEscape` | ffbase/json.h:483-516 | the four characters after `\u` that are the hexadecimal digits of a character of the Basic Multilingual Plane, each a small or a capital letter, add to a string the bytes of that character in UTF-8, the digits and the bits of the bytes written out |
| `JsonLiterals.SurrogateEscapes` | ffbase/json.h:471-516 | the same for the two escapes of any other character |
| `JsonLiterals.EscapedDocument` | ffbase/str-convert.h:23-31 | a document that is such an escape between quotes is returned as the string of these bytes |
| `JsonLiterals.WordValue` | ffbase/str-convert.h:23-31 | four characters, each the small or the capital letter or the figure of a base-16 digit of n, have the value n |
| `JsonLiterals.ShortEscape` | ffbase/json.h:453-470 | each of the eight escapes of two characters between quotes is returned as its byte, by a table of literals |
| `JsonLiterals.OnlyShorts` | ffbase/json.h:453-470 | no other character can follow the backslash so |
| `JsonLiterals.OnlyDigits` | ffbase/str-convert.h:23-31 | which characters pass for hexadecimal digits: the twenty-two, and the two before `A` and `a` |
| `JsonLiterals.SpaceIs` | ffbase/json.h:325-332 | space is exactly the four characters blank, tab, carriage return and line feed |
| `JsonLiterals.NumberCharacters` | ffbase/json.h:519-530 | a number is made of exactly the digits and `+-.eE` |
| `JsonLiterals.WordsAre` | ffbase/json.h:325-383 | the words and signs of the models are the texts they are named after |
| `JsonLiterals.RefusedAs` | ffbase/json.h:314-699 | which error each refusal gives, by the state it comes in, and by the byte only for a number that is too long and for a closing bracket of the wrong kind |
| `JsonLiterals.RefusedInside` | ffbase/json.h:384-516 | exactly which bytes are refused in strings, after a backslash, between surrogates and in comments |
| `JsonLiterals.RefusedBetween` | ffbase/json.h:602-699 | exactly which bytes are refused between tokens |
| `JsonLiterals.RefusedWords` | ffbase/json.h:518-582 | exactly which bytes are refused inside of words, and that a number may have 65 characters |
| `JsonLiterals.EscapeIs` | ffbase/json-writer.h:150-196 | the writer escapes just the control characters, the quote and the backslash, seven of them by two characters and the others by `\u00` and two capital digits |
| `JsonLiterals.NoZeros` | ffbase/str-convert.h:225-328 | a printed number has no zero in front |
| `JsonLiterals.Utf8Is` | ffbase/unicode.h:94-150 | how many bytes a character has, and which bits each of them carries |
| `JsonLiterals.DecodeIs` | ffbase/unicode.h:152-182 | for every first byte: the number of bytes it announces; decoding uses these and gives the sum of their bits, is refused if one of the others cannot follow, and asks for as many if there are fewer |
| `JsonLiterals.DecodeNothing` | ffbase/unicode.h:152-182 | an empty text asks for one byte, and a byte that cannot be the first of a character is refused |
| `JsonLanguage.AcceptedExactlySpelled` | ffbase/json.h:291-717 | for every text and option: it is accepted if and only if it is a spelling of a complete value, which space and comments may follow, and must if it is a bare number; or if it holds no value and ends in a comment up to the end of its line |
| `JsonLanguage.AcceptedIsSpelled` | ffbase/json.h:291-717 | an accepted text can be taken apart into tokens, space and comments, and the events returned are what the tokens mean |
| `JsonLanguage.CommentRead` | ffbase/json.h:384-420 | a slash between tokens of an accepted text starts a comment that is closed, or one up to the end of its line in which the text ends |
| `JsonLanguage.BlockSwallows` | ffbase/json.h:408-418 | a comment that its text does not close swallows the text: no event is returned, and the end is not accepted |
| `JsonLanguage.EvenStars` | ffbase/json.h:408-418 | two stars before the slash do not close a comment: an empty object after such a one is not seen |
| `JsonLanguage.OnePiece` | ffbase/json.h:427-516 | inside a string of an accepted text, what does not close it is a character or a well-formed escape, and adds the bytes it stands for |
| `JsonLanguage.NumberRead` | ffbase/json.h:518-551 | in an accepted text a number is followed by a byte that cannot belong to it, and the text up to there is read as a number |
| `JsonLanguage.TokenRead` | ffbase/json.h:314-699 | where a value, a key or a closing bracket may start in an accepted text, one that may stand there does |
| `JsonValidate.Validate` | ffbase/json.h:722-737 | the loop over one piece of input has the outcome `Validated`: the error of the text, or success if the end is accepted and the last event comes with the last byte, or else `FFJSON_EINCOMPLETE` |
| `JsonValidate.ValidatedExactly` | ffbase/json.h:722-737 | a text is validated if and only if it is accepted and its last event comes with its last byte |
| `JsonValidate.ValidatedWithoutComments` | ffbase/json.h:722-737 | with comments off: if and only if it is accepted and its last byte is no space |
| `JsonValidate.ValidatedExactlySpelled` | ffbase/json.h:722-737 | with comments off the validated texts are exactly the spellings of complete values, no bare numbers, with nothing after them |
| `JsonValidate.TrailingSpaceRefused` | ffbase/json.h:722-737 | an empty object with a space after it is accepted as a document and is not validated |
| `HashTable.Map.Alloc` | ffbase/map.h:102-115 | an empty table whose size is the least power of two that is at least 2 and what was asked for |
| `HashTable.Map.AddSlot` | ffbase/map.h:120-138 | the item goes into the first free slot of hash mod size, the next one and so on around the circle, and no other slot changes; the table holds one more copy of the pair, and no free slot comes between an item and its home |
| `HashTable.Map.Resize` | ffbase/map.h:142-161 | moving to a new buffer of the least sufficient power of two keeps all pairs |
| `HashTable.Map.Grow` | ffbase/map.h:166-172 | after growing by `by`, that many more items leave the table at most three quarters full, so adding them reallocates nothing, and all pairs are kept; the buffer changes if and only if it has no more than (len + by) * 100 / 75 slots, and then has the least power of two above that |
| `HashTable.RoomyEach` | ffbase/map.h:166-191 | room below the threshold for a number of items is room for each of them, one after the other |
| `HashTable.Map.AddHash` | ffbase/map.h:178-191 | one more copy of the pair, a valid table, and at least one free slot; the buffer is kept if and only if it is at most three quarters full with the new item; the first one has 16 slots, and each other one twice as many as the one before |
| `HashTable.Map.Normalize` | ffbase/map.h:206-231 | the backward scan with its repeated hole moves ends, the table loses exactly the removed pair, and every other item can still be reached from its home without crossing a free slot |
| `HashTable.Map.Search` | ffbase/map.h:239-261 | the search for removal never comes full circle; it finds the first item on the way with the hash and a match if there is one, and the free slot behind its run |
| `HashTable.Map.Rm` | ffbase/map.h:266-297 | removes the first item on the way that has the hash and a matching value if and only if there is one, and nothing else |
| `HashTable.Map.RmHash` | ffbase/map.h:234-264 | removes one copy of the pair if and only if it is there, and nothing else |
| `HashTable.Map.FindHash` | ffbase/map.h:301-324 | returns the first stored value on the way that has the hash and matches if there is one, else none |
| `HashTable.MoveKeeps` | ffbase/map.h:216-222 | moving an item whose home is not behind the hole into the hole leaves a new hole in the same situation |
| `HashTable.AllSettled` | ffbase/map.h:212-228 | when no item behind the hole may fill it, freeing it cuts no item off |
| `HashTable.HomeFirst` | ffbase/map.h:218-219 | counted from the slot behind the free one, no item stands before its home, so the source's comparison of distances decides rightly |
| `HashTable.FillKeeps` | ffbase/map.h:128-134 | filling the first free slot from home keeps every item reachable |
| `HashTable.RunFree` | ffbase/map.h:123-136 | the slot at which probing stops is the first free one of hash mod size, the next one and so on around the circle |
| `HashTable.PassedAll` | ffbase/map.h:306-321 | a search that meets a free slot has seen every item with the hash |
| `HashTable.BagSplit` | ffbase/map.h:206-231 | what a table holds is what the other slots hold and the pair in this one |
| `HashTable.BelowThreshold` | ffbase/map.h:184 | below the resize threshold there is room for one more item and still a free slot |
| `Powers.AlignPow2` | ffbase/base.h:409-415 | the least power of two that is at least n and at least 2 |
| `FnTree.Cursor.Next` | ffbase/fntree.h:203-216 | the next entry of the block, or none at its end with the cursor unmoved |
| `FnTree.Cursor.Push` | ffbase/fntree.h:220-230 | the position is saved and the walk goes into the entry's block; with 64 levels saved nothing changes and none is returned |
| `FnTree.Cursor.Pop` | ffbase/fntree.h:234-242 | undoes the last push |
| `FnTree.Cursor.NextR` | ffbase/fntree.h:248-274 | the cursor moves to the next entry in pre-order, or returns none after the last; at a directory for which the 64 levels of the stack have no place it returns none and stays, for good |
| `FnTree.Cursor.NextCtx` | ffbase/fntree.h:280-312 | returns the next entry in directory-first order, and none exactly when none is left before the first directory to list that has no place in the stack; then `full`, the point from which the code follows a NULL block, is reported if there is such a directory |
| `FnTree.Cursor.Search` | ffbase/fntree.h:297-310 | finds the next subdirectory to list, here or in the directories above, or none exactly when none is left before one without a place in the stack; how many entries are still to be listed is kept exactly |
| `FnTree.Cursor.NextPost` | ffbase/fntree.h:317-349 | returns the next block after all blocks inside it, and looks into no block that is freed already; it returns none exactly when none is left before the first directory for which the stack has no place |
| `FnTree.EnteredTodo` | ffbase/fntree.h:259-263 | visiting an entry leaves its own content and then the rest still to be visited |
| `FnTree.ScanInto` | ffbase/fntree.h:306-309 | entering a subdirectory lists it before the search goes on |
| `FnWalk.WalkTree` | ffbase/fntree.h:248-274 | the loop over the pre-order cursor visits the pre-order sequence up to the first directory that is too deep for the stack; on trees nested at most 64 levels all of it |
| `FnWalk.WalkDirectories` | ffbase/fntree.h:280-312 | the loop over the directory-first cursor visits all of a directory before what is inside its subdirectories; it comes to a directory without a place in the stack if and only if blocks are nested more than 64 levels, and what it has visited by then is an exact part of the sequence from its start |
| `FnWalk.FreeAll` | ffbase/fntree.h:352-363 | blocks are freed in post-order, each once, and none is looked into after; how many is exact for every tree, and it is all of them if and only if they are nested at most 64 levels |
| `FnWalk.ReachAll` | ffbase/fntree.h:248-274 | the pre-order walk visits everything if and only if no directory but the last entry is too deep |
| `FnWalk.DeepNest` | ffbase/fntree.h:220-230 | no directory is too deep if and only if blocks are nested at most 64 levels |
| `FnWalk.FreedAll` | ffbase/fntree.h:352-363 | the freeing walk leaves as many blocks as there are if and only if they are nested at most 64 levels |
| `FnWalk.FreedAfterInside` | ffbase/fntree.h:314-349 | in that order each block comes right after all the blocks inside it |
| `FnWalk.EachEntryOnce` | ffbase/fntree.h:248-274 | the pre-order visits each entry of each block of the tree once and nothing else |
| `FnWalk.PreOrder` | ffbase/fntree.h:248-274 | in pre-order an entry is followed by just what is inside it, that by the next entry of the same block, and its path ends in its name |
| `FnWalk.SameEntries` | ffbase/fntree.h:280-312 | the directory-first order visits the same entries as the pre-order, each as often |
| `FnCompare.CompareNames` | ffbase/string.h:822-828 | the sign of the comparison is the order of the names |
| `FnCompare.OrderEqual` | ffbase/string.h:822-828 | names compare equal only to themselves, and the comparison is antisymmetric |
| `FnCompare.OrderTransitive` | ffbase/string.h:822-828 | the order of names is transitive |
| `FnCompare.OrderIs` | ffbase/string.h:822-828 | the first different byte decides, and a name that the other one continues comes first |
| `FnCompare.Compare.constructor` | ffbase/fntree.h:399-409 | with both cursors on their first entries, all reports of the merge are still to come |
| `FnCompare.Compare.Choose` | ffbase/fntree.h:413-433 | the deeper cursor is reported first; at equal depth the names decide; done only when no cursor has an entry, or the one that has is not as deep; of cursors that are not lost: at equal depth both stand in the same directory, and done means that both are exhausted |
| `FnCompare.Compare.Next` | ffbase/fntree.h:413-443 | each call returns the next report of the merge of the two trees, and DONE when there is none left: the side, and of each side that has the path the block and the entry, which bears the last name of the path; it goes on so if and only if no cursor has to enter a directory for which its stack has no place; with a lost cursor it returns what the other one has left in its block at the last level, and then DONE |
| `FnCompare.CompareAll` | ffbase/fntree.h:412-443 | for every two trees: calling it until DONE gives the reports of the merge, each with its side, entries and blocks, up to the call at which a cursor is lost, and exactly all of them if none is; after a lost cursor there can only follow entries of one block of the other tree, in order, each reported for that tree alone, up to the first with a block attached |
| `FnCompare.DeepTrees` | ffbase/fntree.h:220-230 | no cursor is lost if and only if both trees are nested at most 64 levels |
| `FnCompare.ReachWhole` | ffbase/fntree.h:412-443 | the reports up to a lost cursor are all reports if and only if no report before the last is about a directory without a place |
| `FnCompare.LeaveLeft` | ffbase/fntree.h:265-273 | leaving a directory on one side keeps the two cursors in the same relative directories and changes no report to come |
| `FnCompare.StepBoth` | ffbase/fntree.h:434-440 | entries of the same name are reported together and their directories are entered together |
| `FnCompare.StepLeft` | ffbase/fntree.h:434-436 | an entry of the left tree alone is reported, and then everything inside it |
| `FnCompare.MergeShowsLeft` | ffbase/fntree.h:411-443 | what the reports show of the left side is the left tree in pre-order, path by path and entry by entry |
| `FnCompare.MergeShowsRight` | ffbase/fntree.h:411-443 | what the reports show of the right side is the right tree in pre-order, path by path and entry by entry |
| `FnCompare.MergeTested` | ffbase/fntree.h:380-430 | for every two trees and comparison: a report about both sides is about entries of the same name, and says that they differ if and only if the comparison does |
| `FnCompare.DefaultEqual` | ffbase/fntree.h:380-390 | with the comparison that never tells entries apart, a path is reported equal if and only if it is in both trees |
| `FnCompare.ReportsExact` | ffbase/fntree.h:411-443 | on trees with strictly sorted blocks each relative path is reported exactly once: equal or different if and only if it is in both trees, left or right if and only if in one |
| `Sorting.InsertionSort` | ffbase/sort-insertion.h:8-70 | the range is sorted and stable, the rest untouched, with at most n(n-1)/2 comparisons |
| `Sorting.Insert` | ffbase/sort-insertion.h:56-66 | one more element is in its place, after those not greater than it |
| `Sorting.MergeInto` | ffbase/sort-merge.h:81-96 | the loop writes the stable merge of the two halves up to what is left of one of them |
| `Sorting.CopyBack` | ffbase/sort-merge.h:98-103 | copying the left tail and all but the right tail completes the merge in place |
| `Sorting.MergeSort` | ffbase/sort-merge.h:20-104 | for any total preorder the range becomes its stable sorted permutation and nothing else changes, although one temporary buffer serves all levels; at most n*(ceil(log2 n) + K/2) comparisons with K = 64/elsize |
| `Sorting.Sort` | ffbase/sort.c:7-17 | the same for a whole array |
| `Sorting.StablePermutes` | ffbase/sort-merge.h:6-12 | a stable result is a permutation |
| `Sorting.OnlyOne` | ffbase/sort-merge.h:6-12 | there is only one sorted stable result |
| `Sorting.MergeSorted` | ffbase/sort-merge.h:81-96 | merging sorted halves gives a sorted sequence |
| `Sorting.MergeClass` | ffbase/sort-merge.h:83 | of equal elements those of the left half come first |
| `Sorting.InsertClass` | ffbase/sort-insertion.h:59-64 | moving an element before greater ones keeps equal elements in order |
| `Sorting.CeilLog2Is` | ffbase/sort-merge.h:29-43 | the number of halvings is the least k with n <= 2^k |
| `Calendar.SplitDenotes` | ffbase/time.h:163-209 | for times whose day plus 306 is at most 10737418, splitting gives a valid date that denotes the time, with its weekday and day of the year |
| `Calendar.SplitExact` | ffbase/time.h:163-209 | and for no others: beyond, a 32-bit product overflows and the result denotes another time or no date |
| `Calendar.SplitYearOverflows` | ffbase/time.h:177-183 | where the product overflows, the computed day of the year is at least 1000 |
| `Calendar.JoinCounts` | ffbase/time.h:116-145 | joining a valid date from year 1 on gives its day number (modulo 2^32) and its seconds; before year 1 its seconds alone |
| `Calendar.JoinAnyDate` | ffbase/time.h:127-144 | any date with a year, a month and a day is joined, months above 12 as months of later years and days as counted on from the first of the month, with its seconds, in 32-bit arithmetic |
| `Calendar.JoinNoDate` | ffbase/time.h:118-126 | without a year, month or day, or before year 1, just hours, minutes and seconds are joined |
| `Calendar.Epoch` | ffbase/time.h:116-209 | the first day of 1970 is day 719162, a Thursday and the first day of its year, split and joined |
| `Calendar.CompareIs` | ffbase/time.h:60-70 | times are compared by the nanoseconds since the same moment |
| `Calendar.JoinSplit` | ffbase/time.h:116-209 | joining undoes splitting for every time in range |
| `Calendar.SplitJoin` | ffbase/time.h:116-209 | splitting undoes joining for a valid date if and only if its day number plus 306 is at most 10737418 |
| `Calendar.JoinMonotone` | ffbase/time.h:60-70 | of two valid dates the earlier is joined to the earlier time if and only if their day numbers modulo 2^32 are in order, or equal and the times of day are in order; so always when no multiple of 2^32 lies between the day numbers |
| `Calendar.JoinOrderLost` | ffbase/time.h:116-145 | the first days of the years 11759222 and 11759223 are joined in the wrong order |
| `Calendar.NanosecondsJoined` | ffbase/time.h:118-123 | nanoseconds of a second or more are carried rightly if and only if their quotient and remainder by 10^9 happen to be equal, because the code swaps them |
| `Calendar.NanosecondsLost` | ffbase/time.h:118-123 | one and a half seconds of nanoseconds become half a billion seconds and one nanosecond |
| `Calendar.ValidIsDate` | ffbase/time.h:92-110 | the range check accepts exactly the days of the Gregorian calendar in every year but 0, negative years included, with a time of day |
| `Calendar.SplitYearIs` | ffbase/time.h:176-183 | the approximate year needs at most one correction |
| `Calendar.SplitMonthIs` | ffbase/time.h:185-203 | month, day and day of the year from the day counted from March |
| `Calendar.DayNumberIs` | ffbase/time.h:127-144 | the closed formula for days is the sum of the lengths of the years and months before |
| `Calendar.DayNumberGrows` | ffbase/time.h:127-144 | a later date has a greater day number |
| `Streaming.Stream.Gather` | ffbase/stream.h:81-144 | takes exactly the n bytes the request needs: with nothing there and an input longer than what is needed the whole of it as a view, modulo 2^32; nothing if the view still holds more than is needed, or if the request is above the capacity, and only then is there no output; else what is missing; the output is all accepted and not consumed bytes in one piece, except that of an input of 2^32 bytes or more the whole is handed out, with at least `need` of them unless the whole input was taken |
| `Streaming.Stream.TopUp` | ffbase/stream.h:118-143 | takes exactly what is missing or all there is, moving the data to the front when the tail is too short |
| `Streaming.Stream.MoveToFront` | ffbase/stream.h:120-127 | the data keep their order, and the counters still agree after wrapping at 2^32 |
| `Streaming.Stream.Append` | ffbase/stream.h:132-140 | bytes go behind the data, never around the end of the buffer |
| `Streaming.Stream.Unview` | ffbase/stream.h:107-115 | a view that is too short is copied into the buffer |
| `Streaming.Stream.Consume` | ffbase/stream.h:146-150 | the first n bytes are gone, and the rest is still one piece |
| `Streaming.Stream.Reset` | ffbase/stream.h:58-62 | drops all that is there, in the buffer or in the view |
| `Streaming.Stream.Realloc` | ffbase/stream.h:28-50 | growing keeps the data, in the buffer or in the view, if and only if the old buffer was not too large for its 32-bit field, or the data are in the view, or they fit the new buffer; the capacity is at least what was asked for if and only if that is at most 2^31, because its 32-bit field holds nothing of a greater power of two |
| `Streaming.ReallocOverruns` | ffbase/stream.h:38-42 | with three elements in a buffer of 2^32 a request for two copies past the new buffer |
| `Streaming.Truncated` | ffbase/stream.h:28-50 | the least power of two above 2^31 leaves 0 in the field for the capacity and 2^32 - 1 in the mask |
| `Streaming.Stream.View` | ffbase/stream.h:69-76 | all accepted and not consumed bytes |
| `Streaming.WordIndex` | ffbase/stream.h:66-72 | a counter that wraps at 2^32 still points at the same place of a power-of-two buffer |

## Left out

- Weak memory, fences, spinning and yielding: waits are guarded steps, and memory is sequentially consistent.
- Finishing an empty reservation of the byte ring with several writers or readers: callers skip it, as `ffring_write` does.
- The optional amounts that ring operations report, which may be stale when they are returned.
- How much a ring operation in a `max` or `min` mode reserves after a failed compare-and-swap, beyond what it checks at the moment it reserves: the amount asked for is not restored between tries, and the model keeps that.
- Allocation failure: memory is always there.
- Node keys of the red-black tree are numbers that do not change; the other data of an intrusive node, an insert function supplied by the user, and the unused hint of `ffrbt_insert` are not modelled.
- Which texts `ffs_tofloat` accepts is a parameter, as is the text of at most `FFS_FLTCAP` characters that `ffs_fromfloat` gives a number; the values are not modelled, so a number event carries its text.
- The negation of -2^63, which C leaves undefined, is taken to wrap, in the conversion from integers as in the one to integers.
- JsonParser.Parser.Parse: when an event comes with the last byte of a piece, its text may still refer to that piece, and a later call on the next piece that asks for more copies it from there (json.h:708-711), so the caller has to keep the old piece until then; the model's reference holds the piece itself and does not show this.
- JsonText.Escape: what becomes of the memory behind the destination after `overrun`.
- `ffjson_unescape`, `ffjson_strval_acquire` and the scheme-driven reader of `ffbase/json-scheme.h`.
- What the JSON reader does when it is called again after an error.
- Conversions between UTF-8 and other encodings.
- Values and keys of the hash table are plain identities with a comparison that depends only on the value; hash functions and statistics are not modelled. The two removal functions share one search, which differs only in the comparison.
- Capacities of the hash table and the ring are reckoned in unbounded integers.
- `FF_ASSERT` in the stream is taken as switched off; a request above the capacity returns nothing.
- Streaming.Stream.Realloc: when the copy goes past the new buffer nothing is said of the state after it.
- FnWalk.WalkDirectories: what the source does with the NULL block when the stack is full is not modelled, only that and when it comes to that.
- Using a file-name cursor again after it has returned its end.
- Building file-name trees: packing entries and names into blocks of memory.
- A caller's comparison of entries that does not order them by name first.
- Sizes of elements matter in the sort only for the threshold of the insertion sort; the special loops for sizes 1, 4 and 8 are one loop.
- `fftime_add`, `fftime_sub`, date and time text formats, and splitting times before year 1.
- A caller that changes input a stream or the JSON reader still refers to.
- Spinlocks, lists, vectors, slices, formatting, other parsers, CPU features and checksums, which would add only easier claims.
