# Verified models of four systems-programming components

The repository holds a heap allocator, a Morse cipher, the shared structures of a key-value cache and a Unicode
transcoder, all in C. This project models each of them in Dafny, in the form the C has (objects and buffers that
methods change in place, loops, and for the cache the steps of its threads), and proves what each is for.

`dafny verify dfyconfig.toml` checks everything.

## The heap allocator (hw3)

`SegSpec` describes a heap from outside: blocks that tile it, in units of 16 bytes, and four lists of free blocks.
`SegOps` gives `sf_malloc`, `sf_free` and `sf_realloc` as functions on such heaps and proves their effect: what is
live afterwards, maximal coalescing, how many pages a request costs, and the invariant over every run.
`SegHeap` is the memory as the C sees it, tag words, link words and payload, and when it represents a heap.
`SegAllocator.Heap` does the work on that memory with the loops of sfmm.c; every method is proved against `SegOps`, and
every method says that the words of all other live blocks stay as they are.

Where sfmm.c cannot be meant as it stands, the model follows the intention: the fresh remainder of a split is on no list
and is not unlinked (sfmm.c:155-164); the backward merge also takes the block at the heap start, unlinks each block from
the list of its size before the merge and clears the new block's prev link (sfmm.c:199-231); `sf_realloc` copies from
payload to payload (sfmm.c:277) and notes the new request when the size fits exactly (sfmm.c:327-329).
`SegLiteral` takes the backward merge, the unlinking and the exact fit as they stand and says exactly when they are right.

## The fractionated Morse cipher (hw1)

`MorseTables` holds the two tables. `MorseCodec` is the cipher in batch form (signs of a line, separators, triples, the
residue dropped) and the decoder as a machine over signs. `MorseStream` and `MorseUnstream` are the program's loops over
its zero-terminated buffers, proved to print what the batch form and the machine say. `MorseRoundTrip` proves what comes
back of lines, `MorseLead` of a first line that stands behind a separator, `MorseText` of texts that end with a newline
and `MorseOpen` of those that do not; `MorseProgram` puts the two loops together. `KeyTable` is the in-place
construction of the keyed tables.

`careful` chooses at a line end between printing a waiting word gap before the last letter (the intention) and not
printing it (main.c:50-85 as it stands). Texts are of letters, blanks and newlines. For those that end with a newline
`MorseText.RoundTrip` says for both choices what comes back (`Back`) and that it is the text with its blanks squeezed if
and only if the text is `Kept`. If the text begins with a letter or with two blanks it is kept by the first choice
always, by the second exactly if no line is `Swallowed`; "S E" is. A first character that is a newline or a blank is
never printed by main.c:151-155, only its separator stays: a text that begins with a newline is never kept, and one
that begins with a single blank is kept only as written, if its first line is one letter of one sign and no other line
is swallowed. Without a newline at the end the last line's residue is dropped and its last letter is not printed by a
line end: `MorseOpen.OpenRoundTrip` proves that such a text comes back if and only if the lines before do and the last
line has no letters, or ends with a blank and its signs do not fill the triples exactly; a text of one line that begins
with a single blank and a letter never does.

## The cache's hash map and queue (hw5)

`HashTable`, `HashOps`: the probing table as slots, its invariant, the operations, and that any run of them is a run of
a bounded map. `HashMap.HashMap` is the object with its probe loops. `HashThreads` is the protocol of any number of
threads, one lock or field at a time: readers read a slot a step, writers store a field a step, and each store to size
and to num_readers and each unlock is a step of its own. A writer's call takes effect when it stores the size, a
reader's when it counts itself out. `HashProtocol` proves exclusion, linearizability and freedom from deadlock over every
run, and `HashCalls` that no call returns without having taken effect. `HashLiteral` takes the lines of put and delete
as they stand and says on exactly which inputs they are right.

The model follows the intention where hashmap.c departs from its header: delete marks the slot where it found the key
(hashmap.c:190), the size changes with the number of live slots (hashmap.c:103, 193), a forced put on a full table
overwrites the key if it is there (hashmap.c:62-67), and a writer's test for readers and its taking of the lock are one
step (hashmap.c:51-53). One more departure is needed for threads: put looks at the size without a lock (hashmap.c:46),
so two puts can both see the last free slot and the second one stores through a null pointer. The model looks again
under the locks. `SafeIff` proves that every run of so many threads is safe if and only if both repairs are made or there
is one thread at most: with the locking as it stands (and the size counted right) exactly callers that keep to one
thread are safe. The runs that break it for more are given.

`Queue.Queue` is the linked list with its sentinel node. `QueueThreads` is enqueue and dequeue step by step among any
number of threads, and `QueueCalls` shows that none of the calls is lost.

## The Unicode transcoder (hw2)

`Utf8`, `Utf16`: the two encodings (sections 3 and 4 of RFC 3629, sections 2.1 and 2.2 of RFC 2781), with unique decoding,
the byte strings that are encodings, and the order of encodings. `UtfStreams`: the loops over a file body, the round
trip, and the change of byte order. The loops are modelled on every input, well-formed or not, with whatever their
uninitialised buffers hold at first: bytes of a glyph that the input does not have any more, a lower unit that nobody
wrote, surrogate halves or-ed in 32 bits.

`strict` chooses between surrogate ranges with and without their bounds (utf.c:100, 106), and `asWritten` between the
repaired test in the loop of utf16le.c and the one that looks at the old lower unit (utf16le.c:24). For both the exact
inputs on which the code as written is right are proved.

## Model

| member | source | states |
|---|---|---|
| SegOps.MallocInv | hw3/src/sfmm.c:30-238 | sf_malloc keeps the invariant. On success exactly one new live block appears, cut from the first large enough block of the lowest list that can serve, with as few units as hold the request (one more only if that would be all of it); the remainder heads its list, everything else is as it was, and pages are asked for only if nothing could serve. On refusal nothing live changes, no page is left and nothing can serve; bad sizes change nothing |
| SegOps.FitIsFirst | hw3/src/sfmm.c:79-90 | the search fails only if no block is usable, and takes one from the lowest list that has any |
| SegOps.FitIsChosen | hw3/src/sfmm.c:79-90 | the block found is the first large enough one on the lowest list that can serve |
| SegOps.PassedOver | hw3/src/sfmm.c:83 | of the free blocks large enough, exactly those are skipped that fit to the byte and have 128, 512 or 2048 bytes |
| SegOps.TakeInv | hw3/src/sfmm.c:91-171 | splitting off a request keeps the tiling and the lists and adds exactly the new block to the live ones; its size is the least that will do, the remainder heads its list, and nothing else changes |
| SegOps.ClaimFits | hw3/src/sfmm.c:111-127 | the block handed out is padded exactly when it is larger than request and tags, and has no more units than needed, or one more if otherwise exactly one would be left |
| SegOps.GrowMergesTail | hw3/src/sfmm.c:184-231 | after a page of growth the whole free end of the heap is one block, a page larger |
| SegOps.ServePages | hw3/src/sfmm.c:184-234 | grow and retry ends, asks for the missing pages at most, and is refused only when sf_sbrk is |
| SegOps.MallocPages | hw3/src/sfmm.c:30-234 | a call asks for no more pages than would hold the request alone, at most five, and succeeds when they are left |
| SegOps.Release | hw3/src/sfmm.c:334-411 | sf_free keeps the invariant and the heap size, removes exactly the one live block, and the merged free block ends at a live block or the heap end |
| SegOps.ReleaseRest | hw3/src/sfmm.c:389-406 | the merged block is at the head of its list, and every other block is what and where it was, in the same order on its list |
| SegOps.ReleaseTo | hw3/src/sfmm.c:356-376 | absorbing a run of free blocks that ends at a live block or the heap end is the release |
| SegOps.RunEndMaximal | hw3/src/sfmm.c:358-376 | the run absorbed is all free and what follows is not |
| SegOps.CutInv | hw3/src/sfmm.c:282-318 | cutting a live block keeps the invariant, and what is cut off is a live block ready to be freed |
| SegOps.Move | hw3/src/sfmm.c:272-281 | growing gives a tight block for the new size elsewhere and releases the old one, or fails with nothing live changed |
| SegOps.MoveServes | hw3/src/sfmm.c:272-281 | the new block is one that sf_malloc would hand out while the old one is still there; failing, no page is left and nothing can serve, or the size is too large and nothing changes |
| SegOps.Shrink | hw3/src/sfmm.c:282-329 | shrinking and refreshing leave the block in place with as few units as hold the new size, or one more if that is all it had, and the heap as large as it was |
| SegOps.ShrinkRest | hw3/src/sfmm.c:301-318 | what is cut off is one free block with the free ones behind it and heads its list; everything else is as it was |
| SegOps.Resize | hw3/src/sfmm.c:240-331 | sf_realloc by cases: released, moved, resized in place, or refused; the invariant holds after each |
| SegOps.ReachableInv | hw3/src/sfmm.c:30-411 | every heap reachable by any sequence of calls satisfies the invariant |
| SegOps.WalkTiles | hw3/src/sfmm.c:352-376 | walking from header to header visits every block and their sizes add up to the heap |
| SegHeap.AcceptsLive | hw3/src/sfmm.c:336-354 | at a block's start the checks of sf_free accept exactly the live blocks, so a freed one fails while its start is a free block's |
| SegHeap.AcceptsReads | hw3/src/sfmm.c:336-354 | wherever the pointer leads, the checks accept exactly what reads as the tags of a live block, the size in the footer aside |
| SegHeap.PayloadsApart | hw3/src/sfmm.c:103-104 | payloads of live blocks lie inside the heap and share no byte |
| SegHeap.WriteInside | hw3/src/sfmm.c:123-138 | writes within an unlisted block change nothing the rest of the memory says |
| SegHeap.UnlinkHolds | hw3/src/sfmm.c:362-374 | bypassing a block leaves memory that represents the heap without it on its list, links still mutually inverse |
| SegHeap.LinkHolds | hw3/src/sfmm.c:391-406 | putting a block at the head of its list leaves memory that represents the heap with it listed |
| SegAllocator.BinOf | hw3/src/sfmm.c:401 | the first list whose bound is not below the size, which is the one whose range holds it |
| SegAllocator.Heap.constructor | hw3/src/sfmm.c:18-23 | an empty heap with four empty lists |
| SegAllocator.Heap.Unlink | hw3/src/sfmm.c:362-374 | the block is off its list and every live word is untouched |
| SegAllocator.Heap.InsertHead | hw3/src/sfmm.c:391-406 | the block is first on the list of its size and the memory is valid again |
| SegAllocator.Heap.Coalesce | hw3/src/sfmm.c:358-376 | the forward loop stops at a live block or the heap end with everything before absorbed |
| SegAllocator.Heap.Free | hw3/src/sfmm.c:333-411 | aborts exactly for what is not live, else leaves the released heap; no other live word changes |
| SegAllocator.Heap.CoalesceBack | hw3/src/sfmm.c:195-219 | the backward loop stops at a used block or the heap start with everything after absorbed |
| SegAllocator.Heap.GrowPage | hw3/src/sfmm.c:184-231 | a page more, merged with the free end of the heap; no live word changes |
| SegAllocator.Heap.Search | hw3/src/sfmm.c:79-181 | finds the block the specification names, walking the links in memory |
| SegAllocator.Heap.Measure | hw3/src/sfmm.c:72-120 | size, padding and absorbed splinter are those of the specified block |
| SegAllocator.Heap.Place | hw3/src/sfmm.c:91-171 | the memory after a split is that of the specified heap, live words untouched |
| SegAllocator.Heap.ServeRequest | hw3/src/sfmm.c:72-238 | search, growth and retry on memory do what the specification says, and end |
| SegAllocator.Heap.Malloc | hw3/src/sfmm.c:30-238 | heap and reply are those of the specification and no word of an earlier allocation changes |
| SegAllocator.Heap.CopyPayload | hw3/src/sfmm.c:277 | the first n payload bytes of one block are those of the other; all other live blocks keep theirs |
| SegAllocator.Heap.ShrinkTo | hw3/src/sfmm.c:282-325 | the block is cut and its rest freed; the payload words up to the new size stay |
| SegAllocator.Heap.Refresh | hw3/src/sfmm.c:327-329 | an exact fit has its request and padding noted anew and its payload kept |
| SegAllocator.Heap.Realloc | hw3/src/sfmm.c:240-331 | heap and reply are those of the specification, the first min(old request, new size) bytes are kept, or all of the old block if the call fails; no other live word changes |
| SegLiteral.GrowsRight | hw3/src/sfmm.c:195-219 | the backward loop as written, block by block from the heap's end, stops at the start of the free tail if and only if something is allocated |
| SegLiteral.IdleHeapExample | hw3/src/sfmm.c:199 | an idle heap of one page, asked for 4096 bytes, has no usable block after growing as written and has one as intended |
| SegLiteral.UnlinksRight | hw3/src/sfmm.c:203-217 | unlinking by the merged size is right if and only if the block is not at the head of its list or its list does not change |
| SegLiteral.ExactFit | hw3/src/sfmm.c:327-329 | as written an exact fit leaves what sf_realloc promises, a block that records the new request, if and only if the old request was the same; otherwise the recorded one is smaller |
| MorseTables.MorseInjective | hw1/src/const.c:13 | no two characters share a Morse code |
| MorseTables.LetterCodes | hw1/src/const.c:13 | the letters have the international codes |
| MorseTables.DigitCodes | hw1/src/const.c:13 | digits are dots before dashes up to five and dashes before dots above |
| MorseCodec.EncodableChars | hw1/src/const.c:13 | which characters have a code |
| MorseTables.FracIsBase3 | hw1/src/const.c:16-20 | the fractionated table lists all triples over three signs in order, except xxx |
| MorseTables.FracInjective | hw1/src/const.c:16-20 | no two entries are the same triple |
| MorseEncode.CipherTail | hw1/src/main.c:185-198 | the separators at a line end fill up the last triple or are dropped; no letter's sign is |
| MorseEncode.TabsAreSpaces | hw1/src/main.c:162-184 | a tab is enciphered as a space is |
| MorseEncode.EncipherStops | hw1/src/main.c:153-182 | at a character without a code the program stops with what was printed before it, and no more than a letter in its place would have made it print |
| MorseText.EncipherAny | hw1/src/main.c:149-200 | every text that ends with a newline is enciphered line by line: the letters' stream of each line, filled up with separators, cut into triples; if it begins with a newline or a blank, a line that starts right behind it has two separators on its stream first |
| MorseOpen.EncipherOpen | hw1/src/main.c:149-200 | so is one that does not, but of the last line only the whole triples are printed, and of a text of one character nothing |
| MorseStream.Append | hw1/src/hw1.c:257-268 | signs go behind what the buffer holds, as far as it has room |
| MorseStream.EncryptMorse | hw1/src/hw1.c:252-299 | with room for six signs no code is cut off; false exactly for characters without a code |
| MorseStream.FindTriple | hw1/src/hw1.c:346-360 | the entry of the triple table that stands in the first three cells |
| MorseStream.BufferEncrypt | hw1/src/hw1.c:340-370 | prints the cipher of the whole triples and leaves the residue, at most two signs |
| MorseStream.EncryptNext | hw1/src/main.c:156-199 | each turn prints exactly the whole triples of the line's stream so far, at most two signs stay |
| MorseStream.EncryptText | hw1/src/main.c:149-200 | the streaming loop prints the batch form, whether it ends well or at a character without a code |
| MorseDecode.TripleRead | hw1/src/hw1.c:301-328 | a triple that is not all separators has one cipher letter, and that letter reads as the triple |
| MorseDecode.CipherRead | hw1/src/main.c:47-147 | reading the cipher text of a stream is reading the stream sign by sign |
| MorseDecode.GroupRead | hw1/src/main.c:93-136 | a group of signs is printed as the character whose code it is; the program fails exactly if there is none |
| MorseUnstream.FindX | hw1/src/hw1.c:330-338 | the first separator in the buffer, or -1 if there is none |
| MorseUnstream.FindLetter | hw1/src/main.c:111-133 | the comparison loops find the first table entry equal to the buffer |
| MorseUnstream.CutOff | hw1/src/main.c:137-145 | the buffer loses the signs up to the separator |
| MorseUnstream.PrintLetters | hw1/src/main.c:93-146 | prints letter after letter as the sign machine does, gaps included |
| MorseUnstream.DecryptMorse | hw1/src/hw1.c:301-328 | the triple of a cipher letter goes behind what the buffer holds |
| MorseUnstream.FinishLine | hw1/src/main.c:50-85 | the letter still in the buffer is printed at a line end, with or without a waiting gap |
| MorseUnstream.DecryptText | hw1/src/main.c:39-148 | the deciphering loop prints what the sign machine prints and ends as it does |
| MorseRoundTrip.SqueezedTwice | hw1/src/main.c:158-190 | what comes back is a normal form: squeezing it again changes nothing and its letters and gaps are those of the line |
| MorseLead.LedRead | hw1/src/main.c:87-146 | a line behind two separators comes back with a space before it, which as written is lost or moved exactly if the line ends with a one-letter word on a full triple |
| MorseText.RoundTrip | hw1/src/main.c:39-201 | for every text of letters, blanks and newlines that ends with a newline: what comes back of it enciphered, with and without the gap at line ends, and that this is the text squeezed if and only if it is Kept, a condition on its first line and on its swallowed lines |
| MorseOpen.OpenRoundTrip | hw1/src/main.c:39-201 | for every other text: it deciphers without failure and comes back squeezed if and only if the lines before the last one do and all letters of the last one fit the whole triples with a separator behind them |
| MorseText.LeadExamples | hw1/src/main.c:151-190 | a text's first newline comes back as a space; a first blank before a letter stays, two do not |
| MorseOpen.OpenExamples | hw1/src/main.c:149-200 | without a newline "A" does not come back, "A " does and "S " does not |
| MorseRoundTrip.SwallowedExample | hw1/src/main.c:50-85 | "S E" comes back as "SE" |
| MorseProgram.TableOfKey | hw1/src/hw1.c:230-250 | every key of distinct letters gives a table the cipher can use |
| MorseProgram.ModestText | hw1/src/main.c:41-90 | the decoder's buffer never overflows on an enciphered text that ends with a newline |
| MorseProgram.ModestOpen | hw1/src/main.c:41-90 | nor on any other enciphered text |
| MorseProgram.ThereAndBack | hw1/src/main.c:37-201 | a run of each loop under one key gives, for every text of letters, blanks and newlines, the text squeezed if and only if it is kept, and what RoundTrip says if it ends with a newline |
| KeyTable.TableIsPermutation | hw1/src/hw1.c:230-250 | key and remaining letters are the alphabet rearranged |
| KeyTable.MinusAscending | hw1/src/hw1.c:230-250 | behind the key exactly the letters it does not have follow, in alphabetical order |
| KeyTable.GenerateMorseTable | hw1/src/hw1.c:230-250 | write and take back leaves the key and then the alphabet without it |
| KeyTable.GeneratePolybiusTable | hw1/src/hw1.c:169-200 | the cells hold the key and the letters the loop reached; once the alphabet is through, all cells behind it that the loop still gets to are zero and later ones unchanged |
| KeyTable.PolybiusLetters | hw1/src/hw1.c:181-197 | the table has a letter exactly if the key has it or it is among the first of the alphabet, as many as there are cells behind the key |
| KeyTable.PolybiusComplete | hw1/src/hw1.c:181-197 | the table is complete if and only if the key has every letter not reached; cells for key and alphabet suffice |
| HashTable.CountIsSize | hw5/src/hashmap.c:46 | live slots are as many as the keys of the map |
| HashTable.Ring | hw5/src/hashmap.c:76-82 | a probe goes upwards modulo the capacity |
| HashTable.ProbeFinds | hw5/src/hashmap.c:136-144 | a probe stops at a key exactly if the map has it, and at its value |
| HashTable.TombThere | hw5/src/hashmap.c:72-98 | with room left, a probe that comes full circle has passed a tombstone |
| HashOps.TargetFits | hw5/src/hashmap.c:61-102 | put's slot holds the key if the map has it; else it is not live unless the table is full, and then it is the home slot |
| HashOps.TargetIs | hw5/src/hashmap.c:61-102 | put writes to the first slot from hash modulo capacity on, upwards and round the end, that is empty or has the key; else to the first tombstone; else to slot hash modulo capacity |
| HashOps.PlaceMap | hw5/src/hashmap.c:85-102 | storing at a fitting slot adds the key and removes exactly the key the slot held |
| HashOps.BuryMap | hw5/src/hashmap.c:177-192 | a tombstone on a live slot removes exactly its key, and reachability of the others is kept |
| HashOps.ApplyMap | hw5/src/hashmap.c:41-227 | every operation keeps the table's invariant and changes the map as specified, a forced put on a full table evicting the key in slot hash modulo capacity |
| HashOps.ApplyAnswer | hw5/src/hashmap.c:41-227 | every answer is told by the map and the capacity alone |
| HashOps.RunAllowed | hw5/src/hashmap.c:41-227 | any run of operations is a run of a bounded map, answers included |
| HashOps.FreshIsEmpty | hw5/src/hashmap.c:20-39 | a new or cleared table is the empty map |
| HashMap.CreateMap | hw5/src/hashmap.c:20-39 | null exactly for zero capacity, no hash function or no destroy function, else an empty map |
| HashMap.HashMap.constructor | hw5/src/hashmap.c:25-38 | a valid, empty map of the capacity |
| HashMap.HashMap.Seek | hw5/src/hashmap.c:129-144 | the loop ends and stops where the specified probe does |
| HashMap.HashMap.SeekTomb | hw5/src/hashmap.c:72-83 | the same, with the first tombstone passed |
| HashMap.HashMap.Put | hw5/src/hashmap.c:41-110 | slots, map and answer after put, and the size kept equal to the live slots; which slot is written, and which key a forced put throws out, in terms of hash modulo capacity |
| HashMap.HashMap.Get | hw5/src/hashmap.c:112-156 | the map's value, or none |
| HashMap.HashMap.Delete | hw5/src/hashmap.c:158-198 | the key leaves the map, its node is returned, and its slot gets the tombstone and keeps key and value |
| HashMap.HashMap.ClearMap | hw5/src/hashmap.c:200-227 | the destroy function is called on every slot once, in order; then every slot is blank and the map empty |
| HashMap.HashMap.InvalidateMap | hw5/src/hashmap.c:229-258 | succeeds once, with the same calls of the destroy function; the map is invalid afterwards |
| HashLiteral.PutRight | hw5/src/hashmap.c:62-103 | as written put goes right if and only if the key is new, or the table is full and the put is refused or meets the key at home |
| HashLiteral.DeleteRight | hw5/src/hashmap.c:173-193 | as written delete goes right if and only if the key is in its home slot |
| HashLiteral.DeleteLeavesKey | hw5/src/hashmap.c:188-191 | otherwise the key stays and the home slot's key goes |
| HashLiteral.PutDerefsNull | hw5/src/hashmap.c:92-96 | put stores through the null tombstone if and only if the size is wrong, all slots are live and none has the key |
| HashLiteral.NullDerefExample | hw5/src/hashmap.c:92-96 | put, delete of another key, put: in a cache of one entry the second put does so |
| HashThreads.ScriptPlays | hw5/src/hashmap.c:85-102 | a writer's field stores add up to the sequential operation |
| HashThreads.NextKeeps | hw5/src/hashmap.c:41-227 | each step of each thread, a single load, store or lock operation on the shared fields, keeps the protocol's invariant |
| HashThreads.ReachableInv | hw5/src/hashmap.c:41-227 | the invariant holds in every state of every run |
| HashProtocol.Exclusion | hw5/src/hashmap.c:50-53 | no reader is counted in between a writer's two stores to num_readers, one writer stores at a time, num_readers tells the readers, no null store |
| HashProtocol.Linearizable | hw5/src/hashmap.c:41-227 | the calls in the order they took effect are a run of a bounded map, also as seen by a put that reads the size without a lock |
| HashCalls.CallsTakeEffect | hw5/src/hashmap.c:41-227 | the calls a thread has begun are those its steps have logged, in order, and the one it is at: a call that is over took effect exactly once, between its begin and its return |
| HashCalls.NoCallLost | hw5/src/hashmap.c:41-227 | over all threads the calls begun are those logged and those still to take effect |
| HashProtocol.GetAnswers | hw5/src/hashmap.c:112-156 | a get answers with the map's value at the step that ends it |
| HashProtocol.NoDeadlock | hw5/src/hashmap.c:50-53 | while a call is under way some thread in a call can take a step |
| HashProtocol.ReaderSlipsIn | hw5/src/hashmap.c:51-53 | with the test apart from the lock, a run in which a reader reads while a writer stores |
| HashProtocol.SecondPutCrashes | hw5/src/hashmap.c:46-49 | with the size looked at only before the locks, a run in which the second of two puts stores through null |
| HashProtocol.SafeIff | hw5/src/hashmap.c:46-66 | all runs of so many threads are safe if and only if both repairs are made or there is at most one thread |
| HashProtocol.AloneAlways | hw5/src/hashmap.c:46-66 | a single thread finds the size it looked at unchanged under the locks, in every state of every run, repaired or not |
| Queue.Queue.constructor | hw5/src/queue.c:9-20 | an empty queue of one sentinel node |
| Queue.Queue.Enqueue | hw5/src/queue.c:45-62 | the item is last; refused exactly for null or an invalid queue |
| Queue.Queue.Dequeue | hw5/src/queue.c:64-82 | the first item leaves and is returned |
| Queue.Queue.Invalidate | hw5/src/queue.c:22-43 | every queued item is destroyed once, in order, then the sentinel's null |
| QueueThreads.StepKeeps | hw5/src/queue.c:45-82 | each step of each thread keeps lock, list and count in agreement |
| QueueThreads.ReachableInv | hw5/src/queue.c:45-82 | so it is in every state of every run |
| QueueThreads.LengthIsClaims | hw5/src/queue.c:54-72 | the list is as long as the semaphore's count and the dequeuers past it, and one more between link and post |
| QueueThreads.TakesItem | hw5/src/queue.c:76-79 | a dequeue never takes the sentinel; it takes the oldest item |
| QueueThreads.RemovedIsPrefix | hw5/src/queue.c:45-82 | the items removed are a prefix of those enqueued, in lock order |
| QueueThreads.HandsOut | hw5/src/queue.c:76-81 | a dequeue returns the item it took off |
| QueueThreads.NoLostItem | hw5/src/queue.c:57-72 | when every call is over or waits, the count is the number of items left, so none waits at a filled queue |
| QueueCalls.CallsTakeEffect | hw5/src/queue.c:45-82 | the calls a thread has begun are those that took effect in its steps, in order, and the one it is at: an enqueue that is over has linked its item once, a dequeue that is over has taken one off |
| QueueCalls.NoCallLost | hw5/src/queue.c:45-82 | enqueues of an item begun are as many as the item was enqueued and enqueues still to do so; dequeues begun are as many as items removed and dequeues still to do so |
| Utf8.LeadTellsSize | hw2/src/utf8.c:178-194 | the lead byte tells how many bytes follow |
| Utf8.RemainingRanges | hw2/src/utf8.c:178-194 | how many bytes follow each byte that may stand first, well formed or not |
| Utf8.DecodeEncode | hw2/src/utf8.c:109-248 | decoding an encoded code point gives it back |
| Utf8.EncodeWellFormed | hw2/src/utf8.c:78-176 | the encodings of scalar values follow the syntax of section 4 of RFC 3629 |
| Utf8.WellFormedIsEncoding | hw2/src/utf8.c:109-248 | every byte string of that syntax is the encoding of the scalar value it decodes to |
| Utf8.Shortest | hw2/src/utf8.c:78-92 | no shorter byte string decodes to the same code point |
| Utf8.AsciiIsItself | hw2/src/utf8.c:109-117 | ASCII text is its own encoding |
| Utf8.EncodeGlyph | hw2/src/utf8.c:109-176 | the shifting loops produce the encoding |
| Utf8.DecodedUtf8 | hw2/src/utf8.c:24-33 | what the reading loop decodes from an encoding is the sequence encoded, whatever its buffer held |
| Utf8.Injective | hw2/src/utf8.c:70-248 | different sequences have different encodings |
| Utf8.PrefixFree | hw2/src/utf8.c:70-194 | no encoding is the beginning of another |
| Utf8.OrderKept | hw2/src/utf8.c:78-176 | encodings compare byte by byte as the sequences do code point by code point |
| Utf16.GlyphPair | hw2/src/utf.c:108-121 | a surrogate pair is recognised and decodes to its code point; which code points meet the bounds |
| Utf16.GlyphOrder | hw2/src/utf.c:108-121 | a code point of the basic plane is one unit, itself, and pairs are in the order of their code points |
| Utf16.Surrogates | hw2/src/utf.c:97-107 | the ranges with their bounds are exactly the units that pairs are made of |
| Utf16.OrBits | hw2/src/utf.c:116-118 | the bits of an ill-formed pair are or-ed |
| Utf16.LoneUpper | hw2/src/utf16be.c:60-87 | an upper surrogate at the end of the input is joined with what the buffer holds, read in the order of the input |
| Utf16.WrittenUtf16 | hw2/src/utf16be.c:60-87 | what the decoding loop writes is the sequence without U+FEFF if and only if the unit its buffer held is harmless: no upper surrogate, or overwritten at once |
| Utf16.StaleIff | hw2/src/utf16le.c:57-85 | all sequences come out right if and only if the uninitialised buffer does not hold an upper surrogate |
| Utf16.StrictRoundTrip | hw2/src/utf.c:97-107 | with the bounds left out the round trip holds if and only if no code point has a bound as upper surrogate and the buffer held a harmless unit |
| Utf16.UnitsBytes | hw2/src/wrappers.c:39-74 | units are read back from their bytes in either order |
| Utf16.BigEndianOrder | hw2/src/wrappers.c:39-74 | big-endian bytes compare as the units do |
| Utf16.SwappedBytes | hw2/src/wrappers.c:63-74 | turning each pair of bytes round changes one order into the other |
| UtfStreams.WriteGlyph | hw2/src/utf16be.c:92-116 | the bytes of a code point's units in either order |
| UtfStreams.FromUtf8 | hw2/src/utf8.c:6-68 | the loop through its four-byte buffer writes the mark, FE FF or FF FE, and the UTF-16 of what it decodes, for any input, truncated and ill-formed too |
| UtfStreams.FromUtf16 | hw2/src/utf16le.c:57-85 | the loop over its two-unit buffer writes the UTF-8 of what it decodes, for any units and any unit in the buffer at first |
| UtfStreams.ThereAndBack | hw2/src/utf8.c:24-65 | UTF-8 to UTF-16 of either order and back gives the input without U+FEFF if and only if the second buffer held a harmless unit |
| UtfStreams.SwapToBigEndian | hw2/src/utf16le.c:6-36 | the loop over its four-byte buffer writes what the recursive form says, with either test |
| UtfStreams.SwapsAll | hw2/src/utf16le.c:16-32 | with either test all units of any body are turned round, and at most one unit more comes out |
| UtfStreams.SwapTurns | hw2/src/utf16le.c:21-32 | with the unit just read tested, a well-formed body is turned round unit by unit |
| UtfStreams.AsWrittenSwaps | hw2/src/utf16le.c:21-32 | as written all bodies come out right if and only if the buffer does not start with what looks like a lower surrogate |
| UtfStreams.ByWayOfLittleEndian | hw2/src/utf16le.c:6-36 | by way of little-endian comes out as directly to big-endian, whatever the buffers held |

## Left out

- hw0 and hw4, and in hw5 the sockets of cream.c and the wrappers of csapp.c: no algorithm to prove beyond system calls.
- Argument parsing (hw1 `validargs`, hw2 args.c), file descriptors, byte order mark detection and `transcribe`: keys are distinct letters of the alphabet and a stream is the body of a file.
- Polybius encryption and decryption: only quotients and remainders beyond the table that is modelled.
- The bodies of `sf_sbrk`, `get_heap_start` and `get_heap_end` are not part of this model: a heap grows a page at a time up to a limit. The limit is at most 15 pages because LIST_4_MAX is -1 in a 16-bit field, 65535, and a larger free block would make the search for its list run past the array.
- The bits of a header: a tag word has the four fields sfmm.c uses. Metadata left behind in a payload reads as zeros, so nothing is said about the contents of memory nobody has written.
- SegAllocator.Heap.Free: a pointer into a payload can hold bytes that look like tags; the caller is asked not to pass one that passes the checks without being live. The abort is the result false. The comparison with the heap's ends is part of reading the tags.
- SegAllocator.Heap.Realloc: the same holds for its pointer, and sizes so large that adding 16 wraps around 64 bits or an int are left out.
- SegLiteral: the uninitialised pointers of sfmm.c:155-164 and the copy from the header in sfmm.c:277 are repaired only; their effect depends on what memory happens to hold.
- MorseCodec.Encipher: characters outside '!' to 'z', for which morse_table is read out of its bounds, are not looked up; a text of one character prints nothing, as in the program. The empty text, of which the end of file is enciphered as a character, is left out. The stray 27th table entry that a key with Z leaves is not read.
- MorseUnstream.DecryptText: characters that are no cipher letter, for which the triple table is read out of its bounds, are left out, and the 257 cells must not be full; ModestText and ModestOpen show that they never are on enciphered text.
- Keys of the hash map compare as their bytes do; `strcmp` stopping at a zero byte and the hash itself are left out, and the hash is any function. Capacities above 2^31, for which the index does not fit an int, are left out.
- HashMap.HashMap.InvalidateMap: what the destroy function does with an entry, and who owns keys and values that are overwritten.
- Invalidation of the map and of the queue among threads, errno, the retry wrappers of mutex and semaphore, fairness and starvation: the thread models cover put, get, delete, clear, enqueue and dequeue.
- Queue.Queue.Dequeue: the wait in the semaphore is its precondition here and a step in QueueThreads.
- UtfStreams.FromUtf16: an odd last byte is left out.
- `from_utf16be_to_utf16le` (hw2/src/utf16be.c:6-35) never writes the unit it reads; the loop of the other direction stands for the change of order.
