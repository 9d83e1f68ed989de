# Verified core of the UDP echo load generator and its ppl7 library

The load generator sends UDP packets at a given rate and measures what comes back. It
stands on ppl7, a general C++ library. This project models the parts of both that carry
real algorithms, in the form the C++ code has (classes with fields, arrays, loops), and
proves what they promise. `dafny verify dfyconfig.toml` checks everything.

| file | what it models |
|---|---|
| Basics.dfy | optional values, quotient and remainder |
| AvlShape.dfy | AVL trees as values: rotations, rebalancing after insert and delete, order, size against height |
| AvlTree.dfy | the linked tree: parent pointers, stored balances, node swapping, stack iterators |
| MemoryHeap.dfy | the pool allocator: block list, free chains, counters, growth, release of empty blocks |
| AvlMap.dfy | the map template on top of tree and allocator |
| Md5.dfy | incremental MD5 with padding; the 64 rounds are a parameter |
| Crc32.dfy | table CRC-32 against the shift register |
| SocketMessage.dfy | the CRC-protected message header and payload checks |
| Calc.dfy | the expression evaluator |
| Inet.dfy | IPv4 and IPv6 text, both directions |
| InetTidy.dfy | what RFC 5952 asks of the text that is written |
| InetGrammar.dfy | the IPv6 texts that are read, as a grammar |
| IpNetwork.dfy | prefixes, netmasks, containment, order of networks |
| Base64.dfy | Base64, both directions |
| Random.dfy | the additive feedback generator with exchangeable state |
| RateLimit.dfy | the sender's time slices and the split of the rate over threads |
| ThreadProtocol.dfy | start and stop of a thread as interleaved sections under one mutex |

Conventions. Clocks, the network, the operating system's allocator, `atof`, the seven
arithmetic operations of the evaluator and the MD5 rounds are parameters. C strings are
texts without a terminator; a pointer into a text is the rest of the text. Machine
integers are written out where they wrap (MD5 counters, 64-bit generator words, 32-bit
element offsets, the 32-bit register of the CRC). Exceptions are cases of result types.

Where code and documentation, or code and intention, differ:

* **Double rotation at the root.** When the root itself is the father of the removed node
  and needs a double rotation, AVLTree.cpp:459-460 and 465-466 rotate the lifted child a
  second time instead of the root. That puts the old tree back and leaves the root at
  balance 2 or -2. `AvlTree.mended` selects the intended form (as in lines 479-481) or the
  written one. With the intended form every erase restores the balance. With the written
  form it does so exactly unless a guard holds that a caller can read off before the call:
  the node hangs directly under the root, has at most one child, the root leans away from
  it and its sibling leans inwards (`LeavesRootTilted`). `AvlShape.FourNodesTilt` is the
  smallest case.
* **MD5 lengths.** The bit count takes only the lowest 32 bits of each piece's length, so
  below 2^61 bytes the hashed text is the one RFC 1321 asks for exactly if every piece is
  shorter than 4 GB. Blocks and buffer are right for pieces of any length.
* **rand_setstate with the current array.** The comment at random.cpp:408-409 calls it
  harmless. Word 0 is read before the position is saved. After `d` draws since it was
  last up to date, the call keeps the position exactly if `d` is a multiple of the
  degree; otherwise the generator falls back to where it was before the draws
  (`Random.StayAfterDraws`; `Random.StayingFallsBack` is the case of one draw).
* **State arrays.** The break values at random.cpp:357-380 count bytes of 4-byte words
  while the words have eight. Of the sizes from 8 bytes up, exactly 16 to 31 and 512 or
  more hold the state that they select (`Random.BytesHoldState`); 32 bytes select one of
  64 (`Random.ThirtyTwoBytesShort`). An array that is too short is written past its end,
  so the model asks for enough words, whatever the number of bytes.
* **rand beyond its maximum.** The sample 0x7fffffff gives the number behind the maximum,
  unless the range times 2^31 - 1 reaches 2^64 (`Random.ScaledInRange`). With type 0 that
  happens exactly for seeds that are multiples of 2^31 - 1, and then always
  (`Random.SeededRands`, `Random.BeyondMaximum`).
* **Elements beyond 4 GB.** `free` cuts the distance from the block's start to 32 bits
  (MemoryHeap.cpp:398). An element further away is refused (`HeapModel.FarElement`), and
  the map has then erased its entry but lost the element (`AvlMap.AvlMap.Erase`).
* **A share of zero is no limit.** With fewer queries than threads the first threads get
  a rate of 0, and UDPEchoSenderThread.cpp:357-361 runs those without a limit. A session
  attempts the rate for the whole running time exactly as promised if every thread is
  limited, which holds if and only if there are at least as many queries as threads
  (`RateLimit.RunPool`).
* **IPv6 reader.** A colon behind the last group is accepted, with eight groups or
  behind a double colon (`InetGrammar.TrailingColon`, `InetGrammar.AcceptedExactly`).
* **Base64 padding bits.** The last group is encoded with what the unused places held
  before. Decoding ignores it, but the text is the one of RFC 4648 exactly if those bits
  were zero.
* **A stop before the worker's first section** comes back at once and leaves no trace.
* **IPv6 writer.** The test for a run of seven groups at Compat.cpp:470 is made at group 6,
  which such a run covers; it never decides anything.

## Model

| member | source | states |
|---|---|---|
| AvlShape.RotateExact | ppl7/src/core/AVLTree.cpp:547-638 | the balances a rotation stores are the true height differences if and only if the pair of old balances is one of the cases in its table |
| AvlShape.RotateInOrder | ppl7/src/core/AVLTree.cpp:547-638 | a rotation keeps the in-order sequence |
| AvlShape.RotateTwiceAvl | ppl7/src/core/AVLTree.cpp:410-440 | the double rotation of an inward leaning child yields an AVL tree, one lower |
| AvlShape.UpInsertRestores | ppl7/src/core/AVLTree.cpp:410-440 | the walk after an insertion restores AVL balance along any path and keeps the order of all nodes |
| AvlShape.UpDeleteRestores | ppl7/src/core/AVLTree.cpp:450-537 | the walk after a deletion keeps the order; it restores AVL balance always in the intended form, and in the written form exactly when the root is not stuck; a stuck tree comes back unchanged |
| AvlShape.RotateChildTwiceUndoes | ppl7/src/core/AVLTree.cpp:455-468 | rotating the lifted child twice gives back the very tree |
| AvlShape.EraseRemoves | ppl7/src/core/AVLTree.cpp:336-401 | erasing takes exactly that node out of the in-order sequence, including the exchange with its neighbour in order; AVL if and only if the intended form is used or the guard fails |
| AvlShape.SubstituteIsNeighbour | ppl7/src/core/AVLTree.cpp:340-354 | the node that takes the place is the next one in order, or the one before if the right side is lower |
| AvlShape.StuckGuard | ppl7/src/core/AVLTree.cpp:336-401 | the guard on the tree before the erase is the stuck root after the unlinking |
| AvlShape.FourNodesTilt | ppl7/src/core/AVLTree.cpp:455-468 | a tree of four nodes that the written form leaves unbalanced |
| AvlShape.AvlSize | ppl7/include/ppl7-algorithms.h:39-66 | an AVL tree of height h has at least Fib(h + 2) - 1 nodes |
| AvlShape.SparsestSize | ppl7/include/ppl7-algorithms.h:39-66 | for every height and any nodes of that number there is an AVL tree with exactly these nodes in this order |
| AvlShape.ShallowEnough | ppl7/include/ppl7-algorithms.h:39-66 | fewer than 14930351 nodes mean a height of at most 33, so no path overflows the iterator stack |
| AvlShape.TooDeep | ppl7/include/ppl7-algorithms.h:39-66 | with 14930351 nodes there is an AVL tree with a node of 33 ancestors, one more than the stack holds |
| AvlTree.AvlTree.Rotate | ppl7/src/core/AVLTree.cpp:547-638 | the pointer and balance updates in place spell the rotated tree at the same place of the whole tree |
| AvlTree.AvlTree.UpInsert | ppl7/src/core/AVLTree.cpp:410-440 | the recursive walk over parent pointers produces the rebalanced tree |
| AvlTree.AvlTree.UpDelete | ppl7/src/core/AVLTree.cpp:450-537 | the same for deletion, with the switch at -1, 0 and 1 |
| AvlTree.AvlTree.SwapNodes | ppl7/src/core/AVLTree.cpp:648-687 | two nodes change places with all links consistent, also when the second is a child of the first |
| AvlTree.AvlTree.AddNode | ppl7/src/core/AVLTree.cpp:289-321 | the new sequence is the old one with the item inserted in order, links, balances and count are exact; a duplicate is reported if and only if the key is there and duplicates are off, and then nothing changes |
| AvlTree.AvlTree.EraseNode | ppl7/src/core/AVLTree.cpp:336-401 | exactly the given node leaves the sequence, links and count stay exact, and the tree is balanced if and only if the intended form is used or the guard fails |
| AvlTree.AvlTree.FindNode | ppl7/src/core/AVLTree.cpp:699-710 | finds a node with the key if and only if there is one |
| AvlTree.AvlTree.GetFirst | ppl7/src/core/AVLTree.cpp:750-763 | stands on the first node in key order, stack and all |
| AvlTree.AvlTree.GetNext | ppl7/src/core/AVLTree.cpp:776-802 | moves from the i-th node in key order to the next, or to none behind the last |
| AvlTree.AvlTree.GetPrevious | ppl7/src/core/AVLTree.cpp:837-863 | moves from the i-th node in key order to the one before it |
| AvlTree.AvlTree.Traverse | ppl7/src/core/AVLTree.cpp:735-802 | from reset to NULL the iterator visits every node once, in key order |
| AvlTree.AvlTree.ForthAndBack | ppl7/src/core/AVLTree.cpp:776-863 | a step back undoes a step forth |
| AvlTree.AvlTree.SmallIsWalkable | ppl7/include/ppl7-algorithms.h:39-66 | below 14930351 nodes the iterator's 32 entries always suffice |
| HeapModel.LiveApart | ppl7/src/core/MemoryHeap.cpp:278-316 | elements in use are a whole element apart, in one block or in two |
| HeapModel.FreeFinds | ppl7/src/core/MemoryHeap.cpp:390-415 | what free computes for an address: its element number, right exactly for an element in use within 4 GB of its block's start |
| HeapModel.FarElement | ppl7/src/core/MemoryHeap.cpp:395-401 | an element in use 4 GB behind its block's start is taken for element 0 and refused |
| HeapModel.SmallPool | ppl7/src/core/MemoryHeap.cpp:395-401 | as long as all elements together are not longer than 4 GB this cannot happen |
| HeapModel.KeptFree | ppl7/src/core/MemoryHeap.cpp:430-455 | cleanup gives back only free elements, and not the last of them |
| HeapModel.KeptSpare | ppl7/src/core/MemoryHeap.cpp:430-455 | cleanup leaves at most one wholly free block |
| HeapModel.KeptMembers | ppl7/src/core/MemoryHeap.cpp:430-455 | cleanup keeps every block that is in use, and only old blocks |
| HeapModel.KeptLive | ppl7/src/core/MemoryHeap.cpp:430-455 | cleanup leaves every live address and the count of them as they were |
| HeapModel.CapacityMore | ppl7/src/core/MemoryHeap.cpp:368-373 | the capacity after a growth is larger by a step that is the one before plus its percentage, rounded down |
| HeapModel.FirstGrowths | ppl7/src/core/MemoryHeap.cpp:368-373 | with steps from 100 on and 30 percent the capacity is 100, 230 and 399 |
| MemoryHeap.MemoryHeap.Increase | ppl7/src/core/MemoryHeap.cpp:278-316 | a new wholly free block in front of the list, counters exact, or nothing changes |
| MemoryHeap.MemoryHeap.Malloc | ppl7/src/core/MemoryHeap.cpp:351-375 | a fresh address disjoint from all in use, from the first block with a free element, or after exactly one growth if there is none; the next step is larger by the percentage after a growth and else unchanged; the error cases exactly |
| MemoryHeap.MemoryHeap.Free | ppl7/src/core/MemoryHeap.cpp:390-415 | exactly that element goes back, each error exactly when its condition holds, and a cleanup exactly after more than a thousand such calls |
| MemoryHeap.MemoryHeap.Cleanup | ppl7/src/core/MemoryHeap.cpp:430-455 | the block list becomes the old one without all spare blocks but the first; nothing in use is lost |
| MemoryHeap.MemoryHeap.Clear | ppl7/src/core/MemoryHeap.cpp:160-176 | no blocks, nothing in use, counters as at the start |
| MemoryHeap.MemoryHeap.Init | ppl7/src/core/MemoryHeap.cpp:254-265 | the element size, rounded up in 32 bits, the start blocks, the first growth step and its percentage; each error exactly |
| MemoryHeap.MemoryHeap.Reserve | ppl7/src/core/MemoryHeap.cpp:230-236 | exactly so many elements afterwards if there were fewer, or the system refused; the growth step stays |
| MemoryHeap.MemoryHeap.CountIsLive | ppl7/src/core/MemoryHeap.cpp:200-203 | count is the number of distinct addresses in use |
| MemoryHeap.MallocMany | ppl7/src/core/MemoryHeap.cpp:351-375 | n elements from an empty pool: the capacity is the sum of the growths' steps, and one growth less would not do |
| AvlMapModel.MapInserted | ppl7/include/ppl7-algorithms.h:173-186 | with distinct keys, inserting a node is adding one key to a finite map |
| AvlMapModel.MapWithout | ppl7/include/ppl7-algorithms.h:214-223 | with distinct keys, taking a node out is removing one key |
| AvlMapModel.HousedInserted | ppl7/include/ppl7-algorithms.h:173-186 | nodes and heap elements stay in step when one of each is added |
| AvlMap.AvlMap.Add | ppl7/include/ppl7-algorithms.h:173-186 | adds exactly this entry, or gives the element back for a duplicate; as a map: a new key; out of memory exactly if the pool is full and the system refuses; an element is lost only 4 GB or more behind its block's start |
| AvlMap.AvlMap.Find | ppl7/include/ppl7-algorithms.h:187-194 | the value of the key, or not found exactly if there is none |
| AvlMap.AvlMap.Exists | ppl7/include/ppl7-algorithms.h:196-203 | true exactly for a key of the map |
| AvlMap.AvlMap.Erase | ppl7/include/ppl7-algorithms.h:214-223 | removes one entry with the key, or nothing exactly if there is none; its element is freed exactly if it lies within 4 GB of its block's start |
| AvlMap.AvlMap.Clear | ppl7/include/ppl7-algorithms.h:224-232 | the empty map, and no element in use |
| AvlMap.AvlMap.CountIsNodes | ppl7/include/ppl7-algorithms.h:173-232 | the heap's count is the number of nodes, and of keys of the map, plus the elements it has lost |
| AvlMap.AvlMap.Execute | ppl7/include/ppl7-algorithms.h:152-232 | one command answers and changes map and pool as the model of a finite map with a pool says; the tree stays balanced exactly unless a drop meets the guard of the written form |
| AvlMap.AvlMap.Replay | ppl7/include/ppl7-algorithms.h:152-232 | every run of puts, drops, clears, finds and exists, growth of the heap included, is a run of a finite map with a pool, all of it in the intended form, and in the written form up to the first drop that would tilt the root |
| AvlMapRuns.GrantedRun | ppl7/include/ppl7-algorithms.h:152-232 | in a run in which the system gives memory whenever the pool is full, every answer and the map are those of a finite map that knows of no memory |
| AvlMapRuns.LastWord | ppl7/include/ppl7-algorithms.h:173-232 | after any number of commands a key has a value if and only if that was its value at the start or an accepted put gave it, and no drop of the key or clearing came since |
| AvlMapRuns.EveryAnswer | ppl7/include/ppl7-algorithms.h:173-232 | every answer by the last word on its key: a find gives just that value, exists and drop say yes if and only if there is one, a put is refused if there is one or if the pool is full and the system refuses |
| AvlMapRuns.CapacityLaw | ppl7/include/ppl7-algorithms.h:149-186 | in runs of puts of new keys the capacity is the sum of the growth steps, each larger than the one before by the percentage, and no growth comes before it is needed |
| AvlMapRuns.NothingLost | ppl7/include/ppl7-algorithms.h:152-232 | while the pool is at most 4 GB long, its elements in use are the entries, and a put without new memory is refused exactly for a present key or a full pool |
| AvlMapRuns.DropMakesRoom | ppl7/include/ppl7-algorithms.h:173-223 | after a drop a put of a new key needs no new memory |
| Md5.FoldSplit | ppl7/src/math/md5.cpp:211-246 | going on with the state and the rest of a message is as good as starting again |
| Md5.FoldOne | ppl7/src/math/md5.cpp:230-238 | a complete block is mixed into the state before what follows it |
| Md5.StartBytes | ppl7/src/math/md5.cpp:196-203 | the start is the sixteen bytes of section 3.3 of RFC 1321 |
| Md5.PaddedIs | ppl7/src/math/md5.cpp:252-269 | the padding byte by byte: 0x80, zeros, the length in bits; whole blocks, as few as will do |
| Md5.WordsBack | ppl7/src/math/md5.cpp:122-146 | words survive being written as bytes and read again |
| Md5.CountedSum | ppl7/src/math/md5.cpp:221-225 | the counted length is the true one if and only if every piece was shorter than 4 GB |
| Md5.HashedIsPadded | ppl7/src/math/md5.cpp:252-269 | what is hashed is the padded message of sections 3.1 and 3.2 of RFC 1321 if and only if every piece was shorter than 4 GB |
| Md5.Encode | ppl7/src/math/md5.cpp:122-132 | words as bytes, lowest first |
| Md5.Decode | ppl7/src/math/md5.cpp:139-146 | bytes as words, lowest first |
| Md5.EncodeDecode | ppl7/src/math/md5.cpp:122-146 | decoding what was encoded gives the words back |
| Md5.Md5Context.Md5Update | ppl7/src/math/md5.cpp:211-246 | for any split into pieces the state is the fold over all complete blocks, the buffer holds the rest, and the two count words hold eight times the counted length modulo 2^64 |
| Md5.Md5Context.Md5Pad | ppl7/src/math/md5.cpp:252-269 | appends the padding to 56 modulo 64 and the count from before |
| Md5.Md5Context.Md5Final | ppl7/src/math/md5.cpp:276-288 | the digest of RFC 1321 for the whole message, and a wiped context |
| Crc32.TableEntry | ppl7/src/math/crc32.cpp:43-87 | each of the 256 entries is its index after eight ticks of the register |
| Crc32.TicksMixed | ppl7/src/math/crc32.cpp:102-109 | message bits may enter the register one by one or mixed in at once |
| Crc32.TableStep | ppl7/src/math/crc32.cpp:106-108 | one table lookup does the work of eight message bits |
| Crc32.Compute | ppl7/src/math/crc32.cpp:102-109 | the loop computes the bit-serial CRC-32 of every byte string |
| Crc32.CheckValue | ppl7/src/math/crc32.cpp:102-109 | the text 123456789 has the CRC 0xcbf43926 |
| Crc32.CrcContinues | ppl7/src/math/crc32.cpp:102-109 | the CRC of a concatenation continues from the CRC of its front |
| Crc32.BurstDetected | ppl7/src/math/crc32.cpp:102-109 | any change within 32 consecutive bits changes the register, whatever surrounds it |
| Crc32.ChangeDetected | ppl7/src/math/crc32.cpp:102-109 | any change confined to four consecutive bytes changes the CRC |
| MessageHeader.RoundTrip | ppl7/src/internet/SocketMessage.cpp:231-276 | a written header is accepted and every field is read back |
| MessageHeader.Wire | ppl7/src/internet/SocketMessage.cpp:231-255 | which byte of the header holds which part of which field, highest byte first |
| MessageHeader.BodyChangeRejected | ppl7/src/internet/SocketMessage.cpp:265-268 | a change of up to four consecutive bytes behind the version is rejected |
| MessageHeader.ByteChangeRejected | ppl7/src/internet/SocketMessage.cpp:353-368 | a changed byte gets through if and only if it turns the version into 1 and the payload's CRC is that of the bytes in front of it |
| MessageHeader.VersionChangeAccepted | ppl7/src/internet/SocketMessage.cpp:353-368 | for all other fields there is a payload CRC with which the changed version byte does get through |
| MessageHeader.BitFlipRejected | ppl7/src/internet/SocketMessage.cpp:353-368 | no single flipped bit of a header is ever accepted |
| SocketMessage.PokeN32 | ppl7/src/core/Functions.cpp:584-598 | the four bytes of a word, highest first, and nothing else changes |
| SocketMessage.SocketMessage.CompilePacketHeader | ppl7/src/internet/SocketMessage.cpp:231-255 | the 24 bytes of the header for the message's fields, nothing behind them, or a refusal of a short buffer |
| SocketMessage.SocketMessage.FlagBits | ppl7/src/internet/SocketMessage.cpp:235-238 | bit 0 says that the payload is compressed, bit 1 that the sender understands compression, bit 2 that it understands channels |
| SocketMessage.SocketMessage.ReadFromPacketHeader | ppl7/src/internet/SocketMessage.cpp:257-276 | the fields as they stand in the header, the peer's abilities from its flag bits, and the CRC test that belongs to the version, or none for other versions |
| SocketMessage.SocketMessage.Receive | ppl7/src/internet/SocketMessage.cpp:353-398 | which bytes are taken as a message, version 1 from 20 bytes on, and which of the three refusals they meet otherwise |
| SocketMessage.SentArrives | ppl7/src/internet/SocketMessage.cpp:284-325 | what was sent arrives with the very payload |
| SocketMessage.SendAndReceive | ppl7/src/internet/SocketMessage.cpp:231-398 | a message that one side compiles the other receives: the payload, the command, the number, the kind, and what the sender understands |
| SocketMessage.PayloadChangeRefused | ppl7/src/internet/SocketMessage.cpp:383-388 | a payload changed within four consecutive bytes is refused |
| CalcGrammar.PassesEvaluate | ppl7/src/math/calc.cpp:128-157 | passes up to a level evaluate every chain of that level as the left-grouping grammar does |
| CalcGrammar.SevenPasses | ppl7/src/math/calc.cpp:228-234 | the seven passes leave the value of the grammar whose levels bind in the order <<, >>, ^, *, /, +, - |
| CalcGrammar.BindingOrder | ppl7/src/math/calc.cpp:228-234 | of any two operators the one earlier in the order <<, >>, ^, *, /, +, - is applied first, wherever it stands; equal ones from left to right |
| CalcGrammar.PassFlat | ppl7/src/math/calc.cpp:128-157 | a pass over a token list with or without a dangling operator: which list it leaves, and when it fails |
| CalcText.ClosingFormula | ppl7/src/math/calc.cpp:160-176 | every formula closes exactly the brackets it opens, so the search finds the right one |
| CalcText.ParseRendered | ppl7/src/math/calc.cpp:178-223 | every formula is read back from its text |
| CalcText.ParsedIsRendered | ppl7/src/math/calc.cpp:178-223 | whatever is accepted is the text of a formula |
| CalcText.NumeralExactly | ppl7/src/math/calc.cpp:72-104 | a numeral is an optional sign and digits with at most one dot, shorter than 64 characters |
| CalcText.Signs | ppl7/src/math/calc.cpp:201-222 | which sign stands for which operator |
| Calc.ResolveType | ppl7/src/math/calc.cpp:128-157 | the restarting scan over the list terminates and reduces every operator of its type from left to right |
| Calc.GetValue | ppl7/src/math/calc.cpp:72-104 | reads exactly an optional sign and digits with at most one dot, and never overruns the 64-byte buffer |
| Calc.FindClosingBracket | ppl7/src/math/calc.cpp:160-176 | the matching bracket, or the end of the text |
| Calc.Tokenize | ppl7/src/math/calc.cpp:178-240 | terminates on every text and returns the value of the formula it spells, or the error |
| Calc.ValueOfText | ppl7/src/math/calc.cpp:178-240 | a text has a value if and only if it is the text of a formula, and then it is the formula's value by the grammar |
| Calc.BlankIgnored | ppl7/src/math/calc.cpp:242-250 | a blank may stand anywhere |
| Calc.TabIgnored | ppl7/src/math/calc.cpp:242-250 | so may a tab |
| Calc.CommaIsDot | ppl7/src/math/calc.cpp:242-250 | a comma is as good as a dot |
| Calc.CleanAlready | ppl7/src/math/calc.cpp:242-250 | a text without blanks, tabs and commas stays as it is |
| Calc.SumBindsTighter | ppl7/src/math/calc.cpp:228-234 | 1-2+3 is one minus the sum of two and three |
| Calc.BracketsFirst | ppl7/src/math/calc.cpp:186-197 | (1-2)+3 is the difference plus three |
| InetText.DottedExactly | ppl7/src/core/Compat.cpp:538-575 | a text is read as four octets if and only if it is their dotted form |
| InetText.HexValueIs | ppl7/src/core/Compat.cpp:576-605 | a hexadecimal digit is worth its place in one of the two tables, and no other character is one |
| Inet6Text.RoundTrip | ppl7/src/core/Compat.cpp:576-656 | the text of an address, whichever run of zeros it shortens and with or without a dotted part, is read back |
| Inet.Ntop4 | ppl7/src/core/Compat.cpp:392-405 | the dotted form, decimal digits and dots without padding zeros, which is read back as the same four bytes; or no space |
| Inet.Pton4 | ppl7/src/core/Compat.cpp:538-575 | the loop with its five ways to fail is the reader of dotted forms |
| Inet.FindRun | ppl7/src/core/Compat.cpp:428-451 | the leftmost longest run of at least two zero groups, as section 4.2 of RFC 5952 asks |
| Inet.Ntop6 | ppl7/src/core/Compat.cpp:406-495 | the canonical text for that run, in lower case and without padding zeros, read back as the same address, with a dot if and only if it embeds an IPv4 address, always below 46 characters; or no space |
| Inet.CanonicalShort | ppl7/src/core/Compat.cpp:415 | no text of an address overruns the 46-byte buffer |
| Inet.WriteAndRead | ppl7/src/core/Compat.cpp:406-656 | with room for 46 characters every address is written, and its text read back |
| Inet.ShiftUp | ppl7/src/core/Compat.cpp:636-651 | the overlapping move in place spreads the bytes around zeros |
| Inet.Pton6 | ppl7/src/core/Compat.cpp:576-656 | the pointer loop over a text is the reader of IPv6 texts, and stays inside its 16 bytes |
| Inet.AddressRoundTrip | ppl7/src/core/Compat.cpp:406-656 | reading what was written gives back every 16-byte address |
| Inet.ShortenedOnce | ppl7/src/core/Compat.cpp:428-451 | only one run can be the shortened one |
| InetTidy.CanonicalTidy | ppl7/src/core/Compat.cpp:453-490 | every character is a digit, a letter from a to f, a colon or a dot, and no number but 0 begins with 0, as sections 4.1 and 4.3 of RFC 5952 ask |
| InetTidy.DotExactly | ppl7/src/core/Compat.cpp:469-476 | a dotted part is written if and only if five groups of zeros are followed by ffff, or six by one that is not zero |
| InetGrammar.AcceptedExactly | ppl7/src/core/Compat.cpp:576-656 | a text is read, and as these bytes, if and only if a form of the grammar spells it and has them as its value |
| InetGrammar.BodyRead | ppl7/src/core/Compat.cpp:591-656 | every form of the grammar is read as its value |
| InetGrammar.ValuesAre | ppl7/src/core/Compat.cpp:614-618 | the two bytes of a group are its number, high byte first |
| InetGrammar.CanonicalForm | ppl7/src/core/Compat.cpp:453-490 | the text of an address is a form with a double colon if and only if there is a run to shorten, and then so many groups in front of it and behind it as the run leaves |
| InetGrammar.Recover | ppl7/src/core/Compat.cpp:591-656 | from any state within a text, whatever is accepted completes the form read so far |
| InetGrammar.TrailingColon | ppl7/src/core/Compat.cpp:606-621 | a colon behind the last of eight groups is accepted |
| IpPrefix.RangeIsPrefix | ppl7/src/internet/ipnetwork.cpp:231-241 | an address lies between first and last, byte by byte, if and only if its prefix is the network's |
| IpPrefix.PrefixBits | ppl7/src/internet/ipaddress.cpp:258-282 | masked addresses are equal if and only if their first bits agree |
| IpPrefix.NetmaskOnce | ppl7/src/internet/ipnetwork.cpp:261-284 | different prefix lengths have different masks |
| IpPrefix.MaskedBits | ppl7/src/internet/ipaddress.cpp:258-282 | masking keeps the bits of the prefix and clears all others |
| IpPrefix.FilledBits | ppl7/src/internet/ipnetwork.cpp:231-241 | the last address of a network has ones behind the prefix |
| IpPrefix.NetmaskBits | ppl7/src/internet/ipnetwork.cpp:261-284 | a netmask is ones for the prefix and zeros behind |
| IpPrefix.ComparedBefore | ppl7/src/internet/ipaddress.cpp:88-97 | the comparison of bytes is decided by the first one that differs |
| IpNetwork.MaskBytes | ppl7/src/internet/ipaddress.cpp:270-281 | the loop from the last byte to the first clears exactly the bits behind the prefix |
| IpNetwork.Mask | ppl7/src/internet/ipaddress.cpp:258-282 | the masked address, or each error exactly |
| IpNetwork.PrefixlenFromNetmask | ppl7/src/internet/ipnetwork.cpp:179-195 | accepts exactly the bytes that some prefix length has as its mask, and returns that length |
| IpNetwork.IpNetwork.Set | ppl7/src/internet/ipnetwork.cpp:138-142 | the network of an address, or nothing changes |
| IpNetwork.IpNetwork.Last | ppl7/src/internet/ipnetwork.cpp:231-241 | every byte filled up with what the mask leaves free |
| IpNetwork.IpNetwork.Contains | ppl7/src/internet/ipnetwork.cpp:286-292 | true if and only if the family is the network's and the masked address is the network |
| IpNetwork.NestedOrDisjoint | ppl7/src/internet/ipnetwork.cpp:286-292 | networks that share an address are nested |
| IpNetwork.HoldsIsBits | ppl7/src/internet/ipnetwork.cpp:286-292 | belonging to a network means agreeing in its first bits |
| IpNetwork.NetworkOrder | ppl7/src/internet/ipnetwork.cpp:295-303 | the comparison of networks is a total order, zero for equal ones only |
| IpNetwork.NetworkBefore | ppl7/src/internet/ipnetwork.cpp:295-303 | which network comes first: IPv4 before IPv6, then the smaller address, then the longer prefix |
| Base64Spec.ValueOfLetter | ppl7/src/core/StringFunctions.cpp:83-88 | the decoding table inverts the encoding table |
| Base64Spec.ValueIsPlace | ppl7/src/core/StringFunctions.cpp:83-88 | the decoding table knows just the 64 letters, by their place in section 4 of RFC 4648 |
| Base64Spec.RoundTrip | ppl7/src/core/StringFunctions.cpp:95-181 | every byte string comes back, whatever the unused places hold |
| Base64Spec.StandardExactly | ppl7/src/core/StringFunctions.cpp:95-130 | the text is the one of section 4 of RFC 4648 if and only if the bits left over from before are zero |
| Base64Spec.StandardSpells | ppl7/src/core/StringFunctions.cpp:95-130 | four letters for each three bytes, which spell their 24 bits, and for the last one or two zeros behind them and = signs |
| Base64Spec.NoiseIgnored | ppl7/src/core/StringFunctions.cpp:149-181 | characters outside the alphabet may be put in anywhere |
| Base64.ToBase64 | ppl7/src/core/StringFunctions.cpp:108-130 | the loop over groups of three, stale places included |
| Base64.FromBase64 | ppl7/src/core/StringFunctions.cpp:149-181 | the bytes of the values of all characters in the alphabet |
| RandomSpec.GoodRandIsProduct | ppl7/src/math/random.cpp:254-281 | for 32-bit seeds the result is 16807 times the seed modulo 2^31 - 1, from 1 up, with the modulus itself for zero |
| RandomSpec.SeedIsPower | ppl7/src/math/random.cpp:308-311 | the seeds are a geometric sequence modulo 2^31 - 1 |
| RandomSpec.WindowIsTerms | ppl7/src/math/random.cpp:485-504 | after n steps the window shows the recurrence o(k) = o(k - deg) + o(k - sep) from n on |
| RandomSpec.Recurrence | ppl7/src/math/random.cpp:148-179 | the four trinomials: x^7 + x^3 + 1, x^15 + x + 1, x^31 + x^3 + 1 and x^63 + x + 1 |
| RandomSpec.HandedBits | ppl7/src/math/random.cpp:494 | a word is its lowest bit, the 31 bits handed out and 32 bits above |
| Random.RingStep | ppl7/src/math/random.cpp:485-504 | adding in place on the circle and moving both pointers is one step of the recurrence |
| Random.Generator.Draw | ppl7/src/math/random.cpp:485-504 | one step of the recurrence and bits 1 to 31 of the new word; the pointers keep their distance |
| Random.Generator.Srand | ppl7/src/math/random.cpp:300-317 | the seeded window after ten full turns, with the rear pointer back at the start |
| Random.Generator.InitState | ppl7/src/math/random.cpp:342-391 | the old state is saved so that it can be gone back to, and the new one starts in the other array |
| Random.Generator.SetState | ppl7/src/math/random.cpp:412-448 | another array's state is taken up where it was left; with the current array everything stays if word 0 is up to date, and the position only then |
| Random.SwitchAndBack | ppl7/src/math/random.cpp:342-448 | going to another array, drawing any number of values and going back resumes the old sequence |
| Random.StayingFallsBack | ppl7/src/math/random.cpp:404-448 | going to the current state after one draw moves the rear pointer |
| Random.Rand | ppl7/src/math/random.cpp:467-506 | one draw of the current type scaled to the range; the first call seeds from the clock if nobody has |
| Random.ScaledInRange | ppl7/src/math/random.cpp:470-505 | for all limits and samples, the number lies between minimum and maximum if and only if the sample is not 0x7fffffff or the range times 2^31 - 1 reaches 2^64 |
| Random.ScaledInOrder | ppl7/src/math/random.cpp:470-505 | as long as the range is not that wide, larger samples give larger numbers, from the minimum on, in proportion to the sample |
| Random.AlwaysInRange | ppl7/src/math/random.cpp:470-505 | the limits keep every sample in if and only if their range is that wide |
| Random.MaskedMultiples | ppl7/src/math/random.cpp:485-488 | type 0 comes to 0x7fffffff if and only if its seed is a multiple of it, and then stays there |
| Random.SeededRands | ppl7/src/math/random.cpp:467-505 | with type 0 every number keeps the limits if and only if the seed is no multiple of 2^31 - 1 or the range is that wide; otherwise none does |
| Random.BeyondMaximum | ppl7/src/math/random.cpp:467-505 | a type 0 generator seeded with 0 gives 1 as a number between 0 and 0, on both of two calls |
| Random.DrawMany | ppl7/src/math/random.cpp:485-504 | the k-th of n numbers drawn one after the other shows term degree + k of the recurrence, and the rear pointer is n places on |
| Random.StayAfterDraws | ppl7/src/math/random.cpp:400-448 | d draws after word 0 was up to date, going to the current array keeps the position if and only if d is a multiple of the degree |
| Random.BytesHoldState | ppl7/src/math/random.cpp:357-380 | the declared number of bytes holds the selected state if and only if it is 16 to 31 or at least 512 |
| Random.BreakValues | ppl7/src/math/random.cpp:148-169 | each break value is twice the one before, from 32 bytes on |
| Random.ThirtyTwoBytesShort | ppl7/src/math/random.cpp:357-380 | 32 bytes select a state that needs 64 |
| RateSpec.NextQuota | src/UDPEchoSenderThread.cpp:450-460 | dividing what is left by the slices left gives the next slice's quota |
| RateSpec.QuotaComplete | src/UDPEchoSenderThread.cpp:450-460 | the quotas of all slices use up everything |
| RateSpec.ShareBounds | src/sender.cpp:327-334 | every thread's share is the quotient or one more |
| RateSpec.AllShares | src/sender.cpp:327-334 | no thread gets a share of zero if and only if there are at least as many queries as threads |
| RateSpec.SharelessExactly | src/sender.cpp:327-334 | exactly the threads in front that the queries do not reach get a share of zero |
| RateLimit.PoolShares | src/sender.cpp:327-334 | attempts and rests of the limited threads add up to the running time times the quota of the threads so far |
| RateLimit.SessionTotals | src/sender.cpp:327-334 | from the reports of all threads: which ran limited, and what they attempted together |
| RateLimit.RunPool | src/sender.cpp:327-335 | after splitting the rate and running every thread, all are limited if and only if there are at least as many queries as threads, and then a session that is neither stopped nor too slow for its slices attempts exactly running time times rate |
| RateLimit.SenderThread.SendPacket | src/UDPEchoSenderThread.cpp:313-332 | every attempt is counted exactly once: a whole packet as sent, a negative result as an error, by its number too if that is below 255, anything else as nothing sent |
| RateLimit.SenderThread.RunWithRateLimit | src/UDPEchoSenderThread.cpp:430-475 | with the n whole slices that fit into the running time: after k slices k times the quotient of work and n, plus one for each of the last slices up to the remainder, has been attempted, no packet before its slice begins; a run that is not cut short ends no earlier than one slice before the end of the running time; it is cut short only by a stop or when the running time is over, and never for the latter if the clock's readings are close enough to send a slice's share in time; no slice but the last ends more than a tenth of a second after a stop |
| RateLimit.SenderThread.SlicesExactly | src/UDPEchoSenderThread.cpp:433 | the slices are as many as fit whole into the running time |
| RateLimit.SenderThread.NotDueYet | src/UDPEchoSenderThread.cpp:468-471 | a reading up to a tenth of a second behind a look that found no stop is at most so far behind any stop |
| RateLimit.SenderThread.RunWithoutRateLimit | src/UDPEchoSenderThread.cpp:372-388 | one packet for each round in which the socket is ready, rounds without a gap, until a stop or the end of the running time; no round begins behind that end, or more than a tenth of a second after a stop |
| RateLimit.SenderThread.AlwaysReady | src/UDPEchoSenderThread.cpp:377-381 | with a socket that is always ready a packet leaves in every round |
| RateLimit.SenderThread.InTime | src/UDPEchoSenderThread.cpp:426-460 | who begins a slice hardly late has sent its share before the slice ends, if sending takes less than a slice |
| RateLimit.SenderThread.EndsLater | src/UDPEchoSenderThread.cpp:450-475 | before the last slice ends, the running time is not over |
| RateLimit.SenderThread.Run | src/UDPEchoSenderThread.cpp:343-366 | limited exactly for a positive rate; then attempts and rest add up to running time times rate, all slices leave no rest, and only a stop or the end of the time leaves slices |
| RateLimit.DistributeRate | src/sender.cpp:327-334 | every thread of the pool is given its share |
| ThreadProtocol.StepKeeps | ppl7/src/core/Threads.cpp:511-526 | every section under the mutex keeps flags, run counts and waiting callers consistent |
| ThreadProtocol.StopWaitsForRun | ppl7/src/core/Threads.cpp:511-526 | in every interleaving a stop whose first section finds the thread running comes back only after that run has returned |
| ThreadProtocol.ShouldStopAnswers | ppl7/src/core/Threads.cpp:798-805 | every question asked in the same run after a stop is answered yes |
| ThreadProtocol.AnswerExactly | ppl7/src/core/Threads.cpp:798-805 | in every interleaving the answer is yes if and only if a stop was signalled, or found the thread running, and neither the end of a run nor a stop that came back has been since |
| ThreadProtocol.NobodyAsked | ppl7/src/core/Threads.cpp:680-694 | a question in a run that nobody has asked to stop is answered no |
| ThreadProtocol.RunningExactly | ppl7/src/core/Threads.cpp:680-694 | the thread counts as running from the section before its run to the one behind it |
| ThreadProtocol.IsRunningAnswers | ppl7/src/core/Threads.cpp:744-751 | and that is what threadIsRunning says |
| ThreadProtocol.PollReturns | ppl7/src/core/Threads.cpp:519-525 | a waiting stop comes back at a poll if and only if nothing runs then |
| ThreadProtocol.RunsExactly | ppl7/src/core/Threads.cpp:680-684 | the run count is the number of runs begun |
| ThreadProtocol.WholeRound | ppl7/src/core/Threads.cpp:511-694 | a round of start, stop, return and new start that the protocol permits |
| ThreadProtocol.StopAtOnce | ppl7/src/core/Threads.cpp:511-526 | a stop comes back at once, without effect, if and only if nothing runs yet or any more |
| ThreadProtocol.EarlyStopIsLost | ppl7/src/core/Threads.cpp:680-694 | a stop between start and the worker's first section is lost |

## Left out

- AvlTree.AvlTree.AddNode: adding to a tree that an erase in the written form has left tilted; the balances there are outside the rotation's table.
- AvlTree.AvlTree.EraseNode: erasing from such a tree, for the same reason.
- AvlMap.AvlMap.Erase: erasing from a map whose tree has been left tilted in this way.
- AvlTree.AvlTree.GetNext: takes the iterator's position in key order as a ghost argument; an iterator that outlives a change of the tree is not modelled.
- AvlTree.AvlTree.FindNode: keys are integers and the virtual comparison is the template's; other orders are not modelled.
- AvlMap.AvlMap.Find: returns the value, not a reference through which it could be changed; destructors of keys and values do nothing.
- AvlMap.AvlMap.Replay: what happens in the written form after a drop that has tilted the root. Memory that the system gives is placed at the wanted address if that is free, and else behind all buffers.
- AvlTree.AvlTree.SwapNodes: siblings and a first node that is a child of the second, which erase never asks for. Siblings with the first one on the right would leave the father's links wrong.
- MemoryHeap.MemoryHeap.Free: freeing the same element twice or the address just behind a block, neither of which the source detects.
- MemoryHeap.MemoryHeap.Reserve: a heap that has not been initialised, whose elements would have no size.
- MemoryHeap.MemoryHeap.Malloc: the system's allocator is a parameter that leaves a gap between buffers; calloc's clearing and the wrap-around of sizes in 64 bits are not modelled.
- Calc.Tokenize: an empty text or bracket and a bracket that is never closed have no defined value in the source; the model says so and goes no further. Numbers and operations are parameters.
- MemoryHeap.MemoryHeap.Init: an increase of zero, with which malloc would not end, and sizes that round to zero in 32 bits.
- Random.Generator.InitState: arrays with too few words for the selected type, which are written past their end; `Random.BytesHoldState` says which sizes these are.
- Random.Generator.SetState: arrays whose word 0 was not saved by the generator.
- RateLimit.RunPool: the threads run one after the other, each with its own clock readings and socket; they share nothing else. The two clocks that the source reads are one. Waiting for the pool and stopping it from outside are left out.
- RateLimit.SenderThread.RunWithoutRateLimit: when the socket is ready is a parameter.
- SocketMessage.SocketMessage.Receive: sockets, timeouts, compression; the bytes have arrived.
- ThreadProtocol.StepKeeps: suspending and resuming, and a second start while a worker is alive.
- The rounds of MD5, quoted-printable, HTML and URL escaping, MemFile, resolvers, TLS, files, dates, command line, CSV and console output: foreign calls or simple code.
