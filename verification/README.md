# Proofs about iw and libnl-tiny

The repository bundles the wireless configuration tool `iw`, the small netlink library `libnl-tiny` and a
C++ wrapper around them.  This project models the parts of the two C programs that compute something by
themselves and proves what they compute, for all inputs and over all runs.

* **SHA-256** (`Fips180`, `Primes`, `Sha256Constants`, `Sha256Macros`, `Sha256`, `Sha256Streaming`,
  `Sha256Example`).  `Fips180` is the standard, and `Sha256Example` computes its first example through; the
  other modules follow the code, with its context and arrays changed in place, and show that it computes the
  standard's digest however the input is cut into calls.
* **Netlink attributes** (`NlAttr`, `NlMsg`, `NlParse`).  Builder, walk, validator, parser and finder over
  byte strings, and the message buffer as a class.
* **Objects, caches, families, registry** (`ObjectLists`, `ObjectCache`, `FamilyLists`, `GenlCtrl`,
  `CacheRegistry`).  Intrusive lists as pointers, and reference counts with a ghost account of who holds
  what: `Store.Valid` says that every live object counts its holders plus one for the cache that lists it,
  that pointers, counts and back pointers agree, and that nothing freed is listed.  Every operation keeps
  it.  `FamilyLists` follows the cloning of a family.
* **CRC-32 and Bloom filter** (`Crc32`, `BitArray`, `BloomFilter`).  The table against the bit-serial
  register, and the filter against the set of addresses.
* **Text and element codecs** (`HexText`, `CNumbers`, `HexPattern`, `PatternHelp`, `Ssid`, `Ies`, `Rsn`).
* **Argument parsers** (`SchedScan`, `SchedScanMessage`, `SchedScanParser` and `SchedScanLists`, `Scan`,
  `ScanMessage` and `ScanParser`, `RateChunks`, `Bitrates`, `BitratesParser`, `BandGuards` and `UnreadWords`,
  `TidConfig`, `TidMessage` and `TidConfigParser`).  For each, the first module reads the argument list as a
  list of clauses and shows that this reading is the only one; the module named after the message says what
  the clauses put into it; the parser follows the state machine of the code and shows that it ends and agrees
  with both.  `SchedScanLists`, `BandGuards` and `UnreadWords` state what arguments lose.
  The local variables of such a parser are a record that its loop updates.

Conventions.  Host order is little-endian and `unsigned long` has 64 bits.  A message's length field is
kept beside its buffer.  C strings are sequences without NUL; characters are classified as in the C locale.
What the kernel sends, and what `strtod` and `sscanf` read, are parameters; `strtoul` and `strtol` are
modelled (`CNumbers`).

Where the code does not do what its documentation says or a caller would expect, the code is modelled:

* the room check of `nla_reserve` counts the old length twice, so a message more than half full refuses
  attributes that fit (`NlMsg.WhenTheRoomCheckIsExact`);
* `minlen` replaces the size of an integer type and can make a flag impossible, although the comments say
  the size is implied and flags ignore it (`NlParse.WhenTheTypeImpliesTheLength`, `NlParse.WhenAFlagCanPass`);
* the walk of a stream whose length is not a multiple of four can step past its end (`NlAttr.SafeLengths`);
* a payload too long for the 16-bit length field is accepted, and not found again (`NlMsg.WhenAPutIsWalked`);
* `nl_object_clone` is to copy all data, but leaves the mask behind, which says what has been set, and
  copies the list heads of a family byte for byte: cloning one that has operations or groups never ends, and
  the clone of any other takes the head of the source for an item of its list
  (`FamilyLists.WhenAnObjectIsCloned`, `FamilyLists.CloneOfOneOperation`, `FamilyLists.CloneOfOnlyId`);
* group names longer than the array are stored cut off and cannot be looked up, and group numbers of 2^31
  and above come back negative, as errors do (`GenlCtrl.AnnouncedGroupIsFound`, `GenlCtrl.LargeGroupIdIsAnError`);
* a hexadecimal token is cut to 32 bits before its range is checked, so that one of more than eight digits,
  or with a minus sign, may pass for a byte (`HexPattern.WhenDigitsAreAccepted`,
  `HexPattern.WhenSignedDigitsAreAccepted`, `HexPattern.NegativeNumber`);
* a MAC address may have more than six parts (`HexText.SevenParts`);
* `parse_hex_mask` sizes its arrays by the length of the text, which is too little for a text with many empty
  tokens (`HexPattern.WhenPlainHexFits`, `HexPattern.FiveColons`, `Scan.WhenAnElementOverruns`); the length it
  reports for a pattern may exceed them even where nothing is stored outside (`HexPattern.SkippedLast`);
* `parse_sched_scan` returns success at a word that is not its own, "to continue parsing", but then sends
  none of the lists it has collected (`SchedScanLists.WhenListsAreLost`, `SchedScanLists.LostFrequency`);
* `handle_scan` returns success for a malformed element after a randomise option
  (`Scan.WhenArgumentsGoUnread`, `Scan.UnreadElement`);
* guard interval and LTF size are given for each band, but every band that asks for one gets the one given
  last (`BandGuards.WhenBandsGetTheirGi`, `BandGuards.WhenBandsGetTheirLtf`, `BandGuards.DifferentGis`);
* words after `sgi` and `lgi`, and all guard intervals but the last, are not looked at, so settings among
  them in a TID configuration are lost (`UnreadWords.WhenAWordIsUnread`, `TidConfig.SettingsAfterGuardAreLost`,
  `TidConfig.SettingsBeforeGiAreLost`);
* a TID configuration refuses a list of rates of one word, which the usage text allows
  (`TidConfig.WhenRatesAreRefused`, `TidConfig.OneGuardIsRefused`);
* `sscanf` ends a blank rate chunk with EOF, which passes for a large number of items; lists of more than 32
  legacy or 77 HT rates overrun their arrays; and a legacy rate of 128 or more, or `nan`, is converted to a
  byte that it does not fit (`RateChunks.WhenReadToTheEnd`, `Bitrates.WhenTheLoopStoresWell`,
  `BitratesParser.BlankChunk`, `BitratesParser.UndefinedRates`);
* the help text for wake-up patterns lets "-" stand for more than one byte; in the pattern that is sent it
  stands for one (`PatternHelp.WhenTheHelpIsRight`, `PatternHelp.HelpExample`).

`dafny verify dfyconfig.toml` checks the project.

## Model

| member | source | states |
|---|---|---|
| Fips180.ZeroBytesIsTheStandards | wifi/iw/sha256.c:175-195 | the number of zero bytes is the least that completes a block as section 5.1.1 of FIPS 180-4 asks, for every message length |
| Fips180.PaddingFillsBlocks | wifi/iw/sha256.c:175-196 | a padded message is a whole number of 64-byte blocks |
| Fips180.ScheduleBeginsWithTheBlock | wifi/iw/sha256.h:7-9 | each of the first sixteen schedule words is the number that its four bytes write, the first byte in its highest eight bits |
| Fips180.WordOfItsBytes | wifi/iw/sha256.h:7-22 | writing a word as four bytes and reading them gives the word |
| Fips180.BytesOfItsWord | wifi/iw/sha256.h:7-22 | reading four bytes as a word and writing it gives the bytes |
| Fips180.BigEndianWrites | wifi/iw/sha256.h:11-16 | the bytes of a length write it in base 256, most significant first, if there is room for it |
| Sha256Example.PaddedAbc | wifi/iw/sha256.c:175-196 | the message abc is padded to one block: 61 62 63 80, zeros, and 18 at the end |
| Sha256Example.AllRounds | wifi/iw/sha256.c:83-93 | the working variables after the 64 rounds on that block |
| Sha256Example.AbcCompressed | wifi/iw/sha256.c:95-97 | the state after that block, the initial state added in |
| Sha256Example.AbcDigest | wifi/iw/sha256.c:10-21 | the digest of abc, computed through from the definitions, is ba7816bf 8f01cfea 414140de 5dae2223 b00361a3 96177a9c b410ff61 f20015ad |
| Primes.PrimesAreTheFirst | wifi/iw/sha256.c:30-44 | the table of primes behind the round constants holds exactly the primes up to 311, sixty-four of them, in order |
| Sha256Constants.RoundConstants | wifi/iw/sha256.c:30-44 | each table entry is the only number that is the first 32 fractional bits of the cube root of its prime (section 4.2.2) |
| Sha256Constants.InitialHashValue | wifi/iw/sha256.c:104-116 | each initial word is the only number that is the first 32 fractional bits of the square root of its prime (section 5.3.3) |
| Sha256Macros.LogicalMacros | wifi/iw/sha256.c:51-52 | the rewritten Ch and Maj equal the forms of section 4.1.2, for all words |
| Sha256Macros.Rotation | wifi/iw/sha256.c:48-53 | RORc in 64-bit arithmetic is the 32-bit rotation, for every word and distance used |
| Sha256Macros.BigSigmaMacros | wifi/iw/sha256.c:55-56 | Sigma0 and Sigma1, widened, equal the functions of section 4.1.2 |
| Sha256Macros.SmallSigmaMacros | wifi/iw/sha256.c:57-58 | Gamma0 and Gamma1, widened, equal the functions of section 4.1.2 |
| Sha256Macros.AssignedSum2 | wifi/iw/sha256.c:85-87 | a 64-bit sum cut to 32 bits on assignment is addition modulo 2^32, also when the wide operand is only known modulo 2^32 |
| Sha256Macros.AssignedSum4 | wifi/iw/sha256.c:79-80 | the same for the four terms of a schedule word |
| Sha256Macros.AssignedSum5 | wifi/iw/sha256.c:84 | the same for the five terms of t0, table constant included |
| Sha256.Load32BIsWordOfBytes | wifi/iw/sha256.h:7-9 | the shifts of LOAD32B read the number that four bytes write |
| Sha256.Store32BIsBytesOfWord | wifi/iw/sha256.h:18-22 | the shifts of STORE32B write the four bytes of that number |
| Sha256.RndRotateIsRound | wifi/iw/sha256.c:83-92 | RND on rotated registers, followed by the rotation, is the simultaneous assignment of section 6.2.2 step 3 |
| Sha256.FillSchedule | wifi/iw/sha256.c:74-80 | the array W, read by LOAD32B, holds the message schedule of section 6.2.2 step 1 |
| Sha256.RndAndRotate | wifi/iw/sha256.c:90-92 | one turn of the loop changes the array S in place by one round |
| Sha256.RunRounds | wifi/iw/sha256.c:70-93 | after the loop S holds the working variables after 64 rounds of the standard, and the state is untouched |
| Sha256.AddInto | wifi/iw/sha256.c:95-97 | the feedback adds S to the state word by word, modulo 2^32 |
| Sha256.CompressWords | wifi/iw/sha256.c:64-100 | sha256_compress replaces the state by the compression function of section 6.2.2, for every state and block |
| Sha256.Sha256State.constructor | wifi/iw/sha256.c:104-116 | the context stands for the initial hash value, no bytes, length 0 |
| Sha256.Sha256State.TakeBlock | wifi/iw/sha256.c:134-139 | a block taken straight from the input has the effect of absorbing it |
| Sha256.Sha256State.TakePiece | wifi/iw/sha256.c:141-151 | a piece copied into the buffer, which may complete a block, has the effect of absorbing it |
| Sha256.Sha256State.Process | wifi/iw/sha256.c:125-156 | from every valid context the new context is the old one with the input absorbed, and -1 is never returned |
| Sha256.Sha256State.FillZeros | wifi/iw/sha256.c:183-192 | the zero-filling loops, in place |
| Sha256.Sha256State.StoreLength | wifi/iw/sha256.c:194-195 | the eight length bytes are stored at the end of the buffer |
| Sha256.Sha256State.StoreDigest | wifi/iw/sha256.c:198-200 | the state is written out as eight big-endian words |
| Sha256.Sha256State.PadAndCompress | wifi/iw/sha256.c:175-196 | with 0 to 63 bytes in the buffer, the one or two padded blocks are compressed |
| Sha256.Sha256State.Done | wifi/iw/sha256.c:165-203 | the 32 bytes written are those of the padded message, and -1 is never returned |
| Sha256.Store64BIsBigEndian | wifi/iw/sha256.h:11-16 | the shifts of STORE64B write the number in base 256, most significant digit first |
| Sha256.OnePaddingBlock | wifi/iw/sha256.c:190-196 | up to 55 buffered bytes are padded within one block |
| Sha256.TwoPaddingBlocks | wifi/iw/sha256.c:182-196 | 56 to 63 buffered bytes need two blocks |
| Sha256.Sha256Hash | wifi/iw/sha256.c:10-21 | for every message whose bit length is below 2^64, sha256 writes exactly the digest of FIPS 180-4 and returns 0 |
| Sha256Streaming.AbsorbConcat | wifi/iw/sha256.c:125-156 | absorbing two pieces one after the other is absorbing their concatenation, from every context |
| Sha256Streaming.SplitIndependence | wifi/iw/sha256.c:125-156 | for every sequence of calls from the initial state: state is the fold of compression over the whole blocks of the concatenated input, the buffer is the remainder, the length is 512 bits a block modulo 2^64 |
| Sha256Streaming.AbsorbShort | wifi/iw/sha256.c:141-145 | a piece that leaves the block incomplete only extends the buffer |
| Sha256Streaming.AbsorbBlock | wifi/iw/sha256.c:134-151 | a piece that completes the block compresses it and empties the buffer |
| Sha256Streaming.FinishCompressesPaddedMessage | wifi/iw/sha256.c:165-203 | finishing after the whole message compresses the message padded as in section 5.1.1 |
| Sha256Streaming.StreamingDigest | wifi/iw/sha256.c:10-21 | absorbing a message and finishing gives the digest of FIPS 180-4 |
| NlAttr.AlignedStaysInside | wifi/libnl-tiny/attr.c:401-432 | in a stream whose length is a multiple of four the walk never steps outside and ends |
| NlAttr.OverrunningOverruns | wifi/libnl-tiny/attr.c:401-432 | for every other length of at least four there is a stream on which `remaining` becomes negative |
| NlAttr.SafeLengths | wifi/libnl-tiny/attr.c:401-432 | the lengths for which every stream is walked inside its bounds are exactly the multiples of four and those below four |
| NlAttr.ShiftedWalk | wifi/libnl-tiny/attr.c:426-432 | the walk depends only on the bytes from where it starts |
| NlAttr.WalkEncoding | wifi/libnl-tiny/attr.c:401-432 | walking any encoding meets exactly the attributes encoded, in order, and leaves no byte |
| NlAttr.EncodeAppend | wifi/libnl-tiny/attr.c:614-666 | encoding one more attribute appends its bytes |
| NlAttr.EncodingIs | wifi/libnl-tiny/attr.c:614-637 | length and type are little-endian 16-bit numbers, the length counts four bytes more than the payload, and zeros pad the attribute to a multiple of four |
| NlAttr.TypeWithFlags | wifi/libnl-tiny/include/netlink/attr.h:160-163 | the bits for nesting and byte order are no part of the type |
| NlMsg.AcceptedFits | wifi/libnl-tiny/attr.c:619-622 | an attribute that passes the room check fits the message, while the 32-bit sum does not wrap |
| NlMsg.WhenWritesStayInside | wifi/libnl-tiny/attr.c:614-622 | nothing is written outside the message exactly when the sum of the room check does not wrap around to a number within the message's size |
| NlMsg.WhenTheRoomCheckIsExact | wifi/libnl-tiny/attr.c:609-622 | the room check agrees with the documented one exactly when there is no room, or room for the old contents once more |
| NlMsg.RefusedWithHalfTheMessageFree | wifi/libnl-tiny/attr.c:621-622 | a message of 4096 bytes refuses an empty attribute with 2048 bytes free |
| NlMsg.PutAllAppends | wifi/libnl-tiny/attr.c:614-666 | any run of puts appends the encodings of the accepted attributes and stays within the message |
| NlMsg.PutsRoundTrip | wifi/libnl-tiny/attr.c:614-666 | from any aligned message, any run of puts leaves the earlier bytes alone, and the appended region is walked as exactly the accepted attributes with nothing left over |
| NlMsg.Message.Reserve | wifi/libnl-tiny/attr.c:614-637 | whenever what is accepted fits: header with the length cut to 16 bits, padding zeroed where that length ends, new length; on refusal nothing changes |
| NlMsg.Message.PutAttr | wifi/libnl-tiny/attr.c:653-666 | nla_put appends the encoding of the attribute after the alignment gap if its length fits 16 bits, and otherwise a region of the right size with the payload in place; on refusal nothing changes |
| NlMsg.WhenAPutIsWalked | wifi/libnl-tiny/attr.c:614-666 | what nla_put has appended is walked as its attribute if and only if its length fits 16 bits |
| NlMsg.Message.PutAligned | wifi/libnl-tiny/attr.c:653-666 | on an aligned message nla_put keeps it aligned and is the put of the runs above |
| NlMsg.Message.PutRun | wifi/libnl-tiny/attr.c:653-666 | a run of nla_put calls on the buffer is the abstract run of the round trip |
| NlMsg.Message.NestEnd | wifi/libnl-tiny/include/netlink/attr.h:488-492 | closing a nest rewrites its length field and nothing else |
| NlMsg.Message.PutNest | wifi/libnl-tiny/include/netlink/attr.h:469-492 | nla_nest_start, a run of puts and nla_nest_end append the region of a nest that holds the accepted attributes; a nest that is refused changes nothing |
| NlMsg.NestIsOneAttribute | wifi/libnl-tiny/include/netlink/attr.h:469-492 | a closed nest is one attribute whose payload is what was put inside |
| NlMsg.NestRoundTrip | wifi/libnl-tiny/include/netlink/attr.h:469-492 | a nest is walked as one attribute that holds the attributes put inside, exactly when its length fits 16 bits |
| NlParse.PassingConforms | wifi/libnl-tiny/attr.c:442-477 | an attribute passes its policy if and only if it conforms: lengths, a terminated nonempty string, an empty flag |
| NlParse.WhenTheTypeImpliesTheLength | wifi/libnl-tiny/attr.c:434-465 | exactly when a passing integer attribute has at least 1, 2, 4 or 8 bytes by its type, contrary to the comment that it always has |
| NlParse.WhenAnAttributePasses | wifi/libnl-tiny/attr.c:434-477 | without bounds in the policy an attribute passes exactly when its payload has at least 1, 2, 4 or 8 bytes for the integer types, is nonempty and ends in zero for a string, is empty for a flag, and always for the other types |
| NlParse.WhichErrorIsGiven | wifi/libnl-tiny/attr.c:442-477 | -8 for a payload too short or too long or a flag with contents, -7 for a string that does not end in zero, and no other error |
| NlParse.WhenATypeIsIgnored | wifi/libnl-tiny/attr.c:446-451 | an attribute of type 0 or above the highest type passes whatever its payload |
| NlParse.WhenAFlagCanPass | wifi/libnl-tiny/attr.c:461-465 | a flag can pass exactly when its policy has no minimum length |
| NlParse.NlaValidate | wifi/libnl-tiny/attr.c:551-566 | the result is that of the first attribute that fails, or 0 |
| NlParse.NlaFind | wifi/libnl-tiny/attr.c:580-590 | the first attribute of the type, or none |
| NlParse.NlaParse | wifi/libnl-tiny/attr.c:498-532 | with a policy the result is that of nla_validate; each entry of the table is the last stored attribute of its type, entry 0 stays empty |
| NlParse.ParsedConform | wifi/libnl-tiny/attr.c:498-532 | after success each entry is the last attribute of its type in the whole stream and conforms to its policy |
| NlParse.FindAgreesWithParse | wifi/libnl-tiny/attr.c:498-590 | first and last agree if and only if the type does not occur twice |
| ObjectLists.NlObject.constructor | wifi/libnl-tiny/object.c:42-63 | a new object has one reference and its list pointers point at itself |
| ObjectLists.NlObject.Drop | wifi/libnl-tiny/include/netlink/object.h:74-83 | giving up a reference frees the object exactly when it was the last |
| ObjectLists.NlCache.constructor | wifi/libnl-tiny/cache.c:60-74 | the pointers of a new cache run through no items |
| ObjectLists.ListAddTail | wifi/libnl-tiny/include/netlink/list.h:24-38 | after the pointer updates the list runs through one more item, at its end, in both directions |
| ObjectLists.ExtendedRun | wifi/libnl-tiny/include/netlink/list.h:24-38 | the pointers written make the longer run |
| ObjectLists.ListDel | wifi/libnl-tiny/include/netlink/list.h:46-50 | after the pointer updates the list runs through the other items, in order and in both directions; the item's own pointers stay as they were |
| ObjectLists.MendedRun | wifi/libnl-tiny/include/netlink/list.h:46-50 | the pointers written around the item make the shorter run |
| ObjectLists.DeleteAt | wifi/libnl-tiny/include/netlink/list.h:46-50 | taking out the item at a place is taking it out of the list |
| ObjectCache.Store.Alloc | wifi/libnl-tiny/object.c:42-63 | the caller holds the only reference to a new object; the invariant is kept |
| ObjectCache.Store.AllocCache | wifi/libnl-tiny/cache.c:60-74 | a new cache is empty; the invariant is kept |
| ObjectCache.Store.Get | wifi/libnl-tiny/include/netlink/object.h:69-72 | the caller holds one reference more; the invariant is kept |
| ObjectCache.Store.Put | wifi/libnl-tiny/include/netlink/object.h:74-83 | the caller holds one less, and the object is freed exactly when nobody holds it and no cache lists it |
| ObjectCache.Store.Clone | wifi/libnl-tiny/object.c:75-105 | a new object of the same type with one reference, in no list; its plain data is copied and its mask is empty |
| ObjectCache.Store.AddClone | wifi/libnl-tiny/cache.c:163-170 | the clone of an object that is or was listed is listed in its place, held by the cache alone |
| ObjectCache.Store.AppendItem | wifi/libnl-tiny/cache.c:135-146 | pointers, back pointer and count change together, and the cache lists one more object |
| ObjectCache.Store.Add | wifi/libnl-tiny/cache.c:158-175 | an object whose list pointer points at itself is shared and gains the cache's reference; any other is cloned, with its plain data and an empty mask; a mismatch changes nothing; the caller's references stay |
| ObjectCache.Store.Unlink | wifi/libnl-tiny/cache.c:187-195 | the pointers of the neighbours alone are changed, and the cache then lists the other objects, in order |
| ObjectCache.Store.PutUnlinked | wifi/libnl-tiny/cache.c:192-197 | the reference of the cache is given up before the count goes down, and the invariant is restored |
| ObjectCache.Store.Remove | wifi/libnl-tiny/cache.c:185-199 | the object leaves its cache, the others keep their order, and it is freed exactly when nobody holds it |
| ObjectCache.Store.Clear | wifi/libnl-tiny/cache.c:100-108 | the walk by `next` pointers, which keeps the successor of the item it removes, visits every item once and reads no freed memory; the cache is empty; of its objects exactly those nobody holds are freed |
| ObjectCache.Store.FreeCache | wifi/libnl-tiny/cache.c:118-126 | the same for freeing a cache, null included |
| ObjectCache.Store.ItemsAreLive | wifi/libnl-tiny/cache.c:135-199 | in every reachable state a listed object is not freed and points back to its cache |
| ObjectCache.Store.ListedObjects | wifi/libnl-tiny/cache.c:135-199 | in every reachable state the count equals the list length, and a listed object points back to its cache, has its outside holders plus one as reference count, and is in no other cache |
| ObjectCache.Store.NeverListed | wifi/libnl-tiny/include/netlink/list.h:52-55 | in every reachable state an object whose list pointer points at itself is in no cache |
| FamilyLists.TurnPointers | wifi/libnl-tiny/object.c:92-97 | the pointers that one turn of the loop of family_clone changes |
| FamilyLists.WalkIsChained | wifi/libnl-tiny/genl_family.c:58-76 | with the head copied over, after any number of turns the walk stands in the items it has appended itself |
| FamilyLists.CopyNeverEnds | wifi/libnl-tiny/genl_family.c:58-76 | so for a list with items the loop never ends |
| FamilyLists.EmptyCopyHoldsTheSource | wifi/libnl-tiny/object.c:92-97 | the copied head of an empty list has the head of the source for its first item |
| FamilyLists.WalkCopies | wifi/libnl-tiny/genl_family.c:58-76 | with the head left as the constructor made it, each turn copies one more item and leaves the source alone |
| FamilyLists.WhenAListIsCopied | wifi/libnl-tiny/object.c:75-105 | the loop ends with an equal list of the copy's own, and the source's list kept, if and only if the head was not copied over |
| FamilyLists.WhatACloneIs | wifi/libnl-tiny/object.c:75-105 | every clone returned has an empty mask, and the head of the source for the first item of each list |
| FamilyLists.WhenCloningReturns | wifi/libnl-tiny/object.c:75-105 | cloning returns exactly when every embedded list is empty |
| FamilyLists.WhenAnObjectIsCloned | wifi/libnl-tiny/object.c:75-105 | cloning returns an equal object of its own exactly when the object embeds no list and nothing is marked in its mask |
| FamilyLists.CloneOfOneOperation | wifi/libnl-tiny/genl_family.c:58-70 | cloning a family with one operation never ends |
| FamilyLists.CloneOfOnlyId | wifi/libnl-tiny/include/netlink/genl/family.h:60-66 | a family with an identifier and no operations or groups is cloned, and genl_family_get_id gives 0 for its clone |
| ObjectLists.DeleteFacts | wifi/libnl-tiny/include/netlink/list.h:46-50 | removal takes out one item and keeps the rest distinct |
| GenlCtrl.ParseOpers | wifi/libnl-tiny/genl_ctrl.c:107-135 | the loop over operations collects them in order or reports the first defect |
| GenlCtrl.ParseGroups | wifi/libnl-tiny/genl_ctrl.c:137-168 | the loop over groups collects them in order or reports the first defect |
| GenlCtrl.FamilyHoldsMessage | wifi/libnl-tiny/genl_ctrl.c:73-170 | a family is made of a message exactly when nothing it needs is missing or malformed, and then identifier, name, version, header size, highest attribute, mask, operations and groups are those in the message, cut to their widths |
| GenlCtrl.FirstDefect | wifi/libnl-tiny/genl_ctrl.c:73-168 | a message without name or identifier gives -14; then operations are looked at before groups |
| GenlCtrl.OperDefect | wifi/libnl-tiny/genl_ctrl.c:107-135 | the error is that of the first operation that is malformed, or -14 if it has no identifier |
| GenlCtrl.GroupDefect | wifi/libnl-tiny/genl_ctrl.c:137-168 | the same for groups, which also need a name |
| GenlCtrl.FillAndAdd | wifi/libnl-tiny/genl_ctrl.c:73-170 | the family read is added to the cache, with the numbers and names of the message, or the error is that of the first defect and nothing is cached |
| GenlCtrl.CtrlMsgParser | wifi/libnl-tiny/genl_ctrl.c:61-174 | the cached data holds the message field by field; on every path the creation reference is given up once: a cached family is held by the cache alone, one that is not cached is freed |
| GenlCtrl.FirstNamedIs | wifi/libnl-tiny/genl_ctrl.c:238-246 | what is found by name is in the list and nothing before it has that name; where nothing is found no item has it |
| GenlCtrl.FirstWithIdIs | wifi/libnl-tiny/genl_ctrl.c:202-210 | the same for numbers |
| GenlCtrl.SearchByName | wifi/libnl-tiny/genl_ctrl.c:232-250 | the first family of that name, with one reference for the caller; otherwise nothing changes |
| GenlCtrl.Search | wifi/libnl-tiny/genl_ctrl.c:198-214 | the first family of that number, with one reference for the caller; otherwise nothing changes |
| GenlCtrl.Pickup | wifi/libnl-tiny/cache.c:244-297 | the cache holds the families of the messages before the first that does not parse, whose error ends the reception |
| GenlCtrl.Refill | wifi/libnl-tiny/cache.c:361-374 | a refused request changes nothing; otherwise the cache, whatever it held, is cleared and filled that way, and of what it held exactly what nobody else holds is freed |
| GenlCtrl.AllocAndFill | wifi/libnl-tiny/cache.c:76-92 | a filled cache, or everything made on the way is freed again |
| GenlCtrl.ResolveIn | wifi/libnl-tiny/genl_ctrl.c:269-280 | the reference the search returns is given back: the holders are as before |
| GenlCtrl.Resolve | wifi/libnl-tiny/genl_ctrl.c:262-283 | the identifier of the first family of that name; every reference held before is held still and every object and cache made on the way is freed, found or not |
| GenlCtrl.ResolvedFromMessages | wifi/libnl-tiny/genl_ctrl.c:262-283 | from the messages alone: if all are complete, the number resolved is that in the first message whose name, as stored, is the one looked for, and -12 if there is none |
| GenlCtrl.ResolvedAfterDefect | wifi/libnl-tiny/genl_ctrl.c:262-283 | an error of the reception, or of the first message that is not complete, is returned |
| GenlCtrl.ResolvedGroupFromMessages | wifi/libnl-tiny/genl_ctrl.c:299-321 | from the messages alone: the number resolved for a group is that of the first group stored under its name in the first message with the family's name, and -12 if there is none |
| GenlCtrl.ReceivedIdIsSet | wifi/libnl-tiny/include/netlink/genl/family.h:60-66 | the identifier of every family received is marked as set, so that resolving gives the identifier stored |
| GenlCtrl.GrpByName | wifi/libnl-tiny/genl_ctrl.c:285-297 | the number of the first group of that name, converted to int |
| GenlCtrl.ResolveGrp | wifi/libnl-tiny/genl_ctrl.c:299-321 | the same for a group of a family |
| GenlCtrl.AnnouncedGroupIsFound | wifi/libnl-tiny/genl_ctrl.c:285-297 | looking up an announced group gives no error if and only if its name is shorter than the array that stores it and the first group stored under that name has a number below 2^31 |
| GenlCtrl.GroupIdOfFirst | wifi/libnl-tiny/genl_family.c:138-153 | for every list of announced groups the lookup gives the number of the first that is stored under the name |
| GenlCtrl.LargeGroupIdIsAnError | wifi/libnl-tiny/genl_ctrl.c:285-297 | the group abcde with number 0x80000001 is looked up as a negative number |
| CacheRegistry.Registry.Lookup | wifi/libnl-tiny/cache_mngt.c:37-46 | the registered operations of that name, or none |
| CacheRegistry.Registry.Associate | wifi/libnl-tiny/cache_mngt.c:59-74 | the first registered operations with that protocol and message type, or none |
| CacheRegistry.Registry.Register | wifi/libnl-tiny/cache_mngt.c:85-99 | new operations are put first, invalid ones and known names are refused without a change |
| CacheRegistry.Registry.Unregister | wifi/libnl-tiny/cache_mngt.c:112-127 | exactly the given node leaves the list, the others keep their order; an unknown one is refused without a change |
| CacheRegistry.MsgTypesIff | wifi/libnl-tiny/cache_mngt.c:64-71 | the message types handled are those before the first negative number |
| CacheRegistry.RemovedAt | wifi/libnl-tiny/cache_mngt.c:116-125 | taking out the node the pointer walk stops at is taking it out of the list |
| CacheRegistry.RunKeepsNamesDistinct | wifi/libnl-tiny/cache_mngt.c:85-127 | after every sequence of calls the names are pairwise distinct |
| CacheRegistry.RunAgreesWithMap | wifi/libnl-tiny/cache_mngt.c:37-127 | after every sequence of calls lookup agrees with a map updated by the same calls |
| CacheRegistry.RegisterThenUnregister | wifi/libnl-tiny/cache_mngt.c:85-127 | registering and unregistering restores the list |
| Crc32.TableEntry | wifi/iw/bloom.c:4-48 | every table entry is eight steps of the bit-serial register on its index |
| Crc32.TableStep | wifi/iw/bloom.c:55-56 | one table step is eight bit steps, for every register and byte |
| Crc32.UpdateCrc | wifi/iw/bloom.c:50-59 | the loop computes the bit-at-a-time reflected CRC of IEEE 802.3 section 3.2.9, without the final complement, for every initial value |
| Crc32.CrcConcat | wifi/iw/bloom.c:61-66 | the CRC of two buffers one after the other is that of their concatenation |
| BitArray.SetOneBit | wifi/iw/bloom.c:68-71 | setting a bit adds its number to the members and nothing else |
| BitArray.FilterOfItsBits | wifi/iw/bloom.c:68-71 | a filter is determined by its members |
| BloomFilter.BitsInRange | wifi/iw/bloom.c:61-80 | every bit number is below the number of bits |
| BloomFilter.FourBits | wifi/iw/bloom.c:61-80 | the bits of an address are the low sixteen bits of the CRC of the byte 4 * idx + i and the address, modulo the number of bits, for i from 0 to 3, and no others |
| BloomFilter.H | wifi/iw/bloom.c:61-66 | the hash is the CRC of the index byte followed by the address, cut to 16 bits and reduced |
| BloomFilter.SetBit | wifi/iw/bloom.c:68-71 | exactly one bit is added |
| BloomFilter.NanBf | wifi/iw/bloom.c:73-80 | exactly the four bits of the address are added |
| BloomFilter.FillFilter | wifi/iw/nan.c:215-241 | the filter's bits are exactly those of the addresses given; a bad length or a bad address is refused |
| BloomFilter.NoFalseNegatives | wifi/iw/nan.c:229-241 | every address given tests present |
| BloomFilter.OrderDoesNotMatter | wifi/iw/nan.c:229-241 | neither order nor repetition of the addresses changes the filter |
| BloomFilter.FalsePositives | wifi/iw/nan.c:229-241 | any address tests present if and only if others cover its bits |
| HexText.DigitValues | wifi/iw/util.c:238-245 | the sixteen digits have the values of their places, capitals too, and small letters are printed |
| HexText.WhatIsADigit | wifi/iw/util.c:238-245 | there are no other digits |
| HexText.AcceptedHex | wifi/iw/util.c:238-274 | hex2bin accepts exactly the strings of an even number of digits |
| HexText.BytesOfHexOf | wifi/iw/util.c:247-274 | reading the two-digit form of any bytes gives the bytes |
| HexText.Hex2Bin | wifi/iw/util.c:260-274 | the buffer receives the bytes the digits stand for, and the rest of it is untouched |
| HexText.TokensOfJoin | wifi/iw/util.c:74-78 | cutting at colons undoes joining |
| HexText.JoinOfTokens | wifi/iw/util.c:74-78 | joining undoes cutting, for every text |
| HexText.FewTokens | wifi/iw/util.c:54-66 | without empty tokens there are at most half as many tokens as characters, rounded up |
| HexText.MacAddrN2A | wifi/iw/util.c:8-22 | the text is the six two-digit forms joined by colons |
| HexText.MacAddrA2N | wifi/iw/util.c:24-49 | it succeeds exactly when there are at least six tokens and the first six are numbers up to 255, which are the address |
| HexText.MacRoundTrip | wifi/iw/util.c:8-49 | printing an address and reading it back gives the address |
| HexText.MorePartsAreIgnored | wifi/iw/util.c:24-49 | whatever follows a text of at least six parts and a colon makes no difference |
| HexText.SevenParts | wifi/iw/util.c:24-49 | 00:11:22:33:44:55:66 is taken for the address of its first six parts |
| CNumbers.DecimalsIff | wifi/iw/scan.c:259-273 | the decimal arguments at the head are exactly a maximal run |
| CNumbers.PlainDigits | wifi/iw/util.c:86-88 | a token of digits is read to its end, as the number it writes or the largest there is |
| CNumbers.SignedDigits | wifi/iw/util.c:86-88 | so is a sign and digits; a minus sign negates the number modulo 2^64 unless it is too large |
| CNumbers.OneMoreDigit | wifi/iw/util.c:86-88 | a further digit multiplies the number by the base and adds its value |
| CNumbers.WhichCharacters | wifi/iw/util.c:86-88 | the digits of bases 8, 10 and 16, and the characters of white space |
| CNumbers.DecimalToken | wifi/iw/bitrate.c:303 | digits that do not begin with 0 are read by strtol as decimal, up to the largest long |
| CNumbers.NegativeToken | wifi/iw/bitrate.c:303 | after a minus sign they are read as the negative number, down to the smallest long |
| CNumbers.OctalToken | wifi/iw/bitrate.c:303 | octal digits that begin with 0 are read as octal |
| CNumbers.HexToken | wifi/iw/bitrate.c:303 | digits after 0x are read as hexadecimal |
| HexPattern.WhichTokensAreSkipped | wifi/iw/util.c:80-91 | -, xx and -- stand for any byte in a pattern with a mask, and are no bytes in one without |
| HexPattern.WhenDigitsAreAccepted | wifi/iw/util.c:86-93 | a token of digits is accepted as a byte exactly when its number fits an unsigned long and is that byte modulo 2^32 |
| HexPattern.WhenSignedDigitsAreAccepted | wifi/iw/util.c:86-93 | a sign and digits are accepted as a byte exactly when the number fits an unsigned long and, so signed, is that byte modulo 2^32 |
| HexPattern.NegativeNumber | wifi/iw/util.c:86-91 | the token -ffffffff is taken for 1 |
| HexPattern.ShortDigits | wifi/iw/util.c:86-93 | up to eight digits, that means exactly the numbers below 256 |
| HexPattern.TruncatedNumber | wifi/iw/util.c:86-91 | a nine-digit number above 255 that is taken for a byte |
| HexPattern.NonemptyTokensFit | wifi/iw/util.c:54-68 | texts without empty tokens never need more than the two arrays hold |
| HexPattern.TokensByColons | wifi/iw/util.c:73-78 | there is one token more than there are colons |
| HexPattern.WhenHexFits | wifi/iw/util.c:54-102 | a text whose tokens all parse is stored inside the arrays if and only if every token for which there is no room is skipped |
| HexPattern.WhenPlainHexFits | wifi/iw/util.c:54-102 | without a mask that means exactly that the colons are at most half the length plus one |
| HexPattern.WhenThereIsRoom | wifi/iw/util.c:54-68 | the same condition on the colons says when there is a byte for every token |
| HexPattern.SkippedLast | wifi/iw/util.c:80-102 | the pattern ::::- is stored inside the arrays, but its reported length of five exceeds the four bytes allocated |
| HexPattern.ColonsOverrun | wifi/iw/util.c:54-102 | a text of colons alone is accepted, and overruns the arrays from three colons on |
| HexPattern.FiveColons | wifi/iw/util.c:54-102 | the text ::::: stores six bytes in an array of four |
| HexPattern.CutToken | wifi/iw/util.c:73-78 | the next token is cut off by overwriting one colon in place |
| HexPattern.StoreToken | wifi/iw/util.c:80-99 | a token sets one byte and one mask bit, or none, or is refused |
| HexPattern.ParseHexMask | wifi/iw/util.c:51-113 | where no token is stored outside the arrays, it succeeds exactly when every token parses; bytes as far as there is room, mask bits and the cut text are those of the tokens, and the length reported is their number |
| HexPattern.ParseHex | wifi/iw/util.c:115-122 | the bytes of the tokens, or null exactly when one does not parse |
| HexPattern.PrintCells | wifi/iw/wowlan.c:458-465 | the loop prints the cells joined by colons |
| HexPattern.PrintPattern | wifi/iw/wowlan.c:444-466 | a pattern with a mask of the wrong length is called invalid, any other is printed |
| HexPattern.CellsRoundTrip | wifi/iw/util.c:51-113 | the text printed for any nonempty pattern stays inside the arrays and parses to the same cells |
| HexPattern.PatternRoundTrip | wifi/iw/wowlan.c:444-466 | parsing the printed text gives the same length, the same bytes where the mask is set and zero elsewhere, and the same mask bits |
| HexPattern.MaskRoundTrip | wifi/iw/wowlan.c:444-466 | the mask read back equals the original exactly when the original has no bit beyond the pattern |
| HexPattern.SentMask | wifi/iw/wowlan.c:294-297 | the part of the mask that is sent has all its bits |
| PatternHelp.WhenTheHelpIsRight | wifi/iw/wowlan.c:324-326 | a pattern matches exactly the data that the help text says if and only if no byte in it is left open |
| PatternHelp.WhenTheHelpIsRightAtTheStart | wifi/iw/wowlan.c:324-328 | on data that may go on after the pattern, that is so if and only if no byte to match follows an open one |
| PatternHelp.ExampleIsParsed | wifi/iw/wowlan.c:324-326 | the pattern 00:11:22:-:44 is parsed as five cells, the fourth open |
| PatternHelp.HelpExample | wifi/iw/wowlan.c:324-326 | it matches 00:11:22:33:44 and not 00:11:22:33:ff:44, which the help text says it matches |
| Ssid.PrintSsidEscaped | wifi/iw/util.c:223-236 | the loop prints the escaped name |
| Ssid.WhatIsPrinted | wifi/iw/util.c:223-236 | visible characters other than the backslash are printed as they are, and so is a space that is neither first nor last; all else as \x and two digits |
| Ssid.EscapedRoundTrip | wifi/iw/util.c:223-236 | a reader of plain characters, spaces and \xHH recovers every name |
| Ssid.EscapedIsInjective | wifi/iw/util.c:223-236 | two names print alike if and only if they are equal |
| Ssid.EscapedIsVisible | wifi/iw/util.c:223-236 | only printable characters come out, with no space at either end |
| Ies.PrintIes | wifi/iw/scan.c:2313-2344 | the walk visits exactly the elements of the buffer, each by the printer its identifier selects |
| Ies.WhoPrints | wifi/iw/scan.c:2325-2341 | an element without a printer of its own goes to the vendor printer for 221, to the extension printer for 255, and is dumped or skipped otherwise |
| Ies.ElementsAccountForAll | wifi/iw/scan.c:2322-2343 | every buffer is its elements, encoded, and a rest that does not hold a whole element |
| Ies.ElementsAreFound | wifi/iw/scan.c:2322-2343 | any elements followed by such a rest are exactly what is visited |
| Ies.ElementsRoundTrip | wifi/iw/scan.c:2313-2344 | the elements of an encoding (section 9.4.2.1 of IEEE 802.11-2016) are visited, all of them and in order |
| Rsn.ReadingAccountsForAll | wifi/iw/scan.c:910-1069 | every body is the encoding of the fields read and the bytes left, and no further field could be read: consumed plus remaining is constant |
| Rsn.WholeElement | wifi/iw/scan.c:910-1069 | the bytes of an element with all fields, in their order, counts and capabilities little-endian |
| Rsn.FieldsAreFound | wifi/iw/scan.c:910-1069 | any well-formed fields followed by bytes that cannot begin the next field are recovered |
| Rsn.ReadingInvertsEncoding | wifi/iw/scan.c:910-1069 | both directions at once: reading is the inverse of encoding |
| Rsn.RsnRoundTrip | wifi/iw/scan.c:910-1069 | every well-formed element of section 9.4.2.25 is recovered with nothing left |
| Rsn.PrintSuites | wifi/iw/scan.c:953-958 | the loop prints the suites of a list whose count was checked |
| Rsn.PrintList | wifi/iw/scan.c:948-961 | a suite list is taken whole, or left whole if it does not fit |
| Rsn.PrintOptions | wifi/iw/scan.c:984-1069 | capabilities, PMKID count, group management suite and tail are those of the reading |
| Rsn.PrintRsnIe | wifi/iw/scan.c:910-1069 | for every body of at least two bytes (any, for OSEN) what is printed is the reading, and no subtraction from the 8-bit length wraps |
| SchedScan.ReadClauseIff | wifi/iw/scan.c:118-343 | a clause is read at the head of the arguments if and only if it is written there in order, given what follows |
| SchedScan.ReadIff | wifi/iw/scan.c:116-343 | a list of clauses is read, with a rest, if and only if the arguments write those clauses, in order and compatible, before that rest |
| SchedScan.WhichWordsBegin | wifi/iw/scan.c:119-217 | the words that begin clauses, in full or by their first letters, and no others |
| SchedScan.HowClausesAreWritten | wifi/iw/scan.c:119-342 | the arguments that write each kind of clause |
| SchedScan.WhichPlansAreWritten | wifi/iw/scan.c:302-342 | digits alone are a plan without end; digits, a colon and digits are one with that many iterations, unless they are zero |
| SchedScan.FailuresAreNotZero | wifi/iw/scan.c:72-371 | every failure returns -22, or the value other than 0 that parse_random_mac_addr returned for an argument |
| SchedScan.ExclusiveClauses | wifi/iw/scan.c:119-198 | never an interval and scan plans, nor active and passive, nor two frequency lists in one successful parse |
| SchedScanMessage.GatheredAtOnce | wifi/iw/scan.c:133-204 | what is put at once is the interval of each interval clause, the delay of each delay clause, the address of each randomise clause, and nothing else |
| SchedScanMessage.GatheredFlags | wifi/iw/scan.c:199-208 | the flag for flushing is set exactly if some clause is flush, that for 6 GHz exactly if some is coloc, that for random addresses exactly if some is randomise |
| SchedScanMessage.GatheredLists | wifi/iw/scan.c:218-342 | the lists are the numbers and names of their clause, in order, numbered as the code numbers them |
| SchedScanMessage.WholeMessage | wifi/iw/scan.c:346-356 | after all arguments the message holds what its clauses say, each attribute exactly when some clause asks for it, with the values of that clause |
| SchedScanMessage.ReadMessage | wifi/iw/scan.c:72-371 | so does the message for all arguments that are read, and before a foreign word it holds what is put at once |
| SchedScanParser.TurnMatch | wifi/iw/scan.c:218-258 | state ND_MATCH follows the reading, and leaves without using an argument only to the top level |
| SchedScanParser.TurnFreqs | wifi/iw/scan.c:259-273 | the same for state ND_FREQS |
| SchedScanParser.TurnActive | wifi/iw/scan.c:274-301 | the same for state ND_ACTIVE |
| SchedScanParser.TurnPlans | wifi/iw/scan.c:302-342 | the same for state ND_PLANS, which always uses an argument |
| SchedScanParser.TurnInterval | wifi/iw/scan.c:119-137 | the clause interval, refused after another or after scan plans |
| SchedScanParser.TurnDelay | wifi/iw/scan.c:147-165 | the clause delay, refused after a nonzero delay |
| SchedScanParser.TurnBegin | wifi/iw/scan.c:138-191 | the words that begin lists, with their exclusions |
| SchedScanParser.TurnWord | wifi/iw/scan.c:192-217 | the clauses of one word |
| SchedScanParser.TurnTopLevel | wifi/iw/scan.c:118-217 | state ND_TOPLEVEL follows the reading and always uses an argument or stops |
| SchedScanParser.PutLists | wifi/iw/scan.c:346-356 | the nested lists and flags put at the end |
| SchedScanParser.ParseSchedScan | wifi/iw/scan.c:72-371 | the parse ends; it fails, with a value other than 0, exactly when there is no reading; argv advances by the drop of argc; the message holds what the clauses read say, flag by flag and list by list, and the lists collected are sent only when no argument is left |
| SchedScanParser.OnlyTheLastPlanIsEndless | wifi/iw/scan.c:302-342 | plans are numbered from one and every plan but the last has iterations, in every successful parse |
| SchedScanLists.WhenNothingIsCollected | wifi/iw/scan.c:346-356 | nothing is put at the end exactly for passive scans without frequencies, matches, plans or flags |
| SchedScanLists.WhenListsAreLost | wifi/iw/scan.c:209-214 | the parse succeeds and what it has collected is not sent exactly when the arguments write compatible clauses followed by a foreign word, unless the clauses are passive and collect nothing |
| SchedScanLists.LostFrequency | wifi/iw/scan.c:209-214 | freqs 2412 disconnect is parsed with success, and the frequency is not sent |
| Scan.ReadClauseIff | wifi/iw/scan.c:409-497 | a clause is read if and only if it is written at the head, in order |
| Scan.ReadThrough | wifi/iw/scan.c:409-497 | clauses written at the head are read, whatever follows |
| Scan.ReadIsWritten | wifi/iw/scan.c:409-497 | what is read, up to the end, the error or the overrun, is written |
| Scan.ReadIff | wifi/iw/scan.c:409-497 | the parse is complete with some clauses if and only if the arguments write them, in order |
| Scan.WhenArgumentsGoUnread | wifi/iw/scan.c:434-475 | 0 is returned with arguments unread exactly when an element does not parse, within its array, and an accepted randomise option stands before it |
| Scan.UnreadElement | wifi/iw/scan.c:434-475 | randomise ies zz returns 0 and loses the element |
| Scan.WhenAnElementOverruns | wifi/iw/scan.c:470-475 | parse_hex is called with an element that overruns its array exactly when such an element follows written clauses |
| Scan.FiveColonsOverrun | wifi/iw/scan.c:470-475 | ies ::::: does that, although the element parses |
| Scan.PassiveHasNoSsids | wifi/iw/scan.c:441-459 | passive and a list of names are never both read |
| ScanParser.TurnBegin | wifi/iw/scan.c:411-455 | the words that lead to another state |
| ScanParser.TurnWord | wifi/iw/scan.c:419-459 | the words that stand alone, or are not understood |
| ScanParser.TurnList | wifi/iw/scan.c:460-480 | states FREQ and SSID: items are numbered by their position, and an argument that is no frequency is looked at again |
| ScanParser.TurnOne | wifi/iw/scan.c:457-495 | states IES, MESHID, DURATION and DONE; the element is parsed by the parser of HexPattern, inside its array |
| ScanParser.HandleScan | wifi/iw/scan.c:373-545 | for arguments without an overrun the loop ends in spite of `i--`; result and message are those of the reading, and with result 0 and all arguments read the message holds what the clauses say; when it stops early the message holds the accepted random addresses alone |
| Scan.WhichWordsBegin | wifi/iw/scan.c:411-455 | the words that begin clauses, and no others |
| Scan.HowClausesAreWritten | wifi/iw/scan.c:411-497 | the arguments that write each kind of clause |
| ScanMessage.GatherRemembers | wifi/iw/scan.c:411-497 | the variables after some clauses: each flag is set exactly if its word was given, elements, mesh name and duration are those given last, frequencies and names are listed in order |
| ScanMessage.MessageSends | wifi/iw/scan.c:500-534 | the message of any clauses holds what they say: random addresses, elements and mesh name in one attribute, names, frequencies, flags and duration, each exactly when asked for |
| ScanMessage.ReadMessage | wifi/iw/scan.c:373-545 | so does the message for all arguments that are read through |
| ScanMessage.ItemsAreArguments | wifi/iw/scan.c:460-480 | every frequency and name sent is an argument, numbered by its position, and every such frequency is a number |
| ScanMessage.ClauseStands | wifi/iw/scan.c:405-497 | the words of a clause read stand in the arguments where the clauses before it end |
| ScanMessage.WhatIsSent | wifi/iw/scan.c:511-534 | names are sent unless scanning is passive; a mandatory duration exactly when it is asked for |
| ScanParser.NeverPassiveWithSsids | wifi/iw/scan.c:373-545 | no successful parse chooses both passive scanning and a list of names |
| RateChunks.ParseRateChunk | wifi/iw/bitrate.c:7-68 | for every chunk that is not blank, number of streams and bitmap are those the argument names, for both formats; anything else is refused |
| RateChunks.MaskValues | wifi/iw/bitrate.c:50-51 | index k is the bit of value 2^k |
| RateChunks.RangeChunk | wifi/iw/bitrate.c:16-37 | a range is valid for one to eight streams and a first index not above the last, which is at most 9 for VHT and 11 for HE, and names all indices between |
| RateChunks.ListChunk | wifi/iw/bitrate.c:38-65 | a list is valid under the same bounds with at least one index, and names the indices after its first number |
| RateChunks.McsOfIs | wifi/iw/bitrate.c:83-121 | the bitmap for a number of streams has an index exactly when some argument for that many names it |
| RateChunks.WhenReadToTheEnd | wifi/iw/bitrate.c:83-121 | the loops scan no blank chunk exactly when none has only valid chunks before it |
| RateChunks.Setup | wifi/iw/bitrate.c:83-121 | for arguments without such a blank chunk, for each number of streams the bitmap holds exactly what some argument names for it; order and repetition do not matter |
| RateChunks.BitsOfOr | wifi/iw/bitrate.c:50-51 | the bits of a union are the union of the bits |
| Bitrates.ClausesOfFlatten | wifi/iw/bitrate.c:193-337 | cutting the arguments of any clauses gives the clauses back |
| Bitrates.FlattenOfClauses | wifi/iw/bitrate.c:193-337 | any arguments that start with a section are the arguments of their clauses |
| Bitrates.ClausesSnoc | wifi/iw/bitrate.c:193-337 | one more argument begins a clause or joins the last one |
| Bitrates.LoopOkPrefix | wifi/iw/bitrate.c:193-337 | what the loop refuses early would be refused later |
| Bitrates.WordsOfTheLast | wifi/iw/bitrate.c:309-318 | a section that may occur once holds the words of its one clause, so its count is the list's length |
| Bitrates.StorablePrefix | wifi/iw/bitrate.c:151-162 | words that can be stored at the end can be stored all along |
| Bitrates.SectionWords | wifi/iw/bitrate.c:193-291 | the words that begin rate sections and force guards, with their bands |
| Bitrates.GuardSectionWords | wifi/iw/bitrate.c:193-291 | the words that begin guard interval and LTF sections, with their bands |
| Bitrates.OtherWords | wifi/iw/bitrate.c:193-291 | no other words begin sections |
| Bitrates.WhichWordsAreTaken | wifi/iw/bitrate.c:292-331 | legacy rates from 1 to 510, HT numbers from 0 to 255, LTF sizes from 0 to 4, and a hundred words for VHT and HE |
| Bitrates.GuardIntervals | wifi/iw/bitrate.c:124-142 | 0.8, 1.6 and 3.2 are sent as 0, 1 and 2, and nothing else is a guard interval |
| Bitrates.LtfSizes | wifi/iw/bitrate.c:324-331 | LTF sizes 1, 2 and 4 are sent as 0, 1 and 2 |
| Bitrates.LastGuards | wifi/iw/bitrate.c:321-331 | the last word given for a guard interval or size decides, and other sections change neither |
| Bitrates.WhichGuardsAreRefused | wifi/iw/bitrate.c:363-374 | a band with both sgi and lgi is refused, and so is a last guard interval other than 0.8, 1.6 and 3.2, and no other guards are |
| Bitrates.WhatCanBeStored | wifi/iw/bitrate.c:151-162 | 32 legacy rates below 128 and 77 HT numbers |
| Bitrates.WordsOfTheOnly | wifi/iw/bitrate.c:193-318 | in arguments that the loop accepts a rate section holds the words of its one clause |
| Bitrates.WhenTheLoopStoresWell | wifi/iw/bitrate.c:292-318 | where the loop accepts all arguments it stores inside its arrays, and converts only to values there are, if and only if no legacy list has more than 32 words and no HT list more than 77, and every legacy rate is a number below 128 |
| BitratesParser.TakeWord | wifi/iw/bitrate.c:292-336 | one word in its section: stored inside its array with a value it has, or refused under exactly the stated conditions |
| BitratesParser.ReadSections | wifi/iw/bitrate.c:193-337 | for arguments that can be stored, the loop rejects exactly those that repeat a rate section or hold a bad word; otherwise its variables are those of the clauses |
| BitratesParser.SetupSection | wifi/iw/bitrate.c:343-361 | one bitmap set up, if its section was given |
| BitratesParser.SetupAll | wifi/iw/bitrate.c:343-361 | all five succeed exactly when every chunk is valid |
| BitratesParser.BuildBand | wifi/iw/bitrate.c:379-440 | the attributes of a band are what the clauses for that band say |
| BitratesParser.DescribedRates | wifi/iw/bitrate.c:292-308 | every legacy byte is the number of half megabits of the rate read from the word in its place, rounded down, and every HT byte the number that strtol reads |
| BitratesParser.DescribedMaps | wifi/iw/bitrate.c:343-440 | the bitmaps are those of the chunks in their section; guards, guard interval and LTF size are sent exactly for the bands that are given them, with the last value given |
| BitratesParser.CheckGuards | wifi/iw/bitrate.c:363-374 | the guards are checked, and the guard interval converted |
| BitratesParser.SetBitrates | wifi/iw/bitrate.c:144-448 | for every argument list on which the code is defined, the value returned; and if it makes masks, those of the three bands hold the rates as half megabits, the HT numbers, the bitmaps and the guards that their sections give |
| BitratesParser.AllOrNothing | wifi/iw/bitrate.c:332-341 | for a TID configuration a result of two or more means that all arguments, at least two, make a mask |
| BitratesParser.WhenAcceptedIsDefined | wifi/iw/bitrate.c:292-308 | for arguments that make a mask the code is defined if and only if the legacy and HT lists fit their arrays and every legacy rate is a number below 128 |
| BitratesParser.BlankChunk | wifi/iw/bitrate.c:42-59 | vht-mcs-5 with a blank argument has no defined result |
| BitratesParser.UndefinedRates | wifi/iw/bitrate.c:292-299 | legacy-5 200 and legacy-5 nan are accepted, and what they store is not defined |
| BandGuards.WhenGiIsShared | wifi/iw/bitrate.c:321-323 | the guard interval sent is the one given for every band that is given one if and only if no two bands are given different ones |
| BandGuards.WhenBandsGetTheirGi | wifi/iw/bitrate.c:321-323 | every band's mask has the guard interval given for that band if and only if no two bands are given different ones |
| BandGuards.WhenBandsGetTheirLtf | wifi/iw/bitrate.c:324-331 | the same for the LTF size |
| BandGuards.DifferentGis | wifi/iw/bitrate.c:321-323 | he-gi-2.4 0.8 he-gi-5 3.2 is accepted and sends 3.2 for both bands |
| BandGuards.UncheckedGi | wifi/iw/bitrate.c:321-323 | he-gi-2.4 foo he-gi-5 3.2 is accepted: a value that a later band overrides is not checked |
| UnreadWords.WhenAWordIsUnread | wifi/iw/bitrate.c:292-336 | in arguments that make a mask, and given a word that the library refuses, any other word that begins no section can stand in a place without a difference if and only if the word there follows sgi or lgi, or is a guard interval that a later one overwrites |
| UnreadWords.SkippedIsUnread | wifi/iw/bitrate.c:319-323 | such a word can be replaced by any other, with the same value returned and the same masks |
| UnreadWords.RefusedWordFails | wifi/iw/bitrate.c:292-336 | in every other place a word that the library refuses makes the arguments fail |
| UnreadWords.DroppedWordsAreIgnored | wifi/iw/bitrate.c:319-323 | the arguments without all those words return the same value and make the same masks |
| UnreadWords.OverwrittenSettings | wifi/iw/bitrate.c:321-323 | he-gi-5 ampdu on 3.2 is accepted and makes the masks of he-gi-5 3.2 |
| TidConfig.ReadClauseIff | wifi/iw/interface.c:772-962 | a clause is read if and only if it is written at the head and may stand there |
| TidConfig.ReadIff | wifi/iw/interface.c:772-962 | the arguments are read as some clauses if and only if they write them, in order |
| TidConfig.FailuresAreNotZero | wifi/iw/interface.c:753-971 | every failure returns a value other than 0 |
| TidConfig.WhichWordsBegin | wifi/iw/interface.c:772-958 | the words that begin clauses, and no others |
| TidConfig.HowClausesAreWritten | wifi/iw/interface.c:772-958 | the arguments that write each kind of clause |
| TidConfig.WhichCodeIsReturned | wifi/iw/interface.c:772-962 | 2 is returned exactly when a word that may stand there has an argument it does not take, and 1 in every other failure |
| TidConfig.RatesComeLast | wifi/iw/interface.c:925-951 | nothing can follow a list of rates |
| TidConfig.SettingsAfterGuardAreLost | wifi/iw/interface.c:925-951 | bitrates fixed legacy-5 6 sgi-5 ampdu on is read as one item, with the masks of legacy-5 6 sgi-5 |
| TidConfig.SettingsBeforeGiAreLost | wifi/iw/interface.c:925-951 | bitrates fixed he-gi-5 ampdu on 3.2 is read as one item, with the masks of he-gi-5 3.2 |
| TidConfig.WhenRatesAreRefused | wifi/iw/interface.c:943-948 | a list of rates that makes a mask is refused exactly when it has fewer than two words |
| TidConfig.OneGuardIsRefused | wifi/iw/interface.c:943-948 | bitrates fixed sgi-5 is refused |
| TidConfig.WhenAReadingIsDefined | wifi/iw/interface.c:925-951 | for arguments that have a reading the code is defined if and only if their lists of rates can be stored |
| TidMessage.PutsInMessage | wifi/iw/interface.c:772-971 | the message puts the address, if there is one, and the attributes of the entries in order; the entries are numbered from 0 |
| TidMessage.ConfigSends | wifi/iw/interface.c:772-958 | what is put is what the clauses send, in order: masks of sixteen bits, retry counts of eight, on and off as a flag; each entry begins with its mask and has no other |
| TidMessage.HeadedMessage | wifi/iw/interface.c:807-836 | every entry opened is followed by its mask, and every mask follows the opening of an entry |
| TidMessage.MessageSendsInOrder | wifi/iw/interface.c:772-971 | all of that for the message of any clauses in their places |
| TidMessage.ReadMessage | wifi/iw/interface.c:772-971 | and for the message of all arguments that are read |
| TidMessage.DepthAppend | wifi/iw/interface.c:965-969 | nesting depth over a sequence of events is compositional |
| TidMessage.CloseMessage | wifi/iw/interface.c:965-969 | closing the open nests gives the whole message |
| TidMessage.NextEntry | wifi/iw/interface.c:807-824 | a further mask closes the open entry and opens the next, numbered by one more |
| TidMessage.MoreAttrs | wifi/iw/interface.c:840-951 | items are put into the open entry |
| TidMessage.MessageIsClosed | wifi/iw/interface.c:772-971 | every nest that is opened is closed and nothing is closed that is not open |
| TidConfigParser.TurnPeer | wifi/iw/interface.c:774-791 | state PS_ADDR at an address |
| TidConfigParser.TurnTids | wifi/iw/interface.c:800-836 | state PS_TIDS always uses two arguments or stops |
| TidConfigParser.TakeBitrates | wifi/iw/interface.c:925-951 | the item bitrates takes all that is left, or only its type |
| TidConfigParser.TakeItem | wifi/iw/interface.c:840-956 | the item read at the head and the attributes it puts |
| TidConfigParser.TurnConf | wifi/iw/interface.c:837-958 | state PS_CONF follows the reading |
| TidConfigParser.OneTurn | wifi/iw/interface.c:772-962 | every turn uses an argument or moves to PS_TIDS |
| TidConfigParser.HandleTidConfig | wifi/iw/interface.c:753-971 | where the code is defined, the loop ends; it fails, with a value other than 0, exactly when the arguments have no reading, and otherwise the message sends what the clauses say, in order, with the entries numbered from zero, each closed before the next, with depth zero at the end |

## Left out

- Sockets, ioctls, reading files, event loops and waiting: input and output with the kernel; the messages received are parameters.
- Failure of memory allocation, and of puts inside the argument parsers, which are taken to have room.
- Pretty-printing of capabilities, statistics and status tables: one-branch lookups with no property across functions.
- The printers that `print_ies` dispatches to, other than the RSN printer, and the tables behind cipher and suite names.
- `print_mcs_index`: it prints one number twice when another run follows, so it has no clean inverse.
- Channel and frequency conversions: small finite tables.
- `handle_wowlan_enable` beyond its patterns, TCP configuration files and `coalesce.c`: they reuse the parsers modelled here.
- `handle_nan` beyond the Bloom-filter loop, and the list form of `parse_srf`.
- The linker-section command table and its dispatch.
- ObjectCache.Store.Add: leaves the lists of an object that it clones open. An object that was removed from a cache keeps its list pointers and is cloned when it is added again.
- ObjectCache.Store.Clone: describes the clone that returns, with its lists left open; what becomes of them is in FamilyLists. No path of the controller clones a family.
- FamilyLists.WhenAnObjectIsCloned: compares what is data; reference count, cache, list links and the mark in `ce_flags` belong to each object. Object types are taken to copy their lists as `family_clone` does.
- ObjectLists.NlObject.Free: does not model the removal from a cache inside `nl_object_free`; its precondition shows that it is never needed.
- GenlCtrl.CtrlMsgParser: starts from nested attributes that have been parsed; the parsing is that of NlParse.
- NlMsg.Message.PutAttr: for a payload too long for the length field the bytes of header and padding are those of `Reserve`; only size, earlier bytes and payload are repeated.
- NlMsg.Message.Reserve: promises nothing where the code writes outside the message, which `NlMsg.WhenWritesStayInside` characterises; messages are below 2 GiB.
- NlParse.NlaValidate: promises nothing for a stream on which the walk reads outside the buffer, and neither do NlaFind and NlaParse; for aligned lengths there is none (`NlAttr.SafeLengths`).
- BloomFilter.FillFilter: takes the tokens after `strtok_r` and `mac_addr_a2n`.
- HexPattern.ParseHexMask: promises nothing for texts on which the code leaves its arrays; they are characterised by `HexPattern.HexFits`.
- ScanParser.HandleScan: promises nothing for the arguments of `Scan.WhenAnElementOverruns`.
- RateChunks.ParseRateChunk: promises nothing for a blank chunk, for the code then uses variables without a value.
- HexPattern.PrintPattern: leaves out the offset printed before the pattern.
- Rsn.PrintRsnIe: yields the fields printed, not their wording.
- SchedScanParser.ParseSchedScan: `parse_random_mac_addr` is a parameter, and so it is for ScanParser.HandleScan.
- BitratesParser.SetBitrates: promises nothing where the code is not defined, which `BitratesParser.Defined` states.
- TidConfigParser.HandleTidConfig: the masks nested by `set_bitrates` stand in the message as one attribute. Nothing is promised where `TidConfig.StaysDefined` fails, because `set_bitrates` is not defined there.
