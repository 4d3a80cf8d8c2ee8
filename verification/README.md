# Models and proofs for the game server libraries

A Dafny model of the parts of this repository that carry real guarantees, with proofs of those
guarantees. `dafny verify dfyconfig.toml` checks everything.

**Timer wheel** (`GameLib/mtimer.c`, `mtimer.h`, `clist.h`). `WordTime` is arithmetic on `unsigned long`
of 32 or 64 bits. `TimerSpec`, `TimerTick` and `TimerRun` are the wheel over unbounded time: 512 slots and
the work list as sequences of timers, every call and every tick, callbacks that add, delete and modify
timers, and a record of what happened. `TimerGuarantee` proves what the wheel is for on every run, and
`TimerOrder` says exactly in which order timers of one tick fire. `CList` is the intrusive circular list on
heap nodes, and `TimerWheel` the wheel as the source has it, with wrapping words and rewritten links, proved
to do exactly what the abstract wheel does, over whole programs. The guarantees to read first are
`TimerGuarantee.FiresExactlyOnce`, `TimerGuarantee.EveryFiringIsArmed`,
`TimerGuarantee.EveryTimerInItsWindow`, `TimerOrder.SameTickOrder` and `TimerWheel.WholeRun`.

**JSON** (`GameLib/jsoncpp`). `JsonValue` is the value tree, whose arrays are maps that may have gaps, and
its order, `JsonText` both printers, `JsonScan`, `JsonDecode` and `JsonRead` the reader, as functions on any
document. `JsonRoundTrip` and `JsonStyled` prove the round trips, `JsonSeparators` what may stand between
array items. `JsonReader` and `JsonWriter` are the classes of the source, with their cursors, buffers and
flags, proved against those functions.

**XML** (`GameLib/tinyxml`). `XmlTree` is the tree and how it is printed, `XmlParse` the parser as functions
on any document in any of the three encodings, `XmlFormed` what every parsed tree is like, `XmlHang` on which
documents the parser never ends, `XmlLayout`, `XmlDeclared` and `XmlRoundTrip` what comes back of a printed
tree and exactly which trees come back unchanged, in every encoding and for every white space layout, and
`XmlEncoding` exactly which encoded values. `XmlPrinter` and `XmlParser` are the loops of the source.

**MD5** (`GameLib/MD5`): streaming, padding and the unrolled block transform against RFC 1321. **getopt**
(`GameLib/getopt.c`): whole scans over an array that is permuted in place. **Batch allocator**
(`json_batchallocator.h`): pages, blocks and the free list inside the free storage. **SQL queue**
(`Server/AsyncDBOperator.cpp`): every interleaving of any number of producers with the consumer.

`Division` is what the models share about quotients and remainders, and `Common` the rest.

Where code and comments or intentions disagree, the model follows the code:

- "Timers are FIFO" (`GameLib/mtimer.c:118-120`) holds of a slot, not of an expiry:
  `TimerOrder.SameTickOrder` is the exact rule and `TimerOrder.FifoFails` a run that breaks it.
- `Value::operator<=` (`json_value.cpp:608-612`) computes "not less":
  `JsonValue.WrittenLessOrEqualIsRight` says when that is right.
- The separator test of `readArray` (`json_reader.cpp:566-567`) is never true, so any token but a closing
  bracket separates items, even one the tokenizer calls an error:
  `JsonSeparators.SeparatorsIgnored`, `JsonSeparators.ColonSeparates`.
- Integers within 9 of the ends of their ranges are read back as reals, and an array with gaps as one with
  nulls in them, which is not equal to it: `JsonStyled.RoundTripExact`, `JsonStyled.ResizedArray`.
- `EncodeString` passes hexadecimal character references through, so a value that has one does not come
  back, nor does its tree: `XmlEncoding.ValueComesBack`, `XmlEncoding.ReferenceIsRead`,
  `XmlRoundTrip.RoundTripExact`.
- An operand "--" after the first "--" can be lost: `Getopt.WholeScan`, `Getopt.LaterDashesLost`.
- A page size that is no multiple of the block size is carved past its end, and past the larger storage
  allocated for it: `BatchAllocator.PageMustDivide`. The default of 255 objects with blocks of 8
  (`json_internalarray.inl:138`) is such a case: `BatchAllocator.ItemPagesOverrun`.
- The block loop of `MD5Update` wraps for inputs within 63 bytes of 2^32: `Md5.GuardExact`, `Md5.GuardWraps`.
- `getopt` returns a signed char, so a letter of byte 255 looks like the end: `Getopt.MinusOne`.
- `TiXmlText::Parse` returns one place before where it stopped even at the end of the document
  (`tinyxmlparser.cpp:1538-1540`), so that an element left open and followed by text makes `ReadValue` read
  the last character over and over. The model stops there with the outcome `Hang`; `XmlHang.HangsExactly`
  says for which documents, of all, and `XmlHang.ReadAgain` why.
- In UTF-8 `GetChar` goes by the first byte of a character (`tinyxml.h:329-363`), and so past the end of a
  document that ends in the middle of one. The model stops there with the outcome `Leaves`.
- A declaration without an end is kept, and ends the parse of a document without an error
  (`tinyxmlparser.cpp:1569-1626`, `752-796`): the outcome `Cut`.

## Model

| member | source | states |
|---|---|---|
| TimerGuarantee.FiresExactlyOnce | GameLib/mtimer.c:247-286 | In every run of add, delete, modify and collect steps with any callbacks: an arming after which the first thing to happen to its timer, if anything does, is a firing, leads to that firing at the tick it is due, once the tick has been processed; until then nothing has happened to the timer and it is pending. Timers that are armed again after firing, from their own callbacks or not, are included |
| TimerGuarantee.EveryFiringIsArmed | GameLib/mtimer.c:272-280 | Conversely every firing of a run is that of exactly one arming: no arming leads to two firings, and nothing fires that was not armed |
| TimerGuarantee.EndsAllFire | GameLib/mtimer.c:247-286 | Of every arming in the record of a run at once: fired at its tick, or not yet due and pending |
| TimerGuarantee.ArmedForItsExpiry | GameLib/mtimer.c:81-117 | An added timer is due at its expiry, read within half the word range of the clock; at the current tick if that expiry is past |
| TimerGuarantee.ModifiedForItsExpiry | GameLib/mtimer.c:207-217 | So is a modified one, after it has been disarmed if it was pending |
| TimerGuarantee.EveryTimerInItsWindow | GameLib/mtimer.c:88-117 | After every run each pending timer is linked exactly once, in one slot whose block lies in its level's 64-block window and begins no later than the timer is due; nothing else is linked |
| TimerGuarantee.FiringsInOrder | GameLib/mtimer.c:253-284 | Over a whole run firings come in the order of their ticks |
| TimerGuarantee.CohortIsFifo | GameLib/mtimer.c:118-121 | Of two armings at one tick for one tick that both lead to a firing, the earlier one fires first |
| TimerOrder.SameTickOrder | GameLib/mtimer.c:118-121 | Of any two armings for one tick that both lead to a firing, within the reach of tv5, the earlier one fires first if and only if at no level the other was already too near to wait in it while the first had not been cascaded out |
| TimerOrder.FifoFails | GameLib/mtimer.c:118-121 | A run in which a timer added at tick 0 and one added at tick 1, both for tick 256, fire in the opposite order: the lists are not FIFO as the comment has it |
| TimerOrder.NearOn32Bits | GameLib/mtimer.c:106-114 | With 32-bit words every timer is within the reach of tv5 |
| TimerRun.RunToComposes | GameLib/mtimer.c:253-284 | Collecting to one time and then to a later one leaves the same wheel and the same firings as collecting to the later one at once |
| TimerRun.Drain | GameLib/mtimer.c:268-282 | The loop over the work list ends whatever the callbacks do, and leaves it empty |
| TimerRun.RunTo | GameLib/mtimer.c:253-283 | Collecting ends, with the clock one past the target, and leaves the wheel in order |
| TimerRun.Insert | GameLib/mtimer.c:131-143 | Adding a timer keeps the wheel invariant and agrees with the record of events |
| TimerRun.Delete | GameLib/mtimer.c:167-185 | Deleting keeps the invariant and leaves the timer unlinked |
| TimerRun.Modify | GameLib/mtimer.c:207-217 | Modifying keeps the invariant |
| TimerSpec.InsertPlaced | GameLib/mtimer.c:88-117 | Whatever the distance, a timer is linked where it may wait, capped timers of tv5 included |
| TimerSpec.InsertAvoidsCurrent | GameLib/mtimer.c:91-117 | Nothing is ever linked into a slot of tv2 to tv5 whose block begins at the current tick |
| TimerSpec.PlacedAdvance | GameLib/mtimer.c:245-267 | A tick later every timer may still wait where it is, but for the slots the tick empties |
| TimerSpec.PlaceInv | GameLib/mtimer.c:81-122 | Linking a timer keeps every timer in exactly one right slot, and cohorts in order |
| TimerSpec.DropInv | GameLib/mtimer.c:145-154 | So does unlinking one |
| TimerTick.CascadeKeeps | GameLib/mtimer.c:219-237 | A cascade keeps all pending timers and appends to every slot, in their order, those of the emptied slot that belong there |
| TimerTick.CascadeAvoids | GameLib/mtimer.c:219-237 | A cascade links nothing into a slot whose block begins now, nor into the work list |
| TimerTick.CascadeLevel | GameLib/mtimer.c:261-265 | A level is emptied of its current block when the tick is a multiple of its unit, and left alone otherwise |
| TimerTick.CascadeTickKeeps | GameLib/mtimer.c:261-265 | After the cascades of a tick all slots whose block begins now are empty and no pending timer is lost |
| TimerTick.AdvanceInv | GameLib/mtimer.c:266-267 | Advancing the clock and taking the slot of the tick keeps the invariant; exactly the timers due are taken |
| TimerTick.BeginTick | GameLib/mtimer.c:256-267 | The start of a tick keeps all pending timers and the invariant |
| TimerWheel.RoundOfLevels | GameLib/mtimer.c:261-265 | The chain of index tests of the cascades holds exactly when the tick is a multiple of the level's unit |
| TimerWheel.WordSlotExact | GameLib/mtimer.c:84-117 | Slot choice in wrapping words is slot choice in integers, for every expiry word and clock |
| TimerWheel.WrapKeepsDigits | GameLib/mtimer.c:245-256 | The slot indices of the wrapped clock are those of the unwrapped one |
| TimerWheel.TimeReached | GameLib/mtimer.c:253 | The loop condition on words agrees with the integers all the way to the target |
| WordTime.TimeAfterEqExact | GameLib/mtimer.h:12 | Time_after_eq on words compares exactly any two times less than half the word range apart |
| WordTime.DecodeExact | GameLib/mtimer.h:9-13 | A word has one meaning within half the range of the clock |
| WordTime.DecodeWraps | GameLib/mtimer.h:9-13 | And that meaning wraps to the word |
| TimerWheel.TimerBase.constructor | GameLib/mtimer.c:62-79 | All 512 slots are empty rings and the clock is set |
| TimerWheel.TimerBase.InternalAdd | GameLib/mtimer.c:81-122 | On the linked lists: the node is appended to the ring of exactly the slot the integers say, and no other list changes |
| TimerWheel.TimerBase.StimerAdd | GameLib/mtimer.c:131-143 | The linked wheel after an add holds the abstract wheel after it |
| TimerWheel.TimerBase.StimerDel | GameLib/mtimer.c:167-185 | The same for a delete, with the result telling whether the timer was pending |
| TimerWheel.TimerBase.StimerMod | GameLib/mtimer.c:207-217 | The same for a modify, whose expiry is written before the timer is unlinked |
| TimerWheel.TimerBase.StimerPending | GameLib/mtimer.h:50-54 | The link is set exactly when the timer is pending |
| TimerWheel.TimerBase.Detach | GameLib/mtimer.c:145-154 | The node is unlinked and its links are cleared |
| TimerWheel.TimerBase.StimerSet | GameLib/mtimer.c:315-323 | A timer that has been set is known and not pending |
| TimerWheel.TimerBase.CascadeSlot | GameLib/mtimer.c:219-237 | List_replace_init and the walk that relinks as it goes leave the lists of the abstract cascade |
| TimerWheel.TimerBase.CascadeChain | GameLib/mtimer.c:261-265 | The short-circuit chain of cascades leaves those of the abstract tick |
| TimerWheel.TimerBase.StartTick | GameLib/mtimer.c:256-267 | Cascades, clock and work list together are the abstract start of a tick |
| TimerWheel.TimerBase.FireHead | GameLib/mtimer.c:272-277 | Taking the first timer of the work list is the abstract firing |
| TimerWheel.TimerBase.Callback | GameLib/mtimer.c:239-243 | The calls of a callback have the effects of the abstract calls |
| TimerWheel.TimerBase.DrainWork | GameLib/mtimer.c:268-282 | The inner loop is the abstract one, callbacks included |
| TimerWheel.TimerBase.RunTimerList | GameLib/mtimer.c:247-286 | Collecting on linked lists and wrapped words has exactly the firings and the wheel of the abstract collection |
| TimerWheel.TimerBase.Execute | GameLib/mtimer.c:124-286 | Any sequence of adds, deletes, modifications and collections leaves the linked wheel as the abstract run of it |
| TimerWheel.SetUp | GameLib/mtimer.c:310-323 | A new wheel, with any number of timers set for it, holds the initial abstract wheel |
| TimerWheel.WholeRun | GameLib/mtimer.c:62-323 | From setting up the wheel and the timers through any program the linked wheel ends in the state an abstract run ends in, of which all guarantees hold; in particular every timer left to fire has fired at its tick or is pending |
| CList.InitListHead | GameLib/clist.h:55-59 | An empty ring |
| CList.ListAdd | GameLib/clist.h:91-94 | The ring of the sequence with the node in front |
| CList.ListAddTail | GameLib/clist.h:105-108 | The ring with the node at the end |
| CList.ListDelEntry | GameLib/clist.h:130-133 | The ring without the entry |
| CList.ListDel | GameLib/clist.h:135-140 | The same, with the links of the entry cleared |
| CList.ListReplace | GameLib/clist.h:153-160 | The ring moves to the new head |
| CList.ListReplaceInit | GameLib/clist.h:162-167 | The ring moves to the new head and the old one is empty, empty rings included |
| CList.ListMove | GameLib/clist.h:184-188 | The entry leaves its ring and is in front of the other, which may be the same ring |
| CList.ListMoveTail | GameLib/clist.h:195-200 | The same at the end |
| CList.ListEmpty | GameLib/clist.h:217-220 | True exactly of the empty ring |
| CList.ListRotateLeft | GameLib/clist.h:245-253 | The first entry goes to the end |
| CList.ListCutPosition | GameLib/clist.h:290-302 | The entries up to the given one form the other ring, the rest stays |
| CList.ListSplice | GameLib/clist.h:323-328 | The joined ring, in front |
| CList.ListSpliceTail | GameLib/clist.h:335-340 | The joined ring, at the end |
| CList.ListSpliceInit | GameLib/clist.h:349-356 | The joined ring in front, and an empty ring left behind |
| CList.ListSpliceTailInit | GameLib/clist.h:366-373 | The joined ring at the end, and an empty ring left behind |
| CList.CutThenSplice | GameLib/clist.h:290-328 | Cutting a ring anywhere and splicing the part back restores it |
| CList.RingTurns | GameLib/clist.h:402-460 | Seen from any of its nodes the same links are a ring of the rotated sequence |
| JsonStyled.RoundTripExact | GameLib/jsoncpp/src/lib_json/json_writer.cpp:197-348 | What either writer writes is read back as the same value if and only if all its integers are from -2147483639 to 2147483647 or, unsigned, above that and at most 4294967289, and each of its arrays has an entry at every index up to its last |
| JsonStyled.ReadingSettles | GameLib/jsoncpp/src/lib_json/json_reader.cpp:150-192 | Whatever document is read, a value without reals is written by either writer so that it is read again as the same value |
| JsonStyled.ResizedArray | GameLib/jsoncpp/src/lib_json/json_value.cpp:950-970 | What resize(2) makes of a null is an array of one entry; it is written as two nulls and does not come back equal |
| JsonRoundTrip.FastRoundTrip | GameLib/jsoncpp/src/lib_json/json_writer.cpp:197-263 | For every storable value without reals, parsing what FastWriter writes gives the value, with integers as their texts are decoded and a null in each gap of an array |
| JsonStyled.StyledRoundTrip | GameLib/jsoncpp/src/lib_json/json_writer.cpp:276-348 | StyledWriter's text parses to the same value as FastWriter's |
| JsonStyled.StyledLaidOut | GameLib/jsoncpp/src/lib_json/json_writer.cpp:290-402 | A styled text is the tokens of the value in order with only white space between, so nothing is lost, repeated or mixed |
| JsonRoundTrip.ParseLaidOut | GameLib/jsoncpp/src/lib_json/json_reader.cpp:150-192 | However the tokens of a value are spaced, and whatever follows them, they are read as the value |
| JsonRoundTrip.ReadLaidOut | GameLib/jsoncpp/src/lib_json/json_reader.cpp:194-242 | The same for a value inside a document |
| JsonSeparators.SeparatorsIgnored | GameLib/jsoncpp/src/lib_json/json_reader.cpp:549-577 | Array items with any token at all between them, one that is no JSON too, but for a closing bracket and a comment, are read as with commas; where a number meets what would be taken for more of it there is white space |
| JsonSeparators.WholeRead | GameLib/jsoncpp/src/lib_json/json_reader.cpp:273-345 | A text that is one token by itself is that token wherever it stands, whatever follows, unless a number or a word goes on there |
| JsonSeparators.ColonSeparates | GameLib/jsoncpp/src/lib_json/json_reader.cpp:566-567 | A colon between two items is taken for a comma, and so is an "@", which starts no token |
| JsonStyled.AgainIsSame | GameLib/jsoncpp/src/lib_json/json_reader.cpp:581-616 | The value read back is the value written exactly when its integers fit the reader's thresholds and keep their type, and its arrays have no gaps |
| JsonDecode.DecodeIntText | GameLib/jsoncpp/src/lib_json/json_reader.cpp:581-616 | Decoding a written integer inverts valueToString from -2147483639 to 4294967289, and hands over to decodeDouble outside |
| JsonDecode.AccumulateExact | GameLib/jsoncpp/src/lib_json/json_reader.cpp:600-608 | For digits of any number the accumulator gives the exact value, or gives up exactly when all but the last digit reach the threshold |
| JsonDecode.AccumulateBounded | GameLib/jsoncpp/src/lib_json/json_reader.cpp:597-608 | The accumulator never leaves the unsigned int |
| JsonDecode.DecodedNumberStorable | GameLib/jsoncpp/src/lib_json/json_reader.cpp:581-616 | A decoded number fits its type, and the range in which it is written and read back as it is |
| JsonDecode.DecodeEscapeAll | GameLib/jsoncpp/src/lib_json/json_reader.cpp:657-700 | Unescaping undoes the writer's escaping for every NUL-free string |
| JsonDecode.StringTokenEscaped | GameLib/jsoncpp/src/lib_json/json_reader.cpp:463-476 | Between the quotes of any string token the scanner finds, every quote and backslash is escaped |
| JsonDecode.EscapedWalksClean | GameLib/jsoncpp/src/lib_json/json_reader.cpp:657-700 | On such a text decodeString meets no early quote and no dangling backslash, and stays within the token |
| JsonRead.TokenWalksClean | GameLib/jsoncpp/src/lib_json/json_reader.cpp:657-700 | So of every string token the tokenizer finds |
| JsonDecode.SurrogatePair | GameLib/jsoncpp/src/lib_json/json_reader.cpp:703-731 | Every pair of surrogate escapes, its digits in either case, is decoded to the UTF-8 of its code point (section 7 of RFC 8259) |
| JsonDecode.SingleEscape | GameLib/jsoncpp/src/lib_json/json_reader.cpp:733-756 | Every other escape, its digits in either case, is decoded to the UTF-8 of its code point |
| JsonDecode.Utf8Exact | GameLib/jsoncpp/src/lib_json/json_reader.cpp:69-103 | CodePointToUTF8 writes the one shortest form of every code point |
| JsonRead.ReadStorable | GameLib/jsoncpp/src/lib_json/json_reader.cpp:194-242 | Whatever the document, a value that is read is one the library can hold, with its members sorted and distinct, its arrays without gaps and its integers in the range that is read back |
| JsonRead.PutSorted | GameLib/jsoncpp/src/lib_json/json_value.cpp:217-223 | Setting a member keeps the members sorted by key and changes no other |
| JsonValue.Trichotomy | GameLib/jsoncpp/src/lib_json/json_value.cpp:564-606 | Of any two values without reals, sparse arrays included, exactly one is less, or they are equal |
| JsonValue.Transitivity | GameLib/jsoncpp/src/lib_json/json_value.cpp:564-606 | Operator< is transitive |
| JsonValue.EqualIsEquality | GameLib/jsoncpp/src/lib_json/json_value.cpp:626-668 | Operator== is equality of trees, arrays being maps from indices |
| JsonValue.DenseItems | GameLib/jsoncpp/src/lib_json/json_value.cpp:995-1011 | A loop up to size() over operator[] sees the entries of an array and nothing else if and only if the array has no gaps |
| JsonValue.WrittenLessOrEqualIsRight | GameLib/jsoncpp/src/lib_json/json_value.cpp:608-612 | Operator<= as written agrees with less-or-equal exactly on equal values |
| JsonValue.WrittenLessOrEqualFails | GameLib/jsoncpp/src/lib_json/json_value.cpp:608-612 | 1 is less than 2 and not less-or-equal as written |
| JsonScan.StringEnd | GameLib/jsoncpp/src/lib_json/json_reader.cpp:463-476 | The scanner stops within the document, past the opening quote |
| JsonScan.ReadToken | GameLib/jsoncpp/src/lib_json/json_reader.cpp:273-345 | Every token lies within the document and scanning moves on |
| JsonScan.NextToken | GameLib/jsoncpp/src/lib_json/json_reader.cpp:245-260 | So does skipping comments |
| JsonScan.Recover | GameLib/jsoncpp/src/lib_json/json_reader.cpp:773-787 | And recovering from an error |
| JsonReader.Reader.Parse | GameLib/jsoncpp/src/lib_json/json_reader.cpp:150-192 | On every document the reader ends, with current_ within it, and returns what the functions say |
| JsonReader.Reader.ReadToken | GameLib/jsoncpp/src/lib_json/json_reader.cpp:273-345 | The tokenizer finds the specified token |
| JsonReader.Reader.ReadString | GameLib/jsoncpp/src/lib_json/json_reader.cpp:463-476 | The loop stops where the specification does |
| JsonReader.Reader.ReadComment | GameLib/jsoncpp/src/lib_json/json_reader.cpp:377-403 | So does the comment scanner |
| JsonReader.Reader.RecoverFromError | GameLib/jsoncpp/src/lib_json/json_reader.cpp:773-787 | Recovery stops at the specified token |
| JsonReader.Reader.DecodeNumber | GameLib/jsoncpp/src/lib_json/json_reader.cpp:581-616 | The loop decodes as specified |
| JsonReader.Reader.DecodeString | GameLib/jsoncpp/src/lib_json/json_reader.cpp:657-700 | The loop decodes as specified, reading only inside the token |
| JsonReader.Reader.DecodeUnicodeCodePoint | GameLib/jsoncpp/src/lib_json/json_reader.cpp:703-731 | As do the escapes |
| JsonReader.Reader.ReadValue | GameLib/jsoncpp/src/lib_json/json_reader.cpp:194-242 | A value as specified |
| JsonReader.Reader.ReadArray | GameLib/jsoncpp/src/lib_json/json_reader.cpp:538-578 | An array as specified |
| JsonReader.Reader.ReadObject | GameLib/jsoncpp/src/lib_json/json_reader.cpp:479-535 | An object as specified, recovery included |
| JsonWriter.UIntToString | GameLib/jsoncpp/src/lib_json/json_writer.cpp:30-40 | The digits written backwards are the decimal text, inside the buffer, and the rest of the buffer is untouched |
| JsonWriter.IntToString | GameLib/jsoncpp/src/lib_json/json_writer.cpp:42-54 | The text of every Int, the least included |
| JsonWriter.UIntToText | GameLib/jsoncpp/src/lib_json/json_writer.cpp:57-64 | The text of every UInt |
| JsonWriter.QuotedString | GameLib/jsoncpp/src/lib_json/json_writer.cpp:111-172 | The quoted and escaped text |
| JsonWriter.FastWriter.Write | GameLib/jsoncpp/src/lib_json/json_writer.cpp:197-204 | The document is the dense text and a newline |
| JsonWriter.FastWriter.WriteValue | GameLib/jsoncpp/src/lib_json/json_writer.cpp:207-263 | Every value appends exactly its dense text |
| JsonWriter.StyledWriter.Write | GameLib/jsoncpp/src/lib_json/json_writer.cpp:276-287 | The document is the styled text and a newline |
| JsonWriter.StyledWriter.WriteValue | GameLib/jsoncpp/src/lib_json/json_writer.cpp:290-348 | A value is appended in its layout, or pushed as one text; flag and indentation are restored |
| JsonWriter.StyledWriter.WriteArrayValue | GameLib/jsoncpp/src/lib_json/json_writer.cpp:351-401 | An array is laid out as specified though childValues_ is shared with all inner values |
| JsonWriter.StyledWriter.IsMultilineArray | GameLib/jsoncpp/src/lib_json/json_writer.cpp:404-433 | The layout decision, with the texts of all items collected when they fit one line |
| XmlRoundTrip.RoundTripExact | GameLib/tinyxml/tinyxml.cpp:1719-1838 | In any encoding, the one a declaration tells included, and for every indent and line break of white space: of the trees whose strings are complete (every hexadecimal character reference and every UTF-8 character ends in its own string) those that come back from what the printer prints are exactly the nonempty lists of nodes that are no texts, with valid names, attributes of distinct names, no such reference, texts that are not blank, not adjacent and condensed, and comments, CDATA and unknown tags that do not hold the mark of their own end |
| XmlRoundTrip.Reparsed | GameLib/tinyxml/tinyxml.cpp:1719-1838 | Well-formed nodes with complete strings come back with every text condensed and every reference read as its character, and as an error if one cannot be read |
| XmlRoundTrip.AgainIsSame | GameLib/tinyxml/tinyxml.cpp:57-82 | Such a node is the one it comes back as if and only if it has no reference and its texts are condensed |
| XmlRoundTrip.OnlyFormedComesBack | GameLib/tinyxml/tinyxml.cpp:1719-1838 | Whatever its strings, a tree with an invalid or doubled name, a blank text, adjacent texts, or markup that holds the mark of its own end does not come back |
| XmlFormed.ParsedIsFormed | GameLib/tinyxml/tinyxmlparser.cpp:704-796 | Whatever the document and its encoding, what is parsed is a nonempty list of nodes that are no texts, with valid, distinct names, texts that are neither blank nor adjacent, and comments, CDATA and unknown tags without the mark of their end |
| XmlRoundTrip.SqueezeIsSame | GameLib/tinyxml/tinyxmlparser.cpp:597-632 | A text that is not blank is read as it was if and only if it has no reference, no space at either end and no two in a row |
| XmlRoundTrip.KeptIsSame | GameLib/tinyxml/tinyxmlparser.cpp:584-595 | An attribute value is read as it was if and only if it has no reference |
| XmlRoundTrip.BodyParsed | GameLib/tinyxml/tinyxmlparser.cpp:1043-1176 | Parsing a printed element gives the element with texts condensed and references read, and ends right behind it, whatever surrounds it |
| XmlRoundTrip.MarkupParsed | GameLib/tinyxml/tinyxmlparser.cpp:1275-1385 | A printed comment, CDATA or unknown tag is parsed as itself, whatever surrounds it |
| XmlDeclared.DeclarationParsed | GameLib/tinyxml/tinyxmlparser.cpp:1569-1626 | A printed declaration is parsed as itself, whichever of its values are empty, if they can stand in quotes as they are |
| XmlRoundTrip.NodeParsed | GameLib/tinyxml/tinyxmlparser.cpp:818-899 | So any printed node but a text is identified for what it is and parsed |
| XmlRoundTrip.ValueParsed | GameLib/tinyxml/tinyxmlparser.cpp:1179-1247 | Children that lie in the document with any white space around them are read in order, each once, up to the end tag |
| XmlLayout.PrintedLaid | GameLib/tinyxml/tinyxml.cpp:1719-1838 | Printed nodes lie in the text in order with only white space around them |
| XmlLayout.TagParsed | GameLib/tinyxml/tinyxmlparser.cpp:1083-1173 | A start tag gives its attributes in order, with their references read |
| XmlLayout.AttributeParsed | GameLib/tinyxml/tinyxmlparser.cpp:1390-1461 | A printed attribute is read as the attribute with its references read, whichever quotes it has |
| XmlLayout.CondensedRead | GameLib/tinyxml/tinyxmlparser.cpp:597-636 | An encoded text is read condensed with its references read, and white space behind it is dropped |
| XmlLayout.KeptRead | GameLib/tinyxml/tinyxmlparser.cpp:584-595 | An attribute value is read up to its quote, each reference as its character |
| XmlLayout.EscapeRead | GameLib/tinyxml/tinyxmlparser.cpp:438-531 | Every escape EncodeString writes is read as its character, control characters included |
| XmlLayout.UnitRead | GameLib/tinyxml/tinyxmlparser.cpp:584-595 | What is written for one character of a complete string, be it an escape, a reference passed through or the bytes of a UTF-8 character, is read at once as what it stands for |
| XmlEncoding.ValueComesBack | GameLib/tinyxml/tinyxml.cpp:52-133 | Outside UTF-8 an encoded value read up to its quote is the value if and only if no hexadecimal character reference is in it, closed or not |
| XmlEncoding.Shorter | GameLib/tinyxml/tinyxml.cpp:57-82 | With such a reference fewer characters are read than were written |
| XmlEncoding.ReferenceIsRead | GameLib/tinyxml/tinyxml.cpp:57-82 | A text with a hexadecimal reference comes back as the character it stands for |
| XmlParse.GetEntity | GameLib/tinyxml/tinyxmlparser.cpp:438-531 | An entity never ends outside the document and reading always moves on |
| XmlParse.ReadCondensed | GameLib/tinyxml/tinyxmlparser.cpp:596-636 | A text ends at a "<" or the end of the document and is not empty |
| XmlParse.ReadElement | GameLib/tinyxml/tinyxmlparser.cpp:1043-1176 | An element that is parsed ends within the document, behind where it began |
| XmlParse.ReadValue | GameLib/tinyxml/tinyxmlparser.cpp:1179-1247 | Content that is read up to an end tag ends within the document |
| XmlHang.HangsExactly | GameLib/tinyxml/tinyxmlparser.cpp:704-796 | Whatever the document and its encoding, parsing goes on for ever if and only if the tags, with declarations, comments, CDATA and unknown tags passed over, leave an element open and what follows the last of them is text up to the end with readable references and a last character that is read again |
| XmlHang.EndsAfterWhite | GameLib/tinyxml/tinyxmlparser.cpp:1179-1247 | So no document whose last character is white space makes the parser go on for ever |
| XmlHang.HangsAtText | GameLib/tinyxml/tinyxmlparser.cpp:1535-1541 | An element left open goes on for ever when a letter ends the document, and is an error when a newline follows it |
| XmlHang.HangsAfterMarkup | GameLib/tinyxml/tinyxmlparser.cpp:752-786 | It goes on for ever behind a declaration and a comment too |
| XmlHang.ReadAgain | GameLib/tinyxml/tinyxmlparser.cpp:1535-1541 | At the end of the document, unless its last character is white, every text read from the place returned returns that place again |
| XmlPrinter.EncodeString | GameLib/tinyxml/tinyxml.cpp:52-133 | The loop and its inner loop write the encoding |
| XmlPrinter.Printer.PrintOne | GameLib/tinyxml/tinyxml.cpp:1165-1188 | An attribute is appended as specified |
| XmlPrinter.Printer.VisitEnter | GameLib/tinyxml/tinyxml.cpp:1719-1753 | The start tag is appended; the flag for a simple text is set exactly before an only child that is text |
| XmlPrinter.Printer.VisitExit | GameLib/tinyxml/tinyxml.cpp:1756-1779 | The end tag is appended; depth and flag are as before the element |
| XmlPrinter.Printer.VisitText | GameLib/tinyxml/tinyxml.cpp:1782-1807 | A text is appended, on a line of its own or not, and CDATA always on its own |
| XmlPrinter.Printer.VisitDeclaration | GameLib/tinyxml/tinyxml.cpp:1371-1390 | A declaration is appended with those of its values that are not empty |
| XmlPrinter.Printer.VisitComment | GameLib/tinyxml/tinyxml.cpp:1819-1827 | A comment is appended on a line of its own |
| XmlPrinter.Printer.VisitUnknown | GameLib/tinyxml/tinyxml.cpp:1830-1838 | So is an unknown tag |
| XmlPrinter.Printer.Accept | GameLib/tinyxml/tinyxml.cpp:831-842 | Walking a tree appends exactly its printed form, and restores depth and flag |
| XmlPrinter.Printer.AcceptDocument | GameLib/tinyxml/tinyxml.cpp:1111-1122 | The buffer is the printed document |
| XmlParser.SkipWhiteSpace | GameLib/tinyxml/tinyxmlparser.cpp:314-362 | The loop stops at the first character that is no white space, nor in UTF-8 a byte order mark |
| XmlParser.ReadNameAt | GameLib/tinyxml/tinyxmlparser.cpp:401-436 | The loop ends a name as specified |
| XmlParser.ReadDigits | GameLib/tinyxml/tinyxmlparser.cpp:464-499 | Adding up digits from the last to the first gives their number |
| XmlParser.ReadEntity | GameLib/tinyxml/tinyxmlparser.cpp:438-531 | An entity as specified |
| XmlParser.ConvertToUtf8 | GameLib/tinyxml/tinyxmlparser.cpp:88-125 | The bytes written from the last to the first are the UTF-8 of the number |
| XmlParser.ReadChar | GameLib/tinyxml/tinyxml.h:329-362 | One character, of one byte or of the length the table gives |
| XmlParser.ReadKeptText | GameLib/tinyxml/tinyxmlparser.cpp:586-594 | The loop that keeps white space reads as specified |
| XmlParser.ReadCondensedText | GameLib/tinyxml/tinyxmlparser.cpp:597-632 | The loop that condenses it reads as specified |
| XmlParser.ParseAttribute | GameLib/tinyxml/tinyxmlparser.cpp:1390-1461 | An attribute as specified |
| XmlParser.FindName | GameLib/tinyxml/tinyxml.cpp:1502-1510 | True exactly when an attribute has the name |
| XmlParser.ParseTag | GameLib/tinyxml/tinyxmlparser.cpp:1083-1173 | The attribute loop, with its error for doubled names |
| XmlParser.ParseElement | GameLib/tinyxml/tinyxmlparser.cpp:1043-1176 | An element as specified, with the outcome Hang in place of the loop that does not end |
| XmlParser.ParseEnclosed | GameLib/tinyxml/tinyxmlparser.cpp:1275-1385 | A comment, CDATA or unknown tag goes up to the first mark of its end, or up to the end of the document |
| XmlParser.ParseDeclared | GameLib/tinyxml/tinyxmlparser.cpp:1569-1626 | The three values of a declaration, in any order and with anything between them, as specified |
| XmlParser.ParseNode | GameLib/tinyxml/tinyxmlparser.cpp:818-899 | What a node is told by |
| XmlParser.ParseValue | GameLib/tinyxml/tinyxmlparser.cpp:1179-1247 | Content as specified, with the outcome Hang in place of the loop that does not end |
| XmlParser.ParseDocument | GameLib/tinyxml/tinyxmlparser.cpp:704-796 | On every document in any encoding the parser finds what the functions say, with Hang exactly where XmlHang.HangsExactly says |
| Md5.Update | GameLib/MD5/MD5.cpp:36-66 | From the context of any message, however it was cut before, to the context of the message with the input appended |
| Md5.UpdateInPieces | GameLib/MD5/MD5.cpp:36-66 | A message sent in pieces, for each of which the guard is exact where it comes, leaves the context of the whole |
| Md5.ShortPiecesFit | GameLib/MD5/MD5.cpp:56-57 | Pieces shorter than 0xffffffc0 bytes are such wherever they come |
| Md5.GuardExact | GameLib/MD5/MD5.cpp:56-57 | The wrapping test of the block loop agrees with the integers at every block border if and only if the last border is not within 63 bytes of 2^32 |
| Md5.GuardWraps | GameLib/MD5/MD5.cpp:56-57 | An input of 0xffffffff bytes after one byte is none |
| Md5.AddBits | GameLib/MD5/MD5.cpp:43-46 | Two words with a carry count 8 times the length modulo 2^64 |
| Md5.CountAdds | GameLib/MD5/MD5.cpp:43-46 | The carry test and the high part are right for every length |
| Md5.TransformBlocks | GameLib/MD5/MD5.cpp:56-57 | Every whole block is transformed once, in order |
| Md5.Transform | GameLib/MD5/MD5.cpp:127-212 | The 64 unrolled steps are the uniform loop of section 3.4 of RFC 1321 |
| Md5.Round1 | GameLib/MD5/MD5.cpp:133-149 | The first 16 unrolled steps are steps 0 to 15 of the loop |
| Md5.Round2 | GameLib/MD5/MD5.cpp:151-167 | Steps 16 to 31 |
| Md5.Round3 | GameLib/MD5/MD5.cpp:169-185 | Steps 32 to 47 |
| Md5.Round4 | GameLib/MD5/MD5.cpp:187-203 | Steps 48 to 63 |
| Md5.FinalState | GameLib/MD5/MD5.cpp:68-81 | The registers are those of the padded message of sections 3.1 and 3.2 of RFC 1321, on a little-endian host |
| Md5.Final | GameLib/MD5/MD5.cpp:83-106 | The digest is the same, and the context is wiped |
| Md5.Finish | GameLib/MD5/MD5.cpp:76-79 | Padding and length complete the last block |
| Md5.PaddingInjective | GameLib/MD5/MD5.cpp:76-79 | No two messages shorter than 2^61 bytes are padded alike |
| Md5.PadLength | GameLib/MD5/MD5.cpp:77 | One to 64 bytes of padding, up to 56 modulo 64 |
| Md5.Hexadecimal | GameLib/MD5/MD5.cpp:108-125 | The text is the digest of the input in hexadecimal |
| Md5.Encode | GameLib/MD5/MD5.cpp:215-226 | Words become bytes, low byte first |
| Md5.Decode | GameLib/MD5/MD5.cpp:228-237 | Bytes become words |
| Md5.ValueOfLittle | GameLib/MD5/MD5.cpp:215-237 | Decoding inverts encoding |
| Md5.LittleOfValue | GameLib/MD5/MD5.cpp:215-237 | And encoding inverts decoding |
| Md5.LittleOfTwo | GameLib/MD5/MD5.cpp:74 | The bytes of the two count words are those of the 64-bit count |
| Md5.Init | GameLib/MD5/MD5.cpp:26-34 | The context of the empty message |
| Md5.Copy | GameLib/MD5/MD5.cpp:247-253 | Exactly the given part is copied |
| Getopt.WholeScan | GameLib/getopt.c:97-246 | A whole scan that permutes finds the letters of all options in order and permutes argv so that the moved arguments are at the end in order; they are the operands of the convention if and only if no "--" follows the first one, other than right behind it |
| Getopt.LaterDashesLost | GameLib/getopt.c:120-125 | After "-- a --" the operand "--" is lost |
| Getopt.CollectedIs | GameLib/getopt.c:120-125 | The arguments the code collects are the operands exactly under that condition |
| Getopt.ScanIs | GameLib/getopt.c:97-246 | Where a scan ends, from any place in it |
| Getopt.CallPermutes | GameLib/getopt.c:77-94 | No call loses, repeats or changes an argument |
| Getopt.Shrinks | GameLib/getopt.c:114-155 | Every call that finds something moves the scan on, so scanning ends |
| Getopt.MinusOne | GameLib/getopt.c:160-167 | Of all codes a call finds, -1 stands for the end of the scan and for the letter of byte 255, a signed char |
| Getopt.LastByteEnds | GameLib/getopt.c:160-167 | An argument list on which that letter is found and taken for the end |
| Getopt.PosixScan | GameLib/getopt.c:142-149 | In POSIX mode the scan stops at the first operand and moves nothing |
| Getopt.Scanner.FindNext | GameLib/getopt.c:115-234 | The goto loop ends, with what the call finds and optarg and optopt set for it |
| Getopt.Scanner.Getopt | GameLib/getopt.c:97-246 | One call on the array and the static variables is one step of the scan; optind, optarg and optopt are set accordingly and the goto loop ends; -1 is returned at the end of the scan, or for a known letter of byte 255 |
| Getopt.Scanner.AllOptions | GameLib/getopt.c:97-246 | The caller's loop until -1, for option strings without byte 255: the values returned, and argv from optind on is exactly the collected operands |
| Getopt.Scanner.PermuteArgvOnce | GameLib/getopt.c:77-94 | The argument goes to the end and those behind it move up, unless only moved ones are left |
| Getopt.Scanner.CheckDashes | GameLib/getopt.c:120-125 | A "--" is passed over |
| Getopt.Scanner.ReadOption | GameLib/getopt.c:157-232 | One letter of a compound option, known or not |
| Getopt.Scanner.IncrementIndex | GameLib/getopt.c:60-70 | On to the next argument |
| Getopt.MoveToEnd | GameLib/getopt.c:86-89 | Memmove and the store are a rotation |
| BatchAllocator.BatchAllocator.Allocate | GameLib/jsoncpp/src/lib_json/json_batchallocator.h:53-77 | The block was not live; the free list is used first, last in first out; live, free and carved blocks stay accounted for and no live storage changes |
| BatchAllocator.BatchAllocator.Release | GameLib/jsoncpp/src/lib_json/json_batchallocator.h:81-86 | The block is free, linked through its own storage; no other storage changes |
| BatchAllocator.BatchAllocator.Write | GameLib/jsoncpp/src/lib_json/json_batchallocator.h:20-21 | Whatever the owner of a live block writes into it, the allocator stays in order |
| BatchAllocator.BatchAllocator.Carve | GameLib/jsoncpp/src/lib_json/json_batchallocator.h:74-76 | The next block of the current page is new |
| BatchAllocator.BatchAllocator.TurnPage | GameLib/jsoncpp/src/lib_json/json_batchallocator.h:61-72 | When every page is full a new one goes in front and becomes the current one |
| BatchAllocator.BatchAllocator.SkipFullPages | GameLib/jsoncpp/src/lib_json/json_batchallocator.h:63-65 | Looking for a page that is not full ends at the end of the list |
| BatchAllocator.BatchAllocator.constructor | GameLib/jsoncpp/src/lib_json/json_batchallocator.h:30-39 | A full page without objects, nothing live, nothing free |
| BatchAllocator.PageMustDivide | GameLib/jsoncpp/src/lib_json/json_batchallocator.h:61-76 | Carving stays within the page, or within the objectPerAllocation times larger storage allocated for it, or within any bound at all, if and only if the block size divides the page |
| BatchAllocator.ItemPagesOverrun | GameLib/jsoncpp/src/lib_json/json_internalarray.inl:138 | Pages of 255 objects do not hold blocks of 8 |
| BatchAllocator.BlocksDisjoint | GameLib/jsoncpp/src/lib_json/json_batchallocator.h:74-76 | No object belongs to two blocks |
| BatchAllocator.BlockFits | GameLib/jsoncpp/src/lib_json/json_batchallocator.h:101-110 | Every block lies inside its page |
| BatchAllocator.FreeApart | GameLib/jsoncpp/src/lib_json/json_batchallocator.h:84 | The storage of a live block is no part of the free list |
| BatchAllocator.CarveAccounted | GameLib/jsoncpp/src/lib_json/json_batchallocator.h:74-75 | Carving adds exactly one block |
| AsyncQueue.NothingLostOrReordered | Server/AsyncDBOperator.cpp:61-80 | In every interleaving what was executed, what the consumer holds and what is queued are together what was pushed, in the order the lock was held |
| AsyncQueue.AtMostOnce | Server/AsyncDBOperator.cpp:70-74 | In every run no operator is pushed, executed or deleted twice |
| AsyncQueue.NeverAfterDeletion | Server/AsyncDBOperator.cpp:70-74 | In every run the consumer never executes or deletes an operator it has deleted before |
| AsyncQueue.EachThreadInOrder | Server/AsyncDBOperator.cpp:92-120 | What has been executed of a thread's statements is a prefix of what it submitted, in its order |
| AsyncQueue.NeverPopsEmpty | Server/AsyncDBOperator.cpp:63-68 | Though emptiness is tested without the lock, front and pop never meet an empty queue |
| AsyncQueue.MutualExclusion | Server/AsyncDBOperator.cpp:65-96 | At most one thread is between Lock and Unlock |
| AsyncQueue.Drains | Server/AsyncDBOperator.cpp:61-80 | While m_bRun is set, from every reachable state in which no producer holds the lock the consumer executes all that was pushed |
| AsyncQueue.StepInv | Server/AsyncDBOperator.cpp:61-120 | Every step of every thread keeps the invariant |

## Left out

- `next_timer` of the wheel (`GameLib/mtimer.c:137-138`, `177-178`): written, but nothing that fires depends on it.
- Locks of the wheel, which are defined as nothing; `times()`, whose result is a parameter; failure of `malloc`.
- Adding a timer that is already pending, which the source's comment rules out: a callback script that says so makes no call. Callbacks do not collect.
- TimerOrder.SameTickOrder: only for timers due at most 0xffffffff ticks after they were armed, which is all of them with 32-bit words; a farther one is capped into tv5 and waits there by a different rule. TimerGuarantee.FiresExactlyOnce and TimerGuarantee.CohortIsFifo hold for those too.
- `work_list` is a list head that exists between ticks as well, empty; the address of a timer is that of its `entry`, so `container_of` is the identity.
- The subtraction of two `(long)` values in `time_after_eq` wraps, as on the machines the code is built for, where C leaves overflow undefined.
- Real numbers in JSON: printing them, and which tokens `sscanf` reads as one, are a parameter. Round trips are for values without reals, the order for values without reals.
- JSON comments: skipped as tokens, not collected; `StyledWriter` writes values that carry none. Error messages and positions, the tree left behind by a failed parse, the strict features, the stream writer and YAML mode.
- A JSON string whose pointer is null (`Value( stringValue )`), which `operator<` puts before all others and which the writers do not expect; array indices and sizes beyond what an `int` can hold, or three times of which it cannot.
- The stack `nodes_` of the JSON reader: values are returned instead of written through a pointer. Maps are sequences of members sorted by key, and of entries sorted by index; setting an entry of an array other than one behind the last, `resize` and removal are not modelled as operations.
- `json_internalmap.inl` and `json_internalarray.inl`, which are compiled out.
- XML positions, error codes, stream input and files: a parse that fails ends as `Error`. What is read behind the end of a document that ends inside a UTF-8 character; the debug assertion of `StringEqual` against the end of a document. Null bytes, at which a C string ends, in names and in comments, CDATA, unknown tags and declarations of a tree that is printed; white space other than condensed.
- The number of an XML character reference is added up exactly and reduced once to 32 bits, which is what words of 32 bits come to; with a wider `unsigned long` and in UTF-8 a number of 2^32 or more gives no character.
- XML nodes are built as values: the links between parent, children and siblings are not modelled, nor the tree left behind by a failed parse.
- XmlRoundTrip.RoundTripExact: requires that every hexadecimal character reference, and in UTF-8 every character, ends in its own text or attribute value, because an open one swallows markup up to a later semicolon or the next bytes, so that what comes back depends on all that follows it; that the values of a declaration, which are printed without being encoded, have no quote, ampersand or null byte; and in UTF-8 that no name and no text begins with a byte order mark. XmlRoundTrip.OnlyFormedComesBack needs no such condition, and for a single value XmlEncoding.ValueComesBack has both directions without the first, outside UTF-8.
- XmlRoundTrip.Reparsed: the same conditions.
- XmlParser.ParseElement: gives the outcome Hang where the source goes on for ever; so do XmlParser.ParseValue and XmlParser.ParseDocument.
- The words of MD5 are 32 bits, as on the 32-bit build; what a wider `unsigned long int` would compute, and where the constants come from. The first form of `MD5Final` is for a little-endian host.
- Md5.Update: requires the exact condition of Md5.GuardExact; beyond it the source reads past its input. Md5.UpdateInPieces requires it of every piece.
- getopt with ':' in the option string: options with arguments, and the search through `argv_index2`; messages to stderr; calls after -1 in POSIX mode, and a change of mode inside a scan.
- Getopt.Scanner.Getopt: requires one mode throughout a scan and an option string without ':'.
- Getopt.Scanner.ReadOption: has no branch for letters that take an argument, because option strings have no ':'.
- Getopt.Scanner.IncrementIndex: has no walk up to `argv_index2`, which only an argument of an option would have set ahead.
- Getopt.Scanner.AllOptions: requires that byte 255 is no option letter, the condition of Getopt.MinusOne; where `char` is unsigned it is not needed.
- The allocator's overflow of `mallocSize` and failure of `malloc`; alignment and object sizes; the destructor.
- BatchAllocator.BatchAllocator.constructor: requires that the block size divides the page, the condition of BatchAllocator.PageMustDivide.
- The SQL queue: pushing a null pointer, `execSQL_` and its shared buffer, `stop()` before `run()`, the database; reading the queue while another thread changes it is one step.
- MySQL, SSL, push notification, `Main.cpp`, logging, `Conf.h`, `split_string.cpp`, `list.h`, hlist: foreign calls, input and output, or members that would only be easy.
