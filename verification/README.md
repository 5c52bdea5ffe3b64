# ICU4C common library: verified models

Dafny 4.11 models of six cores of ICU4C's `source/common`, with proofs of what each of them is for.
`dafny verify dfyconfig.toml` checks everything.

- **BMPSet** (`InversionList`, `Bits`, `VerticalTable`, `Utf16`, `Utf8`, `BmpSetSpec`, `BmpSet`): a frozen set
  compiles a sorted inversion list into ASCII flags, two "vertical" bit tables and narrowed search bounds. The
  class fills these tables in place as the code does; every look-up and span is proved equal to plain
  membership in the list. Table words are natural numbers with bitwise operations defined digit by digit.
- **BytesTrie** (`TrieFormat`, `TrieNumbers`, `Tries`, `TrieEncoding`, `BackBuffer`, `TrieElements`, `TrieNodes`,
  `TrieWriter`, `TrieStates`, `BytesTrie`, `BytesTrieIterator`, `BytesTrieBuilder`): an abstract trie, a predicate
  saying which bytes encode it, the writer that fills its buffer from the back, the reader, the iterator and the
  builder, and the chain from added strings to delivered and looked-up ones. `TrieNumbers` says what the bytes of
  values and jumps mean, with examples from the serialized property names.
- **MessagePattern** (`MessageGrammar`, `MessageEvents`, `MessageSoundness`, `MessageQuoting`, `MessageParts`,
  `MessageParser`, `MessageText`, `MessageApostrophes`): the syntax as functions from the rest of a pattern to
  events whose texts add up to what was read; the recursive descent parser over a mutable part list, proved against
  that grammar for every string and every error; nesting of the parts; auto-quoting; and the text shown.
  `MessageSyntax` has patterns as trees, with how they are written, when they are well formed and their parts.
  `MessageNumerals`, `MessagePrinting`, `MessageTrees` and `MessageReading` prove that a text parses exactly if it is
  a well-formed tree written out, and then to just the parts of that tree. `MessageLiterals` has the text such a tree
  shows, `MessageErrors` texts that are not patterns, and `MessageExamples` patterns in full.
- **Break engines** (`DictionaryMatcher`, `CjkBreaks`, `LookAheadBreaks`, `BreakDictionaries`): dictionary
  matching over a serialized trie, the CJK shortest-path segmentation, and the three-word look-ahead shared by
  the Thai, Lao, Burmese and Khmer engines.
- **CanonicalIterator** (`CanonicalIterator`): the permutation generator and the odometer.
- **Caches** (`CacheProtocol`): check, load without the lock, check again, as atomic steps of any number of
  threads, for all three users of that protocol.

Where the code and what is written about it differ, the models follow the code:

- `BytesTrie::next(const char *, int32_t)` compares signed characters as they are, while `next(int32_t)` maps
  negative ones to 0x80..0xFF. `BytesTries.ResultsAgreeIff` says exactly when both give the same result,
  `BytesTries.ResultsDiffer` shows a key that only one of them finds, and `BytesTrieBuilders.LookUp` what this
  means for a built trie.
- After a mismatch the two also leave different match lengths. `BytesTries.StatesAgreeIff` says exactly when the
  states are the same, `BytesTries.StatesAgreeIfPositive` the same without negative characters, and
  `BytesTries.StatesDiffer` has an example.
- An `Iterator` made from a reader that has stopped uses that match length: it is an empty iteration exactly if the
  length is negative, and otherwise an error with `hasNext()` true (`BytesTrieIterators.Iterator.constructor`,
  `BytesTrieBuilders.IterateFromStopped`).
- `writeDeltaTo()` leaves bytes of its buffer unassigned for deltas above kMaxThreeByteDelta;
  `TrieFormat.DeltaSurvivesIff` says that this is exactly where reading back stops working.
- The prefix that `DictionaryMatcher::matches()` reports is documented as the length of the prefix match. It is
  that length exactly if all the text was matched, or some of it was and no word goes on from there, and otherwise
  one more, also where nothing matches (`DictionaryMatchers.Matches`, with an example in
  `DictionaryMatchers.MismatchIsCounted`).
- A code point that `BytesDictionaryMatcher::transform()` does not map is looked up as U+200D.
  `DictionaryMatchers.ReportsWordsIff` says exactly when the words reported for a text are right,
  `DictionaryMatchers.AllTextsReportWordsIff` when they are right for every text, and
  `DictionaryMatchers.LetterIsReportedAsJoiner` has an example.
- The CJK engine's comment calls any continuous run of Katakana a candidate word. Exactly the runs shorter than
  20 are (`CjkBreaks.RunIsTriedIff`, with an example in `CjkBreaks.LongRunIsSkipped`).
- `Normalizer2::getInstance()` loads by package and name but caches by name alone, except that it has three names
  built in that need no package. `CacheProtocol.OwnRequestIff` says exactly which callers get what they asked for,
  and `CacheProtocol.OtherPackage` shows one that does not.
- Auto-quoting keeps the text that a message shows exactly if it puts no apostrophe into an argument
  (`MessageApostrophes.AutoQuotingKeepsShownTextIff`, with an example in `MessageExamples.QuotedChoiceShowsMore`).

## Model

| member | source | states |
|---|---|---|
| `InversionLists.MemberIffInSomeRange` | source/common/bmpset.cpp:244-276 | a code point is a member by the parity of its rank exactly if it lies in one of the ranges of the list |
| `VerticalTables.Set32x64Bits` | source/common/bmpset.cpp:68-117 | sets exactly the entries start..limit-1 of a table, in partial columns and the rectangle between, and no others |
| `VerticalTables.RectangleMaskBits` | source/common/bmpset.cpp:100-108 | the mask for the rectangle has exactly the bits of its lead columns |
| `BmpSets.BmpSet.FindCodePoint` | source/common/bmpset.cpp:244-276 | the binary search gives the rank of the code point, clamped to its bounds, for any bounds inside the list |
| `BmpSets.BmpSet.ContainsSlow` | source/common/bmpset.h:157-159 | equals membership whenever the rank lies within the bounds |
| `BmpSets.BmpSet.constructor` | source/common/bmpset.cpp:29-51 | for every inversion list all four tables describe the list, with illegal entries giving the value of U+FFFD |
| `BmpSets.BmpSet.CopyOf` | source/common/bmpset.cpp:53-59 | a copy has the same tables and describes the same set |
| `BmpSets.BmpSet.InitStarts` | source/common/bmpset.cpp:42-47 | each 4k start is the rank of its code point, found with the previous start as lower bound |
| `BmpSets.BmpSet.InitBits` | source/common/bmpset.cpp:119-200 | ASCII flags and U+0080..U+07FF bits are membership; each 64-block is mixed exactly if a boundary lies strictly inside it, and otherwise has the common value |
| `BmpSets.BmpSet.InitAscii` | source/common/bmpset.cpp:123-137 | the first loop sets exactly the ASCII members and stops in the first range that passes U+0080 |
| `BmpSets.BmpSet.InitTable7FF` | source/common/bmpset.cpp:139-153 | the second loop sets exactly the two-byte members and stops in the first range that passes U+0800 |
| `BmpSets.BmpSet.EnterRange` | source/common/bmpset.cpp:165-187 | one range marks the blocks its ends fall into, fills the blocks between, and moves minStart to the edge after the last mark |
| `BmpSets.BmpSet.InitBlocks` | source/common/bmpset.cpp:155-200 | after the third loop every block from U+0800 on is as described, although ranges inside a block already mixed are skipped |
| `BmpSetSpec.BlocksStep` | source/common/bmpset.cpp:157-199 | entering one more range keeps the description of all blocks by the ranges entered so far |
| `BmpSetSpec.MinStartStep` | source/common/bmpset.cpp:162-186 | minStart stays the edge after the last mixed block |
| `BmpSetSpec.UnmixedIsUniform` | source/common/bmpset.cpp:286-291 | a block without an inner boundary has one membership value for all its 64 code points |
| `BmpSets.BmpSet.OverrideIllegal` | source/common/bmpset.cpp:210-242 | trail bytes, short forms and surrogate blocks get the value of U+FFFD and every legal entry keeps its own |
| `BmpSets.BmpSet.LookupBlock` | source/common/bmpset.cpp:284-294 | the two bits of a block, or a search between its 4k starts, give membership |
| `BmpSets.BmpSet.Contains` | source/common/bmpset.cpp:278-303 | for every 32-bit integer the answer is membership in the list, and false outside the code point range |
| `Utf16.SegmentationIsDirectionless` | source/common/bmpset.cpp:305-308 | pairing surrogates forward from the start and backward from the end gives the same segmentation of every code unit string (section 2.2 of RFC 2781) |
| `Utf16.SpanIsLongest` | source/common/bmpset.cpp:309-395 | what is specified for a span is the longest matching prefix: no longer prefix ending on a boundary matches |
| `Utf16.SpanBackIsLongest` | source/common/bmpset.cpp:397-490 | the same for suffixes |
| `Utf16.SpansMeet` | source/common/bmpset.cpp:309-490 | a forward and a backward span of the same string agree on when all of it matches |
| `BmpSets.BmpSet.Span` | source/common/bmpset.cpp:309-395 | returns the longest prefix of code points whose membership is the condition |
| `BmpSets.BmpSet.SpanBack` | source/common/bmpset.cpp:397-490 | returns the start of the longest such suffix |
| `Utf8.DecodesScalarValues` | source/common/bmpset.cpp:587-640 | a well-formed sequence (section 4 of RFC 3629) of n bytes stands for a scalar value that needs n bytes |
| `Utf8.WellFormedIsEncoded` | source/common/bmpset.cpp:588-640 | a well-formed sequence is the encoding (section 3 of RFC 3629, by division and remainder) of the code point it is decoded to |
| `Utf8.EncodedIsWellFormed` | source/common/bmpset.cpp:588-640 | the encoding of every scalar value is well-formed and is decoded to that value |
| `Utf8.UnitIsEncoding` | source/common/bmpset.cpp:588-640 | a unit stands for a code point exactly if that code point's encoding is there; a byte where no encoding starts is a unit of its own and stands for U+FFFD |
| `Utf8.UnitsDoNotOverlap` | source/common/bmpset.cpp:525-534 | no unit starts inside another one, so the units of a byte string are determined |
| `Utf8.UnitStartHasPredecessor` | source/common/bmpset.cpp:562-650 | every unit start but the first is where another unit ends, so reading from left to right visits them all |
| `Utf8.SpanIsLongest` | source/common/bmpset.cpp:496-651 | what is specified for a UTF-8 span is the longest matching prefix of units |
| `Utf8.SpanToCut` | source/common/bmpset.cpp:525-560 | cutting off a truncated last sequence loses nothing: its bytes are all in the span or all after it |
| `BmpSets.BmpSet.CutTail` | source/common/bmpset.cpp:524-560 | after the cut every lead byte before the limit has all the bytes that are read after it |
| `BmpSets.BmpSet.LeadByteUnit` | source/common/bmpset.cpp:588-648 | a lead byte's sequence, or the byte alone if it is illegal, gets the membership of its code point or of U+FFFD; no byte outside the string is read |
| `BmpSets.BmpSet.SpanUTF8` | source/common/bmpset.cpp:496-651 | for every non-empty byte string returns the longest prefix of units with the wanted value, ill-formed bytes counting as U+FFFD |
| `TrieFormat.ValueRoundTrip` | source/common/bytestriebuilder.cpp:426-459 | every int32 written in front of anything is read back with its final flag and its length |
| `TrieNumbers.ValueIsBigEndian` | source/common/bytestrie.cpp:31-46 | a value is the number that its bytes make, highest place first, counted from the first lead byte of its length |
| `TrieNumbers.ValuePlace` | source/common/bytestrie.cpp:31-46 | one more in the byte k places before the end of a value is 0x100 to the k more |
| `TrieNumbers.ValueLengths` | source/common/bytestriebuilder.cpp:426-459 | which values take one to five bytes, the final flag in the lowest bit, and the first and last encoding of each length |
| `TrieNumbers.ValuesInOrder` | source/common/bytestriebuilder.cpp:426-459 | byte order of the encodings is numeric order, with the negative values after all others |
| `TrieNumbers.UppercaseMapping` | source/common/propname_data.h:106-107 | the bytes D9 40 0C are the final value 0x400C, UCHAR_UPPERCASE_MAPPING |
| `TrieFormat.DeltaRoundTrip` | source/common/bytestrie.cpp:48-66 | a delta up to kMaxThreeByteDelta leads to its target |
| `TrieFormat.DeltaSurvivesIff` | source/common/bytestriebuilder.cpp:470-501 | a delta is read back whatever the unassigned bytes hold exactly if it is at most kMaxThreeByteDelta |
| `TrieNumbers.DeltaIsBigEndian` | source/common/bytestrie.cpp:48-66 | the same for jumps: the number that the bytes make, highest place first |
| `TrieNumbers.DeltaPlace` | source/common/bytestrie.cpp:48-66 | one more in the byte k places before the end of a delta is 0x100 to the k more |
| `TrieNumbers.DeltaLengths` | source/common/bytestriebuilder.cpp:470-501 | which deltas take one, two and three bytes, with the first and last encoding of each length |
| `TrieNumbers.DeltasInOrder` | source/common/bytestriebuilder.cpp:470-501 | byte order of these encodings is numeric order |
| `TrieNumbers.FirstPropertyJump` | source/common/propname_data.h:99 | the bytes C3 23 of the first branch of the property names jump by 0x323 |
| `TrieNumbers.HanScripts` | source/common/propname_data.h:775-777 | the serialized names that begin with "han" encode a trie whose entries are these names with their UScriptCode values |
| `TrieEncoding.ShiftNode` | source/common/bytestriebuilder.cpp:401-419 | prepending bytes does not change what a node encodes |
| `BackBuffers.BackBuffer.EnsureCapacity` | source/common/bytestriebuilder.cpp:374-399 | growing keeps what has been written at the back |
| `BackBuffers.BackBuffer.WriteUnits` | source/common/bytestriebuilder.cpp:411-419 | puts bytes in front of the contents |
| `BackBuffers.BackBuffer.WriteValueAndFinal` | source/common/bytestriebuilder.cpp:426-459 | puts a value in front that reads back as written |
| `BackBuffers.BackBuffer.WriteDeltaTo` | source/common/bytestriebuilder.cpp:470-501 | puts a delta in front that jumps to the target's distance from the end, if it is small enough |
| `TrieElements.GetLimitOfLinearMatch` | source/common/bytestriebuilder.cpp:295-304 | the end of the bytes that all the elements share, judged from the first and the last |
| `TrieElements.CountElementUnits` | source/common/bytestriebuilder.cpp:306-318 | the number of different bytes at an index |
| `TrieElements.SkipElementsBySomeUnits` | source/common/bytestriebuilder.cpp:320-329 | skips exactly the elements of the next count different bytes |
| `TrieElements.IndexOfElementWithNextUnit` | source/common/bytestriebuilder.cpp:331-338 | the end of a run of elements with the same byte |
| `TrieWriters.TrieWriter.WriteNode` | source/common/stringtriebuilder.cpp:86-130 | writes an ordered trie whose entries are exactly the given elements, as bytes that encode it |
| `TrieWriters.TrieWriter.WriteBranchSubNode` | source/common/stringtriebuilder.cpp:132-202 | writes one edge for each different byte, in binary-search form with shared jumps, as bytes that encode them |
| `TrieWriters.TrieWriter.WriteLinear` | source/common/stringtriebuilder.cpp:103-116 | writes a common run of bytes as linear-match nodes of at most 16 bytes |
| `TrieWriters.TrieWriter.WriteSplitNodes` | source/common/stringtriebuilder.cpp:195-200 | the split nodes, written last level first, put all levels together again |
| `TrieWriters.TrieWriter.WriteLevels` | source/common/stringtriebuilder.cpp:136-151 | writes the less-than halves until a list is left, within the fixed size of its arrays |
| `TrieWriters.FewLevels` | source/common/stringtriebuilder.cpp:136-137 | there are at most 6 levels, since there are at most 256 units |
| `TrieWriters.TrieWriter.WriteUnitPairs` | source/common/stringtriebuilder.cpp:178-194 | the list of the last level reads back as its edges |
| `Tries.WalkDecides` | source/common/unicode/bytestrie.h:37-50 | where a byte sequence leads in a trie tells whether it is a prefix of a key, a key, or a key without longer keys |
| `Tries.EntriesSorted` | source/common/bytestrieiterator.cpp:98-170 | the order of a trie's entries is strictly ascending byte order |
| `BytesTries.ResultsDecideKeys` | source/common/bytestrie.cpp:80-206 | the result is NO_MATCH exactly for prefixes of no key, a value exactly for keys, FINAL_VALUE exactly for keys without a longer key, and the value is the key's |
| `BytesTries.BytesTrie.Current` | source/common/bytestrie.cpp:68-78 | the result that belongs to the current state |
| `BytesTries.BytesTrie.BranchNext` | source/common/bytestrie.cpp:80-148 | the binary search and the list find the edge for the byte, or none |
| `BytesTries.BytesTrie.NextImpl` | source/common/bytestrie.cpp:150-180 | one byte from a node leads to the state and result of one step in the trie |
| `TrieStates.MoveIsStep` | source/common/bytestrie.cpp:80-206 | pos_ and remainingMatchLength_ after one byte, as a function of the bytes alone, are a state for what one step leaves of the trie |
| `BytesTries.BytesTrie.Next` | source/common/bytestrie.cpp:182-206 | one byte from any state, a pending linear match or a stop included: the new state and the result |
| `BytesTries.BytesTrie.NextString` | source/common/bytestrie.cpp:208-313 | a string with a length or up to its NUL: the result of walking all of it, pos_ and remainingMatchLength_ after a match, and after a mismatch the match length kept from the start or -1 |
| `BytesTries.BytesTrie.NextEach` | source/common/bytestrie.cpp:182-206 | one call for each character, adjusted if negative: the result of the walk, and the state after all the moves |
| `BytesTries.ResultsAgreeIff` | source/common/bytestrie.cpp:182-313 | both ways give the same result exactly if no character is negative or the adjusted string is a prefix of no key |
| `BytesTries.ResultsDiffer` | source/common/bytestrie.cpp:188-190 | the key 0x80 is found by single bytes and not as a string |
| `BytesTries.StatesAgreeIff` | source/common/bytestrie.cpp:182-313 | both ways leave the same pos_ and remainingMatchLength_ exactly if all of the string matches, or both stop at the same place, which is the start or begins a node, or the adjusted string gets past a negative character and then stops where a node begins or, from a pending match, with as much left as that had |
| `BytesTries.StatesAgreeIfPositive` | source/common/bytestrie.cpp:194-296 | without negative characters: exactly if all match, or the one that does not is the first one or begins a node |
| `BytesTries.StatesDiffer` | source/common/bytestrie.cpp:252-261 | after "ax" in a trie of "abc" the match lengths are -1 and 1 |
| `BytesTries.BytesTrie.GetNextBytes` | source/common/bytestrie.cpp:387-418 | reports the bytes that can come next, in order |
| `BytesTries.NextUnitsAreTheSteps` | source/common/bytestrie.cpp:387-433 | those are exactly the bytes that lead on |
| `BytesTrieIterators.Iterator.constructor` | source/common/bytestrieiterator.cpp:47-76 | from any reader state: all entries left there are pending; a stopped reader has none pending exactly if its match length is negative, and gives an error otherwise |
| `BytesTrieIterators.Iterator.Reset` | source/common/bytestrieiterator.cpp:83-96 | after any number of deliveries everything is pending again, although the string is only truncated |
| `BytesTrieIterators.Iterator.HasNext` | source/common/bytestrieiterator.cpp:98-99 | true exactly if an entry is pending, and always after that error |
| `BytesTrieIterators.Iterator.BranchNext` | source/common/bytestrieiterator.cpp:180-210 | takes the first edge and leaves all others on the packed stack, none lost and none twice |
| `BytesTrieIterators.Iterator.PopAndBranch` | source/common/bytestrieiterator.cpp:107-127 | coming back to the top of the stack keeps what is pending |
| `BytesTrieIterators.Iterator.DeliverFrom` | source/common/bytestrieiterator.cpp:133-170 | delivers the first pending entry and keeps the rest pending |
| `BytesTrieIterators.Iterator.Next` | source/common/bytestrieiterator.cpp:101-170 | delivers the first of the pending entries and removes just that one, or reports that there is none; with an error code it does nothing |
| `BytesTrieBuilders.SetTo` | source/common/bytestriebuilder.cpp:90-111 | a string of up to 0xFFFF bytes is stored so that it can be read back; a longer one is an error |
| `BytesTrieBuilders.StringsKept` | source/common/bytestriebuilder.cpp:41-62 | later strings do not disturb earlier ones |
| `BytesTrieBuilders.CompareStringTo` | source/common/bytestriebuilder.cpp:113-127 | the sign of the comparison is byte order, and zero means equal |
| `BytesTrieBuilders.Builder.Add` | source/common/bytestriebuilder.cpp:147-176 | adds one entry, with the error for a failed status, a built trie or a too long string |
| `BytesTrieBuilders.Builder.Arrange` | source/common/bytestriebuilder.cpp:229-249 | keeps the entries, fails exactly on duplicate strings, and otherwise leaves them strictly ascending |
| `BytesTrieBuilders.Builder.Build` | source/common/bytestriebuilder.cpp:218-270 | gives the right error, and else bytes that encode a trie of exactly the added entries |
| `BytesTrieBuilders.Builder.Clear` | source/common/bytestriebuilder.cpp:272-278 | empties the builder |
| `BytesTrieBuilders.ListEntries` | source/common/bytestrieiterator.cpp:101-210 | a full iteration terminates and delivers every entry once, strictly ascending |
| `BytesTrieBuilders.LookUp` | source/common/bytestrie.cpp:208-313 | with the string overload exactly the added ASCII strings are found, each with its value, and no string with a byte from 0x80 on |
| `BytesTrieBuilders.LookUpEach` | source/common/bytestrie.cpp:182-206 | byte by byte exactly the added strings are found, each with its value |
| `BytesTrieBuilders.HighKeyIsLost` | source/common/bytestrie.cpp:252-258 | looking up the added key 0x80 both ways: not found, and found |
| `BytesTrieBuilders.AddAndBuild` | source/common/bytestriebuilder.cpp:147-270 | adding any entries and building gives the error for a too long string, no entry or a duplicate, and else a trie of exactly these entries |
| `BytesTrieBuilders.AddListAndLookUp` | source/common/bytestriebuilder.cpp:147-270 | everything added, and nothing else, is listed once in ascending order and found with its value |
| `BytesTrieBuilders.IterateFromStopped` | source/common/bytestrieiterator.cpp:65-75 | after "ax" in a trie of "abc": an empty iteration for the string overload, an error and hasNext() for single bytes |
| `MessageParser.ParseArgNumber` | source/common/messagepattern.cpp:887-929 | a number without leading zeros that does not overflow, a name, or neither |
| `MessageParser.MessagePattern.AddPart` | source/common/messagepattern.cpp:1102-1113 | appends a part; the 16-bit fields lose nothing where it is called |
| `MessageParser.MessagePattern.AddLimitPart` | source/common/messagepattern.cpp:1115-1121 | appends a limit part and sets its index in the start part |
| `MessageParser.MessagePattern.ParseQuoted` | source/common/messagepattern.cpp:473-497 | quoted text up to its closing apostrophe or the end of the pattern |
| `MessageParser.MessagePattern.ParseApostrophe` | source/common/messagepattern.cpp:455-505 | every case of an apostrophe, in both modes |
| `MessageParser.MessagePattern.ParseMessage` | source/common/messagepattern.cpp:433-536 | parses a message as the grammar does, with its parts, its end and its errors |
| `MessageParser.MessagePattern.ParseArg` | source/common/messagepattern.cpp:538-656 | parses an argument as the grammar does and stops on its closing brace |
| `MessageParser.MessagePattern.ParseName` | source/common/messagepattern.cpp:547-585 | the name or number of an argument and its errors |
| `MessageParser.MessagePattern.ParseTypeName` | source/common/messagepattern.cpp:592-642 | the type of an argument and its errors |
| `MessageParser.MessagePattern.ParseSimpleStyle` | source/common/messagepattern.cpp:658-699 | the style text up to the closing brace that is neither nested nor quoted |
| `MessageParser.MessagePattern.ParseChoiceStyle` | source/common/messagepattern.cpp:701-767 | a choice style as in the grammar |
| `MessageParser.MessagePattern.ParsePluralOrSelectStyle` | source/common/messagepattern.cpp:769-885 | a plural or select style as in the grammar |
| `MessageParser.MessagePattern.ParseDouble` | source/common/messagepattern.cpp:931-1003 | a small integer or a double, and its errors |
| `MessageParser.MessagePattern.SkipDouble` | source/common/messagepattern.cpp:1021-1033 | the longest run of characters that can be in a number |
| `MessageParser.MessagePattern.Parse` | source/common/messagepattern.cpp:267-273 | for every string terminates with the grammar's parts or its error; the parts are nested with increasing indexes; and for the character properties of Unicode it succeeds exactly if the string is a well-formed tree written out, with the parts of every such tree |
| `MessageReading.ParsesIffPattern` | source/common/messagepattern.cpp:433-1033 | a text parses exactly if it is a well-formed tree of the pattern syntax written out, and its parts are then those of every tree that is written that way, with the argument types taken from the tree |
| `MessageTrees.PatternParses` | source/common/unicode/messagepattern.h:327-355 | every well-formed tree, written out, parses to the parts of the tree: kinds, indexes, lengths, values and limit indexes |
| `MessageReading.PatternTree` | source/common/messagepattern.cpp:433-885 | every text that parses is some well-formed tree written out |
| `MessagePrinting.ItemParses` | source/common/messagepattern.cpp:454-525 | a character, an apostrophe, quoted text, "#" or an argument in a message is read as that, whatever follows |
| `MessagePrinting.TypeIsSpelled` | source/common/messagepattern.cpp:614-629 | a type name is choice, plural, select or selectordinal exactly if it spells that word in any case |
| `MessagePrinting.TextParses` | source/common/messagepattern.cpp:658-699 | quoted text and braces in pairs belong to a simple style, whatever follows |
| `MessageNumerals.NumeralIsRead` | source/common/messagepattern.cpp:931-1003 | a small integer with any sign and leading zeros has its value, and an infinity or any other number is a double |
| `MessageNumerals.NumberIsNumeral` | source/common/messagepattern.cpp:931-1003 | every text that is read as a number is such a numeral |
| `MessageNumerals.NumberedIsRead` | source/common/messagepattern.cpp:887-929 | a decimal number without leading zeros is read as itself below 2147483640, and is not valid from there on |
| `MessageNumerals.NumbersAreDecimal` | source/common/messagepattern.cpp:887-929 | an argument number is written as the decimal number it is read as |
| `MessageErrors.MissingOtherFails` | source/common/messagepattern.cpp:783-797 | after any items, a plural, select or selectordinal argument without a case for "other" gives U_DEFAULT_KEYWORD_MISSING, whatever follows |
| `MessageErrors.UnclosedMessageFails` | source/common/messagepattern.cpp:529-533 | a message inside an argument that the end of the text leaves open gives U_UNMATCHED_BRACES |
| `MessageErrors.UnclosedArgFails` | source/common/messagepattern.cpp:579-584 | after any items, so does an argument that ends after its name |
| `MessageErrors.BadNumberFails` | source/common/messagepattern.cpp:553-578 | after any items, an argument number with leading zeros gives U_PATTERN_SYNTAX_ERROR and one above 32767 U_INDEX_OUTOFBOUNDS_ERROR, or the former if it overflows |
| `MessageExamples.PluralNumberSign` | source/common/messagepattern.cpp:506-510 | all parts of "{0,plural,other{#}}": type 3 and a REPLACE_NUMBER part for "#" |
| `MessageExamples.SelectNumberSign` | source/common/messagepattern.cpp:506-510 | all parts of "{0,select,other{#}}": type 4 and no part for "#" |
| `MessageSoundness.MessageIsSound` | source/common/messagepattern.cpp:433-885 | what a successful parse has read is put together from its events, and its parts are properly nested |
| `MessageParts.PartsAreNested` | source/common/messagepattern.cpp:433-885 | every MSG_START and ARG_START names its limit part, of equal level or type, with everything between nested inside, and there are no other limits |
| `MessageQuoting.ContentRequotes` | source/common/messagepattern.cpp:454-528 | quoted message content is read back as quoted, before any continuation that starts alike |
| `MessageQuoting.HeaderIsLocal` | source/common/messagepattern.cpp:547-650 | the start of an argument is read the same whatever comes after it |
| `MessageParts.InsertedIsRequoted` | source/common/messagepattern.cpp:348-357 | inserting by part index, last one first, gives the text of the quoted events |
| `MessageParts.AutoQuotedParsesAlike` | source/common/messagepattern.cpp:343-358 | for every pattern that parses, the auto-quoted one parses to the quoted events and needs no more quoting |
| `MessageParts.AutoQuotedPartsAreShifted` | source/common/messagepattern.cpp:343-358 | part by part: the same part, INSERT_CHAR turned into SKIP_SYNTAX, moved by the number of insertions before it, limit indexes unchanged |
| `MessageParser.MessagePattern.AutoQuoteApostropheDeep` | source/common/messagepattern.cpp:343-358 | returns that pattern |
| `MessageText.AppendReducedApostrophes` | source/common/messagepattern.cpp:1181-1202 | two apostrophes become one, single ones vanish |
| `MessageText.AppendSubMessageWithoutSkipSyntax` | source/common/messagepattern.cpp:1204-1229 | for every properly nested part list collects the text between the skipped syntax, arguments reduced |
| `MessageText.MessageTextIsShown` | source/common/messagepattern.cpp:1204-1229 | for a message anywhere in a parsed pattern that is its literal text as the quoting has it, with each argument's own text, apostrophes reduced, in its place |
| `MessageText.PatternTextIsShown` | source/common/messagepattern.cpp:1204-1229 | the same for a whole pattern |
| `MessageText.MessageTextIsUnquoted` | source/common/messagepattern.cpp:454-528 | for every pattern without arguments and both modes, parsing and collecting equals a two-state quote automaton; a lone final apostrophe is literal |
| `MessageLiterals.MessageIsShown` | source/common/messagepattern.cpp:454-528 | what a message shows is the literal text of its tree: quoted text as it was before quoting, one apostrophe for each pair and each lone one |
| `MessageLiterals.PatternTextIsLiteral` | source/common/messagepattern.cpp:1204-1229 | the same for the text without skip syntax of a whole pattern |
| `MessageLiterals.ReducedRun` | source/common/messagepattern.cpp:1181-1202 | of n apostrophes in a row n / 2 are left |
| `MessageLiterals.ReducedOther` | source/common/messagepattern.cpp:1181-1202 | all other characters stay |
| `MessageApostrophes.AutoQuotingKeepsMessageText` | source/common/messagepattern.cpp:343-358 | auto-quoting keeps the text of a pattern without arguments |
| `MessageApostrophes.ArgGains` | source/common/messagepattern.cpp:1181-1202 | reducing the apostrophes of an auto-quoted argument leaves exactly one more for each that was put in |
| `MessageApostrophes.AutoQuotingKeepsShownTextIff` | source/common/messagepattern.cpp:343-358 | for every pattern the text shown grows by exactly the apostrophes put into arguments, so auto-quoting keeps it exactly if there are none |
| `MessageExamples.QuotedChoiceShowsMore` | source/common/messagepattern.cpp:343-358 | a choice message "'a" shows one apostrophe more after auto-quoting |
| `DictionaryMatchers.TransformConfuses` | source/common/dictionarydata.cpp:93-107 | for every transform constant two code points look the same to the trie exactly if each is U+200D or not mapped |
| `DictionaryMatchers.UnitSpells` | source/common/dictionarydata.cpp:93-107 | with an offset a mapped code point is looked up as the byte that, added to the offset, gives it back, or as 0xFE or 0xFF for U+200C and U+200D, and any other one as 0xFF; without an offset it is looked up as itself |
| `DictionaryMatchers.SpelledIsUnit` | source/common/dictionarydata.cpp:93-107 | every byte in use is what the code point it spells is looked up as |
| `DictionaryMatchers.ThaiLetter` | source/common/dictionarydata.cpp:100-104 | with the offset of the Thai dictionary U+0E01 is looked up as 1 |
| `DictionaryMatchers.IsWordIff` | source/common/dictionarydata.cpp:93-107 | a word is spelled by a key, byte by byte, exactly if it is mapped and looked up as that key |
| `DictionaryMatchers.ReportsWordsIff` | source/common/dictionarydata.cpp:93-150 | the words reported are exactly the dictionary's words, as its keys spell them, at the start of the text, exactly if no key that the text looks like reaches past a character that is not mapped |
| `DictionaryMatchers.MappedPrefixReportsWords` | source/common/dictionarydata.cpp:93-150 | so they are if every character looked at is mapped |
| `DictionaryMatchers.AllTextsReportWordsIff` | source/common/dictionarydata.cpp:93-150 | they are so for every text exactly if no word of the dictionary holds U+200D |
| `DictionaryMatchers.LetterIsReportedAsJoiner` | source/common/dictionarydata.cpp:101-103 | the letter "a" is reported as the word U+200D with the Thai offset |
| `DictionaryMatchers.WordsAreEntries` | source/common/dictionarydata.cpp:113-150 | the words reported are exactly the entries that the text starts with, up to the length limit |
| `DictionaryMatchers.WordsAreOrdered` | source/common/dictionarydata.cpp:113-150 | from shortest to longest |
| `DictionaryMatchers.Matches` | source/common/dictionarydata.cpp:113-150 | reports the first limit of those words; the prefix is the longest match of any key if that is all there is, or if it is not empty and no key goes on, and otherwise one more |
| `DictionaryMatchers.KeysEndBefore` | source/common/dictionarydata.h:88-90 | no word is longer than the prefix |
| `DictionaryMatchers.MismatchIsCounted` | source/common/dictionarydata.cpp:122-141 | "ax" against the word "ab" has the longest match 1 and the prefix 2 |
| `BreakDictionaries.LookAheadContractHolds` | source/common/dictbe.cpp:156-173 | what the look-ahead engines rely on holds of every trie |
| `BreakDictionaries.CjkContractHolds` | source/common/dictbe.cpp:1304-1309 | the same for the CJK engine, whose buffers are never too short |
| `CjkBreaks.FallbackSlotExists` | source/common/dictbe.cpp:1311-1320 | where the one-character fallback is added, the match buffers have a free slot |
| `CjkBreaks.FillCandidates` | source/common/dictbe.cpp:1304-1320 | the matches, with the fallback where no single character matched and it is not Hangul |
| `CjkBreaks.EdgesAre` | source/common/dictbe.cpp:1304-1354 | the steps of a segmentation: a dictionary word at its cost, one character that is no Hangul syllable and no word at cost 255, or a whole Katakana run shorter than 20 |
| `CjkBreaks.KatakanaCosts` | source/common/dictbe.cpp:1106-1111 | the cost of a run for each length |
| `CjkBreaks.HangulSyllables` | source/common/dictbe.cpp:1316-1317 | the characters without the fallback are the 19 * 21 * 28 composed syllables |
| `CjkBreaks.KatakanaCharacters` | source/common/dictbe.cpp:1113-1116 | full and half width letters and marks, but not the middle dot |
| `CjkBreaks.HangulSegmentsAreWords` | source/common/dictbe.cpp:1311-1329 | in Hangul text the segmentations are exactly those into dictionary words |
| `CjkBreaks.UncoveredHangulStaysTogether` | source/common/dictbe.cpp:1311-1317 | Hangul text that no dictionary words cover is not broken, and text that they cover is broken into such words |
| `CjkBreaks.TwoSyllables` | source/common/dictbe.cpp:1366-1369 | U+AC00 U+AC01 without any words stay together |
| `CjkBreaks.SingleCharacters` | source/common/dictbe.cpp:1311-1320 | without Hangul every text can be cut into single characters, each at the cost of its word or 255 |
| `CjkBreaks.WithoutHangulThereIsACheapest` | source/common/dictbe.cpp:1366-1376 | so the breaks are then those of a cheapest segmentation |
| `CjkBreaks.TryWords` | source/common/dictbe.cpp:1322-1329 | tries every word from a position without making any entry worse |
| `CjkBreaks.TryKatakana` | source/common/dictbe.cpp:1331-1354 | tries a whole Katakana run, if it is short enough and starts there |
| `CjkBreaks.BestSegmentation` | source/common/dictbe.cpp:1267-1356 | every entry comes from an edge out of an earlier entry and no edge improves on any entry |
| `CjkBreaks.EntryIsLowerBound` | source/common/dictbe.cpp:1267-1356 | no segmentation of any prefix is cheaper than its entry |
| `CjkBreaks.ChainAttainsEntry` | source/common/dictbe.cpp:1370-1376 | following prev gives a segmentation that costs just that |
| `CjkBreaks.ChainIncreases` | source/common/dictbe.cpp:1370-1376 | prev decreases strictly to 0 |
| `CjkBreaks.EntryMeansVisited` | source/common/dictbe.cpp:1299-1302 | the positions the loop does not skip are exactly those some segmentation reaches |
| `CjkBreaks.WithoutHangulAllAreVisited` | source/common/dictbe.cpp:1311-1355 | without Hangul every position is visited and the Katakana rule looks at the previous character |
| `CjkBreaks.RuleLooksAtPrevious` | source/common/dictbe.cpp:1337-1355 | so it does in all text the engines are made for, which has only Hangul or none |
| `CjkBreaks.RunIsTriedIff` | source/common/dictbe.cpp:1337-1354 | a whole Katakana run is a candidate exactly if it is shorter than 20, and no part of a run ever is |
| `CjkBreaks.LongRunIsSkipped` | source/common/dictbe.cpp:1342-1347 | nineteen Katakana characters are a candidate, twenty are not |
| `CjkBreaks.FollowBack` | source/common/dictbe.cpp:1370-1376 | collects that segmentation backwards |
| `CjkBreaks.DivideUpDictionaryRange` | source/common/dictbe.cpp:1267-1399 | pushes the cuts of a cheapest segmentation, or just the end if there is none, in strictly ascending order, with a break at the start if there is none yet |
| `LookAheadBreaks.PossibleWord.Candidates` | source/common/dictbe.cpp:156-173 | the slot holds what a fresh look-up gives and the longest candidate is selected |
| `LookAheadBreaks.PossibleWord.BackUp` | source/common/dictbe.cpp:182-189 | goes on to the next shorter candidate, if there is one |
| `LookAheadBreaks.TryContinuation` | source/common/dictbe.cpp:524-547 | whether a word follows, and whether one more word or the end of the range follows that |
| `LookAheadBreaks.LookAhead` | source/common/dictbe.cpp:518-548 | marks the longest candidate that goes on, else the shortest one followed by a word, else the longest |
| `LookAheadBreaks.FindWord` | source/common/dictbe.cpp:508-553 | accepts that candidate; length 0 exactly if there is none |
| `LookAheadBreaks.AcceptedIff` | source/common/dictbe.cpp:504-553 | in terms of words in a row: the longest first word of three, or of fewer up to the end of the range; else the shortest first word of two; else the longest word |
| `LookAheadBreaks.Resynchronize` | source/common/dictbe.cpp:567-591 | passes over characters to the first place where a word may begin |
| `LookAheadBreaks.SkipMarks` | source/common/dictbe.cpp:607-612 | never stops before a combining mark |
| `LookAheadBreaks.SkipSuffixes` | source/common/dictbe.cpp:388-422 | in Thai, where no word follows: takes an elision sign unless it follows a suffix, then a repetition sign unless it follows another |
| `LookAheadBreaks.SuffixStays` | source/common/dictbe.cpp:388-422 | these lead at most one character past the range, and only for a repetition sign there after an elision sign |
| `LookAheadBreaks.LongWordStands` | source/common/dictbe.cpp:556-612 | nothing but marks and Thai signs is added to a word of three characters or more |
| `LookAheadBreaks.FollowedWordStands` | source/common/dictbe.cpp:556-566 | nor to a shorter one before a word or before three characters that begin one |
| `LookAheadBreaks.ShortWordTakesNonWord` | source/common/dictbe.cpp:556-591 | any other word, or none, takes the text up to the first place where a word may begin |
| `LookAheadBreaks.ResyncExample` | source/common/dictbe.cpp:572-591 | two characters without words are passed over, up to where one that may end a word stands before one that begins one |
| `LookAheadBreaks.SignsOnly` | source/common/dictbe.cpp:388-417 | the signs taken after a Thai word, which a dictionary word keeps off: an elision sign, a repetition sign, or both in this order |
| `LookAheadBreaks.NoBreakBeforeSign` | source/common/dictbe.cpp:388-417 | no Thai word ends before a sign that could belong to it |
| `LookAheadBreaks.NoBreakBeforeMark` | source/common/dictbe.cpp:607-612 | in the other engines none ends before a combining mark |
| `LookAheadBreaks.TooShortIs` | source/common/dictbe.cpp:491-493 | ranges of less than four characters have no breaks, in Thai of less than five |
| `LookAheadBreaks.Iterate` | source/common/dictbe.cpp:504-623 | one iteration finds one word, advances, and keeps all slots equal to fresh look-ups, in all four engines |
| `LookAheadBreaks.IterationIsUnique` | source/common/dictbe.cpp:504-623 | the text and the dictionary determine the next break |
| `LookAheadBreaks.DivideUpDictionaryRange` | source/common/dictbe.cpp:486-633 | one break for each iteration but the last, strictly increasing inside the range, and their number is returned; also for the Thai engine, whose range must be longer by one and whose last word may end past it |
| `CanonicalIterators.Permute` | source/common/caniter.cpp:267-339 | adds exactly the strings drawn one allowed character at a time |
| `CanonicalIterators.PermuteIsArrangements` | source/common/caniter.cpp:267-339 | those are exactly the rearrangements in which, when skipping zeros, every character of combining class zero still follows all that preceded it |
| `CanonicalIterators.PermuteIsPermutations` | source/common/caniter.cpp:267-339 | and without skipping exactly all permutations |
| `CanonicalIterators.TwoCharacters` | source/common/caniter.cpp:303-314 | of two characters the second may go first, unless it has class zero and these are skipped |
| `CanonicalIterators.CanonicalIterator.Reset` | source/common/caniter.cpp:121-126 | starts over at the first tuple |
| `CanonicalIterators.CanonicalIterator.Advance` | source/common/caniter.cpp:150-160 | counts up by one with carry, and is done exactly after the last tuple |
| `CanonicalIterators.CanonicalIterator.Next` | source/common/caniter.cpp:132-162 | returns the string of the current tuple and moves on, or the bogus string when done |
| `CanonicalIterators.RankFollowsOrder` | source/common/caniter.cpp:150-160 | positions are in lexicographic order of the index tuples and tell them apart |
| `CanonicalIterators.UnrankIsInverse` | source/common/caniter.cpp:150-160 | every position belongs to a tuple |
| `CanonicalIterators.AllStrings` | source/common/caniter.cpp:121-162 | from a reset on, next() gives the string of every index tuple exactly once, in lexicographic order, and is done then |
| `CanonicalIterators.JoinedInOrder` | source/common/caniter.cpp:143-148 | the string of a tuple has every piece after those before it and before those after it |
| `CanonicalIterators.TwoPieces` | source/common/caniter.cpp:143-160 | of two pieces the index of the second one counts faster, and its string comes second |
| `CacheProtocol.StepKeepsInv` | source/common/listformatter.cpp:131-172 | every step of every thread keeps the invariant: each object is cached, owned by one thread or deleted once |
| `CacheProtocol.RunKeepsInv` | source/common/loadednormalizer2impl.cpp:227-263 | it holds in every reachable state of every interleaving |
| `CacheProtocol.CallersAgree` | source/common/listformatter.cpp:131-172 | all successful calls for one key, at any times, return the same object, made for that key; built-in requests and those that use the cache each among themselves |
| `CacheProtocol.OwnRequestIff` | source/common/loadednormalizer2impl.cpp:217-263 | what a caller gets was made for its own package and name exactly if that is built in, or the first call with that name that used the cache asked for the same package; always where there are no packages |
| `CacheProtocol.BuiltInNames` | source/common/loadednormalizer2impl.cpp:217-226 | exactly the calls of Normalizer2 without a package for "nfc", "nfkc" or "nfkc_cf" get the built-in object of that name, whatever has been cached |
| `CacheProtocol.OtherPackage` | source/common/loadednormalizer2impl.cpp:227-263 | a run in which the second caller gets the object of another package |
| `CacheProtocol.EntriesAreForever` | source/common/locutil.cpp:203-260 | a cached entry never changes and is never deleted |
| `CacheProtocol.AnswersStayLive` | source/common/loadednormalizer2impl.cpp:227-263 | an object that a caller has got is never deleted |
| `CacheProtocol.NothingLeaks` | source/common/locutil.cpp:241-257 | when no call is under way each loaded object is the cached one for its key or has been deleted exactly once |
| `CacheProtocol.CallsFinish` | source/common/listformatter.cpp:140-171 | a call can always go on, takes at most four steps of its own, and never uses a missing hash table |

## Left out

- BytesTrieBuilders.Builder.Build: the bytes are proved to encode the trie up to a size of 0xE0000 bytes only, because longer jumps are not written reliably (`TrieFormat.DeltaSurvivesIff`).
- BytesTrieBuilders.Builder.Add: after a too long string only calls that pass the error on are modelled, since the code leaves that element unset.
- BytesTrieIterators.Iterator.Next: models the unlimited string length only (maxLength 0), and keys of up to 0xFFFF bytes, which the packed stack needs.
- CanonicalIterators.Permute: works on code points, so that removing a character never joins two unpaired surrogates.
- CjkBreaks.DivideUpDictionaryRange: for BMP text in NFKC whose costs do not reach 0xFFFFFFFF; the mapping back from normalized or supplementary text is not modelled.
- LookAheadBreaks.DivideUpDictionaryRange: for BMP text, with the character sets as parameters.
- MessageParser.MessagePattern.Parse: parse errors carry their code but not their position and context; the flags for argument names and numbers are not modelled.
- The entry points parseChoiceStyle, parsePluralStyle and parseSelectStyle of MessagePattern; the grammar covers their syntax.
- PatternProps and strtod: character properties and number syntax are parameters of the message grammar.
- The compact build option of StringTrieBuilder (node sharing) and uprv_sortArray; sorting is an insertion sort.
- findUniqueValue and spanBackUTF8.
- The segmentation of a source string into pieces and the canonical equivalents of a piece.
- FilteredNormalizer2, normalization itself, UText providers, UnicodeString, locale data, resource loading.
- Allocation failures; fixed-width overflow except where a model writes it out.
