# Verified models of a C toolbox

Five pieces of this repository carry real algorithms. Each is modelled here in Dafny, branch by branch, and what
it is for is proved about the model.

- **cJSON** (`cJSON.c`): the recursive-descent parser, both printers, the in-place minifier, and the doubly linked
  tree with its edits, its deep copy and its release. The text format is that of RFC 8259, sections 2 to 7; the
  encoding of `\u` escapes is section 3 of RFC 3629.
- **iniparser** (`iniparser-main/iniparser.c`): the line classifier, the loader with its line buffer and
  continuation lines, quoting, the dumper, and the queries about sections.
- **dictionary** (`iniparser-main/dictionary.c`): the array store with holes, a wrapping probe and doubling.
- **PCM ring** (`ffmpeg_sample/pcm.c`): the hardware and application pointers, and transfers split at the end of
  the ring.
- **Image blocks** (`queue/queue.c`): a block allocator shared by threads, as atomic steps.

Code that works step by step is a method over arrays and class fields, and is proved against a function over
sequences; the lemmas are about these functions, for all inputs and all runs.

## How the files fit together

- `CString`, `Bits`: C strings in buffers; bit operations on numbers, with the rounding to powers of two.
- `Json`, `JsonPrint`, `JsonParse`: trees, the text of a tree, the tree of a text. `JsonScalars`, `JsonUnicode`:
  numbers, strings and transcoding.
- `JsonTokens`, `JsonLayout`: the language of the texts by its characters, without the parser: a *layout* is a tree
  with its tokens as they are spelled and the gaps between them. `JsonAccept`, `JsonIncomplete`: the parser accepts
  exactly this language. `JsonPretty`, `JsonRoundTrip`: the printers write certain layouts, tabs and line breaks
  included, and printing and parsing are inverse. `JsonMinify`, `JsonMinifyLayout`: the minifier in place, and the
  layouts with comments it takes and leaves.
- `JsonWrite`, `JsonPrintAlloc`, `JsonPrintBuffered`: the two printers, writing into buffers.
- `JsonHeap`, `JsonForest`, `JsonReadScalars`, `JsonRead`, `JsonDuplicate`, `JsonListEdits`: nodes in memory. A
  `Shape` is a picture of a node: its flags, its strings and its children as they are linked. `Memory.live` is the
  set of what is allocated and not yet freed; freeing requires membership, so nothing is freed twice.
- `IniDictionary`, `IniText`, `IniQuote`, `IniLine`, `IniLoad`, `IniSections`, `IniDump`: the store, the in-place
  helpers, lines, loading, sections, dumping. `IniLineExactly`: what each line is, by its characters. `IniLines`:
  files line by line. `IniLineRoundTrip`, `IniRoundTrip`, `IniSave`: what comes back of what was dumped.
- `PcmPointers`, `PcmRing`, `ImageQueue`.

## What turned out not to hold, and exactly when it does

- Deleting a deep copy restores memory exactly if no node has a constant name: the copy of such a name is allocated
  but inherits the flag that keeps it from being freed (`JsonDuplicate.DuplicateAndDelete`).
- Deleting a child by its index frees that child alone exactly if it is the first or the last; otherwise its old
  successors, still linked in the list, are freed with it (`JsonListEdits.DeletesOne`).
- A dumped ini file loads back as the same dictionary exactly if sections and nothing else have NULL values: for an
  entry without a value the dumper repeats the last escaped text (`IniRoundTrip.DumpThenLoadExactly`).
- A dictionary without sections that is dumped and loaded comes back changed unless it is empty: its keys return in
  the section without a name, with a colon in front (`IniSave.FlatDumpThenLoad`, `IniSave.FlatChanges`).
- A line at the end of an ini file needs no line break, but a single character there is lost (`IniLines.LoadLast`).
- The parser accepts more than RFC 8259: any character up to the space between tokens, a sign without digits, an
  exponent without digits, raw control characters and unknown escapes in literals, and a literal that ends with the
  text. `JsonAccept.ParsesExactly` says exactly what (`JsonTokens.NumeralOk`, `JsonTokens.PieceOk`,
  `JsonLayout.Spaced`, `JsonLayout.Follows`).
- To the minifier `/*/` is a complete comment (`JsonLayout.BlockComment`).
- The sections and their keys partition the dictionary exactly if no section with keys has a second spelling
  (`IniSections.Partition`, `IniSections.TwoSpellings`).
- The free space of the playback ring is exact except when the ring is full and only the application pointer has
  wrapped; this state is reached in every ring of more than one frame (`PcmPointers.PlaybackAvailExactly`,
  `PcmPointers.OverstatedIsReached`). There `pcm_mmap_begin` offers a whole buffer.
- The blocks in use lie between tail and head exactly if the oldest are released first
  (`ImageQueue.InUseFromTailToHead`, `ImageQueue.OutOfOrder`).
- The loader's special treatment of a bare pair of quotes is never reached (`IniLine.QuotesAreNeverPlain`).

## Model

| member | source | states |
|---|---|---|
| Bits.Pow2gtIsLeast | cJSON.c:118-118 | the shift-and-or cascade gives the least power of two not below its argument, over all 32 bits |
| JsonReadScalars.SkipFrom | cJSON.c:321-321 | jumps over every character up to the space, and no others |
| JsonScalars.NumberReadsBack | cJSON.c:97-116 | the decimal text of a 32-bit integer is read back as that number, up to any text that does not prolong it |
| JsonScalars.HexTable | cJSON.c:178-190 | the sixteen digits and their values, in either case |
| JsonScalars.UnescapeEscaped | cJSON.c:253-308 | an escaped string in quotes is read back, whatever follows it |
| JsonScalars.StringReadsBack | cJSON.c:193-250 | a printed string literal parses to its string and stops behind the closing quote |
| JsonTokens.UnescapePieces | cJSON.c:202-250 | a literal of plain characters, escapes, codes and surrogate pairs, closed or ended by the text, is read as the concatenation of what they mean |
| JsonTokens.AcceptedPieces | cJSON.c:202-250 | whatever is read as a literal is such a sequence |
| JsonTokens.NumeralReads | cJSON.c:97-116 | sign, digits, fraction and exponent, each of which may be missing, are read as their decimal value, up to where they cannot be prolonged |
| JsonTokens.Pow10Steps | cJSON.c:111-111 | the power of ten is multiplied by ten with each step of the exponent |
| JsonTokens.AcceptedNumeral | cJSON.c:97-116 | whatever is read as a number has this form and this value |
| JsonLayout.ParseText | cJSON.c:358-432 | every text of a tree, with any gaps between its tokens and any spelling of them, parses to that tree and stops exactly behind it |
| JsonLayout.ParseMembersText | cJSON.c:515-548 | the same for the members of an object, with gaps around names, colons and commas |
| JsonAccept.AcceptedValue | cJSON.c:358-548 | whatever is parsed is such a text of the tree it gives |
| JsonAccept.ParsesExactly | cJSON.c:358-548 | a tree and a rest come out exactly if the text spells that tree in front of that rest |
| JsonAccept.RefusesExactly | cJSON.c:358-370 | parsing fails exactly if the text starts with the spelling of no tree |
| JsonAccept.AcceptsExactly | cJSON.c:324-335 | the same for whole texts, behind their white space and with the end asked for or not |
| JsonIncomplete.IncompleteValue | cJSON.c:193-250 | reading runs past the end of the text only if behind some quote in it a backslash ends the text or four characters are missing behind `\u` |
| JsonPretty.PrintedText | cJSON.c:373-659 | the printed text in its characters: no white space at all without formatting; with it, a line break and one tab for each level in front of a name, a tab behind its colon, a space behind a comma of an array, a line break and tabs in front of a closing brace; numbers in plain decimal, and the escapes chosen for each character |
| JsonRoundTrip.LayoutText | cJSON.c:373-404 | both printer modes write a layout of the tree: only white space differs |
| JsonRoundTrip.RoundTrip | cJSON.c:358-659 | parsing what was printed, in either mode, at any depth, with any rest that does not prolong a number, gives the tree and the rest |
| JsonRoundTrip.PrintInjective | cJSON.c:373-404 | different trees have different texts |
| JsonUnicode.EncodeIsUtf8 | cJSON.c:232-240 | the backwards loop over the lead-byte table writes the UTF-8 encoding of RFC 3629, section 3 |
| JsonUnicode.SurrogatesCombine | cJSON.c:223-230 | a surrogate pair is combined to the code it stands for |
| JsonUnicode.EscapesBecomeUtf8 | cJSON.c:214-240 | every sequence of codes from U+0001 to U+10FFFF written as escapes and surrogate pairs, in any case of the digits, is read as the concatenated UTF-8 encodings |
| JsonUnicode.LiteralFits | cJSON.c:198-202 | the bytes of a literal with complete escapes never exceed the length counted in the first pass |
| JsonReadScalars.IncompleteExactly | cJSON.c:193-250 | reading runs off a literal exactly if a backslash ends the text or four characters are missing behind `\u` |
| JsonReadScalars.ReadNumber | cJSON.c:97-116 | the loops over integer, fraction and exponent digits read the number of the reference parser and stop where it stops |
| JsonReadScalars.MeasureLiteral | cJSON.c:198-198 | the first pass counts one byte for each character, escaped or not |
| JsonReadScalars.EncodeTo | cJSON.c:230-238 | the bytes of a code are written from the last one backwards, behind what stands in the buffer |
| JsonReadScalars.ReadUnicode | cJSON.c:217-239 | one escape or surrogate pair is transcoded; lone halves and the code 0 yield nothing |
| JsonReadScalars.FillLiteral | cJSON.c:202-250 | the second pass fills the allocation with the unescaped bytes and a NUL, inside the length counted before |
| JsonRead.ReadString | cJSON.c:193-250 | a literal becomes a fresh string of the node; a failure allocates nothing |
| JsonRead.ReadValue | cJSON.c:358-370 | succeeds exactly if the reference parser does (for which see `JsonAccept.ParsesExactly`), spells its tree, and has hung every allocation on the node, also when it fails half way |
| JsonRead.CastTruncates | cJSON.c:113-113 | the integer of a number is its whole part, nearest to zero |
| JsonRead.ReadArray | cJSON.c:407-432 | the same for arrays: the children are doubly linked in order |
| JsonRead.ReadItems | cJSON.c:415-431 | one child for each value between commas, up to the bracket or the failure |
| JsonRead.ReadObject | cJSON.c:515-548 | the same for objects: the names are moved from the value strings to the names |
| JsonRead.ReadPair | cJSON.c:525-531 | a name, a colon and a value on one node; the name is the text of the literal |
| JsonRead.ReadMembers | cJSON.c:523-547 | one child for each member between commas, up to the brace or the failure |
| JsonRead.ParseWithOpts | cJSON.c:324-338 | null exactly if the text, behind its white space, spells no tree, or has something behind it when its end is asked for, and then every node and string is freed exactly once; else a tree that the text spells, on wholly fresh memory |
| JsonHeap.Delete | cJSON.c:82-94 | frees exactly what the node and its successors own, each once, and neither references nor constant names |
| JsonHeap.DeleteOne | cJSON.c:88-91 | a turn of the loop frees one node with its children and strings |
| JsonForest.OwnedExactly | cJSON.c:88-91 | what goes with a node are the nodes that can be reached through children of nodes that are no references, their texts unless they are references, and their names unless constant |
| JsonForest.DeleteRoot | cJSON.c:82-94 | of a tree without sharing, all cells are freed but its constant names |
| JsonForest.OwnedCells | cJSON.c:88-90 | without references a tree owns each of its cells once, but for constant names |
| JsonWrite.MeasureString | cJSON.c:258-283 | the size passes find the length of the escaped string, and whether it differs from the string |
| JsonWrite.WriteString | cJSON.c:263-306 | writes the literal and its NUL and nothing else of the buffer in front of it |
| JsonWrite.WriteEmptyObject | cJSON.c:563-568 | the empty object, indented one tab less than the depth, fits the size asked for |
| JsonPrintAlloc.AllocString | cJSON.c:253-308 | the literal with its NUL fills the len+3 bytes of the allocation exactly |
| JsonPrintAlloc.AllocNumber | cJSON.c:148-175 | an integer of 32 bits fits its 21 bytes, zero its two |
| JsonPrintAlloc.AllocItems | cJSON.c:476-484 | the size that is summed up is the length of the text, one byte for each entry and six or seven more |
| JsonPrintAlloc.AllocMembers | cJSON.c:619-627 | the size that is summed up is the length of the text, eight bytes and the depth more |
| JsonPrintAlloc.ComposeArray | cJSON.c:499-509 | the entries are put together with separators inside the size |
| JsonPrintAlloc.ComposeObject | cJSON.c:641-656 | names, values, tabs and separators are put together inside the size |
| JsonPrintAlloc.AllocArray | cJSON.c:468-512 | the text of an array fits the computed size; what stays unused is stated exactly |
| JsonPrintAlloc.AllocObject | cJSON.c:554-659 | the same for objects, with tabs, separators and the short form of the empty object |
| JsonPrintAlloc.AllocValue | cJSON.c:373-404 | printing by allocation yields the text of the tree, with no write outside any of the allocations |
| JsonPrintBuffered.PrintBuffer.Ensure | cJSON.c:122-136 | there is room for the bytes asked for, and the buffer keeps its contents over regrowth |
| JsonPrintBuffered.PrintBuffer.Update | cJSON.c:139-145 | the offset moves to the end of the text in the buffer |
| JsonPrintBuffered.PrintStringPtr | cJSON.c:281-307 | appends a literal in the room asked for |
| JsonPrintBuffered.PrintArrayTo | cJSON.c:443-467 | appends the text of an array behind what stands in the buffer |
| JsonPrintBuffered.PrintObjectTo | cJSON.c:572-608 | appends the text of an object behind what stands in the buffer |
| JsonPrintBuffered.PrintValueTo | cJSON.c:373-389 | appends the text of any tree; every write stays inside the buffer |
| JsonPrintBuffered.PrintBuffered | cJSON.c:346-354 | for every initial size, the buffer ends up with the very text that printing by allocation gives |
| JsonMinify.Minify | cJSON.c:740-755 | minifies the buffer in place as the reference function does; the write index never passes the read index |
| JsonMinify.CopyLiteralInPlace | cJSON.c:751-751 | a literal is copied as it is, escaped quotes included |
| JsonMinify.SkipCommentInPlace | cJSON.c:750-750 | reading goes on behind the comment |
| JsonMinifyLayout.MinifyGap | cJSON.c:745-750 | white space, comments through the end of a line and comments between marks, in any order, leave nothing, and nothing behind them is lost |
| JsonMinifyLayout.MinifyLastGap | cJSON.c:749-749 | at the end of the text a line comment needs no line break |
| JsonMinifyLayout.MinifyLiteral | cJSON.c:751-751 | a literal is kept as it is, with white space, comment marks and escaped quotes inside of it |
| JsonMinifyLayout.MinifySlash | cJSON.c:752-752 | a slash that opens no comment is kept |
| JsonMinifyLayout.MinifyRemoves | cJSON.c:740-755 | a text with white space and comments anywhere between its tokens and around it is left with its tokens alone |
| JsonMinifyLayout.MinifyIsUnformatted | cJSON.c:740-755 | a printed tree with any white space and comments between its tokens is left as its unformatted text |
| JsonMinifyLayout.MinifyFormatted | cJSON.c:740-755 | minifying formatted output gives the unformatted output, and both parse to the tree |
| JsonMinifyLayout.MinifyKeepsTree | cJSON.c:740-755 | the minified text parses to the tree of the text, and so does the text itself if it has no comments |
| JsonHeap.SuffixObject | cJSON.c:667-667 | a node is linked behind the last one of a doubly linked list |
| JsonDuplicate.Duplicate | cJSON.c:713-738 | an equal copy on wholly fresh nodes and strings, unlinked at the root, with the children only if asked; a reference becomes a node of its own |
| JsonDuplicate.DuplicateKids | cJSON.c:727-736 | the copies of the children are linked in order below the new node, on fresh memory |
| JsonDuplicate.StrDup | cJSON.c:50-59 | a fresh string with the same text |
| JsonDuplicate.SameConstNames | cJSON.c:722-724 | a copy has constant names exactly if the original has |
| JsonDuplicate.DuplicateAndDelete | cJSON.c:713-738 | deleting a deep copy loses nothing that was there, and restores memory exactly if no node has a constant name |
| JsonListEdits.AddItemToArray | cJSON.c:672-672 | the list becomes the list with the item behind it, links mutually inverse; no item changes nothing |
| JsonListEdits.InsertItemInArray | cJSON.c:689-690 | the item is inserted at the index, a negative one meaning the first and one past the end appending |
| JsonListEdits.ReplaceItemInArray | cJSON.c:691-693 | the item takes the place of the child, which is released with what it owns; without such a child nothing changes |
| JsonListEdits.DetachItemFromArray | cJSON.c:678-683 | the child leaves the list; its own links are cleared only if it was the first, else they still lead to its neighbours |
| JsonListEdits.DeleteItemFromArray | cJSON.c:684-684 | one child leaves the list, and what is released is it alone if it is the first, else it with all its old successors |
| JsonListEdits.EditsByIndex | cJSON.c:678-693 | a negative index means the first child; past the end insertion appends, and the others change nothing |
| JsonListEdits.DeletesOne | cJSON.c:678-684 | a single child is released exactly if it is the first or the last |
| JsonListEdits.Step | cJSON.c:672-693 | one edit of a list of trees edits the sequence, keeps all trees intact and releases exactly the replaced one |
| JsonListEdits.Run | cJSON.c:672-693 | over any run of edits with unused trees, the list is the edited sequence, doubly linked, and exactly the replaced trees are released |
| JsonListEdits.ParsedListFits | cJSON.c:407-432 | the children of a parsed array can start such a run |
| IniDictionary.ComputeHash | iniparser-main/dictionary.c:111-130 | the loop computes the hash, a function of the key alone |
| IniDictionary.HashOf | iniparser-main/dictionary.c:111-130 | the hashes of the empty key and of a letter are those of the one-at-a-time hash |
| IniDictionary.ContentsUpdate | iniparser-main/dictionary.c:274-278 | overwriting the value of a key's slot is a map update |
| IniDictionary.ContentsInsert | iniparser-main/dictionary.c:295-300 | filling a hole with a new key is a map update, and keys stay distinct |
| IniDictionary.ContentsRemove | iniparser-main/dictionary.c:343-351 | clearing a key's slot removes it from the map |
| IniDictionary.ContentsGrow | iniparser-main/dictionary.c:61-94 | a longer array with holes behind holds the same map |
| IniDictionary.Dictionary.constructor | iniparser-main/dictionary.c:143-166 | an empty map in at least 128 slots |
| IniDictionary.Dictionary.Search | iniparser-main/dictionary.c:216-229 | comparing hashes first, the scan finds the slot of the key, whatever collides |
| IniDictionary.Dictionary.Get | iniparser-main/dictionary.c:209-230 | answers the default exactly if the key is absent, else what is stored, NULL included |
| IniDictionary.Dictionary.Grow | iniparser-main/dictionary.c:61-94 | the size doubles and every slot is kept |
| IniDictionary.Dictionary.Probe | iniparser-main/dictionary.c:287-294 | from `n` round the end, the probe stops at the first hole on its way, which exists |
| IniDictionary.Dictionary.Insert | iniparser-main/dictionary.c:295-300 | only the hole is written, and `n` counts on |
| IniDictionary.Dictionary.Set | iniparser-main/dictionary.c:258-302 | a map update, with doubling exactly if a new key meets a full store; a NULL key is refused |
| IniDictionary.Dictionary.Unset | iniparser-main/dictionary.c:317-352 | a map removal; a NULL or absent key changes nothing |
| IniDictionary.Dictionary.Size | iniparser-main/dictionary.c:299-299 | `n` is the number of entries of the map |
| IniDictionary.Run | iniparser-main/dictionary.c:209-352 | over any run of sets, unsets and gets, the answers are those of a plain map that tells absent from NULL |
| IniText.SpaceCodes | iniparser-main/iniparser.c:102-105 | the blanks are the codes 9 to 13 and 32 |
| IniText.LowerLetters | iniparser-main/iniparser.c:48-60 | the capital letters are put in lower case, and nothing else changes |
| IniText.StripUnique | iniparser-main/iniparser.c:94-112 | stripping a trimmed text with blanks around it gives that text |
| IniText.StripTrimmed | iniparser-main/iniparser.c:94-112 | stripping changes nothing exactly if no blank is at either end |
| IniText.StripInPlace | iniparser-main/iniparser.c:94-112 | the buffer holds the stripped text, and its length is returned |
| IniText.LowerInto | iniparser-main/iniparser.c:48-60 | at most len-1 characters are put in lower case, possibly in place |
| IniQuote.EscapeInto | iniparser-main/iniparser.c:250-268 | the buffer holds the escaped value; without a value it is left as it was |
| IniQuote.UnquoteEscaped | iniparser-main/iniparser.c:250-268 | an escaped value with a quote and any text behind it is read back as the value |
| IniQuote.EscapeValue | iniparser-main/iniparser.c:250-268 | the escaped text is at least as long as the value and at most twice as long |
| IniLineExactly.EscapeMarks | iniparser-main/iniparser.c:250-268 | a backslash is put in front of each backslash and each double quote, and of nothing else |
| IniLineExactly.UnquoteMarks | iniparser-main/iniparser.c:676-712 | unquoting takes characters as they are and what follows a backslash literally, up to the first quote of its kind or the end of the line |
| IniLineExactly.MarksOf | iniparser-main/iniparser.c:676-712 | every text has this form |
| IniQuote.ParseQuotedValue | iniparser-main/iniparser.c:676-712 | the buffer holds the unquoted value; the write index never passes the read index |
| IniLine.AssignmentExactly | iniparser-main/iniparser.c:757-796 | the formats find a key and a value exactly if something stands in front of a sign of equality, and the key is what stands there |
| IniLineExactly.LineExactly | iniparser-main/iniparser.c:735-796 | of the trimmed text of a line: empty, a remark exactly if it starts with `#` or `;`, a section exactly if it stands in brackets, an entry exactly if it is none of these and a sign of equality follows some other first character, and else an error |
| IniLineExactly.LineParted | iniparser-main/iniparser.c:94-112 | every line is blanks, a trimmed text, and blanks |
| IniLineExactly.QuotedExactly | iniparser-main/iniparser.c:757-767 | a value that starts with a quote of either kind is unquoted by that quote |
| IniLineExactly.PlainExactly | iniparser-main/iniparser.c:768-792 | any other value, the empty one included, ends in front of the first `;` or `#` and is stripped |
| IniLine.QuotesAreNeverPlain | iniparser-main/iniparser.c:768-779 | a value read without quotes is never a bare pair of quotes, so the special case never applies |
| IniLine.ReadAssignment | iniparser-main/iniparser.c:757-796 | the buffers hold key and value as the first format that matches gives them |
| IniLine.ReadSection | iniparser-main/iniparser.c:745-756 | the buffer holds the name between the brackets, stripped and in lower case |
| IniLine.ReadLine | iniparser-main/iniparser.c:724-800 | status and buffers tell what the line is; the section buffer changes only for a section line |
| IniLoad.FGets | iniparser-main/iniparser.c:843-846 | the buffer holds the pending text and the next piece of the file, and the end of the file is seen exactly if a piece without line break does not fill the room |
| IniLoad.TrimLine | iniparser-main/iniparser.c:857-865 | the blanks at the end of the buffer are cut off |
| IniLoad.EntryName | iniparser-main/iniparser.c:884-884 | section, colon and key fit the buffer of 2050 bytes |
| IniLoad.ReadPiece | iniparser-main/iniparser.c:843-873 | one read: too short, too long, to be continued, or a whole line, as the reference loader has it |
| IniLoad.EnterLine | iniparser-main/iniparser.c:874-899 | a section line makes an entry and changes the section, a value line makes an entry under the section, an error is counted |
| IniLoad.LoadFile | iniparser-main/iniparser.c:816-912 | null exactly if a line is too long or in error, else a store with the entries of the reference loader |
| IniSections.GetNSec | iniparser-main/iniparser.c:167-182 | the number of keys without a colon |
| IniSections.GetSecName | iniparser-main/iniparser.c:198-218 | the n-th of them in slot order, none outside 0..nsec-1 |
| IniSections.FindEntry | iniparser-main/iniparser.c:623-630 | whether the entry, in lower case and cut to 1024 characters, is in the dictionary |
| IniSections.NamesAreSections | iniparser-main/iniparser.c:198-218 | the names enumerate every key without a colon exactly once |
| IniSections.GetSecNKeys | iniparser-main/iniparser.c:355-379 | the number of keys with the section in lower case and a colon in front, if the section is an entry |
| IniSections.GetSecKeys | iniparser-main/iniparser.c:397-421 | exactly these keys are filled in, and the rest of the array is kept |
| IniSections.PrefixIsSection | iniparser-main/iniparser.c:366-375 | the comparison with the prefix selects the keys whose text before the first colon is the section in lower case |
| IniSections.KeysOfBothKinds | iniparser-main/iniparser.c:174-180 | sections and keys with a colon are all the keys |
| IniSections.CountedExactly | iniparser-main/iniparser.c:370-375 | a key is counted by its section, and once exactly if its section has one spelling |
| IniSections.CountsMembers | iniparser-main/iniparser.c:364-364 | a section without entry has no keys to count either, if every key has its section |
| IniSections.Partition | iniparser-main/iniparser.c:167-218 | the number of sections and of their keys add up to `n` exactly if no section with keys has a second spelling |
| IniSections.TwoSpellings | iniparser-main/iniparser.c:355-379 | with `Sec` and `sec` the sum is larger |
| IniDump.DumpEntries | iniparser-main/iniparser.c:335-342 | one line for each key with the prefix, the key padded to 30, with the state of the escape buffer carried over NULL values |
| IniDump.DumpSection | iniparser-main/iniparser.c:321-345 | the header, the entries and the blank lines of a section, or nothing if its name in lower case is no entry or too long |
| IniDump.DumpIni | iniparser-main/iniparser.c:281-307 | the text of all sections in slot order, or of all keys as they are if there is none |
| IniDump.EntryShape | iniparser-main/iniparser.c:340-340 | a key in a section is filled up with blanks to 30 characters; the value is in double quotes |
| IniDump.DumpOne | iniparser-main/iniparser.c:304-345 | the file of a section with one entry, in its characters |
| IniDump.DumpFlatOne | iniparser-main/iniparser.c:291-298 | the line of an entry without section, with its whole key |
| IniLineRoundTrip.EntryReadsBackExactly | iniparser-main/iniparser.c:340-340 | the line of an entry is read back as its key and value exactly if the key is non-empty, trimmed, in lower case, without a sign of equality and no comment |
| IniLineRoundTrip.SectionReadsBackExactly | iniparser-main/iniparser.c:745-756 | a section line is read back exactly if the name is trimmed and in lower case |
| IniLineRoundTrip.PlainReadsBack | iniparser-main/iniparser.c:768-780 | a value without quotes is read up to a remark, without the blanks around it |
| IniLineRoundTrip.NothingReadsBack | iniparser-main/iniparser.c:781-792 | a key with nothing behind the sign has an empty value |
| IniLines.LoadLine | iniparser-main/iniparser.c:843-911 | a whole line that fits the buffer is entered as what it is, with what was kept of the lines before, and reading goes on behind it |
| IniLines.LoadHalf | iniparser-main/iniparser.c:866-870 | a line whose last character but for blanks is a backslash is kept, without it, for the next read |
| IniLines.LoadContinued | iniparser-main/iniparser.c:866-873 | a line that ends in a backslash is joined with the next one |
| IniLines.LoadTooLong | iniparser-main/iniparser.c:848-856 | a line that makes 1023 characters or more with what was kept is an error, even at the end of the file |
| IniLines.LoadLast | iniparser-main/iniparser.c:843-847 | at the end of the file a line needs no line break, unless it is a single character, which is lost |
| IniLines.LoadHarmless | iniparser-main/iniparser.c:874-877 | loading goes on behind a blank line or a remark as if it were not there |
| IniLines.LoadRefuses | iniparser-main/iniparser.c:889-911 | a file with a line in error is not loaded, whatever stands in front of it or behind |
| IniLines.LoadLines | iniparser-main/iniparser.c:843-911 | a file of whole lines is the dictionary of its lines entered one after the other |
| IniLines.LoadedExactly | iniparser-main/iniparser.c:907-911 | such a file is refused exactly if one of its lines is neither blank, nor a remark, nor in brackets, nor has a sign of equality behind some other first character |
| IniRoundTrip.DumpThenLoad | iniparser-main/iniparser.c:281-345 | a dumped file loads without error and brings back every key, an entry without a value with the last value in front of it |
| IniRoundTrip.DumpThenLoadExactly | iniparser-main/iniparser.c:816-912 | it loads as the same map exactly if sections and nothing else have no value |
| IniSave.FlatDumpThenLoad | iniparser-main/iniparser.c:291-298 | a dumped dictionary without sections loads as exactly its keys with a colon in front, an entry without a value with the last value in front of it |
| IniSave.FlatChanges | iniparser-main/iniparser.c:291-298 | which is the same map exactly if it is empty |
| IniSave.SaveAndLoad | iniparser-main/iniparser.c:281-345 | the dumper and the loader as they run on stores and buffers: the map that comes back, with sections or without, and exactly when it is the same |
| PcmPointers.PickBoundary | ffmpeg_sample/pcm.c:729-732 | a power-of-two multiple of the buffer size, the last one the loop allows; at least two buffers and with one more inside an int exactly if three buffers fit an int |
| PcmPointers.MoveTracks | ffmpeg_sample/pcm.c:828-837 | each move of either side keeps the pointers equal to the counts of frames modulo the boundary |
| PcmPointers.RunTracks | ffmpeg_sample/pcm.c:828-837 | so does every run of moves: the application pointer stays between 0 and the boundary, the hardware pointer below it |
| PcmPointers.PlaybackAvailExactly | ffmpeg_sample/pcm.c:797-809 | the free space is exact except when the ring is full and only the application pointer has wrapped, where it reads as the boundary |
| PcmPointers.CaptureAvailExactly | ffmpeg_sample/pcm.c:811-817 | the frames to be read are exact in every state |
| PcmPointers.AvailOverRuns | ffmpeg_sample/pcm.c:797-837 | both in every state that a run from the start reaches |
| PcmPointers.OverstatedIsReached | ffmpeg_sample/pcm.c:805-806 | the exception is reached in every ring of more than one frame |
| PcmPointers.OverstatedNeverReached | ffmpeg_sample/pcm.c:805-806 | and never in a ring of one frame |
| PcmRing.Pcm.Play | ffmpeg_sample/pcm.c:819-826 | what the hardware reads from the ring continues the frames that were written, in their order |
| PcmRing.SlotOfPointer | ffmpeg_sample/pcm.c:848-848 | the pointer modulo the buffer size is the slot of the next frame, also when the pointer stays on the boundary |
| PcmRing.Pcm.Begin | ffmpeg_sample/pcm.c:839-864 | the slot behind the last written frame, and the largest number of frames wanted, offered and contiguous |
| PcmRing.Pcm.AreasCopy | ffmpeg_sample/pcm.c:310-328 | exactly the frames from the offset on are replaced |
| PcmRing.Pcm.CopiedInPlace | ffmpeg_sample/pcm.c:324-326 | copied frames stand in the slots of their numbers, and frames still to be played are untouched |
| PcmRing.Pcm.Commit | ffmpeg_sample/pcm.c:866-873 | the frames join what was written |
| PcmRing.Pcm.Round | ffmpeg_sample/pcm.c:338-349 | one round hands over all frames or ends at the end of the ring |
| PcmRing.Pcm.TransferAreas | ffmpeg_sample/pcm.c:330-352 | with room for all frames and any progress of the hardware: two rounds at most, all frames appended, frame t in slot t modulo the buffer size, and every unplayed frame in place |
| ImageQueue.ImageQueue.Allocate | queue/queue.c:37-53 | a turn of the waiting loop: blocked while the block at the head is in use, else that block, marked, and the head moved on |
| ImageQueue.ImageQueue.Release | queue/queue.c:56-73 | the block is free and the tail moved on; an unknown address changes nothing |
| ImageQueue.ImageQueue.constructor | queue/queue.c:21-34 | five distinct free blocks |
| ImageQueue.StepKeeps | queue/queue.c:37-73 | every step of every thread keeps blocks in use and blocks held the same |
| ImageQueue.HeldOnce | queue/queue.c:41-48 | no block is held twice |
| ImageQueue.ReusedAfterRelease | queue/queue.c:41-48 | a block is handed out again only after its release |
| ImageQueue.Ownership | queue/queue.c:37-73 | over every interleaving: the k-th allocation is slot k modulo 5, held blocks are distinct, and a block allocated again was released before |
| ImageQueue.InUseFromTailToHead | queue/queue.c:46-64 | the blocks in use are the slots from the tail up to the head exactly if the oldest are released first |
| ImageQueue.OutOfOrder | queue/queue.c:60-64 | a run that releases a newer block first leaves a block in use outside of them |

## Left out

- Floating point in cJSON: numbers are reals, so `pow`, rounding and the `%e` and `%f` formats play no part; printing is modelled for the integers of 32 bits. Converting a number outside of int is open in C and taken as INT_MIN.
- Reading past the end of the text: a literal with incomplete escapes, an unterminated comment or literal for the minifier is an outcome of its own in the reference functions, and the methods on buffers require that it does not occur.
- JsonPrintAlloc.AllocValue: the printers only read the tree, so they walk over a value instead of linked nodes; freeing the intermediate buffers is not modelled.
- JsonPrintBuffered.PrintBuffered: sizes are limited to 2^30, where doubling stays inside an int.
- Allocation failures, allocator hooks, the error position of cJSON and the error callback of iniparser. Freed addresses are never handed out again.
- The flag bits of a node's type are fields of their own.
- cJSON: access by name or index, edits by name, references and constant names as they are created, the constructors of single items and arrays. They are walks and assignments around what is modelled.
- Characters are unsigned bytes; `isspace` and `tolower` are those of the C locale.
- Files are texts without NUL, read by `fgets` and written by `fprintf`; opening and closing them is left out. The sscanf formats are functions, since the library is not part of the repository.
- IniLine.ReadLine: a line has no line break in it, as the loader guarantees.
- IniDump.DumpIni: values of at most 1024 characters and section names of at most 1023, as the buffers on the stack demand.
- iniparser: `iniparser_set` and `iniparser_unset` with their copies of key and value, `iniparser_dump`, and the conversions to numbers and booleans.
- dictionary: `dictionary_del` and `dictionary_dump`.
- PCM: the ioctl, mmap and poll calls, opening and parameters of a device, underruns, and waiting in `pcm_mmap_transfer`. The hardware is a step that plays some of the frames that were written. Frames are elements of the ring, not bytes.
- PcmRing.Pcm.TransferAreas: only playback is carried through to the frames; capture is modelled by its pointers.
- Image blocks: whether a waiting thread is ever woken, the memory of the blocks, and `queue_destroy`.
