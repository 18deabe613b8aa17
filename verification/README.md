# Models of the cJSON library and of the SmartCam data path

This project models two parts of the repository in Dafny 4.11 and proves what they promise.

The first part is the JSON library in `external/cJSON`:

- `Prelude`, `Decimal`, `Json`: bytes, C strings, numerals, and JSON trees. A tree keeps its members in list order;
  `Meaning` maps it to a value whose objects are maps, with keys compared with or without case (the flag `cased`).
- `Utf8`, `StringCodec`, `StringLaws`: string literals, the estimated buffer they are decoded into, and escaping.
- `Parser`, `ParseBuffer`: the recursive-descent parser, as a function of buffer and offset and as methods of a buffer object.
- `Grammar`, `Derivation`, `ParserLaws`: the grammar of RFC 8259 and the acceptance of every text it derives, the looser grammar
  of all that is accepted, and texts with a byte order mark.
- `PrintText`, `PrintBuffer`, `Reparse`: the printed text, the growing buffer it is written to, and the round trips through
  the parser.
- `Layout`: the printed text as a document of the grammar, with its line breaks and indentation.
- `Minify`, `MinifyParts`, `MinifyMeaning`: the in-place minifier, what it removes, and what it preserves.
- `MinifyLayout`, `FormattedText`: minifying documents and formatted text.
- `JsonText`: what printing, parsing and minifying promise together.
- `ChildList`, `SortList`, `Sorting`: the doubly linked child list and its in-place merge sort, on the heap.
- `HeapObject`: what these do to the members that the linked items stand for.
- `Compare`, `CaseOrder`: the two equality tests, and keys for which case makes no difference.
- `Pointer`: JSON Pointer (RFC 6901).
- `PatchApply`, `PatchMeaning`, `PatchCreate`, `PatchMinimal`: JSON Patch (RFC 6902), applied and generated.
- `MergePatch`: JSON Merge Patch (RFC 7396), applied and generated.

The second part is the SmartCam data path and its updater:

- `FramePool`, `FramePoolProtocol`, `FramePoolProgress`: the two frame queues, and the capturing and the sending thread as a
  state machine over their lock, test, wait, signal, unlock and copy steps.
- `BsPatch`, `Updater`: the difference patch, and the upgrade of a partition with crashes and retries at every step.
- `Md5`, `Md5Values`, `Folding`: streaming MD5 (RFC 1321).
- `Crc`: the word-at-a-time and byte-at-a-time CRC-32 and the table-driven and bitwise CRC-16.
- `Checksum`: the Internet checksum (RFC 1071) of the ping utility.

`dafny verify dfyconfig.toml` checks everything.

## What the code does that its documentation does not say

- `decode_pointer_inplace` does not move plain bytes behind an escape and writes a slash one place too far
  (external/cJSON/cJSON_Utils.c:359-390), so patches on most keys with `~` or `/` fail; `Pointer.InPlaceUndoesExactly` says on
  which. `detach_path` ignores case even in the case-sensitive variant (external/cJSON/cJSON_Utils.c:466);
  `PatchMeaning.DetachPathExactly` says when that matters. `PatchCreate.PatchRoundTripIff` says what both mean for round trips.
- `generate_merge_patch` compares by `strcmp` what it has sorted without case (external/cJSON/cJSON_Utils.c:1423), and recurses
  without case in either variant (:1455). From {"a":1,"B":2} to {"B":2} the patch adds "B" and then removes it, while
  {"A":1,"B":2} to {"B":2} works. `MergePatch.MergeRoundTripIff` gives the exact condition on the keys.
- `minify_string` takes every backslash before a quote for an escape (external/cJSON/cJSON.c:2874), so that a literal ending in an
  escaped backslash swallows what follows, up to the next literal (`Minify.SwallowsNext`), and the next literal may lose its
  white space. `JsonText.MinifyPreservesIff` says when the value changes, `FormattedText.FormattedMinifiedIff` when minifying
  formatted text does not give the unformatted text.
- `decode_array_index_from_pointer` tests the first byte where it means the current one (external/cJSON/cJSON_Utils.c:285).
- `sort_list` leaves the first item's `prev` null if another item has come first, and else pointing at the old last item.
  `add_item_to_array` then drops what is added, or puts it behind the old last item and so loses the items sorted behind that one
  (`SortList.AddAfterSorting`). So patches are applied to a duplicate of a sorted tree; duplicates have it right
  (`ChildList.Item.LinkAll`).
- `flash_normal` stores a comparison where it means the size of the done file, and removes the new image file even after a
  failed partition write (project/SmartCam/app/update_engine/flash_image.c:225 and :278-288).
- A retry takes a complete new image file for verified without syncing it (project/SmartCam/app/update_engine/do_patch.c:144-148).
  If the process died between the byte that completes the file and the sync, a power loss during the retry can lose both images
  (`Updater.UnsyncedDeathLosesBoth`); `Updater.DeathSafeIff` says that no other death can.

## Model

| member | source | states |
|---|---|---|
| `StringCodec.ParseHex4` | external/cJSON/cJSON.c:634-667 | the digit loop gives the number that the four bytes spell in base 16, in any mix of the digits 0 to 9, a to f and A to F, and 0 if they spell none |
| `StringCodec.HexDigitExactly` | external/cJSON/cJSON.c:641-655 | a byte is digit d exactly if it is the d-th of 0123456789abcdef or of 0123456789ABCDEF, and every other byte is refused |
| `StringCodec.HexTextRead` | external/cJSON/cJSON.c:634-667 | four digits, each in either case, are read as the number they spell |
| `StringCodec.FourHexSpelled` | external/cJSON/cJSON.c:634-667 | and whatever is read as four digits spells the number read |
| `StringCodec.Utf16LiteralToUtf8` | external/cJSON/cJSON.c:671-789 | writes exactly the bytes of `Utf16At` at the output pointer and nothing before it; length 0 exactly for a rejected escape |
| `StringCodec.EstimateLength` | external/cJSON/cJSON.c:806-836 | the first pass finds that quote and skips one byte for each escape |
| `StringCodec.Jump` | external/cJSON/cJSON.c:806-830 | two bytes behind a token boundary hold at least one token, wherever one lands |
| `StringCodec.StepFits` | external/cJSON/cJSON.c:838-896 | whatever one step of the second pass writes fits the room left, and the rest still fits behind it, also when the passes disagree about boundaries |
| `StringCodec.DecodeInto` | external/cJSON/cJSON.c:831-896 | for every literal the decoded bytes fit the estimated allocation with a byte to spare beside the terminator, and are the bytes of the token-wise decoding |
| `StringCodec.ParseString` | external/cJSON/cJSON.c:792-919 | the two-pass routine in its buffer returns the C string of the decoded bytes and the offset behind the closing quote, or fails, as `StringAt` says |
| `StringLaws.PassesDisagree` | external/cJSON/cJSON.c:792-919 | a literal on which the read pointer passes the closing quote |
| `StringLaws.EscapeIsCharacter` | external/cJSON/cJSON.c:687-789 | a `\u` escape is accepted exactly if it is no lone surrogate (section 7 of RFC 8259), and then yields the one UTF-8 character of its code point |
| `Utf8.EncodedIsValid` | external/cJSON/cJSON.c:733-783 | the encoder's bytes for a scalar value are one well-formed character (section 4 of RFC 3629) that decodes to it (section 3) |
| `Utf8.CharacterIsEncoded` | external/cJSON/cJSON.c:735-780 | and whatever section 4 of RFC 3629 takes for a character is the encoding of the scalar value it stands for |
| `Utf8.EncoderBits` | external/cJSON/cJSON.c:764-781 | the encoder's bit operations are the sums the model uses |
| `Utf8.SurrogateBits` | external/cJSON/cJSON.c:725-726 | the bit combination of a surrogate pair is the sum the model uses |
| `Utf8.Encode` | external/cJSON/cJSON.c:764-783 | the backward loop writes the character's bytes |
| `StringLaws.DecodeKeepsUtf8` | external/cJSON/cJSON.c:838-896 | decoding a valid UTF-8 literal whose `\u` are followed by four hexadecimal digits gives valid UTF-8 |
| `StringLaws.StringKeepsUtf8` | external/cJSON/cJSON.c:792-919 | the same for the whole of `parse_string`, also when a NUL cuts the string short |
| `StringLaws.QuotedReadBack` | external/cJSON/cJSON.c:792-1041 | parsing a printed string gives it back and ends right behind it, for every NUL-free byte string |
| `PrintBuffer.CountEscapes` | external/cJSON/cJSON.c:948-973 | the counting pass predicts the escaped length exactly |
| `PrintBuffer.WriteQuoted` | external/cJSON/cJSON.c:982-1038 | the escaped bytes, the closing quote right behind them, and the NUL |
| `ParseBuffer.ParseBuffer.SkipWhitespace` | external/cJSON/cJSON.c:1058-1081 | the offset moves to `Skip`, with the step back at the end of the buffer |
| `ParseBuffer.ParseBuffer.ParseNumber` | external/cJSON/cJSON.c:307-381 | the copy of at most 63 bytes, what `strtod` takes of it, and the new offset; the value of an integer, or else its literal |
| `ParseBuffer.ParseBuffer.ParseStringItem` | external/cJSON/cJSON.c:792-919 | the string and the new offset |
| `ParseBuffer.ParseBuffer.ParseValue` | external/cJSON/cJSON.c:1336-1388 | the value at the offset, the offset behind it and the same depth, or failure, exactly as `ValueAt` |
| `ParseBuffer.ParseBuffer.ParseArray` | external/cJSON/cJSON.c:1465-1560 | the array at the offset, refused beyond 1000 levels; depth restored |
| `ParseBuffer.ParseBuffer.ParseItems` | external/cJSON/cJSON.c:1498-1540 | its loop collects the elements in order |
| `ParseBuffer.ParseBuffer.ParseObject` | external/cJSON/cJSON.c:1625-1740 | the object at the offset, refused beyond 1000 levels; depth restored |
| `ParseBuffer.ParseBuffer.ParseMembers` | external/cJSON/cJSON.c:1656-1718 | its loop collects the members in order |
| `ParseBuffer.ParseBuffer.ParseName` | external/cJSON/cJSON.c:1681-1706 | a member's name and colon |
| `ParseBuffer.ParseBuffer.ParseWithLengthOpts` | external/cJSON/cJSON.c:1115-1160 | byte order mark, white space, value, and the required end |
| `Grammar.ShortEscapesExactly` | external/cJSON/cJSON.c:855-890 | the short escapes are the eight of section 7 of RFC 8259 with the characters listed there, and no others |
| `Grammar.TokensExactly` | external/cJSON/cJSON.c:1336-1388 | brackets, braces, colon, comma, quote, minus, point, the three words and the ten digits are those of RFC 8259 |
| `Decimal.DigitsAreDecimal` | external/cJSON/cJSON.c:307-381 | the ten digits count for their powers of ten |
| `Grammar.StringRead` | external/cJSON/cJSON.c:792-919 | every string of section 7 of RFC 8259, with its escapes in either case of the digits and surrogate pairs, is read as its characters in UTF-8, up to an escaped NUL |
| `Grammar.NumeralRead` | external/cJSON/cJSON.c:307-381 | every numeral of section 6 of RFC 8259 of at most 63 bytes that no number byte follows is taken whole, by value if it is an `int` |
| `Grammar.DocRead` | external/cJSON/cJSON.c:1336-1388 | every value of the grammar of RFC 8259, at any place of a buffer, is parsed to what it stands for, and the parse ends right behind it |
| `Grammar.TextAccepted` | external/cJSON/cJSON.c:1115-1160 | every text of the grammar of RFC 8259 nested at most 1000 deep, with such numerals and no lone surrogate, is accepted as a whole with its value |
| `ParserLaws.MarkSkipped` | external/cJSON/cJSON.c:1084-1098 | a non-empty text behind a byte order mark is parsed like the text alone, three bytes later, unless it begins with another mark |
| `Derivation.ValueDerives` | external/cJSON/cJSON.c:1336-1388 | whatever value is accepted, at any place and depth, is a text with brackets, braces, commas and colons where RFC 8259 has them, of the shape of the tree parsed; only its white space, numbers and strings are looser |
| `Derivation.TextDerives` | external/cJSON/cJSON.c:1115-1160 | so is every text accepted as a whole, behind an optional byte order mark |
| `Layout.TextLaid` | external/cJSON/cJSON.c:1391-1462 | what is printed, formatted or not, is a document of RFC 8259's grammar with the tree as its value: formatted, each member on a new line indented by its depth, a line break before a closing brace, a tab behind the colon, a space before each element but the first; unformatted, no white space |
| `PrintText.NumberReadBack` | external/cJSON/cJSON.c:307-381 | a printed `int` that no number byte follows is parsed back whole |
| `PrintText.ItemsReadBack` | external/cJSON/cJSON.c:1498-1540 | the printed elements of an array are parsed back in order up to the bracket |
| `PrintText.MembersReadBack` | external/cJSON/cJSON.c:1656-1718 | the printed members of an object are parsed back in order up to the brace |
| `PrintText.ValueReadBack` | external/cJSON/cJSON.c:1336-1388 | a printed value, at any place of a buffer and any indentation, is parsed back and the parse ends right behind it |
| `JsonText.TreeRoundTrip` | external/cJSON/cJSON.c:1115-1160 | for every tree of integers, NUL-free strings and lists nested at most 1000 deep, formatted or not: parsing the printed text gives the same tree, member order included, and consumes exactly the text |
| `Reparse.ValueAccepted` | external/cJSON/cJSON.c:1336-1388 | whatever value is accepted is nested at most 1000 deep with its surroundings, and printable if its numbers are integers |
| `JsonText.ReparseStable` | external/cJSON/cJSON.c:1115-1160 | for every accepted buffer whose numbers are integers, whatever its white space and escapes: printing the tree and parsing the text gives the same tree |
| `PrintBuffer.PrintBuffer.Ensure` | external/cJSON/cJSON.c:458-541 | room is given exactly if offset + needed + 1 bytes are within the limit (the length, or INT_MAX when it may grow); what was written is kept |
| `PrintBuffer.PrintBuffer.Emit` | external/cJSON/cJSON.c:458-541 | every piece written lies inside what `ensure` reserved |
| `PrintBuffer.PrintBuffer.UpdateOffset` | external/cJSON/cJSON.c:544-554 | the offset moves to the NUL |
| `PrintBuffer.PrintBuffer.PrintStringPtr` | external/cJSON/cJSON.c:922-1041 | succeeds exactly if the quoted string and two more bytes fit |
| `PrintBuffer.PrintBuffer.PrintNumber` | external/cJSON/cJSON.c:564-631 | the same for an integer; no other number is printed |
| `PrintBuffer.PrintBuffer.PrintItem` | external/cJSON/cJSON.c:1584-1608 | one element and its separator |
| `PrintBuffer.PrintBuffer.PrintArray` | external/cJSON/cJSON.c:1563-1622 | the same for an array, its text and NUL behind what was there; depth restored |
| `PrintBuffer.PrintBuffer.PrintMember` | external/cJSON/cJSON.c:1770-1834 | one member with indentation, colon and line end |
| `PrintBuffer.PrintBuffer.PrintObject` | external/cJSON/cJSON.c:1743-1854 | the same for an object |
| `PrintBuffer.PrintBuffer.PrintValue` | external/cJSON/cJSON.c:1391-1462 | printing succeeds exactly if the text and two more bytes fit the limit, and then the buffer holds the text and its NUL |
| `PrintBuffer.PrintPreallocated` | external/cJSON/cJSON.c:1316-1333 | succeeds exactly if the given length is at least the text's length plus two (so the five extra bytes cJSON.h asks for suffice), and writes the same bytes as the growing printer |
| `PrintBuffer.Print` | external/cJSON/cJSON.c:1207-1283 | the growing printer returns the text, for every text that fits an `int` |
| `Minify.MinifyString` | external/cJSON/cJSON.c:2860-2880 | the literal is copied, the unread text untouched, and the write pointer stays at or before the read pointer |
| `Minify.SkipOnelineComment` | external/cJSON/cJSON.c:2833-2844 | a line comment is left behind its first line feed, or at the end if it has none |
| `Minify.SkipMultilineComment` | external/cJSON/cJSON.c:2846-2858 | a block comment is left behind its end or at the end of the text |
| `Minify.MinifyInPlace` | external/cJSON/cJSON.c:2882-2928 | the buffer ends up with the minified text, never longer than the text |
| `Minify.MinifyTwice` | external/cJSON/cJSON.c:2882-2928 | a second minify changes nothing, for every text |
| `MinifyParts.PartsMinified` | external/cJSON/cJSON.c:2882-2928 | a text cut, by its bytes, into literals, plain bytes, the four blanks, line comments up to their first line feed or the end, block comments up to their first star-slash or the end, and lone slashes, is minified to its literals and plain bytes in order, from any place on |
| `MinifyParts.MinifiedIsEssence` | external/cJSON/cJSON.c:2833-2928 | every text can be cut so, and every such cutting tells what it is minified to |
| `MinifyLayout.DocMinified` | external/cJSON/cJSON.c:2882-2928 | a document of RFC 8259's grammar none of whose strings ends in an escaped backslash is minified to the same document without white space |
| `FormattedText.FormattedMinifiedIff` | external/cJSON/cJSON.c:2860-2928 | for every printable tree: minifying its formatted text gives its unformatted text if and only if no string or key ends in a backslash, but for a string with nothing behind it but brackets |
| `Minify.LiteralTakenExactly` | external/cJSON/cJSON.c:2860-2880 | `minify_string` takes exactly the literal if and only if the literal does not end in an escaped backslash or nothing follows it |
| `Minify.SwallowsNext` | external/cJSON/cJSON.c:2860-2880 | a literal that does so end swallows what follows up to and with the opening quote of the next one, or the rest of the text |
| `MinifyMeaning.SkipRelated` | external/cJSON/cJSON.c:1058-1081 | white space skipped in a text and in its minified form leads to the same byte |
| `MinifyMeaning.StringRelated` | external/cJSON/cJSON.c:792-919 | a literal is parsed alike before and after minifying, unless minifying drops a byte of it |
| `MinifyMeaning.LiteralCut` | external/cJSON/cJSON.c:2860-2880 | a literal without NULs that loses white space and no slash is decoded to a shorter string |
| `MinifyMeaning.ValueRelated` | external/cJSON/cJSON.c:1336-1388 | a value at corresponding places is parsed alike, or a literal in it has lost a byte and another value or none is parsed |
| `MinifyMeaning.FineIsKept` | external/cJSON/cJSON.c:2860-2880 | if no literal but the last ends in an escaped backslash, minifying drops no byte of a literal |
| `JsonText.MinifyPreserves` | external/cJSON/cJSON.c:2882-2928 | a text accepted as a whole is accepted after minifying and gives the same tree, if minifying drops no byte of a literal, as when no literal but the last ends in an escaped backslash |
| `JsonText.MinifyPreservesIff` | external/cJSON/cJSON.c:2882-2928 | for accepted texts without strings cut short by a NUL, from whose literals minifying drops at most white space: the minified text gives the same tree if and only if it drops none |
| `JsonText.MinifyChangesValue` | external/cJSON/cJSON.c:2874 | a text whose first of two literals ends in an escaped backslash and whose value minifying changes |
| `ChildList.Item.GetArrayItem` | external/cJSON/cJSON.c:1880-1897 | the item at an index, or none |
| `ChildList.Item.AddItemToArray` | external/cJSON/cJSON.c:1985-2016 | appends to a well-formed list and keeps it well formed; if the first `prev` names another item than the last, the item goes behind that one and the rest of the list is lost, and if it is null the item is dropped |
| `ChildList.Item.DetachItemViaPointer` | external/cJSON/cJSON.c:2216-2250 | removes just that item, unlinks it and keeps the list well formed |
| `ChildList.Item.InsertItemInArray` | external/cJSON/cJSON.c:2292-2324 | inserts at an index, or appends past the end; refuses a negative index |
| `ChildList.Item.ReplaceItemViaPointer` | external/cJSON/cJSON.c:2326-2373 | puts the replacement in the same place and keeps the list well formed |
| `ChildList.Item.LinkAll` | external/cJSON/cJSON.c:2790-2822 | items linked one behind the other, as in parsing and duplicating, form a well-formed list in order |
| `ChildList.Item.DetachItemFromArray` | external/cJSON/cJSON_Utils.c:393-427 | the utilities' variant removes the item at an index and keeps the list well formed |
| `ChildList.Item.InsertItemAt` | external/cJSON/cJSON_Utils.c:693-728 | the utilities' variant inserts at an index and refuses one past the end |
| `HeapObject.LookUp` | external/cJSON/cJSON.c:1909-1939 | on the linked items, whatever values they stand for: the item `Find` says, or none |
| `HeapObject.DetachItemFromObject` | external/cJSON/cJSON.c:2267-2289 | on the linked items, the members left are those of `RemoveKey`; the item is unlinked |
| `HeapObject.ReplaceMember` | external/cJSON/cJSON_Utils.c:1006-1017 | on the linked items, deleting a key and adding an item leaves the members that patching and merging on values leave |
| `HeapObject.SortAlike` | external/cJSON/cJSON_Utils.c:484-593 | the members of sorted items are the sorted members |
| `HeapObject.SortMembersOf` | external/cJSON/cJSON_Utils.c:595-602 | so sorting an object on the heap leaves the members that comparing and generating on values take |
| `Json.Find` | external/cJSON/cJSON.c:1909-1939 | the first member whose key matches, and no earlier one does |
| `Json.GetObjectItem` | external/cJSON/cJSON.c:1909-1939 | the lookup loop finds it |
| `Json.DuplicateRec` | external/cJSON/cJSON.c:2747-2831 | the recursive copy is built child by child |
| `Json.DuplicateExact` | external/cJSON/cJSON.c:2747-2831 | a duplicate is the same value, and exists exactly up to the nesting limit |
| `Json.MeaningAt` | external/cJSON/cJSON.c:1909-1939 | what a lookup finds is what the object means as a map |
| `Json.RemoveMeaning` | external/cJSON/cJSON.c:2267-2289 | removing the first match removes the key, if keys are unique |
| `Json.AppendMeaning` | external/cJSON/cJSON.c:2040-2075 | adding a member with a new key adds it to the map |
| `Json.MeaningOfPermutation` | external/cJSON/cJSON_Utils.c:595-602 | with unique keys member order does not matter |
| `Prelude.CompareStrings` | external/cJSON/cJSON_Utils.c:83-109 | the byte loop gives the sign of the lexicographic order, with or without case |
| `Prelude.LexExactly` | external/cJSON/cJSON_Utils.c:83-109 | one string is below another exactly if it ends or has the smaller byte at their first difference |
| `Prelude.LowerExactly` | external/cJSON/cJSON_Utils.c:100-108 | `tolower` takes the 26 capital letters to the small ones and leaves every other byte |
| `Prelude.LexTransitive` | external/cJSON/cJSON_Utils.c:83-109 | that order is transitive |
| `Sorting.SortPermutes` | external/cJSON/cJSON_Utils.c:484-593 | sorting keeps exactly the input items |
| `Sorting.SortSorted` | external/cJSON/cJSON_Utils.c:484-593 | sorting yields non-decreasing key order |
| `Sorting.EqualKeysSwap` | external/cJSON/cJSON_Utils.c:536-545 | the sort is not stable: of two equal keys the second comes first |
| `SortList.IsAscending` | external/cJSON/cJSON_Utils.c:498-507 | the test for a chain that is ascending already |
| `SortList.FindHalf` | external/cJSON/cJSON_Utils.c:509-521 | two pointers find where the second half begins |
| `SortList.Split` | external/cJSON/cJSON_Utils.c:522-527 | the chain is cut in two chains |
| `SortList.MergeLists` | external/cJSON/cJSON_Utils.c:534-592 | two chains of distinct items become the chain of their merge |
| `SortList.SortItems` | external/cJSON/cJSON_Utils.c:484-593 | on the linked items: the result is a null-ended chain of exactly the input items in the order of the sort, every later `prev` correct and the first one null, or as it was if the first item stays first; halves get strictly shorter |
| `SortList.SortObject` | external/cJSON/cJSON_Utils.c:595-602 | the children of an object, in any chain, are replaced by that chain; the list is well formed again exactly if it is empty or the first item stays first and its `prev` names the new last item, which for a well-formed list means that neither end has changed |
| `SortList.AddAfterSorting` | external/cJSON/cJSON_Utils.c:484-602 | adding to a sorted object appends exactly in that case; else the new item is dropped if the first item changed, or the items sorted behind the old last one are lost |
| `SortList.AddToThree` | external/cJSON/cJSON_Utils.c:484-602 | both happen to three members with distinct keys: in the order 1, 3, 2 the last one is lost, in the order 3, 1, 2 the new one is dropped |
| `Compare.CompareTrees` | external/cJSON/cJSON.c:3030-3153 | the recursive comparison with its two lookup loops, for numbers that are integers |
| `Compare.CompareIsEquality` | external/cJSON/cJSON.c:3030-3153 | with unique keys and integer numbers `cJSON_Compare` holds exactly of trees with the same meaning |
| `Compare.CompareInPlace` | external/cJSON/cJSON_Utils.c:604-690 | the comparison that sorts, with both arguments as it leaves them, for numbers that are integers |
| `Compare.CompareJsonIsEquality` | external/cJSON/cJSON_Utils.c:604-690 | with unique keys and integer numbers `compare_json` holds exactly of trees with the same meaning |
| `Compare.FastEqualsSlow` | external/cJSON/cJSON_Utils.c:604-690 | with unique keys and integer numbers the sorting comparison gives the verdict of the quadratic one |
| `Compare.CompareJsonKeeps` | external/cJSON/cJSON_Utils.c:604-690 | its sorting leaves both arguments what they mean, under either way of comparing keys |
| `Pointer.EncodeLaws` | external/cJSON/cJSON_Utils.c:173-196 | escaping is undone by section 4 of RFC 6901, leaves no slash, and keeps plain keys |
| `Pointer.PointerEncodedLength` | external/cJSON/cJSON_Utils.c:157-170 | the predicted length is the escaped length |
| `Pointer.EncodeStringAsPointer` | external/cJSON/cJSON_Utils.c:173-196 | writes the escaped string and its NUL and nothing else |
| `Pointer.ComparePointers` | external/cJSON/cJSON_Utils.c:120-154 | the loop over both strings gives the verdict of `Matches` |
| `Pointer.MatchesExactly` | external/cJSON/cJSON_Utils.c:120-154 | a name matches exactly if the next token is well escaped and stands for it, up to case where that is ignored |
| `Pointer.DecodeArrayIndexFromPointer` | external/cJSON/cJSON_Utils.c:274-299 | the loop as written, with its test of the first byte and its 64-bit sum |
| `Pointer.RfcIndexDecodes` | external/cJSON/cJSON_Utils.c:274-299 | every array index of RFC 6901 is decoded to its number |
| `Pointer.IndexAcceptedExactly` | external/cJSON/cJSON_Utils.c:274-299 | exactly which tokens are taken for an index: beyond the RFC the empty one and bytes above '9' behind a digit |
| `Pointer.LetterTakenForIndex` | external/cJSON/cJSON_Utils.c:285 | such a token |
| `Pointer.GetItemFromPointer` | external/cJSON/cJSON_Utils.c:301-346 | the loop walks to the node `Resolve` says |
| `Pointer.FindPointerFromObjectTo` | external/cJSON/cJSON_Utils.c:198-259 | the depth-first search with its loop over children |
| `Pointer.FindsTarget` | external/cJSON/cJSON_Utils.c:198-259 | the search finds a node exactly where it is and yields its pointer by sections 3 and 5 of RFC 6901 |
| `Pointer.ResolveUndoesPointerTo` | external/cJSON/cJSON_Utils.c:301-346 | case-sensitive resolution of that pointer gives the node |
| `Pointer.PointerRoundTrip` | external/cJSON/cJSON_Utils.c:198-346 | for every node of a tree with unique keys of any content: a pointer is found, and resolving it case-sensitively gives that same node |
| `Pointer.DecodePointerInPlace` | external/cJSON/cJSON_Utils.c:359-390 | the in-place loop as written |
| `Pointer.PlainStays` | external/cJSON/cJSON_Utils.c:359-390 | a token without a tilde is left as it is |
| `Pointer.InPlaceUndoesExactly` | external/cJSON/cJSON_Utils.c:359-390 | decoding in place undoes escaping exactly if the key has no slash and every byte that is no tilde stands where the escaped form has it |
| `Pointer.ChangedBeyondCase` | external/cJSON/cJSON_Utils.c:359-390 | a key that decoding in place does not give back is not given back up to case either, so no lookup finds it |
| `PatchApply.ApplyPatches` | external/cJSON/cJSON_Utils.c:1038-1094 | status 1 for a non-array; else status 0 with every patch applied to what the one before left, or the status and the tree of the first patch that fails behind patches that succeed |
| `PatchApply.OutcomeExactly` | external/cJSON/cJSON_Utils.c:1038-1094 | the run ends with status 0 and a tree exactly if there are trees from the document to it, each what the patch applied to the one before gives with status 0, and with another status exactly if some patch gives it behind such a chain |
| `PatchApply.LaterPatchNotMade` | external/cJSON/cJSON_Utils.c:1057-1060 | removing a member that is not there and then adding another ends with status 13 and an unchanged document |
| `PatchApply.StatusExactly` | external/cJSON/cJSON_Utils.c:843-1036 | status 13 exactly if there is nothing to remove, 7 exactly without a value, 8 exactly for one nested too deeply, and 9 to 11 for additions only |
| `PatchApply.PatchStatusExactly` | external/cJSON/cJSON_Utils.c:807-841 | status 2 exactly without a path string, 3 exactly for an operation that is none of RFC 6902's |
| `PatchApply.FailureLeaves` | external/cJSON/cJSON_Utils.c:843-1036 | a failing operation leaves the document as it was, except that a replacement without a value, or with one nested too deeply, has removed its target |
| `PatchApply.WordsExactly` | external/cJSON/cJSON_Utils.c:742-780 | the member names and operation names are those of RFC 6902, and the bytes of pointers those of RFC 6901 |
| `PatchApply.ReplaceIsRemoveAdd` | external/cJSON/cJSON_Utils.c:887-902 | replacing is removing and adding at the same place, as section 4.3 of RFC 6902 has it |
| `PatchMeaning.StepOfToken` | external/cJSON/cJSON_Utils.c:301-346 | the escaped token of any NUL-free key leads to the first member with a matching key, or to the array index, whatever follows it |
| `PatchMeaning.CaseMattersExactly` | external/cJSON/cJSON_Utils.c:466 | for all members and keys, the lookup that ignores case finds what the one with case finds exactly if no earlier member matches up to case |
| `PatchMeaning.DetachedExactly` | external/cJSON/cJSON_Utils.c:463-467 | so a case-sensitive removal takes the right child exactly then |
| `PatchMeaning.DetachPathExactly` | external/cJSON/cJSON_Utils.c:430-481 | for every tree and path: the case-sensitive `detach_path` removes what its path names exactly if no member of the parent before the named one, or none at all if there is none, matches it up to case |
| `PatchMeaning.PutMeaning` | external/cJSON/cJSON_Utils.c:807-1036 | changing a child changes what the tree means at that child only |
| `PatchMeaning.DetachIsRemove` | external/cJSON/cJSON_Utils.c:430-481 | `detach_path` succeeds exactly if the removal of RFC 6902 does, and leaves what it yields |
| `PatchMeaning.AttachIsAdd` | external/cJSON/cJSON_Utils.c:963-1020 | the end of `apply_patch` succeeds exactly if the addition of RFC 6902 does, and leaves what it yields |
| `PatchMeaning.ApplyIsRfc6902` | external/cJSON/cJSON_Utils.c:807-1036 | on unique keys that are decoded in place to themselves, distinct up to case in the case-sensitive variant, and indices as in RFC 6901: `apply_patch` returns 0 exactly if the operation of section 4 of RFC 6902 is possible, and then leaves what it yields |
| `PatchCreate.ComposePatch` | external/cJSON/cJSON_Utils.c:1096-1134 | appends the object with op, path and a duplicate of the value |
| `PatchCreate.CreatePatches` | external/cJSON/cJSON_Utils.c:1141-1279 | appends, below a path, the composed edits of the two values |
| `PatchCreate.CreateForItems` | external/cJSON/cJSON_Utils.c:1177-1190 | its loop over common elements |
| `PatchCreate.CreateForLeftovers` | external/cJSON/cJSON_Utils.c:1192-1210 | its loops over leftovers, all removed at the same index, and additions |
| `PatchCreate.CreateForMembers` | external/cJSON/cJSON_Utils.c:1215-1274 | its walk over two sorted objects |
| `PatchCreate.EditsReach` | external/cJSON/cJSON_Utils.c:1141-1279 | the generated operations, run by RFC 6902, lead from the old value to the new one |
| `PatchMinimal.NoEditsExactly` | external/cJSON/cJSON_Utils.c:1141-1279 | no operation is generated exactly if both trees mean the same |
| `PatchCreate.EditsApplicable` | external/cJSON/cJSON_Utils.c:1141-1279 | every generated operation has a usable path and value |
| `PatchCreate.ApplyRun` | external/cJSON/cJSON_Utils.c:1038-1094 | applying composed patches in order is the run of their operations by RFC 6902, every status 0 |
| `PatchCreate.PatchRoundTrip` | external/cJSON/cJSON_Utils.c:1141-1279 | for any two trees with such keys: applying the generated patches in order to any tree equal to the first, such as a duplicate, gives status 0 throughout and a tree equal to the second |
| `PatchCreate.PatchRoundTripIff` | external/cJSON/cJSON_Utils.c:1038-1279 | for every set of keys: all round trips between trees with these keys succeed if and only if every key is decoded in place to itself and, in the case-sensitive variant, no two keys match up to case |
| `PatchMeaning.SomeKeysDecode` | external/cJSON/cJSON_Utils.c:367-389 | the key a~ is decoded in place to itself, ~a and a/b are not |
| `PatchCreate.EscapedKeyLost` | external/cJSON/cJSON_Utils.c:367-389 | for every key that decoding in place changes, its removal from an object fails with status 13 |
| `PatchCreate.WrongCaseRemoved` | external/cJSON/cJSON_Utils.c:466 | for any two keys that match up to case, the case-sensitive removal of one takes the other if it stands first, and a round trip fails |
| `MergePatch.MergePatch` | external/cJSON/cJSON_Utils.c:1321-1379 | the loop over the patch members |
| `MergePatch.MergedIsRfc` | external/cJSON/cJSON_Utils.c:1321-1379 | merging succeeds exactly if every copied part can be duplicated, and then computes `MergePatch` of section 2 of RFC 7396 |
| `MergePatch.GenerateMergePatch` | external/cJSON/cJSON_Utils.c:1391-1471 | the walk over two sorted objects |
| `MergePatch.GeneratedIsDifference` | external/cJSON/cJSON_Utils.c:1391-1471 | for keys whose order case does not change, no patch is generated exactly for two equal objects, and otherwise the patch is their difference |
| `MergePatch.DifferenceMerges` | external/cJSON/cJSON_Utils.c:1391-1471 | merging the difference into the old value gives the new one if and only if no member of the new one is null where the old one has not the same null |
| `MergePatch.MergeRoundTrip` | external/cJSON/cJSON_Utils.c:1391-1471 | for such keys, generating and merging into a duplicate of the old value gives the new value if and only if the step is so expressible |
| `MergePatch.MergeRoundTripIff` | external/cJSON/cJSON_Utils.c:1391-1471 | for every set of keys compared without case: all round trips succeed if and only if lower-casing keeps the `strcmp` order of the keys strict |
| `MergePatch.OrderBreaks` | external/cJSON/cJSON_Utils.c:1423 | for any two keys whose order lower-casing reverses, the patch from {a:1,b:2} to {a:1} adds and then removes `a` |
| `MergePatch.CaseClashBreaks` | external/cJSON/cJSON_Utils.c:1423 | for any two keys that match up to case, the patch from {b:2} to {a:1} adds and then removes `a` |
| `MergePatch.BelowBreaks` | external/cJSON/cJSON_Utils.c:1455 | the case-sensitive variant fails alike one level below the top, since it recurses without case |
| `CaseOrder.SameCompare` | external/cJSON/cJSON_Utils.c:604-690 | for keys whose order case does not change, `compare_json` gives the same verdict and the same sorting with and without case |
| `CaseOrder.SomeKeys` | external/cJSON/cJSON_Utils.c:1423 | lower-casing keeps the order of A and B, but not that of B and a, nor of A and a |
| `FramePool.FrameQueue.Push` | project/SmartCam/app/ringbuffer.c:32-43 | appends to the queue on its circular array |
| `FramePool.FrameQueue.Pop` | project/SmartCam/app/ringbuffer.c:45-57 | removes the oldest frame |
| `FramePool.InitPool` | project/SmartCam/app/ringbuffer.c:59-66 | all five frames start in the free queue |
| `FramePool.CopyImage` | project/SmartCam/app/ringbuffer.c:73-88 | every pixel row of the image is in the frame, with or without line padding |
| `FramePoolProtocol.NextKeeps` | project/SmartCam/app/ringbuffer.c:32-99 | every lock, test, wait, wake-up, signal, unlock and copy step of either thread keeps the invariant |
| `FramePoolProtocol.ReachableInvariant` | project/SmartCam/app/ringbuffer.c:32-99 | so does every interleaving from the start |
| `FramePoolProtocol.PoolSafe` | project/SmartCam/app/ringbuffer.c:32-99 | in every interleaving each frame is in exactly one place, no queue overflows, no push waits, a thread waits only on an empty queue or with the other about to signal it, and the captured images are delivered once each and in order |
| `FramePoolProtocol.HeldFrameUntouched` | project/SmartCam/app/ringbuffer.c:73-99 | in no reachable state does a step of the producer change the content of the frame the consumer holds |
| `FramePoolProtocol.NeverBothBlocked` | project/SmartCam/app/ringbuffer.c:32-57 | in no reachable state are both threads blocked |
| `FramePoolProgress.StepAdvances` | project/SmartCam/app/ringbuffer.c:32-99 | from every state of the invariant, every step of either thread raises a count of the progress made |
| `FramePoolProgress.ProgressBound` | project/SmartCam/app/ringbuffer.c:32-99 | which is at most 24 for each image delivered and 82 more |
| `FramePoolProgress.RunDelivers` | project/SmartCam/app/ringbuffer.c:32-99 | in every interleaving one image is delivered for every 24 steps, up to 70 steps under way and two for each spurious wake-up |
| `FramePoolProgress.RoundsDeliver` | project/SmartCam/app/ringbuffer.c:32-99 | from every reachable state, 24 n + 59 rounds in which each thread has at least one turn deliver n more images, once each and in order, however the turns are ordered and although a blocked thread's turn is lost |
| `BsPatch.OfftinOfOfftout` | project/SmartCam/app/update_engine/do_patch.c:47-63 | the 8-byte sign-magnitude decoding undoes the encoding |
| `BsPatch.OfftinExactly` | project/SmartCam/app/update_engine/do_patch.c:47-63 | the number read is the sum of its bytes by powers of 256, the top bit being the sign |
| `BsPatch.ApplyPatch` | project/SmartCam/app/update_engine/do_patch.c:265-347 | the control loop writes the image that the control triples, difference and extra bytes describe, or reports a corrupt patch |
| `BsPatch.PatchRebuilds` | project/SmartCam/app/update_engine/do_patch.c:265-347 | streams made from any cutting of a target image rebuild the target |
| `Updater.NextKeeps` | project/SmartCam/app/update_engine/flash_image.c:197-295 | every step of an upgrade, a power loss, a process death outside the gap before the sync, and a retry keep the invariant |
| `Updater.DifferenceFits` | project/SmartCam/app/update_engine/do_patch.c:251-347 | the difference patch of any cutting of the new image makes the new image of every partition that begins with the old one |
| `Updater.RunKeeps` | project/SmartCam/app/update_engine/flash_image.c:197-295 | so does every run |
| `Updater.CrashSafe` | project/SmartCam/app/update_engine/flash_image.c:262-288 | with power losses, process deaths and retries anywhere: the old image is on the flash, or the verified new image is in the file, or the new image is on the flash, and a further crash cannot lose it, unless a partition write failed or the process stopped between the byte that completed the file and the sync |
| `Updater.DeathSafeIff` | project/SmartCam/app/update_engine/do_patch.c:141-148 | in every state of such a run, a process death can lead to the loss of both images, in a run that is safe but for it, if and only if it falls between the byte that completes the file and the sync |
| `Updater.UnsyncedDeathLosesBoth` | project/SmartCam/app/update_engine/do_patch.c:144-148 | a run from the start that does so: the retry takes the unsynced file for verified, begins to write, and a power loss leaves neither image |
| `Updater.RetryCompletes` | project/SmartCam/app/update_engine/flash_image.c:197-295 | from every stopped state of such a run an undisturbed retry can finish, and whenever it does the new image is on the flash |
| `Updater.FailedWriteSafeIff` | project/SmartCam/app/update_engine/flash_image.c:278-288 | after a partition write that failed with n bytes written, whose error is not looked at, an image survives if and only if the flash held the rest of the new image before, or held the old image and it begins with the same bytes as the new one as far as was written |
| `Updater.FailedWriteLosesBoth` | project/SmartCam/app/update_engine/flash_image.c:278-288 | a run in which such a failure loses both images |
| `Updater.Device.BlockWrite` | project/SmartCam/app/update_engine/flash_image.c:120-191 | with reads and writes that succeed, the partition begins with the image, the rest unchanged |
| `Updater.Device.DoPatch` | project/SmartCam/app/update_engine/do_patch.c:141-148 | for an image that is a difference: returns the image size with the verified image in the file, and fails exactly if neither a verified file nor the patched partition is the new image |
| `Updater.Device.FlashNormal` | project/SmartCam/app/update_engine/flash_image.c:197-295 | with reads and writes that succeed: from any state a crash leaves, a retry leaves the new image on the flash; the done file is never taken for a reason to skip, since the comparison is stored as the size |
| `Md5.TransformAgrees` | project/SmartCam/app/update_engine/md5.c:101-206 | the unrolled rounds are the 64 steps of section 3.4 of RFC 1321 |
| `Md5.BlocksConcat` | project/SmartCam/app/update_engine/md5.c:101-206 | hashing blocks continues over concatenation |
| `Md5.CountsAdvance` | project/SmartCam/app/update_engine/md5.c:219-229 | the two counters add up sizes modulo 2^61 bytes |
| `Md5.CountsAreBits` | project/SmartCam/app/update_engine/md5.c:266-285 | the stored length is the bit count of section 3.2 of RFC 1321 |
| `Md5.Context.Body` | project/SmartCam/app/update_engine/md5.c:101-206 | the state becomes the fold over all blocks given |
| `Md5.Context.Update` | project/SmartCam/app/update_engine/md5.c:219-251 | for any chunk: the state is the fold over all complete blocks so far, the buffer holds the tail, the counters the length |
| `Md5.Context.Final` | project/SmartCam/app/update_engine/md5.c:259-290 | the result is the digest of everything absorbed |
| `Md5.DigestIsRfc` | project/SmartCam/app/update_engine/md5.c:208-290 | that digest is the one of sections 3.1 to 3.5 of RFC 1321: the padding, the start value given there by its bytes, and words as sums of bytes, low-order first |
| `Md5Values.OutputIsRfc` | project/SmartCam/app/update_engine/md5.c:253-290 | the output is the registers as words, low-order bytes first |
| `Md5Values.RotateCarries` | project/SmartCam/app/update_engine/md5.c:60-63 | the rotation carries bit i to bit i + s modulo 32 |
| `Md5Values.DigestOfAbc` | project/SmartCam/app/update_engine/md5.c:208-290 | the digest of "abc" is the one of the test suite of RFC 1321 |
| `Md5.HashChunks` | project/SmartCam/app/update_engine/md5.c:208-290 | the result does not depend on how the message is split into updates |
| `Crc.WordStep` | project/SmartCam/app/update_engine/flash_image.c:496-508 | one word step is four byte steps, for any shared table |
| `Crc.IavbCrc32` | project/SmartCam/app/update_engine/rkbootloader.c:123-132 | the byte loop computes the table-driven CRC-32 |
| `Crc.Crc32Le` | project/SmartCam/app/update_engine/flash_image.c:482-518 | alignment prefix, word loop and tail compute the same CRC-32, for every address, length, buffer and starting value |
| `Crc.Crc32Continues` | project/SmartCam/app/update_engine/flash_image.c:482-518 | a CRC continues over concatenation |
| `Crc.FeedIsDivision` | project/SmartCam/app/update_engine/rkbootloader.c:123-132 | with the polynomial's table, a table step is eight steps of bitwise division |
| `Crc.InvertComplements` | project/SmartCam/app/update_engine/rkbootloader.c:123-132 | inverting a register is its complement |
| `Crc.Check32` | project/SmartCam/app/update_engine/rkbootloader.c:123-132 | the CRC-32 of the digits 1 to 9 is CBF43926 |
| `Crc.BuildTable16` | project/SmartCam/app/update_engine/crc.c:117-135 | the table holds the eight-bit division of every byte by the CCITT polynomial |
| `Crc.Crc16` | project/SmartCam/app/update_engine/crc.c:137-148 | the table loop computes the fold of the table step |
| `Crc.CrcCalculate` | project/SmartCam/app/update_engine/crc.c:230-244 | the bit loop with its mask computes the bit step |
| `Crc.CrcCcitt` | project/SmartCam/app/update_engine/crc.c:245-253 | and its fold |
| `Crc.TableStepIsBitStep` | project/SmartCam/app/update_engine/crc.c:117-148 | the table step equals the bit step for every register and byte |
| `Crc.Crc16sAgree` | project/SmartCam/app/update_engine/crc.c:137-253 | so both checksums agree from any common start |
| `Crc.Check16` | project/SmartCam/app/update_engine/crc.c:117-253 | the CRC-16s of the digits 1 to 9 are 31C3 from 0 and 29B1 from FFFF |
| `Checksum.Compute` | common/utils/network/ping.c:101-119 | the word loop with an odd last byte computes the checksum of section 1 of RFC 1071 |
| `Checksum.TwoFoldsSuffice` | common/utils/network/ping.c:113-117 | for every 32-bit sum, two folds give the one 16-bit number that represents it modulo 65535 |
| `Checksum.ChecksIff` | common/utils/network/ping.c:101-119 | up to 65535 bytes, a buffer checks to zero exactly if its words sum to a positive multiple of 65535 |
| `Checksum.TrailingZerosIgnored` | common/utils/network/ping.c:193-213 | appended zero bytes do not change the checksum, so the longer IP length may be passed |
| `Checksum.StoredChecksumVerifies` | common/utils/network/ping.c:140 | a buffer with its checksum stored in a zeroed even field checks to zero |
| `Checksum.FillChecksum` | common/utils/network/ping.c:193-213 | the packet filled in by `ping_send` passes the receiver's check |

## Left out

- Floating point: a number that is not written as an `int` is kept by its literal (`Real`), and two such numbers are equal
  exactly if their literals are. `%1.15g`, `compare_double`, NaN and locales are not modelled.
- Grammar.TextAccepted: numerals have at most 63 bytes, the bytes that are copied for `strtod`. An escaped NUL ends a string.
- Derivation.TextDerives: says what every accepted text is like, but not which of the looser texts are accepted, nor what a
  string outside RFC 8259 is decoded to. Looser are control bytes as white space, numerals such as 01, and strings with
  control bytes or with four bytes that are no digits behind a Unicode escape.
- ParserLaws.MarkSkipped: says nothing of a second mark; only one is skipped, and the other starts no value.
- ParseBuffer.ParseBuffer.ParseNumber: the double value of a number that is no `int` is not modelled.
- PrintBuffer.PrintBuffer.PrintNumber: only integers are printed.
- Compare.CompareTrees: {1} and {1.0} differ in the model and are equal in the code; `cJSON_Compare` also answers at once for
  the same pointer.
- Compare.CompareIsEquality: states what the code does for integers only, as do the next three.
- Compare.CompareInPlace: compares other numbers by their literals.
- Compare.CompareJsonIsEquality: compares other numbers by their literals.
- Compare.FastEqualsSlow: compares other numbers by their literals.
- JsonText.TreeRoundTrip: covers trees whose numbers are integers in `int` range and whose strings hold no NUL, since others
  cannot be printed back.
- JsonText.MinifyPreservesIff: leaves out texts from whose literals minifying drops a slash, alone or with a comment it takes
  it to open, and strings cut short by an escaped NUL, since what is behind it does not count. `MinifyPreserves` covers them one
  way.
- Trees in place: parsing, comparing, patching and merging are modelled on tree values, with each function's list operations as
  sequence operations; that the list operations on the heap are those sequence operations is proved in `ChildList` and
  `SortList`, and for members, one level at a time, in `HeapObject`. Whole trees on the heap, and their aliasing, are not
  modelled.
- PatchCreate.CreatePatches: how it leaves its two arguments sorted is not modelled; `Compare.CompareJsonKeeps` says that such
  sorting does not change what a tree means.
- PatchApply.ApplyPatches: the operations test, move and copy, and the removal of the whole document, are not modelled.
- PatchCreate.PatchRoundTripIff: keys are C strings; the new value is nested at most 10000 levels and no array of the old one
  is longer than 2^64, the limits of duplication and of `size_t`.
- MergePatch.MergeRoundTripIff: both values are nested at most 10000 levels, the limit of duplication.
- ParseBuffer.ParseBuffer.ParseWithLengthOpts: the error position reported after a failure is not modelled.
- Allocation failure and the freeing of memory; `cJSON_PrintBuffered`, which differs from `cJSON_Print` in its first size only.
- cJSON_Raw, cJSON_Invalid, reference and constant-string flags, and cyclic trees beyond the duplication limit.
- FramePoolProtocol.PoolSafe: mutexes and condition variables are atomic steps; a frame's payload is one unit that is torn
  while it is being copied.
- Updater.CrashSafe: MD5 is idealised as identity of contents; storage that was not synced comes back from a power loss as
  anything.
- Updater.Device.BlockWrite: failing reads and writes are in `FailedWriteSafeIff` only; other flash drivers than block devices
  are not modelled.
- Updater.Device.DoPatch: images that are not differences are not modelled.
- Updater.Device.FlashNormal: the same holds for it.
- BsPatch.ApplyPatch: bzip2 decompression and memory mapping; the three streams are byte sequences.
- Md5.Context.Final: clearing the context at the end.
- Crc.BuildTable16: the polynomial is the one its callers pass.
- Crc.Crc32Le: the 256 words of the two identical tables; the agreement is proved for any table both share, and
  `FeedIsDivision` for the table of the polynomial.
- P_RC4 and the BCH tables of crc.c, boot slots, partition tables, and everything that talks to devices or the network.
