# The JSON engine, verified

This project models the JSON engine that the repository bundles (`json/cJSON.c` and `json/cJSON_Utils.c`)
and proves what it is for: printing and parsing undo each other, generated patches turn one document into
the other, the list and tree edits keep every link right, and the buffers are never left.

## How the model is built

The project has two layers, and every method of the second is proved against a function of the first: equal to it,
or, where the code compares in place and so sorts on the way, equal up to member order.

* **Values.** `JsonTree.Json` is what a reader of a tree sees: numbers, C strings, arrays, and objects as
  ordered members in which keys may repeat.  `JsonTree.Same` is equality that ignores the order of members.
  On values stand the pure functions that follow the code branch by branch (`Parsing`, `Rendering`,
  `Minifying`, `Pointers`, `Locations`, `Patches`, `MergePatches`, `Equality`, `Sorting`, `Utf8`), and the
  theorems about them.  What these functions mean is said without them where a standard or the C library says it:
  `JsonTexts` holds the texts of RFC 8259 as syntax trees, `StringTexts` the ways to write a string,
  `PrintedTexts` the layout of printed text, `KeyOrder` the order of keys by characters, `PointerTokens` the tokens
  of RFC 6901, `PatchOperations` the operations of RFC 6902 on patch objects, and `MinifyTexts` the pieces of a text
  that minifying keeps or leaves out.
* **Memory.** `Nodes.Node` is the cJSON item with its `next`, `prev` and `child` links; `Trees.Shape` says which
  nodes make up a tree, `Trees.Holds` that the nodes hold their data and are linked (and, if `tailed`, that the
  first child names the last), and `Trees.ValueOf` the value it stands for.  The list edits, the merge sort on
  the links, duplicating, comparing, resolving pointers, diffing, patching, and generating and merging merge
  patches run on these nodes.
  `ParseBuffers.ParseBuffer` and `PrintBuffers.PrintBuffer` are the two buffers with their offset and depth, and
  `StringPasses`, `MinifyInPlace` and `PointerLoops` work on character arrays.

`cs` is the flag `case_sensitive` throughout; `Fold` is the form in which keys are compared under it.  A
character is a byte.  Numbers are integers, equality of numbers is exact, and "%1.15g" is modelled on integers
of at most fifteen digits.  Allocation succeeds.  ASCII letters are the only ones that `tolower` changes.

## Where the code departs from its intent

Each of these is kept as the code has it, with the exact condition under which the intended result holds.

* `decode_pointer_inplace` copies no ordinary character after an escape and writes `/` one position too far
  (json/cJSON_Utils.c:359-390): `Pointers.DecodeUndoesEncode` says which names it spoils, and
  `PatchExact.AddingKeyExact` that adding a member round-trips exactly for the others.
* `decode_array_index_from_pointer` tests the first character instead of the current one
  (json/cJSON_Utils.c:285): `Locations.DecodeIndexExact`, `Locations.MisreadIndexExample`.
* `detach_path` ignores the case flag (json/cJSON_Utils.c:466): the patches for removing a member, or for
  exchanging its value, have their effect exactly when the search that ignores case finds that member too and
  its key survives decoding (`PatchExact.RemovingKeyExact`, `PatchExact.ReplacingKeyExact`); `PatchExact.CaseFlagDropped` is an instance that
  fails.  `PatchRoundTrip.PatchesRoundTrip` asks for no more of the keys that its patches remove or replace, except
  that a member that hides one may be removed or replaced before it, and asks nothing of the others.
* `generate_merge_patch` sorts by the flag, walks by `strcmp` and drops the flag below the top
  (json/cJSON_Utils.c:1420, json/cJSON_Utils.c:1452).  `MergePatches.MergeRoundTrip` holds for all trees in whose
  walked objects the two orders agree on the keys, and in which the comparison takes no two different values for
  equal (`Generable`).  Conversely, when case is ignored, any two names on which the orders disagree make up trees
  on which it fails (`MergePatches.AgreementIsNeeded`), and below the top a change that shows only case-sensitively
  is lost (`MergePatches.FlagDroppedBelow`).
* A null member of `to` cannot be expressed by a merge patch: `MergeRoundTrip` holds if and only if `NullSafe`.
* `minify_string` takes the second backslash of a final `\\` for the escape of the closing quote
  (json/cJSON.c:2810-2814): `MinifyExact.MinifyUndoesFormattingExactly` lists exactly the trees that survive.
* `sort_list` leaves `head->prev` alone (json/cJSON_Utils.c:484-593): `SortLists.SortObject` says exactly when the
  head still names the tail.  `Nodes.AddItemToArray` covers the three states that a sort can leave: the item is
  appended if and only if the head names the tail; if it names another node, the item comes after that one and all
  behind it are cut off; if it names nothing, the item is lost.
* The header advises five bytes more than the text for a preallocated buffer (json/cJSON.h:162); two more, one of
  them for the NUL, are what the code needs: `Printing.PrintPreallocated`.
* `parse_hex4` returns 0 for a character that is no hexadecimal digit, and its caller takes that for a NUL
  (json/cJSON.c:613-646): `Utf8.OtherCharactersAreNul`.  The string then ends there, whatever follows up to its
  closing quote.  This, white space that may be any character up to the space, control characters written as they
  are in strings, leading zeros, and text behind the value that is not looked at unless its end is required are all
  that the parser accepts beyond RFC 8259: `ParsedTexts.ReadsOnlyTexts`, `ParsedTexts.ParsesOnlyDocuments`.  It
  refuses no text of the standard whose numbers are integers but for its limits, 1000 levels of nesting and 63
  characters of a number:
  `ParseTexts.ReadsAnyText`, `ParseTexts.ParsesAnyDocument`.
* A pointer that does not begin with `/` leads to the whole document (json/cJSON_Utils.c:301-346):
  `PointerTokens.NoSlashIsTheRoot`.
* Decoding a token gives up at a `~` that begins no escape, without moving up what follows
  (json/cJSON_Utils.c:359-390): `PointerTokens.DecodeGivesUp`.
* A "move" or "copy" to the root fails with 9 after "move" has removed the old value
  (json/cJSON_Utils.c:906-972), and a "replace" without a value fails with 7 after it has removed the old one
  (json/cJSON_Utils.c:885-957): `PatchOperations.MoveIsRemoveThenAdd`, `PatchOperations.CopyIsAdd`,
  `PatchOperations.ReplaceWithoutValue`.
* Equal keys come out of the sort in the reverse of their order (json/cJSON_Utils.c:535-592):
  `KeyOrder.TiesReversed`.
* The two equality procedures agree on trees with unique keys.  On every other tree they disagree with some partner:
  `RepeatedKeys.UniquenessIsNeeded`.

## Model

| member | source | states |
|---|---|---|
| Equality.CompareMeansSame | json/cJSON.c:2966-3089 | on trees with unique keys, the double lookup of cJSON_Compare decides equality up to member order |
| Equality.CompareSortedMeansSame | json/cJSON_Utils.c:604-690 | on trees with unique keys, the sort-and-zip of compare_json decides the same relation |
| Equality.SameReflexive | json/cJSON_Utils.c:604-690 | that relation is reflexive |
| Equality.SameSymmetric | json/cJSON_Utils.c:604-690 | that relation is symmetric |
| Equality.SameTransitive | json/cJSON_Utils.c:604-690 | that relation is transitive |
| RepeatedKeys.UniquenessIsNeeded | json/cJSON_Utils.c:604-690 | for every tree in which some object repeats a key there is a tree on which cJSON_Compare and compare_json disagree |
| Sorting.MergeSortSorts | json/cJSON_Utils.c:484-593 | the merge sort of sort_list puts keys in the order of compare_strings |
| KeyOrder.SortsByCharacters | json/cJSON_Utils.c:484-593 | of any two keys of the sorted list, with letters lowered when case is ignored, the first is the second, a prefix of it, or has the smaller character where they first differ |
| KeyOrder.CompareExact | json/cJSON_Utils.c:83-108 | compare_strings is negative, zero or positive exactly if the first string comes before, equals or comes behind the second in that order |
| KeyOrder.LettersLowered | json/cJSON_Utils.c:101-107 | tolower maps each of the 26 letters to its small one and leaves every other character alone |
| KeyOrder.TiesReversed | json/cJSON_Utils.c:535-592 | members with equal keys come out of the sort in the reverse of their order |
| Sorting.MergeSortPermutes | json/cJSON_Utils.c:484-593 | the merge sort keeps exactly the same members |
| SortLists.IsAscending | json/cJSON_Utils.c:499-508 | the test for a sorted list: every key is strictly before the next |
| SortLists.Middle | json/cJSON_Utils.c:510-522 | the two walking pointers find the node behind the first half, rounded up |
| SortLists.MergeLists | json/cJSON_Utils.c:535-592 | the merging loop links the nodes of both chains in merged order, every node but the first naming its predecessor, and leaves what the first names |
| SortLists.SortList | json/cJSON_Utils.c:484-593 | sorting in place gives one acyclic chain through the same nodes in merge-sort order, and says what the first node's prev is then |
| SortLists.SortObject | json/cJSON_Utils.c:595-602 | the children are the same nodes in key order; the head still names the tail exactly if neither the first nor the last child moved, and in any case names a child or nothing |
| TreeSorting.SortKids | json/cJSON_Utils.c:595-602 | sorting an object inside a tree reorders its subtrees, links everything again, and disturbs nothing below |
| Nodes.GetArrayItem | json/cJSON.c:1849-1866 | the child at the index, or null past the end |
| Nodes.AddItemToArray | json/cJSON.c:1954-1985 | appends if and only if the head names the tail; if the head names another child, the item follows that one and everything behind it is cut off; if it names nothing, the item is lost |
| Nodes.DetachItemViaPointer | json/cJSON.c:2185-2219 | removes exactly that item and keeps the links and the tail |
| Nodes.DetachItemFromArray | json/cJSON_Utils.c:393-427 | removes the item at the position, or nothing past the end |
| Nodes.InsertItemInArray | json/cJSON.c:2261-2288 | inserts at the index, appends past the end, fails for a negative index |
| Nodes.InsertItemOrFail | json/cJSON_Utils.c:693-728 | inserts at the position up to the length, and fails past it leaving the list alone |
| Nodes.ReplaceItemViaPointer | json/cJSON.c:2290-2337 | puts the replacement in the place of the item and keeps the links and the tail |
| ListRuns.RunEdits | json/cJSON.c:1954-2347 | after any run of appends, insertions, detachments and replacements the list is linked, its head names its tail, and it is the edited sequence |
| Duplicating.Duplicate | json/cJSON.c:2686-2767 | new nodes only, all different, the same data in the same places, the tail noted at every level even if the source has lost it |
| Duplicating.CopyHasSameValue | json/cJSON.c:2686-2767 | a duplicate stands for the same value |
| Comparing.GetObjectItem | json/cJSON.c:1878-1908 | the first child whose key equals the name under the flag, or null |
| Comparing.CompareItems | json/cJSON.c:2966-3089 | on linked nodes cJSON_Compare decides exactly identity or the double-lookup relation |
| TreeComparing.CompareJson | json/cJSON_Utils.c:604-690 | on linked nodes compare_json decides exactly the sort-and-zip relation, and afterwards both trees are linked, on the same nodes, and equal to what they were |
| PointerTokens.EscapedByCharacters | json/cJSON_Utils.c:173-196 | escaping writes '~' as "~0", '/' as "~1" and every other character as itself, one after the other |
| Pointers.EncodeInjective | json/cJSON_Utils.c:173-196 | different names have different escaped forms |
| Pointers.ComparePointersExact | json/cJSON_Utils.c:120-154 | a name matches a pointer exactly when the next token is the escaped name, up to case when the flag says so |
| Pointers.DecodeUndoesEncode | json/cJSON_Utils.c:359-390 | decoding an escaped name gives the name back if and only if it has no '/' and every character already stands where the escaped text has it |
| Pointers.DecodeEncode | json/cJSON_Utils.c:359-390 | decoding an escaped name keeps its length: a '~' comes out as it is, the character behind a '/' becomes '/', and every other position shows what the escaped text has there |
| PointerTokens.DecodeGivesUp | json/cJSON_Utils.c:359-390 | at a '~' that begins no escape decoding gives up, and what follows stays where it is |
| Pointers.PlainNamesAreNotEscaped | json/cJSON_Utils.c:173-196 | names without '~' and '/' are their own escaped form and survive decoding |
| PointerLoops.PointerEncodedLength | json/cJSON_Utils.c:157-170 | the length is that of the escaped name |
| PointerLoops.EncodeStringAsPointer | json/cJSON_Utils.c:173-196 | writes the escaped name and a NUL, and nothing else |
| PointerLoops.ComparePointerToken | json/cJSON_Utils.c:120-154 | the loop decides whether the next token is the escaped name |
| PointerLoops.DecodeArrayIndex | json/cJSON_Utils.c:274-299 | the loop reads an index exactly as DecodeIndex does, its misreadings included |
| PointerLoops.DecodePointerInPlace | json/cJSON_Utils.c:359-390 | in place, the string becomes what Decode makes of it, and what follows its NUL is kept |
| Locations.DecodeIndexExact | json/cJSON_Utils.c:274-299 | digits without a leading zero are read as that number; of all other tokens exactly the misread ones are accepted |
| Locations.MisreadIndexExample | json/cJSON_Utils.c:285 | "1a" is accepted and read as 59 |
| Locations.DecodeIndexOfDecimal | json/cJSON_Utils.c:274-299 | a printed index is read back |
| PointerTokens.TokenSelects | json/cJSON_Utils.c:301-346 | the next token selects the element with its index, or the first member whose escaped name it is under the flag, and the rest of the pointer goes on from there |
| PointerTokens.TokenSelectsNothing | json/cJSON_Utils.c:301-346 | a token that names no child, or any token below a scalar, leads nowhere |
| PointerTokens.NoSlashIsTheRoot | json/cJSON_Utils.c:301-346 | every text that does not begin with '/' leads to the whole document |
| Locations.FindThenGet | json/cJSON_Utils.c:198-346 | resolving the pointer built for a place leads back to it if and only if no earlier equal key hides it on the way |
| Locations.UniqueIsVisible | json/cJSON_Utils.c:198-346 | with unique keys nothing is hidden |
| TreePointers.GetItem | json/cJSON_Utils.c:301-346 | the node at the location that the pointer resolves to, or null |
| TreePointers.JoinKey | json/cJSON_Utils.c:240-249 | the buffer for "/", the escaped key and the pointer below is filled exactly |
| TreePointers.FindPointer | json/cJSON_Utils.c:198-259 | the pointer to the node if it is in the tree, and none exactly if it is not |
| TreePointers.FindThenGetNode | json/cJSON_Utils.c:198-346 | in a tree with unique keys, getting the pointer that was found for a node returns that node |
| PatchRoundTrip.PatchesRoundTrip | json/cJSON_Utils.c:807-1307 | the patches for (from, to), applied to any document equal to from, all return 0 and leave a document equal to to; only keys at the ends of paths must survive decoding, and only removed and replaced ones must not be hidden when case is ignored |
| PatchRoundTrip.LandsInAnyOrder | json/cJSON_Utils.c:807-1307 | that condition follows, for every document equal to from, from one on from and to alone |
| PatchExact.RemovingKeyExact | json/cJSON_Utils.c:807-1307 | for every flag and object, the patches for removing a member do so if and only if the search that ignores case finds that member and its key survives decoding |
| PatchExact.ReplacingKeyExact | json/cJSON_Utils.c:807-1307 | the same for exchanging the value of a member as a whole |
| PatchExact.AddingKeyExact | json/cJSON_Utils.c:807-1307 | for every flag and object, the patches for adding a member do so if and only if its key survives decoding |
| PatchExact.DecodedUpToCase | json/cJSON_Utils.c:359-390 | a name that does not survive decoding does not come back up to case either |
| PatchExact.CaseFlagDropped | json/cJSON_Utils.c:466 | the patches generated case-sensitively from {A, a} to {A} succeed and leave {a} |
| PatchRoundTrip.CreateIsPrefixed | json/cJSON_Utils.c:1139-1277 | patches made below a path are those made at the root with the path in front |
| PatchRoundTrip.PerformAllInside | json/cJSON_Utils.c:807-1034 | patches whose paths lead below one child act on that child alone |
| PatchOperations.AddPutsIn | json/cJSON_Utils.c:964-1017 | on the patch object, section 4.1 of RFC 6902: "add" appends at "-", inserts at an index up to the length, or takes out the member of that name and appends the new one; 11, 10 and 9 for no index, one too large and no container |
| PatchOperations.AddElsewhere | json/cJSON_Utils.c:842-972 | "add" at the root exchanges the document; it fails with 9 if the path has no slash or what stands before its last one leads nowhere |
| PatchOperations.RemoveTakesOut | json/cJSON_Utils.c:885-902 | section 4.2: "remove" takes the child that the path names out of its container and changes nothing else |
| PatchOperations.RemoveFindsNothing | json/cJSON_Utils.c:842-902 | if there is none, "remove" fails with 13 and changes nothing; removing the root leaves no document |
| PatchOperations.FoundWhereItLeads | json/cJSON_Utils.c:430-481 | at a path that begins with '/', the child that is taken out is the one that the pointer leads to, if the last token has no '~' and a member found has that name under the flag |
| PatchOperations.ReplaceIsRemoveThenAdd | json/cJSON_Utils.c:842-972 | section 4.3: "replace" is "remove" and then "add" of its value; at the root it exchanges the document |
| PatchOperations.MoveIsRemoveThenAdd | json/cJSON_Utils.c:906-972 | section 4.4: the outcome of "move" is that of "remove" at "from" and then "add" of the value that stood there at "path"; to the root it fails with 9, the old value being gone |
| PatchOperations.MoveFindsNothing | json/cJSON_Utils.c:906-931 | with nothing at "from" a "move" fails with 5 and changes nothing |
| PatchOperations.CopyIsAdd | json/cJSON_Utils.c:906-972 | section 4.5: the outcome of "copy" is that of "add" at "path" of the value at "from", which stays where it was; 5 with nothing there, 9 to the root |
| PatchOperations.MalformedPatch | json/cJSON_Utils.c:742-825 | status 2 without a path that is a string, and with one status 3 without one of the six operation names, nothing being changed |
| PatchOperations.MissingOperand | json/cJSON_Utils.c:826-957 | 4 without "from", 5 for one that is no string, 7 without "value" |
| PatchOperations.ReplaceWithoutValue | json/cJSON_Utils.c:885-957 | a "replace" without a value fails with 7 after removing the old one |
| PatchOperations.InOrder | json/cJSON_Utils.c:1036-1063 | section 5: patches are applied in order, each to the outcome of the one before, up to the first failure; 1 if they are no array |
| PatchTests.TestPatchExact | json/cJSON_Utils.c:826-831 | on values, where member order does not count: "test" changes nothing and succeeds exactly when the pointer leads to an equal value |
| TreeTests.TestOn | json/cJSON_Utils.c:826-831 | on linked nodes: that status, and both the document and the patch remain linked on their own nodes and change in member order only |
| TreePatches.SplitPath | json/cJSON_Utils.c:443-450 | the last '/' separates the pointer to the parent from the token |
| TreePatches.DetachPath | json/cJSON_Utils.c:430-481 | exactly the child that DetachTarget names is detached; it and the document without it are whole trees |
| TreePatches.AddAt | json/cJSON_Utils.c:964-1017 | the status and the document of AddAt in every case: appended, inserted, replaced by key, or refused with 9, 10 or 11 |
| TreePatches.ReplaceRoot | json/cJSON_Utils.c:860-890 | the root takes over the data and children of the value and loses its key |
| TreePatches.ApplyOne | json/cJSON_Utils.c:807-1034 | for every patch but "test", malformed ones included: the status and the document of ApplyPatch, on nodes of the document and new ones, the patch unchanged |
| TreePatches.ApplyAllOn | json/cJSON_Utils.c:1036-1063 | patch by patch on the same nodes, up to the first failure |
| TreeDiff.ComposePatch | json/cJSON_Utils.c:1094-1132 | appends the object with op, path and, if given, a duplicate of the value |
| TreeDiff.ChildPathOf | json/cJSON_Utils.c:1115-1124 | the buffer for path, "/" and the escaped name is filled exactly |
| TreeDiff.CreatePatchesOn | json/cJSON_Utils.c:1139-1277 | on linked nodes exactly the patches of CreatePatches are appended; both trees are sorted on their own nodes and equal to what they were |
| TreeRoundTrip.PatchesAreText | json/cJSON_Utils.c:1139-1277 | every generated path and value is a C string if the trees are |
| TreeRoundTrip.GeneratePatchesOn | json/cJSON_Utils.c:1279-1307 | a new tree that holds exactly the generated patches |
| TreeRoundTrip.DiffThenPatch | json/cJSON_Utils.c:807-1307 | on linked nodes: generate, duplicate the sorted from, apply; all patches return 0 and the result equals to, under the condition of LandsInAnyOrder |
| MergePatches.MergeIsRfc7396 | json/cJSON_Utils.c:1319-1376 | merging is the MergePatch function of section 2 of RFC 7396, name by name |
| MergePatches.MergeIsIdempotent | json/cJSON_Utils.c:1319-1376 | merging the same patch twice equals merging it once |
| MergePatches.MergeRoundTrip | json/cJSON_Utils.c:1319-1468 | for both flags, where the order by strcmp agrees with the sort: merging the generated patch into any document equal to from gives to if and only if no null member of to is needed; no patch means from equals to |
| MergePatches.DifferingLookups | json/cJSON_Utils.c:1388-1468 | under either flag, the generated patch holds null for a removed name, the value for a new one, and a patch for a changed one |
| MergePatches.AgreementIsNeeded | json/cJSON_Utils.c:1420 | when case is ignored, any two names on which the sort and strcmp disagree, names equal up to case included, give trees with no other keys for which the round trip fails |
| MergePatches.LoseBoth | json/cJSON_Utils.c:1319-1468 | merging the patch that such a pair gets leaves the empty object, under either flag |
| MergePatches.FlagDroppedBelow | json/cJSON_Utils.c:1452 | case-sensitively, a change one level down that the comparison without case does not see yields no patch |
| MergeOrders.AlikeGenerate | json/cJSON_Utils.c:1388-1468 | trees that differ in member order only get the same patch, up to the order inside the values it takes over |
| MergeOrders.MergeParallel | json/cJSON_Utils.c:1319-1376 | such patches merge equal documents into equal documents |
| TreeMergeDiff.GenerateMergeOn | json/cJSON_Utils.c:1388-1468 | on linked nodes: a new tree, or NULL, that is the generated patch up to the order inside the values it takes over; both trees are sorted on their own nodes and equal to what they were |
| TreeMergeDiff.GenerateThenMerge | json/cJSON_Utils.c:1319-1468 | on linked nodes: generate, duplicate the sorted from, merge; the result equals to if and only if no null member of to is needed, and NULL is generated only for equal trees |
| MergeTrees.MergeInto | json/cJSON_Utils.c:1319-1376 | on linked nodes: a whole tree with the merged value, made of nodes of the target and new ones, the patch unchanged |
| ObjectEdits.DetachFromObject | json/cJSON.c:2236-2248 | the first member with the key leaves the object, and both remain whole |
| ObjectEdits.AddToObject | json/cJSON.c:2009-2044 | the item becomes the last member under the new key |
| Utf8.EncodingIsUnique | json/cJSON.c:716-758 | the bytes written are the one sequence that UTF-8 decodes to the code point (section 3 of RFC 3629) |
| Utf8.PairsAreOneToOne | json/cJSON.c:675-707 | surrogate pairs and the code points 0x10000 to 0x10FFFF correspond one to one |
| Utf8.ReadsFourDigits | json/cJSON.c:613-646 | four digits, each in either case, are read by their places: d0 * 4096 + d1 * 256 + d2 * 16 + d3 |
| Utf8.OtherCharactersAreNul | json/cJSON.c:613-646 | with a character that is no digit the literal reads as U+0000 |
| Utf8.LiteralRoundTrip | json/cJSON.c:650-768 | every code point is read back from every way to write it in one or two escapes with digits in either case, whatever follows |
| Utf8.LoneSurrogatesRejected | json/cJSON.c:650-768 | a literal, its digits in either case, is refused exactly when its surrogates are not a high and then a low one |
| StringPasses.ReadHex4 | json/cJSON.c:613-646 | the value of four hexadecimal digits, 0 as soon as one is none |
| StringPasses.WriteUtf8 | json/cJSON.c:716-758 | the backward loop writes exactly the UTF-8 bytes of the code point |
| StringPasses.Utf16LiteralToUtf8 | json/cJSON.c:650-768 | the length of the literal and its bytes, or 0 and nothing written |
| StringPasses.FindClosingQuote | json/cJSON.c:786-811 | the first pass finds the closing quote and counts the escapes that it sees |
| StringPasses.WriteUnescaped | json/cJSON.c:820-875 | every write of the second pass and the NUL fit the estimate, for valid escapes and others, also where the passes disagree; the bytes are those of Unescape |
| StringTexts.ReadsAnyWriting | json/cJSON.c:771-897 | section 7 of RFC 8259: every mix of ordinary characters, the eight escapes with a letter, each spelled out, and "\u" escapes is read as the characters it stands for, up to a NUL |
| StringTexts.RefusesOtherLetters | json/cJSON.c:832-870 | a backslash before any other character makes the string malformed, whatever stands before and after |
| ParsedTexts.ReadString | json/cJSON.c:771-897 | a string that is accepted is one of those writings, or ends in a "\u" without four digits, which reads as a NUL |
| ParseBuffers.ParseStringInto | json/cJSON.c:771-897 | succeeds exactly on the texts that ParseString accepts, with that string and the rest left to read |
| ParseBuffers.ParseBuffer.SkipBlanks | json/cJSON.c:1036-1059 | moves to the first character above the space, never past the last one |
| ParseBuffers.ParseNumberInto | json/cJSON.c:305-379 | on integers: the number, and the offset behind it |
| ParseTrees.ParseArrayInto | json/cJSON.c:1439-1534 | exactly the texts that ParseArray accepts, into a linked list of new nodes; the depth is restored |
| ParseTrees.ParseObjectInto | json/cJSON.c:1599-1709 | exactly the texts that ParseObject accepts, keys in order, repeated ones included; the depth is restored |
| ParseTrees.ParseValueInto | json/cJSON.c:1310-1362 | exactly the texts that ParseValue accepts; the offset never falls nor leaves the buffer; on success the depth is restored and every list names its tail |
| ParseTrees.ParseText | json/cJSON.c:1077-1170 | a new tree exactly for the texts that Parse accepts, with that value |
| ParseTexts.ReadsAnyInteger | json/cJSON.c:305-379 | digits behind a sign or none, at most 63 characters, are read as the number that they write in base ten, if no number character follows |
| ParseTexts.ReadsAnyText | json/cJSON.c:1310-1709 | every JSON text of RFC 8259 with integers of at most 63 characters, white space anywhere between its parts, is read with its value if and only if it is nested at most 1000 deep |
| ParseTexts.ParsesAnyDocument | json/cJSON.c:1077-1170 | the same for whole documents, behind a byte order mark or not; other text behind the value is refused exactly if its end is required |
| ParsedTexts.ReadsOnlyTexts | json/cJSON.c:1310-1709 | conversely, whatever is accepted is the text of a syntax tree with the value returned, nested at most 1000 deep, in which only white space, raw characters, leading zeros and spoiled "\u" escapes go beyond the standard |
| ParsedTexts.ParsesOnlyDocuments | json/cJSON.c:1077-1170 | and a whole document that is accepted is a byte order mark or none, white space and such a text, followed by white space only if its end is required |
| PrintedTexts.RenderedIsJson | json/cJSON.c:1365-1823 | printed text is a text of RFC 8259 with the value of the tree: no white space at all, or ", " between elements, and a new line with tabs for the depth and a tab behind the colon for every member |
| PrintedTexts.PrintThenParse | json/cJSON.c:1310-1823 | parsing the rendered text gives the tree back, formatted or not, member order and repeated keys included, if and only if it is nested at most 1000 deep |
| PrintedTexts.ParseQuoted | json/cJSON.c:771-1019 | a printed string is read back, whatever follows it |
| StringTexts.QuoteExact | json/cJSON.c:900-1019 | the exact text of a printed string, character by character and with every escape spelled out; no character of it is below the space |
| StringTexts.PrintedIsWriting | json/cJSON.c:900-1019 | which is one of the writings that RFC 8259 allows for the string |
| Printing.CountEscapes | json/cJSON.c:928-954 | the first loop computes the length of the escaped text |
| Printing.PrintString | json/cJSON.c:900-1019 | exactly the computed length is written |
| PrintBuffers.PrintBuffer.Ensure | json/cJSON.c:439-524 | succeeds exactly if the bytes and one more fit the limit; the text so far is kept, also when the buffer is reallocated |
| PrintBuffers.PrintBuffer.UpdateOffset | json/cJSON.c:527-537 | moves the offset to the end of the text |
| Printing.PrintArray | json/cJSON.c:1537-1596 | the text of an array behind the text so far, exactly if two more bytes than it fit |
| Printing.PrintObject | json/cJSON.c:1712-1823 | the text of an object behind the text so far, exactly if two more bytes than it fit |
| Printing.PrintValue | json/cJSON.c:1365-1436 | the text of any tree behind the text so far, exactly if two more bytes than it fit; the depth is restored |
| Printing.PrintPreallocated | json/cJSON.c:1290-1307 | succeeds exactly for buffers of at least two bytes more than the text, and then holds the text and its NUL |
| Printing.PrintBuffered | json/cJSON.c:1260-1288 | the same text for every initial size |
| Printing.Print | json/cJSON.c:1185-1258 | a buffer of exactly the text and its NUL |
| TextOnNodes.PrintAndParse | json/cJSON.c:1173-1258 | on nodes: printing and parsing gives a new tree of the same value, unless it is nested too deeply |
| TextOnNodes.PrintAndMinify | RtcWinDemoDlg.cpp:668-669 | printing and minifying gives the unformatted text exactly for the trees that the minifier does not misread |
| TextOnNodes.RenderIsText | json/cJSON.c:1365-1436 | printed text contains no NUL |
| Minifying.MinifyIsIdempotent | json/cJSON.c:2769-2864 | minifying twice is minifying once, on every text |
| MinifyTexts.MinifyPieces | json/cJSON.c:2769-2864 | of a text made of strings, comments of both kinds, white space and other characters, exactly the strings and the other characters are kept, in order; a slash that begins no comment is left out |
| MinifyTexts.MinifyUnclosed | json/cJSON.c:2769-2864 | at the end of the text an unclosed comment is left out and an unclosed string is kept |
| MinifyRendered.StringLengthExact | json/cJSON.c:2796-2816 | minify_string ends at the closing quote of a printed string, unless the string ends in a backslash |
| MinifyRendered.MinifyUndoesFormatting | json/cJSON.c:2769-2864 | if no string and no key ends in a backslash, minifying the formatted text gives the unformatted text |
| MinifyExact.MinifyUndoesFormattingExactly | json/cJSON.c:2769-2864 | that holds if and only if no string or key ends in a backslash, or only a last string does that nothing but closing brackets of arrays follow |
| MinifyInPlace.CopyString | json/cJSON.c:2796-2816 | copies exactly the string, to a writing position that never passes the reading position |
| MinifyInPlace.MinifyBuffer | json/cJSON.c:2818-2864 | in place, on every NUL-terminated buffer, the text becomes its minified form and what follows its NUL is kept |

## Left out

- Floating point: fractions, exponents, NaN, infinities and the tolerance of `compare_double`; numbers are integers.
- ParseNumberInto: reads the integer that a number starts with and leaves a fraction or an exponent unread, so "1.5" is read as 1 at the top level, where text may follow, and refused inside an array or object; the code reads 1.5.
- ParseArrayInto, ParseObjectInto, ParseValueInto, ParseText: accept and read numbers as ParseNumberInto does.
- PrintArray, PrintObject, PrintValue, PrintPreallocated, PrintBuffered, Print: numbers are integers of at most fifteen digits, which "%1.15g" prints as they are.
- Allocation failure, `global_error` and custom hooks: allocation succeeds, and reallocation copies what has been written.
- `cJSON_Raw` and reference items, constant keys, and `cJSON_Delete`: nodes that are let go are simply no longer mentioned.
- ApplyOne: leaves "test" to TestOn, because compare_json sorts parts of the document in place, after which an append to a list that has lost its tail drops members, as AddItemToArray says.
- ApplyAllOn: covers runs without "test" in which only the last patch applied removes the root; after that the code works on an invalid item.
- ApplyOne: a "from" that is not a string gives status 5, where the code would read a null string.
- GenerateMergeOn: says what the patch holds only for trees whose keys are unique with and without regard to case; for others it says that both trees and the patch are whole.
- `cJSONUtils_GenerateMergePatch` with a NULL `to`, which gives the patch `null`.
- CompareItems: two different items are compared only if they share no nodes, and NULL arguments, which are never equal, are not modelled.
- CompareJson: the two trees share no nodes, as the calls in the code have it except for an item compared with itself, and NULL arguments are not modelled.
- The bit operations of `utf16_literal_to_utf8` are written as quotient and remainder by 64.
- Widths: positions, lengths and array indices do not wrap around, except that print buffers stop at `INT_MAX`.
- `cJSON_ParseWithLength` on buffers that do not end with a NUL, and `return_parse_end`.
- Creation helpers, type predicates and setters, which hold no algorithm.
- The dialogs, the WebSocket and WebRTC wrappers and the declarations of bundled libraries: no algorithm is visible there.
