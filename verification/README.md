# Verification of the embedded application

This project models the parts of the repository that carry state, arithmetic or a protocol, and proves what they are
for. Every statement is about all inputs, all runs or all reachable states.

Code that changes things step by step is modelled that way: the sibling lists, the print and parse buffers, the
upgrade driver, the kernel lists, the scheduler, the MD5 context and the MQTT reader are classes with fields, nodes
and arrays, and each method is proved against a function of its inputs or its old state. The laws are then lemmas
about those functions. Trees are values: `Json` is a tree as it is stored, with members in order, and `Tree` is what
it means, with objects as maps.

| part | modules |
|---|---|
| Shared definitions | Common |
| JSON trees, lists and comparison | CStrings, SortSeq, SiblingList, ListEdits, JsonValue, JsonCompare |
| JSON printer and parser | JsonPrint, PrintBuffer, JsonParse, JsonUnicode, JsonRoundTrip |
| JSON Patch and JSON Merge Patch | JsonPointer, JsonPatch, JsonPatchProof, JsonPatchRoundTrip, JsonPatchLimits, MergePatch, MergePatchRoundTrip, MergePatchLimits |
| Firmware upgrade | Crc32, Flash, FwDownload, FwUpgrade, FwSession, FwBoot, PowerLoss |
| Kernel lists and co-routines | RtosList, Coroutine, CoroutineLists |
| MD5 | Md5, Md5Rounds |
| MQTT packets and reader | MqttWire, MqttPublish, MqttSubscribe, MqttConnect, MqttReader |
| Calendar | Calendar |

`dafny verify dfyconfig.toml` checks the whole project.

## Findings

Some laws do not hold of the code as it stands. For each there is the exact condition under which it does.

- JSON pointer escapes (`cJSON/cJSON_Utils.c:159-169`, `:355-358`) do not survive: `~` becomes `~1`, the first
  character of the escape of `/` stays unwritten, and decoding writes `/` one place too far. A name survives
  exactly when it has no `/`, and `~` nowhere but at its end (`NameSurvivesIff`, `RemovalWorksIff`).
  Removals of other names fail with a status, but additions report success and store another name (`AdditionStores`).
- The case-sensitive patch functions detach without regard to case (`SensitiveRemovalIff`).
- So generated patches restore every document over a set of names exactly when no name needs an escape and, in the
  case-sensitive mode, no two names differ in case only (`PatchWorksIff`).
- Merge patches sort without case and walk with case, at the top in one mode and below a common member in both. They
  restore every document over a set of names exactly when ignoring case does not change the order of the names
  (`MergePatchWorksIff`, `PairIsLost`, `SpellingIsLost`), and cannot express a null that `from` does not have
  (`MergePatchRoundTripIff`).
- `cJSON_PrintPreallocated` needs the text and exactly two more bytes; the header advises five (`PrintPreallocated`).
- A packet is accepted by `FW_UPG_WriteData` exactly when it starts on a word boundary or completes no word
  (`TakeBytes`, `WriteData`).
- The tail of an image is written without erasing, which fails on used flash exactly for sizes that are 1, 2 or 3
  modulo 0x20000 (`TailAlwaysWorksIff`).
- A power loss after the magic word, or after the size when the CRC is not 0xFFFFFFFF, leaves a device that neither
  copies nor starts the intact application (`StrandedIff`, `StrandedStays`). No erase is ever started from there.
- The bootloader replaces the application by any image whose size and CRC check out, and then starts it only if its
  first word passes for a stack pointer; otherwise the device stays without application (`UpgradeCompletes`,
  `DeadStays`).
- A co-routine delay of 0 begun at the last tick before the wrap is the one case that would be missed
  (`FoundBeforeWrapIff`).
- `MQTTPacket_len` covers every packet the standard allows and no other, and overestimates at four lengths
  (`PacketLenCoversIff`, `PacketLenExactIff`).
- A refused PUBLISH is reported as 1, success, exactly when its length field has one byte
  (`RefusedLooksAcceptedIff`). A refused SUBSCRIBE has the same return code (`DeserializeSubscribe`).
- Flags and QoS values that do not fit their bits are cut silently (`PublishRoundTripIff`, `SubscribeRoundTripIff`,
  `ConnectRoundTripIff`), and an MQTTString with both forms of different lengths is measured by one and written by the
  other (`ExcessIff`, `PublishLengthIs`, `ConnectLengthIs`).
- CONNECT cannot carry an empty password, a password without user name, or an empty user name at the end of the
  packet (`ConnectRoundTripIff`).
- Dates are right exactly while the year fits 16 bits (`DaysToDateAgreesIff`).

## Model

| member | source | states |
|---|---|---|
| JsonPatchRoundTrip.PatchRoundTrip | cJSON/cJSON_Utils.c:1115-1253 | The JSON Patch law: the patches generated from `from` and `to`, applied in order to any document that means what `from` means, all succeed with status 0 and leave a document that means `to`; objects are maps, and names are free of `/` and `~`, distinct (in the document: distinct up to case) |
| JsonPatchLimits.PatchWorksIff | cJSON/cJSON_Utils.c:1115-1253 | The JSON Patch law, exactly: for trees over a set of names, the generated patches always restore `to` if and only if no name has a `/` or `~` and, in the case-sensitive mode, no two names differ in case only |
| JsonPatchRoundTrip.EditsReach | cJSON/cJSON_Utils.c:783-1010 | The round trip on the abstract edits behind the patches: applied to any document that means `from`, the edits from `from` to `to` succeed and leave what `to` means, for every pair of trees |
| JsonPatchRoundTrip.ArrayReach | cJSON/cJSON_Utils.c:1144-1187 | At every index of the element loop, the edits still to come turn what is left of the array into the target: rewriting in place, repeated removal at one index, then appending |
| JsonPatchRoundTrip.ObjectReach | cJSON/cJSON_Utils.c:1189-1246 | At every point of the two-list walk, what was done plus what is left of `from` is the current object, and the edits still to come turn it into what was done plus the rest of `to` |
| JsonPatchProof.CreateIsRender | cJSON/cJSON_Utils.c:1115-1253 | The pointer texts that are built with the escaping and the path buffer are the token paths of the abstract edits |
| JsonPatchProof.ApplyRendered | cJSON/cJSON_Utils.c:783-1010 | Applying a patch with its pointer text (split at the last slash, walk, detach, find the parent again, add) is the edit at its token path, with status 0 |
| JsonPatchProof.ApplyAllRendered | cJSON/cJSON_Utils.c:1012-1039 | A whole generated patch array, applied in order, is the sequence of edits, and no patch of it fails |
| JsonPatchProof.EditIsPut | cJSON/cJSON_Utils.c:406-457 | An edit changes the parent its path leads to and nothing else in the tree |
| JsonPatchProof.EditsShape | cJSON/cJSON_Utils.c:1115-1125 | The root itself is addressed only by a single replacement; every other patch has a non-empty path |
| JsonPatchProof.LiftEdits | cJSON/cJSON_Utils.c:1151-1165 | Patches generated for a child act inside that child and leave its siblings alone |
| JsonPatchLimits.RemovalWorksIff | cJSON/cJSON_Utils.c:155-177 | Removing a name with the generated patch works if and only if the name has no `/`, and no `~` before its last character; otherwise the status is not 0 and the document is unchanged |
| JsonPatchLimits.AdditionStores | cJSON/cJSON_Utils.c:936-990 | Adding a member by its generated patch always reports success, and stores it under the name that survives the escaping, which is another one exactly for names with a `/` or an inner `~` |
| JsonPatchLimits.NestedRemovalWorksIff | cJSON/cJSON_Utils.c:281-326 | Removing a member of a member by its generated patch works if and only if the outer name has no `~` and the inner one survives the escaping; otherwise the status is not 0 and the document is unchanged |
| JsonPatchLimits.EscapeLoses | cJSON/cJSON_Utils.c:155-177 | Every name that needs an escape has a document over that name alone that is not restored |
| JsonPatchLimits.SpellingLoses | cJSON/cJSON_Utils.c:440-443 | Every two names that differ in case only have a document over them that the case-sensitive patches do not restore |
| JsonPatchLimits.SensitiveRemovalIff | cJSON/cJSON_Utils.c:440-443 | A case-sensitive removal takes out the member it names if and only if no member ahead of it has that name up to case |
| JsonPatchLimits.SensitiveRemovalHitsWrongMember | cJSON/cJSON_Utils.c:440-443 | A concrete case: the case-sensitive patch removing `/a` from an object with `A` and then `a` removes `A` and reports success |
| JsonPatch.CreatePatchesInto | cJSON/cJSON_Utils.c:1115-1253 | The recursive generator, appending to the given patch array, produces the patch list that the round trip is proved of |
| JsonPatch.ArrayPatchesInto | cJSON/cJSON_Utils.c:1144-1187 | The three element loops of the generator emit a patch per differing common element, then removals at one fixed index, then appends, as the round trip is proved of |
| JsonPatch.RemoveTailInto | cJSON/cJSON_Utils.c:1166-1179 | The loop over the leftover elements emits one removal for each, all at the same index |
| JsonPatch.AddTailInto | cJSON/cJSON_Utils.c:1180-1184 | The loop over the new elements emits one append for each, in order |
| JsonPatch.ObjectPatchesInto | cJSON/cJSON_Utils.c:1189-1246 | The walk over both sorted member lists ends with the patches for every name of either object, as the round trip is proved of |
| JsonPatch.ObjectStep | cJSON/cJSON_Utils.c:1199-1245 | Each round consumes a member of one list or of both, and emits exactly the patches for it |
| JsonPatch.ApplyPatches | cJSON/cJSON_Utils.c:1012-1039 | Patches are applied in order, the first failure stops the run, and something that is no array is refused with status 1 |
| JsonPointer.EscapeSurvivesIff | cJSON/cJSON_Utils.c:339-370 | Decoding an escaped name without `/` returns the name if and only if `~` stands nowhere but at its end; otherwise a `/` appears in it |
| JsonPointer.NameSurvivesIff | cJSON/cJSON_Utils.c:155-177 | Exactly which names survive escaping and unescaping, whatever byte the escape of `/` leaves unwritten (other than `~`): those without `/` and with `~` nowhere but at their end |
| JsonPointer.DecodedLength | cJSON/cJSON_Utils.c:339-370 | Decoding makes a text shorter by one character for each escape |
| JsonPointer.EncodedLength | cJSON/cJSON_Utils.c:139-177 | Encoding makes a name longer by one character for each `/` and `~` |
| JsonPointer.EncodedNameMatchesIff | cJSON/cJSON_Utils.c:102-136 | Within a pointer, the escaped name finds its own member if and only if the name has no `~` |
| JsonPointer.CompareCleanToken | cJSON/cJSON_Utils.c:102-136 | A token without escapes names exactly the members equal to it (ignoring case where the mode says so), whatever follows it |
| JsonPointer.FindCleanToken | cJSON/cJSON_Utils.c:304-312 | The walk over the members stops at the first one of that name |
| JsonPointer.DecodeClean | cJSON/cJSON_Utils.c:339-370 | Names without escapes are decoded to themselves |
| JsonPointer.DecodeIndexOfDecimal | cJSON/cJSON_Utils.c:254-279 | Printing an array index and decoding it returns the index, for every index that fits a size_t |
| JsonPointer.LocateJoin | cJSON/cJSON_Utils.c:281-326 | Walking a pointer text visits the items its tokens name, one by one |
| JsonPointer.GetAfterPut | cJSON/cJSON_Utils.c:760-781 | An item that was overwritten is found at its place with its new content |
| JsonPointer.PutTwice | cJSON/cJSON_Utils.c:863-1007 | A replacement, done as a detach and an add at the same parent, leaves only the second change |
| JsonCompare.CompareDecidesMeaning | cJSON/cJSON_Utils.c:580-666 | compare_json says yes if and only if the trees mean the same: arrays in order, objects as maps |
| JsonCompare.SamePairsIffSameMap | cJSON/cJSON_Utils.c:634-658 | Comparing two sorted member lists pair by pair decides whether they are the same map |
| JsonCompare.CompareJsonLoop | cJSON/cJSON_Utils.c:580-666 | The loops of compare_json, with their early exits, decide the comparison that CompareDecidesMeaning is about |
| JsonValue.GetObjectItemReadsView | cJSON/cJSON.c:1777-1807 | Looking a name up finds the value the object maps it to, or nothing if it maps the name to nothing |
| JsonValue.SortKeepsMeaning | cJSON/cJSON_Utils.c:571-578 | Sorting an object, as the comparison and both generators do to their arguments, does not change what it means |
| JsonValue.ViewRemoveAt | cJSON/cJSON.c:2080-2108 | Detaching a member takes its name out of the map and nothing else |
| JsonValue.ViewAppend | cJSON/cJSON.c:1904-1939 | Adding a member of a new name extends the map by it |
| JsonValue.ViewUpdateAt | cJSON/cJSON_Utils.c:783-1010 | Changing the value of a member changes the map at its name only |
| MergePatchLimits.MergePatchWorksIff | cJSON/cJSON_Utils.c:1364-1440 | The merge patch law on names, exactly: for trees over a set of names and `to` without null members, generating and merging always restores `to` if and only if ignoring case does not change the order of the names; in the case-sensitive mode that concerns the names below the first level only |
| MergePatchRoundTrip.MergePatchRoundTripIff | cJSON/cJSON_Utils.c:1364-1440 | The merge patch law, exactly: for names whose order does not depend on case, no patch is generated if and only if both are equal objects; and merging a generated patch into a document that means `from` gives `to` if and only if every null member of `to` is already there in `from` |
| MergePatchRoundTrip.MergeDiffIff | cJSON/cJSON_Utils.c:1295-1352 | On meanings: the procedure of section 2 of RFC 7396, applied to a tree and its difference to another one, gives that other one if and only if its null members are shared |
| MergePatchRoundTrip.NoNullsAreShared | cJSON/cJSON_Utils.c:1404-1425 | A `to` without null members satisfies the condition of the merge patch round trip, whatever `from` is |
| MergePatchRoundTrip.LowerCaseNamesSortAlike | cJSON/cJSON_Utils.c:1379-1392 | Names without upper-case letters have an order that does not depend on case |
| MergePatchRoundTrip.GenerateMeansDiff | cJSON/cJSON_Utils.c:1364-1440 | The generated patch means the difference of the two maps; it is absent exactly when there is none |
| MergePatchRoundTrip.GeneratesAlike | cJSON/cJSON_Utils.c:1424 | The generator recurses into the case-insensitive variant; on names whose order does not depend on case the patch is the same in both modes |
| MergePatchRoundTrip.AppliesAlike | cJSON/cJSON_Utils.c:1312-1350 | On names whose order does not depend on case, merge_patch gives the same tree in both modes |
| MergePatchRoundTrip.JsonComparesAlike | cJSON/cJSON_Utils.c:1421 | On such names the comparison decides the same in both modes |
| MergePatchLimits.SameOrderRestores | cJSON/cJSON_Utils.c:1295-1440 | On names in the same order every document is restored, in both modes |
| MergePatchLimits.PairIsLost | cJSON/cJSON_Utils.c:1385-1431 | Any two names that sort one way without case and the other way with it: the patch from both to the smaller one deletes both |
| MergePatchLimits.SpellingIsLost | cJSON/cJSON_Utils.c:1312-1350 | Any two names that differ in case only, in the case-insensitive mode: replacing one by the other deletes both |
| MergePatchLimits.NestedPairIsLost | cJSON/cJSON_Utils.c:1419-1425 | In the case-sensitive mode such names are lost below a common member, because the generator recurses into the case-insensitive variant |
| MergePatchLimits.MeansAlike | cJSON/cJSON_Utils.c:580-666 | On names in the same order, both modes find the same trees equal |
| MergePatchLimits.MixedCaseLosesMember | cJSON/cJSON_Utils.c:1385-1431 | A concrete pair: from {a, B} and to {B}, the generator sorts without case and walks with case, and its patch deletes both members |
| MergePatch.ApplyIsMerge | cJSON/cJSON_Utils.c:1295-1352 | merge_patch means the recursive procedure of section 2 of RFC 7396, for every target and patch |
| MergePatch.MembersAreMerged | cJSON/cJSON_Utils.c:1312-1350 | The loop over the members of the patch merges them as maps, in any order |
| MergePatch.MergeFieldsStep | cJSON/cJSON_Utils.c:1313-1350 | Merging one member first and the others afterwards is merging all |
| MergePatch.ApplyLoop | cJSON/cJSON_Utils.c:1295-1352 | The loop with its detach, recursion and append computes that merge |
| MergePatch.GenerateLoop | cJSON/cJSON_Utils.c:1364-1440 | The generator computes the patch that the round trip is proved of |
| MergePatch.WalkLoop | cJSON/cJSON_Utils.c:1385-1431 | The walk over both member lists ends with the members of the patch that the round trip is proved of |
| MergePatch.WalkStep | cJSON/cJSON_Utils.c:1385-1431 | Each round consumes a member of one list or of both, and adds what belongs to it |
| SiblingList.SortList | cJSON/cJSON_Utils.c:460-569 | The in-place sort of any linked sibling list terminates and returns the same nodes, linked both ways with NULL at both ends, in the order of the sorting function |
| SiblingList.IsSorted | cJSON/cJSON_Utils.c:474-483 | The early test finds exactly the strictly ascending lists |
| SiblingList.FindMiddle | cJSON/cJSON_Utils.c:485-497 | The two walking pointers meet at the middle |
| SiblingList.Split | cJSON/cJSON_Utils.c:498-503 | Cutting leaves two linked lists that together are the old one |
| SiblingList.SortHalves | cJSON/cJSON_Utils.c:505-568 | Sorting the halves and merging them sorts the list |
| SiblingList.SortBoth | cJSON/cJSON_Utils.c:505-507 | Sorting one half does not disturb the other |
| SiblingList.MergeLists | cJSON/cJSON_Utils.c:508-568 | Merging by relinking visits every node once and leaves a linked list |
| SiblingList.TakeSmaller | cJSON/cJSON_Utils.c:511-545 | One round of the merge hangs the smaller of the two heads on the tail and advances its list; on equal keys the second list goes first |
| SiblingList.Finish | cJSON/cJSON_Utils.c:547-566 | The rest of the longer list is hung on as it is |
| SiblingList.MergeAdvances | cJSON/cJSON_Utils.c:511-545 | What is merged so far and what is still to be merged make up the merge of both lists, after each round |
| SiblingList.MergeFinished | cJSON/cJSON_Utils.c:547-566 | When one list is used up, appending the rest of the other completes the merge |
| SortSeq.SortIsSortedPermutation | cJSON/cJSON_Utils.c:460-569 | The order is a permutation of the input, ascending by key |
| SortSeq.SortIsStrict | cJSON/cJSON_Utils.c:460-569 | With distinct keys it is strictly ascending |
| SortSeq.MergeIsAscending | cJSON/cJSON_Utils.c:509-566 | Merging ascending lists gives an ascending list |
| SortSeq.MergeIsPermutation | cJSON/cJSON_Utils.c:509-566 | Merging two lists loses and doubles nothing |
| CStrings.CompareIsNormed | cJSON/cJSON_Utils.c:73-99 | Both comparisons are strcmp on the keys, lower-cased or not |
| CStrings.StrcmpZero | cJSON/cJSON_Utils.c:73-99 | strcmp is 0 if and only if the strings are equal |
| CStrings.CompareZero | cJSON/cJSON_Utils.c:73-99 | compare_strings is 0 if and only if the names are equal, up to case in the case-insensitive mode |
| CStrings.ComparisonTransitive | cJSON/cJSON.c:99-127 | The comparison is transitive, strictly so when one step is strict |
| CStrings.ComparisonAntisymmetric | cJSON/cJSON.c:99-127 | Exchanging the arguments changes the sign |
| ListEdits.Parent.constructor | cJSON/cJSON.c:207-216 | A new item has no children |
| ListEdits.Parent.AddItemToArray | cJSON/cJSON.c:1853-1880 | Adding appends the item; the links stay consistent both ways |
| ListEdits.Parent.ItemAt | cJSON/cJSON_Utils.c:242-252 | The item `which` steps from the first, or NULL |
| ListEdits.Parent.InsertItemInArray | cJSON/cJSON_Utils.c:669-704 | Inserting at an index shifts the rest, the end itself appends, and an index past the end is refused with nothing changed |
| ListEdits.Parent.InsertBefore | cJSON/cJSON_Utils.c:688-701 | Relinking puts the item in front of the one found, at the head as well |
| ListEdits.Parent.DetachItem | cJSON/cJSON.c:2080-2108 | Detaching takes out that item alone, relinks its neighbours or the head, and clears its own links |
| ListEdits.Parent.DetachItemFromArray | cJSON/cJSON_Utils.c:373-403 | By index: the item is returned with its links cleared, or NULL and nothing is changed |
| ListEdits.Parent.SortObject | cJSON/cJSON_Utils.c:571-578 | Sorting leaves the parent with the sorted list |
| JsonRoundTrip.PrintThenParse | cJSON/cJSON.c:1005-1082 | The printer and parser law: the formatted or unformatted text of a tree with NUL-free strings and at most 1000 nested containers parses to the same tree, and the parser consumes the whole text |
| JsonRoundTrip.ParseUndoesPrint | cJSON/cJSON.c:1217-1269 | Wherever the text of a value stands in a longer text, followed by something that is no number character, parsing there returns the value and ends behind it |
| JsonRoundTrip.ArrayRoundTrip | cJSON/cJSON.c:1346-1437 | A printed array is parsed back, through its brackets and commas, ending behind its closing bracket |
| JsonRoundTrip.ObjectRoundTrip | cJSON/cJSON.c:1502-1608 | A printed object is parsed back, through its indentation, colons and commas, ending behind its closing brace |
| JsonRoundTrip.StringRoundTrip | cJSON/cJSON.c:703-829 | A printed string is read back, and reading ends behind its closing quote |
| JsonRoundTrip.FindsClose | cJSON/cJSON.c:716-738 | The closing quote that the sizing loop finds is the one the printer wrote, however many quotes are escaped before it |
| JsonRoundTrip.UnescapeUndoesEscape | cJSON/cJSON.c:750-804 | Unescaping the escaped characters gives the string |
| JsonRoundTrip.NumberRoundTrip | cJSON/cJSON.c:271-345 | A printed number is collected whole and read back, with its saturated integer |
| JsonRoundTrip.GoodIsPrintable | cJSON/cJSON.c:1272-1343 | The trees of the round trip are trees the printer accepts |
| JsonUnicode.EscapedTextReads | cJSON/cJSON.c:582-700 | Any sequence of Unicode scalar values written as \u escapes is read as a text that decodes, by the rules of RFC 3629, to those values |
| JsonUnicode.UnicodeEscapeReads | cJSON/cJSON.c:582-700 | One escape or one surrogate pair is read as the UTF-8 form of its code point, and consumed whole |
| JsonUnicode.LoneEscapeReadIff | cJSON/cJSON.c:592-643 | A single escape is accepted if and only if it is not half of a surrogate pair |
| JsonUnicode.TwoEscapesRead | cJSON/cJSON.c:592-643 | Of two escapes in a row the first stands alone, or both form a surrogate pair, or both are refused |
| JsonUnicode.Utf8Decodes | cJSON/cJSON.c:645-694 | The bytes written are the shortest UTF-8 form of the code point |
| JsonUnicode.HexReads | cJSON/cJSON.c:545-578 | Four hexadecimal digits are read as their number |
| JsonPrint.TextHasNoNul | cJSON/cJSON.c:1272-1343 | The text of a tree of C strings is itself a C string, so strlen finds its end |
| JsonPrint.EscapeHasNoNul | cJSON/cJSON.c:832-951 | Escaping introduces no NUL |
| PrintBuffer.PrintItem | cJSON/cJSON.c:1092-1154 | Printing returns exactly the text of the tree, unless the tree has an invalid item or the text and two bytes exceed INT_MAX |
| PrintBuffer.PrintPreallocated | cJSON/cJSON.c:1197-1214 | Printing into a given buffer succeeds if and only if it has two bytes more than the text, and then it holds the text and its NUL; cJSON.h line 160 advises five |
| PrintBuffer.Printer.constructor | cJSON/cJSON.c:1092-1113 | A fresh buffer holds the empty text at depth 0 |
| PrintBuffer.Printer.Ensure | cJSON/cJSON.c:378-463 | A reservation succeeds if and only if the capacity allows; growing keeps every byte before the offset, and there is room for what was asked |
| PrintBuffer.Printer.UpdateOffset | cJSON/cJSON.c:466-476 | The offset moves to the end of the text that was written |
| PrintBuffer.Printer.PrintLiteral | cJSON/cJSON.c:1283-1308 | A constant is appended to what is there, or there is no room for it |
| PrintBuffer.Printer.PrintNumber | cJSON/cJSON.c:479-542 | The number text is appended, or there is no room for it |
| PrintBuffer.Printer.CountEscapes | cJSON/cJSON.c:859-883 | The sizing pass counts exactly the characters that escaping adds |
| PrintBuffer.Printer.PrintStringPtr | cJSON/cJSON.c:832-951 | The quoted, escaped string is appended; it fails if and only if that does not fit |
| PrintBuffer.Printer.WriteEscaped | cJSON/cJSON.c:907-945 | One character is written in as many bytes as its escape has, inside the reserved room |
| PrintBuffer.Printer.WriteQuoted | cJSON/cJSON.c:902-948 | The writing pass fills exactly what the sizing pass reserved |
| PrintBuffer.Printer.PrintElements | cJSON/cJSON.c:1463-1487 | The elements and the separators between them are appended in order |
| PrintBuffer.Printer.PrintArray | cJSON/cJSON.c:1440-1499 | The array text is appended and the depth restored, if and only if it fits and every element can be printed |
| PrintBuffer.Printer.PrintMembers | cJSON/cJSON.c:1638-1702 | The members are appended in order, with their indentation, colons and commas |
| PrintBuffer.Printer.PrintObject | cJSON/cJSON.c:1611-1722 | The object text is appended and the depth restored, if and only if it fits and every member can be printed |
| PrintBuffer.Printer.PrintValue | cJSON/cJSON.c:1272-1343 | The value text is appended behind what is there; it fails if and only if an item is invalid or the text and two bytes exceed the capacity |
| JsonParse.Parse | cJSON/cJSON.c:1005-1082 | The parser over its buffer returns what the round trip is proved of: the tree and where parsing ended, or a failure |
| JsonParse.ParseBuffer.SkipWhitespace | cJSON/cJSON.c:968-986 | The offset moves to the next visible character, and at the end of the buffer steps back onto the NUL |
| JsonParse.ParseBuffer.ParseStringAt | cJSON/cJSON.c:703-829 | The literal at the offset is read up to its closing quote and unescaped, or refused |
| JsonParse.ParseBuffer.UnescapeLoop | cJSON/cJSON.c:750-804 | The copying loop unescapes, or fails at the first bad escape |
| JsonParse.ParseBuffer.NumberRunLoop | cJSON/cJSON.c:287-317 | At most 63 number characters are collected |
| JsonParse.ParseBuffer.ParseNumberAt | cJSON/cJSON.c:271-345 | The number at the offset is read with as many characters as strtod consumed |
| JsonParse.ParseBuffer.ParseValueAt | cJSON/cJSON.c:1217-1269 | One value is read, whatever it is, and the depth restored; parsing always advances |
| JsonParse.ParseBuffer.ParseArrayAt | cJSON/cJSON.c:1346-1437 | An array is read with its closing bracket, or refused beyond the nesting limit |
| JsonParse.ParseBuffer.ParseItemsAt | cJSON/cJSON.c:1381-1413 | The element loop reads elements up to the first one that no comma follows, and fails with the first element that does |
| JsonParse.ParseBuffer.ParseObjectAt | cJSON/cJSON.c:1502-1608 | An object is read with its closing brace, or refused beyond the nesting limit |
| JsonParse.ParseBuffer.ParseMemberAt | cJSON/cJSON.c:1558-1583 | A name, a colon and a value |
| JsonParse.ParseBuffer.ParseMembersAt | cJSON/cJSON.c:1535-1585 | The member loop reads members up to the first one that no comma follows, and fails with the first member that does |
| PowerLoss.AlwaysSafe | Listings/fw_boot_fixed.c:99-182 | Power-loss safety over all runs: with power lost between any two flash operations of download, flag, copy and flag removal, every reachable state has the installed image whole in the application sectors, or a flag that matches the backup |
| PowerLoss.UpgradeCompletes | Listings/fw_boot_fixed.c:99-182 | After a complete download, however many boots are cut at whatever operation, the first boot that gets through has installed exactly the image, padded with 0xFF, and runs it if and only if its first word passes for a stack pointer |
| PowerLoss.DeadStays | Listings/fw_boot_fixed.c:190-230 | An installed image whose first word does not pass for a stack pointer is never started, whatever happens next: the copy checks size and CRC, but not that word |
| PowerLoss.InstallsInTheEnd | Listings/fw_boot_fixed.c:99-182 | From any state whose flag is accepted: after any boots that were cut, a boot that gets through has installed what the flag promised, and runs it if and only if its first word passes for a stack pointer |
| PowerLoss.SafeNext | Listings/fw_boot_fixed.c:99-182 | Each step of work, flag write, power loss or boot keeps the invariant |
| PowerLoss.CutBootKeepsPromise | Listings/fw_boot_fixed.c:99-182 | A boot that is cut anywhere leaves a flag that still matches the backup, so the next one starts over with the same promise |
| PowerLoss.FullBootInstalls | Listings/fw_boot_fixed.c:238-254 | A boot that gets through leaves the promised words in the application sectors and no flag |
| PowerLoss.StrandedStays | Listings/fw_boot_fixed.c:99-140 | A half-written flag never starts an erase: the bootloader leaves the flash as it is, every time |
| PowerLoss.StrandedIff | FwUpgrade/fw_upgrade.c:291-303 | Where the flag write strands the device: if and only if it is cut after the magic, or after the size when the CRC is not 0xFFFFFFFF |
| PowerLoss.DownloadIsAccepted | FwUpgrade/fw_upgrade.c:219-315 | The bootloader accepts the flag that a complete session records, and the flag promises the image |
| PowerLoss.SessionIsRun | FwUpgrade/fw_upgrade.c:129-315 | A complete session is a run of the protocol |
| PowerLoss.UpgradeIsWork | FwUpgrade/fw_upgrade.c:42-56 | A download programs and erases the backup sectors only |
| PowerLoss.RefusedIsWork | FwUpgrade/fw_upgrade.c:165-210 | A refused packet programs and erases the backup sectors only |
| FwSession.Download | Components/ota/ota_mmi.c:284-417 | Start, packets, finish: success if and only if the size is within the partition, every packet is accepted, all bytes arrived and the tail can be written; then the backup holds the first `size` bytes received |
| FwSession.ReceiveAll | Components/ota/ota_mmi.c:284-417 | The packets are taken in order; padding behind the announced size is dropped; a refused packet stops the download |
| FwSession.WholeWordsAccepted | FwUpgrade/fw_upgrade.c:165-210 | Every split of an image into packets of whole words, the last excepted, is accepted |
| FwSession.TailAlwaysWorksIff | FwUpgrade/fw_upgrade.c:229-244 | The tail word is written without erasing: it can always be written, whatever the flash held before, if and only if the size modulo 0x20000 is not 1, 2 or 3 |
| FwSession.TailDecidedBefore | FwUpgrade/fw_upgrade.c:229-244 | Whether the tail can be written is decided by the flash as it was before the download |
| FwSession.SessionIsDisciplined | FwUpgrade/fw_upgrade.c:229-244 | For sizes that are not 1, 2 or 3 modulo 0x20000, a session erases every sector at most once and before any word in it, and programs every word once from the erased state |
| FwUpgrade.Upgrade.constructor | FwUpgrade/fw_upgrade.c:92-107 | A fresh or reset driver is idle |
| FwUpgrade.Upgrade.StartUpdate | FwUpgrade/fw_upgrade.c:129-143 | A size of 0 or beyond the partition is refused; otherwise reception starts with nothing received and nothing erased |
| FwUpgrade.Upgrade.EraseBefore | FwUpgrade/fw_upgrade.c:42-56 | A sector is erased exactly when the address passes what was erased so far; beyond the partition it fails |
| FwUpgrade.Upgrade.StoreWord | FwUpgrade/fw_upgrade.c:189-203 | A full write buffer becomes the next word of the image, its sector erased first if it is new; at an unaligned address it fails |
| FwUpgrade.Upgrade.TakeByte | FwUpgrade/fw_upgrade.c:187-203 | A byte is buffered, and the fourth one writes the word |
| FwUpgrade.Upgrade.TakeBytes | FwUpgrade/fw_upgrade.c:186-204 | A packet is stored whole if and only if it starts at a word boundary or does not complete a word |
| FwUpgrade.Upgrade.StorePacket | FwUpgrade/fw_upgrade.c:185-209 | When a packet is stored, CRC and received size advance with it; when that fails, the update ends |
| FwUpgrade.Upgrade.Advance | FwUpgrade/fw_upgrade.c:206-207 | CRC and received size of the bytes so far, after the packet |
| FwUpgrade.Upgrade.WriteData | FwUpgrade/fw_upgrade.c:165-210 | The exact condition for a packet to be accepted, what is received with it, and what the flash looks like after a refused one |
| FwUpgrade.Upgrade.WriteTail | FwUpgrade/fw_upgrade.c:229-244 | The incomplete last word is padded with 0xFF and programmed in place |
| FwUpgrade.Upgrade.ReadBack | FwUpgrade/fw_upgrade.c:255-278 | The read-back loop computes the CRC of the bytes in the backup |
| FwUpgrade.Upgrade.WriteFlag | FwUpgrade/fw_upgrade.c:291-303 | The flag sector is erased and the three words written; that never fails |
| FwUpgrade.Upgrade.Finish | FwUpgrade/fw_upgrade.c:219-315 | Outcome, flash and state in every case; on success the read-back never differs, so the mismatch branch is unreachable, and the backup holds the bytes received |
| FwUpgrade.Upgrade.Reset | FwUpgrade/fw_upgrade.c:92-96 | A reset leaves the driver idle with nothing announced or received |
| FwUpgrade.TailLeaves | FwUpgrade/fw_upgrade.c:229-244 | After the tail the backup holds all bytes, and flag and application sectors are untouched |
| FwUpgrade.FlagLeaves | FwUpgrade/fw_upgrade.c:291-303 | The flash after any number of the four flag operations |
| FwUpgrade.ErasedForWord | FwUpgrade/fw_upgrade.c:42-56 | Every word is erased when it is programmed |
| FwDownload.DownloadLeaves | FwUpgrade/fw_upgrade.c:165-210 | After n words the backup holds the image words, erased words up to the end of the last sector begun, and the old content behind it |
| FwDownload.WordStep | FwUpgrade/fw_upgrade.c:189-203 | Each word takes the flash from n words to n + 1 |
| FwDownload.DownloadOpsOfPrefix | FwUpgrade/fw_upgrade.c:165-210 | What is written for complete words does not depend on later bytes |
| FwDownload.DownloadIsDisciplined | FwUpgrade/fw_upgrade.c:42-56 | Every sector is erased at most once and first, every word programmed once |
| FwBoot.CopyFirmware | Listings/fw_boot_fixed.c:99-182 | The copy takes place if and only if size and CRC of the backup check out; otherwise the result tells which failed and the flash is left alone; a copy programs exactly the words of the image and clears the flag last |
| FwBoot.IsUpdateRequired | Listings/fw_boot_fixed.c:86-91 | The magic word alone decides |
| FwBoot.JumpToApp | Listings/fw_boot_fixed.c:190-197 | The application is started if and only if its first word, masked, is the base of the RAM |
| FwBoot.Clear | Listings/fw_boot_fixed.c:238-254 | The flag sector is erased last, and that completes the installation |
| FwBoot.EraseApp | Listings/fw_boot_fixed.c:141-150 | The three application sectors are erased in order |
| FwBoot.CopyWords | Listings/fw_boot_fixed.c:154-168 | The copy loop, with its last incomplete word, ends at the first word that cannot be written; there is none, so the error return is unreachable |
| FwBoot.ErasesInstall | Listings/fw_boot_fixed.c:141-150 | After the erases the application sectors are erased and nothing else changed |
| FwBoot.CopiesInstall | Listings/fw_boot_fixed.c:154-168 | After n words the application holds those words of the backup and is erased behind them |
| FwBoot.Boot | Listings/fw_boot_fixed.c:86-230 | The boot driver: the application starts if and only if there is no flag or the copy succeeded, and its first word passes for a stack pointer |
| Crc32.CrcsAgree | Listings/fw_boot_fixed.c:309-320 | For every byte string the table CRC of the bootloader is the bitwise CRC of the application |
| Crc32.BitCrcOfPackets | FwUpgrade/fw_upgrade.c:66-83 | Accumulating over any split into packets is accumulating the whole |
| Crc32.ByteStepsAgree | Listings/fw_boot_fixed.c:314-317 | One table step is eight bit steps |
| Crc32.TableIsShifts | Listings/fw_boot_fixed.c:31-64 | Each of the 256 literal entries is eight bit steps of its index |
| Crc32.RowsAgree | Listings/fw_boot_fixed.c:31-64 | The columns of each listed row follow from its first entry and the first row |
| Crc32.HighShifts | FwUpgrade/fw_upgrade.c:73-79 | Eight bit steps of a word without low bits only shift it |
| Crc32.ShiftsXor | FwUpgrade/fw_upgrade.c:73-79 | The bit steps are linear |
| Crc32.UpdateCrc | FwUpgrade/fw_upgrade.c:66-83 | The two loops compute the bitwise CRC |
| Crc32.CalculateCrc | Listings/fw_boot_fixed.c:309-320 | The loop of the bootloader computes the recorded CRC |
| Crc32.GenerateTable | Listings/gen_fw_boot_fixed.py:11-19 | The generator produces exactly the listed table |
| Flash.RunConcat | Platform/drv_flash/drv_flash.c:31-108 | Operations one after the other are one run of operations |
| Flash.WordsHoldBytes | FwUpgrade/fw_upgrade.c:255-278 | Words assembled little-endian give back their bytes |
| Flash.ByteOfDataWord | FwUpgrade/fw_upgrade.c:190-193 | Byte k of the image is byte k mod 4 of word k / 4 |
| Flash.Chip.WriteWord | Platform/drv_flash/drv_flash.c:31-61 | A program operation clears bits only; it succeeds if and only if the address is aligned and the word was erased or is the value already |
| Flash.Chip.EraseSector | Platform/drv_flash/drv_flash.c:74-108 | The sector of the address becomes all ones, and nothing else changes |
| Flash.Chip.ReadWord | Platform/drv_flash/drv_flash.c:69-72 | The word at the address |
| RtosList.RoundRobin | FreeRTOS/include/list.h:318-329 | As many next-entry calls as there are items return every item exactly once, in the order of the list from the index on |
| RtosList.VisitsInOrder | FreeRTOS/include/list.h:318-329 | Up to as many next-entry calls as there are items return that many items in walking order |
| RtosList.WalkAdvances | FreeRTOS/include/list.h:318-329 | Each next-entry call returns the first item in walking order and makes it the last |
| RtosList.InsertEndWalksLast | FreeRTOS/src/list.c:116-142 | An item inserted at the end is visited after all others, except the one the index stands on |
| RtosList.RemoveKeepsWalk | FreeRTOS/src/list.c:212-238 | Removing an item, even the one the index stands on, keeps the order in which the others are visited |
| RtosList.InsertKeepsOrder | FreeRTOS/src/list.c:145-209 | An ordered insertion keeps the list ascending and puts the item behind all items of equal value |
| RtosList.List.constructor | FreeRTOS/src/list.c:79-101 | An initialised list is a ring of the end marker alone |
| RtosList.List.InsertEnd | FreeRTOS/src/list.c:116-142 | The ring is kept in both directions, the count and the containers too, with the item just before the index |
| RtosList.List.Insert | FreeRTOS/src/list.c:145-209 | The ordered insertion keeps the ring in both directions, the count and the containers, puts the item before the first larger value and terminates, including for the value portMAX_DELAY |
| RtosList.List.FindPlace | FreeRTOS/src/list.c:164-197 | The search stops before the first larger value |
| RtosList.List.Take | FreeRTOS/src/list.c:212-238 | Unlinking keeps the ring and steps the index back when it stood on the item |
| RtosList.List.Remove | FreeRTOS/src/list.c:212-238 | The item leaves the list it names as its container, and the number of items left is returned |
| RtosList.List.NextEntry | FreeRTOS/include/list.h:318-329 | The next entry, past the end marker |
| RtosList.LinkedIn | FreeRTOS/src/list.c:129-136 | The four assignments link an item into a ring and leave every other link alone |
| RtosList.LinkedOut | FreeRTOS/src/list.c:218-219 | The two assignments link it out |
| Coroutine.Scheduler.CheckDelayedList | FreeRTOS/src/croutine.c:262-317 | For any advance of the 32-bit tick count, exactly the co-routines whose deadline is reached become ready and leave their event lists; all others stay as they are |
| Coroutine.WakeTimeIsExact | FreeRTOS/src/croutine.c:201-236 | As ticks pass, up to the delay, the 32-bit tick count equals the wake time at exactly one tick: when the delay has passed |
| Coroutine.FoundBeforeWrapIff | FreeRTOS/src/croutine.c:201-236 | A wake time that is put on the list in use is met before the counter wraps, except for a delay of 0 begun at the last tick; croutine.h lines 332 to 335 guard against 0 |
| Coroutine.WakeTimeIs | FreeRTOS/src/croutine.c:207-222 | The wake time is smaller than the tick count if and only if it lies behind the wrap |
| Coroutine.Scheduler.AdvanceTick | FreeRTOS/src/croutine.c:269-282 | A tick advances the count by one modulo 2^32; when it wraps, the list in use is empty and the lists are swapped |
| Coroutine.Scheduler.NothingLeft | FreeRTOS/src/croutine.c:273-282 | Just after the wrap no co-routine is left in the list that was in use |
| Coroutine.Scheduler.SwapDelayLists | FreeRTOS/src/croutine.c:273-282 | Just after the wrap the list in use is empty, the other one takes its place, and every deadline is kept |
| Coroutine.Scheduler.WakeExpired | FreeRTOS/src/croutine.c:284-313 | In one tick, exactly the co-routines due at it are readied, each once |
| Coroutine.Scheduler.NoneExpired | FreeRTOS/src/croutine.c:289-293 | Stopping at the first item that is not due misses none |
| Coroutine.Scheduler.Schedule | FreeRTOS/src/croutine.c:320-347 | The co-routine chosen has the highest priority of all ready ones and goes last in its list; none is chosen only if none is ready |
| Coroutine.Scheduler.ChooseNext | FreeRTOS/src/croutine.c:328-341 | The co-routine chosen is the next in turn in the highest ready list |
| Coroutine.Scheduler.OneListEach | FreeRTOS/src/croutine.c:320-392 | Conservation: a generic item is in exactly one ready or delay list, an event item in at most one list, and a waiting co-routine is not ready |
| Coroutine.Scheduler.constructor | FreeRTOS/src/croutine.c:350-367 | All lists start empty |
| Coroutine.Scheduler.Create | FreeRTOS/src/croutine.c:144-198 | A new co-routine is ready at its clamped priority; the first becomes the current one; all others are untouched |
| Coroutine.Scheduler.NewRoutine | FreeRTOS/src/croutine.c:161-184 | A new control block is on no list and keeps every invariant |
| Coroutine.Scheduler.AddToReadyQueue | FreeRTOS/src/croutine.c:109-116 | The co-routine joins the end of the ready list of its priority, and the top priority is still at least every ready one |
| Coroutine.Scheduler.AddToDelayedList | FreeRTOS/src/croutine.c:201-236 | The current co-routine moves from its ready list to a delay list with the deadline asked for, and to the event list if one is given |
| Coroutine.Scheduler.InsertDelayed | FreeRTOS/src/croutine.c:214-228 | A wake time behind the wrap goes to the overflow list, any other to the list in use |
| Coroutine.Scheduler.InsertOverflow | FreeRTOS/src/croutine.c:217-222 | A wake time behind the wrap keeps its deadline in the overflow list, which stays in order |
| Coroutine.Scheduler.InsertInUse | FreeRTOS/src/croutine.c:223-228 | Any other wake time keeps its deadline in the list in use, which stays in order |
| Coroutine.Scheduler.InsertEvent | FreeRTOS/src/croutine.c:230-235 | The event list stays ordered by priority |
| Coroutine.Scheduler.TakeFromReady | FreeRTOS/src/croutine.c:212 | The generic item leaves its ready list |
| Coroutine.Scheduler.TakeEvent | FreeRTOS/src/croutine.c:304-308 | An event item leaves its list, if it is on one |
| Coroutine.Scheduler.TakeFromDelay | FreeRTOS/src/croutine.c:302 | A generic item leaves whichever delay list it is on |
| Coroutine.Scheduler.Unblock | FreeRTOS/src/croutine.c:239-259 | A blocked co-routine leaves its delay and event lists and becomes ready at its priority |
| Coroutine.Scheduler.CheckPendingReadyList | FreeRTOS/src/croutine.c:239-259 | Exactly the co-routines that events readied become ready; the pending list is empty afterwards |
| Coroutine.Scheduler.RemoveFromEventList | FreeRTOS/src/croutine.c:370-392 | The waiter of the highest priority moves to the pending list; the result says whether its priority reaches the current one; an interrupt may do so between any two list operations |
| CoroutineLists.AppendToReady | FreeRTOS/src/croutine.c:109-116 | The ready lists as linked lists: appending an item to the list is appending the co-routine to the queue, index included |
| CoroutineLists.InsertByTime | FreeRTOS/src/croutine.c:214-228 | The delay lists as linked lists: the ordered insertion puts the item where the scheduler puts the co-routine |
| CoroutineLists.TakeOut | FreeRTOS/src/croutine.c:212 | Removing an item of a linked list is taking its co-routine out of the queue, index included |
| CoroutineLists.NextInTurn | FreeRTOS/src/croutine.c:341 | The next entry of the linked list is the co-routine next in turn |
| Md5.Context.Final | tools/md5.c:170-199 | The digest is that of everything fed in: the block function folded over the message padded as in sections 3.1 and 3.2 of RFC 1321 |
| Md5.DigestOf | tools/md5.c:209-221 | Any number of updates and a final give the digest of the concatenation of the pieces |
| Md5.Context.Update | tools/md5.c:125-161 | An update appends its bytes to what was fed in, however it meets the block boundaries |
| Md5.Context.TakeBlocks | tools/md5.c:150-159 | The whole blocks of the rest of the input are folded in, and what is left is buffered |
| Md5.Context.Count | tools/md5.c:130-136 | The two 32-bit counters are the bit length modulo 2^64 after any update |
| Md5.CountsOn | tools/md5.c:130-136 | Adding a length to the two counters, with the carry and the bits shifted out of it, adds 8 times it modulo 2^64 |
| Md5.Context.CopyIn | tools/md5.c:138-148 | Bytes are appended to the buffer |
| Md5.Context.Apply | tools/md5.c:55-97 | The in-place block transform takes the registers to what the block function makes of them |
| Md5.Context.constructor | tools/md5.c:106-114 | A new context has taken in nothing |
| Md5.TailIsPadding | tools/md5.c:172-188 | The tail that is fed last is the padding of the RFC |
| Md5.ZerosAreLeast | tools/md5.c:178-181 | The padding has as few zeros as make the length 56 modulo 64, as section 3.1 of RFC 1321 asks |
| Md5.PaddedIsBlocks | tools/md5.c:178-188 | The padded message always ends on a block |
| Md5.FoldConcat | tools/md5.c:150-155 | Folding two runs of blocks one after the other is folding both |
| Md5.OneMore | tools/md5.c:150-155 | Folding one block more |
| Md5.OutputReads | tools/md5.c:190-196 | The output is the four registers, low byte first |
| Md5Rounds.TransformIsRounds | tools/md5.c:55-97 | The block function is that of section 3.4 of RFC 1321, written there as four rounds that update registers in place, with the words and shifts listed |
| Md5Rounds.StepsAreRounds | tools/md5.c:69-90 | Four steps of the loop, which moves the registers along, are four operations of the RFC |
| Md5Rounds.AuxiliaryIsMixed | tools/md5.c:43-46 | F and G choose, bit by bit, between two words |
| Md5Rounds.ListedIs | tools/md5.c:73-85 | The computed word of each step is the one the RFC lists |
| MqttReader.Poll | MQTT/MQTTPacket.c:362-411 | Fragmentation independence: for any schedule of empty, partial and full reads, repeated calls return 0 until the packet is complete, then its type, with the buffer holding the packet and the stream standing behind it |
| MqttReader.Read | MQTT/MQTTPacket.c:290-316 | The blocking reader ends with the same buffer and type |
| MqttReader.Transport.ReadNb | MQTT/MQTTPacket.c:362-411 | One call takes what is there, and either asks to be called again or completes the packet |
| MqttReader.Transport.DecodeNb | MQTT/MQTTPacket.c:324-352 | The length field is accumulated over any number of calls |
| MqttReader.Transport.ReadHeader | MQTT/MQTTPacket.c:371-378 | The header byte, if it is there |
| MqttReader.Transport.ReadLength | MQTT/MQTTPacket.c:380-389 | The length, put back into the buffer as it stood in the stream |
| MqttReader.Transport.ReadBody | MQTT/MQTTPacket.c:391-402 | As much of the body as is there, never past its end |
| MqttReader.DecodeStream | MQTT/MQTTPacket.c:54-81 | The length of a packet on a blocking stream |
| MqttWire.DecodeUndoesEncodeIff | MQTT/MQTTPacket.c:29-81 | Decoding undoes encoding if and only if the value is at most 268435455 |
| MqttWire.DecodesEncoded | MQTT/MQTTPacket.c:54-81 | For every value: what is decoded, and where decoding ends |
| MqttWire.PacketLenCoversIff | MQTT/MQTTPacket.c:84-98 | MQTTPacket_len covers the packet if and only if its remaining length is at most 268435455 |
| MqttWire.PacketLenExactIff | MQTT/MQTTPacket.c:84-98 | Where MQTTPacket_len covers the packet it is exact, except at four remaining lengths, where it is one too many |
| MqttWire.ExcessIff | MQTT/MQTTPacket.c:194-251 | The text written is as long as the text measured, unless an MQTTString has both forms, of different lengths |
| MqttWire.HoldsWhenEncodable | MQTT/MQTTPacket.c:84-98 | A buffer as large as MQTTPacket_len announces is large enough, for every length that the standard allows |
| MqttWire.ReadsIntBack | MQTT/MQTTPacket.c:125-131 | A written integer is read back |
| MqttWire.ReadsStringBack | MQTT/MQTTPacket.c:215-234 | A written string is read back, and reading stays inside the data |
| MqttWire.Writer.WriteChar | MQTT/MQTTPacket.c:152-156 | One byte is appended to what was written |
| MqttWire.Writer.WriteInt | MQTT/MQTTPacket.c:164-170 | Two bytes are appended, the high one first |
| MqttWire.Writer.WriteString | MQTT/MQTTPacket.c:194-206 | The length and the bytes of a string |
| MqttWire.Writer.WriteLength | MQTT/MQTTPacket.c:29-45 | The encoded length |
| MqttWire.DecodeBuf | MQTT/MQTTPacket.c:113-117 | The loop decodes the length in a buffer |
| MqttPublish.PublishRoundTripIff | MQTT/MQTTDeserializePublish.c:36-69 | A serialised PUBLISH is read back with the fields sent if and only if its QoS is below 4 and its flags are below 2 |
| MqttPublish.RefusedLooksAcceptedIff | MQTT/MQTTDeserializePublish.c:36-69 | A packet that is refused after its header reports success if and only if its length field has one byte: the return code still holds the number of length bytes |
| MqttPublish.RefusedLooksAccepted | MQTT/MQTTDeserializePublish.c:36-69 | A concrete packet that is refused but reported as success: 0x30 0x01 0x00 |
| MqttPublish.SerializePublish | MQTT/MQTTSerializePublish.c:55-91 | The packet is written inside the buffer, or nothing is written and the error returned |
| MqttPublish.PublishLengthIs | MQTT/MQTTSerializePublish.c:31-39 | The length announced is the length written if and only if the topic that is written is as long as the one that is measured |
| MqttPublish.FrameReads | MQTT/MQTTDeserializePublish.c:46-54 | Header, length and body of a framed packet are found where they were put |
| MqttPublish.DeserializePublish | MQTT/MQTTDeserializePublish.c:36-69 | The reader returns what the round trip is proved of |
| MqttSubscribe.SubscribeRoundTripIff | MQTT/MQTTSubscribeServer.c:35-70 | A serialised SUBSCRIBE with any number of filters is read back with the fields sent if and only if its flag is below 2 and every QoS below 256 |
| MqttSubscribe.SubscribeReads | MQTT/MQTTSubscribeServer.c:35-70 | What is read back of any SUBSCRIBE, with flag and QoS values cut to their fields |
| MqttSubscribe.FiltersRoundTrip | MQTT/MQTTSubscribeServer.c:55-64 | The filter loop ends exactly behind the last filter |
| MqttSubscribe.SerializeSubscribe | MQTT/MQTTSubscribeClient.c:50-86 | The packet is written inside the buffer, or nothing is written and the error returned |
| MqttSubscribe.LengthOfIs | MQTT/MQTTSubscribeClient.c:28-36 | The length announced is the length written |
| MqttSubscribe.SubscribeLength | MQTT/MQTTSubscribeClient.c:28-36 | The loop over the filters sums up the length of the packet |
| MqttSubscribe.DeserializeSubscribe | MQTT/MQTTSubscribeServer.c:35-70 | The reader returns what the round trip is proved of, and its return code |
| MqttSubscribe.ReadFilters | MQTT/MQTTSubscribeServer.c:55-64 | The loop over the filters reads them up to the end of the data, or refuses the packet |
| MqttConnect.ConnectRoundTripIff | MQTT/MQTTConnectServer.c:51-108 | A serialised CONNECT is read back with the options sent if and only if the flag values fit their bits, there is no password without user name, no empty password, and no empty user name unless a password follows |
| MqttConnect.ConnectReads | MQTT/MQTTConnectServer.c:51-108 | What is read back of any CONNECT: the options with the flags cut to their bits, or a refusal of exactly those that cannot be read |
| MqttConnect.SerializeConnect | MQTT/MQTTConnectClient.c:58-121 | The packet is written inside the buffer, or nothing is written and the error returned |
| MqttConnect.ConnectLengthIs | MQTT/MQTTConnectClient.c:27-48 | By how many bytes the packet written exceeds the length announced: none for both versions of the protocol and strings in one form; 12 for any other version, and for strings in two forms the difference of their lengths |
| MqttConnect.FlagFields | MQTT/MQTTConnectServer.c:79-98 | The flag bits are read back as they were set |
| MqttConnect.DeserializeConnect | MQTT/MQTTConnectServer.c:51-108 | The reader returns what the round trip is proved of |
| MqttConnect.ReadPayload | MQTT/MQTTConnectServer.c:82-102 | The optional fields, as the flags say |
| Calendar.DaysToDateAgreesIff | Platform/drv_rtc.c:53-71 | The closed form gives the date that many days after 1970-01-01, counted day by day in the Gregorian calendar, if and only if the year fits 16 bits |
| Calendar.WeekDayAgrees | Platform/drv_rtc.c:30-42 | The weekday of that date is (days + 3) mod 7 + 1 |
| Calendar.DaysToDateIs | Platform/drv_rtc.c:53-71 | For every valid date, the closed form inverts counting its days |
| Calendar.EraYear | Platform/drv_rtc.c:57-59 | The year of the era formula, with its corrections for leap years |
| Calendar.NextDayCounts | Platform/drv_rtc.c:53-71 | The next day has the next number |
| Calendar.DateAfterCounts | Platform/drv_rtc.c:53-71 | Counting day by day numbers the dates |

## Left out

- Number conversion: `printf` and `strtod` are a parameter. Their texts are assumed to be short runs of number characters, and the round trip asks of each number in the tree that the two are inverse on it; doubles are reals, and NaN, infinities and the locale's decimal point are not part of this model.
- Raw items, references, cJSON_Duplicate as a copy of memory, cJSON_Minify, cJSON_Compare, cJSON_CreateXxx, hooks and allocation failure: they add only easy members.
- cJSON_PrintBuffered and a preallocated length below 0: the first differs only in the initial size of the buffer.
- Patch and merge code works on tree values: aliasing between the arguments and the reordering that sorting leaves behind in them are not carried from one call to the next; SortKeepsMeaning says that the reordering means nothing, though where names below the first level are equal up to case the patch found there can depend on it; SiblingList and ListEdits prove the sorting and editing of the lists in place.
- cJSON_Utils arguments that are NULL, move and copy with a `from` that is no string, cJSONUtils_AddPatchToArray and cJSONUtils_FindPointerFromObjectTo.
- A NUL that \u0000 puts into a string is kept in the sequence, where C code would see the string end.
- JsonPointer.NameSurvivesIff: the bytes that the escaping leaves unwritten are one arbitrary byte other than `~` throughout a call, where each could be a different one.
- JsonPatchLimits.RemovalWorksIff: likewise, and the byte is not `/`.
- JsonPatchRoundTrip.PatchRoundTrip: asks for names that need no escape and for documents with names distinct up to case; JsonPatchLimits.PatchWorksIff shows that both are needed. Names have no NUL, as C strings, and arrays are shorter than 2^32.
- JsonPatchLimits.PatchWorksIff: the byte that the escaping leaves unwritten is neither `~` nor `/`.
- MergePatchRoundTrip.MergePatchRoundTripIff: asks for names whose order does not depend on case; MergePatchLimits.MergePatchWorksIff shows that this is needed.
- Flash.Chip.WriteWord: an operation is either done or not, an erase never fails, and a program operation fails only for the reasons stated; power lost within an operation, wear and read disturbance are not part of this model.
- FwUpgrade.Upgrade.WriteData: packets have fewer than 0xF0000000 bytes, so that the 32-bit sum of sizes does not wrap.
- FwUpgrade.Upgrade.Finish: the backup register, the delays, the output and the reset at its end are not part of this model; the read-back difference that the source only reports is a result.
- FwBoot.Boot: the main loop of the bootloader is not part of this model; it is assumed to copy when flagged and to call JumpToApp after a success or without a flag. Of JumpToApp the test is modelled, not the jump. DumpBackupData and SetUpgradeFlag are left out.
- Flash contents are a sequence in a field, not an array.
- The Ymodem receiver is not part of this model, and of the download over the network only its calls of the driver are.
- Coroutine.Scheduler.Create: a failed allocation, the call of the co-routine function and the interrupt masking are not part of this model; the lists of the scheduler are sequences with an index position, which CoroutineLists implements by the linked lists one at a time.
- Coroutine.Scheduler.RemoveFromEventList: keeps what holds between any two list operations, but the methods that check the lists are stated for runs without an interrupt inside them.
- Coroutine.Scheduler.AddToDelayedList: asks for a delay of at least 1, as crDELAY and the queue functions guard it; FoundBeforeWrapIff says what a delay of 0 would do.
- Coroutine.Scheduler.TakeEvent: the order of the two removals inside one critical section is not observable and is exchanged.
- Md5.Context.Final: the clearing of the context at its end, the return codes and the static buffer used for a NULL output are not part of this model.
- MqttPublish.DeserializePublish: reading past the buffer is a result of its own, PastEnd, where the source reads what happens to be there.
- MqttPublish.SerializePublish, MqttSubscribe.SerializeSubscribe and MqttConnect.SerializeConnect leave out the buffers that MQTTPacket_len takes for large enough and that are not: there the source writes past the end. Such buffers exist only for remaining lengths above 268435455 (PacketLenCoversIff).
- MqttPublish.PublishRoundTripIff: asks for a remaining length that the standard allows, as decoding does not undo encoding otherwise (DecodeUndoesEncodeIff); so do SubscribeRoundTripIff and ConnectRoundTripIff. A char is unsigned, as on the target.
- MqttSubscribe.DeserializeSubscribe: the array of filters is as long as needed; its maximum is not checked by the source either.
- CONNACK, SUBACK, acknowledgements, PING, unsubscribe, the client's sockets and threads, and outbound QoS 2: they add only easy members.
- RTC registers, clocks, keys, display, sensors, network interfaces and the application's managers: hardware, user interface or placeholders.
