# Verified model of the RFID engine

A Dafny model of the logic of the RFID reader engine and of the JSON library it is built with, and proofs
of what that logic promises. `dafny verify dfyconfig.toml` checks everything.

The project has two parts.

**JSON documents** (`inc/nlohmann`). `JsonValue` and `JsonOrder` model values, equality and order;
`JsonPointer` the text and the tokens of pointers; `JsonPatch` the six operations of a patch and patch
documents; `JsonPatchLaws` what the operations mean, and `JsonPatchDomain` exactly where they succeed and
what they leave alone; `JsonDiff` the edit list that `diff` computes and its replay; `JsonDiffEdits` which
edits these are, and in which order; `JsonDiffDocument` the methods that build the patch document, and the
invariant that the source documents: `source.patch(diff(source, target)) == target`. `MergePatch` and
`JsonTeardown` model the merge patch and the teardown with an explicit stack.

**The receive pipeline** (`src`, `inc`). `Framing` gives the meaning of the three packet patterns, the
leftmost search and the bounded extraction; `PacketStream` and `Delivery` prove what the receiver makes of
a stream of well-formed items that arrives in arbitrary chunks; `PacketBus` is the packet queue with its
observers, `CmdHandler` the receiving object, `Commands` the interleavings of concurrent commands.
`TagRecord`, `Inventory` and `Statistics` lead from the texts of a reader to the rows of a statistics
table, `RecordJson` from records to JSON and back. `HandleTable` is the table of open handles.

Functions are specifications as well as models: a method that loops or changes state is proved equal to
the function, and the properties are lemmas about the function.

## Conventions

- Exceptions are values of `Results.Error`, with the number that the JSON library puts in the message.
  `std::invalid_argument`, which `array_index` lets through for a one-character token that is no digit
  and for an empty token, and a failing `JSON_ASSERT` have constructors of their own.
- A JSON object is the contents of its `std::map`; `Text.SortedKeys` is its iteration order. Numbers are
  one mathematical integer type.
- `FitsMemory` says that arrays are no longer than the largest index of a 64-bit machine. Every value that
  a program can hold satisfies it; it is needed because `array_index` refuses larger numbers.
- When an operation of a patch has two faults, the model reports a missing `value` member before a missing
  location. The language leaves that order open for `test`, and before C++17 for `replace`.
- Bytes are characters. `.` in a pattern matches everything except CR and LF, as in ECMAScript mode.
- `PacketBus.Observer` has a ghost list of the packets it was updated with, and `PacketBus.PacketQueue`
  ghost lists of what was pushed and what has left; `HandleTable.HandleManager` has a ghost log.

Where the code differs from RFC 6902 the model follows the code. `JsonPatchDomain` states for every input
when an operation succeeds, so these are all the differences in what is accepted:

- `add` also succeeds where the parent is null, which becomes an object, and where the parent is missing but
  the first token names an existing child and the tokens in between can be created (`AddSucceedsIff`; inputs:
  `AddBelowNull`, `AddBelowNothing`). The same holds of the add that ends a `move` or a `copy`.
- `remove` also succeeds below a value that is neither an object nor an array, and then changes nothing
  (`RemoveSucceedsIff`; input: `RemoveBelowNumber`).
- `remove` and `move` refuse the root (`RemoveSucceedsIff`, `MoveSucceedsIff`).
- `move` may move a value into itself, which section 4.4 forbids (`MoveIntoItselfIff`; input: `MoveIntoItself`).

`replace` and `test` succeed exactly where the RFC says (`JsonPatchLaws.ReplaceThenRead`, `TestIff`).

Properties of the statistics and of the receiver that hold only under a condition, each proved exact:

- The records of a batch are all counted, and batches can be aggregated in turn, exactly if no antenna ends
  the reading (`Statistics.RecordsAddUpIff`, `BatchesInTurnIff`; inputs where one does: `TooLargeAntenna`).
- The rule by EPC or TID gives the histogram by EPC exactly if no TID leads a record to an earlier row
  (`HistogramIff`; input where it does: `TidMergesEpcs`).
- Under that rule TIDs are unique per antenna exactly if no record fills in a TID that another row shows
  already (`TidsUniqueIff`; input where one does: `TidsMayRepeat`).
- No complete item waits in the buffer exactly if at no time more items of a class become complete than the
  later calls can extract (`Delivery.NothingWaitsIff`).

## Model

| member | source | states |
|---|---|---|
| JsonValue.EqualIsIdentity | inc/nlohmann/json.hpp:6122-6188 | operator== holds exactly between identical trees |
| JsonOrder.StrictTotalOrder | inc/nlohmann/json.hpp:6283-6354 | operator< is irreflexive and transitive, and exactly one of <, ==, > holds for any two values |
| JsonOrder.Trichotomy | inc/nlohmann/json.hpp:6283-6354 | two values are either the same tree or ordered one way, through arrays and objects |
| JsonOrder.Transitive | inc/nlohmann/json.hpp:6283-6354 | transitivity through lexicographic arrays and key/value members and across types |
| JsonOrder.LessIff | inc/nlohmann/json.hpp:6283-6354 | which way values are ordered: numbers as integers, false before true, strings, arrays and key/value members lexicographically, and values of different types by their types |
| Text.StringLessIff | inc/nlohmann/json.hpp:6303-6304 | strings are ordered by the first character that differs, a proper prefix being smaller |
| JsonPointer.ReplaceSubstring | inc/nlohmann/detail/json_pointer.hpp:815-825 | the find-and-replace loop replaces every occurrence, from the left and without overlap |
| JsonPointer.EscapeRoundTrip | inc/nlohmann/detail/json_pointer.hpp:827-839 | an escaped token has no slash and only escaped tildes, and unescaping gives the token back |
| JsonPointer.UnescapeRoundTrip | inc/nlohmann/detail/json_pointer.hpp:827-839 | escaping gives back every text that can stand between slashes |
| JsonPointer.Split | inc/nlohmann/detail/json_pointer.hpp:740-799 | the loop over slash positions computes the tokens of a pointer text, with its errors 107 and 108 |
| JsonPointer.ParseToString | inc/nlohmann/detail/json_pointer.hpp:46-73 | a pointer written as text is read back with the same tokens |
| JsonPointer.ToStringParse | inc/nlohmann/detail/json_pointer.hpp:46-73 | every accepted pointer text is the one its tokens are written as |
| JsonPointer.ParseFailsIff | inc/nlohmann/detail/json_pointer.hpp:740-799 | exactly which texts are no pointers, and with which error |
| JsonPointer.ArrayIndexIffPrinted | inc/nlohmann/detail/json_pointer.hpp:333-376 | a token is an index exactly when it is that index printed in decimal and below the largest size |
| JsonPatch.Patch | inc/nlohmann/json.hpp:8174-8434 | the loop over the elements applies each operation to the copy and stops with the first error |
| JsonPatch.PatchIsFold | inc/nlohmann/json.hpp:8308-8433 | patching with two parts is patching with the second after the first, failures included |
| JsonPatch.DecodeEncode | inc/nlohmann/json.hpp:8311-8347 | each operation written as a patch element is read back as that operation |
| JsonPatch.DecodeIff | inc/nlohmann/json.hpp:8311-8347 | exactly which patch elements are read as which operation |
| JsonPatch.PatchSucceedsIff | inc/nlohmann/json.hpp:8301-8433 | exactly when a patch succeeds and with what result, in terms of its decoded operations |
| JsonPatch.PatchEncoded | inc/nlohmann/json.hpp:8308-8433 | a written list of operations acts as the operations do |
| JsonPatchLaws.ReplaceThenRead | inc/nlohmann/json.hpp:8362-8367 | replace succeeds exactly at existing locations, and the new value is read there |
| JsonPatchLaws.ReplaceIsRemoveThenAdd | inc/nlohmann/json.hpp:8213-8367 | at an existing location below the root, replace is remove followed by add (RFC 6902, section 4.3) |
| JsonPatchLaws.AddUndoesRemove | inc/nlohmann/json.hpp:8213-8299 | adding a removed value back restores the document |
| JsonPatchLaws.RemoveUndoesAdd | inc/nlohmann/json.hpp:8213-8299 | a value added at a new location is read there, and removing it restores the document |
| JsonPatchDomain.DeepestIsDeepest | inc/nlohmann/json.hpp:8223-8234 | the part of a path that exists, the value it ends at, and the tokens that lead on |
| JsonPatchDomain.AddSucceedsIff | inc/nlohmann/json.hpp:8213-8270 | exactly when add succeeds: where RFC 6902, section 4.1, allows it, below a null, and where a parent is created; the three exclude each other |
| JsonPatchDomain.AddIsStore | inc/nlohmann/json.hpp:8229-8270 | what add makes of the document: the parent with one more member, a new value for one, or one more element before the named one |
| JsonPatchDomain.AddOntoMember | inc/nlohmann/json.hpp:8236-8242 | an add onto an existing member replaces it (RFC 6902, section 4.1) |
| JsonPatchDomain.AddElsewhere | inc/nlohmann/json.hpp:8213-8270 | an add whose parent is no array leaves everything apart from its location as it was |
| JsonPatchDomain.MemberAddIsLocal | inc/nlohmann/json.hpp:8213-8270 | and if the parent is there, nothing appears elsewhere either |
| JsonPatchDomain.InsertElsewhere | inc/nlohmann/json.hpp:8244-8263 | an insertion moves the elements from its place on up by one, with all that is in them |
| JsonPatchDomain.AddBelowNull | inc/nlohmann/json.hpp:8234-8242 | an input where add turns a null into an object |
| JsonPatchDomain.AddBelowNothing | inc/nlohmann/json.hpp:8223-8234 | an input where add creates a missing parent |
| JsonPatchDomain.AddThenReadIff | inc/nlohmann/detail/json_pointer.hpp:470-521 | whatever parents unchecked access finds or creates, the added value is at its location afterwards, exactly unless `-` appended to an array on the way |
| JsonPatchDomain.CreationAddsNothing | inc/nlohmann/detail/json_pointer.hpp:470-521 | nor does it add anything off the path but nulls that fill an array up |
| JsonPatchDomain.CreationDisturbsNothing | inc/nlohmann/detail/json_pointer.hpp:470-521 | creating parents leaves every value off the path as it was |
| JsonPatchLaws.DashIsAppend | inc/nlohmann/json.hpp:8246-8263 | `-` appends, like the index after the last element |
| JsonPatchLaws.MoveOntoItself | inc/nlohmann/json.hpp:8369-8384 | moving a value onto itself changes nothing |
| JsonPatchLaws.MoveThereAndBack | inc/nlohmann/json.hpp:8369-8384 | moving a value to a new location and back restores the document |
| JsonPatchLaws.TestIff | inc/nlohmann/json.hpp:8401-8425 | test succeeds exactly when the value is at the location, and changes nothing |
| JsonPatchDomain.RemoveSucceedsIff | inc/nlohmann/json.hpp:8273-8299 | exactly when remove succeeds, including the case below a primitive value, where it changes nothing |
| JsonPatchDomain.RemoveIsStore | inc/nlohmann/json.hpp:8273-8299 | what remove makes of the document: the parent without the member, or without the element, the later ones moved up |
| JsonPatchDomain.RemoveElsewhere | inc/nlohmann/json.hpp:8273-8299 | a remove from an object leaves everything apart from its location as it was |
| JsonPatchDomain.RemoveBelowNumber | inc/nlohmann/json.hpp:8281-8299 | an input where remove succeeds though its target does not exist |
| JsonPatchDomain.MoveSucceedsIff | inc/nlohmann/json.hpp:8369-8399 | exactly when move and copy succeed |
| JsonPatchDomain.CopyThenRead | inc/nlohmann/json.hpp:8386-8399 | a copy puts the value of its source at its location, exactly unless `-` appended on the way |
| JsonPatchDomain.CopyElsewhere | inc/nlohmann/json.hpp:8386-8399 | a copy to a place in no array leaves everything apart from it as it was, the source included |
| JsonPatchDomain.RemoveUndoesCopy | inc/nlohmann/json.hpp:8386-8399 | removing a copy from a new location restores the document |
| JsonPatchDomain.MoveThenRead | inc/nlohmann/json.hpp:8369-8384 | a move puts the value of its source at its location, also onto an existing member |
| JsonPatchDomain.MoveElsewhere | inc/nlohmann/json.hpp:8369-8384 | a move between objects leaves everything apart from its two locations as it was |
| JsonPatchDomain.MoveLeaves | inc/nlohmann/json.hpp:8369-8384 | a moved member is gone from where it was |
| JsonPatchDomain.MoveIntoItselfIff | inc/nlohmann/json.hpp:8369-8384 | exactly when a value can be moved to a location within itself |
| JsonPatchDomain.MoveIntoItself | inc/nlohmann/json.hpp:8369-8384 | an input where that succeeds though RFC 6902, section 4.4, forbids it |
| JsonDiff.ApplicableSucceeds | inc/nlohmann/json.hpp:8349-8425 | the code performs every operation that RFC 6902 allows below the root |
| JsonDiff.BelowIsLocal | inc/nlohmann/json.hpp:8213-8299 | an edit below a child changes that child as the edit changes it alone, and nothing else |
| JsonDiff.ReplayBelow | inc/nlohmann/json.hpp:8497-8503 | replaying a list of edits below a child changes only the subtree there |
| JsonDiff.DiffReplays | inc/nlohmann/json.hpp:8476-8592 | every edit of diff is applicable when its turn comes, and the last one leaves the target |
| JsonDiff.CommonReplays | inc/nlohmann/json.hpp:8495-8504 | the edits of the first n elements turn exactly these into the target's |
| JsonDiff.RemovalsReplay | inc/nlohmann/json.hpp:8509-8521 | removals from the highest index down never meet a moved element |
| JsonDiff.MembersReplay | inc/nlohmann/json.hpp:8541-8561 | visiting the source's members one by one edits or removes exactly these members |
| JsonDiff.NewReplay | inc/nlohmann/json.hpp:8563-8576 | the second pass adds exactly the members the source lacks |
| JsonDiffEdits.DiffIff | inc/nlohmann/json.hpp:8476-8592 | diff reports exactly the differences: other values that cannot be edited further, locations that are missing in the target, members that are new and elements behind the end |
| JsonDiffEdits.DiffInOrder | inc/nlohmann/json.hpp:8493-8579 | each once, in order: the source's members by key before the new ones, common elements by index before removals from the top before appends |
| JsonDiffDocument.Diff | inc/nlohmann/json.hpp:8470-8592 | the recursive method returns the patch document of the edit list, every path behind the given one |
| JsonDiffDocument.DiffArrays | inc/nlohmann/json.hpp:8493-8535 | the three loops over two arrays build common edits, removals in descending order, and appends |
| JsonDiffDocument.RemoveRest | inc/nlohmann/json.hpp:8509-8521 | inserting every removal at the same place puts the highest index first |
| JsonDiffDocument.DiffObjects | inc/nlohmann/json.hpp:8538-8579 | the two loops over two objects build the member edits and the additions |
| JsonDiffDocument.PatchOfDiff | inc/nlohmann/json.hpp:8442-8446 | for all trees, applying diff(source, target) to source with patch gives target |
| JsonDiffDocument.EveryEditApplies | inc/nlohmann/json.hpp:8497-8533 | after any number of edits the replay has not failed, and the next edit's target or parent exists |
| JsonDiffDocument.DiffAtLocation | inc/nlohmann/json.hpp:8470-8502 | diff at a location is diff at the root with the location put before every path |
| JsonDiff.ReplayAt | inc/nlohmann/json.hpp:8213-8299 | replaying edits at any location, however deep, changes only the value there |
| JsonDiffDocument.PatchOfDiffAt | inc/nlohmann/json.hpp:8442-8502 | patching a document with the difference at a location makes the target of the value there, and leaves all else as it was |
| JsonDiffDocument.ApartCommute | inc/nlohmann/json.hpp:8541-8561 | the edits of two locations, neither within the other, can be replayed in either order |
| JsonDiffDocument.DiffsCommute | inc/nlohmann/json.hpp:8495-8561 | so the differences at two such locations can be written into one patch in either order |
| JsonDiffDocument.EmptyDiffIffEqual | inc/nlohmann/json.hpp:8476-8480 | diff is empty exactly on equal values |
| JsonDiffDocument.BoundedLength | inc/nlohmann/json.hpp:8476-8592 | an edit list has at most nodes(source) + nodes(target) - 1 edits |
| MergePatch.Document.MergePatch | inc/nlohmann/json.hpp:8645-8669 | the in-place algorithm makes the value that RFC 7396 defines, stated without an order |
| MergePatch.EachMember | inc/nlohmann/json.hpp:8654-8664 | a member that the patch does not name is kept, one named with null is gone, any other is what its own patch makes of it |
| MergePatch.OtherTargets | inc/nlohmann/json.hpp:8645-8669 | a target that is no object is forgotten, a patch that is no object is the result, an empty patch keeps an object |
| MergePatch.AnyOrderIff | inc/nlohmann/json.hpp:8611-8628 | with an order of the members of its own at every level of the patch, the algorithm can end with that value and no other |
| MergePatch.Idempotent | inc/nlohmann/json.hpp:8645-8669 | applying a merge patch twice is applying it once |
| MergePatch.PatchExistsIff | inc/nlohmann/json.hpp:8645-8669 | exactly which values some merge patch can make of a given one: those that need no new null member |
| JsonTeardown.Destroy | inc/nlohmann/json.hpp:1122-1169 | the loop ends, takes each descendant off the stack as often as it occurs, and drops only childless values |
| Framing.MatchIsUnique | src/cmd_handler.cpp:287-297 | at one place each pattern has at most one match, namely a text of its shape |
| Framing.SearchIsLeftmost | src/cmd_handler.cpp:307-312 | the first match has the shape of the pattern, and no match begins further left |
| Framing.DrainIsLawful | src/cmd_handler.cpp:287-342 | extraction keeps every byte, keeps the rest in order, shortens the buffer each time, and takes at most the limit |
| Framing.EveryStream | src/cmd_handler.cpp:278-343 | for any bytes in any chunks: bytes in are bytes delivered plus bytes buffered, the buffer is a subsequence of the stream, all packets have their shape |
| PacketStream.OtherIsQuiet | src/cmd_handler.cpp:287-297 | no match of a class begins inside a well-formed item of another class |
| PacketStream.PartIsQuiet | src/cmd_handler.cpp:287-297 | an item that has only partly arrived holds no match of any class |
| PacketStream.DrainTakesItems | src/cmd_handler.cpp:287-342 | extraction from a buffer of items takes the first items of the class and only them |
| Delivery.LineIsWhole | src/cmd_handler.cpp:287-297 | normal packets come first: a line is delivered whole, also with a heartbeat in it |
| Delivery.HeartbeatFirst | src/cmd_handler.cpp:291-297 | a heartbeat is taken out before a reboot packet that its date runs into |
| Delivery.StreamIsDelivered | src/cmd_handler.cpp:278-343 | for any chunks: delivered is exactly the first so many items of each class, the buffer exactly the other complete items and the partial tail |
| Delivery.DeliveredIsPrefix | src/cmd_handler.cpp:278-343 | what is delivered per class is a prefix of that class's items, in order |
| Delivery.EverythingDelivered | src/cmd_handler.cpp:278-343 | if no chunk completes more than 20 items of a class, every complete item has been delivered |
| Delivery.DeliveredIsLeast | src/cmd_handler.cpp:278-298 | how much of a class has been delivered, in closed form: the least, over all times, of what was complete then and 20 for each call since |
| Delivery.NothingWaitsIff | src/cmd_handler.cpp:278-343 | exactly when every complete item has been delivered |
| Delivery.ChunkingIff | src/cmd_handler.cpp:278-343 | two ways of cutting a stream leave the receiver in the same state exactly if as much of each class has been delivered |
| Delivery.ChunkingDoesNotMatter | src/cmd_handler.cpp:278-343 | two ways of cutting a stream into such chunks leave the receiver in the same state |
| PacketBus.Observer.Update | inc/send_sync_observer.hpp:71-90 | an update stores the packet and wakes the command once if the callback or a condition accepts it |
| PacketBus.PacketQueue.Remove | inc/packet_queue.hpp:61-69 | the packet at the place is returned and erased, and order is kept when it is the first |
| PacketBus.PacketQueue.Pop | inc/packet_queue.hpp:30-35 | the first packet, or the default one if the queue is empty |
| PacketBus.PacketQueue.Notify | inc/observer.hpp:106-110 | every observer is updated as often as it is attached; one packet leaves the queue for each asynchronous entry |
| PacketBus.PacketQueue.PushBack | inc/packet_queue.hpp:38-44 | the queue and the packet, less one for each asynchronous entry; all observers see the packet, once for each time they are attached; first in, first out |
| PacketBus.PacketQueue.Detach | inc/observer.hpp:99-104 | exactly the first entry of the observer is erased |
| PacketBus.PushRuns | inc/packet_queue.hpp:38-44 | after a run of pushes the queue holds the newest packets, and exactly how many for any number of asynchronous observers |
| CmdHandler.CmdHandler.Extract | src/cmd_handler.cpp:301-343 | the leftmost match is handed to the queue or the callback and erased, and nothing else changes |
| CmdHandler.CmdHandler.TaskFunc | src/cmd_handler.cpp:278-298 | one call hands on and keeps exactly what the receiver function says |
| CmdHandler.CmdHandler.ReceiveChunks | src/cmd_handler.cpp:271-298 | a run of calls ends in the receiver's state, with the packets pushed in exactly this order: with each chunk the normal ones, then the reboot ones |
| CmdHandler.PushedByClass | src/cmd_handler.cpp:278-298 | among all packets pushed, those of a class are the ones delivered of it, in their order |
| CmdHandler.HeartbeatText | inc/packet_content.hpp:31-35 | the callback gets a heartbeat unchanged exactly when its date does not end in a space |
| Commands.RunCommands | inc/conn_queue.hpp:75-91 | over any interleaving of starts, finishes and pushes the attached observers are those of the commands in flight, in start order, and each has seen exactly what was pushed while it was in flight |
| Commands.SeenBetween | inc/conn_queue.hpp:75-91 | that is, the packets pushed between the command's start and its finish, in their order, whatever else happens |
| Commands.SeenSoFar | inc/conn_queue.hpp:115-127 | before its finish, the packets pushed since its start |
| Commands.OneMoreEvent | inc/conn_queue.hpp:115-127 | a command that finishes finds its own observer and removes only that |
| TagRecord.EpcIffParts | src/parser.cpp:14-23 | exactly the hexadecimal strings of length 8 or more are accepted, and the parts make up the text |
| TagRecord.TimeRoundTrip | src/parser.cpp:101-114 | a printed time is read back |
| TagRecord.TimeTextRoundTrip | src/parser.cpp:101-114 | each accepted time text is the one its time is printed as |
| TagRecord.FrameIffPrinted | src/parser.cpp:26-34 | the accepted texts are exactly the printed frames, one text for each |
| TagRecord.SplitIff | src/parser.cpp:38-58 | exactly which data splits into an EPC field and a second part, with or without an R |
| TagRecord.FrameReads | src/parser.cpp:26-68 | what every frame is read as, for every data field and bank |
| TagRecord.RecordRoundTrip | src/parser.cpp:26-68 | parsing a printed UR record gives back every field, an error code for a second part of one character |
| TagRecord.RecognisedIffFrame | src/parser.cpp:26-34 | a record is recognised exactly when its text is a frame, whatever the bank |
| TagRecord.InventoryReads | src/parser.cpp:84-97 | a U response has an EPC exactly when its field is eight or more hexadecimal digits |
| RecordJson.JsonRoundTrip | src/parser.cpp:227-256 | a record written as JSON can be read back, field for field, exactly when it has data and a matched EPC |
| RecordJson.EpcJson | src/parser.cpp:206-225 | an EPC can be read back exactly when it was a match |
| Inventory.ReadBank | src/c_if.cpp:97-101 | the recognised responses with data are appended to the results in order |
| Inventory.OneResponseIff | src/c_if.cpp:97-101 | a response contributes its record exactly if it is a frame with data, and nothing otherwise |
| Inventory.RecordsAppend | src/c_if.cpp:97-101 | the records of two lists are those of the first, then those of the second, and all have data |
| Inventory.TagsAreSeen | src/c_if.cpp:97-122 | printed tags are read, parsed and seen by the statistics as exactly these tags |
| Inventory.CountTags | src/c_if.cpp:469-469 | a table by EPC of reported tags is their exact histogram |
| Statistics.StatTable.FindIf | src/c_if.cpp:123-143 | the search stops at the first row that matches under the rule |
| Statistics.StatTable.DoStatistic | src/c_if.cpp:109-176 | the loop tallies the records in order, up to an antenna that is no int |
| Statistics.BatchesInTurnIff | src/c_if.cpp:109-176 | under every rule aggregating two batches of records in turn is aggregating both at once, exactly if the first is read to its end or the second adds nothing |
| Statistics.RecordsAddUpIff | src/c_if.cpp:117-174 | under every rule the counts add up to the number of records with data and a matched EPC, exactly if their antennas are all ints, and never to more |
| Statistics.ByEpcIsHistogram | src/c_if.cpp:117-174 | by EPC: one row per antenna and EPC in order of first occurrence, with exact count, first time and first TID |
| Statistics.TooLargeAntenna | src/c_if.cpp:117-122 | inputs on which both fail: an antenna number that is no int |
| Statistics.ByTidIsExact | src/c_if.cpp:117-174 | by TID: exactly one row for each TID of each antenna with its exact count, and one with count one for each record without a TID, in the order of opening, with the EPC and time of the record that opened it |
| Statistics.OpenersLaws | src/c_if.cpp:132-134 | every TID seen has its row, no other has one, and TIDs are unique per antenna |
| Statistics.UntaggedOpen | src/c_if.cpp:132-134 | the rows without a TID are opened by exactly the records without one, in their order |
| Statistics.ByEpcOrTidEpcsUnique | src/c_if.cpp:136-137 | by EPC or TID no two rows share antenna and EPC |
| Statistics.HistogramIff | src/c_if.cpp:123-143 | by EPC or TID the table is the exact histogram by EPC, exactly if no sighting's TID leads it to an earlier row than its EPC |
| Statistics.TidNamesEpcSuffices | src/c_if.cpp:136-137 | so it is if at each antenna a TID, or its absence, stands for one EPC |
| Statistics.TidMergesEpcs | src/c_if.cpp:136-137 | an input where a TID counts one EPC in the row of another |
| Statistics.TidsUniqueIff | src/c_if.cpp:136-172 | exactly when TIDs are unique per antenna under this rule |
| Statistics.TidsMayRepeat | src/c_if.cpp:136-172 | an input where two rows of one antenna end up with the same TID |
| Statistics.WithoutTidsOneRowEach | src/c_if.cpp:136-137 | by EPC or TID, while no tag shows a TID, there is exactly one row for each antenna seen, in order, counting all its records whatever their EPCs are |
| HandleTable.HandleManager.AddHandleUnit | src/handle_manager.cpp:65-83 | an open interface keeps its handle, any other gets an id that was never given out |
| HandleTable.HandleManager.RemoveHandleUnit | src/handle_manager.cpp:85-93 | exactly the handle is closed; a handle that is not open changes nothing |
| HandleTable.HandleManager.GetData | src/handle_manager.cpp:52-63 | the data appended to the handle since its last clear, none for a handle that is not open |
| HandleTable.WriteKeeps | src/handle_manager.cpp:42-104 | writing the buffer of one handle keeps the table true to its history, all other handles included |
| HandleTable.RemoveKeeps | src/handle_manager.cpp:85-93 | so does closing a handle |
| HandleTable.HandlesAreUnique | src/handle_manager.cpp:65-83 | handle and interface determine each other, and an id is given out once |
| Text.DecimalRoundTrip | inc/nlohmann/json.hpp:8501-8501 | a printed index is canonical and denotes the index |

## Left out

- Sockets, serial ports, threads, mutexes, logging and the asio and curl code; received bytes are a sequence of chunks.
- Liveness of the condition variables: a wake-up is counted, that a waiting thread runs is not claimed.
- JSON floats, NaN, unsigned and narrowing casts, binary and discarded values: operator== is no equivalence there.
- JSON text serialisation, the binary formats, iterators, conversions other than those of the parser's classes, flatten and unflatten.
- Error message texts, and a patch that aliases the document it is applied to.
- MergePatch.Document.MergePatch: a member is copied out, merged in place and stored back, where the source descends by reference.
- JsonTeardown.Destroy: models the stack of values, not the allocator calls; a moved-from element is taken to be without children.
- JsonPatch.Patch: the operations change a value held in a variable; references into the tree are not modelled.
- JsonPatchDomain.AddThenReadIff: growing an array by an index beyond its end is modelled without a limit on memory.
- The loops of get_checked, get_unchecked and to_string over the tokens of a pointer are recursive functions; replace_substring and split are loops as in the source.
- Framing.SearchIsLeftmost: std::regex itself is a leftmost search for the texts a pattern matches; that a text has at most one match at a place is proved.
- PacketBus.PacketQueue.Remove: a place beyond the end is undefined in the source and excluded.
- PacketBus.PacketQueue.Pop: the default packet has no bytes; its type, which the source leaves uninitialised, is Normal here.
- PacketBus.PacketQueue.Detach: an observer that is not attached is undefined in the source and excluded.
- PacketBus.Observer.Update: callbacks and conditions are functions of the packet; what else they do is not modelled.
- send_msg, cancel_command_wait, peek and detach by id.
- Statistics.StatTable.DoStatistic: the char fields of a row are strings that fit; the lengths given to memcpy, the output buffer and the timing loop of RFStatistics are not modelled.
- Inventory.ReadBank: the invalid handle of ReadBankHelper and the command that reads the tags are not modelled.
- Fields that a constructor leaves uninitialised when a text does not match: a record that does not match is no record, and an EPC that is not filled in is one that did not match.
- RfidParseR, the JSON forms of RfidParseR and RfidParseU, and the stream printers: like the members modelled, with fewer fields.
- HandleTable.HandleManager.GetData: a pointer into the buffer that outlives a later append or clear is not modelled.
- ordered_map: the engine uses the default object type, and its members are searches and shifts of one vector.
- The command bodies of RfidInterface, configuration, antenna bit masks, IP formatting and version handling.
