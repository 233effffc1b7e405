# A Dafny model of the communication-networks homeworks

The repository holds three programs, and each has a core whose correctness is not visible in one function:
the JSON library of the third homework (JSON Patch, its diff generator and merge patch), the router of the first
(checksums, forwarding, ARP) and the publish/subscribe server of the second. This project models the three cores
and proves what they promise, on all inputs and over whole runs. Where the code does not do what its comments,
its documentation or the RFC say, the model follows the code, a lemma gives the input, and another says exactly
when it does.

`dafny verify dfyconfig.toml` checks everything.

## How it is laid out

| file | contents |
|---|---|
| `Machine.dfy` | machine integers, their bytes in memory, bitwise and |
| `Json.dfy` | JSON values, `operator==`, the order of object members |
| `JsonPointer.dfy` | escaping, splitting of pointers, array indices as text |
| `JsonPatch.dfy`, `JsonPatchLaws.dfy` | the patch interpreter; locality, inverses, departures from RFC 6902 |
| `JsonPatchEffects.dfy` | what each operation leaves where, and how it fails |
| `JsonDiff.dfy` | the diff generator and the round trip through the interpreter |
| `MergePatch.dfy`, `JsonDestroy.dfy`, `OrderedMap.dfy` | merge patch, the worklist destructor, the insertion-ordered map |
| `Checksum.dfy`, `RouteTable.dfy`, `Forwarding.dfy` | the two checksums, the route lookup, the handling of IP headers |
| `CellQueue.dfy`, `Arp.dfy` | the queue of linked cells and the ARP protocol on top of it |
| `Wire.dfy` | byte deques, the messages of both directions and their decoding |
| `PubSub.dfy`, `Server.dfy` | the server's steps on values, and the class that performs them in place |
| `ServerRuns.dfy`, `ServerStreams.dfy` | what holds on every run of the server: tables, deliveries, lost slots; framing and buffers |
| `ServerDeliveries.dfy` | what goes out, from the inputs alone: news, deliveries, the places of connections |
| `Subscriber.dfy` | the sending side of a subscriber and the end-to-end statement |

Code that updates state is modelled by methods and classes (`OrderedMap`, `Queue`, `Router`, `Server`, `Deque`,
`Subscriber`, the header array of `Forwarding`). Their contracts equate the new state with a function of the old
one, and the lemmas are about these functions.

## Main results

* **Diff and patch.** For every pair of documents, `source.patch(diff(source, target))` succeeds. The result is
  described exactly, and it equals the target by `operator==` if and only if the target holds no NaN and no
  discarded value (`JsonDiff.PatchOfDiff`). Paths are strings with the escaping of RFC 6901; patches are JSON
  documents; signed, unsigned and floating-point numbers are compared as the library does. What `operator==` means is
  proved without reference to it: without floating-point numbers two values are equal exactly when they are the same
  once every unsigned integer is replaced by the signed one with its bits (`JsonValue.EqIsCanonical`), and so the
  patched source is then the target itself up to these types (`JsonDiff.PatchOfDiffIsTarget`).
* **Patch operations.** Each operation puts the right value at its path, and every other location, but for array
  elements behind an insertion or a removal, is as it was; those move by one position (`CopyArrives`, `MoveArrives`,
  `AdditionArrives`, `AdditionKeepsOthers`, `AdditionShifts`, `RemovalKeepsOthers`, `RemovalShifts`,
  `ReplacementArrives`). An element of a patch document is read as an operation exactly when it has its members, and a
  patch fails with the first error.
* **Locality of patch.** A patch written below a location acts on the document as the stripped patch acts on the
  subtree there, and nothing apart from that location changes (`JsonPatchLaws.PatchIsLocal`).
* **Merge patch.** At every path where the patch has a value other than null it arrives (`ValuesArrive`,
  `ObjectsArrive`), a null deletes (`NullsDelete`), and where the path leaves the patch's objects nothing changes
  (`OthersStay`).
* **Checksums.** `ip_checksum` is the complement of the RFC 1071 sum for every length, content and start
  alignment. Exactly when `icmp_checksum` agrees with it is proved for every length; on even sizes up to 131076
  bytes that is unless all bytes are zero, and this bound cannot be raised. The incremental TTL update is congruent
  to a recomputation for a positive TTL and equal to it exactly when the old value is not 0xFFFE.
* **Route search.** Exactly when the binary search finds a match is proved for every table, and so is exactly when
  `best_route_search` ends.
* **ARP.** On every run no packet waits for an address that is known, and per next hop the sent packets followed by
  the waiting ones are those that the inputs hand over for it, in order, each sent to the address learned last. The
  answers and requests sent are those that the inputs call for (`Arp.RunFollowsInputs`, `Arp.RunDelivers`).
* **Publish/subscribe.** On every run, whatever the connections send, for every identifier, what was handed to send
  followed by what is queued is exactly the news published while the identifier was subscribed with
  store-and-forward, or without it and connected. Exactly the datagrams that came in are published, and a connection
  that is writable as often as there are news waiting for its identifier gets them all, whatever happens in between
  (`RunPublishesInputs`, `EventuallyDelivered`). No live slot is overwritten by another connection, the free list
  holds distinct closed slots, and which slots are lost is described exactly. The messages handled for an open
  connection are those of all bytes received on it. The two identifier maps stay inverse exactly as long as no bound
  connection sends a TCP_CONNECT, and no connection one with a free identifier behind a message that made the parser
  close it; up to then every delivery goes to the descriptor that its identifier is bound to, and afterwards still
  every delivery to an identifier that is not empty.

## Where the code differs from what is said about it

* `json.hpp:4645` says that a parent cannot be primitive. It can: `AdditionBelowPrimitive` says exactly when the
  assertion behind the comment is reached.
* Section 4.2 of RFC 6902 requires the target of a removal to exist. Below a string, number or boolean the
  library removes nothing and succeeds (`RemovalSucceedsExactly`, `RemovalWithoutTarget`).
* Section 4.1 of RFC 6902 requires the parent of an addition to exist. The library also succeeds when the first
  token of the path exists and what is missing can be created: below the last value that exists, a null, an array or
  an object, tokens of digits other than the last must be array indices (`AdditionSucceedsExactly`,
  `AdditionWithoutParent`).
* Section 4.4 of RFC 6902 forbids to move a value into itself. The library does it whenever the place can be entered
  after the value was taken out (`MoveBelowItself`, `MoveIntoItself`).
* `operator==` is not transitive where numbers of different types meet (`EqTransitive`, `EqIsNotTransitive`).
* `router.c:53` uses a binary search that can miss a match when masks differ; prefixes and masks are compared in
  network byte order, so the order of the table is not the order of the networks. It finds a match exactly when one
  is pointed to by the entries on the way to it (`SearchFindsExactly`, `MixedMasksMiss`), and so always with one
  mask (`SearchIsComplete`).
* `best_route_search` recurses without end exactly when the search finds no match for the destination, the sender
  and the interface address (`SearchEnds`, `SearchCanGoOn`).
* The incremental update at `router.c:152` is wrong for the old value 0xFFFE (`TtlUpdate`, `UpdateGoesWrong`), and
  an echo reply keeps the check field of another TTL (`EchoReplyCheck`).
* `icmp_checksum` on an odd length counts the byte behind the data, and two folds are too few for large sums
  (`ChecksumsAgreeExactly`, `BoundIsTight`).
* `disconnect` (`server.cpp:137-139`) marks the slot before it clears the buffer, so the buffer of the closed
  connection stays for the next one with the same descriptor (`BufferWaits`, `NextStartsWith`, `StaleBytes`).
* After a second TCP_CONNECT on a connection, closing it can release the empty identifier of another one
  (`EmptyIdentifierIsLost`).
* A connection that the parser closes leaves a slot that is never used again, although `readme.txt` describes the
  queue of empty places as the way to reuse them. With well-behaved subscribers these are exactly the connections
  turned away because their identifier is in use (`RunLeaksExactly`, `OnlyRejectionsClose`, `RejectionLeaks`).

## Model

| member | source | states |
|---|---|---|
| `JsonValue.EqReflexive` | tema3/json-develop/include/nlohmann/json.hpp:3551-3625 | a value equals itself exactly when it holds no NaN and no discarded value |
| `JsonValue.EqIsCanonical` | tema3/json-develop/include/nlohmann/json.hpp:3551-3625 | without floating-point numbers, two values are equal exactly when they hold no discarded part and are the same once every unsigned integer is replaced by the signed one with its 64 bits |
| `JsonValue.FloatsCompareByValue` | tema3/json-develop/include/nlohmann/json.hpp:3586-3611 | a floating-point number equals exactly the numbers with its value, integers after rounding, and NaN nothing |
| `JsonValue.EqSymmetric` | tema3/json-develop/include/nlohmann/json.hpp:3551-3625 | equality is symmetric for all values, mixed numbers included |
| `JsonValue.EqImpliesComparable` | tema3/json-develop/include/nlohmann/json.hpp:3551-3625 | values with a NaN or discarded part equal nothing |
| `JsonValue.MixedIntegers` | tema3/json-develop/include/nlohmann/json.hpp:3612-3619 | a signed and an unsigned integer are equal exactly when their 64 bits are the same |
| `JsonValue.SmallIntegersAreExact` | tema3/json-develop/include/nlohmann/json.hpp:3596-3611 | the cast to double is exact up to 53 bits |
| `JsonValue.RoundingIsNearest` | tema3/json-develop/include/nlohmann/json.hpp:3596-3611 | larger integers are rounded to the nearest double, from the middle between two to the even one, and negative ones as their opposites |
| `JsonValue.EqTransitive` | tema3/json-develop/include/nlohmann/json.hpp:3551-3625 | for all values with a == b and b == c, a == c holds exactly when the three clash nowhere: no two integers with different bits through a floating-point number, and no two integers that round differently with a floating-point number at one end |
| `JsonValue.ClashNeedsFloat` | tema3/json-develop/include/nlohmann/json.hpp:3551-3625 | without floating-point numbers nothing clashes, so there equality is an equivalence |
| `JsonValue.EqIsNotTransitive` | tema3/json-develop/include/nlohmann/json.hpp:3596-3619 | a clash of each kind |
| `StringEscape.ReplaceSubstring` | tema3/json-develop/include/nlohmann/detail/string_escape.hpp:24-33 | the in-place loop replaces the occurrences from left to right |
| `StringEscape.EscapeIsCharwise` | tema3/json-develop/include/nlohmann/detail/string_escape.hpp:43-48 | the two passes in this order are the character-wise escaping |
| `StringEscape.UnescapeEscape` | tema3/json-develop/include/nlohmann/detail/string_escape.hpp:43-62 | unescaping an escaped string gives it back |
| `StringEscape.EscapeUnescape` | tema3/json-develop/include/nlohmann/detail/string_escape.hpp:43-62 | and every legal token is the escaping of what it is read as |
| `StringEscape.EscapeShape` | tema3/json-develop/include/nlohmann/detail/string_escape.hpp:43-48 | an escaped key is one legal reference token |
| `JsonPointer.Split` | tema3/json-develop/include/nlohmann/detail/json_pointer.hpp:645-703 | the loop returns the decoded tokens, or the error of the first token that is not properly escaped |
| `JsonPointer.ParseToText` | tema3/json-develop/include/nlohmann/detail/json_pointer.hpp:58-66 | reading the text of any pointer gives the pointer |
| `JsonPointer.TextOfParsed` | tema3/json-develop/include/nlohmann/detail/json_pointer.hpp:645-703 | and every text that is read is the text of the pointer it is read as |
| `JsonPointer.ParseFailsExactly` | tema3/json-develop/include/nlohmann/detail/json_pointer.hpp:645-703 | exactly which texts are pointers, which give error 107 and which 108 |
| `JsonPointer.ParseKey` | tema3/json-develop/include/nlohmann/json.hpp:4900-4901 | appending a slash and an escaped key to a path appends that key as one token |
| `JsonPointer.IndexRoundTrip` | tema3/json-develop/include/nlohmann/detail/json_pointer.hpp:193-227 | the decimal text of an index is read back as that index |
| `JsonPatch.GetChecked` | tema3/json-develop/include/nlohmann/detail/json_pointer.hpp:401-444 | the loop over the tokens returns the value at the location, or the first error |
| `JsonPatch.PatchDocument` | tema3/json-develop/include/nlohmann/json.hpp:4551-4821 | the loop over the patch document applies its operations in order to a working copy and stops at the first error |
| `JsonPatchLaws.IndexInjective` | tema3/json-develop/include/nlohmann/detail/json_pointer.hpp:193-227 | an array element has one spelling of its index |
| `JsonPatchLaws.SetElsewhere` | tema3/json-develop/include/nlohmann/json.hpp:4748-4753 | writing at a location leaves every location neither above nor below it as it was |
| `JsonPatchLaws.AddAtParent` | tema3/json-develop/include/nlohmann/json.hpp:4590-4655 | when the parent exists, an addition changes the parent only and creates nothing else |
| `JsonPatchLaws.AddedIsFound` | tema3/json-develop/include/nlohmann/json.hpp:4606-4642 | however many parents are created, the added value is found at its path |
| `JsonPatchLaws.ApplyBelow` | tema3/json-develop/include/nlohmann/json.hpp:4590-4813 | one operation below a location acts as the stripped operation acts on the subtree |
| `JsonPatchLaws.PatchIsLocal` | tema3/json-develop/include/nlohmann/json.hpp:4590-4813 | the same for whole patches, and everything apart from the location is untouched |
| `JsonPatchLaws.RemoveUndoesAdd` | tema3/json-develop/include/nlohmann/json.hpp:4590-4683 | an added value is found where it was added, and removing it restores the document |
| `JsonPatchLaws.AddUndoesRemove` | tema3/json-develop/include/nlohmann/json.hpp:4590-4683 | adding a removed value back restores the document |
| `JsonPatchLaws.MoveOntoItself` | tema3/json-develop/include/nlohmann/json.hpp:4755-4770 | moving a value to where it is changes nothing |
| `JsonPatchLaws.MoveBelowItself` | tema3/json-develop/include/nlohmann/json.hpp:4755-4770 | exactly when a value can be moved to a place below itself: the place where it was can be entered without it, through the next element of an array or by creating it again |
| `JsonPatchLaws.MoveIntoItself` | tema3/json-develop/include/nlohmann/json.hpp:4755-4770 | a move of a value into itself that succeeds |
| `JsonPatchLaws.TestsOnlyGuard` | tema3/json-develop/include/nlohmann/json.hpp:4787-4808 | a patch succeeds exactly when it does so without its tests and each test finds an equal value in what the operations before it made; the document is then the same |
| `JsonPatchLaws.DecodeOpDoc` | tema3/json-develop/include/nlohmann/json.hpp:4695-4732 | every operation can be written as a patch element and is read back as it was |
| `JsonPatchLaws.RunOfOpDocs` | tema3/json-develop/include/nlohmann/json.hpp:4691-4818 | patching with the document of some operations is applying them in order |
| `JsonPatchLaws.RemovalSucceedsExactly` | tema3/json-develop/include/nlohmann/json.hpp:4657-4683 | a removal succeeds exactly when its target exists or its parent is a primitive, and then changes nothing |
| `JsonPatchLaws.RemovalWithoutTarget` | tema3/json-develop/include/nlohmann/json.hpp:4657-4683 | a removal that succeeds although its target does not exist |
| `JsonPatchLaws.AdditionSucceedsExactly` | tema3/json-develop/include/nlohmann/json.hpp:4590-4655 | for every document and path, exactly when an addition succeeds: the parent takes the child or, without a parent, the first token exists and the rest of the path can be created below the last value that does |
| `JsonPatchLaws.CreationKeepsOthers` | tema3/json-develop/include/nlohmann/detail/json_pointer.hpp:330-395 | an addition that creates parents leaves everything beside its path as it was |
| `JsonPatchLaws.AdditionWithoutParent` | tema3/json-develop/include/nlohmann/json.hpp:4599-4609 | an addition that succeeds although its parent does not exist |
| `JsonPatchLaws.AdditionBelowPrimitive` | tema3/json-develop/include/nlohmann/json.hpp:4611-4653 | for every document and path, the assertion is reached exactly when the parent exists and is a primitive other than null |
| `JsonPatchLaws.AssertionIsReached` | tema3/json-develop/include/nlohmann/json.hpp:4611-4653 | an addition that reaches it |
| `JsonPatchEffects.AdditionArrives` | tema3/json-develop/include/nlohmann/json.hpp:4590-4655 | whenever an addition succeeds, the added value is found at its path |
| `JsonPatchEffects.AppendArrives` | tema3/json-develop/include/nlohmann/json.hpp:4621-4642 | with "-" at the end it becomes the last element of the array |
| `JsonPatchEffects.AdditionKeepsOthers` | tema3/json-develop/include/nlohmann/json.hpp:4590-4655 | every other location is as before, but for array elements at an insertion and behind it |
| `JsonPatchEffects.AdditionShifts` | tema3/json-develop/include/nlohmann/json.hpp:4621-4642 | those are found one position further on |
| `JsonPatchEffects.OnlyThePathAppears` | tema3/json-develop/include/nlohmann/detail/json_pointer.hpp:330-395 | where parents are created, nothing but nulls that fill up an array appears beside the path |
| `JsonPatchEffects.CreatedContainers` | tema3/json-develop/include/nlohmann/detail/json_pointer.hpp:330-395 | a created parent is an array, filled up to the index, where the token is written in digits, and otherwise an object |
| `JsonPatchEffects.RemovalKeepsOthers` | tema3/json-develop/include/nlohmann/json.hpp:4657-4683 | a removal leaves every other location as it was, but for array elements behind the removed one |
| `JsonPatchEffects.RemovalShifts` | tema3/json-develop/include/nlohmann/json.hpp:4657-4683 | those are found one position before |
| `JsonPatchEffects.ReplacementArrives` | tema3/json-develop/include/nlohmann/json.hpp:4748-4753 | a replacement succeeds exactly at an existing location, puts the value there and leaves the others |
| `JsonPatchEffects.CopyArrives` | tema3/json-develop/include/nlohmann/json.hpp:4772-4785 | a copy adds the value that stands at from: it is found at path, and every other location that no insertion shifts is as before |
| `JsonPatchEffects.MoveArrives` | tema3/json-develop/include/nlohmann/json.hpp:4755-4770 | a move, whatever its two paths, removes the value at from and adds it at path, where it is found; what neither of the two shifts is as before |
| `JsonPatchEffects.ArrayIndexExactly` | tema3/json-develop/include/nlohmann/detail/json_pointer.hpp:193-227 | exactly which tokens are read as which index |
| `JsonPatchEffects.ArrayIndexErrors` | tema3/json-develop/include/nlohmann/detail/json_pointer.hpp:193-227 | and which error the others give |
| `JsonPatchEffects.AtFailsFirst` | tema3/json-develop/include/nlohmann/detail/json_pointer.hpp:401-444 | reading a location fails with the error of the first token that names nothing |
| `JsonPatchEffects.StepErrors` | tema3/json-develop/include/nlohmann/detail/json_pointer.hpp:401-444 | 401 behind the array, 402 for "-", 403 for a missing key, 404 in a primitive, each exactly then |
| `JsonPatchEffects.RemovalErrors` | tema3/json-develop/include/nlohmann/json.hpp:4657-4683 | the error of each removal that fails |
| `JsonPatchEffects.AdditionErrors` | tema3/json-develop/include/nlohmann/json.hpp:4590-4655 | the error of an addition behind the end of an array, below a missing first token and below a primitive |
| `JsonPatchEffects.TestErrors` | tema3/json-develop/include/nlohmann/json.hpp:4787-4808 | a test succeeds exactly on an equal value; 501 exactly where nothing or something else is found |
| `JsonPatchEffects.PatchFailsFirst` | tema3/json-develop/include/nlohmann/json.hpp:4551-4821 | a patch that is no array gives 104, any other the error of the first element that cannot be read or applied |
| `JsonPatchEffects.DecodeOpExactly` | tema3/json-develop/include/nlohmann/json.hpp:4691-4732 | an element is read as an operation exactly when it has the members that ask for it; others are ignored |
| `JsonPatchEffects.DecodeErrors` | tema3/json-develop/include/nlohmann/json.hpp:4691-4732 | 104 for no object, 105 without an operation or path, and otherwise the error of a path that is no pointer |
| `JsonDiff.DiffDocuments` | tema3/json-develop/include/nlohmann/json.hpp:4826-4956 | the recursive procedure returns the list of operations that the other lemmas are about |
| `JsonDiff.DiffArrays` | tema3/json-develop/include/nlohmann/json.hpp:4850-4891 | the three loops emit recursive patches by index, removals in descending order, and additions at the end |
| `JsonDiff.DiffObjects` | tema3/json-develop/include/nlohmann/json.hpp:4893-4934 | the two passes emit patches or removals for the source's keys and additions for the target's other keys |
| `JsonValue.LessMeans` | tema3/json-develop/include/nlohmann/json.hpp:4893-4934 | the keys come in the order that the first difference decides, a prefix before what it begins |
| `JsonDiff.DiffRuns` | tema3/json-develop/include/nlohmann/json.hpp:4826-4956 | run in any document that holds the source at the path, the patch replaces it there and touches nothing else |
| `JsonDiff.RewrittenEqualsTarget` | tema3/json-develop/include/nlohmann/json.hpp:4826-4956 | what the patch produces equals the target exactly when the target holds no NaN and no discarded value |
| `JsonDiff.PatchOfDiff` | tema3/json-develop/include/nlohmann/json.hpp:4551-4956 | patching the source with the diff never fails, and yields a document equal to the target under exactly that condition |
| `JsonDiff.PatchOfDiffIsTarget` | tema3/json-develop/include/nlohmann/json.hpp:4551-4956 | without floating-point numbers the result is the target itself, up to the signs of integer types |
| `JsonDiff.DiffEmpty` | tema3/json-develop/include/nlohmann/json.hpp:4826-4956 | the diff is empty exactly when source and target are equal |
| `JsonDiff.DiffPathsExtend` | tema3/json-develop/include/nlohmann/json.hpp:4826-4956 | every emitted path is the given path or continues it with a slash |
| `MergePatch.MergeInAnyOrder` | tema3/json-develop/include/nlohmann/json.hpp:4969-4993 | whatever the order of the keys, the loop computes MergePatch of section 2 of RFC 7396 |
| `MergePatch.MergeInto` | tema3/json-develop/include/nlohmann/json.hpp:4969-4993 | the recursive procedure computes that function |
| `MergePatch.ValuesArrive` | tema3/json-develop/include/nlohmann/json.hpp:4969-4993 | where the patch has a value other than an object or null, the result has that value |
| `MergePatch.ObjectsArrive` | tema3/json-develop/include/nlohmann/json.hpp:4969-4993 | where it has an object, the result has one |
| `MergePatch.OthersStay` | tema3/json-develop/include/nlohmann/json.hpp:4969-4993 | where a path leaves the objects of the patch, the result has what the target has, or nothing |
| `MergePatch.MergeIdempotent` | tema3/json-develop/include/nlohmann/json.hpp:4969-4993 | applying a merge patch twice is applying it once |
| `MergePatch.NoNewNulls` | tema3/json-develop/include/nlohmann/json.hpp:4969-4993 | a null member of the result reached through objects was a null member of the target |
| `MergePatch.NullsDelete` | tema3/json-develop/include/nlohmann/json.hpp:4979-4982 | where the patch has a null the result has no member, at any depth |
| `JsonDestroy.Destroy` | tema3/json-develop/include/nlohmann/json.hpp:588-637 | the worklist ends, pops everything strictly inside the value with the last child first, and what goes out of scope has no children left |
| `JsonDestroy.OccurrencesAreInside` | tema3/json-develop/include/nlohmann/json.hpp:588-637 | the children that the worklist takes are the elements and member values that a direct count over the document finds |
| `JsonDestroy.PopsEachOnce` | tema3/json-develop/include/nlohmann/json.hpp:615-637 | each value strictly inside is popped as often as a direct count over the document finds it |
| `OrderedMap.OrderedMap.Emplace` | tema3/json-develop/include/nlohmann/ordered_map.hpp:46-57 | an existing key is found and kept, a new one is appended |
| `OrderedMap.OrderedMap.Insert` | tema3/json-develop/include/nlohmann/ordered_map.hpp:208-219 | the same for a pair |
| `OrderedMap.OrderedMap.InsertAll` | tema3/json-develop/include/nlohmann/ordered_map.hpp:226-232 | a range is inserted pair by pair |
| `OrderedMap.OrderedMap.Find` | tema3/json-develop/include/nlohmann/ordered_map.hpp:179-201 | the position of the first pair with the key, or the end |
| `OrderedMap.OrderedMap.Count` | tema3/json-develop/include/nlohmann/ordered_map.hpp:167-177 | 1 exactly when a pair has the key |
| `OrderedMap.OrderedMap.At` | tema3/json-develop/include/nlohmann/ordered_map.hpp:69-93 | the value in the abstract map, or the exception |
| `OrderedMap.OrderedMap.EraseKey` | tema3/json-develop/include/nlohmann/ordered_map.hpp:95-112 | shifting the later pairs down cuts out the pair with the key |
| `OrderedMap.OrderedMap.EraseRange` | tema3/json-develop/include/nlohmann/ordered_map.hpp:119-165 | the in-place shift cuts out exactly the slice |
| `OrderedMap.RunRefinesMap` | tema3/json-develop/include/nlohmann/ordered_map.hpp:46-232 | every run of operations, insertion of a range included, keeps keys unique and agrees with an abstract map |
| `OrderedMap.RunKeepsOrder` | tema3/json-develop/include/nlohmann/ordered_map.hpp:46-219 | keys that survive a run keep their values and their order |
| `OrderedMap.RunAppendsNew` | tema3/json-develop/include/nlohmann/ordered_map.hpp:46-232 | a key that is there all through a run stands before one that was added during it |
| `Checksum.IpChecksum` | tema1/skel.c:163-213 | for every content, length below the stated bound and start address, the byte-swapped complement of the residue in 1..65535 of the sum of big-endian words; the 64-bit sum does not wrap and the carry loop ends |
| `Checksum.OddIsPadded` | tema1/skel.c:163-213 | an odd last byte counts as a word padded with a zero |
| `Checksum.ExampleSum` | tema1/skel.c:163-213 | the value on the numerical example of section 3 of RFC 1071 |
| `Checksum.ResidueUnique` | tema1/skel.c:199-202 | that residue is determined by congruence modulo 65535 |
| `Checksum.Unshift` | tema1/skel.c:204-209 | swapping the bytes undoes the effect of an odd start address |
| `Checksum.IcmpChecksum` | tema1/skel.c:147-160 | for every length, two folds of the sum of little-endian words and the complement; of an odd length the byte behind the data completes the last word |
| `Checksum.TwoFoldsExactly` | tema1/skel.c:157-159 | two folds leave the residue in 1..65535 exactly when the sum is positive and the second fold leaves no carry |
| `Checksum.TwoFoldsSuffice` | tema1/skel.c:157-159 | up to 65538 words it leaves none |
| `Checksum.IpValueIsLittle` | tema1/skel.c:163-213 | summing big-endian words and swapping at the end is summing little-endian words |
| `Checksum.ChecksumsAgreeExactly` | tema1/skel.c:147-213 | for every content and length, the two functions agree exactly when some byte is not zero, the second fold leaves no carry and, of an odd length, the byte behind the data is zero |
| `Checksum.ChecksumsAgree` | tema1/skel.c:147-213 | on even lengths up to 131076 they agree exactly when some byte is not zero |
| `Checksum.BoundIsTight` | tema1/skel.c:147-160 | with 131078 bytes they can differ on data that is not zero |
| `RouteTable.CompareIsOrder` | tema1/router.c:38-50 | the comparison is the total order on prefix, then mask, smaller first, as qsort needs |
| `RouteTable.SearchFindsExactly` | tema1/router.c:55-69 | on every table, sorted or not, the search finds a match exactly when there is one that each entry compared on the way to it points to; which entries these are depends on the size of the table only; of two such neighbours the later one is returned |
| `RouteTable.ShortTables` | tema1/router.c:55-69 | so nothing is missed in tables of one or two entries, and the last match is returned |
| `RouteTable.SearchAtCutoff` | tema1/router.c:55-69 | with a single turning point, whatever the masks, a match is found exactly when the entry there matches, or at the end of the table the one before it, and it is the last one |
| `RouteTable.SearchIsComplete` | tema1/router.c:55-69 | on a sorted table with one mask the search returns a match exactly when a linear scan would, and it is the last one |
| `RouteTable.MixedMasksMiss` | tema1/router.c:55-69 | a sorted table with the masks of /24 and /32 in which a match is missed |
| `Forwarding.VerifyAndLowerTtl` | tema1/router.c:142-152 | a header is accepted exactly when its check field is the checksum, and then gets the lower TTL and the updated check field |
| `Forwarding.TtlUpdate` | tema1/router.c:149-152 | the updated check field against a recomputation: congruent for a positive TTL, equal exactly unless the old value was 0xFFFE; and the exact condition for TTL 0 |
| `Forwarding.UpdateGoesWrong` | tema1/router.c:136-167 | a correct header that is sent on with a wrong check field |
| `Forwarding.EchoReplyCheck` | tema1/router.c:116-133 | the check field of an echo reply is right exactly when the TTL was one more than the TTL it gets and the old value not 0xFFFE |
| `Forwarding.CreateErrorIcmp` | tema1/router.c:73-95 | the sender becomes the destination and the interface the sender; TTL, protocol and length are set, nothing else in the header changes |
| `Forwarding.BestRouteSearch` | tema1/router.c:99-114 | the returned entry is the one that the search finds for the destination of the header as it then is, and matches it, after 0, 1 or 2 rewrites, whichever comes first |
| `Forwarding.SearchEnds` | tema1/router.c:99-114 | the recursion ends exactly when the search finds a match for the destination, the sender or the interface address, and otherwise no number of rewrites ends it |
| `Forwarding.RankOnOneMask` | tema1/router.c:99-114 | on a sorted table with one mask that is when one of the three is routed |
| `Forwarding.SearchCanGoOn` | tema1/router.c:136-167 | a table and a correct header with which it never ends |
| `Forwarding.ForwardIp` | tema1/router.c:116-167 | a header with a wrong checksum is dropped, any other, echo replies included, leaves with a route that matches it |
| `Forwarding.ExpiredGoesBack` | tema1/router.c:73-164 | an expired packet goes back to its sender as an error message of the router, with the length of such a message and a right checksum |
| `Forwarding.OthersGoOn` | tema1/router.c:116-167 | any other keeps its addresses and all else but TTL and checksum; the TTL is one lower, or that of an echo reply |
| `Forwarding.ForwardedIsRight` | tema1/router.c:116-167 | exactly when the checksum of the header that is sent on is right |
| `CellQueue.Queue.Enqueue` | tema1/queue.c:24-32 | the linked cells hold the old contents and the new element at the end |
| `CellQueue.Queue.Dequeue` | tema1/queue.c:34-42 | the first element is returned and the others stay in order |
| `CellQueue.Queue.IsEmpty` | tema1/queue.c:19-22 | empty exactly when there are no contents |
| `Arp.Router.Lookup` | tema1/router.c:205-214 | the scan of the list ends with the address learned last |
| `Arp.LatestIsLast` | tema1/router.c:205-214 | that is the one in the last entry with the address, and none exactly when there is no entry |
| `Arp.Router.ForwardPacket` | tema1/router.c:200-230 | a packet with a known next hop is sent, any other is queued and asked for |
| `Arp.Router.ReceiveArp` | tema1/router.c:277-328 | a request for the own address is answered; anything else is learned, and what waited for it is sent |
| `Arp.Drain` | tema1/router.c:310-327 | the loop moves the packets for other next hops to the new queue in order and sends the others in order |
| `Arp.EveryRunKeepsInvariant` | tema1/router.c:200-328 | every step keeps: nothing waits for a known address, nothing is lost or doubled, order per next hop, latest address |
| `Arp.RunFromStart` | tema1/router.c:232-328 | so every run from the start has these properties |
| `Arp.RunFollowsInputs` | tema1/router.c:170-328 | over a run, accepted per next hop are exactly the packets that the inputs hand over for it, learned exactly the senders of what is no request for the own address; the answers are those to the others, and the requests are for the next hops not known at the time, each in order |
| `Arp.RunDelivers` | tema1/router.c:170-328 | from the start, per next hop, the packets sent and then those waiting are exactly those handed over, in order, and once the address was announced all of them are sent |
| `Arp.ExchangeResolves` | tema1/router.c:170-328 | a request, the answer of the router that has the address, and the packets that the answer sets free |
| `Wire.ReadData` | tema2/common.cpp:10-18 | the front bytes move to the result and, in order, to the note of what was read |
| `Wire.PlaceBack` | tema2/common.cpp:21-28 | the noted bytes are in front again in their old order |
| `Wire.ReadAndPlaceBack` | tema2/common.cpp:10-28 | reading in two steps and placing back leaves the buffer as it was |
| `Wire.EncodeDecode` | tema2/headers/common.h:55-68 | a message that a subscriber can send is decoded to what it means, whatever follows the terminators |
| `Wire.FrameLayout` | tema2/headers/common.h:55-68 | the bytes of each of the three messages, for any text that fits |
| `Wire.EncodeAllDecodes` | tema2/server.cpp:150-272 | a stream of messages is decoded to the same messages with nothing left over |
| `Wire.MessagesAppend` | tema2/server.cpp:150-272 | decoding in two pieces with the leftover in front is decoding at once |
| `Wire.Receiver.ReceiveMsg` | tema2/subscriber.cpp:149-165 | one message is taken off the buffer, or the buffer is left as it was |
| `Wire.IncompleteMeans` | tema2/subscriber.cpp:149-159 | the unsigned size test means that the message is not all there, or that its length is less than that of the length field |
| `Wire.ReceiveOne` | tema2/subscriber.cpp:149-165 | a complete message is received as it was sent, whatever follows it |
| `Wire.ReceivePart` | tema2/subscriber.cpp:149-159 | a part of a message stays in the buffer unchanged |
| `Wire.WireRoundTrip` | tema2/subscriber.cpp:149-165 | any sequence of news is received with the same addresses, ports and payloads in order |
| `Wire.AnyInterleaving` | tema2/subscriber.cpp:149-165 | however arrivals and calls with at least four buffered bytes are interleaved, what was received is the first of the news in order and what is buffered or still to come are the others |
| `Server.Server.AddConnection` | tema2/server.cpp:97-126 | the first place of the free list or a new one is taken, after doubling the array if it is full |
| `Server.Server.Reallocate` | tema2/server.cpp:99-111 | the used slots survive the reallocation |
| `Server.Server.DisconnectSlot` | tema2/server.cpp:129-140 | the identifier is released on request, the slot marked, the buffer of -1 cleared |
| `Server.Server.TakeFrame` | tema2/server.cpp:150-168 | a complete message is taken off the buffer, an incomplete one is placed back |
| `Server.Server.ParseTcpBuffer` | tema2/server.cpp:150-272 | the recursion ends and computes the parse function, disconnects included |
| `Server.Server.SetSubscription` | tema2/server.cpp:209-223 | the identifier leaves the set of the other flag and enters the one of its flag |
| `Server.Server.ClearSubscription` | tema2/server.cpp:245-258 | the identifier leaves both sets |
| `Server.Server.Publish` | tema2/server.cpp:337-349 | the news is queued for the connected subscribers without and for all subscribers with store-and-forward |
| `Server.Server.SendFromQueue` | tema2/server.cpp:367-383 | the front of the queue of the slot's identifier is handed to send |
| `Server.Server.HangUp` | tema2/server.cpp:355-366 | the slot enters the free list and is disconnected |
| `Server.Server.ReceiveBytes` | tema2/server.cpp:384-402 | the bytes are appended to the connection's buffer and parsed |
| `ServerRuns.AddConKeepsTable` | tema2/server.cpp:90-127 | a new connection keeps the tables consistent and overwrites no live slot |
| `ServerRuns.DisconnectKeepsTable` | tema2/server.cpp:129-140 | closing a connection keeps the tables consistent when the identifier goes exactly if it was bound |
| `ServerRuns.StepKeepsSlots` | tema2/server.cpp:90-140 | every input, whatever a connection sends, keeps live slots distinct and the free list a list of distinct closed slots, and changes no live slot but its own |
| `ServerRuns.StepAgrees` | tema2/server.cpp:312-404 | every input, whatever a connection sends, keeps identifiers, subscriptions and queues in agreement with the history |
| `ServerRuns.ParseKeepsTableExactly` | tema2/server.cpp:150-272 | received bytes keep the tables consistent exactly when no TCP_CONNECT is handled on a bound connection and none with a free identifier on a closed one |
| `ServerRuns.StepKeepsTableExactly` | tema2/server.cpp:312-404 | the same for every input |
| `ServerRuns.EveryRun` | tema2/server.cpp:274-407 | on every run, whatever the connections send: distinct live slots, a free list of distinct closed slots, subscriber sets that reflect the last subscription, and exactly the expected deliveries in order; and in all its states inverse identifier maps with a live slot for each bound descriptor exactly when all received bytes are clean |
| `ServerRuns.SendGoesHome` | tema2/server.cpp:367-383 | a delivery goes to the descriptor that its identifier is bound to exactly when the two identifier maps agree on it |
| `ServerRuns.EveryDelivery` | tema2/server.cpp:274-407 | on every run every delivery does so, if the identifier is not empty or the received bytes are clean |
| `ServerDeliveries.WritableGetsFirst` | tema2/server.cpp:367-383 | a writable connection with news waiting for its identifier gets exactly the first of them, on its descriptor; no other queue changes |
| `ServerDeliveries.EventuallyDelivered` | tema2/server.cpp:312-404 | what waits for an identifier is handed to send in order once its connection was writable as often as there are news waiting, whatever else happens |
| `ServerDeliveries.WritableDrains` | tema2/server.cpp:367-383 | if only that happens, the queue is then empty and all that was expected was handed to send |
| `ServerDeliveries.TopicOfText` | tema2/server.cpp:337-340 | the topic of a datagram is the text of up to 50 bytes it starts with |
| `ServerDeliveries.RunPublishesInputs` | tema2/server.cpp:312-349 | over a run exactly the datagrams that came in are published, in order, under their topics |
| `ServerDeliveries.AcceptTakesPlace` | tema2/server.cpp:112-121 | a new connection takes the place that has been free for longest, or a new one if there is none |
| `ServerDeliveries.PlacesAreReusedInOrder` | tema2/server.cpp:112-121 | over a run places are reused in the order in which they became free |
| `ServerDeliveries.RunKeepsTight` | tema2/server.cpp:97-111 | over a run the array has 10 places or the fewest doublings of that which its slots needed |
| `ServerRuns.LegalIsClean` | tema2/subscriber.cpp:247-272 | a stream with TCP_CONNECT once and first is clean, accepted or not |
| `ServerStreams.ParseHandlesMessages` | tema2/server.cpp:150-272 | the parser handles the complete messages in order and keeps the rest |
| `ServerStreams.ChunkingIndependence` | tema2/server.cpp:384-402 | however the stream is cut into chunks, the final state and the leftover are the same |
| `ServerStreams.ParseFrames` | tema2/server.cpp:150-272 | a connection that the parser leaves open had all its complete messages handled, and keeps the rest |
| `ServerStreams.FramingOnRuns` | tema2/server.cpp:312-404 | on every run, while a connection is open, the messages handled are those of all bytes received on it, however they are cut and whatever happens to other connections |
| `ServerStreams.ParseLeaves` | tema2/server.cpp:150-272 | what the parser leaves is an end of the buffer, at one of the places where it can stop |
| `ServerStreams.DisconnectClearsExactly` | tema2/server.cpp:137-139 | the buffer of the closed connection is empty afterwards exactly when it was before; the one of -1 is cleared |
| `ServerStreams.BufferWaits` | tema2/server.cpp:129-140 | on every run the buffer of a closed descriptor stays as it is until the descriptor is accepted again |
| `ServerStreams.NextStartsWith` | tema2/server.cpp:129-140 | so after a hang-up the next connection with the descriptor starts with the incomplete end of the stream before it, and with nothing exactly when that stopped between messages |
| `ServerStreams.StaleBytes` | tema2/server.cpp:129-140 | a run on which half a message of a closed connection makes the parser close the next connection with its number |
| `ServerRuns.StepLeaksExactly` | tema2/server.cpp:312-404 | whatever is sent, a step makes a slot leak exactly when the parser closes its connection: on a byte that starts no message, before the identifier on a message other than TCP_CONNECT, or on a TCP_CONNECT with an identifier in use |
| `ServerRuns.RunLeaksExactly` | tema2/server.cpp:112-140 | over a run, the slots that leak are exactly those, and they are never used again |
| `ServerRuns.EveryLeak` | tema2/server.cpp:112-140 | so from the start on |
| `ServerRuns.CleanCloses` | tema2/server.cpp:150-272 | on clean bytes that is at a byte that starts no message, or when the first message is not a TCP_CONNECT with a free identifier |
| `ServerRuns.OnlyRejectionsClose` | tema2/server.cpp:178-182 | with subscribers that keep to the protocol, the parser closes a connection exactly when its identifier is in use |
| `ServerStreams.RejectionLeaks` | tema2/server.cpp:178-182 | a run on which a slot leaks in this way |
| `ServerStreams.EmptyIdentifierIsLost` | tema2/server.cpp:129-140 | a run on which a second TCP_CONNECT makes its slot leak and takes the empty identifier from another connection |
| `Subscriber.Subscriber.OnWritable` | tema2/subscriber.cpp:247-272 | the identification is sent first and once, then the commands one at a time in order |
| `Subscriber.SentIsLegal` | tema2/subscriber.cpp:247-272 | what a subscriber sends is what the server's invariants assume, and is decoded to its identification and commands |
| `Subscriber.LegalInPieces` | tema2/server.cpp:384-402 | a legal stream stays legal while it arrives in pieces |
| `Subscriber.EndToEnd` | tema2/server.cpp:384-402 | however the bytes of a new subscriber are cut, the server ends in the state of that subscriber with these commands |

## Left out

- Sockets, poll, ioctl, reading of files and of the keyboard, printing: inputs are parameters, `send` takes the whole message, and what is sent goes to a log.
- In `json.hpp`: templates, iterators, allocators, exception texts, parsing and printing, flatten and unflatten, `operator<`, the sign of zero, and running out of memory.
- JsonDiff.PatchOfDiff: arrays have fewer than 2^63 elements, as every `std::vector` has.
- JsonPatch.PatchDocument: the value member of replace and test is read before the location is looked up; C++11 leaves that order open, so for an element with both errors only the failure is certain, not its number.
- JsonPatchLaws.AdditionBelowPrimitive: assertions are enabled; with NDEBUG the addition below a primitive succeeds and changes nothing.
- MergePatch.MergeInto: works on values, so a patch that is an alias of a part of the target is not captured.
- JsonDestroy.Destroy: works on values; that a moved-from child is null is expressed by the cleared container.
- OrderedMap.OrderedMap.EraseRange: an empty range that is not at the end is excluded, because the loop then rebuilds each pair from itself after destroying it.
- Forwarding.CreateErrorIcmp: the header only; the ICMP part and the copied payload are not modelled.
- Forwarding.ForwardIp: a match must be found for the destination, the sender or the interface, since otherwise the program does not return (`SearchEnds`); of echo replies, the header only.
- Server.Server.ParseTcpBuffer: texts without terminator and flags other than 0 and 1 are excluded, because the program then reads uninitialised or foreign memory.
- ServerRuns.EveryRun: the same texts and flags are excluded; `Tolerable` is the condition.
- Entries that `operator[]` of a map creates with a default value are not told apart from missing ones.
- Wire.Receiver.ReceiveMsg: a length field below 10 that passes the size test is excluded; interpreting and printing the payload is not modelled.
- The parsing of the user's commands in the subscriber, and its reading at most one message per recv.
- The HTTP client of the third homework, and all scripts.
