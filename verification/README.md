# JSON tree engine, linked lists and circular buffer: a Dafny model

This project models four parts of the library and proves what they promise.

- **JSON trees** (`libs/src/cJSON/cJSON.c`, `libs/src/cJSON/cJSON_Utils.c`). A tree is the datatype `Json`;
  an object is a sequence of named members, in the order of the child chain. `Meaning` is what a tree
  stands for: names lower-cased, member order forgotten. On it rest the theorems about JSON Patch
  (`Patch`, `PatchMeaning`, `PatchMoves`, `PatchOutcome`, `PatchStandard`, `DiffProof`, `DiffExact`), JSON Merge Patch
  (`MergeApply`, `MergeGenerate`), JSON Pointer (`Pointer`, `PointerTexts`) and the comparison (`Compare`,
  `Differences`, `Sorting`).
- **Old links.** Sorting an object in place can leave a back link in the member that becomes the first, and
  detaching that member trusts it. A tree of type `Linked` (`OldLinks`) is a tree with a mark on every
  object whose first member holds such a link. `LinkedPatch` and `LinkedMerge` apply patches to marked
  trees, with a result of its own (`Tangled`, `Loops`) where an old link would be followed, and say exactly
  when that happens; `LinkedDiff` and `LinkedExact` do so for patches applied to the very tree they were
  generated from, and `LinkedOwn` for merging. In a tree of type `Cell` (`NodeTrees`) the nodes have identities,
  and a link says where it leads; `NodePatch` tells the writes through old links that do harm from those that
  do not, and `NodeLinks`, `NodeSorting` and `NodeRuns` relate it to the marks. `ChildList` proves what sorting
  and detaching do to the links themselves.
- **Text** (`Text`, `Parse`, `RoundTrip`, `Unicode`, `Minify`). What is printed, what parsing it gives, and
  what minifying it keeps. `Grammar` writes down apart from the parser which texts it accepts and what they
  stand for, `MinifyTexts` does so for minifying, and `Layout` for the white space of formatted text.
- **The code as it runs.** Cursors over terminated texts (`Parser`, `PointerLoops`), buffers of computed
  size (`Strings`, `Printer`), the growing buffer (`PrintBuffers`), minifying in place (`MinifyInPlace`), a
  document edited by patches and the array patches are appended to (`PatchEngine`, `LinkedCompare`), the loops
  of comparing and merging (`MergeEngine`), child chains in the heap with their edits and their merge sort
  (`ChildList`), the deep copy (`Duplicates`), and merging and patching on heap trees (`MergeHeap`,
  `PatchHeap`). Each method is proved against a function, and the lemmas say what the function means.
- **Linked structures** (`inc/libs/sdk/ll_llist.h`): circular lists with cut and splice (`LinkedList`), and
  hash lists with a back link to the slot that points to the node (`HashList`), both in the heap.
- **The circular buffer** (`libs/src/cb/cb.c`): as a class that refines a bounded queue (`CircleBuffer`),
  and as a state machine of interleaved threads (`RingThreads`), in which the unlocked full or empty check,
  taking the lock, copying, moving the position, counting and unlocking are separate steps.

Characters stand for bytes. `Undefined` (`Astray` on marked trees) is the result where the C code follows a
null pointer or steps over a terminator.

## Where the code does not do what its header says

The model follows the code. `libs/src/cJSON/cJSON_Utils.h:3-26` claims RFC 6901, RFC 6902 and RFC 7386
without reservation; each exception below has a lemma or a contract with the exact condition or an input.

- Names are matched ignoring case, so the theorems need names distinct ignoring case (`WellNamed`), and
  `Pointer.PointerRoundTrip` says exactly which nodes are hidden otherwise.
- "remove" and "replace" of something that is not there succeed, an index behind the end appends, text that is
  no number is index 0, and indices may have leading zeros, the last one also a sign and white space.
  `PatchStandard` holds section 4 of RFC 6902 as functions, and for each operation the exact condition under
  which the code does what they say.
- A shrinking array gets ascending remove indices, which is right for one element only
  (`DiffExact.PatchesReachTarget`, `DiffExact.ShrinkByTwoFails`).
- A patch that replaces the root cannot be applied (`DiffExact.RootReplaced`).
- A generated merge patch walks lists sorted ignoring case with an order that does not; whether it
  reaches its target depends on how the walk meets the names (`MergeGenerate.MergePatchReachesTarget`,
  `MergeGenerate.UpperCaseFails`), and a null member cannot be set at all.
- Sorting leaves an old back link in the node that becomes the first, and detaching trusts it
  (`ChildList.SortObject`, `ChildList.DetachItemFromArray`, `ChildList.SortThenDetachLoops`). So a "test"
  followed by an edit, and applying or merging patches into the tree they were generated from, can fail
  (`NodePatch.RunsAgree`, `NodeRuns.PatchesOnOwnTree`, `LinkedOwn.MergeReachesOnItself`).
- The parser accepts more than JSON: a literal that the text ends in, a leading zero in front of other
  digits, a number without digits behind its minus sign or in its exponent, every control character as white
  space, and any character behind a backslash. `Grammar.ParsesExactly` lists what it accepts.
- Minifying takes "/*/" for a whole comment (`MinifyTexts.StarEnds`).
- Decoding a pointer takes a tilde with any character but "0" for a slash, and a pointer without a slash in
  front leads to the root (`PointerTexts.DecodesExactly`, `PointerTexts.ResolveText`).
- The pointer returned for a formatted object in a growing buffer is computed from a reused variable
  (`PrintBuffers.PrintBuffer.PrintObject`); callers below the root ignore it.
- 32-bit position sums are right up to 2^31 bytes (`CircleBuffer.PositionsNeverWrap`).

## Model

| member | source | states |
|---|---|---|
| `DiffExact.PatchesReachTarget` | libs/src/cJSON/cJSON_Utils.c:142-303 | On values, for all trees with names distinct ignoring case: applying the generated patches to any tree that means the same as the first one gives code 0 and a tree that compares equal to the second one, if and only if the roots fit (no root replacement) and no compared array shrinks by more than one element; `LinkedExact` says the same with old links |
| `DiffExact.PatchesReachOutcome` | libs/src/cJSON/cJSON_Utils.c:142-303 | What applying the generated patches gives for every pair of trees, also where the target is missed: the outcome in which a shrinking tail of an array keeps every other element; `Undefined` when the root would be replaced |
| `DiffExact.RootReplaced` | libs/src/cJSON/cJSON_Utils.c:100-106 | A root replacement has the empty path, which has no slash to cut at: the C code then follows a null pointer |
| `DiffExact.ShrinkByTwoFails` | libs/src/cJSON/cJSON_Utils.c:262 | The input on which the shrink goes wrong: from [1,2,3] to [1] the patches succeed and leave [1,3] |
| `DiffExact.DiffNothing` | libs/src/cJSON/cJSON_Utils.c:240-303 | No operation is generated if and only if the two trees mean the same |
| `DiffExact.TailsAre` | libs/src/cJSON/cJSON_Utils.c:262-263 | The operations for a longer or shorter array: ascending indices are removed, and items are appended under "-" in their order |
| `DiffExact.OutcomeExact` | libs/src/cJSON/cJSON_Utils.c:256-266 | The outcome is the target exactly if no array in the same place shrinks by more than one |
| `DiffProof.DiffApplies` | libs/src/cJSON/cJSON_Utils.c:240-295 | At every place of every document: the patches generated under that path turn the value there into the outcome and leave everything else alone, with code 0 |
| `DiffProof.RemoveRunLeavesOdds` | libs/src/cJSON/cJSON_Utils.c:262 | Removing at ascending indices, as the shrinking loop emits them, removes every other element |
| `LinkedPatch.TanglesExactly` | libs/src/cJSON/cJSON_Utils.c:142-206 | On trees marked with the old links that sorting leaves: one operation goes through an old link exactly if it detaches, or adds in place of, the first member of an object that holds one; otherwise code and tree are those of the operation on values. Whether going through it does harm, `NodePatch` says |
| `LinkedPatch.RunsAgree` | libs/src/cJSON/cJSON_Utils.c:209-220 | A list goes through no old link, and then gives what it gives on values, if and only if no operation reached with code 0 detaches, or adds in place of, a first member that holds an old link then |
| `LinkedPatch.CleanRun` | libs/src/cJSON/cJSON_Utils.c:209-220 | A tree without old links keeps none, and the run is the one on values, as long as no operation is "test" |
| `LinkedExact.TestThenRemove` | libs/src/cJSON/cJSON_Utils.c:155-161 | The input on which a run makes its own old link: "test" of the root against an equal object, then "remove" of the member that comes first after sorting |
| `LinkedExact.PatchesReachTargetOnItself` | libs/src/cJSON/cJSON_Utils.c:142-303 | On marked trees: applied to the first tree itself, sorted and with the old links as generating leaves it, the patches go through no old link and reach the second tree if and only if the roots fit, no compared array shrinks by more than one, and no member that is first in its object and holds an old link after generating is removed or replaced |
| `LinkedExact.PatchesOnItself` | libs/src/cJSON/cJSON_Utils.c:142-303 | What the same run gives in every case: the null pointer of a root replacement, the old link, or code 0 and the outcome |
| `LinkedExact.PatchesReachTargetOnCopy` | libs/src/cJSON/cJSON_Utils.c:142-303 | Applied to any tree without old links that means the same as the first, they never go through an old link, and the condition is the one on values |
| `LinkedExact.RemoveHeadOnItself` | libs/src/cJSON/cJSON_Utils.c:287 | The input on which a patch harms its own first tree: from {"b":1,"a":2} to {"b":1} |
| `NodePatch.TanglesExactly` | libs/src/cJSON/cJSON_Utils.c:142-206 | On trees whose nodes have identities: one operation breaks the document exactly if it detaches, or adds in place of, a first member whose old link leads where the write does harm, that is, unless the member is alone and the link leads to the last node of a list by now; otherwise code and value are those of the operation on values |
| `NodePatch.RunsAgree` | libs/src/cJSON/cJSON_Utils.c:209-220 | After every part of a list of operations the nodes form a tree with the value the operations give on values, if and only if no operation reached breaks the document in this sense; moves that carry the target of an old link elsewhere are included |
| `NodeRuns.RunMatches` | libs/src/cJSON/cJSON_Utils.c:142-220 | As long as nothing is moved, and the old links were left by sorting, every write through one does harm: the run on nodes is the run on marks |
| `NodeRuns.NewIsSound` | libs/src/cJSON/cJSON.c:2055-2126 | Trees out of new nodes are such trees |
| `NodeRuns.PatchesOnOwnTree` | libs/src/cJSON/cJSON_Utils.c:142-303 | On nodes: applied to the first tree itself, as generating leaves it, the patches succeed and reach the second tree if and only if the roots fit, no compared array shrinks by more than one, and no first member that holds an old link after generating is removed or replaced |
| `NodeRuns.MoveOntoHead` | libs/src/cJSON/cJSON_Utils.c:182-199 | An input on which the write does no harm: after "test" has sorted {"b":1,"a":2}, moving "b" onto "a" detaches "a" through its old link, and the run ends as on values |
| `PatchMeaning.AddMeaning` | libs/src/cJSON/cJSON_Utils.c:174-205 | "add" to a parent that exists changes the value at one path and nothing else: a member is set, an element inserted at its index or appended |
| `PatchMeaning.RemoveMeaning` | libs/src/cJSON/cJSON_Utils.c:158-162 | "remove" takes away exactly the member or element the last token names |
| `PatchMeaning.ReplaceMeaning` | libs/src/cJSON/cJSON_Utils.c:158-205 | "replace" of something that exists puts the new value in its place and changes nothing else |
| `PatchMoves.MoveMeaning` | libs/src/cJSON/cJSON_Utils.c:164-205 | "move" of a value that exists takes it out and adds it under a parent that is still there in what is then left; code 5 if there is nothing to take |
| `PatchMoves.CopyMeaning` | libs/src/cJSON/cJSON_Utils.c:164-205 | "copy" of a value that exists adds an equal value under a parent that exists and leaves the original |
| `PatchMoves.TestMeaning` | libs/src/cJSON/cJSON_Utils.c:155 | "test" returns 0 exactly if the value at the path means the same, otherwise the code of the first difference, and never changes what the document means although it sorts members |
| `PatchMeaning.PatchDetachMeaning` | libs/src/cJSON/cJSON_Utils.c:100-113 | Detaching a path returns the value that was there and removes just that |
| `PatchMeaning.ResolveMeaning` | libs/src/cJSON/cJSON_Utils.c:72-90 | A path that exists in the value resolves to the node that holds it; for the converse see `PatchOutcome.ResolveExact` |
| `PatchOutcome.ResolveExact` | libs/src/cJSON/cJSON_Utils.c:72-90 | For every path made of names: it resolves if and only if the value has something there, digits naming items of an array and no digits naming the first |
| `PatchOutcome.AddOutcome` | libs/src/cJSON/cJSON_Utils.c:174-205 | "add" for every path: code 9 and the document as it was if the parent is missing, the document unchanged with code 0 if the parent is a scalar, otherwise the value set, inserted or appended |
| `PatchOutcome.RemoveOutcome` | libs/src/cJSON/cJSON_Utils.c:158-162 | "remove" for every path: code 0 always; what the path names is taken out, and nothing if there is nothing |
| `PatchOutcome.ReplaceOutcome` | libs/src/cJSON/cJSON_Utils.c:158-205 | "replace" for every path: what is there is taken out, then the value is added as by "add", code 9 included |
| `PatchOutcome.MoveOutcome` | libs/src/cJSON/cJSON_Utils.c:164-205 | "move" for every two paths: code 5 if there is nothing to take; otherwise the value is added to what is left, with code 9 and the value lost if the parent is missing then |
| `PatchOutcome.CopyOutcome` | libs/src/cJSON/cJSON_Utils.c:164-205 | "copy" for every two paths: code 5 and the document as it was if there is nothing to copy, code 9 if the parent is missing, otherwise an equal value is added |
| `PatchOutcome.TestOutcome` | libs/src/cJSON/cJSON_Utils.c:155 | "test" for every path: the null pointer if nothing is there; otherwise 0 exactly for equal meanings, and for others the code of their first difference |
| `PatchOutcome.MalformedOutcome` | libs/src/cJSON/cJSON_Utils.c:142-206 | What is missing gives its own code and leaves the document: 2 without "op" or "path", 3 for an unknown operation, 4 without "from", 7 without "value"; an operation or path that is no string is a null pointer |
| `PatchOutcome.ReplaceNothing` | libs/src/cJSON/cJSON_Utils.c:158-180 | "replace" without "value" gives 7 only after it has taken out what was there |
| `PatchOutcome.GetItemIs` | libs/src/cJSON/cJSON.c:1608-1616 | What an operation has under a name is what its meaning has there |
| `PatchOutcome.ListOutcome` | libs/src/cJSON/cJSON_Utils.c:209-220 | A list ends with its first operation that does not give 0, code and document being those of that operation; without one it ends with 0 behind the last; patches that are no array give 1 |
| `PatchOutcome.IndexOutcome` | libs/src/cJSON/cJSON_Utils.c:182-193 | Which place of an array a text stands for when something is put in or taken out: white space and a sign are skipped, a negative number is the first place, text without digits too, and only "-" alone always appends |
| `PatchStandard.AddIsStandard` | libs/src/cJSON/cJSON_Utils.c:174-205 | "add" gives what section 4.1 of RFC 6902 says if and only if the code finds no parent, or the path to it uses indices as the standard writes them and the parent is an object, or an array and the last token is "-" or an index not behind the end |
| `PatchStandard.RemoveIsStandard` | libs/src/cJSON/cJSON_Utils.c:158-162 | "remove" does what the standard says if and only if there is something to remove, by the rules of the standard for indices |
| `PatchStandard.ReplaceIsStandard` | libs/src/cJSON/cJSON_Utils.c:158-205 | "replace" does if and only if there is something to replace, or the parent is missing |
| `PatchStandard.MoveIsStandard` | libs/src/cJSON/cJSON_Utils.c:164-205 | "move" does if and only if neither finds the value, or the standard finds it and it can be added to what is left, or the standard calls it an error and the parent is missing once the value is taken out |
| `PatchStandard.CopyIsStandard` | libs/src/cJSON/cJSON_Utils.c:164-205 | "copy" does if and only if the code finds no value, or both find it and it can be added, or only the code finds it and the parent is missing |
| `PatchStandard.TestIsStandard` | libs/src/cJSON/cJSON_Utils.c:155 | "test" does if and only if the code finds a value, and the standard finds it too or it differs |
| `PatchMeaning.SplitPathText` | libs/src/cJSON/cJSON_Utils.c:104-106 | Cutting a generated path at its last slash and decoding gives back the parent path and the last name or index |
| `PatchEngine.SplitPointer` | libs/src/cJSON/cJSON_Utils.c:184-186 | The copy of the path, the cut at the slash and the decoding in place give the parent path and the decoded token |
| `PatchEngine.FindItem` | libs/src/cJSON/cJSON.c:1608-1616 | The loop over the members finds the first name equal ignoring case |
| `PatchEngine.Document.Detach` | libs/src/cJSON/cJSON_Utils.c:100-113 | The document, its old links included, loses exactly what the specification of detaching removes, and the removed value is returned; no old link is followed |
| `PatchEngine.Document.Add` | libs/src/cJSON/cJSON_Utils.c:182-205 | The new document, its old links included, and the code of the adding half of an operation; no old link is followed |
| `PatchEngine.Document.ApplyPatch` | libs/src/cJSON/cJSON_Utils.c:142-206 | The operation as a state change, for every operation that follows neither a null pointer nor an old link: code, document and old links are those of the specification, and strings stay terminated |
| `PatchEngine.Document.Test` | libs/src/cJSON/cJSON_Utils.c:155 | The operation "test" as a state change: the loops of the comparison on the marked document, with the code (see `Differences.ComparisonCode`), the members it sorts and the old links the sorting leaves |
| `LinkedCompare.CompareMarked` | libs/src/cJSON/cJSON_Utils.c:115-140 | The loops of the comparison on a marked tree give the code of the comparison, that of the first difference, and leave the tree sorted with the old links of sorting |
| `PatchEngine.Document.ApplyPatches` | libs/src/cJSON/cJSON_Utils.c:209-220 | The loop stops at the first code that is not 0 and leaves the document as changed so far, for every run that follows neither a null pointer nor an old link; `LinkedPatch.RunsAgree` says which these are |
| `PatchHeap.ApplyPatches` | libs/src/cJSON/cJSON_Utils.c:209-220 | On heap trees, for lists without "test" that follow no null pointer: afterwards the document is again a tree without shared nodes, of its own and of new nodes, code and value are those of the operations on values, and the patches are as they were |
| `PatchHeap.ApplyPatch` | libs/src/cJSON/cJSON_Utils.c:142-206 | One operation on heap nodes: a moved value keeps its nodes, a copied or added one is new |
| `PatchHeap.AtomicApplyPatches` | libs/src/cJSON/cJSON_Utils.h:14-20 | The atomic form the header gives: the patched copy out of new nodes if all operations succeed, otherwise the original |
| `PatchHeap.Detach` | libs/src/cJSON/cJSON_Utils.c:100-113 | Detaching in the heap: what is left and what is taken out are trees without common nodes, with the values of the specification |
| `PatchHeap.Add` | libs/src/cJSON/cJSON_Utils.c:182-205 | Adding a node in the heap at the place a path names, with the code of the specification |
| `PatchHeap.GetPointer` | libs/src/cJSON/cJSON_Utils.c:72-90 | The walk over heap nodes ends at the node the pointer resolves to, or at none exactly if there is none |
| `PatchHeap.Replaced` | libs/src/cJSON/cJSON_Utils.c:72-113 | Changing a subtree in place leaves the rest of the tree intact, and changes the value at that place only |
| `PatchEngine.PatchArray.GeneratePatch` | libs/src/cJSON/cJSON_Utils.c:222-236 | One operation is appended, its path built in a buffer of exactly the right size |
| `PatchEngine.PatchArray.CompareToPatch` | libs/src/cJSON/cJSON_Utils.c:240-295 | What the recursive comparison appends to the array, whatever it held before |
| `PatchEngine.PatchArray.CompareItemsToPatch` | libs/src/cJSON/cJSON_Utils.c:256-266 | The three array loops: common elements, removals, additions |
| `PatchEngine.PatchArray.CompareMembersToPatch` | libs/src/cJSON/cJSON_Utils.c:268-291 | The two-cursor loop over sorted members |
| `PatchEngine.PatchArray.GeneratePatches` | libs/src/cJSON/cJSON_Utils.c:298-303 | A new array with exactly the generated patches |
| `CTrees.SetAtPrintable` | libs/src/cJSON/cJSON_Utils.c:100-206 | Editing a tree at a node keeps all its strings free of terminators |
| `Compare.CompareDecidesMeaning` | libs/src/cJSON/cJSON_Utils.c:115-140 | For names distinct ignoring case: 0 exactly for trees with the same meaning, and the sorting in place changes neither |
| `Compare.CompareDecidesCanonical` | libs/src/cJSON/cJSON_Utils.c:115-140 | For all trees: 0 exactly if the canonical forms (names lower-cased, members sorted) are equal |
| `Compare.CompareIsEquivalence` | libs/src/cJSON/cJSON_Utils.c:115-140 | Comparing equal is reflexive, symmetric and transitive |
| `Differences.ComparisonCode` | libs/src/cJSON/cJSON_Utils.c:115-140 | For all trees with names distinct ignoring case the code is 0 for equal meanings and otherwise that of the first difference: -1 for different kinds, -2 for numbers, -3 for strings; in arrays the first items that differ decide, -4 standing for the length; in objects the first name, in dictionary order, on which they disagree: -6 if the object without it has a later one, -5 if not |
| `Differences.DifferenceUnique` | libs/src/cJSON/cJSON_Utils.c:115-140 | Two values have one first difference at most, so it determines the code |
| `Differences.CaseOrderIs` | libs/src/cJSON/cJSON_Utils.c:7-12 | Names are compared in dictionary order on their lower-case forms |
| `Sorting.SortPermutes` | libs/src/cJSON/cJSON_Utils.c:306-342 | Sorting a member list keeps it as a multiset |
| `Sorting.SortOrders` | libs/src/cJSON/cJSON_Utils.c:306-342 | The result is in non-decreasing case-insensitive order |
| `Sorting.SortKeepsFields` | libs/src/cJSON/cJSON_Utils.c:306-344 | Sorting an object does not change what it means when its names are distinct ignoring case |
| `Sorting.SortHead` | libs/src/cJSON/cJSON_Utils.c:306-342 | What comes first after sorting: the last of the least names if the list is not sorted strictly already |
| `Sorting.SortIs` | libs/src/cJSON/cJSON_Utils.c:306-342 | All that sorting does: a list is the result if and only if it is ordered by name and has, under each name, the members of the first list in the opposite order |
| `Sorting.FirstStays` | libs/src/cJSON/cJSON_Utils.c:306-342 | The first member stays the first if and only if its name is ordered strictly before every other one |
| `Sorting.MiddleSplits` | libs/src/cJSON/cJSON_Utils.c:316-317 | The split leaves two shorter, non-empty halves |
| `Json.CaseOrderZero` | libs/src/cJSON/cJSON_Utils.c:7-12 | The comparison is 0 exactly for names equal after lower-casing |
| `Json.CaseOrderTransitive` | libs/src/cJSON/cJSON_Utils.c:7-12 | Its order is transitive |
| `Json.LowerIs` | libs/src/cJSON/cJSON_Utils.c:7-12 | The 26 letters go to their small forms and every other character stays |
| `Json.FieldsLookup` | libs/src/cJSON/cJSON.c:1608-1616 | Looking up a name finds the first member equal ignoring case, or none exactly if there is none |
| `Json.FieldsSetMember` | libs/src/cJSON/cJSON_Utils.c:197-198 | Deleting a member and appending its successor sets one field of the object and keeps names distinct |
| `Json.FieldsWithout` | libs/src/cJSON/cJSON.c:1712-1742 | Taking a member out removes one field and nothing else |
| `MergeEngine.CompareTrees` | libs/src/cJSON/cJSON_Utils.c:115-140 | The loops of the comparison return the code, that of the first difference, and leave both trees as specified |
| `MergeEngine.CompareArrays` | libs/src/cJSON/cJSON_Utils.c:122-123 | The loop over two arrays, with early exit |
| `MergeEngine.CompareObjects` | libs/src/cJSON/cJSON_Utils.c:124-135 | Sorting both objects and the loop over their members |
| `Pointer.PointerRoundTrip` | libs/src/cJSON/cJSON_Utils.c:39-90 | The pointer built for a node resolves to that node exactly if no name on the way is hidden by an earlier one |
| `Pointer.PointerFindsEveryNode` | libs/src/cJSON/cJSON_Utils.c:39-90 | With names distinct ignoring case every node of every tree is found again |
| `PatchStandard.PointerIsStandard` | libs/src/cJSON/cJSON_Utils.c:39-70 | The pointer written for a node is one of RFC 6901, and references the value of that node as section 4 there says |
| `Pointer.DecodeEncode` | libs/src/cJSON/cJSON_Utils.c:26-37 | Decoding undoes escaping, and escaped names contain no slash |
| `Pointer.TokenMatchesEncoded` | libs/src/cJSON/cJSON_Utils.c:15-24 | An escaped name matches a member exactly if the two are equal ignoring case |
| `Pointer.ResolveStep` | libs/src/cJSON/cJSON_Utils.c:72-90 | One token leads to the element or member it names |
| `PointerTexts.DecodesExactly` | libs/src/cJSON/cJSON_Utils.c:93-98 | For every text: decoding fails exactly on a lone tilde at the end, and takes "~0" for a tilde and a tilde with any other character for a slash |
| `PointerTexts.TokenMatchesExactly` | libs/src/cJSON/cJSON_Utils.c:15-24 | For every name and text: they match if and only if the text starts with the name, escaped and in any case, and the token ends there |
| `PointerTexts.ResolveText` | libs/src/cJSON/cJSON_Utils.c:72-90 | For every text, by its first token: digits are an index of an array, none being 0, other text leads nowhere; in an object it names the first member that matches; text without a slash in front leads to the value itself |
| `PointerTexts.SplitsExactly` | libs/src/cJSON/cJSON_Utils.c:104-106 | For every path: it is cut at the last slash and what follows is decoded; without one there is no parent |
| `Pointer.AtoiText` | libs/src/cJSON/cJSON_Utils.c:109 | For every text: white space, at most one sign, and the digits up to the first character that is none |
| `Numerals.ReadDigitsOfDigits` | libs/src/cJSON/cJSON_Utils.c:78 | The digit loop reads back a printed index and stops behind it |
| `Numerals.ReadNumeral` | libs/src/cJSON/cJSON_Utils.c:78 | The digit loop gives the decimal value of any numeral, leading zeros included |
| `Numerals.DigitsDecimal` | libs/src/cJSON/cJSON_Utils.c:54 | A number is printed as the numeral that stands for it, without leading zeros |
| `PointerLoops.Strcasecmp` | libs/src/cJSON/cJSON_Utils.c:7-12 | The cursor loop returns the sign of the case-insensitive order |
| `PointerLoops.MissesToken` | libs/src/cJSON/cJSON_Utils.c:15-24 | The two-cursor loop decides whether a name matches the token, escapes included |
| `PointerLoops.EncodedLength` | libs/src/cJSON/cJSON_Utils.c:26 | The counting loop gives the exact length of the escaped name |
| `PointerLoops.PutEncoded` | libs/src/cJSON/cJSON_Utils.c:28-37 | The escaped name and its terminator are written, and nothing in front of them changes |
| `PointerLoops.JoinPath` | libs/src/cJSON/cJSON_Utils.c:228-229 | A path and an escaped token fill the buffer computed for them exactly |
| `PointerLoops.DecodeInPlace` | libs/src/cJSON/cJSON_Utils.c:93-98 | Decoding in place: the write cursor stays behind the read cursor and the array ends up with the decoded, terminated name |
| `PointerLoops.FollowToken` | libs/src/cJSON/cJSON_Utils.c:74-87 | One round of the loop of the resolution |
| `PointerLoops.GetPointer` | libs/src/cJSON/cJSON_Utils.c:72-90 | The loop finds the node the pointer leads to, or none exactly if there is none |
| `PointerLoops.FindPointer` | libs/src/cJSON/cJSON_Utils.c:39-70 | The search through the whole tree returns the pointer of the target, or none if the target is elsewhere |
| `MergeApply.MergeIsRfc` | libs/src/cJSON/cJSON_Utils.c:346-363 | Merging computes the function of section 2 of RFC 7386, with names matched ignoring case |
| `MergeApply.MergeIsFold` | libs/src/cJSON/cJSON_Utils.c:346-363 | For patches whose objects repeat names, as generated ones can: merging sets, merges or deletes one field per patch member, in their order |
| `MergeApply.MergeTwice` | libs/src/cJSON/cJSON_Utils.c:346-363 | Applying a merge patch a second time gives a tree that compares equal |
| `MergeGenerate.MergePatchReachesTarget` | libs/src/cJSON/cJSON_Utils.c:365-395 | For all trees with names distinct ignoring case: null is returned exactly for objects with the same sorted names that compare equal; and merging what is generated into a tree meaning the same as the first (or leaving that tree alone) gives the second if and only if, at each level reached through objects, every member of the second can be set without a null if its name is new; and if it is not new, the walk either meets the two spellings together and the values are equal or recursively reach, or writes the null before a value that can be set |
| `MergeGenerate.AgreeingNamesReachTarget` | libs/src/cJSON/cJSON_Utils.c:365-395 | On any set of names on which `strcmp` orders as the lists are sorted, the condition is that no null has to be set |
| `MergeGenerate.MixedCaseReaches` | libs/src/cJSON/cJSON_Utils.c:365-395 | Mixed case that works although the two orders disagree on the names: from {"Z":1,"a":2} to {"Z":3,"a":4} |
| `MergeGenerate.LowerCaseReachesTarget` | libs/src/cJSON/cJSON_Utils.c:365-395 | A case of it: all trees whose objects, reached through objects, have names without upper-case letters |
| `MergeGenerate.LowerCaseAgrees` | libs/src/cJSON/cJSON_Utils.c:376 | On names without upper-case letters the two orders agree |
| `MergeGenerate.ByteOrderIs` | libs/src/cJSON/cJSON_Utils.c:376 | The order of the walk is dictionary order on the names as they are |
| `MergeGenerate.MergePatchFromNothing` | libs/src/cJSON/cJSON_Utils.c:369 | Without a first tree the patch is the second, and merging reaches it exactly if it has no null members in objects reached through objects |
| `MergeGenerate.UpperCaseFails` | libs/src/cJSON/cJSON_Utils.c:370-376 | The input on which the walk sets before it deletes: from {"a":1} to {"A":1} the patch leaves {} |
| `MergeEngine.MergePatch` | libs/src/cJSON/cJSON_Utils.c:346-363 | The loop over the patch members computes the merged tree, on values; the nodes are those of `MergeHeap.MergePatch` |
| `MergeEngine.MergeOne` | libs/src/cJSON/cJSON_Utils.c:354-359 | One member: deleted, or detached, merged and appended |
| `MergeHeap.MergePatch` | libs/src/cJSON/cJSON_Utils.c:346-363 | On heap trees: the result is a tree without shared nodes whose value is the merge of the two values; its nodes are nodes of the target or new, none is a node of the patch, and the patch is as it was |
| `MergeHeap.Merge` | libs/src/cJSON/cJSON_Utils.c:346-363 | The same when target, patch or both are null |
| `MergeHeap.MergeAll` | libs/src/cJSON/cJSON_Utils.c:351-361 | The loop over the patch members, on nodes |
| `MergeHeap.MergeOne` | libs/src/cJSON/cJSON_Utils.c:354-359 | One member, on nodes: deleted, or detached, merged and appended |
| `LinkedMerge.MergeOnLinked` | libs/src/cJSON/cJSON_Utils.c:346-363 | On trees marked with old links, if the names of the target or those of the patch are distinct ignoring case: the merge goes through an old link if and only if some member of the patch names a first member that holds one, in the target or below a member both have that is not replaced as a whole before; otherwise the result is the merge of the values |
| `LinkedMerge.MergeReachesOnCopy` | libs/src/cJSON/cJSON_Utils.c:346-395 | Merging a generated patch into a tree without old links never goes through one, and reaches the second tree exactly under the condition on values |
| `LinkedOwn.MergeReachesOnItself` | libs/src/cJSON/test_utils.c:157-158 | Merging a generated patch, if there is one, into the tree it was generated from, as generating left it: it goes through no old link and reaches the second tree if and only if the condition on values holds and, in no object for which a patch is generated, a first member that holds an old link once the object is sorted is deleted, set or merged; if the condition on values holds, the old link is all that can stop it |
| `LinkedOwn.MergeLeftMeans` | libs/src/cJSON/cJSON_Utils.c:365-395 | What generating leaves of the first tree, sorted level by level and compared below, means the same |
| `LinkedOwn.MergeHeadOnItself` | libs/src/cJSON/cJSON_Utils.c:370-379 | The input on which it goes through one: from {"b":1,"a":2} to {"b":1} |
| `LinkedMerge.DeleteHeadLoops` | libs/src/cJSON/cJSON_Utils.c:354 | The input on which it does: a null for the first member of a re-sorted object |
| `MergeEngine.GeneratePatch` | libs/src/cJSON/cJSON_Utils.c:365-395 | The generating loops return the specified patch, or none |
| `MergeEngine.GenerateMembers` | libs/src/cJSON/cJSON_Utils.c:374-392 | The two-cursor loop over the sorted members |
| `RoundTrip.ValueRoundTrip` | libs/src/cJSON/cJSON.c:856-899 | For every tree, formatted or not, at every depth, before every text that does not continue a number: parsing the printed text gives the tree and stops exactly at that text |
| `RoundTrip.NumberRoundTrip` | libs/src/cJSON/cJSON.c:133-200 | A printed integer parses back with the cursor behind it exactly if what follows does not continue the number |
| `Text.IntTextIs` | libs/src/cJSON/cJSON.c:307 | A numeral without leading zeros, behind a minus sign for a negative number |
| `RoundTrip.StringRoundTrip` | libs/src/cJSON/cJSON.c:446-615 | A printed string parses back to the same bytes |
| `Text.EscapeCharIs` | libs/src/cJSON/cJSON.c:715-754 | What is written for every character: seven have a letter behind a backslash, the other control characters four hexadecimal digits, all others stand for themselves |
| `RoundTrip.PrintParse` | libs/src/cJSON/cJSON.c:788-842 | Parsing what was printed gives the tree and uses up the text |
| `RoundTrip.PrintInjective` | libs/src/cJSON/cJSON.c:902-978 | Different trees print differently |
| `Layout.PrintLaid` | libs/src/cJSON/cJSON.c:1309-1581 | What formatted text looks like: the unformatted text with white space put in by a rule that reads it from left to right and knows only the open brackets: each member on a line of its own behind as many tabs as brackets are open, a tab behind its colon, the closing brace on a line one tab less, a blank behind a comma between elements, nothing else |
| `Grammar.ParsesExactly` | libs/src/cJSON/cJSON.c:856-899 | The texts that parse are those of a grammar written apart from the parser, with what they stand for: a tree of literals, numbers, brackets and white space, what follows it not continuing a number; and a literal that the text ends in |
| `Grammar.WholeExactly` | libs/src/cJSON/cJSON.c:788-825 | A text as a whole is accepted exactly if it is white space, such a text, and white space |
| `Grammar.NumberParses` | libs/src/cJSON/cJSON.c:133-200 | Any number with fraction and exponent stands for the digits in front of the decimal point once it is moved as the exponent says |
| `Grammar.LiteralParses` | libs/src/cJSON/cJSON.c:446-615 | A literal of characters, short escapes and escaped code points parses to the bytes they stand for, each escape being listed |
| `Text.PrintThenIs` | libs/src/cJSON/cJSON.c:902-978 | The text printed in front of a rest is the printed text followed by the rest |
| `Unicode.EscapedLiteral` | libs/src/cJSON/cJSON.c:516-600 | A literal of `\u` escapes for any sequence of non-zero scalar values, the hexadecimal digits of either case, parses to the concatenation of their UTF-8 encodings |
| `Unicode.HexValueIs` | libs/src/cJSON/cJSON.c:348-437 | The hexadecimal digits are the sixteen of "0123456789abcdef" in either case, and no other character is one |
| `Unicode.SurrogatesRoundTrip` | libs/src/cJSON/cJSON.c:533-558 | Joining a pair as in section 2.2 of RFC 2781 undoes the split of a code point |
| `Unicode.Utf8RoundTrip` | libs/src/cJSON/cJSON.c:560-599 | The bytes decode to the code point they were written for, before any rest, by a reader of section 3 of RFC 3629 that rejects longer forms than needed |
| `Unicode.Utf8sInjective` | libs/src/cJSON/cJSON.c:560-599 | Different sequences of code points give different bytes |
| `Parser.SkipAt` | libs/src/cJSON/cJSON.c:777-785 | The cursor stops at the first character above a blank, or at the terminator |
| `Parser.ParseNumberAt` | libs/src/cJSON/cJSON.c:133-200 | The digit loops compute the number and end at the first character that is not part of it |
| `Parser.ScanAt` | libs/src/cJSON/cJSON.c:463-475 | The first pass finds the end of the literal and counts its units; it fails exactly if the text ends in a backslash |
| `Parser.DecodeAt` | libs/src/cJSON/cJSON.c:477-609 | The second pass gives the decoded string in a buffer of the counted size, or fails as specified |
| `Parser.DecodeUnit` | libs/src/cJSON/cJSON.c:489-607 | Both passes stay on the same unit, and what is written plus what is still to be scanned never exceeds the count |
| `Parser.DecodedFits` | libs/src/cJSON/cJSON.c:463-607 | Decoding never gives more bytes than the scan counted |
| `Parser.DecodeUnicode` | libs/src/cJSON/cJSON.c:516-558 | An escape or surrogate pair is read by comparing cursors, as specified on the body of the literal |
| `Parser.WriteUtf8` | libs/src/cJSON/cJSON.c:560-599 | The falling-through switch writes exactly the UTF-8 bytes, last byte first, and nothing in front of them |
| `Parser.ParseStringAt` | libs/src/cJSON/cJSON.c:446-615 | Fails or returns the string and a cursor past its start and not past the terminator |
| `Parser.ParseValueAt` | libs/src/cJSON/cJSON.c:856-899 | On every terminated text: ends, and fails or returns the value and a cursor past its start and not past the terminator |
| `Parser.ParseArrayAt` | libs/src/cJSON/cJSON.c:981-1045 | The same for arrays, with the loop over commas |
| `Parser.ParseObjectAt` | libs/src/cJSON/cJSON.c:1214-1306 | The same for objects |
| `Parser.ParseWithOpts` | libs/src/cJSON/cJSON.c:788-825 | With the whole text demanded it succeeds exactly if only white space follows the value |
| `Strings.Measure` | libs/src/cJSON/cJSON.c:682-695 | The counting pass gives the exact length of the escaped text |
| `Strings.PutQuoted` | libs/src/cJSON/cJSON.c:673-757 | The quoted string and its terminator are written where the caller made room |
| `Strings.PrintString` | libs/src/cJSON/cJSON.c:618-760 | The allocated size `len + 3` is exactly what is written |
| `Printer.ItemsMeasured` | libs/src/cJSON/cJSON.c:1054-1162 | The running sum for an array is the printed length plus a fixed slack, at every depth and format |
| `Printer.MembersMeasured` | libs/src/cJSON/cJSON.c:1317-1500 | The running sum for an object is the printed length of its members plus one |
| `Printer.ObjectMeasured` | libs/src/cJSON/cJSON.c:1317-1500 | The size allocated for an object, tabs included, holds its text and terminator |
| `Printer.IntTextShort` | libs/src/cJSON/cJSON.c:292-308 | "%d" of an `int` fits the characters set aside |
| `Printer.PrintNoNul` | libs/src/cJSON/cJSON.c:902-978 | Printed text holds no terminator, so `strlen` finds its end |
| `Printer.PrintArray` | libs/src/cJSON/cJSON.c:1048-1211 | Printing the parts, adding up, and composing give the specified text in memory of the computed size |
| `Printer.PrintObject` | libs/src/cJSON/cJSON.c:1309-1581 | The same for objects; for the white space of formatted text see `Layout.PrintLaid` |
| `Printer.PrintValue` | libs/src/cJSON/cJSON.c:902-978 | A new terminated string with the specified text, formatted as `Layout.PrintLaid` says |
| `NextPowers.SmearedIsNextPower` | libs/src/cJSON/cJSON.c:203-214 | The bit smearing gives the next power of two, the one the growing buffer is sized with, for every size up to 2^32 |
| `PrintBuffers.PrintBuffer.Ensure` | libs/src/cJSON/cJSON.c:223-257 | There is room for what is needed, and every byte written so far is kept |
| `PrintBuffers.PrintBuffer.Update` | libs/src/cJSON/cJSON.c:260-271 | The true end of the string at the offset |
| `PrintBuffers.PrintBuffer.PrintArray` | libs/src/cJSON/cJSON.c:1087-1131 | The text stands behind what was there, the offset in front of the closing bracket |
| `PrintBuffers.PrintBuffer.PrintObject` | libs/src/cJSON/cJSON.c:1362-1457 | The same for objects; the returned index is the start of the text only if unformatted or at depth equal to the old offset |
| `PrintBuffers.PrintBuffer.PrintValue` | libs/src/cJSON/cJSON.c:902-978 | The same text as the measuring printer, behind what was there |
| `PrintBuffers.PrintBuffered` | libs/src/cJSON/cJSON.c:844-852 | From every starting size the buffer holds exactly the text of the measuring printer, its white space included |
| `Minify.MinifyPrint` | libs/src/cJSON/cJSON.c:2128-2190 | Minifying any printed tree, formatted or not, gives the unformatted text |
| `Minify.MinifyQuoted` | libs/src/cJSON/cJSON.c:2170-2183 | Nothing inside a string literal changes |
| `MinifyTexts.MinifiesExactly` | libs/src/cJSON/cJSON.c:2128-2190 | For every text: it is minified if and only if its literals and comments end, and what is kept are its literals and the characters outside of comments that are not blank, a single slash among them |
| `MinifyTexts.CommentsVanish` | libs/src/cJSON/cJSON.c:2150-2167 | A comment to the end of the line is left out with its line break, and one between stars up to its end |
| `MinifyTexts.StarEnds` | libs/src/cJSON/cJSON.c:2158-2167 | A comment between stars has its end inside exactly if a star in it is followed by a slash, or if it goes on with a slash: the text "/*/" is a whole comment |
| `MinifyInPlace.MinifyArray` | libs/src/cJSON/cJSON.c:2128-2190 | In place: the array ends up with the minified, terminated text, for every text whose literals and block comments end; `MinifyTexts.MinifiesExactly` says what that text is |
| `MinifyInPlace.CopyLiteral` | libs/src/cJSON/cJSON.c:2170-2183 | The write cursor never passes the read cursor, and escapes are copied in pairs |
| `ChildList.AddItemToArray` | libs/src/cJSON/cJSON.c:1646-1667 | The child is appended to the chain; an old back link in front does no harm and stays |
| `ChildList.DetachItemFromArray` | libs/src/cJSON/cJSON.c:1712-1742 | The child at the index leaves with null links; what is left is again a chain if and only if the child is not the first, or the first points back to nothing or to a node that is not on the chain any more; an old back link gets the next field of its node overwritten |
| `ChildList.InsertItemInArray` | libs/src/cJSON/cJSON.c:1772-1796 | The child is inserted at the index, or appended behind the end |
| `ChildList.ReplaceItemInArray` | libs/src/cJSON/cJSON.c:1798-1826 | The child at the index is exchanged |
| `ChildList.DetachThenInsert` | libs/src/cJSON/cJSON.c:1712-1797 | Detaching and inserting at the same index restores the chain |
| `ChildList.FindMiddle` | libs/src/cJSON/cJSON_Utils.c:316 | The two-pointer walk ends at the middle, which leaves two non-empty halves |
| `ChildList.MergeLists` | libs/src/cJSON/cJSON_Utils.c:323-341 | Merging two chains relinks them into the merged order with right back links |
| `ChildList.SortList` | libs/src/cJSON/cJSON_Utils.c:306-342 | The sort ends; the nodes are relinked into the order the sort of sequences gives, every node but the first points back to its predecessor, and the first keeps whatever back link it had |
| `ChildList.SortObject` | libs/src/cJSON/cJSON_Utils.c:344 | On any chain: the first child stays the first, and the chain has a null back link in front again, exactly if its name is ordered strictly before every other; otherwise the new first child holds an old back link |
| `ChildList.SortThenDetachLoops` | libs/src/cJSON/cJSON.c:1725-1737 | The input on which the old back link does harm: after sorting "b", "a", detaching the first makes the other point to itself |
| `Duplicates.Duplicate` | libs/src/cJSON/cJSON.c:2055-2126 | Every node of the copy is new, the copy is a tree without shared nodes and with right links, and has the value of the original |
| `LinkedList.ListAdd` | inc/libs/sdk/ll_llist.h:90-97 | The entry comes first |
| `LinkedList.ListAddTail` | inc/libs/sdk/ll_llist.h:104-107 | The entry comes last |
| `LinkedList.ListDel` | inc/libs/sdk/ll_llist.h:128-133 | The entry leaves the list |
| `LinkedList.ListDelInit` | inc/libs/sdk/ll_llist.h:162-166 | The entry leaves the list and becomes an empty one |
| `LinkedList.ListReplace` | inc/libs/sdk/ll_llist.h:142-149 | The entry is exchanged in its place |
| `LinkedList.ListMove` | inc/libs/sdk/ll_llist.h:173-177 | The entry leaves its list and comes first in another |
| `LinkedList.ListMoveTail` | inc/libs/sdk/ll_llist.h:184-189 | The entry leaves its list and comes last in another |
| `LinkedList.Cut` | inc/libs/sdk/ll_llist.h:239-250 | A ring is cut into two rings at the entry |
| `LinkedList.ListCutPosition` | inc/libs/sdk/ll_llist.h:265-277 | The first entries up to and including `entry` form one list and the others the other, all cases of the guards included: an empty list, and an entry that is not on a list of one entry |
| `LinkedList.Join` | inc/libs/sdk/ll_llist.h:279-291 | One ring is put behind the last entry of another |
| `LinkedList.ListSplice` | inc/libs/sdk/ll_llist.h:298-303 | The entries go in front |
| `LinkedList.ListSpliceTail` | inc/libs/sdk/ll_llist.h:310-315 | The entries go behind |
| `LinkedList.ListSpliceInit` | inc/libs/sdk/ll_llist.h:324-331 | The entries go in front and the emptied list is empty |
| `LinkedList.ListSpliceTailInit` | inc/libs/sdk/ll_llist.h:341-348 | The entries go behind and the emptied list is empty |
| `LinkedList.CutThenSplice` | inc/libs/sdk/ll_llist.h:265-331 | Splicing the cut part back restores the list, for every position |
| `HashList.AddHead` | inc/libs/sdk/ll_llist.h:613-621 | The node comes first, with its slot the head |
| `HashList.AddBefore` | inc/libs/sdk/ll_llist.h:624-631 | The node comes in front of another |
| `HashList.AddAfter` | inc/libs/sdk/ll_llist.h:633-642 | The second node comes behind the first |
| `HashList.Unlink` | inc/libs/sdk/ll_llist.h:589-596 | The node leaves the list through the slot that points to it |
| `HashList.Del` | inc/libs/sdk/ll_llist.h:598-603 | The node leaves the list and is poisoned |
| `HashList.DelInit` | inc/libs/sdk/ll_llist.h:605-611 | The node leaves the list and ends up unhashed; an unhashed node is left alone |
| `HashList.MoveList` | inc/libs/sdk/ll_llist.h:648-655 | The whole list moves to another head |
| `HashList.AddThenDelete` | inc/libs/sdk/ll_llist.h:605-621 | Adding in front and deleting restores the list |
| `CircleBuffer.PositionsNeverWrap` | libs/src/cb/cb.c:112-240 | The 32-bit position sums are right for every position and length exactly for buffers of at most 2^31 bytes |
| `CircleBuffer.RingStore` | libs/src/cb/cb.c:209-233 | Storing in one or two pieces behind the ring appends to the queue |
| `CircleBuffer.RingDrop` | libs/src/cb/cb.c:171-191 | Moving the read position drops the oldest bytes |
| `CircleBuffer.Manager.Write` | libs/src/cb/cb.c:193-242 | The first bytes of the data are appended to the queue, all of them if they fit and otherwise as many as fill it; their number is returned, a negative length standing for what it converts to |
| `CircleBuffer.Manager.Read` | libs/src/cb/cb.c:85-126 | The oldest bytes are taken from the queue into the caller's array, as many as are asked for or all that are queued; without an array they are dropped |
| `CircleBuffer.Manager.Peek` | libs/src/cb/cb.c:129-168 | The oldest bytes, as many as are asked for or all that are queued, are copied and stay queued |
| `CircleBuffer.Manager.Skip` | libs/src/cb/cb.c:171-191 | As many of the oldest bytes as the offset says are dropped; all of them if it is negative or not less than what is queued |
| `CircleBuffer.Manager.PeekThenSkip` | libs/src/cb/cb.c:129-191 | Looking and then dropping as much is reading |
| `CircleBuffer.Manager.Clear` | libs/src/cb/cb.c:80-83 | The queue is empty |
| `RingThreads.StepKeepsInv` | libs/src/cb/cb.c:85-242 | Every step of every thread (unlocked check, locking, copying, moving, counting, unlocking) keeps the invariant of ring, lock and history |
| `RingThreads.RunKeepsInv` | libs/src/cb/cb.c:85-242 | So does every run |
| `RingThreads.RunIsLinearizable` | libs/src/cb/cb.c:85-242 | In every state of every run: accepted bytes are consumed bytes followed by queued bytes; the log of calls is a legal history of one bounded queue, in which a write takes all its data or fills the queue, and a read, look or skip gives what it asks for or all that is queued; and every finished call returned what its entry says, made between its begin and its end |
| `RingThreads.EntryMadeOnce` | libs/src/cb/cb.c:85-242 | The converse: every entry of the log was made by exactly one step of the run, a step of the thread it names, in the call it describes and after that call began |
| `RingThreads.EntriesOfTwoCalls` | libs/src/cb/cb.c:85-242 | Two entries of one thread belong to different calls: between the steps that made them the thread began a new call |
| `RingThreads.RealTimeOrder` | libs/src/cb/cb.c:85-242 | A call that ended before another began comes before it in the history |
| `RingThreads.MutualExclusion` | libs/src/cb/cb.c:85-242 | No two threads are inside the locked body |

## Left out

- Floating point: numbers are integers; of a fraction or exponent the integer part is kept that the cast to `int` keeps, in exact arithmetic. `valuedouble`, "%e", "%f", NaN and infinity are not modelled.
- Width of `int` where counts, indices, digits and sizes could exceed it; `PrintBuffers.PrintBuffer.Ensure` uses the next power of two in unbounded arithmetic and `NextPowers.SmearedIsNextPower` relates the bit operations to it up to 2^32.
- Allocation failure, `cJSON_InitHooks`, the global error pointer, freeing, and the flags for references and constant names.
- Sharing between trees outside copying, merging and patching: `Json` values stand for trees, so parsing and generating build values. That nodes are not shared is proved in the heap for edits of one chain (`ChildList`), the deep copy (`Duplicates`), merging (`MergeHeap`) and patching (`PatchHeap`).
- Sorting as a side effect of generating: the methods of `PatchEngine.PatchArray` and `MergeEngine` read sorted copies. What generating leaves of the first tree is the function `LinkedDiff.Left` for patches and `LinkedOwn.MergeLeft` for merge patches; what it leaves of the second tree is not stated, nor is the order in which a "test" leaves the value inside the operation.
- Old links on the heap beyond one chain: `ChildList` has them for one chain; `MergeHeap` and `PatchHeap` work on trees without them. In whole trees they are marks on values (`LinkedPatch`, `LinkedMerge`) or numbers of nodes (`NodePatch`). What a run does after a write through one that does harm, and which writes of a merge through one do none, is not modelled.
- PatchHeap.ApplyPatches: for lists without "test", which would leave old links in the heap, and requires that the C code would not follow a null pointer or step over a terminator.
- NodeRuns.PatchesOnOwnTree: for first trees whose old links were left by sorting, with nothing moved since; for others `NodePatch.RunsAgree` gives the condition operation by operation.
- PatchEngine.Document.ApplyPatch: requires that the specification is defined, that is, that the C code would not follow a null pointer, step over a terminator or follow an old link.
- MinifyInPlace.MinifyArray: requires that literals and block comments end, since the C code otherwise leaves its buffer.
- Parser.WriteUtf8: the bit operations on the code point are written as division and remainder by 64.
- Names left in array elements, duplicate names (beyond `Pointer.PointerRoundTrip`, `Compare.CompareDecidesCanonical` and the functions themselves), and strings with embedded terminators.
- `cJSON_CreateXArray`, `cJSON_ReplaceItemInObject` and the other small wrappers around the modelled operations.
- `list_replace_init`, `list_empty_careful`, the iteration macros and `container_of`.
- `cb_init` beyond its result, `cb_deinit`, and `cb_clear` among threads: they take no lock and are for use alone. Negative lengths are in the class, not in the thread model, where lengths are what they convert to. Memory ordering of the unlocked check.
- `libs/src/fifo/fifo.c`, the remaining headers, demos, platform and device code.
