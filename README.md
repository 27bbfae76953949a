# Off-target initialisation analysis, modelled in Dafny

auto_off_target (AoT) builds a stand-alone C program (an "off-target") around one function of a
large C code base. The `Init` class in `src/init.py` decides how to initialise the variables that
program passes to the function. It reads a program database: types, functions, and each
function's dereference records ("derefs"). From these it learns:

- which pointer casts and `offsetof` relationships the code performs;
- which record members are used;
- in what order the derefs and calls happen;
- which member of a record holds the element count of a pointer member.

It then turns this into initialisation decisions: member order, value ranges, loop counts,
allocation sizes, stub names and the breaking of pointer cycles.

This project models that analysis and proves properties about it, one module per part of the
source:

| module | file | models |
|---|---|---|
| `Basics` | basics.dfy | Option, Python list and dict idioms (insertion-ordered dicts, `list.count`, `//`) |
| `Ir` | ir.dfy | the program database: types, derefs and their operands, functions, locals, globals, duplicate types |
| `Strings` | strings.dfy | the Python string operations the source relies on (`in`, `rfind`, `replace`, `lower`, `split()[-1]`, number formatting) |
| `TypePredicates` | type_predicates.dfy | `_is_void_ptr`, `_is_size_type`, `_is_pointer_like_type`, `_get_record_type`, `_resolve_record_type`, `_to_fuzz_or_not_to_fuzz`, `_get_const_array_size`, `_is_member_in_use` |
| `Facts` | facts.dfy | `_get_cast_from_deref`, `_get_offsetof_from_deref`, `_get_callref_from_deref` |
| `MemberAccess` | member_access.dfy | `_get_member_access_from_deref` |
| `Aggregation` | aggregation.dfy | `_discover_casts`, `_get_used_types_data` (class `Analysis`, tables updated in place) |
| `Trace` | trace.dfy | `_sort_order` and the list building and repair passes of `_collect_derefs_trace` |
| `Collector` | collector.dfy | `_collect_derefs_trace` as a whole (class `TraceCollector` with the `trace_cache` memo) and `Collect`, what a collection computes |
| `TypeUses` | typeuse.dfy | `TypeUse`, `_match_obj_to_type`, `_parse_derefs_trace` (class `Arena` of type-use objects) |
| `SizeInfo` | size_info.dfy | `_generate_member_size_info` (class `SizeInference` filling `member_usage_info`) |
| `MembersOrder` | members_order.dfy | `_get_members_order`, `_generate_constraints_check` |
| `VarInit` | var_init.dfy | the decisions inside `_generate_var_init` (class `NameState` for `stub_names` and `tagged_vars_count`) |

The code's in-place work stays imperative in the model:

- Loops are methods with loop invariants.
- Objects whose fields the source updates are classes.
- Each method is proved equal to a specification function of its inputs and old state.
- Lemmas give the properties of those functions: which facts are recorded, no duplicates,
  moves that keep the trace a permutation, single-match re-targeting, the size-member order,
  and the clamp's range.

The external database layer is a `Db` value: `typemap`, `_get_typedef_dst`, `_get_real_type`,
`deps.dup_types`, `fnidmap` and `globalsidmap`. This covers code outside `src/init.py`
(`dbops`, `deps`).

## Model

| member | source | states |
|---|---|---|
| Strings.ContainsIff | src/init.py:576-578 | the substring test `p in s` holds exactly when `p` occurs at some position of `s` |
| Strings.RFind | src/init.py:817-818 | `rfind` returns the last start position of the pattern, or -1 when it does not occur |
| Strings.Lower | src/init.py:578 | `lower()` maps every ASCII capital to its small letter and keeps every other character, position by position |
| Strings.ReplaceCharRemoves | src/init.py:898-904 | replacing a character by a string without it leaves no occurrence of it |
| Strings.ReplaceKeepsAbsentChar | src/init.py:898-904 | a replacement never introduces a character that is in neither the text nor the replacement |
| Strings.LastToken | src/init.py:906 | `split()[-1]` is the last maximal run of non-space characters, and there is none exactly when the string is all white space |
| Strings.NatToStringRoundTrip | src/init.py:697 | a formatted counter reads back as the number it formats |
| Strings.NatToStringInjective | src/init.py:912-914 | different numbers give different decimal texts |
| Basics.Count | src/init.py:925 | `list.count` is positive exactly when the element is in the list |
| Basics.AppendNew | src/init.py:458-461 | `set.add` on a set kept as a list: exactly that element is added and the rest are kept |
| Basics.AppendNewNoDups | src/init.py:458-461 | a set kept as a list stays free of repetitions |
| Basics.FloorDiv | src/init.py:839-841 | Python's `//` is floor division, also for negative operands |
| TypePredicates.VoidPtrIsPointerLike | src/init.py:387-408 | a `void*` (a pointer, after typedef stripping, whose pointee as it stands is the builtin `void`) is always accepted as pointer-like |
| TypePredicates.PointerLikeNonPointer | src/init.py:387-408 | a type that is not a pointer after typedef stripping is pointer-like exactly when it is a 64-bit integer type |
| TypePredicates.GetRecordType | src/init.py:366-374 | when typedefs resolve as the database promises, the result is never a typedef, and when the real type behind the stripped base (its pointee or element) is a record or record_forward, the result is that record |
| TypePredicates.ResolveRecordType | src/init.py:597-613 | a record or record_forward resolves to itself with the typedef passed in; any found type is a record or record_forward; a reported typedef is the one passed in or of class typedef; which record and which typedef are found along the chain is stated by ResolveRecordFinds and ResolveRecordStops |
| TypePredicates.ResolveRecordFinds | src/init.py:590-613 | when the first n hops along `refs[0]` are pointers, arrays, typedefs or attributed types and hop n is a record or record_forward, the walk finds that record, reporting the first typedef after the last pointer or array (with none on the way, the typedef passed in, else the first typedef) |
| TypePredicates.ResolveRecordStops | src/init.py:597-613 | when the first hop that cannot be walked is not a record, the result is `(None, None)` |
| TypePredicates.ResolveRecordOutOfFuel | src/init.py:597-613 | a chain walkable for more hops than the fuel runs out of fuel, where the source recursion would go on |
| TypePredicates.ReportedTypedefStep | src/init.py:601-611 | one hop of the walk (a pointer or array forgetting the typedef, a typedef remembered only when none was, an attribute passing it on) leaves the report of the rest of the chain unchanged |
| TypePredicates.LastIndirectionIs | src/init.py:601-603 | `LastIndirection` is the last pointer or array hop below n, or none when there is none |
| TypePredicates.FirstTypedefIs | src/init.py:604-607 | `FirstTypedef` is the first typedef hop in the range, or none when there is none |
| TypePredicates.ResolvedTypedefIsTypedef | src/init.py:597-619 | a walk that starts without a typedef only ever reports a typedef entry |
| TypePredicates.ResolveFuelMonotone | src/init.py:597-619 | the answer of the walk does not depend on the bound once reached |
| TypePredicates.ArrayBase | src/init.py:621-635 | the element type reached through all array levels is not an array |
| TypePredicates.ToFuzzIffBaseScalar | src/init.py:621-635 | a value is fuzzed exactly when the element type behind all its array levels is a builtin or an enum |
| TypePredicates.GetConstArraySize | src/init.py:3437-3449 | the element count is the floor of array size over element size; 0 for an empty incomplete array or a zero-sized element |
| Facts.CallrefFromDeref | src/init.py:2928-2936 | true exactly when the deref is not an offsetof and some operand is a call's return value |
| Facts.LastMemberOperand | src/init.py:2975-2987 | the array branch picks the last member operand, and fails exactly when there is none |
| Facts.FromDst | src/init.py:3051-3072 | the source side of a cast read from the deref or local it points at keeps the cast destination |
| Facts.OperandSource | src/init.py:2958-3049 | operands without a cast, of the unsupported kinds, or with a member id past the derefs yield no candidate |
| Facts.FilterCast | src/init.py:3074-3164 | an accepted cast has source and destination that differ after typedef stripping, equal sizes, no duplicate root, a root other than the destination's when the root has no duplicates, a `void*` destination only on `return`, and a member only on a record source |
| Facts.OperandFacts | src/init.py:2958-3164 | the accepted facts are exactly the facts of the operands that pass the filters |
| Facts.InsertFact | src/init.py:3157-3164 | inserting a fact records exactly one more (store, member, destination) triple and appends the store key when new |
| Facts.InsertFactNoDups | src/init.py:3163-3164 | the `not in` test keeps every destination list free of repetitions |
| Facts.InsertFacts | src/init.py:3157-3164 | inserting all facts keeps every destination list free of repetitions |
| Facts.InsertFactsRecorded | src/init.py:3157-3164 | after the loop a triple is recorded exactly when it was before or some fact carries it |
| Facts.CopyToDups | src/init.py:3166-3173 | every duplicate of every source gets an entry; existing entries are never replaced; each new entry is a copy of the entry of a source it duplicates |
| Facts.CopyDupsOf | src/init.py:3169-3173 | every duplicate of one source that has no entry gets a copy of that source's entry, and nothing else changes |
| Facts.CastFromDeref | src/init.py:2943-2956 | an offsetof deref and an assign with operator code other than 21 yield nothing |
| Facts.CastFromDerefSound | src/init.py:3087-3173 | every recorded cast is explained by an operand of the deref, `void*` destinations only occur on `return`, and the deref is not pointer arithmetic or an offsetof |
| Facts.RecordedFact | src/init.py:3157-3173 | every recorded triple comes from an accepted fact stored under its own source or a duplicate of it |
| Facts.CastFromDerefComplete | src/init.py:3147-3173 | every fact an operand yields is recorded, and every duplicate of its source has an entry |
| Facts.CastFromDerefWellFormed | src/init.py:3159-3164 | no destination list of the cast data repeats a type |
| Facts.AppendAbsent | src/init.py:3200-3205 | every duplicate without an entry gets the source's list; existing entries are kept |
| Facts.OffsetofFromDeref | src/init.py:3182-3207 | None exactly for a non-offsetof deref; otherwise the source (`refs[member[-1]]` of the last type) is the first key, every key maps to `[(type chain, member chain)]`, and the other keys are exactly its duplicates |
| Facts.OffsetofFromDerefHas | src/init.py:3182-3207 | the keys of the offsetof data are exactly the source and its duplicates, and each lists exactly the pair of the deref's type chain and member chain |
| MemberAccess.Unmarked | src/init.py:3236-3243 | the copy of a record has the same id, members and length, with every member marked unused |
| MemberAccess.AccessStep | src/init.py:3226-3275 | a step that does not raise keeps every key and gives the chain element's record an entry |
| MemberAccess.WithEntry | src/init.py:3236-3246 | a record met for the first time gets an unmarked copy; one already present is left as it is |
| MemberAccess.WithEntryIfRecord | src/init.py:3263-3275 | the type of the used member gets an entry only when it is a record |
| MemberAccess.AccessLoopKeepsKeys | src/init.py:3226-3275 | the chain loop never drops a key |
| MemberAccess.AccessLoopKeys | src/init.py:3226-3248 | the loop gives an entry to the record of every chain element |
| MemberAccess.ChainOrder | src/init.py:3248 | `access_order` lists the record of every chain element, in chain order |
| MemberAccess.MergeMark | src/init.py:3286-3291 | the merge of one index keeps a known mark of the first entry and never clears the duplicate's |
| MemberAccess.MergeMarks | src/init.py:3286-3291 | the index-wise merge covers the first list's length and leaves the rest of each list as it was |
| MemberAccess.MergePair | src/init.py:3284-3291 | merging with one duplicate changes no key |
| MemberAccess.MergeWithDups | src/init.py:3283-3291 | merging with all duplicates changes no key |
| MemberAccess.MergeDups | src/init.py:3277-3291 | the merge loop over the snapshot of keys changes no key |
| MemberAccess.HasAddressOperand | src/init.py:3219-3222 | true exactly when some operand takes an address |
| MemberAccess.MemberAccessFromDeref | src/init.py:3214-3222 | nothing is returned exactly for a non-member deref or one that takes an address |
| MemberAccess.MemberAccessOrder | src/init.py:3225-3248 | the access order has one entry per chain element, the (stripped) record of that element, and each has an entry in the data |
| MemberAccess.StepAtFromTable | src/init.py:3227-3252 | on a table whose entries carry their own ids every chain step reads the record from the table |
| MemberAccess.AccessStepAgrees | src/init.py:3250-3259 | a step read from the table never raises and keeps every mark equal to the member's type |
| MemberAccess.AccessLoopAgrees | src/init.py:3226-3275 | a loop over steps read from the table never raises |
| MemberAccess.MemberAccessNeverFailsOnConsistentTable | src/init.py:3254-3257 | the error for a member resolving to two types cannot happen on a table whose entries carry their own ids |
| MemberAccess.AccessStepMarks | src/init.py:3250-3259 | a step keeps every mark and marks its own member unless its type is unknown or the record lacks it |
| MemberAccess.AccessLoopKeepsMarks | src/init.py:3226-3275 | the loop loses no mark, key or entry length |
| MemberAccess.AccessLoopMarks | src/init.py:3226-3259 | the loop marks the member of every chain element |
| MemberAccess.MergePairKeepsMarks | src/init.py:3284-3291 | the merge with one duplicate loses no mark |
| MemberAccess.MergeWithDupsKeepsMarks | src/init.py:3283-3291 | the merge with all duplicates loses no mark |
| MemberAccess.MergeDupsKeepsMarks | src/init.py:3277-3291 | the whole merge loses no mark |
| MemberAccess.MemberAccessMarksChain | src/init.py:3214-3301 | every member named along the chain is marked used in the result, when its type is known and it exists in the record |
| MemberAccess.AccessStepOnlyMarks | src/init.py:3250-3259 | a step marks nothing but its own member of its own record |
| MemberAccess.AccessLoopOnlyMarks | src/init.py:3226-3275 | every mark after the chain loop was there before or is a member of a record on the chain |
| MemberAccess.AccessLoopExplained | src/init.py:3226-3275 | starting from no marks, every mark after the chain loop is the member of some chain element, and in a record that is no one's duplicate the member of a chain element of that record |
| MemberAccess.MergePairExplained | src/init.py:3284-3291 | merging one record with one duplicate keeps every mark explained by the chain (a chain member, and in a record that is no one's duplicate a member reached through that record) |
| MemberAccess.MergeWithDupsExplained | src/init.py:3283-3291 | merging a record with all its duplicates keeps every mark explained by the chain |
| MemberAccess.MergeDupsExplained | src/init.py:3277-3291 | the whole merge keeps every mark explained by the chain |
| MemberAccess.CopyToDupsExplained | src/init.py:3293-3299 | copying entries to duplicates keeps every mark explained by the chain |
| MemberAccess.MemberAccessExplained | src/init.py:3214-3301 | every entry a successful access marks is explained by its chain: its member is a chain element's member, and in a record no one duplicates, that element's record |
| MemberAccess.MemberAccessMarksOnlyChain | src/init.py:3214-3301 | conversely, a marked member is the member of some chain element, and in a record that is no one's duplicate it is marked only by a chain element of that very record |
| Aggregation.AppendAll | src/init.py:3343-3346 | the result extends the list and holds exactly its elements and the appended ones |
| Aggregation.AppendAllNoDups | src/init.py:3343-3346 | appending only absent elements keeps a duplicate-free list duplicate-free |
| Aggregation.AppendMissing | src/init.py:3343-3346 | the loop over the destinations computes `AppendAll` |
| Aggregation.AppendMissingEntries | src/init.py:3360-3368 | the offsetof loop appends each pair its `found` search does not see, as `AppendAll` |
| Aggregation.ContainsEntry | src/init.py:3361-3365 | `found` is set exactly when an equal pair is already listed |
| Aggregation.MergeMemberMaps | src/init.py:3339-3346 | the member loop for a known source computes the member merge: a new member takes its list, a known one gets the missing destinations |
| Aggregation.MergeSourceHas | src/init.py:3335-3346 | after merging one source, a triple is held exactly when it was held or the merged data carries it |
| Aggregation.MergeCastsHas | src/init.py:3335-3346 | after merging all sources of one deref, a triple is held exactly when it was or the deref's data holds it for a merged source |
| Aggregation.MergeSourceNoDups | src/init.py:3335-3346 | merging one source keeps every list of `casted_pointers` duplicate-free |
| Aggregation.MergeCastsNoDups | src/init.py:3335-3346 | merging one deref's data keeps every list duplicate-free |
| Aggregation.MergeOffsetsHas | src/init.py:3356-3368 | after merging one offsetof deref, a pair is listed under `k` exactly when it was or the deref's data lists it under `k` |
| Aggregation.MergeOffsetsNoDups | src/init.py:3356-3368 | merging offsetof data keeps every list of `offset_pointers` duplicate-free |
| Aggregation.CastsStepHas | src/init.py:3322-3346 | one deref adds exactly the triples its cast data holds, unless its expression starts with `&` |
| Aggregation.DerefsCastsHas | src/init.py:3322-3346 | the derefs of one function add exactly the triples one of them contributes |
| Aggregation.CastsOverHas | src/init.py:3312-3346 | after the walk a triple is held exactly when it was before or some deref of a listed, known function contributed it |
| Aggregation.CastsOverOnlyAdds | src/init.py:3312-3346 | `casted_pointers` only ever grows |
| Aggregation.CastsStepNoDups | src/init.py:3335-3346 | one deref keeps every `(source, member)` list duplicate-free |
| Aggregation.DerefsCastsNoDups | src/init.py:3322-3346 | one function keeps every list duplicate-free |
| Aggregation.CastsOverNoDups | src/init.py:3312-3346 | no `(source, member)` list of `casted_pointers` ever holds a destination twice |
| Aggregation.DiscoveredCastsExplained | src/init.py:3312-3346 | every triple recorded from empty tables is explained by an operand of a deref of a listed function |
| Aggregation.OffsetsStepHas | src/init.py:3347-3368 | one offsetof deref adds exactly the pairs of its offsetof data |
| Aggregation.DerefsOffsetsHas | src/init.py:3322-3368 | the derefs of one function add exactly the pairs one of them contributes |
| Aggregation.OffsetsOverHas | src/init.py:3312-3368 | after the walk `offset_pointers[k]` lists a pair exactly when it did before or some offsetof deref of a listed function has it and reaches `k` |
| Aggregation.OffsetsStepNoDups | src/init.py:3356-3368 | one deref keeps every offsetof list duplicate-free |
| Aggregation.DerefsOffsetsNoDups | src/init.py:3322-3368 | one function keeps every offsetof list duplicate-free |
| Aggregation.OffsetsOverNoDups | src/init.py:3312-3368 | no list of `offset_pointers` ever holds the same pair twice |
| Aggregation.AccessResults | src/init.py:3393-3396 | the member data of each deref, in order |
| Aggregation.MergeUsedTypeMarks | src/init.py:3400-3410 | a type's entry is created once and keeps its length; its used marks are the union of the old ones and the merged ones |
| Aggregation.MergeUsedDomain | src/init.py:3400-3402 | merging adds exactly the types of the merged data and keeps entry lengths |
| Aggregation.MergeUsedMarks | src/init.py:3400-3410 | after merging a member is marked exactly when it was or the merged data marks it |
| Aggregation.UsedStepDomain | src/init.py:3395-3402 | one deref adds exactly the types its member data has entries for |
| Aggregation.UsedStepMarks | src/init.py:3395-3410 | one deref adds exactly the marks its member data carries |
| Aggregation.ResultsUsedDomain | src/init.py:3393-3402 | a sequence of member data adds exactly the types one of them has |
| Aggregation.ResultsUsedMarks | src/init.py:3393-3410 | a sequence of member data adds exactly the marks one of them carries |
| Aggregation.ResultsOfDerefs | src/init.py:3393-3396 | the member data list has an entry or mark exactly when the member data of some deref has it |
| Aggregation.DerefsUsedDomain | src/init.py:3393-3402 | the derefs of one function add exactly the types their member data has entries for |
| Aggregation.DerefsUsedMarks | src/init.py:3393-3410 | the derefs of one function add exactly the marks their member data carries |
| Aggregation.UsedOverDomain | src/init.py:3377-3402 | `used_types_data` has an entry for a type exactly when some deref of a known internal function has member data for it |
| Aggregation.UsedOverMarks | src/init.py:3377-3410 | a member is marked used exactly when some deref of a known internal function marked it; marks are never cleared |
| Aggregation.UsedMemberInUse | src/init.py:2902-2926 | on the record's own entry of `used_types_data`, `_is_member_in_use` is true exactly when some deref of an internal function marked the member |
| Aggregation.ResultsUsedNonePrefix | src/init.py:3254-3257 | once a member access has raised its error the walk stays failed |
| Aggregation.DerefsUsedSnoc | src/init.py:3393-3410 | the walk over one more deref is the walk so far followed by that deref |
| Aggregation.DerefsUsedNonePrefix | src/init.py:3254-3257 | a failure in a prefix of the derefs fails the function |
| Aggregation.UsedOverNoneStep | src/init.py:3254-3257 | a failed walk stays failed for one more function |
| Aggregation.UsedOverNonePrefix | src/init.py:3254-3257 | a failure in a prefix of the functions fails the whole walk |
| Aggregation.OverlayMarks | src/init.py:3404-3410 | the copy loop of known marks computes `Overlay`: each known mark replaces the old one |
| Aggregation.Analysis.constructor | src/init.py:56-79 | the three tables start empty |
| Aggregation.Analysis.MergeCastData | src/init.py:3335-3346 | `casted_pointers` becomes the merge of the deref's cast data, the other tables are unchanged |
| Aggregation.Analysis.MergeOffsetEntries | src/init.py:3360-3368 | the missing pairs are appended to the one list, nothing else changes |
| Aggregation.Analysis.MergeOffsetData | src/init.py:3356-3368 | `offset_pointers` becomes the merge of the deref's offsetof data, the other tables are unchanged |
| Aggregation.Analysis.DiscoverInFunction | src/init.py:3322-3368 | one function's derefs update both tables as the step folds say |
| Aggregation.Analysis.DiscoverCasts | src/init.py:3312-3368 | `_discover_casts` leaves the tables equal to the folds over the functions, whose contents the `...Has` and `...NoDups` lemmas characterise |
| Aggregation.Analysis.MergeMemberData | src/init.py:3400-3410 | `used_types_data` becomes the merge of one deref's member data |
| Aggregation.Analysis.UsedInFunction | src/init.py:3393-3410 | fails exactly when a member access of the function raised, otherwise updates `used_types_data` as the fold says |
| Aggregation.Analysis.GetUsedTypesData | src/init.py:3377-3410 | `_get_used_types_data` fails exactly when the fold fails and otherwise leaves the fold's table |
| Trace.OrdItemsHas | src/init.py:1999-2005 | a deref's items are exactly the pairs of the deref with one of its `ord`s |
| Trace.DerefItemsHas | src/init.py:1998-2009 | the deref loop lists every deref once per `ord`, and nothing else |
| Trace.DerefItemsLength | src/init.py:1998-2009 | the deref items number the `ord`s of all derefs |
| Trace.CallItemsHas | src/init.py:2010-2023 | a call's items appear, once per `ord`, exactly when its callee is in `functions` |
| Trace.MergeItems | src/init.py:1996-2023 | the two loops build the deref items followed by the in-scope call items |
| Trace.InsertById | src/init.py:1972-1978 | inserting adds exactly the one item to the multiset |
| Trace.InsertByIdSorted | src/init.py:1972-1978 | inserting into a list ordered by id keeps it ordered |
| Trace.SortById | src/init.py:2025 | the sorted list is a permutation of the merged list |
| Trace.SortByIdSorted | src/init.py:2025 | the sorted list is ordered by id |
| Trace.InsertByIdLast | src/init.py:1972-1978 | an item with the largest id goes to the end (ties keep their order) |
| Trace.SortByIdSortedUnchanged | src/init.py:2025 | sorting a list already ordered by id leaves it unchanged (the sort is stable) |
| Trace.MoveItem | src/init.py:2072-2082 | a move keeps the length of the list and the item table and introduces no new item |
| Trace.MoveItemIndexed | src/init.py:2072-2082 | a move keeps every slot a valid handle |
| Trace.MoveForward | src/init.py:2072-2082 | a move towards the front takes the item out of its position and puts it at the target, shifting the items in between; its id drops by the distance |
| Trace.MoveForwardPermutes | src/init.py:2072-2082 | a forward move keeps the multiset of items |
| Trace.MoveChangesOneId | src/init.py:2075 | a move changes only the moved item's id |
| Trace.MoveBackward | src/init.py:2072-2082 | a move towards the back duplicates the moved item and drops its right neighbour |
| Trace.MoveToNext | src/init.py:2072-2082 | a move to the slot just after the item changes no position |
| Trace.ApplyMoves | src/init.py:2033-2352 | a sequence of moves keeps the lengths |
| Trace.ApplyMovesAppend | src/init.py:2033-2352 | applying two runs of moves is applying their concatenation |
| Trace.ForwardMovesPermute | src/init.py:2033-2352 | a run of forward moves keeps the list a permutation of what it was |
| Trace.FirstWithId | src/init.py:2067-2068 | the first position from `i` whose item has id `o`; none exactly when no later position has one |
| Trace.MoveFirstWithId | src/init.py:2067-2089 | the search loop with its `break` computes `MoveFirst`: the first item with id `o` is moved and the search stops; nothing moves exactly when no item has that id |
| Trace.MoveFirstPlacesItem | src/init.py:2072-2082 | the first item with id `o` lands at the current position; the items in between shift back by one and the rest stay |
| Trace.MoveAllLogged | src/init.py:2337-2347 | each move of the search without `break` takes an item with id `o` (a member deref for call arguments) and puts it at the current position |
| Trace.MoveAllNone | src/init.py:2337-2347 | the search makes no move exactly when no position it reaches holds an item with id `o` (a member deref for call arguments), and then the list is unchanged |
| Trace.MoveAllAbsent | src/init.py:2337-2347 | when no item has id `o` the search leaves the list and the log as they were |
| Trace.MoveAllWithId | src/init.py:2337-2347 | the loop without `break` computes `MoveAll`, the walk over every position whose moves `MoveAllLogged` and `MoveAllNone` characterise |
| Trace.FirstAbove | src/init.py:2057-2060 | the first `ord` above the current deref id; none exactly when no `ord` is above it |
| Trace.AtFirstAboveLogged | src/init.py:2057-2093 | acting on the first `ord` above the id makes only moves that put an item at the current position |
| Trace.MoveAtFirstAbove | src/init.py:2057-2093 | the `for o in ords` loop with its closing `break` computes `AtFirstAbove`: only the first `ord` above the current id is searched for, by the first-match or the all-positions search |
| Trace.FirstMemberOperand | src/init.py:2209-2212 | the first operand of kind member; none exactly when there is no member operand |
| Trace.CastOperandsLogged | src/init.py:2048-2093 | every move of the operand loop of one cast member puts an item at the current position |
| Trace.CastOperandMoves | src/init.py:2048-2093 | the operand loop computes `CastOperandsUpTo`: each `member` operand with a cast pulls the first item of its deref's first `ord` above the current id in front, the id rising with every insert |
| Trace.RoundCount | src/init.py:2045-2048 | the members other than `CAST_PTR_NO_MEMBER` are counted; all of them count exactly when none is `CAST_PTR_NO_MEMBER` |
| Trace.CastRoundsLogged | src/init.py:2045-2093 | every round of the operand loop makes only moves logged at the current position |
| Trace.CastRoundMoves | src/init.py:2045-2093 | the member loop runs the operand loop once per member other than `CAST_PTR_NO_MEMBER` (`CastRounds`) |
| Trace.CastSourceMoves | src/init.py:2045-2093 | one source's members give `CastSourceStep`: that many rounds after the moves so far |
| Trace.CastDataLogged | src/init.py:2044-2093 | the loops over all sources make only moves that put an item at the current position |
| Trace.CastDataMoves | src/init.py:2044-2093 | the loop over the cast data's sources, in insertion order, computes `CastDataUpTo`: for each source its number of rounds |
| Trace.CastSourceAt | src/init.py:2045-2093 | source `i` of the cast data, in insertion order, gives `CastSourceStep` with its own round count |
| Trace.MemberOrdsLogged | src/init.py:2183-2231 | every move for a call argument's member deref puts an item at the current position |
| Trace.MemberOrdMoves | src/init.py:2183-2231 | the loop over the member deref's `ord`s computes `MemberOrdsUpTo`: each `ord` above the current id moves every member-deref item with that id in front |
| Trace.ParamDerefOf | src/init.py:2185-2213 | the member deref an argument operand leads to: a member operand directly, an array operand through its first member operand, else none |
| Trace.ParamRunLogged | src/init.py:2183-2231 | the member derefs pulled after a moved argument are all put at the current position |
| Trace.ParamMoves | src/init.py:2183-2231 | the operand loop of the moved argument deref computes `ParamRun`: each operand's member deref has its `ord`s moved in front; a call item in that slot moves nothing |
| Trace.ArgOrdAt | src/init.py:2162-2233 | visiting one position moves its item in front, followed by its member derefs, exactly when it holds the `ord` being sought; otherwise nothing changes |
| Trace.ArgOrdMoves | src/init.py:2162-2233 | the position loop computes `ArgOrdUpTo`, and `found` is set exactly when a move was made |
| Trace.ArgOrdsFound | src/init.py:2162-2233 | once an argument's `ord` has moved something the later `ord`s are not looked at (the `if found: break`) |
| Trace.ArgOrdsMoves | src/init.py:2154-2233 | the loop over an argument's `ord`s computes `ArgOrdsUpTo`: only while nothing has moved and only for an `ord` above the current id |
| Trace.ArgsLogged | src/init.py:2154-2233 | every move made for the arguments of a call puts an item at the current position |
| Trace.ArgMoves | src/init.py:2154-2233 | the loop over a call's arguments computes `ArgsUpTo`, one argument's `ord`s after another |
| Trace.CallrefRun | src/init.py:2113-2233 | a deref that does not use a call's return value moves nothing |
| Trace.CallrefsLogged | src/init.py:2113-2233 | every move made for the call operands of a deref puts an item at the current position |
| Trace.CallrefMoves | src/init.py:2113-2233 | the operand loop computes `CallrefRun`: each `callref` operand pulls the call's items at its first `ord` above the current id, then that call's arguments |
| Trace.MemberOperandsLogged | src/init.py:2322-2350 | every move made for the member operands of a deref puts an item at the current position |
| Trace.MemberOperandsWithoutMembers | src/init.py:2322-2350 | a deref without member operands moves nothing in the third pass |
| Trace.MemberOperandMoves | src/init.py:2322-2350 | the operand loop computes `MemberOperandsUpTo`: each `member` operand pulls every item of its deref's first `ord` above the current id in front |
| Trace.DerefMovesLogged | src/init.py:2032-2352 | whatever the pass, the moves made at one deref are all logged at its position |
| Trace.DerefPassMoves | src/init.py:2032-2352 | the moves of one pass at one deref: the cast moves when the deref has cast data, the call moves, or the member-operand moves |
| Trace.PassStepMoves | src/init.py:2032-2352 | one iteration: a call is skipped; a deref gets its moves in front and `index` skips past them and the deref |
| Trace.PassIterDone | src/init.py:2033 | once `index` has passed the end the `while` loop's state no longer changes |
| Trace.PassIterApplied | src/init.py:2032-2352 | any number of iterations leaves the start list with the logged moves of the pass applied |
| Trace.PassLoop | src/init.py:2032-2352 | the `while index < len(ordered)` loop, one iteration per `PassStep`, ends with the state `PassRun` reaches |
| Trace.PassRunApplied | src/init.py:2032-2352 | a whole pass only applies its logged moves to the start list, and permutes the items when every move goes forward |
| Trace.RunPass | src/init.py:2032-2352 | the `while index < len(ordered)` loop computes `PassRun`; its result is the start list with its logged moves applied, and a pass whose moves go forward permutes the items |
| Trace.PassWithoutMoves | src/init.py:2032-2352 | a pass that moves nothing at any deref leaves the list as it was |
| Trace.CastPass | src/init.py:2032-2095 | the first pass is `PassRun` of the cast moves from `inserts_num` 0; the result is the start list with its moves applied, and a permutation when they go forward |
| Trace.CastPassWithoutCasts | src/init.py:2040-2043 | a function without cast data leaves the first pass with no move |
| Trace.CallrefPass | src/init.py:2100-2308 | the second pass is `PassRun` of the call moves; same application and permutation guarantees |
| Trace.CallrefPassWithoutCallrefs | src/init.py:2113-2114 | a function with no deref that uses a call's return value leaves the second pass with no move |
| Trace.MemberPass | src/init.py:2312-2352 | the third pass is `PassRun` of the member-operand moves, with `inserts_num` carried over; same guarantees |
| Trace.MemberPassWithoutMembers | src/init.py:2322-2350 | a function whose derefs have no member operand leaves the third pass with no move |
| Trace.InitialOrder | src/init.py:2025-2032 | the passes start with item `k` of the sorted list in slot `k`, carrying its own id |
| Trace.ItemObjs | src/init.py:2025 | what each sorted item stands for |
| Trace.SortedItemsFrom | src/init.py:1996-2025 | the sorted list holds only derefs of `f` and calls of `f` into `functions` |
| Trace.ReorderItems | src/init.py:2032-2352 | the three passes in sequence compute `Reorder`, apply their logged moves, keep the length and permute the items when every move goes forward |
| Trace.SlotObjs | src/init.py:2400-2415 | the objects of the repaired list in slot order |
| Trace.OrderItems | src/init.py:1996-2352 | the repaired list is the sorted merged list after `Reorder`, its objects are `RepairedObjs`, and it holds only items of `f` |
| Trace.ExpansionStable | src/init.py:2400-2415 | once every call of the list is cached, a cache that only grows gives the same expansion |
| Collector.ReorderIndexed | src/init.py:2032-2352 | the three passes keep every slot a handle of an item and the item table's length |
| Collector.RepairedObjsFrom | src/init.py:1996-2352 | the repaired list holds only derefs of the function and calls of functions in scope, so every call it expands is collected over a smaller scope |
| Collector.TraceCollector.constructor | src/init.py:56-79 | the trace cache starts empty |
| Collector.TraceCollector.CollectDerefsTrace | src/init.py:1981-2421 | the trace and the new cache are `Collect` of the old cache: the repaired list expanded left to right, each uncached call collected recursively with the caller out of the scope and stored; for a known function the trace is also the expansion of the repaired list through the final cache, with every call cached; every entry is a deref of a known function; entries cached before stay; an unknown function has the empty trace |
| Collector.TraceCollector.ExpandItem | src/init.py:2400-2415 | the appended entries and the new cache are `ExpandObj`: a deref as itself; a cached call as its cached trace, cache unchanged; an uncached call as `Collect` of the callee with the caller out of the scope, stored under the callee over anything the nested collection stored there |
| Collector.TraceCollector.ExpandSlots | src/init.py:2400-2415 | the loop over the repaired list computes `ExpandUpTo` over all its items, threading the cache, and the trace is the expansion through the final cache with every call cached |
| TypeUses.NewNodeOk | src/init.py:19-40 | creating an object keeps the arena well formed: ids strictly increasing from the instance counter, edges inside the arena and paired |
| TypeUses.UpdateOk | src/init.py:2611-2621 | replacing an object by one with the same id and edges inside the arena keeps it well formed |
| TypeUses.LinkOk | src/init.py:2731-2734 | adding an offsetof edge together with its reverse edge keeps the arena well formed |
| TypeUses.LinkForward | src/init.py:2731-2734 | after linking every forward edge has its reverse edge |
| TypeUses.LinkBackward | src/init.py:2731-2734 | after linking every reverse edge has its forward edge |
| TypeUses.Linked | src/init.py:2731-2734 | the parent gains exactly the forward edge, the child exactly the reverse edge, and no other object changes |
| TypeUses.Arena.constructor | src/init.py:21 | the arena starts empty with the instance counter at 0 |
| TypeUses.Arena.NewTypeUse | src/init.py:23-40 | a new object takes the next instance id and the counter grows by one |
| TypeUses.Arena.Update | src/init.py:2611-2621 | one object is replaced and the counter is unchanged |
| TypeUses.Arena.SetUsedMember | src/init.py:2857-2860 | one object records the used member, nothing else changes |
| TypeUses.Arena.PromoteForward | src/init.py:2847-2854 | one forward declaration becomes the record, nothing else changes |
| TypeUses.Arena.Link | src/init.py:2731-2734 | the arena becomes `Linked` of the old one |
| TypeUses.SearchCastHistory | src/init.py:2466-2485 | the loop over `cast_types` with its `break` finds a match exactly when the cast history has one |
| TypeUses.MatchOne | src/init.py:2436-2487 | the loop body decides the match of one object as `MatchesNode` defines it |
| TypeUses.Matches | src/init.py:2431-2488 | the matched objects are taken from the pool, in pool order |
| TypeUses.MatchesHas | src/init.py:2436-2487 | an object is matched exactly when it is in the pool and matches the type |
| TypeUses.MatchingObjects | src/init.py:2433-2488 | the loop collects exactly `Matches` |
| TypeUses.PromoteKey | src/init.py:2504-2506 | the entry of the old key is copied under the new one and every other entry is kept |
| TypeUses.PromoteKeyAsWritten | src/init.py:2504-2506 | the loop as written raises exactly when the old key is present and the new one is not, and otherwise agrees with `PromoteKey` |
| TypeUses.PromoteKeyRaises | src/init.py:2504-2506 | an object with used members only under its forward type makes the loop raise, where the intended result copies the entry |
| TypeUses.Promoted | src/init.py:2489-2508 | a promoted object keeps its id, edges, casts and pointer flag and takes the record type |
| TypeUses.MatchObjToType | src/init.py:2431-2510 | the matched objects are `Matches`; a single match is promoted in place, otherwise nothing changes |
| TypeUses.Retargeted | src/init.py:2582-2591 | re-targeting succeeds exactly when there is one match, which becomes active and is promoted; otherwise nothing changes; the objects' ids and edges stay |
| TypeUses.RetargetedMatches | src/init.py:2582-2591 | the newly active object is the one pool object that matches the type, and the only object changed is its promotion |
| TypeUses.Retarget | src/init.py:2582-2591 | the `_match_obj_to_type` call with its `len(other_objs) == 1` test computes `Retargeted` on the arena |
| TypeUses.WithCast | src/init.py:2611-2619 | a cast keeps the object's id, edges and used members |
| TypeUses.CastApplied | src/init.py:2595-2621 | unless a record would become a non-record, exactly one triple of the prior state is appended to `cast_types` and the object takes the cast type, a pointer exactly when that type is one; otherwise nothing changes; no other object changes |
| TypeUses.ApplyCast | src/init.py:2595-2621 | the arena's objects become `CastApplied` and the counter stays |
| TypeUses.CastActive | src/init.py:2593-2624 | the active object is cast unless it already has the cast type; the cursor and every edge stay |
| TypeUses.CastActiveFrame | src/init.py:2593-2624 | only the active object changes, gaining at most one `cast_types` entry, and with it the cast type |
| TypeUses.CastWholeRunFrame | src/init.py:2573-2624 | a whole-object cast changes only the object then active, the old one or one from the pool; it gains at most one history entry and then has the cast type |
| TypeUses.CastFieldRun | src/init.py:2626-2673 | a member cast changes only the active object, and only when it has the member's type (real types for a pointer), which then takes the cast type |
| TypeUses.CastMemberStep | src/init.py:2565-2673 | one source and member of the cast data compute `CastMemberRun`: the whole-object cast for `CAST_PTR_NO_MEMBER`, the member cast otherwise, to the first destination |
| TypeUses.CastMemberAt | src/init.py:2565-2673 | member `j` of a source, in insertion order, is one `CastMemberRun` step of `CastMembersFrom` |
| TypeUses.CastMembersStep | src/init.py:2565-2673 | the member loop of one source, in insertion order, computes `CastMembersFrom` |
| TypeUses.CastSourceAt | src/init.py:2564-2673 | source `i` of the cast data, in insertion order, is one step of `CastSourcesFrom` |
| TypeUses.CastDerefStep | src/init.py:2561-2673 | a deref with cast data runs its sources and their members in insertion order (`CastDerefRun`); no object is added and every id and edge stays |
| TypeUses.FirstEdge | src/init.py:2709-2717 | the first offsetof edge with equal chains; none exactly when no edge has them |
| TypeUses.FindEdge | src/init.py:2709-2717 | the search loop with `break` finds `FirstEdge` |
| TypeUses.OnlyFirstEdge | src/init.py:2709-2717 | an edge with the chains before which no edge has them is the first one |
| TypeUses.OffsetofChildRun | src/init.py:2709-2738 | an existing edge with equal chains makes its object active and creates nothing; otherwise exactly one new pointer object of the destination's real type is created, linked both ways, added to the pool and made active |
| TypeUses.OffsetofChildReused | src/init.py:2709-2738 | after a child has been created, the same offsetof from the same parent reuses it and creates nothing |
| TypeUses.OffsetofNewChild | src/init.py:2719-2738 | the new child takes the next instance id, is linked to the parent both ways, joins the pool and becomes active |
| TypeUses.OffsetofChild | src/init.py:2709-2738 | the edge search and the creation compute `OffsetofChildRun` on the arena |
| TypeUses.OffsetofStep | src/init.py:2676-2738 | an offsetof deref computes `OffsetofRun`: the source type must be the active object's or re-targeting must find it (else nothing changes), then `OffsetofChildRun` |
| TypeUses.WithUsedMember | src/init.py:2824-2827 | `used_members[tid][member] = obj` sets exactly that entry, creating the inner table when needed |
| TypeUses.ContainedFromMembersOnly | src/init.py:2819-2834 | the loop over `contained_types` changes nothing but used members, adds no object and keeps the pool |
| TypeUses.ContainedFromFound | src/init.py:2819-2834 | `found` ends true exactly when it was true or some reverse edge has the record as last chain type and the member as last member |
| TypeUses.ContainedFromActive | src/init.py:2819-2834 | without a matching reverse edge neither the objects nor the active object change; with one, the object of the last matching edge is active at the end |
| TypeUses.ContainedSingle | src/init.py:2819-2834 | with exactly one matching reverse edge, its object is recorded as the member of the active object's type and becomes active, and `obj` is left bound to the last edge |
| TypeUses.ContainedEdgeStep | src/init.py:2820-2831 | one iteration binds `obj` to the edge and, for a matching edge, records and activates its object (`ContainedEdge`) |
| TypeUses.ContainedStep | src/init.py:2819-2834 | the loop over the active object's `contained_types` computes `ContainedFrom`, whose effect the lemmas above state |
| TypeUses.PromotedForward | src/init.py:2847-2854 | a forward declaration accessed as a record takes the record type, keeps its edges and casts, and its used members under `obj.t_id` are copied under the record |
| TypeUses.NewMemberCreates | src/init.py:2835-2864 | exactly one new object of the member's type is created with the next instance id and joins the pool; the step raises exactly when a forward declaration with used members is promoted while `obj` is unbound or its type is a key and the record is not (the dict changed during iteration); otherwise the new object becomes active and is recorded as the member under the active object's (promoted) type; no other object changes |
| TypeUses.NewMember | src/init.py:2835-2864 | the method computes `NewMemberRun` on the arena, raising where the source raises |
| TypeUses.UsedMemberReused | src/init.py:2807-2864 | a member object created by one access is found again by the next access of the same member from the same object, which creates nothing |
| TypeUses.UsedMemberStep | src/init.py:2807-2864 | one used member computes `UsedMemberRun`: a recorded member object becomes active; else a matching reverse edge; else `NewMemberRun` |
| TypeUses.UsedRefsStep | src/init.py:2803-2864 | the loop over `usedrefs` follows every member other than `-1` in order (`UsedRefsFrom`); an error ends it |
| TypeUses.AccessFrom | src/init.py:2801-2864 | `t_id` is bound to each record of `access_order` in turn; a completed loop leaves it bound to the last record, an empty one leaves everything as it was |
| TypeUses.AccessStep | src/init.py:2801-2864 | the loop over `access_order` computes `AccessFrom` |
| TypeUses.AccessTarget | src/init.py:2751-2798 | when the first record is not the active object's type, a duplicate of it or in its cast history, re-targeting must find it or the deref is skipped with nothing changed |
| TypeUses.TargetStep | src/init.py:2751-2798 | the checks before a member access compute `AccessTarget` |
| TypeUses.MemberRun | src/init.py:2741-2864 | a deref with no member access changes nothing; a member access error is raised; a completed access leaves `t_id` bound to the last record of its order |
| TypeUses.MemberStep | src/init.py:2741-2864 | a member deref computes `MemberRun` on the arena |
| TypeUses.TraceStep | src/init.py:2558-2864 | one trace entry is a cast when it has cast data, else an offsetof, else a member access (`TraceStepRun`) |
| TypeUses.ParseArg | src/init.py:2542-2864 | one parameter type creates its base object as the next object and interprets the whole trace from it (`ArgRun`); it returns the record `t_id` was last bound to |
| TypeUses.ArgsFromPairsLength | src/init.py:2542-2865 | a run without error reports one pair per parameter type after those already reported |
| TypeUses.ArgsFromTypes | src/init.py:2542-2865 | the corrected pairs carry the parameter types, in order |
| TypeUses.ArgsFromBases | src/init.py:2542-2865 | each reported base object is new |
| TypeUses.ArgsFromBasesIncrease | src/init.py:2542-2865 | the base objects increase along the pairs |
| TypeUses.ArgsReported | src/init.py:2542-2865 | from an empty start: one pair per parameter type, in order, with a new base object, the bases strictly increasing |
| TypeUses.ParseArgs | src/init.py:2542-2867 | the parameter loop computes `ArgsFrom`: parameter types interpreted in turn with `obj` carried over; an error raises; the pairs are those of `ArgsReported` |
| TypeUses.ParseArgsLoop | src/init.py:2542-2867 | the loop with its invariants computes `ArgsFrom` |
| TypeUses.ParseDerefsTrace | src/init.py:2520-2867 | an unknown function raises; the collector's cache becomes `Collect` of the old one and the trace is `Collect`'s trace; the interpreter computes `ArgsFrom` over that trace for `types[1:]` plus `tids`: one pair per parameter type, in order, with a new base object, bases strictly increasing, and None when a member access raised |
| TypeUses.ReportedPairAsWritten | src/init.py:2865 | the pair appended carries the base object, and its type is the parameter's exactly when `t_id` was never rebound or rebound to the parameter type |
| TypeUses.ReportedPairRebound | src/init.py:2801-2865 | whatever came before, a last trace entry that is a member access starting at the active object's type and completing makes the source report the last record of that access, so another record than the parameter type whenever that record differs |
| SizeInfo.NoUsages | src/init.py:433-434 | a fresh record entry is one empty usage dictionary per member |
| SizeInfo.Raise | src/init.py:438-443 | a `value` entry becomes the candidate when absent and the larger of the two otherwise, so it is never below the candidate |
| SizeInfo.AddPair | src/init.py:458-461 | adding a pair to a set entry creates the set when absent; the pair is then always in it and nothing is lost |
| SizeInfo.EnsureRecord | src/init.py:432-434 | a record without entries gets one empty dictionary per member; every existing record keeps its entries unchanged |
| SizeInfo.SetUsage | src/init.py:435 | storing a member's dictionary changes only that member's entry; records and their lengths stay |
| SizeInfo.AddKeysNone | src/init.py:445-461 | the collected set exists afterwards exactly when it existed before or some operand was selected |
| SizeInfo.AddKeysIn | src/init.py:445-461 | the collected set holds a key exactly when it held it before or the key belongs to a selected operand |
| SizeInfo.IndexMembers | src/init.py:445-461 | the `member_idx` evidence of the index operands only grows |
| SizeInfo.IndexMembersCreated | src/init.py:445-461 | `member_idx` is created exactly when it existed before or some index operand is a size-typed member |
| SizeInfo.IndexMembersKeys | src/init.py:445-461 | `member_idx` holds exactly its previous pairs plus the (record, member) pair of every size-typed member index operand |
| SizeInfo.CollectIndexMembers | src/init.py:445-461 | the loop over `offsetrefs[1:]` computes exactly the `member_idx` evidence |
| SizeInfo.CondStep | src/init.py:470-500 | one condition deref only raises `value` and only adds to `member_size`, leaves the other keys alone, and changes nothing unless it is a condition of the array's scope |
| SizeInfo.CondEvidenceGrows | src/init.py:469-500 | all the conditions of a function together only raise `value` and only add to `member_size` |
| SizeInfo.CollectCondEvidence | src/init.py:469-500 | the source's loop over the derefs computes exactly the condition evidence |
| SizeInfo.PointerUsage | src/init.py:438-500 | after an array deref with a nonzero constant offset `value` is at least offset+1; no earlier evidence is lowered or lost and `index`, `name_size` stay |
| SizeInfo.PointerEvidence | src/init.py:417-500 | an array deref changes the usage map only when its base is a pointer-like member, and then only that member's entry, after creating its record |
| SizeInfo.PointerUsageOf | src/init.py:438-500 | the method with the source's two loops computes exactly the pointer evidence |
| SizeInfo.IndexEvidence | src/init.py:502-544 | a member indexing a constant array of nonzero size gets `index` set to that size; any other deref leaves the usage map unchanged |
| SizeInfo.IndexIsLastSize | src/init.py:541-544 | as written the `index` entry is the size of the last indexed constant array, even after a larger one |
| SizeInfo.SizeWordInIff | src/init.py:577-581 | a size name matches when some word of `sizematch` occurs in it, lower-cased, with the pointer member's name removed |
| SizeInfo.HasSizeWord | src/init.py:577-581 | the loop over the match words with its `break` decides exactly that some word matches |
| SizeInfo.MatchesBelowIff | src/init.py:569-580 | the filtered range holds exactly the positions below the bound that satisfy the test, in increasing order |
| SizeInfo.NameSizesUpToIff | src/init.py:569-580 | the candidates are exactly the integer-typed members whose name contains the member's name and a size word, in member order |
| SizeInfo.CheckNameSize | src/init.py:570-580 | the loop body decides exactly whether one member is a size candidate |
| SizeInfo.CollectNameSizes | src/init.py:569-580 | the loop over the members collects exactly the candidates |
| SizeInfo.NameStep | src/init.py:554-587 | only a pointer-like member's entry can change; an entry whose `name_size` is already set is kept; every other entry stays |
| SizeInfo.FuncsEvidenceExtends | src/init.py:413-544 | the deref pass never drops a record, never resizes one, and never lowers a `value` or removes a collected pair |
| SizeInfo.TypesEvidenceExtends | src/init.py:546-587 | the name pass only adds as well |
| SizeInfo.NamesKeepNamedEntries | src/init.py:564 | an entry whose `name_size` is set is never recomputed by the name heuristic |
| SizeInfo.SizeInference.constructor | src/init.py:56-79 | inference starts with an empty usage map and the eight size words |
| SizeInfo.SizeInference.AddDerefEvidence | src/init.py:416-544 | the usage map after one array deref is its pointer evidence followed by its index evidence |
| SizeInfo.SizeInference.AddNameEvidence | src/init.py:554-587 | the usage map after one member is the name heuristic applied to it |
| SizeInfo.SizeInference.AddFunctionEvidence | src/init.py:413-544 | the usage map after one function is the evidence of its derefs in order |
| SizeInfo.SizeInference.AddRecordNames | src/init.py:554-587 | the usage map after one record is the name heuristic over all its members in order |
| SizeInfo.SizeInference.GenerateMemberSizeInfo | src/init.py:410-587 | the usage map is the deref evidence of every function followed by the name evidence of every record, and extends the old one |
| MembersOrder.SingleOf | src/init.py:235-238 | a pair set yields its member exactly when it holds a single pair and that pair belongs to the record being ordered |
| MembersOrder.Confirmed | src/init.py:235-249 | a member is confirmed exactly when the single index or size pair names it and it is one of the name candidates |
| MembersOrder.FindConfirmed | src/init.py:236-241 | the loop over the name candidates with its `break` finds exactly the confirmed member |
| MembersOrder.Choose | src/init.py:225-327 | name candidates take precedence (a single one or the confirmed one, otherwise all of them), then a single index pair, then a single size pair of this record, then a non-zero constant size taken in absolute value; no choice exactly when none of these applies |
| MembersOrder.ChooseSizeMember | src/init.py:225-327 | the source's branches, in their order, make exactly that choice |
| MembersOrder.MaxVal | src/init.py:258-266 | a size member's upper bound is the positive `value` evidence when there is one and `array_init_max_size` otherwise, hence at least 1 |
| MembersOrder.ApplyChoice | src/init.py:250-327 | the chosen size member's constraints are replaced by its range, the current member records its size member or constant size, and no other member's constraints change |
| MembersOrder.SizeMembers | src/init.py:267-319 | the members to initialise first are the chosen size member, or all name candidates, or none |
| MembersOrder.Exchange | src/init.py:334-335 | two positions of the order exchange their entries and the rest stay |
| MembersOrder.ExchangePermutes | src/init.py:329-338 | exchanging two positions keeps the order a permutation |
| MembersOrder.Swaps | src/init.py:329-338 | the swap loop keeps the length of the order |
| MembersOrder.SwapsPermutes | src/init.py:329-338 | the corrected swap loop never loses or duplicates a member |
| MembersOrder.SingleSwap | src/init.py:329-338 | a single size member after the current one, both in place, exchanges the two positions |
| MembersOrder.NoBackwardSwap | src/init.py:332 | a size member at or before the current member changes nothing |
| MembersOrder.SwapSizeMembers | src/init.py:329-338 | the loop method computes exactly the swap loop |
| MembersOrder.SwapsAsWritten | src/init.py:329-338 | the swap loop as written also keeps the length of the order |
| MembersOrder.SwapAsWrittenAgrees | src/init.py:334-335 | while both positions hold their own indices the written assignments are an exchange |
| MembersOrder.SwapAsWrittenLosesMember | src/init.py:329-338 | two members sharing a later size member: as written the order becomes `[2, 2, 1]`, losing member 0; the exchange gives the permutation `[2, 0, 1]` |
| MembersOrder.IndexLimit | src/init.py:340-352 | `index` evidence sets `max_val` to `index - 1` and `min_val` to 0 unless a tighter bound is present, and touches no other member |
| MembersOrder.Identity | src/init.py:201 | the initial order lists the members in declaration order |
| MembersOrder.NoConstraints | src/init.py:202 | one empty constraint dictionary per member |
| MembersOrder.PlanStep | src/init.py:210-352 | one member's pass keeps the sizes, keeps the order a permutation, and does nothing for a skipped, unused or evidence-free member |
| MembersOrder.PlanUpTo | src/init.py:210-352 | whatever the evidence, the order after the loop is a permutation of the members |
| MembersOrder.PlanUpToUnconsidered | src/init.py:213-222 | members that are placeholders, not in use or without evidence keep the identity order and no constraints |
| MembersOrder.GetMembersOrder | src/init.py:196-354 | None exactly for a non-record; identity and no constraints without evidence; otherwise the loop's plan, whose order is a permutation of the members |
| MembersOrder.ConstraintsCheck | src/init.py:180-191 | the lower check (when `min_val` is present) comes before the upper check (when `max_val` is present), and there is no other check |
| MembersOrder.CRem | src/init.py:188 | C's `%=` on non-negative operands leaves a remainder below the divisor |
| MembersOrder.WrapInRange | src/init.py:186-190 | a value above the upper bound is wrapped to `value % max + 1`, which lies between 1 and the bound |
| MembersOrder.ClampInRange | src/init.py:180-191 | with a positive `max_val` the checked value never exceeds it, and a lower bound of at most 1 still holds afterwards |
| MembersOrder.SizeMemberClamp | src/init.py:257-266 | a size member's value ends up between 1 and its upper bound |
| MembersOrder.ZeroBoundDividesByZero | src/init.py:186-189 | a `max_val` of 0 makes the emitted check divide by zero for every positive value |
| VarInit.FuseCheck | src/init.py:712-722 | without a fuse there is no limit; otherwise the fuse is incremented, generation goes on exactly while it stays within `MAX_RECURSION_DEPTH`, and giving up returns a comment or raises as the ignore flag says |
| VarInit.NestedDepth | src/init.py:712-722 | nested calls from a fuse within the limit go on exactly until the fuse reaches the maximum depth, and the fuse then counts the nesting |
| VarInit.SplitLastName | src/init.py:816-835 | base, separator and member name concatenate back to the name; the separator is `.`, `->` or nothing, and without one the whole name is the member name |
| VarInit.SplitOffset | src/init.py:816-827 | the split happens after the last `.` and the last `->` of the name |
| VarInit.SplitLastNameMember | src/init.py:816-835 | the member name holds neither a `.` nor a `->` |
| VarInit.ArrayLoop | src/init.py:788-973 | the variable is an array exactly when it is a constant array, an incomplete array or a pointer; a constant array loops over its byte size divided by the element's byte size (floor), an empty incomplete array over one element, a count of 0 becomes 1; a pointer (one that did not end early) or a non-empty incomplete array loops over the given `count`, or `ptr_init_size` (1) without one; any other type is no array and keeps a loop count of 0 |
| VarInit.StubBaseClean | src/init.py:898-906 | a stub name is `aotstub_` followed by a non-empty token with no separator, bracket, parenthesis, star or white space |
| VarInit.CleanRemoves | src/init.py:898-904 | the replacements leave no `.`, `[`, `]`, `(`, `)` or `*` in the name |
| VarInit.TokenChars | src/init.py:906 | the last white-space-separated token holds only characters of the string and no white space |
| VarInit.SuffixedInjective | src/init.py:911-914 | different suffixes give different stub names |
| VarInit.SuffixesTakenBound | src/init.py:911-913 | the suffix search stops: every suffix it passes is a name already taken, so it passes at most as many suffixes as there are names |
| VarInit.NameState.constructor | src/init.py:56-79 | no stub name is handed out and the tag counter is 0 |
| VarInit.NameState.UniqueStubName | src/init.py:908-915 | the name handed out is new: the base itself when it is free, otherwise the base with the least free suffix; it is recorded and nothing else changes |
| VarInit.TaggedNameInjective | src/init.py:695-697 | different counter values give different tags |
| VarInit.NameState.NextTaggedName | src/init.py:695-697 | the counter is incremented and the tag carries its new value; the stub names stay |
| VarInit.BackReference | src/init.py:932-941 | a `prev`/`next` member points back at the containing object, a `pprev` member at that object's `next` field, each through `->` or `&` as the separator demands |
| VarInit.BackReferenceIsPrefix | src/init.py:932-935 | a `prev`/`next` member reached through `->` is set to the object the name's prefix denotes |
| VarInit.PointerEarlyExit | src/init.py:872-943 | a pointer to a function becomes a stub; a pointer to an object already being initialised (seen twice, a `prev`/`next`, or a `pprev` to a seen type) breaks the cycle with a back reference; anything else goes on |
| VarInit.FirstMatch | src/init.py:1076-1081 | the scan finds the first candidate with the edge's type and member chains, or -1 exactly when there is none |
| VarInit.Matched | src/init.py:1074-1081 | `to_process` holds exactly the object's edges that match some candidate, in edge order |
| VarInit.KeepIndices | src/init.py:1074-1081 | as written `to_keep` is reset for every edge, so it holds at most one position, and that one is a valid candidate position |
| VarInit.Select | src/init.py:1089-1090 | the kept candidates are taken at the kept positions, in that order |
| VarInit.Kept | src/init.py:1082-1091 | the reduced candidates are always among the original ones |
| VarInit.Finals | src/init.py:1096-1109 | the work list ends with edges whose target object has no `offsetof` edges of its own |
| VarInit.FinalsFromGraph | src/init.py:1096-1109 | every final edge is one the walk started from or an `offsetof` edge of some object in the graph |
| VarInit.NoneIfEmpty | src/init.py:1114-1115 | an empty candidate list becomes None, any other is kept |
| VarInit.ReduceFinal | src/init.py:1066-1116 | the final objects have no `offsetof` edges, no candidate list is ever empty, and no candidates in means none out |
| VarInit.ReduceNoMatch | src/init.py:1066-1116 | when no edge of the object matches a candidate, no candidates and no final objects are left |
| VarInit.ReduceOffsetTypes | src/init.py:1066-1116 | the source's loops compute exactly the reduction |
| VarInit.ScanEdges | src/init.py:1074-1081 | the edge-scan loop computes exactly `to_process` and `to_keep` |
| VarInit.FirstMatchLoop | src/init.py:1076-1081 | the inner loop with its `break` finds exactly the first match |
| VarInit.SelectKept | src/init.py:1089-1090 | the selection loop computes exactly the kept candidates |
| VarInit.WorkList | src/init.py:1096-1109 | the work-list loop computes exactly the final chains and objects |
| VarInit.MaxCastSize | src/init.py:1332-1345 | the largest size is at least the object's own and every cast target's, and is one of them |
| VarInit.LargestCast | src/init.py:1332-1345 | the loop over `cast_types` computes exactly that maximum |
| VarInit.CastMultiplier | src/init.py:1327-1357 | a multiplier exists exactly when some cast target is larger than the object; for a 0-size object it is enough bytes for every target, otherwise enough elements for every target |
| VarInit.Slack | src/init.py:1362-1370 | a fuzzed `char` buffer gets 32 extra elements and a fuzzed `void` buffer 128, and only when not user-initialised and not NUL-terminated |
| VarInit.AllocCount | src/init.py:1372-1374 | the slack is added to the loop count only when no explicit count was given |
| VarInit.TerminatorPlacement | src/init.py:1362-1397 | at most one terminating zero is written, exactly when there is slack or NUL termination; with slack and no explicit count it lies at least 31 elements past the initialised ones, otherwise it is the last initialised element |
| VarInit.UsedBitfields | src/init.py:1725-1729 | the bitfields kept are exactly those whose member is in use, in the type's order |
| VarInit.CollectBitfields | src/init.py:1725-1729 | the loop computes exactly the used bitfields |

## Left out

- Logging, the debug printers `_print_member_size_info` and `_debug_print_typeuse_obj`, and the `aot_recursion_error.txt` write: these are output only. VarInit.FuseCheck models the depth check and the choice between returning a comment and raising.
- The C text `_generate_var_init` emits is not modelled. This covers format strings, indentation prefixes and commented-out variants. Each decision is modelled as the value the text is built from (loop count, stub name, back reference, multiplier, slack, bitfields, constraints).
- The rest of `_generate_var_init` is not modelled: the recursive member-by-member initialisation, the user-override parsing of the JSON init spec (lines 985-1053 and 1505-1574) with its `sys.exit`, and the `known_type_names` record_forward exit at line 944.
- `codegen._get_typename_from_type`, `codegen._generate_function_stub` and `cutoff.internal_funcs` are not part of this model. A type's name is its `str` field.
- `dbops` and `deps` are not part of this model. Their lookups are `Db` fields. A type id the database lacks reads as a placeholder type, and an id with no typedef or real-type entry maps to itself.
- Out-of-range list indices and missing dict keys on malformed input raise IndexError or KeyError in Python. A `next(...)` search with no match raises StopIteration, as the `csmap` lookup at lines 465-466 does (SizeInfo.ControlOf). The model reads a neutral default or None instead (`Basics.At`, `Basics.Last`, `Ir.TypeOf`, SizeInfo.ControlOf). Well-formed input never meets this case.
- TypePredicates.ResolveRecordType, TypePredicates.ToFuzz and TypePredicates.ArrayBase take a `fuel` bound. On a cyclic typedef chain the source recursion never ends (Python raises RecursionError). The model returns an out-of-fuel result, and ResolveFuelMonotone shows that more fuel never changes a found answer.
- VarInit.Finals, VarInit.WorkList and VarInit.ReduceOffsetTypes take at most `fuel` edges off the work list. On a cyclic `offsetof` graph the source's `while to_process` loop never ends.
- Python sets (`member_idx`, `member_size`, `stub_names`) are lists without repetitions or Dafny sets. The source tests membership in them, counts them, or (lines 236-250) stops at the one candidate equal to a fixed index, so their order is never observed.
- SizeMembers: the `name_size` candidates are returned in the order the usage data lists them. At line 331 the source walks the Python set, whose CPython order is hash-slot order. That order differs from index order once indices reach the table size (8 for small sets), and then different positions are exchanged. For example, candidates {3, 9} of member 1 are walked as 9 then 3, so only positions 1 and 9 are exchanged.
- GetMembersOrder: it inherits the candidate order of SizeMembers. It also runs the corrected `Swaps` (third Findings row), not the code as written.
- Aggregation.Analysis.DiscoverCasts takes the functions of the scope as a sequence in the caller's order. The source iterates a Python set there (line 3314), whose order fixes the insertion order of `casted_pointers`; that set order is not modelled.
- TypeUses.MatchObjToType, TypeUses.Retargeted and TypeUses.ParseDerefsTrace run the corrected `PromoteKey` (first Findings row). The code as written raises there, and TypeUses.PromoteKeyAsWritten shows when.
- TypeUses.ParseDerefsTrace reports the corrected pair `(t_id, base_obj)` (second Findings row). TypeUses.ReportedPairAsWritten and TypeUses.ReportedPairRebound model the rebound `t_id` the code as written reports.
- Ir.Deref: `ord` is always a list. The source also accepts a bare integer at lines 2000-2003, and the passes then raise TypeError at `for o in dst_deref["ord"]` (lines 2057-2060 and 2333-2334). Only the callref pass normalises it (lines 2119-2120). That TypeError path is not modelled.
- Aggregation.Overlay drops a `usedrefs` mark beyond the end of the stored list, where the source's write would raise IndexError.
- `Basics.Dict` keeps Python's insertion order. Its key/map agreement (`DictInv`) is a predicate that lemmas preserve, not a type invariant.
- Strings.Lower, Strings.LastToken and VarInit.StubBaseClean cover ASCII letters and ASCII white space only (space, `\t` to `\r`, and the separators `\x1c` to `\x1f`). Python's `lower()` and `split()` also handle the rest of Unicode.
- MembersOrder.CRem and MembersOrder.WrapInRange use unbounded integers. The width of the C variable the emitted check applies to is not modelled.
- These quirks are modelled as written:
  - The `size_member_index not in size_constraints` tests at lines 254, 280 and 304, and the `min_val` test at line 351, compare a number with a list of dicts. They are always true, so the size member's dict is always reset and `min_val = 0` is always set.
  - Line 544 overwrites `index` with the last size (SizeInfo.IndexIsLastSize).
  - Lines 2849-2851 compare each used-members key with the stale outer `obj`. They raise when `obj` was never bound, or when they add the record's key while iterating (TypeUses.PromotionRaises, TypeUses.NewMemberCreates).
  - `to_keep` is reset for every edge at line 1075 (VarInit.KeepIndices).
  - The third repair pass does not reset `inserts_num` (Trace.MemberPass).
- Trace.MoveBackward: a repair move whose target lies behind the moved item duplicates that item and drops its neighbour, as the source's insert-then-delete does. Only forward moves are proved to permute the trace.
- `copy.deepcopy` needs no model: Dafny values are immutable. The `args` flags are fixed boolean parameters. The source uses no floating point and no concurrency.
- The commented-out code (`_analyze_types` lines 90-134, the reorder passes at 2235-2306 and 2354-2396) is not modelled. Neither is the unused `_find_local_init_or_assign`.

## Findings

| source | as written | input that shows it | evidently intended | confidence | as-written member | corrected member |
|---|---|---|---|---|---|---|
| src/init.py:2504-2506 | `used_members[t_id] = used_members[k]` inside `for k in used_members.keys()` adds a key while the dict is being iterated | an object created as a record_forward (id 5) with used members only under 5, matched to its record 7: Python raises "dictionary changed size during iteration" | the entry of the forward id is copied under the record id | not executed | TypeUses.PromoteKeyAsWritten, TypeUses.PromoteKeyRaises | TypeUses.PromoteKey |
| src/init.py:2542-2865 | `ret_val.append((t_id, base_obj))` reads `t_id` after the inner `for t_id in access_order` (line 2801) has rebound it | a parameter of type A whose trace follows a member of record B: the pair reported is (B, base object of A) | the pair of the parameter type and its base object | not executed | TypeUses.ReportedPairAsWritten, TypeUses.ReportedPairRebound | TypeUses.ParseDerefsTrace |
| src/init.py:329-338 | the swap writes `ret[current_index] = sm_index; ret[sm_index] = current_index`, which is an exchange only while both positions still hold their own index | a three-member record whose members 0 and 1 both have size member 2: the order becomes `[2, 2, 1]`, so member 0 is never initialised and member 2 twice | exchange the two entries so the order stays a permutation | not executed | MembersOrder.SwapsAsWritten, MembersOrder.SwapAsWrittenLosesMember | MembersOrder.Swaps, MembersOrder.SwapsPermutes |
