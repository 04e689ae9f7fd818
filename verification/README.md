# A Dafny model of Boost.Interprocess

Boost.Interprocess shares memory between processes: it maps files and shared memory, builds C++ objects
inside the mapped segment, finds them by name from other processes, points between them with pointers that
survive being mapped at different addresses, and gives every module of a process the same singleton objects.
This project models the parts of it whose correctness is hardest to see from the code and proves what they
promise, for every input, every run or every reachable state.

| file | models |
|---|---|
| `Singleton.dfy`, `SingletonInvariant.dfy`, `SingletonObjects.dfy`, `SingletonTheorems.dfy`, `SingletonProgress.dfy`, `SingletonExamples.dfy` | the intermodule singleton protocol: a state machine of any number of modules, threads and types, its invariant layer by layer, its guarantees over every run, what its calls achieve, and runs that show its limits |
| `OpenOrCreate.dfy`, `OpenOrCreateProgress.dfy` | the race of processes that create, open and remove one managed segment: its safety, and what each call achieves |
| `BlockLayout.dfy` | the memory layout of a constructed object: headers, values, name |
| `Registry.dfy`, `SegmentManager.dfy` | the registry of named, unique and anonymous objects: what it promises over every run, and the code with its rollbacks |
| `Options.dfy`, `Words.dfy`, `OffsetPtr.dfy`, `TaggedPtr.dfy`, `Relocation.dfy` | optional values; unsigned words of any width; `offset_ptr`; tag bits inside it; copying a segment of pointers to another base, and `managed_heap_memory::grow` |
| `MappedRegion.dfy` | page arithmetic of `mapped_region`: map, shrink from both ends, flush, close |
| `MathFunctions.dfy` | `gcd`, `lcm`, `log2_ceil`, `upper_power_of_2`, `floor_log2` |
| `BoundedBuffer.dfy` | the producer and consumer of the semaphore example |
| `LockFileNames.dfy` | the names stamped with pid and creation time, and reading them back |

Code that changes objects step by step is a class or a method proved against a specification function; a
protocol between threads or processes is a state machine whose steps are the atomic operations of the code.
The environment (which descriptor, buffer or address the system returns, who throws, who is scheduled) is a
parameter of a step, so the statements hold for all of it.

Where the code does not keep a property one would expect, the model keeps the code and states exactly when the
property holds:

- The last module to detach unlinks the shared map exactly when the lock file's descriptor is positive: the
  code asks for `fd > 0` (`SingletonTheorems.UnlinkedByLast`). An instance whose lock file got descriptor 0 stays
  linked for ever (`SingletonTheorems.ZeroStaysLinked`), and there is a run in which that happens
  (`SingletonExamples.ZeroDescriptorHappens`).
- The assertion at the end of `initialize_singleton_logic` holds exactly for calls that saw Initialized: a waiter
  whose winner failed returns with a null pointer (`SingletonTheorems.ReturnedPointer`,
  `SingletonExamples.BrokenReturnHappens`).
- An exception while the map is opened leaves the module's map word at Initializing for ever: no thread of the
  module uses the map again (`SingletonProgress.StuckForEver`, `SingletonExamples.StuckHappens`).
- While a module's word is Initialized its pointer is good exactly when no finalizer has nulled it and, once a
  finalizer has released the singleton, another module still holds the same object
  (`SingletonTheorems.InitializedPointer`). A finalizer that deleted nothing can leave its module's pointer at an
  object that another module deletes (`SingletonExamples.TwoHolders`, `SingletonExamples.DanglingPointerHappens`).
- An opener that finds the word already initialized keeps the size it mapped, which is the creator's full size
  exactly when the creator was not in the middle of truncating a file at that time (`OpenOrCreate.MappedSize`,
  `OpenOrCreate.PartialMappingHappens`).
- An opener that meets no error throws only on an aborted device or when it sees a file of one byte, which a
  creator in the middle of truncating may show too (`OpenOrCreateProgress.OpenerThrows`).
- A back shrink always leaves the right pages mapped but reports failure exactly when it gives no page up and the
  end of the region is not page aligned (`MappedRegion.ShrinkReports`, `MappedRegion.FailsAfterShrinking`); a mapping whose
  page offset plus size exceeds `size_t` maps less than the region claims, and an address asked for that equals
  the page offset is not checked (`MappedRegion.Region.Map`, `MappedRegion.WrappedMappingHappens`); a flush that does not start on a page boundary of
  the mapping fails (`MappedRegion.Region.Flush`).
- A block header keeps only the low w-2 bits of the size of its values and the low 16 bits of the length of its
  name. The registry stays consistent exactly when that size is below 2^(w-2) and, for an intrusive index, the
  name is shorter than 2^16, although the overflow check of `generic_construct` lets larger arrays pass
  (`BlockLayout.NamedLayout`, `Registry.AddedValid`, `Registry.OversizedArrayHappens`,
  `Registry.FoundAfterConstruct`, `SegmentManager.Manager.GenericConstruct`).
- An exception from incrementing the argument iterators, unlike one from a constructor, leaves the object just
  built undestroyed when its memory is given back (`SegmentManager.Manager.ConstructN`,
  `SegmentManager.Manager.Rollback`).
- `managed_heap_memory::grow` adds sizes without a check: the grown segment is a copy of the old one exactly when
  the sum does not wrap, and otherwise the copy overruns the new block (`Relocation.HeapMemory.Grow`,
  `Relocation.WrappingGrowHappens`).
- An `offset_ptr` holds every target but the address right after its own (`OffsetPtr.StoredPointer`); a plain
  copy of a null with tag bits reads as null exactly when the tag is zero (`TaggedPtr.PlainCopyOfNull`).
- `upper_power_of_2` and `log2_ceil` end exactly for arguments up to 2^(w-1) (`MathFunctions.LoopEnds`).
- The cleaner rebuilds the map name of a process exactly from that process's lock file name; every other file
  name, such as one without `_`, sends it to a segment that no process owns (`LockFileNames.CleanedMap`).

`dafny verify dfyconfig.toml` checks the whole project.

## Model

| member | source | states |
|---|---|---|
| `SingletonTheorems.StepInv` | include/boost/interprocess/detail/intermodule_singleton_common.hpp:101-282 | every step of every thread and finalizer keeps the invariant that ties words, owners, counts, map instances, entries and objects together |
| `SingletonTheorems.RunInv` | include/boost/interprocess/detail/intermodule_singleton_common.hpp:101-282 | the invariant holds in every state of every run |
| `SingletonTheorems.OneInitializer` | include/boost/interprocess/detail/intermodule_singleton_common.hpp:105-153 | at most one thread of a module is between winning the CAS and writing Initialized or Broken, and the word is Initializing meanwhile |
| `SingletonTheorems.SpinIsSafe` | include/boost/interprocess/detail/intermodule_singleton_common.hpp:156-172 | a spinning thread never meets the word the code asserts it cannot meet |
| `SingletonTheorems.WordTransitions` | include/boost/interprocess/detail/intermodule_singleton_common.hpp:101-209 | in every run the word moves only Uninitialized, Initializing, then Initialized or Broken, Initialized to Destroyed, and Destroyed to Uninitialized for Phoenix types only |
| `SingletonTheorems.BrokenIsFinal` | include/boost/interprocess/detail/intermodule_singleton_common.hpp:148-152 | a word that became Broken stays Broken for the rest of the run |
| `SingletonTheorems.ReturnedPointer` | include/boost/interprocess/detail/intermodule_singleton_common.hpp:156-182 | a call that returns has seen Initialized or Broken, and the final assertion that the pointer is not null holds exactly when it saw Initialized |
| `SingletonExamples.BrokenReturnHappens` | include/boost/interprocess/detail/intermodule_singleton_common.hpp:148-182 | a run in which a waiting call returns having seen Broken, with a null pointer |
| `SingletonTheorems.InitializedPointer` | include/boost/interprocess/detail/intermodule_singleton_common.hpp:130-209 | while the word is Initialized the module pointer is null exactly when a finalizer nulled it, and is the live entry's pointer exactly when it is not null and, after the finalizing functor, some other module holds the same object |
| `SingletonExamples.TwoHolders` | include/boost/interprocess/detail/intermodule_singleton_common.hpp:185-198 | when the first of two holders releases a singleton its pointer stays good, and when the second does the first is left pointing to the deleted object |
| `SingletonExamples.DanglingPointerHappens` | include/boost/interprocess/detail/intermodule_singleton_common.hpp:185-198 | a run that reaches an Initialized word whose non-null pointer is to a deleted object |
| `SingletonTheorems.FunctorsNeverFail` | include/boost/interprocess/detail/intermodule_singleton_common.hpp:445-463 | the assertions of the finalizing functor hold in every run: the entry exists, is counted and holds the module's pointer |
| `SingletonTheorems.AttachCount` | include/boost/interprocess/detail/portable_intermodule_singleton.hpp:201-324 | the attach count of an instance is the number of attached modules, all attached modules use the linked instance, and an instance was unlinked once if it is not linked and never otherwise |
| `SingletonTheorems.UnlinkedByLast` | include/boost/interprocess/detail/portable_intermodule_singleton.hpp:302-320 | only the last detaching module unlinks an instance of this process, and it does so exactly when the lock file's descriptor is positive |
| `SingletonTheorems.ZeroStaysLinked` | include/boost/interprocess/detail/portable_intermodule_singleton.hpp:308-319 | an instance whose lock file has descriptor zero stays locked and linked for the rest of every run |
| `SingletonExamples.ZeroDescriptorHappens` | include/boost/interprocess/detail/portable_intermodule_singleton.hpp:302-320 | a run in which the last module detaches and the instance stays linked |
| `SingletonTheorems.MarkedForEver` | include/boost/interprocess/detail/portable_intermodule_singleton.hpp:246-265 | the mark for removal is never taken back |
| `SingletonTheorems.NoAttachAfterUnlink` | include/boost/interprocess/detail/portable_intermodule_singleton.hpp:246-271 | after its unlink an instance stays marked, no module is ever attached to it, and lock_file_logic on it asks for a retry and changes nothing |
| `SingletonTheorems.ReferenceCount` | include/boost/interprocess/detail/intermodule_singleton_common.hpp:399-467 | a type has an entry exactly when some module holds it, and its reference count is the number of modules that attached and did not finalize since, resurrection included |
| `SingletonTheorems.OneObjectPerType` | include/boost/interprocess/detail/intermodule_singleton_common.hpp:405-428 | the objects alive are exactly those of the entries, and different types have different objects |
| `SingletonTheorems.DeletedByLast` | include/boost/interprocess/detail/intermodule_singleton_common.hpp:445-463 | an object is deleted only by the finalizer of the last module that holds its type, which still has its word Initialized and its pointer set then |
| `SingletonTheorems.CreatedByFirst` | include/boost/interprocess/detail/intermodule_singleton_common.hpp:405-428 | an object is created only by the functor of a thread that finds no entry for its type, when no module holds the type, and that thread has it in its hands afterwards |
| `SingletonProgress.FailNeedsThrow` | include/boost/interprocess/detail/intermodule_singleton_common.hpp:125-153 | a thread gives up its initialization only because something threw |
| `SingletonProgress.ThrewBecause` | include/boost/interprocess/detail/intermodule_singleton_common.hpp:112-124 | a call throws because its own initialization failed and left Broken, because it found Broken, or because it found a destroyed singleton that is no Phoenix |
| `SingletonProgress.AloneReturns` | include/boost/interprocess/detail/intermodule_singleton_common.hpp:101-266 | left alone and unobstructed, a call returns within forty steps having seen Initialized, with a good pointer unless a finalizer of its module is at work: first and later types, destroyed Phoenixes and instances left by older processes included |
| `SingletonProgress.CallWorks` | include/boost/interprocess/detail/intermodule_singleton_common.hpp:101-183 | a call for a singleton that exists, is new, or is a destroyed Phoenix is such a call |
| `SingletonProgress.FinalizeWorks` | include/boost/interprocess/detail/intermodule_singleton_common.hpp:185-282 | a finalizer left alone ends within six steps with the word Destroyed and the pointer null, and detaches the module exactly when it released the module's last singleton |
| `SingletonProgress.PhoenixRises` | include/boost/interprocess/detail/intermodule_singleton_common.hpp:112-119 | after the finalizer of a Phoenix singleton a call left alone returns with a good pointer again |
| `SingletonProgress.StuckForEver` | include/boost/interprocess/detail/intermodule_singleton_common.hpp:217-265 | a map word that an exception left at Initializing stays so for the rest of the run, and no thread of the module uses the map again |
| `SingletonProgress.ThrowAbandons` | include/boost/interprocess/detail/intermodule_singleton_common.hpp:260-263 | an exception while the map is opened leaves the map word so |
| `SingletonExamples.StuckHappens` | include/boost/interprocess/detail/intermodule_singleton_common.hpp:260-263 | a run in which that happens |
| `SingletonExamples.SecondTypeHappens` | include/boost/interprocess/detail/intermodule_singleton_common.hpp:223-226 | a run in which a module that has a singleton gets one of another type |
| `SingletonExamples.PhoenixHappens` | include/boost/interprocess/detail/intermodule_singleton_common.hpp:112-119 | a run in which a Phoenix singleton is constructed, finalized and constructed again |
| `OpenOrCreate.StepInv` | include/boost/interprocess/detail/managed_open_or_create_impl.hpp:296-467 | every step of every process, failure and name removal keeps the invariant of devices and processes |
| `OpenOrCreate.DeviceHistory` | include/boost/interprocess/detail/managed_open_or_create_impl.hpp:351-393 | a device keeps its creator and requested size for ever, and an aborted or published creation stays so |
| `OpenOrCreate.OpenAfterConstruct` | include/boost/interprocess/detail/managed_open_or_create_impl.hpp:351-467 | a process reaches construct_func(..., false) on a device only after its creator's construct_func returned |
| `OpenOrCreate.AbortedNeverOpens` | include/boost/interprocess/detail/managed_open_or_create_impl.hpp:372-467 | a device whose creation aborted is never opened successfully, before or after |
| `OpenOrCreate.OneConstructor` | include/boost/interprocess/detail/managed_open_or_create_impl.hpp:363-382 | at most one process runs construct_func(..., true) on a device, its exclusive creator, and its CAS finds the word uninitialized |
| `OpenOrCreate.PolledSeesFullSize` | include/boost/interprocess/detail/managed_open_or_create_impl.hpp:439-467 | an opener that once read another word than Initialized ends with the creator's full size mapped |
| `OpenOrCreate.OneStepSeesFullSize` | include/boost/interprocess/detail/managed_open_or_create_impl.hpp:403-467 | if truncation shows in one step, or the device is not file-like, every successful opener has the full size |
| `OpenOrCreate.MappedSize` | include/boost/interprocess/detail/managed_open_or_create_impl.hpp:403-462 | an opener that did not poll has the full size exactly when, at the time it mapped the device, the creator was not truncating a file-like device |
| `OpenOrCreate.PartialMappingHappens` | include/boost/interprocess/detail/managed_open_or_create_impl.hpp:403-467 | a run in which an opener succeeds with half of the segment mapped |
| `OpenOrCreate.BoundedAttempts` | include/boost/interprocess/detail/managed_open_or_create_impl.hpp:307-347 | in the race no process goes beyond MaxCreateOrOpenTries creation attempts |
| `OpenOrCreate.CreateElseOpen` | include/boost/interprocess/detail/managed_open_or_create_impl.hpp:296-348 | the retry loop ends within the bound, and creates, opens, rethrows or gives up exactly as the first decisive answer says |
| `OpenOrCreateProgress.BeginThrows` | include/boost/interprocess/detail/managed_open_or_create_impl.hpp:478-489 | a call throws at once exactly when it may create and its size is too small, overflows with the offset, or does not survive the cast to offset_t |
| `OpenOrCreateProgress.OpenerThrows` | include/boost/interprocess/detail/managed_open_or_create_impl.hpp:403-467 | without error or timeout an opener throws only on an aborted device, or on a file of one byte |
| `OpenOrCreateProgress.TryThrows` | include/boost/interprocess/detail/managed_open_or_create_impl.hpp:309-347 | without error a process gives up exactly when the name exists and it may not open or has used up its attempts, or when there is no name and it may not create |
| `OpenOrCreateProgress.CreatorAborts` | include/boost/interprocess/detail/managed_open_or_create_impl.hpp:355-392 | a creator aborts only after an error |
| `OpenOrCreateProgress.AloneFinishes` | include/boost/interprocess/detail/managed_open_or_create_impl.hpp:296-467 | left alone, a process with a free name or a published segment creates or opens that very device at its full size, wholly mapped when it polled or held no smaller mapping |
| `OpenOrCreateProgress.CallWorks` | include/boost/interprocess/detail/managed_open_or_create_impl.hpp:470-520 | create_only on a free name, open_only on a published segment and open_or_create on either are such processes |
| `OpenOrCreateProgress.RunSignalled` | include/boost/interprocess/detail/managed_open_or_create_impl.hpp:372-392 | an aborted construction is marked Corrupted or its file cut to one byte as soon as its creator has taken one more step |
| `OpenOrCreateProgress.AbortCuts` | include/boost/interprocess/detail/managed_open_or_create_impl.hpp:383-391 | an aborting creator cuts a file-like device to one byte, and whoever waits for it then throws |
| `OpenOrCreateProgress.CorruptedThrows` | include/boost/interprocess/detail/managed_open_or_create_impl.hpp:439-453 | left alone, an opener of a device marked Corrupted throws |
| `OpenOrCreateProgress.PolledOpenHappens` | include/boost/interprocess/detail/managed_open_or_create_impl.hpp:439-467 | a run in which an opener polls, maps again and opens the whole segment |
| `OpenOrCreateProgress.ExistingOpenHappens` | include/boost/interprocess/detail/managed_open_or_create_impl.hpp:326-330 | a run in which open_or_create opens a segment that exists |
| `BlockLayout.RoundedByCode` | include/boost/interprocess/detail/utilities.hpp:53-57 | rounding in wrapping size_t gives the least multiple of the power of two, for zero too |
| `BlockLayout.RoundedLeast` | include/boost/interprocess/detail/utilities.hpp:53-57 | no smaller multiple is at least the number rounded |
| `BlockLayout.RoundingsByCode` | include/boost/interprocess/detail/segment_manager_helper.hpp:220-400 | every rounding of the layout stays in the range where size_t does not wrap |
| `BlockLayout.StoredExactly` | include/boost/interprocess/detail/segment_manager_helper.hpp:266-274 | the block header keeps the size of the values exactly when it is below 2^(w-2) |
| `BlockLayout.HeaderPrefix` | include/boost/interprocess/detail/segment_manager_helper.hpp:220-245 | the static asserts of the offsets with header hold, and the prefix suits index header, block header and values |
| `BlockLayout.BarePrefix` | include/boost/interprocess/detail/segment_manager_helper.hpp:247-255 | without index header the block header in front of the values is aligned |
| `BlockLayout.TailOffsets` | include/boost/interprocess/detail/segment_manager_helper.hpp:388-399 | name length and name come after the values, in order, aligned, with bounded gaps |
| `BlockLayout.TotalExact` | include/boost/interprocess/detail/segment_manager_helper.hpp:285-303 | the computed total does not wrap and ends exactly with the name and its terminator |
| `BlockLayout.NamedLayout` | include/boost/interprocess/detail/segment_manager_helper.hpp:220-400 | all parts of a named block, the name with its terminator included, are aligned, and they are disjoint and inside the total exactly when the values are below 2^(w-2) bytes |
| `BlockLayout.AnonymousLayout` | include/boost/interprocess/detail/segment_manager_helper.hpp:277-283 | an anonymous block is aligned and holds its values exactly when they are below 2^(w-2) bytes |
| `BlockLayout.WalkBack` | include/boost/interprocess/detail/segment_manager_helper.hpp:325-370 | from_first_header and to_first_header, value and block_header_from_value undo each other, and destroy's walk from a value ends at the buffer construct started from |
| `Registry.NewHeader` | include/boost/interprocess/segment_manager.hpp:1045-1087 | a new block header lies inside its buffer, where no block header was, and destroy finds the buffer from it |
| `Registry.ReturnedPointer` | include/boost/interprocess/segment_manager.hpp:1110-1121 | the pointer construct returns is aligned for the type and its whole array lies inside the buffer |
| `Registry.NameFits` | include/boost/interprocess/detail/segment_manager_helper.hpp:285-303 | the buffer of a named or unique block has room for the whole name and its terminator |
| `Registry.EntryInBuffer` | include/boost/interprocess/segment_manager.hpp:973-982 | an intrusive index keeps the index header in the buffer, the others the block header |
| `Registry.NameLengthField` | include/boost/interprocess/detail/segment_manager_helper.hpp:264-265 | the stored length of a name has as many bits as its field |
| `Registry.OutcomeExactly` | include/boost/interprocess/segment_manager.hpp:648-1122 | a call gives a pointer, or each error, or null, exactly from its causes: overflow, index check, name in use, memory, index commit, constructor or increment |
| `Registry.PointerExactly` | include/boost/interprocess/segment_manager.hpp:1033-1120 | the pointer of a successful call is to the block that has the name in use, or into the new buffer |
| `Registry.FindExactly` | include/boost/interprocess/segment_manager.hpp:848-881 | find gives null exactly when no block has the name, and otherwise the values and count of the block that has it |
| `Registry.AddedValid` | include/boost/interprocess/segment_manager.hpp:986-1122 | a new block keeps the registry consistent exactly when its size fits in the header and its name is one the index finds |
| `Registry.RemovedValid` | include/boost/interprocess/segment_manager.hpp:932-971 | removing a block keeps the registry consistent |
| `Registry.DestroyUndoesConstruct` | include/boost/interprocess/segment_manager.hpp:908-1122 | destroying an array by name right after its construction restores index, headers, buffers and live objects exactly when the index finds it under its own name, and otherwise does nothing |
| `Registry.DestroyPtrUndoesConstruct` | include/boost/interprocess/segment_manager.hpp:749-1122 | destroying by the pointer construct returned restores the segment exactly |
| `Registry.OversizedArrayHappens` | include/boost/interprocess/segment_manager.hpp:655-657 | an array of 2^(w-2) bytes that passes the overflow check and leaves the registry inconsistent |
| `Registry.NextValid` | include/boost/interprocess/segment_manager.hpp:648-1122 | every construct, destroy and destroy_ptr, with any failure, keeps the registry consistent |
| `Registry.RunValid` | include/boost/interprocess/segment_manager.hpp:648-1122 | over every run the index holds exactly one entry per named or unique block, no buffer is leaked, and the live objects are those of the blocks |
| `Registry.RunSpares` | include/boost/interprocess/segment_manager.hpp:648-1122 | a run that does not destroy a block leaves it untouched |
| `Registry.FoundUntilDestroyed` | include/boost/interprocess/segment_manager.hpp:849-971 | between construction and destruction, whatever else happens, find gives the constructed pointer and count, and destroy would give back the allocated buffer |
| `Registry.FoundUnder` | include/boost/interprocess/indexes/iset_index.hpp:60-90 | the comparison of an index finds a block under exactly one name, its own exactly when the index is not intrusive or the name is shorter than 2^16 |
| `Registry.FoundAfterConstruct` | include/boost/interprocess/detail/segment_manager_helper.hpp:258-322 | a new array is found under the name it was given exactly when the stored length can hold that name's |
| `SegmentManager.Manager.ConstructN` | include/boost/interprocess/detail/named_proxy.hpp:80-94 | builds all objects, or leaves none of them alive after a constructor throws, or the last one after an increment throws |
| `SegmentManager.Manager.DestroyN` | include/boost/interprocess/segment_manager.hpp:800-805 | destroys exactly the first objects of the array, each of which is alive |
| `SegmentManager.Manager.Rollback` | include/boost/interprocess/detail/segment_manager_helper.hpp:57-74 | after an exception the scoped deallocator restores headers, buffers and live objects, losing an object only after an increment threw |
| `SegmentManager.Manager.GenericConstruct` | include/boost/interprocess/segment_manager.hpp:648-671 | a pointer is returned exactly when size, index, memory and constructors allow it or the name may be found, to the block with that name or to a new block of the requested type and count; without dothrow only a constructor's exception escapes; a call that builds nothing changes nothing; the registry stays consistent exactly when nothing is built or size and name fit |
| `SegmentManager.Manager.PrivAnonymousConstruct` | include/boost/interprocess/segment_manager.hpp:704-746 | result and segment are those of the specification: no memory and a throwing constructor or increment leave index, headers, buffers and live objects as before |
| `SegmentManager.Manager.PrivGenericNamedConstruct` | include/boost/interprocess/segment_manager.hpp:986-1122 | result and segment are those of the specification: a throwing index check or commit, an existing name, no memory and a throwing constructor or increment are each rolled back |
| `SegmentManager.Manager.GenericFind` | include/boost/interprocess/segment_manager.hpp:848-881 | null and zero exactly when no block has the name, else the values of the block that has it and its element count for the matching type |
| `SegmentManager.Manager.NamedDestroyImpl` | include/boost/interprocess/segment_manager.hpp:932-971 | erases the entry, destroys exactly the array and deallocates the address that was allocated for it |
| `SegmentManager.Manager.NamedDestroy` | include/boost/interprocess/segment_manager.hpp:908-930 | false exactly when the name is absent, else the block with that name and its objects are gone |
| `SegmentManager.Manager.PrivDestroyPtr` | include/boost/interprocess/segment_manager.hpp:749-798 | destroys exactly the block of the pointer, for anonymous blocks, node indexes and lookup by the stored name |
| `Words.WrapIsMod` | include/boost/interprocess/offset_ptr.hpp:150-155 | the reduction used for all unsigned arithmetic of the model is the remainder modulo 2^w |
| `OffsetPtr.Branchless` | include/boost/interprocess/offset_ptr.hpp:139-224 | for every word width each masked conversion equals its branching form |
| `OffsetPtr.StoredPointer` | include/boost/interprocess/offset_ptr.hpp:139-190 | a raw pointer reads back as itself exactly when it is null or not the address after the offset_ptr |
| `OffsetPtr.CopiedPointer` | include/boost/interprocess/offset_ptr.hpp:194-224 | a copy has the target of the original exactly when that is null or not the address after the copy |
| `OffsetPtr.MovedPointer` | include/boost/interprocess/offset_ptr.hpp:685-689 | moving a non-null pointer moves its target by the same bytes, with the same exception |
| `OffsetPtr.Pointer.FromRaw` | include/boost/interprocess/offset_ptr.hpp:344-351 | the new pointer has the raw target exactly when it can hold it, and is null exactly when the target is null or cannot be held |
| `OffsetPtr.Pointer.Copy` | include/boost/interprocess/offset_ptr.hpp:353-357 | the copy at another address has the target of the original exactly when it can hold it |
| `OffsetPtr.Pointer.AssignRaw` | include/boost/interprocess/offset_ptr.hpp:460-464 | after the assignment the target is the raw one exactly when it can be held |
| `OffsetPtr.Pointer.Assign` | include/boost/interprocess/offset_ptr.hpp:468-472 | after the assignment the target is the other's old one exactly when it can be held; self-assignment keeps the offset |
| `OffsetPtr.Pointer.IncOffset` | include/boost/interprocess/offset_ptr.hpp:511-518 | the target of a non-null pointer moves by the bytes added exactly when the new target can be held |
| `OffsetPtr.Swap` | include/boost/interprocess/offset_ptr.hpp:664-669 | each pointer ends with the other's target exactly when it can hold it, and self-swap changes nothing |
| `TaggedPtr.Separate` | include/boost/interprocess/offset_ptr.hpp:814-816 | the mask separates an aligned or null offset from its tag, and `or` joins them |
| `TaggedPtr.ReadBack` | include/boost/interprocess/offset_ptr.hpp:825-844 | get_pointer and get_bits give the pointer, null included, and the tag a word stands for |
| `TaggedPtr.LastWriteWins` | include/boost/interprocess/offset_ptr.hpp:801-854 | over any sequence of set_pointer and set_bits the last pointer and the last tag are read |
| `TaggedPtr.PlainCopyOfNull` | include/boost/interprocess/offset_ptr.hpp:819-823 | a plain copy of a tagged null to another aligned address reads as null exactly when the tag is zero, else as the address after the original |
| `TaggedPtr.ReadPointer` | include/boost/interprocess/offset_ptr.hpp:825-831 | the returned pointer has the target of the tagged one |
| `TaggedPtr.WritePointer` | include/boost/interprocess/offset_ptr.hpp:833-839 | the word then stands for the new pointer and the old tag |
| `TaggedPtr.WriteBits` | include/boost/interprocess/offset_ptr.hpp:846-853 | the word then stands for the old pointer and the new tag |
| `Relocation.CopyKeepsGraph` | include/boost/interprocess/offset_ptr.hpp:139-156 | after a bytewise copy of a segment to any base, every chain of dereferences reaches the old address plus the base difference, and null exactly where it was null |
| `Relocation.GrowKeepsObjects` | include/boost/interprocess/managed_heap_memory.hpp:100-136 | in the grown segment every chain from an object named by its handle ends at the object with the same handle, or null, as before |
| `Relocation.ChaseReadsStored` | include/boost/interprocess/offset_ptr.hpp:139-190 | a chain of one dereference reads the target that was stored, null as null |
| `Relocation.ChaseAppend` | include/boost/interprocess/offset_ptr.hpp:425-445 | a longer chain goes on from where its first part leads |
| `Relocation.HandlesAreOffsets` | include/boost/interprocess/detail/managed_memory_impl.hpp:255-273 | an address belongs to the segment exactly when its handle is below the size, and handles and addresses give each other back |
| `Relocation.HeapMemory.Grow` | include/boost/interprocess/managed_heap_memory.hpp:109-136 | the new block is a larger copy of the old, which is freed, and the other blocks are untouched, exactly when the sum of sizes does not wrap; otherwise the copy overruns the new block; a failed allocation changes nothing |
| `Relocation.WrappingGrowHappens` | include/boost/interprocess/managed_heap_memory.hpp:114-127 | a growth that reports success after copying 512 bytes into a block of 256 |
| `MappedRegion.BackPages` | include/boost/interprocess/mapped_region.hpp:332-337 | the pages past the new page count are exactly those a back shrink no longer needs |
| `MappedRegion.FrontPages` | include/boost/interprocess/mapped_region.hpp:338-346 | the pages below the new first byte are exactly those a front shrink no longer needs |
| `MappedRegion.ShrinkReleases` | include/boost/interprocess/mapped_region.hpp:319-349 | the ranges a shrink hands to munmap release exactly the pages the region gives up |
| `MappedRegion.ShrinkKeepsValid` | include/boost/interprocess/mapped_region.hpp:319-349 | every shrink keeps the map address page aligned, the user's range inside the pages owned, and the pages owned mapped |
| `MappedRegion.ShrinkReports` | include/boost/interprocess/mapped_region.hpp:332-337 | a back shrink is reported as a failure exactly when it gives no page up and the end of the region is not page aligned |
| `MappedRegion.UserRangeMapped` | include/boost/interprocess/mapped_region.hpp:293-297 | the page of every byte of the user's range is mapped |
| `MappedRegion.RunKeepsValid` | include/boost/interprocess/mapped_region.hpp:730-744 | over any shrinks the mapped pages are the old ones without those the region gave up |
| `MappedRegion.ReleasedOnce` | include/boost/interprocess/mapped_region.hpp:730-744 | the page ranges that any two of the calls, the final close included, hand to munmap are disjoint |
| `MappedRegion.OwnedNotReleased` | include/boost/interprocess/mapped_region.hpp:730-744 | no page the region still owns after any shrinks was handed to munmap |
| `MappedRegion.ReleasedSome` | include/boost/interprocess/mapped_region.hpp:730-858 | every page of the region is handed to munmap by one of the shrinks or by the close |
| `MappedRegion.RunThenClose` | include/boost/interprocess/mapped_region.hpp:844-858 | after any shrinks and the close the process has lost exactly the pages of the region |
| `MappedRegion.FailsAfterShrinking` | include/boost/interprocess/mapped_region.hpp:332-337 | a region for which shrink_by(0) and shrink_by(10) from the back report failure although the region shrinks |
| `MappedRegion.WrappedMappingHappens` | include/boost/interprocess/mapped_region.hpp:701-719 | a size that wraps with the page offset: 254 bytes are mapped for a region of 65535 |
| `MappedRegion.Region.PrivShrinkParamCheck` | include/boost/interprocess/mapped_region.hpp:319-349 | the fields are those of the shrunk region and the range is the one of the specification, whose pages are exactly those given up or whose length wrapped |
| `MappedRegion.Region.ShrinkBy` | include/boost/interprocess/mapped_region.hpp:730-744 | the user's range loses the bytes at the end asked for, the pages end up right in all cases, munmap is called with the ranges of the specification, and the result is as ShrinkReports says |
| `MappedRegion.Region.PrivClose` | include/boost/interprocess/mapped_region.hpp:844-858 | gives back the pages from the map address over the map size |
| `MappedRegion.Region.Close` | include/boost/interprocess/mapped_region.hpp:281-282 | closing a valid region gives back exactly the pages it owns |
| `MappedRegion.Region.PrivFlushParamCheck` | include/boost/interprocess/mapped_region.hpp:299-317 | the range to flush is covered, the mapping is not left, and the start is aligned exactly when the offset is |
| `MappedRegion.Region.Flush` | include/boost/interprocess/mapped_region.hpp:746-754 | succeeds exactly for a valid sub-range that starts on a page of the region |
| `MappedRegion.Region.PageOffsetAddrFixup` | include/boost/interprocess/mapped_region.hpp:365-380 | the offset and the address asked for move back to a page boundary by the same amount |
| `MappedRegion.Region.Map` | include/boost/interprocess/mapped_region.hpp:590-728 | each error exactly from its cause and leaving no page mapped; else the size asked for or the rest of the file, where it was asked to be unless the moved address is null, valid exactly when the mapped length did not wrap |
| `MathFunctions.Gcd` | include/boost/interprocess/detail/math_functions.hpp:42-53 | the result divides both numbers and every common divisor divides it |
| `MathFunctions.LeastCommonMultiple` | include/boost/interprocess/detail/math_functions.hpp:61-68 | (a / gcd) * b is a common multiple and divides every common multiple |
| `MathFunctions.Lcm` | include/boost/interprocess/detail/math_functions.hpp:61-68 | the word returned is the least common multiple exactly when that fits |
| `MathFunctions.LoopEnds` | include/boost/interprocess/detail/math_functions.hpp:70-92 | the doubling loops end exactly for arguments up to 2^(w-1) |
| `MathFunctions.Log2Ceil` | include/boost/interprocess/detail/math_functions.hpp:70-81 | 2^k reaches the argument exactly for the exponents from the result on |
| `MathFunctions.UpperPowerOf2` | include/boost/interprocess/detail/math_functions.hpp:83-92 | the least power of two not below the argument |
| `MathFunctions.FloorLog2` | include/boost/interprocess/detail/math_functions.hpp:96-112 | the binary search gives r with 2^r <= x < 2^(r+1), for every width that is a power of two |
| `BoundedBuffer.NoOverwrite` | example/comp_doc_anonymous_semaphoreA.cpp:59-65 | when the producer writes, its slot holds no unread message |
| `BoundedBuffer.RunInv` | example/doc_anonymous_semaphore_shared_data.hpp:13-27 | in every interleaving the semaphores count free slots, stored messages and the holder of the mutex |
| `BoundedBuffer.Correct` | example/comp_doc_anonymous_semaphoreB.cpp:61-67 | in every interleaving the extracted values are the first inserted ones in order, and at most one side is inside the mutex |
| `BoundedBuffer.NoDeadlock` | example/comp_doc_anonymous_semaphoreB.cpp:61-67 | when neither side can move, everything is delivered and the semaphores are back at their initial values |
| `BoundedBuffer.Delivers` | example/comp_doc_anonymous_semaphoreA.cpp:59-65 | every run makes at most ten moves a message, and delivers everything when it makes them all |
| `BoundedBuffer.SharedBuffer.ProducerStep` | example/comp_doc_anonymous_semaphoreA.cpp:59-65 | a statement of the producer's loop on the shared array keeps the invariant and is the producer's step, or nothing when it blocks |
| `BoundedBuffer.SharedBuffer.ConsumerStep` | example/comp_doc_anonymous_semaphoreB.cpp:61-67 | a statement of the consumer's loop keeps the invariant and is the consumer's step, or nothing when it blocks |
| `LockFileNames.DecimalRoundTrip` | include/boost/interprocess/detail/intermodule_singleton_common.hpp:46-55 | a printed number has digits only and reads back as itself |
| `LockFileNames.StampsDiffer` | include/boost/interprocess/detail/intermodule_singleton_common.hpp:46-55 | two processes share a stamp exactly when pid, microseconds and representable seconds agree |
| `LockFileNames.StampReadsBack` | include/boost/interprocess/detail/intermodule_singleton_common.hpp:46-55 | pid and creation time can be read back from a stamp while the seconds fit in an unsigned long |
| `LockFileNames.NamesAsPrinted` | include/boost/interprocess/detail/intermodule_singleton_common.hpp:57-64 | the map and lock file names of an example process, as printed |
| `LockFileNames.ChecksPid` | include/boost/interprocess/detail/portable_intermodule_singleton.hpp:73-109 | a name is accepted exactly when it is the prefix, the pid and the rest of a stamp, and the suffix in every case, malformed names included |
| `LockFileNames.CleanedMap` | include/boost/interprocess/detail/portable_intermodule_singleton.hpp:152-171 | for every file name the cleaner builds the map name of a process exactly when the file is that process's lock file, and takes a lock file for its own exactly when the pids are equal |
| `LockFileNames.OwnLockFile` | include/boost/interprocess/detail/portable_intermodule_singleton.hpp:47-71 | what follows the prefix of a stamped name is the whole stamp, whose first number is the pid |
| `LockFileNames.StampedSuffix` | include/boost/interprocess/detail/portable_intermodule_singleton.hpp:79-108 | what the check leaves as suffix is a stamp exactly for stamped lock file names: short names, other prefixes and names without `_` leave none |

## Left out

- LockFileNames.CleanedMap: models the naming of apply_gmem_erase_logic only, not locking and erasing the other process's files.
- SingletonTheorems.AttachCount: covers runs in which the lock file can be locked; the path that fails to lock it depends on descriptor values the code may leave unset.
- OpenOrCreate.OpenAfterConstruct: a timeout of a waiting loop is a step that may throw at any time; clocks are not modelled.
- MappedRegion.Region.Map: mapping modes, map options and negative file offsets are not modelled, and mmap is taken never to return address zero.
- Relocation.HeapMemory.Grow: create_impl and destroy_impl are not modelled.
- BlockLayout.NamedLayout: takes header and alignment sizes to be small against size_type.
- The singleton and the create/open protocols are state machines over values; the classes whose static fields the code updates in place are not modelled as objects.
- Calls into a module are barred from the moment its finalizer has nulled a pointer until that finalizer ends, so its second read of the count never differs from the first; the code assumes no more than that no thread executes in a module being unloaded.
- Progress of the singleton protocol: a map creation that throws leaves the map word at Initializing for ever, so only safety is stated.
- The reference counters of the singletons are unbounded numbers, not 32-bit ones.
- Weak memory ordering: atomic operations are taken to be sequentially consistent.
- The node and the iterator of an index are its map entry; the memory algorithms, index containers, mutexes and node pools behind the segment manager are not modelled.
- The index headers of named and of unique objects are taken to have the same size.
- Robust mutex emulation, message queues, smart pointers, allocators, containers, and the Windows and XSI variants.
- Block headers of ABI 1, which keep their alignment in the header and need no layout proof of this kind, and the casts, iterator adaptors and stream operators of offset_ptr, which call the operations modelled here.
