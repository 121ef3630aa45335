# Verified models of KOSmk2 components

KOSmk2 is a hobby operating system with its own kernel, C library and system headers. This project
models the parts of it whose correctness rests on an argument rather than on a look at the code, and
proves that argument in Dafny. `dafny verify dfyconfig.toml` checks everything.

| files | what they model |
|---|---|
| `AddressTree`, `AddressTreeInPlace`, `Bits` | the address tree (`include/hybrid/list/atree*.h`) that maps disjoint key ranges in the kernel's memory manager, I/O range and device tables: as a function on trees, and as the links that the kernel rewires in place |
| `Amalloc`, `AmallocMachine` | the hybrid allocator (`include/__amalloc.h`): a flat memory of bytes with a heap, stack frames and a client in any interleaving, and the macros that read and write that memory |
| `RwLock` | the spinning reader-writer lock (`include/hybrid/sync/atomic-rwlock.h`): threads taking atomic steps in any order |
| `DirStream` | directory streams over the DOS find service (`include/dirent.h`) |
| `Features`, `FeatureFlags`, `FeatureHeader` | the feature-test normaliser (`include/features.h`): its closed form with its laws, each flag straight from the program's macros, and the directives in their order |
| `Stdio` | the unlocked fast paths of buffered streams, and the clamps of the bounded calls (`include/stdio.h`) |
| `Ffs`, `MemDup`, `FileLength`, `ErrorPointers` | find-first-set (`include/strings.h`), duplication (`include/malloc.h`), length by seeking (`include/io.h`), error codes in pointers (`include/errno.h`) |
| `Basics` | two shared types |

Code that updates its state in place is modelled by classes with arrays and map fields. Each of their
methods is proved to make one step of a transition function on values, and the results about whole
runs are proved of that function. What an unseen service answers (an address from malloc, a handle
from find-first, a failure of find-next, the size of a refill or a flush, a spurious failure of an
exchange) is a parameter of the call, so every result holds for every answer.

## Where the code does not do what it says

- `tryinsert_at` is documented to return false for every range that is mapped already. When the new
  range covers the semi-point of the place where its walk stops, and overlaps a leaf further down but
  not the one at that place, it starts to insert and runs into an assertion (`TryInsertExact` gives
  the condition, `TryInsertMissesOverlap` a three-call witness at every key width). Ranges of one key
  are always handled right (`SingleKeyNeverHidden`).
- The header describes all leaves below `a_min` as smaller than their ancestor, and all below `a_max`
  as greater. That holds on the far side of the semi-point always, and on the near side exactly when
  nothing lies between the leaf and the semi-point (`OrderedExactly`); two insertions break it
  (`SubtreesNeedNotBeOrdered`).
- Lookups in a tree over keys of n bits look at up to n + 1 leaves, where the header says n - 1
  (`DepthBound`, `ChainIsWorstCase`). A tree has a mapped key whose lookup or removal trips the
  assertion on the level exactly when it is that deep (`FullDepthTripsExactly`), namely the keys of
  the leaves below level 0 (`MappedTripsExactly`). Insertions alone build such a tree
  (`ChainIsReached`), and removing a key of it then aborts (`RemovalTripsOnChain`). The last of these
  insertions walks on from level 0 by a shift that C leaves undefined; the model gives it the place
  for the one key that is left. Without it, the same insertions stay within the levels, and looking
  up or removing a key that is not mapped trips the assertion (`UnmappedTripsOnSpine`, in general
  `UnmappedTripsExactly`).
- The reader-writer lock of a release build makes no assertions. A read lock taken while 2^31 - 1 are
  held turns the count into the mark of a writer, and a few calls later a writer modifies the data
  beside 2^31 - 1 readers (`OverflowBreaksExclusion`). Over all runs that hold at most n read locks
  at a time, a release build excludes, and keeps the data stable for its holders, exactly when n is
  at most 2^31 - 1 (`MutualExclusion`, `DataStability`); in a single run the word is right exactly as
  long as they stay within that count (`WordOkExactly`). A debug build fails an assertion instead
  (`PanicsOnlyOnOverflow`).
- The stack fallbacks of the two no-fail allocation macros are swapped: the plain one zeroes, the
  zeroing one does not (`NoFailMallocZeroes`, `CallocZeroes` with the exact condition).
- `__USE_POSIX_IMPLICITLY` has no `#undef`. A second run of the normaliser therefore keeps it, and in
  user space leaves the whole table alone. In the kernel a second run may change `_USE_32BIT_TIME_T`
  (`KernelRunIsIdempotentUpToTimeT` says exactly when).
- `_ISOC95_SOURCE` has no effect (`LanguageFlagsExactly`), and `_DOS_SOURCE=0` has none on the DOS file
  system, which it is meant to turn off where that is off already (`ExtensionsExactly`).
- Setting `_XOPEN_SOURCE` can take flags away (`NamingXopenMayDropDefaults`, exact).
- `_filelengthi64` loses the position in one case, and only there (`Descriptor.Length`).

## Model

| member | source | states |
|---|---|---|
| AddressTree.MacrosAreArithmetic | include/hybrid/list/atree.h:121-126 | on aligned semi-points the bit operations of MAPMIN, MAPMAX, WALKMIN and WALKMAX are halving of an interval, and walking keeps the alignment |
| AddressTree.RootMapsAllKeys | include/hybrid/list/atree.h:118-119 | at every key width SEMI0 and LEVEL0 make a place that maps exactly the keys of that width and has a level for each of its bits |
| AddressTree.RootIsAligned | include/hybrid/list/atree.h:118-119 | the root semi-point is aligned |
| AddressTree.WalksStayAligned | include/hybrid/list/atree.h:121-126 | so is every place at a level that any walk from there reaches, one level lower with each turn |
| AddressTree.WalkMin | include/hybrid/list/atree.h:123-125 | a step down to the lower side maps exactly the keys below the semi-point |
| AddressTree.WalkMax | include/hybrid/list/atree.h:126-126 | a step to the upper side maps exactly the keys from the semi-point on |
| AddressTree.WFSeparate | include/hybrid/list/atree.h:40-46 | no two leaves of a well-formed tree overlap, wherever they stand |
| AddressTree.OverlapIsACommonKey | include/hybrid/list/atree-abi.h:269-271 | the comparison of bounds finds exactly the ranges that have a key in common, and the test of a lookup exactly the keys of a range |
| AddressTree.InsertAt | include/hybrid/list/atree-abi.h:240-317 | an insertion that goes through leaves a well-formed tree that holds the old leaves and the new one; terminates although displaced subtrees are inserted again |
| AddressTree.ReinsertAll | include/hybrid/list/atree-abi.h:156-163 | re-inserting a whole displaced subtree keeps the tree well-formed and loses no leaf |
| AddressTree.InsertExact | include/hybrid/list/atree-abi.h:240-317 | insert_at trips its overlap assertion exactly when some key of the range is in some range of the tree |
| AddressTree.ReinsertExact | include/hybrid/list/atree-abi.h:156-163 | re-insertion goes through exactly when nothing of the subtree overlaps the tree |
| AddressTree.TryInsertExact | include/hybrid/list/atree-abi.h:165-238 | tryinsert_at inserts exactly the ranges of which no key is mapped, as insert_at does, and hits an assertion exactly on hidden overlaps |
| AddressTree.InsertPlacesExactly | include/hybrid/list/atree-abi.h:277-317 | a leaf keeps its place and its subtree on the far side, and gives way exactly to one that covers the semi-point |
| AddressTree.ReinsertsInPostOrder | include/hybrid/list/atree-abi.h:156-163 | re-inserting a subtree is inserting its leaves one by one, children before their parent and the lower ones first |
| AddressTree.SingleKeyNeverHidden | include/hybrid/list/atree-abi.h:192-221 | a range of one key hides no overlap from tryinsert_at |
| AddressTree.TryInsertMissesOverlap | include/hybrid/list/atree-abi.h:192-221 | at every key width of two bits or more, three calls on an empty tree end in the assertion instead of a refusal |
| AddressTree.PopAt | include/hybrid/list/atree-abi.h:402-412 | pop_at removes exactly the leaf at its place and re-inserts all others into a well-formed tree |
| AddressTree.PopsInPostOrder | include/hybrid/list/atree-abi.h:402-412 | what stood below is inserted into the empty place in that order, the lower leaves before the upper ones |
| AddressTree.RemoveExact | include/hybrid/list/atree-abi.h:414-420 | remove_at trips the level assertion of its walk exactly when the walk passes level 0; otherwise it takes out the one leaf that holds the key, and without such a leaf returns none and changes nothing |
| AddressTree.InsertThenRemove | include/hybrid/list/atree-abi.h:402-420 | inserting a free range and removing any key of it returns that range and leaves the leaves that were there, and aborts exactly when the range is a single key that has come to stand below level 0 |
| AddressTree.LocateAt | include/hybrid/list/atree-abi.h:422-465 | the loop finds the leaf that holds the key, and none only if none does; it looks at no more leaves than the tree is deep; it passes level 0 exactly when the walk meets a level-0 leaf without the key |
| AddressTree.DepthBound | include/hybrid/list/atree.h:29-34 | no path has more leaves than the levels left plus one |
| AddressTree.MappedTripsExactly | include/hybrid/list/atree-abi.h:501-512 | looking up or removing a mapped key trips the level assertion exactly when its leaf stands below level 0; such a leaf has a single key |
| AddressTree.FullDepthTripsExactly | include/hybrid/list/atree-abi.h:504-504 | a tree has a mapped key that trips the assertion exactly when it has a path with one leaf more than keys have bits |
| AddressTree.UnmappedTripsExactly | include/hybrid/list/atree-abi.h:453-453 | looking up a key that is not mapped trips it exactly when there is a leaf on every level of its path |
| AddressTree.ChainIsWorstCase | include/hybrid/list/atree.h:29-34 | at every width a well-formed tree reaches the bound, and there the assertion fires for a mapped key |
| AddressTree.ChainIsReached | include/hybrid/list/atree-abi.h:240-317 | at every width insertions alone build that tree |
| AddressTree.RemovalTripsOnChain | include/hybrid/list/atree-abi.h:414-420 | removing the least key from it, which is mapped, aborts |
| AddressTree.SpineIsReached | include/hybrid/list/atree-abi.h:240-317 | the same insertions but the last build a tree whose leaves all stand at a level |
| AddressTree.UnmappedTripsOnSpine | include/hybrid/list/atree-abi.h:453-453 | in that tree, which is one leaf less deep than the bound, the walk for the least key, which is not mapped, trips the assertion |
| AddressTree.OrderedExactly | include/hybrid/list/atree.h:105-106 | the documented order of `a_min` holds exactly unless the leaf is below its semi-point with some leaf of that subtree in between, and that of `a_max` exactly unless it is above with one in between |
| AddressTree.SubtreesNeedNotBeOrdered | include/hybrid/list/atree.h:105-106 | two insertions into an empty tree break it at every width of two bits or more |
| AddressTree.ApplyRefinesModel | include/hybrid/list/atree-abi.h:132-136 | one call on the tree is one operation on a set of ranges |
| AddressTree.RunRefinesModel | include/hybrid/list/atree-abi.h:132-136 | any sequence of insertions, conditional insertions and removals leaves the ranges that the same operations on a set leave |
| AddressTree.ApplySurvives | include/hybrid/list/atree-abi.h:132-136 | a call trips no assertion exactly when it is an insertion of a free range, a conditional insertion without a hidden overlap, or a removal whose walk does not pass level 0 |
| AddressTree.RunSurvives | include/hybrid/list/atree-abi.h:132-136 | a sequence of any calls goes through exactly when every call is of that kind at its point |
| AddressTree.ModestRunSurvives | include/hybrid/list/atree-abi.h:132-136 | with removals from fewer ranges than keys have bits and conditional insertions of single keys, the set of ranges alone decides: it goes through exactly when each insertion is of a free range |
| AddressTreeInPlace.AddressMap.Plant | include/hybrid/list/atree-abi.h:259-263 | the slot links to a leaf without children, and nothing else changes |
| AddressTreeInPlace.AddressMap.Insert | include/hybrid/list/atree-abi.h:240-317 | goes through exactly when `InsertAt` does, and then the links below the slot become those of its tree; no other slot and no leaf outside the tree is touched in any case |
| AddressTreeInPlace.AddressMap.Displace | include/hybrid/list/atree-abi.h:277-300 | likewise for the leaf that takes the place of another |
| AddressTreeInPlace.AddressMap.Reinsert | include/hybrid/list/atree-abi.h:156-163 | likewise for `ReinsertAll`, whose input is dismantled while it is being read |
| AddressTreeInPlace.AddressMap.TryInsert | include/hybrid/list/atree-abi.h:165-238 | inserts, refuses or aborts as `TryInsertAt` does, on every range; links its tree if it inserts, and changes nothing if it refuses |
| AddressTreeInPlace.AddressMap.Pop | include/hybrid/list/atree-abi.h:402-412 | the links become those of `PopAt`, the leaf is returned, and no assertion of the re-insertion fires |
| AddressTreeInPlace.AddressMap.Remove | include/hybrid/list/atree-abi.h:414-420 | aborts exactly when `RemoveAt` does, with nothing changed; otherwise the links become those of its tree, and its leaf is returned |
| Amalloc.RunKeepsInv | include/__amalloc.h:64-114 | over every interleaving of all allocation forms, client writes, releases and stack frames: live blocks are disjoint, every held pointer carries the tag of its block, no heap block is lost, and the calls of the underlying heap balance |
| Amalloc.FreeDecides | include/__amalloc.h:36-56 | for a held pointer the debug assertion holds, both release tests decide alike, and they say "heap" exactly for heap blocks |
| Amalloc.AllocationsExactly | include/__amalloc.h:26-182 | with a limit of 256 bytes in the kernel and 4096 elsewhere: a request within it takes the stack and makes no call of the heap, a larger one makes one call; the forms for one storage, a refusal, the pointer, the block, the tag and every byte of the payload |
| Amalloc.ReleasesExactly | include/__amalloc.h:110-114 | a release gives a heap block back in one call, and makes none for a stack block |
| Amalloc.HeapCallsAreSound | include/__amalloc.h:110-114 | over every run from the start, the underlying free gets only blocks allocated and not yet freed, never a stack block, and what is outstanding is exactly below the heap-tagged pointers not yet released |
| Amalloc.FreedWasAllocated | include/__amalloc.h:110-114 | what a balanced log means: before each free there is an allocation of that block with no free of it since |
| Amalloc.DebugAndReleaseAgree | include/__amalloc.h:36-56 | the same run makes the same heap calls and leaves the same blocks and pointers in debug and in release builds |
| Amalloc.StepRefinesBuffers | include/__amalloc.h:64-114 | one step on the flat memory is one step on separate client buffers |
| Amalloc.RunRefinesBuffers | include/__amalloc.h:64-114 | over every run each payload holds what it would hold as an object of its own |
| Amalloc.CallocZeroes | include/__amalloc.h:87-109 | a zeroing form hands out zeros exactly when it is not the no-fail one, or took the heap, or the payload is empty, or a release build finds zeros on the stack |
| Amalloc.NoFailMallocZeroes | include/__amalloc.h:157-169 | the plain no-fail form never returns null and zeroes what it takes from the stack |
| Amalloc.OverLimitOnlyAsLastResort | include/__amalloc.h:157-182 | a call takes more than the limit from the stack exactly if it insists on the stack, or may not fail and the heap has refused |
| Amalloc.StackUseBounded | include/__amalloc.h:75-109 | n calls that do neither take at most n times the limit |
| AmallocMachine.Machine.XBlock | include/__amalloc.h:64-109 | the statement-expression macros, writing memory in place, make one allocation step; the plain ones call the heap exactly when size and header, wrapped, exceed the limit |
| AmallocMachine.Machine.Local | include/__amalloc.h:146-153 | so do the function forms of __amalloc and __acalloc, which call the heap exactly when the size exceeds the limit less the header |
| AmallocMachine.Machine.LocalHeap | include/__amalloc.h:117-128 | the heap functions make one allocation step |
| AmallocMachine.Machine.LocalStack | include/__amalloc.h:129-136 | the stack functions make one allocation step |
| AmallocMachine.Machine.NoFailForm | include/__amalloc.h:157-182 | the no-fail macros make one allocation step |
| AmallocMachine.Machine.Afree | include/__amalloc.h:110-114 | afree makes one release step, and its assertion holds |
| AmallocMachine.FormsAgreeUnlessSizeWraps | include/__amalloc.h:75-148 | these two tests choose the same storage exactly for sizes to which the header can be added without wrapping |
| RwLock.NextKeepsInv | include/hybrid/sync/atomic-rwlock.h:78-168 | an atomic step of a thread keeps the word in agreement with the holders, and each thread's loaded word and rights in agreement with its call, exactly unless a release build takes a read lock beyond the count |
| RwLock.StepsExactly | include/hybrid/sync/atomic-rwlock.h:78-168 | the step that completes a call takes, converts or gives back the one lock that the call is for, with the word to match, for each of the seven calls; no other step changes the word or the holders |
| RwLock.UndisturbedCallReturns | include/hybrid/sync/atomic-rwlock.h:78-168 | a thread that nobody disturbs leaves its call after one turn of the loop, or fails an assertion |
| RwLock.AssertionsCatchMisuse | include/hybrid/sync/atomic-rwlock.h:87-165 | the assertions hold exactly when the lock is held in the way that the call is about to end or convert, whoever calls |
| RwLock.WordOkExactly | include/hybrid/sync/atomic-rwlock.h:121-130 | the word tells the holders in every state of a run exactly when the read locks stay within 2^31 - 1, as they always do in a debug build |
| RwLock.MutualExclusion | include/hybrid/sync/atomic-rwlock.h:121-149 | over all interleavings with at most n read locks at a time, a writer is always alone exactly when the build is a debug one or n is at most 2^31 - 1 |
| RwLock.OverflowBreaksExclusion | include/hybrid/sync/atomic-rwlock.h:106-134 | a run of a release build with one read lock more, from the free lock, ends with a writer that has modified the data beside 2^31 - 1 readers, one of which held the lock all the while |
| RwLock.PanicsOnlyOnOverflow | include/hybrid/sync/atomic-rwlock.h:121-130 | an assertion fails exactly when a debug build acquires a read lock while 2^31 - 1 are held |
| RwLock.NoPanicUnlessFull | include/hybrid/sync/atomic-rwlock.h:78-168 | no assertion fails in any interleaving that holds fewer read locks than that, nor in any of a release build |
| RwLock.RefusalsAreJustified | include/hybrid/sync/atomic-rwlock.h:121-149 | a call returns without having gone through exactly when there is a writer (reading), another read lock (upgrading) or any holder (writing) |
| RwLock.EndReportsFree | include/hybrid/sync/atomic-rwlock.h:67-72 | ending a lock reports "free" exactly when nobody holds it any more |
| RwLock.DataStableWhileHeld | include/hybrid/sync/atomic-rwlock.h:56-62 | from acquiring a read lock through a successful upgrade until the end, nobody else modifies the data; in a release build, within the count |
| RwLock.DataStability | include/hybrid/sync/atomic-rwlock.h:56-62 | over all interleavings with at most n read locks at a time, data is always stable for a holder exactly when the build is a debug one or n is at most 2^31 - 1 |
| RwLock.OthersCannotRevoke | include/hybrid/sync/atomic-rwlock.h:78-120 | no step of another thread changes what a thread holds |
| RwLock.UpgradeIsSeamless | include/hybrid/sync/atomic-rwlock.h:141-149 | an upgrade that succeeds turns the only reader into the writer without letting go |
| DirStream.ReadKeepsInStep | include/dirent.h:283-292 | one readdir returns the next entry of the listing, numbered modulo the width of d_ino, or null with nothing changed when find-next fails or the last has been returned |
| DirStream.StepKeepsInv | include/dirent.h:259-292 | every call keeps the records, handles and allocations those of the open streams |
| DirStream.StreamsIterateAndNothingLeaks | include/dirent.h:259-292 | over every interleaving of calls on any number of streams with every service failing at will: allocations and find handles are exactly those of the directories opened and not closed since, told from the calls alone, one each; the entries each has returned are the first of what find-first answered, in order, and null stands exactly for a failure or the end |
| DirStream.ClosingAllLeavesNothing | include/dirent.h:277-282 | once every open directory has been closed, no allocation and no find handle is left |
| DirStream.FaithfulIterates | include/dirent.h:283-292 | a stream whose find-next never fails returns the i-th entry in its i-th reply, and only null after the last |
| DirStream.CStringOf | include/dirent.h:265-268 | what the find service reads from the terminated buffer is the string written |
| DirStream.DirSystem.FillQuery | include/dirent.h:265-268 | the buffer of name length plus three holds name, backslash, asterisk and NUL, written within bounds |
| DirStream.DirSystem.OpenDir | include/dirent.h:259-276 | makes one open step on each of its failure paths, with the query buffer released on all |
| DirStream.DirSystem.CloseDir | include/dirent.h:277-282 | makes one close step; on null sets errno and returns -1 |
| DirStream.DirSystem.ReadDir | include/dirent.h:283-292 | makes one read step and returns the reply that this records; on null sets errno and returns null |
| Features.StandardsInStages | include/features.h:182-358 | the stages of the standards block come to the closed form of sources and flags |
| FeatureFlags.SourcesExactly | include/features.h:182-275 | the source macros that the header leaves, version numbers included, from those that the program sets |
| FeatureFlags.PosixFlagsExactly | include/features.h:182-296 | each POSIX flag from the program's own macros, through all stages |
| FeatureFlags.XopenFlagsExactly | include/features.h:182-334 | each X/Open flag likewise |
| FeatureFlags.LanguageFlagsExactly | include/features.h:182-334 | each language flag likewise |
| FeatureFlags.FileFlagsExactly | include/features.h:182-520 | each file flag likewise, in user space and by the configuration of the kernel |
| FeatureFlags.LibraryExactly | include/features.h:95-138 | library, its version and compatibility modes from the platform |
| FeatureFlags.ExtensionsExactly | include/features.h:365-408 | the flags of the system extensions from the program's macros and the library |
| FeatureFlags.TimeExactly | include/features.h:410-520 | the width of time_t, in user space and in the kernel |
| FeatureFlags.ErrorsExactly | include/features.h:527-554 | which errors each platform raises |
| Features.UserRunIsIdempotent | include/features.h:182-448 | in user space a second run leaves the whole table as it is |
| Features.KernelRunIsIdempotentUpToTimeT | include/features.h:489-525 | in the kernel a second run leaves all but `_USE_32BIT_TIME_T`, and that too exactly when the width of time_t is given or the configuration agrees with the default |
| Features.RaisingPosixKeepsFlags | include/features.h:277-308 | raising a set `_POSIX_C_SOURCE` removes no flag |
| Features.RaisingXopenKeepsFlags | include/features.h:261-334 | raising a set `_XOPEN_SOURCE` removes no flag |
| Features.AddingGnuKeepsFlags | include/features.h:188-209 | adding `_GNU_SOURCE` removes no flag but the one for implicit POSIX |
| Features.NamingXopenMayDropDefaults | include/features.h:211-219 | setting an unset `_XOPEN_SOURCE` keeps all flags exactly under the stated condition |
| Features.Chains | include/features.h:221-334 | the implications among the flags hold for every input |
| Features.OneCompatibilityMode | include/features.h:95-138 | without hand-set macros each platform but KOS gets exactly one compatibility mode, that of its one library |
| Features.DosFsErrorsExactly | include/features.h:533-554 | a user-space build hits a DOS file system error exactly when it sets `_DOSFS_SOURCE` against its library |
| Features.Time64ErrorExactly | include/features.h:527-531 | it hits the time error exactly on a GLibc platform with 64-bit time asked for or implied |
| FeatureHeader.Preprocessor.DetectCrt | include/features.h:95-138 | the directives leave the closed form of library and mode |
| FeatureHeader.Preprocessor.DefaultSources | include/features.h:182-219 | the directives spell out the combined source macros |
| FeatureHeader.Preprocessor.ImplyPosix | include/features.h:251-275 | the directives bring POSIX in where it is implied, at the implied version |
| FeatureHeader.Preprocessor.XopenFlags | include/features.h:310-334 | on top of that the directives set the X/Open flags that the levels decide |
| FeatureHeader.Preprocessor.SetStandards | include/features.h:221-358 | the directives leave all flags of the standards, those of the language included, as the levels of POSIX and X/Open decide them |
| FeatureHeader.Preprocessor.SelectDos | include/features.h:365-408 | the directives select DOS, Cygwin and the DOS file system as the closed form says |
| FeatureHeader.Preprocessor.SelectTime | include/features.h:410-448 | the directives select the width of time_t as the closed form says, and leave the 32-bit macro its negation |
| FeatureHeader.Preprocessor.ConfigureKernel | include/features.h:489-525 | the directives let the kernel's configuration override file offsets and time |
| FeatureHeader.Preprocessor.Check | include/features.h:527-554 | the errors raised are those of the closed form |
| FeatureHeader.Preprocessor.Normalise | include/features.h:43-554 | the whole header leaves the closed form of the table |
| Stdio.PutAppends | include/stdio.h:449-449 | a put that succeeds returns the byte and appends it to what has been written; one that fails changes nothing of it; it fails exactly when the count has run out and a flush fails |
| Stdio.OutputIsTheBytesPut | include/stdio.h:416-416 | after any sequence of puts, however much each flush writes out and gives back, file and buffer hold the bytes of the successful ones in order, and the pointer is in the buffer |
| Stdio.CountedPutsAreBuffered | include/stdio.h:416-416 | as many puts as the count says succeed without a flush |
| Stdio.OutFile.Putc | include/stdio.h:449-449 | the decrement-and-store expression makes one put step |
| Stdio.GetTakesTheNext | include/stdio.h:415-415 | a get returns and consumes the next unread byte, and the end of file exactly when there is none |
| Stdio.InputIsTheFile | include/stdio.h:415-415 | any sequence of gets returns the file's bytes in order and then only the end of file, whatever sizes refills have |
| Stdio.CountedGetsAreBuffered | include/stdio.h:415-415 | as many gets as the count says read no more of the file |
| Stdio.InFile.Getc | include/stdio.h:1363-1363 | the decrement-and-load expression makes one get step |
| Stdio.ClampIsGreatest | include/stdio.h:962-962 | the count passed on is the greatest that was asked for and fits the buffer |
| Stdio.PrintersDisagreeExactly | include/stdio.h:1242-1244 | each printer returns the length exactly below its bound and -1 elsewhere; they return different results exactly for lengths from the buffer size to below the limit |
| Ffs.FindFirstSet | include/strings.h:80-90 | for every nonzero signed value of any width the loop ends within the width at the position of the lowest bit set, and 0 gives 0 |
| Ffs.LowestSetUnique | include/strings.h:91-92 | a value has one such position, so the width chosen does not matter |
| Ffs.SignedReadingKeepsPosition | include/strings.h:91-92 | reading an unsigned word as signed keeps the position |
| Ffs.FfsMacro | include/strings.h:91-92 | the macro that dispatches on the size and casts to its signed type computes the position, for signed and unsigned arguments |
| MemDup.Dup | include/malloc.h:127-127 | a copy of exactly the n bytes, or null |
| MemDup.DupThrough | include/malloc.h:128-128 | a copy of exactly the prefix through the first needle within n bytes, or of all n |
| MemDup.CutAfter | include/malloc.h:128-128 | that prefix ends with the first needle, or is everything |
| MemDup.CutIsFound | include/malloc.h:128-128 | searching all but the last byte finds the same prefix as searching all |
| FileLength.Descriptor.Length | include/io.h:228-232 | returns the length exactly when no seek fails and -1 otherwise; the position changes exactly when only the restoring seek fails, from a position other than the end |
| ErrorPointers.GuardsAreExact | include/errno.h:425-429 | the two preprocessor checks pass exactly when, with 32 bits and with 64, every code is classified as an error and no page-aligned pointer is |
| ErrorPointers.HeaderConstantsPass | include/errno.h:408-411 | the header's own largest code and thresholds pass the checks and extend each other, and make errors of exactly the pointers of the codes from 1 to 1024 |
| ErrorPointers.PointersPartition | include/errno.h:433-448 | every pointer is an error or is not, and the errors are those from the threshold on |
| ErrorPointers.ToIntExactly | include/errno.h:433-446 | the code read from a pointer is its last 32 bits as a signed number |
| ErrorPointers.CodesRoundTrip | include/errno.h:433-448 | every code is recovered from its pointer, with 32 and with 64 bits, and classified alike |

## Left out

- The rest of the kernel and of the C library: schedulers, file systems, the memory manager above its address tree, dlmalloc.
- AddressTree: builds without assertions, in which an overlap that insert_at or tryinsert_at misses is undefined behaviour by the header's own words; keys are natural numbers of a given number of bits; the shift below level 0, undefined in C, is a place for a single key.
- AddressTreeInPlace: the jumps back to the start of insert_at and tryinsert_at are written as the tail calls they are, and so is the loop of plocate_at, as part of Remove; pinsert_at, which also returns the slot, is not modelled.
- Amalloc.RunKeepsInv: covers sizes to which the 8-byte header can be added without wrapping; releasing a null pointer, which the source does not handle, is not a step.
- RwLock: the loops around the try functions, and upgrade's fallback to ending and writing anew, are sequences of the modelled calls; memory ordering is sequential.
- DirStream: the directory is the snapshot that find-first took, and a find-next that fails leaves the entry alone; fields of the entries other than attributes, size and name.
- Features: the flags for re-entrancy, KOS printf and std extensions, old find symbols, and the symbol redirection macros; macros that are only ever used together in one disjunction are one member.
- Stdio: the locked functions, ungetc, mixing reads and writes on one stream; `_flsbuf` and `_filbuf` are not implemented in the repository and are modelled by the contract stated with them.
- Stdio.ClampIsGreatest: an element size of 0, which the source divides by.
- fgetpos64 and fsetpos64: position save and restore, which would add only easy members.
- Constant tables and single-expression macros elsewhere in the headers.
