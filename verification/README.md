# pposix ownership model

pposix wraps POSIX resources in handles that close what they own. This project models the handle
class `descriptor<Descriptor, GetNull, ClosePolicy>` against a kernel that reuses descriptor
numbers and memory pages, and proves what every program built from the handle's operations keeps.
Around it stand models of the pieces the factories and wrappers are made of: `result_map`, the
`errno_context` scopes and the calls made inside them, the span family, the permission literals
and the syslog priority mask.

## How it is built

- `Kernel` holds the kernel: occupied slots (descriptor numbers, or pages), each stamped with the
  incarnation that took it, and the acquiring and closing calls. An `Algebra` is one instantiation
  of the handle's template arguments together with what the kernel does with such a raw value.
- `Descriptors` is the handle class. `Owners` is `file` and `mmap`: an object with one handle, a
  factory, and a close that goes past the handle.
- `Ownership` runs programs: handle objects and raw variables come and go, in any order and any
  number, and the kernel decides each call. Beside it runs a machine without slots, in which a
  handle simply owns one incarnation. `Programs` shows that the classes, on the heap, do exactly
  what a step of `Ownership` says, so the theorems hold of programs using the classes.
- `Safety`, `PastTheHandle` and `Moves` are the theorems for every resource; `FileDescriptors` and
  `Mappings` are the two resources.
- `Results`, `ErrnoScopes`, `Config`, `Words`, `Spans`, `Bits`, `Permissions` and `Syslog` are the
  supporting parts. `Spans` stands for `byte_span.hpp`, `char_span.hpp` and `span.hpp` alike.

Assumptions about the kernel, all visible in `Kernel.Closed`, `Kernel.Acquired` and the two
instances: a failing close changes nothing; -1 is never an open number and `(MAP_FAILED, 0)` is
never a valid range, so closing null fails; a failing call stores a positive errno (the named ones have their Linux numbers); descriptor
numbers are handed out lowest first (section 2.14 of the System Interfaces volume of
IEEE Std 1003.1-2017); `mmap` without a fixed address picks free whole pages, and `munmap` takes
every whole page of an aligned, non-empty range, mapped or not.

Every kernel decision (grant, or refuse with an errno) is part of the event, so a theorem over all
event sequences is a theorem over all kernel behaviours. Raw values live in variables: an acquiring
call, `release`, or a copy with `raw()` fills one, adopting or closing its value empties it. A run
is disciplined (`Ownership.Disciplined`) when it neither copies a value out of a handle nor closes
past one. Disciplined runs keep everything; for the others the theorems say what is still kept and
exactly when something is lost.

Where the code and the evident intent differ:

- Move assignment swaps and has no return statement (`include/pposix/descriptor.hpp:48-50`); it is
  modelled as the swap.
- `file::close` and `mmap::unmap` leave the raw value in the handle, so the destructor closes it
  again. With them, "a close ends what its handle owns" is false: `SecondFileLost` is a program
  that shows it. `SafePrograms`, `CloseExact`, `CloseTakes`, `DestroyAfterKernelClose` and
  `CloseOpenDestroy` say exactly when it fails and what is lost.
- `confstr` returns a span of the needed length, which runs past a shorter buffer; `TwoCalls` says
  exactly when.
- A successful `file::open` leaves errno set, because the moved-from temporary's destructor closes
  null (`Owners.Owner.Open`).

## Model

| member | source | states |
|---|---|---|
| `Descriptors.Descriptor.Null` | include/pposix/descriptor.hpp:29-31 | a new handle is null |
| `Descriptors.Descriptor.Adopt` | include/pposix/descriptor.hpp:33 | the handle holds the value it was given |
| `Descriptors.Descriptor.Move` | include/pposix/descriptor.hpp:42-44 | the new handle holds the source's old value and the source is null |
| `Descriptors.Descriptor.MoveAssign` | include/pposix/descriptor.hpp:48-50 | the two handles exchange values; nothing is closed |
| `Descriptors.Descriptor.Raw` | include/pposix/descriptor.hpp:57-58 | a copy of the value; the handle keeps it |
| `Descriptors.Descriptor.Release` | include/pposix/descriptor.hpp:63-67 | the value is handed out and the handle is null |
| `Descriptors.Descriptor.Close` | include/pposix/descriptor.hpp:69-76 | the kernel sees one closing call; the handle is null iff it succeeded, else unchanged with the kernel; a refusal is reported as the very errno it was refused with, a value the kernel does not accept as the errno for that |
| `Descriptors.Descriptor.Destroy` | include/pposix/descriptor.hpp:35-39 | the destructor makes the same closing call |
| `Kernel.Process.ClosePolicy` | src/file_descriptor.cpp:9-11 | no error iff the value is accepted and the close granted; otherwise the kernel is unchanged and the error is the refusal's errno, or the invalid-value errno |
| `Kernel.Process.SysClose` | include/pposix/util.hpp:58-59 | the call's convention that the macro turns into an error code: 0, or -1 with exactly the refusal's or the invalid-value errno stored |
| `Kernel.Process.AcquireRaw` | src/fcntl.cpp:22-25 | a refused call gives the errno it was refused with and changes nothing; a granted one what the resource answers |
| `Owners.Owner.Adopt` | src/file.cpp:8 | a file around a raw value owns it |
| `Owners.Owner.Move` | include/pposix/file.hpp:28 | moving an owner moves its handle |
| `Owners.Owner.Close` | src/file.cpp:10-12 | the kernel closes, the handle keeps its value; the error is the refusal's errno or the invalid-value errno |
| `Owners.Owner.Open` | include/pposix/file.hpp:44-46 | success: one new object owning the acquired value, no other kernel effect; failure: the call's own errno, no object, kernel unchanged |
| `Programs.Program.Execute` | include/pposix/descriptor.hpp:21-80 | any operation on heap objects does what the step machine says, whatever else exists |
| `Programs.Program.Run` | include/pposix/descriptor.hpp:21-80 | so does any sequence of operations |
| `Programs.Program.RunDisciplined` | include/pposix/descriptor.hpp:21-80 | after any disciplined program, no two handle objects stand for a common slot and all their slots are occupied |
| `Ownership.StepTracks` | include/pposix/descriptor.hpp:35-76 | invariant of every operation: incarnations are owned once, the slots of an owned incarnation are its handle's, anything else in them is newer; exact and unshared correspondence survives every disciplined operation |
| `Ownership.CloseReports` | include/pposix/util.hpp:58-59 | in any world: the error of a closing call is the refusal's errno, the invalid-value errno, or none, and the kernel changes only in the last case, by the value's slots |
| `Ownership.AcquireReports` | include/pposix/util.hpp:68-73 | in any world: a refused acquiring call reports its errno and changes nothing; a granted one reports what the resource answers and takes exactly the new value's slots |
| `Ownership.AcquireTracks` | src/mman.cpp:10-19 | acquiring puts the fresh incarnation in the new cell and disturbs no other |
| `Ownership.ClosedTracks` | include/pposix/descriptor.hpp:69-76 | a close leaves every other cell's slots as they were |
| `Safety.CloseEndsOwned` | include/pposix/descriptor.hpp:35-76 | after every disciplined run, with slots reused: a close succeeds iff the handle owns something and the kernel grants it, and then ends exactly the incarnation owned; else nothing changes |
| `Safety.CloseErrors` | include/pposix/descriptor.hpp:69-76 | after every disciplined run: closing a handle that owns nothing reports the invalid-value errno, a refused close exactly its own errno, a granted one none |
| `Safety.CloseSparesOthers` | include/pposix/descriptor.hpp:69-76 | it takes all of its slots and none of any other handle's |
| `Safety.HandlesDisjoint` | include/pposix/descriptor.hpp:33-76 | live handles have distinct values, disjoint slots, all occupied |
| `Safety.Conservation` | include/pposix/descriptor.hpp:35-76 | every incarnation ever opened is in exactly one place: owned by a handle, outstanding as a raw value, ended, leaked; live iff not ended |
| `Safety.LeakedIsLost` | include/pposix/descriptor.hpp:35-39 | leaked incarnations are those still in a handle's slots when its destructor's close failed |
| `Safety.AllDestroyed` | include/pposix/descriptor.hpp:35-39 | once all handles are destroyed, what is live is what failed destructor closes left and what is still held raw; with neither, the kernel is empty |
| `Safety.DeadStaysDead` | src/file_descriptor.cpp:9-11 | an ended incarnation never comes back in any run, so none is closed twice |
| `PastTheHandle.CloseTakes` | include/pposix/descriptor.hpp:57-76 | after any run at all, copies and closes past handles included: a successful close ends all that is left of the incarnation its value was acquired for, and anything else it takes is newer; a failed one changes nothing |
| `PastTheHandle.DestroyAfterKernelClose` | src/file.cpp:10-12 | after a close past the handle and any run that leaves the handle alone, the destructor changes the kernel iff a slot is occupied again and it is granted; it then takes exactly those slots, all of later incarnations |
| `FileDescriptors.LowestFree` | src/fcntl.cpp:22-25 | the number handed out is free and all lower ones are in use |
| `FileDescriptors.OpenReports` | src/fcntl.cpp:22-25 | an open reports the errno it was refused with, or hands out the lowest free number and changes nothing else, or EMFILE at the limit |
| `FileDescriptors.FdLawful` | include/pposix/file_descriptor.hpp:24-26 | descriptor numbers with null -1 obey the laws the general theorems need |
| `FileDescriptors.UniqueOwnership` | include/pposix/descriptor.hpp:35-76 | the non-null values of live handles are distinct open numbers |
| `FileDescriptors.FileDestroyedAfterClose` | src/file.cpp:10-12 | a closed file's destructor ends another descriptor iff the number is open again and the close is granted, and then a later one; else the table is unchanged |
| `FileDescriptors.CloseExact` | src/file_descriptor.cpp:9-11 | after any run at all: a close succeeds iff the number is open and granted, reports EBADF for a number not in use and the refusal's own errno otherwise; a success ends exactly one descriptor, the owned one iff the owned one is still live, otherwise a later one |
| `FileDescriptors.SafeIffNoneReopened` | src/file.cpp:10-12 | a run ends only owned descriptors iff no close is granted on a number reopened after its handle's descriptor was closed |
| `FileDescriptors.HandlesAreSafe` | include/pposix/descriptor.hpp:35-76 | disciplined runs satisfy that condition |
| `FileDescriptors.SafePrograms` | include/pposix/descriptor.hpp:57-76 | the same for every program from its start, whatever it copies and closes; in a safe one an incarnation is gone iff a close of a value acquired for it succeeded |
| `FileDescriptors.SafeRunsAccounted` | include/pposix/descriptor.hpp:57-76 | safe runs keep that account at every step |
| `FileDescriptors.LowestAfterClose` | src/file_descriptor.cpp:9-11 | a closed number is handed out next iff no lower one was free |
| `FileDescriptors.CloseOpenDestroy` | src/file.cpp:10-12 | after file::close and one open, the destructor closes the new descriptor iff no lower number was free |
| `FileDescriptors.SecondFileLost` | src/file.cpp:10-12 | a program in which an innocent handle loses its descriptor |
| `Mappings.MmapLawful` | include/pposix/mman.hpp:15-38 | page ranges with null (MAP_FAILED, 0) obey the laws the general theorems need |
| `Mappings.MappedPages` | src/mman.cpp:10-19 | a fresh mapping holds the length asked for at the address of the chosen page, is in range and covers exactly the pages from there |
| `Mappings.MapReports` | src/mman.cpp:10-19 | a refused map reports its errno; a zero length is invalid; a request for free pages inside the address space succeeds with the address of its page and the length asked for; any other runs out of memory |
| `Mappings.UnmapReports` | src/mman.cpp:28-30 | an unmapping call reports EINVAL for an empty, unaligned or out-of-range value, its errno if refused, and otherwise unmaps exactly the pages of the range |
| `Mappings.NullIsMapFailed` | include/pposix/mman.hpp:26-27 | the null handle is (MAP_FAILED, 0), and in no run does a mapping have that address |
| `Mappings.PagesHoldBytes` | src/mman.cpp:28-30 | the pages munmap takes are those holding a byte of the range |
| `Mappings.MappingsDisjoint` | include/pposix/mman.hpp:83-85 | after a disciplined run live mappings own disjoint page-rounded byte ranges |
| `Mappings.MappingClosed` | src/mman.cpp:28-30 | after a disciplined run, closing or destroying a handle unmaps exactly its pages and no page of any other handle |
| `Mappings.SecondUnmapSucceeds` | src/mman.cpp:34-36 | after mmap::unmap the destructor's munmap reports success whenever granted |
| `Mappings.RemappedPagesLost` | src/mman.cpp:34-36 | a mapping made over unmapped pages loses to the destructor exactly the pages it shares with the old range |
| `Moves.MovesPermute` | include/pposix/descriptor.hpp:48-50 | any sequence of move assignments, self-moves included, permutes the handles' values by a permutation that depends on the moves alone and leaves the kernel untouched |
| `Moves.OpenOwns` | include/pposix/file.hpp:44-57 | after any run, a successful open adds exactly one handle, owning the value handed out and the new incarnation, and the temporary's close has no effect; a failed one changes nothing and reports the refusal's errno or the resource's |
| `Results.ChainIsOneMap` | include/pposix/result.hpp:123-132 | mapping a list of stages one by one equals one map of their composition |
| `Results.ChainReportsFirstError` | include/pposix/result.hpp:123-132 | a chain fails with a code iff it was entered with it or its first failing stage produced it |
| `ErrnoScopes.ErrnoContext.constructor` | src/errno.cpp:19 | saves errno and sets it to zero |
| `ErrnoScopes.ErrnoContext.Restore` | src/errno.cpp:21 | puts the saved value back |
| `ErrnoScopes.ErrnoContext.Destroy` | src/errno.cpp:18 | so does the destructor |
| `ErrnoScopes.ScopeRestores` | src/errno.cpp:18-22 | a scope entered anywhere, around any well-nested body, starts at zero and leaves errno and the enclosing scopes as they were |
| `ErrnoScopes.RestoreInside` | src/errno.cpp:21 | a mid-scope restore gives errno the value from just before that scope, however many scopes entered since are open, and leaves them open |
| `ErrnoScopes.SurroundingsKept` | src/errno.cpp:18-22 | code that leaves no scope it did not enter keeps the contexts it found, under those it left open |
| `ErrnoScopes.Thread.Run` | src/errno.cpp:18-22 | context objects carry out any instruction list, nested or not, as the scope machine does |
| `Config.Sysconf` | src/sysconf.cpp:8-18 | the caller's errno is unchanged and plays no part; a value comes back iff the call returned other than -1 or left errno at zero, and it is the call's own value; an error is the errno the call stored |
| `Config.ConfstrLength` | src/confstr.cpp:10-20 | errno unchanged; the length with its terminator, 0 for a name without a value, or the errno stored for an unknown name |
| `Config.Confstr` | src/confstr.cpp:22-32 | errno unchanged; an unknown name gives the errno stored; a name without a value an empty span at the buffer; both leave memory alone; a value the span of the needed length at the buffer, which holds what was stored |
| `Config.SysConfstr` | src/confstr.cpp:25 | fills the buffer in place with the terminated value or a terminated prefix |
| `Config.TwoCalls` | src/confstr.cpp:10-32 | the span lies in the buffer iff the buffer is as long as confstr_length said, and then holds the whole terminated value; otherwise a terminated prefix; no byte outside the buffer changes |
| `Spans.SubspanExact` | include/pposix/byte_span.hpp:96-102 | for all 64-bit arguments: the window if it fits by unbounded arithmetic, else the empty span |
| `Spans.MakeKeeps` | include/pposix/byte_span.hpp:67-68 | a non-null pointer keeps its length, a null one loses it |
| `Spans.ToConstKeeps` | include/pposix/byte_span.hpp:92-94 | the conversion keeps pointer and length |
| `Spans.WrappingTestDiffers` | include/pposix/byte_span.hpp:97 | comparing the wrapped sum instead would accept what the code rejects exactly when the sum wraps into range |
| `Spans.ChainInside` | include/pposix/byte_span.hpp:67-102 | any chain of conversions and windows stays inside the original or is empty; null implies length 0 |
| `Spans.ConversionsVanish` | include/pposix/byte_span.hpp:92-102 | any chain equals the nest of its windows with the conversions left out |
| `Spans.NullStaysEmpty` | include/pposix/byte_span.hpp:67-68 | a null pointer gives the empty span through any chain, whatever lengths are named |
| `Spans.NestedCollapse` | include/pposix/byte_span.hpp:44-50 | nested windows equal one window at the sum of offsets with the last count, without overflow, iff every step fits; else empty |
| `Permissions.StrToPermission` | include/pposix/stat.hpp:52-61 | the loop's value has the bit of a letter iff the letter occurs |
| `Permissions.LiteralBits` | include/pposix/stat.hpp:63-106 | the one bits are those of the recognised letters present and no others |
| `Permissions.LiteralCharacters` | include/pposix/stat.hpp:63-106 | over characters: R or r, W or w, X or x set the class's three bits, and nothing sets any other |
| `Permissions.CaseIgnored` | include/pposix/stat.hpp:65-75 | changing the case of any letter leaves the value unchanged |
| `Permissions.OthersIgnored` | include/pposix/stat.hpp:78-82 | deleting every character that is no permission letter leaves the value unchanged |
| `Permissions.LiteralIsLetters` | include/pposix/stat.hpp:52-83 | two strings give the same value iff they contain the same letters, whatever their order and repetition |
| `Permissions.ConcatIsOr` | include/pposix/stat.hpp:39-41 | concatenating strings ORs their values |
| `Permissions.CombinedDetermines` | include/pposix/stat.hpp:87-106 | user, group and other literals ORed together agree iff all three letter sets agree |
| `Permissions.PrintRoundTrip` | include/pposix/stat.hpp:20-41 | printing any nine bits as three rwx strings and reading them back gives the same bits |
| `Bits.OrBits` | include/pposix/stat.hpp:39-41 | OR is union of one bits |
| `Bits.AndOne` | include/pposix/syslog.hpp:42-44 | masking with `1 << k` is non-zero iff bit k is set |
| `Syslog.PrioritySet.constructor` | include/pposix/syslog.hpp:32-36 | the set holds exactly the listed priorities |
| `Syslog.PrioritySet.Set` | include/pposix/syslog.hpp:38-40 | adds one priority and nothing else |
| `Syslog.PrioritySet.Test` | include/pposix/syslog.hpp:42-44 | true iff the priority is in the set |
| `Syslog.SameMaskSameSet` | include/pposix/syslog.hpp:32-40 | two lists build the same mask iff they name the same priorities |
| `Syslog.Log.SetLogMask` | src/syslog.cpp:16-18 | returns the mask in force and installs the new one unless it is empty |
| `Syslog.ExchangeReturns` | src/syslog.cpp:16-18 | over any sequence of calls, each returns the last non-empty mask requested before it, or the initial one |
| `Syslog.ReinstallRestores` | src/syslog.cpp:16-18 | from a non-empty mask, installing what any earlier call returned puts back the mask in force before that call, whatever was installed since |

## Left out

- Raw values made up from plain integers: every raw value comes from an acquiring call, `release` or a copy.
- A close interrupted by EINTR, after which POSIX leaves the descriptor's state open.
- `mmap_fixed`, which maps over existing pages on purpose.
- `file::read`, `file::write`, `file::lseek`, `mmap_protect`, `fcntl`, `ioctl`, socket options, epoll and message queue calls: single foreign calls.
- Compile-time checks of open and mapping flags, and the constant tables of enumerators.
- The directory, socket and message queue instances of the handle: the general theorems apply to any instance that obeys the laws; only the two with a kernel of their own shape are instantiated.
- The width of raw descriptor numbers: the kernel's limit is a parameter, taken to fit in an int. Permission and priority masks are unbounded unsigned integers; the code sets only their low nine and eight bits.
- Threads: the code has no synchronisation, and runs are sequences of steps.
- Exceptions thrown by `result::value` and `result::error`, and references to the stored value.
