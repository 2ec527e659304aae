# AuthIdentity: the SSPI credential record of the MongoDB C# driver

This project models `AuthIdentity`, the class the driver's SSPI (Windows
Security Support Provider Interface) authentication uses as the managed form
of Windows' `SEC_WINNT_AUTH_IDENTITY` structure, and proves its lifecycle:

- construction normalises the user name and allocates global memory for the
  password only when the password is non-empty;
- the domain is always empty and the flag always `Unicode`;
- releasing the object (explicit `Dispose()` or the finalizer, both through
  the private `Dispose(bool)`) zero-frees a live password block once and
  clears the handle, changes nothing else, and does nothing when the handle
  is already zero.

Files:

- `native_memory.dfy`, module `NativeMemory`: the class `GlobalHeap`, an
  abstraction of the two `Marshal` calls the record uses. The allocator
  returns a fresh non-zero handle and appends it to a ghost log
  `allocations`; zero-and-free appends the handle to a ghost log `zeroFreed`
  and may only be called on a live (allocated, not yet freed) handle. The
  heap's invariant `Valid()` keeps `zeroFreed` free of duplicates, so every
  allocated handle is zero-freed at most once, whatever calls are made.
- `auth_identity.dfy`, module `Sspi`: the record as a value
  (`IdentityRecord`, fields in the native order), the pure effect of
  construction (`Construct`), of one release (`ReleaseStep`) and of any
  sequence of releases (`Run`), the lemmas about them, and the class
  `AuthIdentity` whose constructor and methods update its fields in place
  and are proved against those functions.

Handles are `nat`, with 0 standing for `IntPtr.Zero`. A .NET string or
`SecureString` is a `WideString`, a sequence of `WideChar`s, each one UTF-16
code unit, so lengths count code units as `string.Length` and
`SecureString.Length` do, and lone surrogates are representable. A `null`
string or `SecureString` is `None` of an `Option`. The finalizer `~AuthIdentity` is the
method `Finalize`; the private `Dispose(bool)` is `DisposeCore`, since Dafny
has no overloading.

Two expectations that come from the native structure and its use are not
met by the code, and are modelled as the code has them:

- In `SEC_WINNT_AUTH_IDENTITY`, `PasswordLength` is the length of the string
  `Password` points to, so a zero handle with a positive length is
  inconsistent. `Dispose` clears the handle but does not reset
  `PasswordLength` (`AuthIdentity.cs:89-93`). Before the first release the
  handle is non-zero exactly when the length is positive
  (`HandleMatchesLength`); afterwards only the one direction in `Consistent`
  holds, and `ReleaseBreaksHandleMatchesLength` shows the other failing.
- The finalizer runs on the garbage collector's thread and may overlap an
  explicit `Dispose()` on another thread, but the check-and-clear in
  `Dispose(bool)` (`AuthIdentity.cs:89-92`) is a plain `if` with no lock or
  compare-and-swap. The model is sequential; the at-most-once guarantee it
  proves holds for any sequence of calls, not for calls that interleave.

## Model

| member | source | states |
|---|---|---|
| `Sspi.Construct` | mongo-csharp-driver-master/MongoDB.Driver/Communication/Security/Mechanisms/Sspi/AuthIdentity.cs:46-69 | a null or empty user name gives no user name and length 0, any other is kept with its length in UTF-16 code units; a null or empty password gives the zero handle and length 0, any other gives the allocator's handle and the password's length in UTF-16 code units; domain empty, length 0, flag Unicode; the result is consistent and its handle is non-zero exactly when its length is positive |
| `Sspi.AuthIdentity.constructor` | mongo-csharp-driver-master/MongoDB.Driver/Communication/Security/Mechanisms/Sspi/AuthIdentity.cs:46-69 | the new object's fields are `Construct` of the inputs; an empty password leaves the heap untouched (no allocation); a non-empty one is allocated exactly once, with a fresh non-zero handle that is live afterwards; nothing is freed |
| `Sspi.ReleaseStep` | mongo-csharp-driver-master/MongoDB.Driver/Communication/Security/Mechanisms/Sspi/AuthIdentity.cs:87-94 | after one release the handle is zero and every other field is unchanged; exactly the old handle is freed if it was non-zero, nothing if it was zero; consistency is preserved |
| `Sspi.AuthIdentity.DisposeCore` | mongo-csharp-driver-master/MongoDB.Driver/Communication/Security/Mechanisms/Sspi/AuthIdentity.cs:87-94 | may change only `Password` and the heap; the new fields and the zero-free log are those of `ReleaseStep`, whatever `disposing` is; a live handle leaves the live set, a zero handle leaves it as it was; nothing is allocated |
| `Sspi.AuthIdentity.Dispose` | mongo-csharp-driver-master/MongoDB.Driver/Communication/Security/Mechanisms/Sspi/AuthIdentity.cs:80-84 | the public `Dispose()` has the effect of `Dispose(true)` and keeps the object valid |
| `Sspi.AuthIdentity.Finalize` | mongo-csharp-driver-master/MongoDB.Driver/Communication/Security/Mechanisms/Sspi/AuthIdentity.cs:71-74 | the finalizer has the effect of `Dispose(false)` and keeps the object valid |
| `Sspi.DisposingIsIgnored` | mongo-csharp-driver-master/MongoDB.Driver/Communication/Security/Mechanisms/Sspi/AuthIdentity.cs:87-94 | `Dispose(true)` and `Dispose(false)` have the same effect, so both release paths share one behaviour |
| `Sspi.ReleaseIsIdempotent` | mongo-csharp-driver-master/MongoDB.Driver/Communication/Security/Mechanisms/Sspi/AuthIdentity.cs:89-93 | a second release changes nothing and frees nothing |
| `Sspi.RunFreesAtMostOnce` | mongo-csharp-driver-master/MongoDB.Driver/Communication/Security/Mechanisms/Sspi/AuthIdentity.cs:71-94 | any sequence of `Dispose()` and finalizer calls frees the starting handle exactly once if it was non-zero and the sequence is non-empty, and frees nothing otherwise |
| `Sspi.RunChangesOnlyPassword` | mongo-csharp-driver-master/MongoDB.Driver/Communication/Security/Mechanisms/Sspi/AuthIdentity.cs:87-94 | any non-empty sequence of release calls leaves every field but the handle unchanged, `PasswordLength` included, and the handle zero |
| `Sspi.RunConcatenates` | mongo-csharp-driver-master/MongoDB.Driver/Communication/Security/Mechanisms/Sspi/AuthIdentity.cs:71-94 | releasing in two batches has the same effect and frees the same handles as releasing in one |
| `Sspi.LaterReleasesFreeNothing` | mongo-csharp-driver-master/MongoDB.Driver/Communication/Security/Mechanisms/Sspi/AuthIdentity.cs:71-94 | once at least one release has happened, any further `Dispose()` or finalizer calls free nothing and leave the record as it was |
| `Sspi.SurrogatePairCountsTwo` | mongo-csharp-driver-master/MongoDB.Driver/Communication/Security/Mechanisms/Sspi/AuthIdentity.cs:50-54 | a user name made of one surrogate pair is recorded with length 2, as `string.Length` counts it |
| `Sspi.LifecycleFreesAllocationAtMostOnce` | mongo-csharp-driver-master/MongoDB.Driver/Communication/Security/Mechanisms/Sspi/AuthIdentity.cs:46-94 | from construction through any sequence of releases the record stays consistent, and the allocated handle is freed once if the password was non-empty and some release happened, while nothing is freed for an empty password |
| `Sspi.ReleaseBreaksHandleMatchesLength` | mongo-csharp-driver-master/MongoDB.Driver/Communication/Security/Mechanisms/Sspi/AuthIdentity.cs:87-94 | after releasing a non-empty password the handle is zero but `PasswordLength` still holds the password's length, so "handle non-zero exactly when length positive" no longer holds |
| `NativeMemory.GlobalHeap.SecureStringToGlobalAllocUnicode` | mongo-csharp-driver-master/MongoDB.Driver/Communication/Security/Mechanisms/Sspi/AuthIdentity.cs:61 | the allocator returns a non-zero handle never returned before, records it, and it becomes live |
| `NativeMemory.GlobalHeap.ZeroFreeGlobalAllocUnicode` | mongo-csharp-driver-master/MongoDB.Driver/Communication/Security/Mechanisms/Sspi/AuthIdentity.cs:91 | only a live handle may be zero-freed; it is appended to the zero-free log and is no longer live |
| `NativeMemory.GlobalHeap.ZeroFreedAtMostOnce` | mongo-csharp-driver-master/MongoDB.Driver/Communication/Security/Mechanisms/Sspi/AuthIdentity.cs:89-93 | in a valid heap each handle occurs at most once in the zero-free log, and only non-zero allocated handles occur there |

## Left out

- Native layout: `[StructLayout(LayoutKind.Sequential)]` and the `LPWStr`
  marshalling of `Username` and `Domain` fix the binary layout handed to
  Windows; Dafny cannot express sizes or offsets, so the field order is kept
  in `IdentityRecord` and `AuthIdentity` only as documentation.
- Native memory contents: `Marshal.SecureStringToGlobalAllocUnicode` and
  `Marshal.ZeroFreeGlobalAllocUnicode` are modelled by `GlobalHeap` as
  handles and logs only. The bytes written and zeroed, the decryption of the
  `SecureString`, and `OutOfMemoryException` are not modelled.
- `GlobalHeap.SecureStringToGlobalAllocUnicode`: never reuses a handle, even
  one already freed; a real allocator may hand out the same address again.
- `GC.SuppressFinalize` and when the garbage collector runs the finalizer
  are runtime behaviour; the finalizer is modelled only as another caller of
  `Dispose(false)`.
- Concurrency: the finalizer and an explicit `Dispose()` can race in the
  code, which has no lock or compare-and-swap; the model is sequential and
  claims no atomicity.
- Integer width: `UsernameLength` and `PasswordLength` are 32-bit `int`s in
  the code and unbounded in the model; a .NET string's length always fits.
- `AuthIdentityFlag` is defined in a file that is not part of this model;
  its `Ansi` and `Unicode` values appear here by name only, without their
  numeric values.
- `MongoDB.Driver/Operations/WriteRequest.cs` is an enum and a getter over a
  read-only field, with no logic to verify, and is not part of this model.
