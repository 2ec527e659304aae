/** The SSPI credential record `AuthIdentity`, the managed form of Windows'
    `SEC_WINNT_AUTH_IDENTITY`: a user name, a (reserved) domain, a password
    held in zero-on-free global memory, and a character-set flag.

    The pure part of this module describes the record as a value
    (`IdentityRecord`) and what construction and release do to it; the class
    `AuthIdentity` is the object itself, whose methods update its fields in
    place and are proved against those functions. */
module Sspi {
  import opened NativeMemory

  datatype Option<+T> = None | Some(value: T)

  /** The character-set flag of the native record (`AuthIdentityFlag`). */
  datatype AuthIdentityFlag = Ansi | Unicode

  /** The fields of the record, in the order of the native layout. */
  datatype IdentityRecord = IdentityRecord(
    username: Option<WideString>,
    usernameLength: int,
    domain: Option<WideString>,
    domainLength: int,
    password: Handle,
    passwordLength: int,
    flags: AuthIdentityFlag)

  /** `string.IsNullOrEmpty` on the user name. */
  predicate UsernameIsNullOrEmpty(username: Option<WideString>) {
    username.None? || username.value == []
  }

  /** The negation of the guard `password != null && password.Length > 0`. */
  predicate PasswordIsNullOrEmpty(password: Option<WideString>) {
    password.None? || |password.value| == 0
  }

  /** What every record ever held by an `AuthIdentity` satisfies: the user
      name is normalised (absent, or non-empty with its length recorded), the
      domain is unused, the flag is Unicode, and a live password handle comes
      with a positive length. */
  predicate Consistent(r: IdentityRecord) {
    (r.username.None? ==> r.usernameLength == 0) &&
    (r.username.Some? ==> r.username.value != [] && r.usernameLength == |r.username.value|) &&
    r.domain.None? && r.domainLength == 0 &&
    r.flags == Unicode &&
    0 <= r.passwordLength &&
    (r.password != Zero ==> 0 < r.passwordLength)
  }

  /** The pairing of handle and length that the native structure implies,
      since `PasswordLength` there is the length of the string `Password`
      points to: the handle is live exactly when the length is positive. */
  predicate HandleMatchesLength(r: IdentityRecord) {
    r.password != Zero <==> 0 < r.passwordLength
  }

  /** The record the constructor builds, given the handle `alloc` that the
      allocator returns when it is called (it is not called for an empty
      password, and then `alloc` is ignored). */
  function Construct(username: Option<WideString>, password: Option<WideString>, alloc: Handle): (r: IdentityRecord)
    requires !PasswordIsNullOrEmpty(password) ==> alloc != Zero
    ensures UsernameIsNullOrEmpty(username) ==> r.username == None && r.usernameLength == 0
    ensures !UsernameIsNullOrEmpty(username) ==> r.username == username && r.usernameLength == |username.value|
    ensures PasswordIsNullOrEmpty(password) ==> r.password == Zero && r.passwordLength == 0
    ensures !PasswordIsNullOrEmpty(password) ==> r.password == alloc && r.passwordLength == |password.value|
    ensures r.domain == None && r.domainLength == 0 && r.flags == Unicode
    ensures Consistent(r) && HandleMatchesLength(r)
  {
    var (user, userLength) :=
      if UsernameIsNullOrEmpty(username) then (None, 0) else (username, |username.value|);
    var (handle, length) :=
      if PasswordIsNullOrEmpty(password) then (Zero, 0) else (alloc, |password.value|);
    IdentityRecord(user, userLength, None, 0, handle, length, Unicode)
  }

  /** One run of the private `Dispose(bool)`: the new record, and the handles
      it zero-frees.  The `disposing` argument plays no part. */
  function ReleaseStep(s: IdentityRecord, disposing: bool): (r: (IdentityRecord, seq<Handle>))
    ensures r.0.password == Zero
    ensures r.0 == s.(password := Zero)
    ensures |r.1| <= 1 && (r.1 == [] <==> s.password == Zero)
    ensures forall h :: h in r.1 ==> h == s.password
    ensures Consistent(s) ==> Consistent(r.0)
  {
    if s.password != Zero then (s.(password := Zero), [s.password]) else (s, [])
  }

  /** The two callers of `Dispose(bool)`: the public `Dispose()` and the
      finalizer. */
  datatype Call = ExplicitDispose | Finalizer

  function Disposing(c: Call): bool {
    c == ExplicitDispose
  }

  /** The record after a sequence of release calls, and every handle those
      calls zero-freed, in order. */
  function Run(s: IdentityRecord, calls: seq<Call>): (IdentityRecord, seq<Handle>)
    decreases |calls|
  {
    if calls == [] then (s, [])
    else
      var step := ReleaseStep(s, Disposing(calls[0]));
      var rest := Run(step.0, calls[1..]);
      (rest.0, step.1 + rest.1)
  }

  /** The `disposing` flag does not change what a release does, so the
      explicit `Dispose()` and the finalizer behave alike. */
  lemma DisposingIsIgnored(s: IdentityRecord)
    ensures ReleaseStep(s, true) == ReleaseStep(s, false)
  {
  }

  /** Releasing a released record does nothing and frees nothing. */
  lemma ReleaseIsIdempotent(s: IdentityRecord, first: bool, second: bool)
    ensures ReleaseStep(ReleaseStep(s, first).0, second) == (ReleaseStep(s, first).0, [])
  {
  }

  /** Whatever sequence of release calls is made, the handle held at the
      start is zero-freed at most once, and nothing else is freed. */
  lemma {:induction false} RunFreesAtMostOnce(s: IdentityRecord, calls: seq<Call>)
    decreases |calls|
    ensures Run(s, calls).1 == if calls != [] && s.password != Zero then [s.password] else []
  {
    if calls != [] {
      var step := ReleaseStep(s, Disposing(calls[0]));
      RunFreesAtMostOnce(step.0, calls[1..]);
    }
  }

  /** A sequence of release calls changes only the password handle, which
      becomes zero as soon as there is one call. */
  lemma {:induction false} RunChangesOnlyPassword(s: IdentityRecord, calls: seq<Call>)
    decreases |calls|
    ensures Run(s, calls).0 == if calls == [] then s else s.(password := Zero)
  {
    if calls != [] {
      var step := ReleaseStep(s, Disposing(calls[0]));
      RunChangesOnlyPassword(step.0, calls[1..]);
    }
  }

  /** Two runs of release calls in a row behave as their concatenation. */
  lemma {:induction false} RunConcatenates(s: IdentityRecord, a: seq<Call>, b: seq<Call>)
    decreases |a|
    ensures Run(s, a + b) == (Run(Run(s, a).0, b).0, Run(s, a).1 + Run(Run(s, a).0, b).1)
  {
    if a == [] {
      assert a + b == b && Run(s, a) == (s, []);
      assert [] + Run(s, b).1 == Run(s, b).1;
    } else {
      var step := ReleaseStep(s, Disposing(a[0]));
      assert (a + b)[0] == a[0] && (a + b)[1..] == a[1..] + b;
      RunConcatenates(step.0, a[1..], b);
      var rest := Run(step.0, a[1..]);
      var tail := Run(rest.0, b);
      assert step.1 + (rest.1 + tail.1) == (step.1 + rest.1) + tail.1;
    }
  }

  /** Once one release has happened, any later releases (say, the finalizer
      running after an explicit `Dispose()`) free nothing more. */
  lemma LaterReleasesFreeNothing(s: IdentityRecord, first: seq<Call>, later: seq<Call>)
    requires first != []
    ensures Run(s, first + later).1 == Run(s, first).1
    ensures Run(s, first + later).0 == Run(s, first).0
  {
    RunConcatenates(s, first, later);
    RunChangesOnlyPassword(s, first);
    RunFreesAtMostOnce(Run(s, first).0, later);
    RunChangesOnlyPassword(Run(s, first).0, later);
    assert Run(s, first).1 + [] == Run(s, first).1;
  }

  /** From construction on, for any sequence of release calls, the record
      stays consistent and the allocated handle, if there is one, is
      zero-freed at most once. */
  lemma LifecycleFreesAllocationAtMostOnce(
    username: Option<WideString>, password: Option<WideString>, alloc: Handle, calls: seq<Call>)
    requires !PasswordIsNullOrEmpty(password) ==> alloc != Zero
    ensures Consistent(Run(Construct(username, password, alloc), calls).0)
    ensures Run(Construct(username, password, alloc), calls).1 ==
            if calls != [] && !PasswordIsNullOrEmpty(password) then [alloc] else []
  {
    var s := Construct(username, password, alloc);
    RunFreesAtMostOnce(s, calls);
    RunChangesOnlyPassword(s, calls);
  }

  /** `Dispose` leaves `PasswordLength` as it was, so after releasing a
      non-empty password the handle is zero while the length is positive:
      the pairing of handle and length holds before the first release only. */
  lemma ReleaseBreaksHandleMatchesLength(username: Option<WideString>, password: Option<WideString>, alloc: Handle)
    requires !PasswordIsNullOrEmpty(password) && alloc != Zero
    ensures var s := ReleaseStep(Construct(username, password, alloc), true).0;
      s.password == Zero && s.passwordLength == |password.value| > 0 && !HandleMatchesLength(s)
  {
  }

  /** Lengths count UTF-16 code units, as .NET's `string.Length` does: a
      user name made of one surrogate pair has length 2. */
  lemma SurrogatePairCountsTwo(password: Option<WideString>, alloc: Handle)
    requires !PasswordIsNullOrEmpty(password) ==> alloc != Zero
    ensures Construct(Some([0xD83D, 0xDE00]), password, alloc).usernameLength == 2
  {
  }

  /** The credential object.  Its fields are those of the native record, in
      the native order; only `Password` changes after construction. */
  class AuthIdentity {
    var Username: Option<WideString>
    var UsernameLength: int
    var Domain: Option<WideString>
    var DomainLength: int
    var Password: Handle
    var PasswordLength: int
    var Flags: AuthIdentityFlag

    /** The fields as a record value. */
    function Fields(): IdentityRecord
      reads this
    {
      IdentityRecord(Username, UsernameLength, Domain, DomainLength, Password, PasswordLength, Flags)
    }

    /** The object invariant: the fields are consistent and a non-zero
        password handle is a block of `heap` that has not been freed. */
    ghost predicate Valid(heap: GlobalHeap)
      reads this, heap
    {
      heap.Valid() && Consistent(Fields()) &&
      (Password != Zero ==> Password in heap.Live())
    }

    /** Normalises the user name, copies a non-empty password into fresh
        global memory (and allocates nothing for an empty one), leaves the
        domain empty and sets the Unicode flag. */
    constructor (username: Option<WideString>, password: Option<WideString>, heap: GlobalHeap)
      requires heap.Valid()
      modifies heap
      ensures Valid(heap)
      ensures PasswordIsNullOrEmpty(password) ==>
                Password == Zero && heap.allocations == old(heap.allocations) && heap.next == old(heap.next)
      ensures !PasswordIsNullOrEmpty(password) ==>
                Password != Zero && Password !in old(heap.allocations) &&
                heap.allocations == old(heap.allocations) + [Password]
      ensures Fields() == Construct(username, password, Password)
      ensures heap.zeroFreed == old(heap.zeroFreed)
    {
      Username := None;
      UsernameLength := 0;
      if !UsernameIsNullOrEmpty(username) {
        Username := username;
        UsernameLength := |username.value|;
      }

      Password := Zero;
      PasswordLength := 0;
      if !PasswordIsNullOrEmpty(password) {
        var handle := heap.SecureStringToGlobalAllocUnicode(password.value);
        Password := handle;
        PasswordLength := |password.value|;
      }

      Domain := None;
      DomainLength := 0;

      Flags := Unicode;
    }

    /** The finalizer `~AuthIdentity`: `Dispose(false)`. */
    method Finalize(heap: GlobalHeap)
      requires Valid(heap)
      modifies this`Password, heap
      ensures Valid(heap)
      ensures Fields() == ReleaseStep(old(Fields()), false).0
      ensures heap.zeroFreed == old(heap.zeroFreed) + ReleaseStep(old(Fields()), false).1
      ensures heap.allocations == old(heap.allocations) && heap.next == old(heap.next)
    {
      DisposeCore(false, heap);
    }

    /** The public `Dispose()`: `Dispose(true)`. */
    method Dispose(heap: GlobalHeap)
      requires Valid(heap)
      modifies this`Password, heap
      ensures Valid(heap)
      ensures Fields() == ReleaseStep(old(Fields()), true).0
      ensures heap.zeroFreed == old(heap.zeroFreed) + ReleaseStep(old(Fields()), true).1
      ensures heap.allocations == old(heap.allocations) && heap.next == old(heap.next)
    {
      DisposeCore(true, heap);
    }

    /** The private `Dispose(bool)`: a live password block is zero-freed
        once and the handle cleared; a zero handle means nothing to do.
        Only `Password` and the heap change. */
    method DisposeCore(disposing: bool, heap: GlobalHeap)
      requires Valid(heap)
      modifies this`Password, heap
      ensures Valid(heap)
      ensures Password == Zero
      ensures Fields() == ReleaseStep(old(Fields()), disposing).0
      ensures heap.zeroFreed == old(heap.zeroFreed) + ReleaseStep(old(Fields()), disposing).1
      ensures old(Password) != Zero ==> heap.Live() == old(heap.Live()) - {old(Password)}
      ensures old(Password) == Zero ==> heap.Live() == old(heap.Live())
      ensures heap.allocations == old(heap.allocations) && heap.next == old(heap.next)
    {
      if Password != Zero {
        heap.ZeroFreeGlobalAllocUnicode(Password);
        Password := Zero;
      }
    }
  }
}
