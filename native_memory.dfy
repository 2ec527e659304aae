/** Abstraction of the process-wide unmanaged heap reached through the two
    `System.Runtime.InteropServices.Marshal` calls that `AuthIdentity` uses:
    `SecureStringToGlobalAllocUnicode` (decrypt a secure string into a fresh
    block of global memory) and `ZeroFreeGlobalAllocUnicode` (overwrite such a
    block with zeros, then free it).  Only the handles are modelled; the bytes,
    the encryption of the secure string and out-of-memory failures are not. */
module NativeMemory {

  /** A .NET `char`: one UTF-16 code unit.  A character outside the Basic
      Multilingual Plane takes two of them (a surrogate pair), and a lone
      surrogate is a code unit like any other. */
  newtype WideChar = c: int | 0 <= c < 0x1_0000

  /** The characters of a .NET `string` or `SecureString`; its `Length` is
      the length of this sequence. */
  type WideString = seq<WideChar>

  /** A native pointer; 0 stands for `IntPtr.Zero`. */
  type Handle = nat

  const Zero: Handle := 0

  /** No value occurs twice in `s`. */
  predicate NoDuplicates(s: seq<Handle>) {
    forall i, j :: 0 <= i < j < |s| ==> s[i] != s[j]
  }

  /** A duplicate-free log mentions each handle at most once. */
  lemma {:induction false} NoDuplicatesAtMostOnce(s: seq<Handle>, h: Handle)
    requires NoDuplicates(s)
    ensures multiset(s)[h] <= 1
  {
    if s != [] {
      assert s == [s[0]] + s[1..];
      NoDuplicatesAtMostOnce(s[1..], h);
      if h == s[0] {
        assert h !in s[1..] by {
          forall k | 0 <= k < |s[1..]| ensures s[1..][k] != h {
            assert s[1..][k] == s[k + 1];
          }
        }
      }
    }
  }

  class GlobalHeap {
    // the next handle the allocator hands out; handles are never reused
    var next: Handle
    // every handle the allocator has returned, in order
    ghost var allocations: seq<Handle>
    // every handle that has been zeroed and freed, in order
    ghost var zeroFreed: seq<Handle>

    /** Handles that have been allocated and not yet zero-freed. */
    ghost function Live(): set<Handle>
      reads this
    {
      (set h | h in allocations) - (set h | h in zeroFreed)
    }

    /** The heap's invariant: handles are non-zero and fresh, and every
        allocated handle is zero-freed at most once. */
    ghost predicate Valid()
      reads this
    {
      0 < next &&
      (forall i :: 0 <= i < |allocations| ==> 0 < allocations[i] < next) &&
      NoDuplicates(allocations) &&
      NoDuplicates(zeroFreed) &&
      (forall i :: 0 <= i < |zeroFreed| ==> zeroFreed[i] in allocations)
    }

    /** In a valid heap every handle has been zero-freed at most once, and
        only handles the allocator returned have been zero-freed. */
    lemma ZeroFreedAtMostOnce(h: Handle)
      requires Valid()
      ensures multiset(zeroFreed)[h] <= 1
      ensures h in zeroFreed ==> h in allocations && h != Zero
    {
      NoDuplicatesAtMostOnce(zeroFreed, h);
    }

    constructor ()
      ensures Valid()
      ensures allocations == [] && zeroFreed == []
    {
      next := 1;
      allocations := [];
      zeroFreed := [];
    }

    /** Copies the decrypted secure string into a new block of global memory
        and returns its handle: never zero, never handed out before. */
    method SecureStringToGlobalAllocUnicode(secret: WideString) returns (h: Handle)
      requires Valid()
      modifies this
      ensures Valid()
      ensures h != Zero && h !in old(allocations)
      ensures allocations == old(allocations) + [h]
      ensures zeroFreed == old(zeroFreed)
      ensures Live() == old(Live()) + {h}
    {
      h := next;
      next := next + 1;
      allocations := allocations + [h];
    }

    /** Zeroes and frees the block behind `h`.  Only a live block may be
        released; this precondition is what rules out a double free. */
    method ZeroFreeGlobalAllocUnicode(h: Handle)
      requires Valid() && h in Live()
      modifies this
      ensures Valid()
      ensures zeroFreed == old(zeroFreed) + [h]
      ensures allocations == old(allocations) && next == old(next)
      ensures Live() == old(Live()) - {h}
    {
      zeroFreed := zeroFreed + [h];
    }
  }
}
