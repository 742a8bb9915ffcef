/** The array of held mutexes: eight slots inside the object, the rest in a buffer that grows. */
module MutexArray {
  import opened Options
  import opened Sequences

  const INLINE_CAPACITY: nat := 8

  /** memmove(&a[i], &a[i + 1], n) on overlapping slots. */
  method ShiftDown(a: array<nat>, i: nat, n: nat)
    requires i + n + 1 <= a.Length || n == 0
    modifies a
    ensures forall k :: 0 <= k < a.Length ==>
              a[k] == if i <= k < i + n then old(a[k + 1]) else old(a[k])
  {
    var k := 0;
    while k < n
      invariant 0 <= k <= n
      invariant forall j :: 0 <= j < a.Length ==>
                  a[j] == if i <= j < i + k then old(a[j + 1]) else old(a[j])
    {
      a[i + k] := a[i + k + 1];
      k := k + 1;
    }
  }

  class HeldMutexes {
    const inlineStorage: array<nat>
    var dynamicStorage: array<nat>     // its length is dynamic_capacity
    var size: nat                      // size_including_inline

    ghost predicate Valid()
      reads this
    {
      && inlineStorage.Length == INLINE_CAPACITY
      && inlineStorage != dynamicStorage
      && size <= INLINE_CAPACITY + dynamicStorage.Length
    }

    /** The mutexes in order of acquisition. */
    ghost function Contents(): (s: seq<nat>)
      requires Valid()
      reads this, inlineStorage, dynamicStorage
      ensures |s| == size
    {
      if size <= INLINE_CAPACITY then inlineStorage[..size]
      else inlineStorage[..] + dynamicStorage[..size - INLINE_CAPACITY]
    }

    constructor ()
      ensures Valid() && Contents() == [] && fresh(inlineStorage) && fresh(dynamicStorage)
    {
      inlineStorage := new nat[INLINE_CAPACITY];
      dynamicStorage := new nat[0];
      size := 0;
    }

    method At(i: nat) returns (m: nat)
      requires Valid() && i < size
      ensures m == Contents()[i]
    {
      if i < INLINE_CAPACITY {
        m := inlineStorage[i];
      } else {
        m := dynamicStorage[i - INLINE_CAPACITY];
      }
    }

    method Pop()
      requires Valid()
      modifies this`size
      ensures Valid()
      ensures Contents() == if old(size) == 0 then [] else old(Contents())[..old(size) - 1]
    {
      if size == 0 {
        return;
      }
      size := size - 1;
    }

    /** Append; fails only when the buffer has to grow and there is no memory. */
    method Push(m: nat, canAllocate: bool) returns (ok: bool)
      requires Valid()
      modifies this`size, this`dynamicStorage, inlineStorage, dynamicStorage
      ensures Valid() && (dynamicStorage == old(dynamicStorage) || fresh(dynamicStorage))
      ensures ok || (!canAllocate && old(size) == INLINE_CAPACITY + old(dynamicStorage.Length))
      ensures canAllocate ==> ok
      ensures Contents() == if ok then old(Contents()) + [m] else old(Contents())
    {
      if size >= INLINE_CAPACITY {
        var used := size - INLINE_CAPACITY;
        var capacity := dynamicStorage.Length;
        if used == capacity {
          if !canAllocate {
            return false;
          }
          var extra := if capacity / 2 == 0 then 1 else capacity / 2;
          var buffer := new nat[if capacity == 0 then INLINE_CAPACITY else capacity + extra];
          forall k | 0 <= k < used {
            buffer[k] := dynamicStorage[k];
          }
          dynamicStorage := buffer;
        }
        dynamicStorage[used] := m;
      } else {
        inlineStorage[size] := m;
      }
      size := size + 1;
      return true;
    }

    /** The k-th mutex, wherever it is stored. */
    ghost function Slot(k: nat): nat
      requires Valid() && k < size
      reads this, inlineStorage, dynamicStorage
    {
      if k < INLINE_CAPACITY then inlineStorage[k] else dynamicStorage[k - INLINE_CAPACITY]
    }

    lemma ContentsBySlot(s: seq<nat>)
      requires Valid() && |s| == size && forall k :: 0 <= k < size ==> s[k] == Slot(k)
      ensures Contents() == s
    {
    }

    /** Remove the i-th mutex while shifting everything after it backwards across both storages. */
    method RemoveIdx(i: nat)
      requires Valid() && i < size
      modifies this`size, inlineStorage, dynamicStorage
      ensures Valid()
      ensures Contents() == Without(old(Contents()), i)
    {
      ghost var was := Contents();
      ghost var inl, dyn := inlineStorage[..], dynamicStorage[..];
      assert forall k :: 0 <= k < size ==> was[k] == if k < INLINE_CAPACITY then inl[k] else dyn[k - INLINE_CAPACITY];
      if i >= INLINE_CAPACITY {
        var j := i - INLINE_CAPACITY;
        ShiftDown(dynamicStorage, j, size - INLINE_CAPACITY - (j + 1));
      } else {
        var inlineSize := if INLINE_CAPACITY < size then INLINE_CAPACITY else size;
        ShiftDown(inlineStorage, i, inlineSize - (i + 1));
        if size > INLINE_CAPACITY {
          inlineStorage[INLINE_CAPACITY - 1] := dynamicStorage[0];
          ShiftDown(dynamicStorage, 0, size - (INLINE_CAPACITY + 1));
        }
      }
      forall k | 0 <= k < size - 1
        ensures Slot(k) == if k < i then was[k] else was[k + 1]
      {
        if k >= INLINE_CAPACITY {
          var d := k - INLINE_CAPACITY;
          assert dynamicStorage[d] == if k < i then dyn[d] else dyn[d + 1];
        }
      }
      Pop();
      ContentsBySlot(Without(was, i));
    }

    /** Find the mutex, searching from the last one, and remove it. */
    method RemoveLast(m: nat) returns (found: bool)
      requires Valid()
      modifies this`size, inlineStorage, dynamicStorage
      ensures Valid() && (found <==> m in old(Contents()))
      ensures match LastIndex(old(Contents()), m)
              case None => !found && Contents() == old(Contents())
              case Some(i) => found && Contents() == Without(old(Contents()), i)
    {
      var i := size;
      while i > 0
        invariant 0 <= i <= size == old(size)
        invariant Valid() && Contents() == old(Contents())
        invariant m !in Contents()[i..]
      {
        i := i - 1;
        var item := At(i);
        if item == m {
          LastIndexIs(Contents(), m, i);
          RemoveIdx(i);
          return true;
        }
      }
      return false;
    }
  }
}
