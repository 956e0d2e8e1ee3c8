/** The pointer list of ptrlist.c: every change reallocates the entry array. */
module PtrLists {

  class PtrList<T(0)> {
    var entries: array?<T>
    var count: nat

    ghost predicate Valid()
      reads this
    {
      if entries == null then count == 0 else count > 0 && entries.Length == count
    }

    function Contents(): seq<T>
      reads this, entries
    {
      if entries == null then [] else entries[..]
    }

    constructor ()
      ensures Valid() && Contents() == []
    {
      entries, count := null, 0;
    }

    method Add(value: T)
      requires Valid()
      modifies this
      ensures Valid() && Contents() == old(Contents()) + [value]
      ensures fresh(entries)
    {
      var bigger := new T[count + 1];
      var i := 0;
      while i < count
        invariant i <= count && forall k :: 0 <= k < i ==> bigger[k] == entries[k]
        modifies bigger
      {
        bigger[i] := entries[i];
        i := i + 1;
      }
      bigger[count] := value;
      assert bigger[..] == Contents() + [value];
      entries := bigger;
      count := count + 1;
    }

    /** ptrlist_remove: an index outside the list halts the machine or runs past the new array, and nothing is said
        then. */
    method Remove(index: int) returns (fault: bool)
      requires Valid()
      modifies this
      ensures fault <==> !(0 <= index < |old(Contents())|)
      ensures !fault ==> Valid() && Contents() == old(Contents())[..index] + old(Contents())[index + 1..]
      ensures !fault ==> entries == null || fresh(entries)
    {
      if index == 0 && count == 1 {
        entries, count := null, 0;
        return false;
      }
      if count == 0 { return true; }
      var smaller := new T[count - 1];
      var i, j := 0, 0;
      while i < count
        invariant i <= count && j == (if 0 <= index < i then i - 1 else i) && j <= count - 1
        invariant forall k :: 0 <= k < j ==> smaller[k] == entries[if 0 <= index <= k then k + 1 else k]
        modifies smaller
      {
        if i != index {
          if j == smaller.Length { return true; }
          smaller[j] := entries[i];
          j := j + 1;
        }
        i := i + 1;
      }
      assert smaller[..] == Contents()[..index] + Contents()[index + 1..];
      entries := smaller;
      count := count - 1;
      fault := false;
    }

    /** ptrlist_get: a missing index halts the machine. */
    method Get(index: int) returns (halted: bool, value: T)
      requires Valid()
      ensures halted <==> !(0 <= index < |Contents()|)
      ensures !halted ==> value == Contents()[index]
    {
      if index < 0 || index >= count {
        halted, value := true, *;
      } else {
        halted, value := false, entries[index];
      }
    }

    /** ptrlist_dup: the same entries in storage of their own. */
    method Dup() returns (copy: PtrList<T>)
      requires Valid()
      ensures fresh(copy) && copy.Valid() && copy.Contents() == Contents()
      ensures copy.entries == null || fresh(copy.entries)
    {
      copy := new PtrList();
      if entries == null || count == 0 { return; }
      var a := new T[count];
      forall i | 0 <= i < count { a[i] := entries[i]; }
      copy.entries, copy.count := a, count;
    }
  }
}
