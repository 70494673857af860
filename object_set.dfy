/**
 * ObjectSet of the Java port: a set kept as the first `size` slots of an
 * array that doubles when full, compared by identity (`==`), iterated in
 * insertion order.  SimpleLoop keeps its member blocks and its child loops
 * in one each.
 */
module ObjectSets {

  /** The elements after adding `e` to `s`: unchanged if `e` is already there, else `e` at the end. */
  function Added<T(==)>(s: seq<T>, e: T): (r: seq<T>)
  {
    if e in s then s else s + [e]
  }

  /** No element occurs twice. */
  ghost predicate Distinct<T>(s: seq<T>)
  {
    forall i, j | 0 <= i < j < |s| :: s[i] != s[j]
  }

  /** Adding keeps the elements distinct, keeps every element and their order, and puts `e` in. */
  lemma AddedKeeps<T>(s: seq<T>, e: T)
    requires Distinct(s)
    ensures Distinct(Added(s, e)) && e in Added(s, e)
    ensures Added(s, e)[..|s|] == s && |s| <= |Added(s, e)| <= |s| + 1
    ensures |Added(s, e)| == |s| + 1 <==> e !in s
  {
  }

  /** Adding the same element twice is adding it once. */
  lemma AddedIdempotent<T>(s: seq<T>, e: T)
    ensures Added(Added(s, e), e) == Added(s, e)
  {
  }

  class ObjectSet<T(==,0)> {
    var arr: array<T>
    var size: nat

    /** The elements, in insertion order. */
    ghost function Elements(): seq<T>
      reads this, arr
      requires size <= arr.Length
    {
      arr[..size]
    }

    /** The array has room for the elements, never shrinks below 2, and holds no element twice. */
    ghost predicate Valid()
      reads this, arr
    {
      2 <= arr.Length && size <= arr.Length && Distinct(Elements())
    }

    /** `new ObjectSet()`: empty, with room for two elements. */
    constructor ()
      ensures Valid() && Elements() == [] && arr.Length == 2 && fresh(arr)
    {
      arr := new T[2];
      size := 0;
    }

    /** size(). */
    function Size(): (n: nat)
      reads this, arr
      requires Valid()
      ensures n == |Elements()|
    {
      size
    }

    /**
     * add: scans the elements; if `e` is one of them, returns false and
     * changes nothing; otherwise, after doubling the array when it is full
     * (keeping every element in place), stores `e` after the last element
     * and returns true.
     */
    method Add(e: T) returns (added: bool)
      requires Valid()
      modifies this, arr
      ensures Valid() && added == (e !in old(Elements()))
      ensures Elements() == Added(old(Elements()), e)
      ensures arr.Length == if added && old(size) == old(arr.Length) then 2 * old(arr.Length) else old(arr.Length)
      ensures arr == old(arr) || fresh(arr)
    {
      var i := 0;
      while i < size
        invariant 0 <= i <= size && e !in arr[..i]
      {
        if arr[i] == e {
          return false;
        }
        i := i + 1;
      }
      assert arr[..size] == Elements();
      AddedKeeps(Elements(), e);
      if size == arr.Length {
        Grow();
      }
      arr[size] := e;
      size := size + 1;
      assert Elements() == old(Elements()) + [e];
      return true;
    }

    /** The doubling in add: a new array twice as long, the old one copied to its front. */
    method Grow()
      requires size <= arr.Length
      modifies this
      ensures arr.Length == 2 * old(arr.Length) && fresh(arr) && size == old(size)
      ensures arr[..old(arr.Length)] == old(arr[..])
    {
      var previous := arr;
      arr := new T[previous.Length * 2];
      forall k | 0 <= k < previous.Length {
        arr[k] := previous[k];
      }
    }

    /** The iterator: from position 0 while it differs from size, yields the next slot. */
    method Items() returns (items: seq<T>)
      requires Valid()
      ensures items == Elements() && Distinct(items)
    {
      items := [];
      var curr := 0;
      while curr != size
        invariant 0 <= curr <= size && items == arr[..curr]
        decreases size - curr
      {
        items := items + [arr[curr]];
        curr := curr + 1;
      }
    }
  }
}
