/** The growable sorted array behind directories and the descriptor table. */
module SortedLists {

  /** A comparison as the kernel's callers supply it: negative, zero or positive like a subtraction. */
  ghost predicate Comparison<T(!new)>(cmp: (T, T) -> int) {
    && (forall a, b :: cmp(a, b) < 0 <==> cmp(b, a) > 0)
    && (forall a, b, c :: cmp(a, b) <= 0 && cmp(b, c) <= 0 ==> cmp(a, c) <= 0)
  }

  ghost predicate Sorted<T>(s: seq<T>, cmp: (T, T) -> int) {
    forall i, j :: 0 <= i < j < |s| ==> cmp(s[i], s[j]) <= 0
  }

  /** Seen from the key, the elements are first too small, then equal, then too large. */
  ghost predicate Rising<T, K>(s: seq<T>, cmp: (T, K) -> int, key: K) {
    && (forall i, j :: 0 <= i < j < |s| && cmp(s[j], key) < 0 ==> cmp(s[i], key) < 0)
    && (forall i, j :: 0 <= i < j < |s| && cmp(s[i], key) > 0 ==> cmp(s[j], key) > 0)
  }

  /** Where the binary search of the part from `min` up to `max` ends. */
  function Seek<T, K>(s: seq<T>, cmp: (T, K) -> int, key: K, min: nat, max: nat): (r: nat)
    requires min <= max <= |s|
    ensures min <= r <= max
    decreases max - min
  {
    if min == max then min else
      var mid := (min + max) / 2;
      if cmp(s[mid], key) == 0 then mid
      else if cmp(s[mid], key) < 0 then Seek(s, cmp, key, mid + 1, max)
      else Seek(s, cmp, key, min, mid)
  }

  function Place<T, K>(s: seq<T>, cmp: (T, K) -> int, key: K): (r: nat)
    ensures r <= |s|
  {
    Seek(s, cmp, key, 0, |s|)
  }

  lemma SeekStep<T, K>(s: seq<T>, cmp: (T, K) -> int, key: K, min: nat, max: nat)
    requires min < max <= |s|
    ensures var mid := (min + max) / 2;
            Seek(s, cmp, key, min, max) ==
            if cmp(s[mid], key) == 0 then mid
            else if cmp(s[mid], key) < 0 then Seek(s, cmp, key, mid + 1, max)
            else Seek(s, cmp, key, min, mid)
  {}

  /** The search ends at an equal element if there is one, and otherwise between the smaller and the
      larger ones. */
  lemma {:induction false} SeekLands<T, K>(s: seq<T>, cmp: (T, K) -> int, key: K, min: nat, max: nat)
    requires min <= max <= |s| && Rising(s, cmp, key)
    requires forall i :: 0 <= i < min ==> cmp(s[i], key) < 0
    requires forall i :: max <= i < |s| ==> cmp(s[i], key) > 0
    ensures var r := Seek(s, cmp, key, min, max);
            && (forall i :: 0 <= i < r ==> cmp(s[i], key) <= 0)
            && (forall i :: r <= i < |s| ==> cmp(s[i], key) >= 0)
            && ((exists i :: 0 <= i < |s| && cmp(s[i], key) == 0) <==> r < |s| && cmp(s[r], key) == 0)
    decreases max - min
  {
    hide Seek;
    if min < max {
      SeekStep(s, cmp, key, min, max);
      var mid := (min + max) / 2;
      if cmp(s[mid], key) < 0 {
        SeekLands(s, cmp, key, mid + 1, max);
      } else if cmp(s[mid], key) > 0 {
        SeekLands(s, cmp, key, min, mid);
      } else {
        assert forall i :: 0 <= i < mid ==> cmp(s[i], key) <= 0;
      }
    }
  }

  /** A search among elements that are all too large ends at the beginning. */
  lemma {:induction false} SeekAllAbove<T, K>(s: seq<T>, cmp: (T, K) -> int, key: K, min: nat, max: nat)
    requires min <= max <= |s| && forall i :: min <= i < max ==> cmp(s[i], key) > 0
    ensures Seek(s, cmp, key, min, max) == min
    decreases max - min
  {
    if min < max { SeekAllAbove(s, cmp, key, min, (min + max) / 2); }
  }

  /** A search among elements that are all too small ends behind them. */
  lemma {:induction false} SeekAllBelow<T, K>(s: seq<T>, cmp: (T, K) -> int, key: K, min: nat, max: nat)
    requires min <= max <= |s| && forall i :: min <= i < max ==> cmp(s[i], key) < 0
    ensures Seek(s, cmp, key, min, max) == max
    decreases max - min
  {
    if min < max { SeekAllBelow(s, cmp, key, (min + max) / 2 + 1, max); }
  }

  /** What sorted_list_insert makes of the elements. */
  function Inserted<T>(s: seq<T>, cmp: (T, T) -> int, element: T): seq<T> {
    var c := Place(s, cmp, element);
    s[..c] + [element] + s[c..]
  }

  /** What sorted_list_remove makes of the elements: one always goes. */
  function Removed<T>(s: seq<T>, cmp: (T, T) -> int, element: T): seq<T>
    requires s != []
  {
    var c := Place(s, cmp, element);
    if c < |s| then s[..c] + s[c + 1..] else s[..|s| - 1]
  }

  lemma SortedRises<T(!new)>(s: seq<T>, cmp: (T, T) -> int, key: T)
    requires Comparison(cmp) && Sorted(s, cmp)
    ensures Rising(s, cmp, key)
  {
    forall i, j | 0 <= i < j < |s|
      ensures cmp(s[j], key) < 0 ==> cmp(s[i], key) < 0
      ensures cmp(s[i], key) > 0 ==> cmp(s[j], key) > 0
    {
      Chain(cmp, s[i], s[j], key);
    }
  }

  lemma Chain<T(!new)>(cmp: (T, T) -> int, a: T, b: T, k: T)
    requires Comparison(cmp) && cmp(a, b) <= 0
    ensures cmp(b, k) < 0 ==> cmp(a, k) < 0
    ensures cmp(a, k) > 0 ==> cmp(b, k) > 0
  {
    assert cmp(k, a) <= 0 ==> cmp(k, b) <= 0;
    assert cmp(b, k) <= 0 ==> cmp(a, k) <= 0;
    assert cmp(b, k) < 0 <==> cmp(k, b) > 0;
    assert cmp(a, k) < 0 <==> cmp(k, a) > 0;
  }

  lemma Flip<T(!new)>(cmp: (T, T) -> int, a: T, b: T)
    requires Comparison(cmp)
    ensures cmp(a, b) >= 0 <==> cmp(b, a) <= 0
  {
    assert cmp(a, b) < 0 <==> cmp(b, a) > 0;
  }

  lemma SortedWith<T>(s: seq<T>, c: nat, element: T, cmp: (T, T) -> int)
    requires c <= |s| && Sorted(s, cmp)
    requires forall i :: 0 <= i < c ==> cmp(s[i], element) <= 0
    requires forall i :: c <= i < |s| ==> cmp(element, s[i]) <= 0
    ensures Sorted(s[..c] + [element] + s[c..], cmp)
    ensures multiset(s[..c] + [element] + s[c..]) == multiset(s) + multiset{element}
  {
    var t := s[..c] + [element] + s[c..];
    forall i, j | 0 <= i < j < |t| ensures cmp(t[i], t[j]) <= 0 {
      assert t[i] == if i < c then s[i] else if i == c then element else s[i - 1];
      assert t[j] == if j < c then s[j] else if j == c then element else s[j - 1];
    }
    assert s == s[..c] + s[c..];
  }

  lemma SortedWithout<T>(s: seq<T>, k: nat, cmp: (T, T) -> int)
    requires k < |s| && Sorted(s, cmp)
    ensures Sorted(s[..k] + s[k + 1..], cmp)
    ensures multiset(s[..k] + s[k + 1..]) == multiset(s) - multiset{s[k]}
  {
    var t := s[..k] + s[k + 1..];
    forall i, j | 0 <= i < j < |t| ensures cmp(t[i], t[j]) <= 0 {
      assert t[i] == if i < k then s[i] else s[i + 1];
      assert t[j] == if j < k then s[j] else s[j + 1];
    }
    assert s == s[..k] + [s[k]] + s[k + 1..];
  }

  /** The place found splits the list around the key. */
  lemma PlaceSplits<T(!new)>(s: seq<T>, cmp: (T, T) -> int, key: T)
    requires Comparison(cmp) && Sorted(s, cmp)
    ensures var r := Place(s, cmp, key);
            && (forall i :: 0 <= i < r ==> cmp(s[i], key) <= 0)
            && (forall i :: r <= i < |s| ==> cmp(key, s[i]) <= 0)
            && ((exists i :: 0 <= i < |s| && cmp(s[i], key) == 0) <==> r < |s| && cmp(s[r], key) == 0)
  {
    SortedRises(s, cmp, key);
    SeekLands(s, cmp, key, 0, |s|);
    hide Seek, Rising, Sorted;
    var r := Place(s, cmp, key);
    forall i | r <= i < |s| ensures cmp(key, s[i]) <= 0 {
      Flip(cmp, s[i], key);
    }
  }

  /** Inserting keeps the list sorted and adds exactly the element. */
  lemma InsertedSorted<T(!new)>(s: seq<T>, cmp: (T, T) -> int, element: T)
    requires Comparison(cmp) && Sorted(s, cmp)
    ensures Sorted(Inserted(s, cmp, element), cmp)
    ensures multiset(Inserted(s, cmp, element)) == multiset(s) + multiset{element}
  {
    hide Place, Comparison, Sorted;
    PlaceSplits(s, cmp, element);
    SortedWith(s, Place(s, cmp, element), element, cmp);
  }

  /** The element sorted_list_remove takes out. */
  function Gone<T>(s: seq<T>, cmp: (T, T) -> int, element: T): T
    requires s != []
  {
    var c := Place(s, cmp, element);
    if c < |s| then s[c] else s[|s| - 1]
  }

  /** Removing keeps the list sorted and takes out one element.  It equals the one sought exactly when
      the list has an equal one: otherwise a different element is lost. */
  lemma RemovedSorted<T(!new)>(s: seq<T>, cmp: (T, T) -> int, element: T)
    requires Comparison(cmp) && Sorted(s, cmp) && s != []
    ensures Sorted(Removed(s, cmp, element), cmp)
    ensures Gone(s, cmp, element) in s
    ensures multiset(Removed(s, cmp, element)) == multiset(s) - multiset{Gone(s, cmp, element)}
    ensures cmp(Gone(s, cmp, element), element) == 0 <==> exists x :: x in s && cmp(x, element) == 0
  {
    hide Place, Comparison, Sorted;
    PlaceSplits(s, cmp, element);
    var c := Place(s, cmp, element);
    var k := if c < |s| then c else |s| - 1;
    SortedWithout(s, k, cmp);
    assert c == |s| ==> Removed(s, cmp, element) == s[..k] + s[k + 1..];
    if x :| x in s && cmp(x, element) == 0 {
      var i :| 0 <= i < |s| && s[i] == x;
    }
  }

  /** The elements after n of them have been copied from one place to another, as if through a
      separate buffer. */
  function Moved<T>(s: seq<T>, dest: nat, src: nat, n: nat): (r: seq<T>)
    requires dest + n <= |s| && src + n <= |s|
    ensures |r| == |s|
  {
    s[..dest] + s[src..src + n] + s[dest + n..]
  }

  lemma GapOpened<T>(s: seq<T>, c: nat, n: nat, element: T)
    requires c <= n < |s|
    ensures Moved(s, c + 1, c, n - c)[c := element][..n + 1] == s[..n][..c] + [element] + s[..n][c..]
  {}

  lemma GapClosed<T>(s: seq<T>, c: nat, n: nat, zero: T)
    requires c <= n < |s| && n > 0
    ensures Moved(s, c, c + 1, n - c)[n - 1 := zero][..n - 1] ==
            if c < n then s[..n][..c] + s[..n][c + 1..] else s[..n][..n - 1]
  {}

  /** One more element copied, at the lower or the upper end of those already there. */
  lemma MovedBelow<T>(s: seq<T>, dest: nat, src: nat, n: nat)
    requires 0 < src <= |s| - n && 0 < dest <= |s| - n && src < dest
    ensures Moved(s, dest, src, n)[src - 1] == s[src - 1]
    ensures Moved(s, dest, src, n)[dest - 1 := s[src - 1]] == Moved(s, dest - 1, src - 1, n + 1)
  {}

  lemma MovedAbove<T>(s: seq<T>, dest: nat, src: nat, n: nat)
    requires src < |s| - n && dest <= src
    ensures Moved(s, dest, src, n)[src + n] == s[src + n]
    ensures Moved(s, dest, src, n)[dest + n := s[src + n]] == Moved(s, dest, src, n + 1)
  {}

  lemma MovedNone<T>(s: seq<T>, dest: nat, src: nat)
    requires dest <= |s| && src <= |s|
    ensures Moved(s, dest, src, 0) == s
  {}

  /** memmove of n elements within an array: from the end when moving up, so that no element is
      overwritten before it has moved. */
  method Memmove<T>(a: array<T>, dest: nat, src: nat, n: nat)
    requires dest + n <= a.Length && src + n <= a.Length
    modifies a
    ensures a[..] == Moved(old(a[..]), dest, src, n)
  {
    hide Moved;
    ghost var was := a[..];
    var left: nat := n;
    if src < dest {
      MovedNone(was, dest + n, src + n);
      while left > 0
        invariant left <= n && a[..] == Moved(was, dest + left, src + left, n - left)
      {
        MovedBelow(was, dest + left, src + left, n - left);
        left := left - 1;
        assert a[src + left] == a[..][src + left];
        a[dest + left] := a[src + left];
      }
    } else {
      MovedNone(was, dest, src);
      while left > 0
        invariant left <= n && a[..] == Moved(was, dest, src, n - left)
      {
        MovedAbove(was, dest, src, n - left);
        assert a[src + n - left] == a[..][src + (n - left)];
        a[dest + n - left] := a[src + n - left];
        left := left - 1;
      }
    }
  }

  /** The loop of sorted_list_search over the elements of a list. */
  method SearchIn<T, S>(s: seq<T>, search: S, order: (T, S) -> int) returns (at: nat)
    ensures at == Place(s, order, search)
  {
    var min, max := 0, |s|;
    var mid := min + max / 2;
    while min != max
      invariant min <= max <= |s| && mid == (min + max) / 2
      invariant Seek(s, order, search, min, max) == Place(s, order, search)
      decreases max - min
    {
      var x := order(s[mid], search);
      if x == 0 {
        return mid;
      } else if x < 0 {
        min := mid + 1;
      } else {
        max := mid;
      }
      mid := (min + max) / 2;
    }
    return min;
  }

  /** A list of things of type T, looked up by a K. */
  class SortedList<T(0), K> {
    const cmp: (T, T) -> int
    const searchCmp: (T, K) -> int
    const nothing: T
    var data: array<T>
    var size: nat
    var capacity: nat

    /** There is always a spare place behind the last element. */
    ghost predicate Valid()
      reads this
    {
      size < capacity == data.Length
    }

    ghost function Contents(): (s: seq<T>)
      requires Valid()
      reads this, data
      ensures |s| == size
    {
      data[..size]
    }

    constructor (order: (T, T) -> int, lookup: (T, K) -> int, zero: T)
      ensures Valid() && fresh(data) && Contents() == []
      ensures cmp == order && searchCmp == lookup && nothing == zero
    {
      cmp, searchCmp, nothing := order, lookup, zero;
      capacity := 1;
      data := new T[1];
      size := 0;
    }

    /** krealloc: the old elements in a larger array. */
    method Resize(newSize: nat)
      requires data.Length <= newSize
      modifies this`data, this`capacity
      ensures fresh(data) && data.Length == newSize == capacity
      ensures data[..old(data.Length)] == old(data[..])
    {
      var grown := new T[newSize];
      for i := 0 to data.Length
        invariant fresh(grown) && grown.Length == newSize && data == old(data)
        invariant forall k :: 0 <= k < i ==> grown[k] == data[k]
      {
        grown[i] := data[i];
      }
      data, capacity := grown, newSize;
    }

    method Search<S>(search: S, order: (T, S) -> int) returns (at: nat)
      requires Valid()
      ensures at == Place(Contents(), order, search)
    {
      at := SearchIn(data[..size], search, order);
    }

    method Insert(element: T)
      requires Valid()
      modifies this`data, this`size, this`capacity, data
      ensures Valid() && (data == old(data) || fresh(data))
      ensures Contents() == Inserted(old(Contents()), cmp, element)
    {
      hide Seek, Moved;
      ghost var was := Contents();
      if capacity == size + 1 {
        Resize(capacity * 2);
        assert data[..size] == data[..old(data.Length)][..size];
      }
      assert Contents() == was;
      if size == 0 {
        data[size] := element;
        size := size + 1;
        return;
      }
      var c := Search(element, cmp);
      ghost var cells := data[..];
      Memmove(data, c + 1, c, size - c);
      data[c] := element;
      size := size + 1;
      GapOpened(cells, c, size - 1, element);
    }

    method Remove(element: T)
      requires Valid() && size > 0
      modifies this`size, data
      ensures Valid() && Contents() == Removed(old(Contents()), cmp, element)
    {
      hide Seek, Moved;
      ghost var cells := data[..];
      var c := Search(element, cmp);
      Memmove(data, c, c + 1, size - c);
      GapClosed(cells, c, size, nothing);
      size := size - 1;
      data[size] := nothing;
    }

    /** The element the key finds, or NULL.  Some element must not be smaller than the key: otherwise
        the place found is behind the last element and holds no element to compare. */
    method Get(search: K) returns (found: T, present: bool)
      requires Valid() && Place(Contents(), searchCmp, search) < size
      ensures present <==> searchCmp(Contents()[Place(Contents(), searchCmp, search)], search) == 0
      ensures found == if present then Contents()[Place(Contents(), searchCmp, search)] else nothing
    {
      var at := Search(search, searchCmp);
      if searchCmp(data[at], search) == 0 {
        return data[at], true;
      }
      return nothing, false;
    }
  }
}
