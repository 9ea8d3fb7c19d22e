/** The descriptors of a process, kept in a sorted list. */
module FileTables {
  import opened SortedLists

  const INT_LIMIT: int := 0x8000_0000

  datatype Entry = Entry(fd: int, base: nat)

  /** A difference truncated to a C int. */
  function ToInt(x: int): int {
    (x + INT_LIMIT) % (2 * INT_LIMIT) - INT_LIMIT
  }

  /** file_entry_cmp.  Descriptors are never negative, so the difference always fits an int. */
  function CompareEntries(first: Entry, second: Entry): int {
    first.fd - second.fd
  }

  /** file_entry_search_cmp: the subtraction is done on 64 bits and cut to 32. */
  function CompareWithKey(first: Entry, second: int): int {
    ToInt(first.fd - second)
  }

  /** Descriptors in strictly rising order, none of them given out yet. */
  ghost predicate Ascending(s: seq<Entry>, next: int) {
    && (forall i :: 0 <= i < |s| ==> 0 <= s[i].fd < next)
    && (forall i, j :: 0 <= i < j < |s| ==> s[i].fd < s[j].fd)
  }

  lemma EntriesCompare(s: seq<Entry>, next: int)
    requires Ascending(s, next)
    ensures Comparison(CompareEntries) && Sorted(s, CompareEntries)
  {}

  /** A new descriptor is larger than every open one, so its entry goes to the end. */
  lemma CreatedLast(s: seq<Entry>, next: int, base: nat)
    requires Ascending(s, next) && next >= 0
    ensures Inserted(s, CompareEntries, Entry(next, base)) == s + [Entry(next, base)]
    ensures Ascending(s + [Entry(next, base)], next + 1)
  {
    hide Seek;
    SeekAllBelow(s, CompareEntries, Entry(next, base), 0, |s|);
    assert s[..|s|] == s && s[|s|..] == [];
  }

  /** Without its k-th entry the list is still in order and stands for one file less. */
  lemma Dropped(s: seq<Entry>, next: int, k: nat)
    requires Ascending(s, next) && k < |s|
    ensures Ascending(s[..k] + s[k + 1..], next)
    ensures Opened(s[..k] + s[k + 1..]) == Opened(s) - {s[k]}
  {
    var t := s[..k] + s[k + 1..];
    assert forall i :: 0 <= i < |t| ==> t[i] == if i < k then s[i] else s[i + 1];
    forall e | e in s && e != s[k] ensures e in t {
      var i :| 0 <= i < |s| && s[i] == e;
      assert t[if i < k then i else i - 1] == e;
    }
    forall e | e in t ensures e in s && e != s[k] {
      var i :| 0 <= i < |t| && t[i] == e;
      assert i < k ==> s[i].fd < s[k].fd;
    }
  }

  /** Removing an entry of the table takes out that entry and no other. */
  lemma RemovedExactly(s: seq<Entry>, next: int, k: nat)
    requires Ascending(s, next) && k < |s|
    ensures Removed(s, CompareEntries, s[k]) == s[..k] + s[k + 1..]
    ensures Ascending(s[..k] + s[k + 1..], next)
    ensures Opened(s[..k] + s[k + 1..]) == Opened(s) - {s[k]}
  {
    hide Place, Comparison, Sorted;
    EntriesCompare(s, next);
    PlaceSplits(s, CompareEntries, s[k]);
    var r := Place(s, CompareEntries, s[k]);
    assert CompareEntries(s[k], s[k]) == 0;
    assert r < |s| && s[r].fd == s[k].fd;
    assert r == k;
    Dropped(s, next, k);
  }

  /** The open files. */
  ghost function Opened(s: seq<Entry>): set<Entry> { set e | e in s }

  /** Looking a descriptor up finds its entry exactly when it is open, and stays within the elements
      exactly when some open descriptor is at least as large. */
  lemma LookupFinds(s: seq<Entry>, next: int, fd: int)
    requires Ascending(s, next) && next <= INT_LIMIT && 0 <= fd < INT_LIMIT
    ensures var p := Place(s, CompareWithKey, fd);
            && (p < |s| <==> exists e :: e in s && e.fd >= fd)
            && (p < |s| && CompareWithKey(s[p], fd) == 0 <==> exists e :: e in s && e.fd == fd)
            && (forall e :: e in s && e.fd == fd ==> p < |s| && s[p] == e)
  {
    hide Place, Rising, ToInt;
    forall i | 0 <= i < |s| ensures CompareWithKey(s[i], fd) == s[i].fd - fd {
      Fits(s[i].fd - fd);
    }
    KeyRises(s, next, fd);
    KeyPlace(s, fd);
    var p := Place(s, CompareWithKey, fd);
    forall e | e in s && e.fd >= fd ensures p < |s| && (e.fd == fd ==> s[p] == e) {
      var i :| 0 <= i < |s| && s[i] == e;
      var c := CompareWithKey(s[i], fd);
      assert i < p ==> c <= 0;
      assert e.fd == fd ==> c == 0;
    }
    assert p < |s| ==> s[p] in s;
  }

  lemma Fits(x: int)
    requires -INT_LIMIT <= x < INT_LIMIT
    ensures ToInt(x) == x
  {}

  lemma KeyRises(s: seq<Entry>, next: int, fd: int)
    requires Ascending(s, next) && next <= INT_LIMIT && 0 <= fd < INT_LIMIT
    ensures Rising(s, CompareWithKey, fd)
  {
    hide ToInt;
    forall i | 0 <= i < |s| ensures CompareWithKey(s[i], fd) == s[i].fd - fd {
      Fits(s[i].fd - fd);
    }
  }

  lemma KeyPlace(s: seq<Entry>, fd: int)
    requires Rising(s, CompareWithKey, fd)
    ensures var r := Place(s, CompareWithKey, fd);
            && (forall i :: 0 <= i < r ==> CompareWithKey(s[i], fd) <= 0)
            && (forall i :: r <= i < |s| ==> CompareWithKey(s[i], fd) >= 0)
            && ((exists i :: 0 <= i < |s| && CompareWithKey(s[i], fd) == 0)
                <==> r < |s| && CompareWithKey(s[r], fd) == 0)
  {
    SeekLands(s, CompareWithKey, fd, 0, |s|);
  }

  /** The middle of the list, where the search of it all starts. */
  function Middle(s: seq<Entry>): Entry
    requires s != []
  {
    s[|s| / 2]
  }

  /** The difference to a negative key is positive, until it no longer fits an int: then it turns
      negative. */
  lemma NegativeKey(e: Entry, key: int)
    requires 0 <= e.fd < INT_LIMIT && -INT_LIMIT <= key < 0
    ensures if e.fd - key < INT_LIMIT then CompareWithKey(e, key) > 0 else CompareWithKey(e, key) < 0
  {}

  /** Exactly when the search of a negative descriptor stays within the elements: the difference to the
      middle one, where it starts, must fit an int.  It never finds anything. */
  lemma NegativeLookup(s: seq<Entry>, next: int, key: int)
    requires Ascending(s, next) && next <= INT_LIMIT && s != [] && -INT_LIMIT <= key < 0
    ensures var p := Place(s, CompareWithKey, key);
            && (p < |s| <==> Middle(s).fd - key < INT_LIMIT)
            && (p < |s| ==> CompareWithKey(s[p], key) != 0)
  {
    hide ToInt, Seek;
    forall i | 0 <= i < |s|
      ensures if s[i].fd - key < INT_LIMIT then CompareWithKey(s[i], key) > 0 else CompareWithKey(s[i], key) < 0
    {
      NegativeKey(s[i], key);
    }
    hide CompareWithKey;
    var mid := |s| / 2;
    FirstStep(s, key);
    if s[mid].fd - key < INT_LIMIT {
      SeekAllAbove(s, CompareWithKey, key, 0, mid);
    } else {
      SeekAllBelow(s, CompareWithKey, key, mid + 1, |s|);
    }
  }

  lemma FirstStep(s: seq<Entry>, key: int)
    requires s != [] && CompareWithKey(Middle(s), key) != 0
    ensures Place(s, CompareWithKey, key) ==
            if CompareWithKey(Middle(s), key) < 0 then Seek(s, CompareWithKey, key, |s| / 2 + 1, |s|)
            else Seek(s, CompareWithKey, key, 0, |s| / 2)
  {
    hide CompareWithKey;
  }

  /** Where the lookup of a descriptor is defined: what a caller can check before it. */
  ghost predicate InReach(s: seq<Entry>, fd: int) {
    if fd >= 0 then exists e :: e in s && e.fd >= fd
    else s != [] && Middle(s).fd - fd < INT_LIMIT
  }

  /** For every int, negative ones included: a lookup stays within the elements exactly when the
      descriptor is in reach, and finds an entry exactly when the descriptor is open. */
  lemma LookupExact(s: seq<Entry>, next: int, fd: int)
    requires Ascending(s, next) && next <= INT_LIMIT && -INT_LIMIT <= fd < INT_LIMIT
    ensures var p := Place(s, CompareWithKey, fd);
            && (p < |s| <==> InReach(s, fd))
            && (p < |s| && CompareWithKey(s[p], fd) == 0 <==> exists e :: e in s && e.fd == fd)
            && (forall e :: e in s && e.fd == fd ==> p < |s| && s[p] == e)
  {
    hide Place, CompareWithKey;
    if fd >= 0 {
      LookupFinds(s, next, fd);
    } else if s != [] {
      NegativeLookup(s, next, fd);
    }
  }

  /** A negative descriptor that escapes in a table that occurs: one open file, descriptor 0. */
  lemma NegativeEscapes(base: nat)
    ensures var t := Step(Table([], 0), Create(base));
            && Inv(t) && t.entries == [Entry(0, base)]
            && Place(t.entries, CompareWithKey, -INT_LIMIT) == |t.entries|
  {
    CreatedLast([], 0, base);
    var s := [Entry(0, base)];
    assert Inserted([], CompareEntries, Entry(0, base)) == [] + s == s;
    NegativeLookup(s, 1, -INT_LIMIT);
  }

  /** What the callers of the table do, in order. */
  datatype Call = Create(base: nat) | Remove(fd: int)

  /** The table seen as the set of open files. */
  datatype Files = Files(open: set<Entry>, next: int)

  ghost function Meaning(f: Files, c: Call): Files {
    match c
    case Create(base) => Files(f.open + {Entry(f.next, base)}, f.next + 1)
    case Remove(fd) => f.(open := set e | e in f.open && e.fd != fd)
  }

  /** The table as the code keeps it. */
  datatype Table = Table(entries: seq<Entry>, next: int)

  ghost predicate Allowed(t: Table, c: Call) {
    match c
    case Create(_) => t.next < INT_LIMIT - 1
    case Remove(fd) => exists e :: e in t.entries && e.fd == fd
  }

  function Step(t: Table, c: Call): Table {
    match c
    case Create(base) => Table(Inserted(t.entries, CompareEntries, Entry(t.next, base)), t.next + 1)
    case Remove(fd) =>
      var p := Place(t.entries, CompareWithKey, fd);
      if p < |t.entries| then t.(entries := Removed(t.entries, CompareEntries, t.entries[p])) else t
  }

  ghost predicate Inv(t: Table) {
    0 <= t.next < INT_LIMIT && Ascending(t.entries, t.next)
  }

  /** One call keeps the order of the list and does to it what the call means for the open files. */
  lemma StepMeans(t: Table, c: Call)
    requires Inv(t) && Allowed(t, c)
    ensures Inv(Step(t, c))
    ensures Files(Opened(Step(t, c).entries), Step(t, c).next) == Meaning(Files(Opened(t.entries), t.next), c)
  {
    hide Place, Inserted, Removed;
    match c
    case Create(base) =>
      CreatedLast(t.entries, t.next, base);
    case Remove(fd) =>
      var e :| e in t.entries && e.fd == fd;
      LookupFinds(t.entries, t.next, fd);
      var p := Place(t.entries, CompareWithKey, fd);
      RemovedExactly(t.entries, t.next, p);
      forall x | x in t.entries ensures x.fd == fd <==> x == t.entries[p] {}
  }

  ghost predicate AllAllowed(t: Table, cs: seq<Call>)
    decreases |cs|
  {
    cs == [] || (Allowed(t, cs[0]) && AllAllowed(Step(t, cs[0]), cs[1..]))
  }

  function Run(t: Table, cs: seq<Call>): Table
    decreases |cs|
  {
    if cs == [] then t else Run(Step(t, cs[0]), cs[1..])
  }

  ghost function MeaningOf(f: Files, cs: seq<Call>): Files
    decreases |cs|
  {
    if cs == [] then f else MeaningOf(Meaning(f, cs[0]), cs[1..])
  }

  /** After any sequence of calls the list is strictly sorted, holds exactly the open files, and the
      binary search of an open descriptor finds the very entry created for it. */
  lemma {:induction false} RunMeans(t: Table, cs: seq<Call>)
    requires Inv(t) && AllAllowed(t, cs)
    ensures Inv(Run(t, cs))
    ensures Files(Opened(Run(t, cs).entries), Run(t, cs).next) == MeaningOf(Files(Opened(t.entries), t.next), cs)
    ensures forall e :: e in MeaningOf(Files(Opened(t.entries), t.next), cs).open ==>
              var s := Run(t, cs).entries;
              var p := Place(s, CompareWithKey, e.fd);
              p < |s| && s[p] == e
    decreases |cs|
  {
    hide Step, Meaning, Place;
    if cs != [] {
      StepMeans(t, cs[0]);
      RunMeans(Step(t, cs[0]), cs[1..]);
    } else {
      forall e | e in t.entries ensures var p := Place(t.entries, CompareWithKey, e.fd);
                                        p < |t.entries| && t.entries[p] == e {
        LookupFinds(t.entries, t.next, e.fd);
      }
    }
  }

  class FileTable {
    const entries: SortedList<Entry, int>
    var nextId: int

    ghost predicate Valid()
      reads this, entries, entries.data
    {
      && entries.Valid() && entries.cmp == CompareEntries && entries.searchCmp == CompareWithKey
      && Inv(Model())
    }

    ghost function Model(): Table
      requires entries.Valid()
      reads this, entries, entries.data
    {
      Table(entries.Contents(), nextId)
    }

    constructor ()
      ensures Valid() && fresh(entries) && fresh(entries.data) && Model() == Table([], 0)
    {
      entries := new SortedList<Entry, int>(CompareEntries, CompareWithKey, Entry(0, 0));
      nextId := 0;
    }

    /** create_file_table_entry */
    method CreateEntry(base: nat) returns (fd: int)
      requires Valid() && nextId < INT_LIMIT - 1
      modifies this`nextId, entries`data, entries`size, entries`capacity, entries.data
      ensures Valid() && Model() == Step(old(Model()), Create(base)) && fd == old(nextId)
      ensures Model().entries == old(Model()).entries + [Entry(fd, base)]
      ensures entries.data == old(entries.data) || fresh(entries.data)
    {
      hide Inserted;
      CreatedLast(entries.Contents(), nextId, base);
      var e := Entry(nextId, base);
      nextId := nextId + 1;
      entries.Insert(e);
      return e.fd;
    }

    /** The lookup that every operation on a descriptor starts with. */
    method Lookup(fd: int) returns (file: Entry, present: bool)
      requires Valid() && -INT_LIMIT <= fd < INT_LIMIT && InReach(Model().entries, fd)
      ensures present <==> exists e :: e in Model().entries && e.fd == fd
      ensures present ==> file in Model().entries && file.fd == fd
    {
      hide Place, InReach;
      LookupExact(entries.Contents(), nextId, fd);
      file, present := entries.Get(fd);
    }

    /** remove_file_table_entry */
    method RemoveEntry(fd: int)
      requires Valid() && exists e :: e in Model().entries && e.fd == fd
      modifies entries`size, entries.data
      ensures Valid() && Model() == Step(old(Model()), Remove(fd))
      ensures Opened(Model().entries) == set e | e in old(Model()).entries && e.fd != fd
    {
      hide Place, Removed;
      LookupFinds(entries.Contents(), nextId, fd);
      StepMeans(Model(), Remove(fd));
      var file, _ := entries.Get(fd);
      entries.Remove(file);
    }
  }
}
