/** `Headers` of httpxp/_models.py: an ordered, case-insensitive multi-dict edited in place. */
module Headers {
  import opened Prelude
  import opened Text

  /** The name as written, the name it is looked up by, and the value; ASCII text. */
  datatype Entry = Entry(raw: string, key: string, value: string)

  function NewEntry(raw: string, value: string): Entry { Entry(raw, Lower(raw), value) }

  type Entries = seq<Entry>

  predicate WellKeyed(list: Entries)
  {
    forall i | 0 <= i < |list| :: list[i].key == Lower(list[i].raw)
  }

  // ----- the multi-dict, by its entries -----

  function Without(list: Entries, key: string): Entries
  {
    if list == [] then []
    else (if list[0].key == key then [] else [list[0]]) + Without(list[1..], key)
  }

  function Values(list: Entries, key: string): seq<string>
  {
    if list == [] then []
    else (if list[0].key == key then [list[0].value] else []) + Values(list[1..], key)
  }

  predicate Has(list: Entries, key: string) { exists i | 0 <= i < |list| :: list[i].key == key }

  /** Assignment: the first entry of the name is replaced where it stands, later ones go. */
  function Assigned(list: Entries, entry: Entry): Entries
  {
    if list == [] then [entry]
    else if list[0].key == entry.key then [entry] + Without(list[1..], entry.key)
    else [list[0]] + Assigned(list[1..], entry)
  }

  /** The entries whose names do not occur in `other`. */
  function WithoutKeysOf(list: Entries, other: Entries): Entries
  {
    if list == [] then []
    else (if Has(other, list[0].key) then [] else [list[0]]) + WithoutKeysOf(list[1..], other)
  }

  function Updated(list: Entries, other: Entries): Entries { WithoutKeysOf(list, other) + other }

  // ----- what those operations mean for lookups -----

  lemma HasTail(list: Entries, key: string)
    requires list != []
    ensures Has(list, key) <==> list[0].key == key || Has(list[1..], key)
  {
    if i :| 0 <= i < |list| && list[i].key == key {
      assert i > 0 ==> list[1..][i - 1].key == key;
    }
    if i :| 0 <= i < |list[1..]| && list[1..][i].key == key {
      assert list[i + 1].key == key;
    }
  }

  lemma {:induction false} WithoutSplit(a: Entries, b: Entries, key: string)
    ensures Without(a + b, key) == Without(a, key) + Without(b, key)
    ensures Values(a + b, key) == Values(a, key) + Values(b, key)
  {
    if a == [] {
      assert a + b == b;
    } else {
      assert (a + b)[0] == a[0] && (a + b)[1..] == a[1..] + b;
      WithoutSplit(a[1..], b, key);
      Regroup(if a[0].key == key then [] else [a[0]], Without(a[1..], key), Without(b, key));
      Regroup(if a[0].key == key then [] else [a[0].value], Values(a[1..], key), Values(b, key));
    }
  }

  lemma {:induction false} WithoutAbsent(list: Entries, key: string)
    ensures !Has(list, key) <==> Values(list, key) == []
    ensures !Has(list, key) ==> Without(list, key) == list
  {
    if list != [] {
      WithoutAbsent(list[1..], key);
      HasTail(list, key);
    }
  }

  lemma {:induction false} WithoutValues(list: Entries, key: string, other: string)
    ensures Values(Without(list, key), other) == if other == key then [] else Values(list, other)
  {
    if list != [] {
      WithoutValues(list[1..], key, other);
      WithoutSplit(if list[0].key == key then [] else [list[0]], Without(list[1..], key), other);
    }
  }

  /** Reading back: the assigned name has one value, every other name keeps its values, and apart from the
      assigned name the entries stand in the order they stood. */
  lemma {:induction false} AssignedValues(list: Entries, entry: Entry, other: string)
    ensures Values(Assigned(list, entry), other) == if other == entry.key then [entry.value] else Values(list, other)
    ensures Without(Assigned(list, entry), entry.key) == Without(list, entry.key)
  {
    if list != [] {
      if list[0].key == entry.key {
        WithoutValues(list[1..], entry.key, other);
        WithoutSplit([entry], Without(list[1..], entry.key), other);
        WithoutTwice(list[1..], entry.key);
      } else {
        AssignedValues(list[1..], entry, other);
        WithoutSplit([list[0]], Assigned(list[1..], entry), other);
      }
    }
  }

  lemma {:induction false} WithoutTwice(list: Entries, key: string)
    ensures Without(Without(list, key), key) == Without(list, key)
  {
    if list != [] {
      WithoutTwice(list[1..], key);
      WithoutSplit(if list[0].key == key then [] else [list[0]], Without(list[1..], key), key);
    }
  }

  /** The assigned entry takes the place of the first entry of its name. */
  lemma {:induction false} AssignedInPlace(list: Entries, entry: Entry, i: nat)
    requires i < |list| && list[i].key == entry.key && !Has(list[..i], entry.key)
    ensures Assigned(list, entry) == list[..i] + [entry] + Without(list[i + 1..], entry.key)
  {
    if i > 0 {
      assert list[..i] == [list[0]] + list[1..][..i - 1];
      HasTail(list[..i], entry.key);
      AssignedInPlace(list[1..], entry, i - 1);
      assert list[1..][i..] == list[i + 1..];
    }
  }

  lemma {:induction false} AssignedNew(list: Entries, entry: Entry)
    requires !Has(list, entry.key)
    ensures Assigned(list, entry) == list + [entry]
  {
    if list != [] {
      HasTail(list, entry.key);
      AssignedNew(list[1..], entry);
    }
  }

  lemma {:induction false} WithoutKeysValues(list: Entries, other: Entries, key: string)
    ensures Values(WithoutKeysOf(list, other), key) == if Has(other, key) then [] else Values(list, key)
  {
    if list != [] {
      WithoutKeysValues(list[1..], other, key);
      WithoutSplit(if Has(other, list[0].key) then [] else [list[0]], WithoutKeysOf(list[1..], other), key);
    }
  }

  /** After `update(h)` a name has the values `h` gives it, or, if `h` does not name it, those it had. */
  lemma UpdatedValues(list: Entries, other: Entries, key: string)
    ensures Values(Updated(list, other), key) == if Has(other, key) then Values(other, key) else Values(list, key)
  {
    WithoutKeysValues(list, other, key);
    WithoutSplit(WithoutKeysOf(list, other), other, key);
    WithoutAbsent(other, key);
  }

  lemma {:induction false} WithoutAllKeys(list: Entries, other: Entries)
    requires forall i | 0 <= i < |list| :: Has(other, list[i].key)
    ensures WithoutKeysOf(list, other) == []
  {
    if list != [] {
      assert Has(other, list[0].key);
      forall i | 0 <= i < |list[1..]|
        ensures Has(other, list[1..][i].key)
      {
        assert Has(other, list[i + 1].key);
      }
      WithoutAllKeys(list[1..], other);
    }
  }

  /** `h.update(h)` changes nothing. */
  lemma UpdatedBySelf(list: Entries)
    ensures Updated(list, list) == list
  {
    forall i | 0 <= i < |list|
      ensures Has(list, list[i].key)
    {
      assert list[i].key == list[i].key;
    }
    WithoutAllKeys(list, list);
  }

  /** `", ".join(values)` */
  function Joined(values: seq<string>): string
  {
    if values == [] then ""
    else if |values| == 1 then values[0]
    else values[0] + ", " + Joined(values[1..])
  }

  lemma {:induction false} JoinedSplit(a: seq<string>, b: seq<string>)
    requires a != [] && b != []
    ensures Joined(a + b) == Joined(a) + ", " + Joined(b) && Joined([a[0]]) == a[0]
  {
    if |a| == 1 {
      assert (a + b)[0] == a[0] && (a + b)[1..] == b;
    } else {
      assert (a + b)[0] == a[0] && (a + b)[1..] == a[1..] + b;
      JoinedSplit(a[1..], b);
    }
  }

  /** Looking a name up: its values joined, None for KeyError. */
  function Looked(list: Entries, name: string): Option<string>
  {
    var values := Values(list, Lower(name));
    if values == [] then None else Some(Joined(values))
  }

  /** What is assigned under a name is found under every spelling of it that differs in the case of letters only, and
      what was found under any other name is still found there. */
  lemma AssignedIsFound(list: Entries, raw: string, value: string, asked: string)
    ensures Looked(Assigned(list, NewEntry(raw, value)), asked) ==
            if |asked| == |raw| && forall i | 0 <= i < |raw| :: SameLetter(asked[i], raw[i]) then Some(value)
            else Looked(list, asked)
  {
    hide Lower, Assigned, Values;
    LowerForgetsCase(asked, raw);
    AssignedValues(list, NewEntry(raw, value), Lower(asked));
  }

  /** A deleted name is not found under any such spelling. */
  lemma DeletedIsNotFound(list: Entries, name: string, asked: string)
    ensures Looked(Without(list, Lower(name)), asked) ==
            if |asked| == |name| && forall i | 0 <= i < |name| :: SameLetter(asked[i], name[i]) then None
            else Looked(list, asked)
  {
    hide Lower, Without, Values;
    LowerForgetsCase(asked, name);
    WithoutValues(list, Lower(name), Lower(asked));
  }

  lemma ValuesStep(list: Entries, key: string, i: nat)
    requires i < |list|
    ensures Values(list[..i + 1], key) == Values(list[..i], key) + if list[i].key == key then [list[i].value] else []
  {
    assert list[..i + 1] == list[..i] + [list[i]];
    WithoutSplit(list[..i], [list[i]], key);
    assert Values([list[i]], key) == if list[i].key == key then [list[i].value] else [];
  }

  // ----- the object -----

  /** Positions of a name, in order. */
  predicate AreIndexes(list: Entries, key: string, indexes: seq<nat>)
  {
    && (forall j | 0 <= j < |indexes| :: indexes[j] < |list| && list[indexes[j]].key == key)
    && (forall j, k | 0 <= j < k < |indexes| :: indexes[j] < indexes[k])
    && (forall i | 0 <= i < |list| && list[i].key == key :: i in indexes)
  }

  class Headers {
    var list: Entries

    constructor (list: Entries)
      ensures this.list == list
    {
      this.list := list;
    }

    /** `[idx for idx, (_, item_key, _) in enumerate(self._list) if item_key == key]` */
    method Indexes(key: string) returns (indexes: seq<nat>)
      ensures AreIndexes(list, key, indexes)
    {
      indexes := [];
      for i := 0 to |list|
        invariant forall j | 0 <= j < |indexes| :: indexes[j] < i && list[indexes[j]].key == key
        invariant forall j, k | 0 <= j < k < |indexes| :: indexes[j] < indexes[k]
        invariant forall p | 0 <= p < i && list[p].key == key :: p in indexes
      {
        if list[i].key == key {
          indexes := indexes + [i];
        }
      }
    }

    /** `get_list(name)` */
    method GetList(name: string) returns (values: seq<string>)
      ensures values == Values(list, Lower(name))
    {
      values := [];
      var key := Lower(name);
      assert list[..0] == [];
      for i := 0 to |list|
        invariant values == Values(list[..i], key)
      {
        ValuesStep(list, key, i);
        if list[i].key == key {
          values := values + [list[i].value];
        }
      }
      assert list[..|list|] == list;
    }

    /** `headers[name]`, None for KeyError. */
    method GetItem(name: string) returns (value: Option<string>)
      ensures value == Looked(list, name)
      ensures value.Some? <==> Has(list, Lower(name))
    {
      WithoutAbsent(list, Lower(name));
      var items := GetList(name);
      value := if items != [] then Some(Joined(items)) else None;
    }

    /** Deletes the entries of a name from `indexes[first]` on, last one first. */
    method DeleteReversed(key: string, indexes: seq<nat>, first: nat)
      requires AreIndexes(list, key, indexes) && first <= |indexes|
      modifies this
      ensures var from := if first < |indexes| then indexes[first] else |old(list)|;
              list == old(list)[..from] + Without(old(list)[from..], key)
    {
      hide Without, AreIndexes, Has;
      ghost var was := list;
      var j := |indexes|;
      ghost var from := |list|;
      NothingAfter(was, key);
      while j > first
        invariant first <= j <= |indexes| && from <= |was|
        invariant from == if j < |indexes| then indexes[j] else |was|
        invariant list == was[..from] + Without(was[from..], key)
      {
        j := j - 1;
        var i := indexes[j];
        DeleteStep(was, key, indexes, j, from);
        list := list[..i] + list[i + 1..];
        from := i;
      }
    }

    /** `headers[key] = value` */
    method SetItem(raw: string, value: string)
      requires WellKeyed(list)
      modifies this
      ensures list == Assigned(old(list), NewEntry(raw, value)) && WellKeyed(list)
    {
      hide Without, Assigned, Has, WellKeyed;
      var entry := NewEntry(raw, value);
      var found := Indexes(entry.key);
      ghost var was := list;
      FirstIndex(was, entry.key, found);
      if found != [] {
        DeleteReversed(entry.key, found, 1);
        DropLater(was, entry.key, found, entry);
        list := list[found[0] := entry];
      } else {
        list := list + [entry];
        AssignedNew(was, entry);
      }
      AssignedKeyed(was, entry);
    }

    /** `del headers[key]`; false for KeyError. */
    method DelItem(key: string) returns (ok: bool)
      requires WellKeyed(list)
      modifies this
      ensures ok <==> Has(old(list), Lower(key))
      ensures list == Without(old(list), Lower(key)) && WellKeyed(list)
    {
      var found := Indexes(Lower(key));
      ghost var was := list;
      FirstIndex(was, Lower(key), found);
      WithoutAbsent(was, Lower(key));
      WithoutKeyed(was, Lower(key));
      if found == [] {
        return false;
      }
      DeleteReversed(Lower(key), found, 0);
      WithoutAbsent(was[..found[0]], Lower(key));
      WithoutSplit(was[..found[0]], was[found[0]..], Lower(key));
      assert was == was[..found[0]] + was[found[0]..];
      ok := true;
    }

    /** `update`; the argument is copied first, so it may be the same object. */
    method Update(other: Headers)
      requires WellKeyed(list) && WellKeyed(other.list)
      modifies this
      ensures list == Updated(old(list), old(other.list)) && WellKeyed(list)
    {
      hide WellKeyed;
      var headers := other.list;
      ghost var was := list;
      NoKeys(list);
      assert headers[..0] == [];
      for i := 0 to |headers|
        invariant WellKeyed(list)
        invariant list == WithoutKeysOf(was, headers[..i])
      {
        var key := headers[i].key;
        LowerKey(headers, i);
        var ok := DelItem(key);
        OneMoreKey(was, headers, i);
      }
      assert headers[..|headers|] == headers;
      KeyedConcat(list, headers);
      list := list + headers;
    }
  }

  /** Between two positions of a name that follow each other the name does not occur. */
  lemma GapFree(was: Entries, key: string, indexes: seq<nat>, j: nat, from: nat)
    requires AreIndexes(was, key, indexes) && j < |indexes|
    requires from == if j + 1 < |indexes| then indexes[j + 1] else |was|
    ensures indexes[j] < from && !Has(was[indexes[j] + 1..from], key)
  {
    var i := indexes[j];
    assert forall k | 0 <= k < |indexes| :: if k <= j then indexes[k] <= i else from <= indexes[k];
    assert forall m | i < m < from :: m !in indexes;
    var middle := was[i + 1..from];
    forall m | 0 <= m < |middle|
      ensures middle[m].key != key
    {
      assert middle[m] == was[i + 1 + m];
    }
  }

  /** Filtering from a gap on is filtering from its end on. */
  lemma GapKept(was: Entries, key: string, i: nat, from: nat)
    requires i <= from <= |was| && !Has(was[i..from], key)
    ensures Without(was[i..], key) == was[i..from] + Without(was[from..], key)
  {
    hide Without;
    WithoutAbsent(was[i..from], key);
    WithoutSplit(was[i..from], was[from..], key);
    assert was[i..] == was[i..from] + was[from..];
  }

  /** Deleting position `indexes[j]` once everything from `from` on is filtered. */
  lemma DeleteStep(was: Entries, key: string, indexes: seq<nat>, j: nat, from: nat)
    requires AreIndexes(was, key, indexes) && j < |indexes|
    requires from == if j + 1 < |indexes| then indexes[j + 1] else |was|
    ensures var i := indexes[j];
            && i < from <= |was|
            && var list := was[..from] + Without(was[from..], key);
               list[..i] + list[i + 1..] == was[..i] + Without(was[i..], key)
  {
    var i := indexes[j];
    GapFree(was, key, indexes, j, from);
    GapKept(was, key, i + 1, from);
    FilterHead(was, key, i);
    hide Without, AreIndexes, Has;
    DropAt(was, i, from, Without(was[from..], key));
  }

  lemma NothingAfter(was: Entries, key: string)
    ensures was[..|was|] + Without(was[|was|..], key) == was
  {
    assert was[..|was|] == was && was[|was|..] == [];
  }

  lemma DropAt<T>(s: seq<T>, i: nat, from: nat, tail: seq<T>)
    requires i < from <= |s|
    ensures var list := s[..from] + tail; list[..i] + list[i + 1..] == s[..i] + (s[i + 1..from] + tail)
  {
  }

  lemma FilterHead(was: Entries, key: string, i: nat)
    requires i < |was| && was[i].key == key
    ensures Without(was[i..], key) == Without(was[i + 1..], key)
  {
    assert was[i..][0] == was[i] && was[i..][1..] == was[i + 1..];
  }

  lemma FirstIndex(was: Entries, key: string, found: seq<nat>)
    requires AreIndexes(was, key, found)
    ensures found == [] <==> !Has(was, key)
    ensures found != [] ==> !Has(was[..found[0]], key)
  {
    if found != [] {
      assert was[found[0]].key == key;
      assert forall k | 0 <= k < |found| :: found[0] <= found[k];
      assert forall i | 0 <= i < found[0] :: i !in found;
    }
  }

  /** After the later entries are deleted the first one still stands where it stood. */
  lemma DropLater(was: Entries, key: string, found: seq<nat>, entry: Entry)
    requires AreIndexes(was, key, found) && found != [] && entry.key == key
    ensures var from := if 1 < |found| then found[1] else |was|;
            && found[0] < from
            && (was[..from] + Without(was[from..], key))[found[0] := entry] == Assigned(was, entry)
  {
    var i, from := found[0], if 1 < |found| then found[1] else |was|;
    GapFree(was, key, found, 0, from);
    GapKept(was, key, i + 1, from);
    FirstIndex(was, key, found);
    AssignedInPlace(was, entry, i);
    hide Without, AreIndexes, Has, Assigned;
    PutAt(was, i, from, Without(was[from..], key), entry);
  }

  lemma PutAt<T>(s: seq<T>, i: nat, from: nat, tail: seq<T>, x: T)
    requires i < from <= |s|
    ensures (s[..from] + tail)[i := x] == s[..i] + [x] + (s[i + 1..from] + tail)
  {
  }

  lemma {:induction false} WithoutKeyed(list: Entries, key: string)
    requires WellKeyed(list)
    ensures WellKeyed(Without(list, key))
  {
    if list != [] {
      WithoutKeyed(list[1..], key);
    }
  }

  lemma {:induction false} AssignedKeyed(list: Entries, entry: Entry)
    requires WellKeyed(list) && entry.key == Lower(entry.raw)
    ensures WellKeyed(Assigned(list, entry))
  {
    if list != [] {
      WithoutKeyed(list[1..], entry.key);
      AssignedKeyed(list[1..], entry);
    }
  }

  lemma KeyedConcat(a: Entries, b: Entries)
    requires WellKeyed(a) && WellKeyed(b)
    ensures WellKeyed(a + b)
  {
  }

  lemma LowerKey(list: Entries, i: nat)
    requires WellKeyed(list) && i < |list|
    ensures Lower(list[i].key) == list[i].key
  {
  }

  lemma {:induction false} NoKeys(list: Entries)
    ensures WithoutKeysOf(list, []) == list
  {
    if list != [] {
      NoKeys(list[1..]);
    }
  }

  lemma {:induction false} OneMoreKey(list: Entries, other: Entries, i: nat)
    requires i < |other|
    ensures Without(WithoutKeysOf(list, other[..i]), other[i].key) == WithoutKeysOf(list, other[..i + 1])
  {
    if list != [] {
      OneMoreKey(list[1..], other, i);
      var head := if Has(other[..i], list[0].key) then [] else [list[0]];
      WithoutSplit(head, WithoutKeysOf(list[1..], other[..i]), other[i].key);
      HasOneMore(other, i, list[0].key);
    }
  }

  lemma HasOneMore(other: Entries, i: nat, key: string)
    requires i < |other|
    ensures Has(other[..i + 1], key) <==> Has(other[..i], key) || other[i].key == key
  {
    if Has(other[..i], key) {
      var j :| 0 <= j < i && other[..i][j].key == key;
      assert other[..i + 1][j].key == key;
    }
    if other[i].key == key {
      assert other[..i + 1][i].key == key;
    }
    if Has(other[..i + 1], key) {
      var j :| 0 <= j < i + 1 && other[..i + 1][j].key == key;
      assert j < i ==> other[..i][j].key == key;
    }
  }
}
