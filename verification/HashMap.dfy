/**
 The open-addressing hash map, with integer keys and values. The class keeps its slots in one
 array; the ghost field `contents` is the finite map it stands for. A `release` flag says whether
 the caller passed a release callback; `released` lists the entries handed to that callback.
 */
module HashMap {
  import opened Bits
  import opened HashTable

  const CAPACITY_MIN := 16

  lemma Mask(i: nat, n: nat)
    requires IsPow2(n)
    ensures n >= 1
    ensures And(i, n - 1) == i % n
    ensures i < n ==> And(i, n - 1) == i
    ensures And(n, n - 1) == 0
  {
    var k: nat :| n == Pow2(k);
    hide And, Pow2;
    AndMask(i, k);
    AndMask(n, k);
    RemainderUnique(n, 1, 0, n);
    if i < n { RemainderUnique(i, 0, i, n); }
  }

  lemma PassedNone(s: seq<Entry>, home: nat, key: nat)
    ensures Passed(s, home, home, key)
  {
  }

  lemma MaskNext(i: nat, n: nat)
    requires IsPow2(n) && i < n
    ensures And(i + 1, n - 1) == Next(i, n)
  {
    Mask(i + 1, n);
  }

  class Map {
    const hash: nat -> nat
    var elements: array<Entry>
    var count: nat
    ghost var contents: map<nat, nat>

    /** The slots stand for `contents`; no slots at all stand for the empty map. */
    ghost predicate Consistent()
      reads this, elements
    {
      count == |contents| && Table(elements[..], hash, contents)
    }

    ghost predicate Valid()
      reads this, elements
    {
      Consistent() && IsPow2(elements.Length) && 2 * count <= elements.Length <= WORD / 2
    }

    /** `map_construct`. */
    constructor (hash: nat -> nat)
      ensures Valid() && fresh(elements) && contents == map[] && elements.Length == CAPACITY_MIN
      ensures this.hash == hash
    {
      this.hash := hash;
      elements, count, contents := new Entry[0], 0, map[];
      new;
      Rehash(CAPACITY_MIN);
      Sixteen(elements.Length);
    }

    /** The replacement table inside `map_rehash`: all slots empty. */
    constructor Blank(hash: nat -> nat, capacity: nat)
      requires IsPow2(capacity) && capacity <= WORD / 2
      ensures Valid() && fresh(elements) && contents == map[] && elements.Length == capacity
      ensures this.hash == hash
    {
      this.hash := hash;
      elements, count, contents := new Entry[capacity], 0, map[];
      new;
      for i := 0 to elements.Length
        invariant fresh(elements) && elements.Length == capacity && count == 0 && contents == map[]
        invariant forall k :: 0 <= k < i ==> elements[k] == EMPTY
      {
        elements[i] := EMPTY;
      }
    }

    /** `map_rehash`: every element is inserted anew into a table of at least `size` slots. None of
        these insertions rehashes again: that is what makes the `decreases` clauses go down. */
    method Rehash(size: nat)
      requires Consistent() && 1 <= size <= WORD / 2 && 2 * count <= size
      modifies this
      ensures Valid() && fresh(elements)
      ensures contents == old(contents)
      ensures IsLeastPow2(size, elements.Length)
      decreases 1, 0
    {
      hide PrefixMap, Distinct, Clean, Represents, Probes, Pow2;
      var capacity := RoundUp(size);
      PrefixNone(elements[..]);
      var table := new Map.Blank(hash, capacity);
      ghost var s, m := elements[..], contents;
      for i := 0 to elements.Length
        invariant fresh(table) && fresh(table.elements) && table.Valid() && table.hash == hash
        invariant table.elements.Length == capacity
        invariant unchanged(this) && unchanged(elements)
        invariant table.contents == PrefixMap(s, i)
      {
        PrefixRoom(s, m, i, capacity);
        PrefixNext(s, i);
        if elements[i].key != 0 {
          var _ := table.Insert(elements[i], false);
        }
      }
      PrefixMapWhole(s, m);
      elements, count := table.elements, table.count;
    }

    /** `map_reserve`: afterwards `size` elements fit without another rehash. */
    method Reserve(size: nat)
      requires Valid() && 2 * size <= WORD / 2
      modifies this
      ensures Valid()
      ensures contents == old(contents)
      ensures 2 * size <= elements.Length
      ensures if 2 * size <= old(elements.Length) then elements == old(elements)
              else fresh(elements) && IsLeastPow2(2 * size, elements.Length)
      decreases if 2 * size > elements.Length then 1 else 0, 1
    {
      var slots := 2 * size;
      if slots > elements.Length {
        Rehash(slots);
      }
    }

    /** `map_at`: the slot of `key`, or the empty slot where it would go. */
    method At(key: nat) returns (i: nat)
      requires Valid()
      ensures i < elements.Length
      ensures key in contents <==> elements[i].key != 0
      ensures key in contents ==> elements[i] == Entry(key, contents[key])
      ensures key !in contents ==> elements[i] == EMPTY
      ensures Passed(elements[..], Home(hash, elements.Length, key), i, key)
    {
      hide And, Distinct, Clean, Represents, Probes, Passed, IsPow2;
      ghost var s, n := elements[..], elements.Length;
      Mask(hash(key), n);
      ghost var z := EmptySlot(s, contents);
      ghost var home := Home(hash, n, key);
      PassedNone(s, home, key);
      ghost var slot := home;
      i := hash(key);
      while true
        invariant slot < n && And(i, n - 1) == slot
        invariant Passed(s, home, slot, key)
        invariant Dist(home, slot, n) <= Dist(home, z, n)
        decreases Dist(slot, z, n)
      {
        i := And(i, elements.Length - 1);
        if elements[i].key == 0 || elements[i].key == key {
          if elements[i].key == 0 {
            ProbeMiss(s, hash, contents, i, key);
          } else {
            ProbeHit(s, hash, contents, i);
          }
          return;
        }
        assert Full(s, slot) && slot != z;
        ProbeStep(s, home, slot, key);
        MaskNext(i, n);
        i := i + 1;
        slot := Next(slot, n);
      }
    }

    /** `map_insert`: the first insertion of a key wins; a later one is released. */
    method Insert(e: Entry, release: bool) returns (released: seq<Entry>)
      requires Valid() && e.key != 0 && 2 * (count + 1) <= WORD / 2
      modifies this, elements
      ensures Valid()
      ensures contents == if e.key in old(contents) then old(contents) else old(contents)[e.key := e.value]
      ensures released == if e.key in old(contents) && release then [e] else []
      ensures if 2 * (old(count) + 1) <= old(elements.Length) then elements == old(elements)
              else fresh(elements) && IsLeastPow2(2 * (old(count) + 1), elements.Length)
      decreases if 2 * (count + 1) > elements.Length then 1 else 0, 2
    {
      released := [];
      Reserve(count + 1);
      var i := At(e.key);
      if elements[i].key == 0 {
        TableInsert(elements[..], hash, contents, i, e);
        elements[i] := e;
        count := count + 1;
        contents := contents[e.key := e.value];
      } else if release {
        released := [e];
      }
    }

    /** `map_erase`, with the backward shift that makes tombstones unnecessary. The probe loop in
        front of it is the one of `At`. */
    method Erase(key: nat, release: bool) returns (released: seq<Entry>)
      requires Valid()
      modifies this, elements
      ensures Valid() && elements == old(elements)
      ensures contents == old(contents) - {key}
      ensures released == if key in old(contents) && release then [Entry(key, old(contents)[key])] else []
    {
      hide IsPow2, Distinct, Clean, Represents, Probes, Passed, Holed;
      released := [];
      Mask(0, elements.Length);
      ghost var z := EmptySlot(elements[..], contents);
      var i := At(key);
      if elements[i].key == 0 {
        return;
      }
      if release {
        released := [elements[i]];
      }
      count := count - 1;
      OpenHole(elements[..], hash, contents, i);
      contents := contents - {key};

      i := ShiftBack(i, z);
      elements[i] := EMPTY;
    }

    /** The second loop of `map_erase`: `i` is the slot to be emptied in the end, `j` looks ahead. */
    method ShiftBack(start: nat, ghost z: nat) returns (i: nat)
      requires start < elements.Length && z < elements.Length && IsPow2(elements.Length)
      requires start != z && !Full(elements[..], z)
      requires var g := elements[..][start := EMPTY];
               Holed(g, hash, start, start) && Distinct(g) && Clean(g) && Represents(g, contents)
      modifies elements
      ensures i < elements.Length
      ensures Table(elements[..][i := EMPTY], hash, contents)
    {
      hide And, Holed, Distinct, Clean, Represents, Probes, IsPow2;
      var n := elements.Length;
      i := start;
      var j: nat := start;
      ghost var g := elements[..][i := EMPTY];
      while true
        invariant i < n && j < n && z != i
        invariant g == elements[..][i := EMPTY] && !Full(g, z)
        invariant Holed(g, hash, i, j) && Distinct(g) && Clean(g) && Represents(g, contents)
        decreases Dist(j, z, n)
      {
        ghost var last := j;
        LookAhead(g, hash, i, j, z);
        MaskNext(j, n);
        j := And(j + 1, elements.Length - 1);
        assert g[j] == elements[j];
        if elements[j].key == 0 {
          CloseHole(g, hash, i, last);
          break;
        }
        Mask(hash(elements[j].key), n);
        var k := And(hash(elements[j].key), elements.Length - 1);
        if (i < j && (k <= i || k > j)) || (i > j && (k <= i && k > j)) {
          MoveHole(g, hash, i, last);
          MoveKeeps(g, contents, i, j);
          elements[i] := elements[j];
          g := g[i := g[j]][j := EMPTY];
          i := j;
        } else {
          KeepHole(g, hash, i, last);
        }
      }
    }

    /** `map_release_all`: the callback sees every stored entry once, in slot order. */
    method ReleaseAll(release: bool) returns (released: seq<Entry>)
      requires Consistent()
      ensures multiset(released) == if release then multiset(Entries(contents)) else multiset{}
      ensures release ==> released == FullEntries(elements[..])
    {
      released := [];
      if release {
        for i := 0 to elements.Length
          invariant released == FullEntries(elements[..i])
        {
          assert elements[..i + 1][..i] == elements[..i];
          if elements[i].key != 0 {
            released := released + [elements[i]];
          }
        }
        assert elements[..elements.Length] == elements[..];
        AllEntriesOnce(elements[..], contents);
      }
    }

    /** `map_clear`. */
    method Clear(release: bool) returns (released: seq<Entry>)
      requires Valid()
      modifies this
      ensures Valid() && fresh(elements) && contents == map[] && elements.Length == CAPACITY_MIN
      ensures multiset(released) == if release then multiset(Entries(old(contents))) else multiset{}
    {
      released := ReleaseAll(release);
      elements, count, contents := new Entry[0], 0, map[];
      Rehash(CAPACITY_MIN);
      Sixteen(elements.Length);
    }

    /** `mapi_at`: the value stored for `key`, or 0. */
    method Lookup(key: nat) returns (value: nat)
      requires Valid()
      ensures value == if key in contents then contents[key] else 0
    {
      var i := At(key);
      value := elements[i].value;
    }
  }

  lemma Sixteen(n: nat)
    requires IsLeastPow2(CAPACITY_MIN, n)
    ensures n == CAPACITY_MIN
  {
    assert Pow2(4) == 16 by { assert Pow2(2) == 4; }
  }

  lemma PrefixNone(s: seq<Entry>)
    ensures PrefixMap(s, 0) == map[]
  {
  }

  lemma PrefixNext(s: seq<Entry>, i: nat)
    requires i < |s|
    ensures PrefixMap(s, i + 1) == if s[i].key == 0 then PrefixMap(s, i) else PrefixMap(s, i)[s[i].key := s[i].value]
  {
  }

  /** Before slot `i` is re-inserted, its key is new and there is room for it. */
  lemma PrefixRoom(s: seq<Entry>, m: map<nat, nat>, i: nat, capacity: nat)
    requires i < |s| && Distinct(s) && Represents(s, m) && 2 * |m| <= capacity
    ensures s[i].key != 0 ==> s[i].key !in PrefixMap(s, i) && 2 * (|PrefixMap(s, i)| + 1) <= capacity
  {
    if s[i].key != 0 {
      assert Full(s, i);
      PrefixMapIsPart(s, m, i);
      PrefixMapIsPart(s, m, i + 1);
      SubmapSize(PrefixMap(s, i + 1), m);
    }
  }
}
