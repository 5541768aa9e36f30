/**
 What the slots of an open-addressing table mean: linear probing with wraparound over a circular
 sequence of slots, where an entry with key 0 marks an empty slot.
 */
module HashTable {
  datatype Entry = Entry(key: nat, value: nat)

  const EMPTY := Entry(0, 0)

  predicate Full(s: seq<Entry>, i: nat)
    requires i < |s|
  {
    s[i].key != 0
  }

  function Home(hash: nat -> nat, n: nat, key: nat): nat
    requires 0 < n
  {
    hash(key) % n
  }

  /** `x` lies in the circular interval [k, j). */
  predicate Between(k: nat, x: nat, j: nat) {
    if k <= j then k <= x < j else k <= x || x < j
  }

  /** `x` lies in the circular interval (i, j]. */
  predicate Scanned(i: nat, x: nat, j: nat) {
    if i <= j then i < x <= j else i < x || x <= j
  }

  function Next(i: nat, n: nat): nat {
    if i + 1 == n then 0 else i + 1
  }

  /** How many steps forward lead from `i` to `z`. */
  function Dist(i: nat, z: nat, n: nat): int {
    if i <= z then z - i else z - i + n
  }

  ghost predicate Distinct(s: seq<Entry>) {
    forall i, j :: 0 <= i < |s| && 0 <= j < |s| && s[i].key != 0 && s[i].key == s[j].key ==> i == j
  }

  ghost predicate Clean(s: seq<Entry>) {
    forall i :: 0 <= i < |s| && s[i].key == 0 ==> s[i] == EMPTY
  }

  ghost predicate HasKey(s: seq<Entry>, key: nat) {
    exists i :: 0 <= i < |s| && s[i].key == key
  }

  /** The full slots hold exactly the pairs of `m`. */
  ghost predicate Represents(s: seq<Entry>, m: map<nat, nat>) {
    && (forall i :: 0 <= i < |s| && s[i].key != 0 ==> s[i].key in m && m[s[i].key] == s[i].value)
    && (forall key :: key in m ==> key != 0 && HasKey(s, key))
  }

  /** The probe invariant: no empty slot between an element's home and where it sits. */
  ghost predicate Probes(s: seq<Entry>, hash: nat -> nat) {
    forall j, x :: 0 <= j < |s| && 0 <= x < |s| && Full(s, j) && Between(Home(hash, |s|, s[j].key), x, j) ==> Full(s, x)
  }

  ghost predicate Table(s: seq<Entry>, hash: nat -> nat, m: map<nat, nat>) {
    Distinct(s) && Clean(s) && Represents(s, m) && Probes(s, hash)
  }

  // ---------- counting ----------

  function PrefixMap(s: seq<Entry>, n: nat): map<nat, nat>
    requires n <= |s|
  {
    if n == 0 then map[]
    else if s[n - 1].key == 0 then PrefixMap(s, n - 1)
    else PrefixMap(s, n - 1)[s[n - 1].key := s[n - 1].value]
  }

  /** The entries of the full slots, in slot order. */
  function FullEntries(s: seq<Entry>): seq<Entry> {
    if s == [] then []
    else FullEntries(s[..|s| - 1]) + if s[|s| - 1].key == 0 then [] else [s[|s| - 1]]
  }

  ghost function Entries(m: map<nat, nat>): set<Entry> {
    set key | key in m :: Entry(key, m[key])
  }

  /** The first `n` slots hold a sub-map of `m`; slot `n`, if full, adds a new key to it. */
  lemma {:induction false} PrefixMapIsPart(s: seq<Entry>, m: map<nat, nat>, n: nat)
    requires n <= |s| && Distinct(s) && Represents(s, m)
    ensures forall key :: key in PrefixMap(s, n) <==> key != 0 && HasKey(s[..n], key)
    ensures forall key :: key in PrefixMap(s, n) ==> key in m && PrefixMap(s, n)[key] == m[key]
    ensures n < |s| && Full(s, n) ==> s[n].key !in PrefixMap(s, n)
  {
    if n > 0 {
      PrefixMapIsPart(s, m, n - 1);
      var before, now := s[..n - 1], s[..n];
      forall key
        ensures HasKey(now, key) <==> HasKey(before, key) || s[n - 1].key == key
      {
        if HasKey(before, key) {
          var i :| 0 <= i < n - 1 && before[i].key == key;
          assert now[i].key == key;
        }
        if HasKey(now, key) {
          var i :| 0 <= i < n && now[i].key == key;
          if i < n - 1 { assert before[i].key == key; }
        }
        assert now[n - 1] == s[n - 1];
      }
    }
    if n < |s| && Full(s, n) && HasKey(s[..n], s[n].key) {
      assert false;
    }
  }

  lemma SubmapSize(a: map<nat, nat>, b: map<nat, nat>)
    requires forall key :: key in a ==> key in b
    ensures |a| <= |b|
    ensures |a| == |b| ==> a.Keys == b.Keys
  {
    SubsetSize(a.Keys, b.Keys);
  }

  lemma {:induction false} SubsetSize(a: set<nat>, b: set<nat>)
    requires a <= b
    ensures |a| <= |b|
    ensures |a| == |b| ==> a == b
  {
    assert |b| == |a| + |b - a| by {
      assert b == a + (b - a);
    }
    if |a| == |b| {
      assert b - a == {};
    }
  }

  lemma PrefixMapWhole(s: seq<Entry>, m: map<nat, nat>)
    requires Distinct(s) && Represents(s, m)
    ensures PrefixMap(s, |s|) == m
  {
    PrefixMapIsPart(s, m, |s|);
    assert s[..|s|] == s;
  }

  lemma {:induction false} PrefixMapCount(s: seq<Entry>, m: map<nat, nat>, n: nat)
    requires n <= |s| && Distinct(s) && Represents(s, m)
    requires forall i :: 0 <= i < n ==> Full(s, i)
    ensures |PrefixMap(s, n)| == n
  {
    if n > 0 {
      PrefixMapCount(s, m, n - 1);
      PrefixMapIsPart(s, m, n - 1);
      assert Full(s, n - 1);
    }
  }

  /** A table with fewer pairs than slots has an empty slot. */
  lemma EmptySlot(s: seq<Entry>, m: map<nat, nat>) returns (z: nat)
    requires Distinct(s) && Represents(s, m) && |m| < |s|
    ensures z < |s| && !Full(s, z)
  {
    if forall i :: 0 <= i < |s| ==> Full(s, i) {
      PrefixMapCount(s, m, |s|);
      PrefixMapWhole(s, m);
      assert false;
    }
    z :| 0 <= z < |s| && !Full(s, z);
  }

  lemma {:induction false} FullEntriesOnce(s: seq<Entry>, m: map<nat, nat>, n: nat)
    requires n <= |s| && Distinct(s) && Represents(s, m)
    ensures multiset(FullEntries(s[..n])) == multiset(Entries(PrefixMap(s, n)))
  {
    if n == 0 {
      assert Entries(map[]) == {};
    } else {
      FullEntriesOnce(s, m, n - 1);
      PrefixMapIsPart(s, m, n - 1);
      assert s[..n][..n - 1] == s[..n - 1];
      var e, before := s[n - 1], PrefixMap(s, n - 1);
      if e.key != 0 {
        AddEntry(before, e);
        assert multiset(FullEntries(s[..n - 1]) + [e]) == multiset(FullEntries(s[..n - 1])) + multiset{e};
      } else {
        assert FullEntries(s[..n - 1]) + [] == FullEntries(s[..n - 1]);
      }
    }
  }

  lemma AddEntry(m: map<nat, nat>, e: Entry)
    requires e.key !in m
    ensures multiset(Entries(m[e.key := e.value])) == multiset(Entries(m)) + multiset{e}
  {
    var m' := m[e.key := e.value];
    assert Entries(m') == Entries(m) + {e} by {
      forall x | x in Entries(m) + {e}
        ensures x in Entries(m')
      {
        assert x.key in m' && m'[x.key] == x.value;
      }
      forall x | x in Entries(m')
        ensures x in Entries(m) + {e}
      {
        if x.key != e.key { assert x.key in m; }
      }
    }
    assert e !in Entries(m);
  }

  lemma RemoveEntry(m: map<nat, nat>, key: nat)
    requires key in m
    ensures multiset(Entries(m)) == multiset(Entries(m - {key})) + multiset{Entry(key, m[key])}
  {
    AddEntry(m - {key}, Entry(key, m[key]));
    assert (m - {key})[key := m[key]] == m;
  }

  /** The full slots, read in slot order, are the pairs of the map, each once. */
  lemma AllEntriesOnce(s: seq<Entry>, m: map<nat, nat>)
    requires Distinct(s) && Represents(s, m)
    ensures multiset(FullEntries(s)) == multiset(Entries(m))
  {
    FullEntriesOnce(s, m, |s|);
    PrefixMapWhole(s, m);
    assert s[..|s|] == s;
  }

  // ---------- probing ----------

  /** The slots from the home of `key` up to `i` are all taken by other keys. */
  ghost predicate Passed(s: seq<Entry>, home: nat, i: nat, key: nat) {
    forall x :: 0 <= x < |s| && Between(home, x, i) ==> Full(s, x) && s[x].key != key
  }

  lemma BetweenTotal(k: nat, i: nat, j: nat)
    ensures i == j || Between(k, i, j) || Between(k, j, i)
  {
  }

  /** An empty slot at the end of a probe proves the key absent. */
  lemma ProbeMiss(s: seq<Entry>, hash: nat -> nat, m: map<nat, nat>, i: nat, key: nat)
    requires i < |s| && Table(s, hash, m)
    requires Passed(s, Home(hash, |s|, key), i, key) && !Full(s, i)
    ensures key !in m && s[i] == EMPTY
  {
    if key in m {
      assert HasKey(s, key);
      var j :| 0 <= j < |s| && s[j].key == key;
      assert Full(s, j);
      var home := Home(hash, |s|, key);
      BetweenTotal(home, i, j);
      assert false;
    }
  }

  lemma ProbeHit(s: seq<Entry>, hash: nat -> nat, m: map<nat, nat>, i: nat)
    requires i < |s| && Table(s, hash, m) && Full(s, i)
    ensures s[i].key in m && s[i] == Entry(s[i].key, m[s[i].key])
  {
  }

  lemma ProbeStep(s: seq<Entry>, home: nat, i: nat, key: nat)
    requires i < |s| && home < |s| && Passed(s, home, i, key)
    requires Full(s, i) && s[i].key != key && Next(i, |s|) != home
    ensures Passed(s, home, Next(i, |s|), key)
  {
    forall x | 0 <= x < |s| && Between(home, x, Next(i, |s|))
      ensures Full(s, x) && s[x].key != key
    {
      assert x == i || Between(home, x, i);
    }
  }

  lemma TableInsert(s: seq<Entry>, hash: nat -> nat, m: map<nat, nat>, i: nat, e: Entry)
    requires i < |s| && Table(s, hash, m) && e.key != 0
    requires Passed(s, Home(hash, |s|, e.key), i, e.key) && !Full(s, i)
    ensures e.key !in m
    ensures Table(s[i := e], hash, m[e.key := e.value])
  {
    ProbeMiss(s, hash, m, i, e.key);
    var t, m' := s[i := e], m[e.key := e.value];
    assert Probes(t, hash) by {
      forall j, x | 0 <= j < |t| && 0 <= x < |t| && Full(t, j) && Between(Home(hash, |t|, t[j].key), x, j)
        ensures Full(t, x)
      {
        if x != i {
          if j == i { assert Full(s, x); } else { assert Full(s, j); assert Full(s, x); }
        }
      }
    }
    assert Represents(t, m') by {
      forall key | key in m'
        ensures key != 0 && HasKey(t, key)
      {
        if key == e.key {
          assert t[i].key == key;
        } else {
          assert HasKey(s, key);
          var j :| 0 <= j < |s| && s[j].key == key;
          assert t[j].key == key;
        }
      }
    }
  }

  // ---------- backward-shift deletion ----------

  /** The table with a hole at `i` while slots up to `j` have been examined: the hole is the only
      empty slot that can cut off an element, and then only one not yet examined. */
  ghost predicate Holed(g: seq<Entry>, hash: nat -> nat, i: nat, j: nat) {
    && i < |g| && j < |g| && !Full(g, i)
    && (forall x :: 0 <= x < |g| && Scanned(i, x, j) ==> Full(g, x))
    && forall y, x :: 0 <= y < |g| && 0 <= x < |g| && Full(g, y) && !Full(g, x)
                      && Between(Home(hash, |g|, g[y].key), x, y) ==>
         x == i && !Scanned(i, y, j)
  }

  lemma OpenHole(s: seq<Entry>, hash: nat -> nat, m: map<nat, nat>, i: nat)
    requires i < |s| && Table(s, hash, m) && Full(s, i)
    ensures var g := s[i := EMPTY];
            && Holed(g, hash, i, i)
            && Distinct(g) && Clean(g) && Represents(g, m - {s[i].key})
  {
    var g, key := s[i := EMPTY], s[i].key;
    forall y, x | 0 <= y < |g| && 0 <= x < |g| && Full(g, y) && !Full(g, x) && Between(Home(hash, |g|, g[y].key), x, y)
      ensures x == i
    {
      assert Full(s, y);
      assert x != i ==> Full(s, x);
    }
    forall other | other in m - {key}
      ensures HasKey(g, other)
    {
      assert HasKey(s, other);
      var j :| 0 <= j < |s| && s[j].key == other;
      assert g[j].key == other;
    }
  }

  /** While another slot `z` is empty, the look-ahead index meets it before it comes round. */
  lemma LookAhead(g: seq<Entry>, hash: nat -> nat, i: nat, j: nat, z: nat)
    requires Holed(g, hash, i, j) && z < |g| && z != i && !Full(g, z)
    ensures Next(j, |g|) != i && j != z && !Full(g, i)
  {
    assert !Scanned(i, z, j);
  }

  /** The next slot is empty: the hole may stay where it is. */
  lemma CloseHole(g: seq<Entry>, hash: nat -> nat, i: nat, j: nat)
    requires Holed(g, hash, i, j)
    requires var e := Next(j, |g|); e != i && !Full(g, e)
    ensures Probes(g, hash)
  {
    var e := Next(j, |g|);
    forall y, x | 0 <= y < |g| && 0 <= x < |g| && Full(g, y) && Between(Home(hash, |g|, g[y].key), x, y)
      ensures Full(g, x)
    {
      if !Full(g, x) {
        assert x == i && !Scanned(i, y, j);
        assert y != i && y != e;
        assert Between(Home(hash, |g|, g[y].key), e, y);
        assert false;
      }
    }
  }

  /** The element at the next slot cannot fill the hole: its home lies behind the hole. */
  lemma KeepHole(g: seq<Entry>, hash: nat -> nat, i: nat, j: nat)
    requires Holed(g, hash, i, j)
    requires var e := Next(j, |g|); e != i && Full(g, e) && !Between(Home(hash, |g|, g[e].key), i, e)
    ensures Holed(g, hash, i, Next(j, |g|))
  {
    var e := Next(j, |g|);
    forall x | 0 <= x < |g| && Scanned(i, x, e)
      ensures Full(g, x)
    {
      assert x == e || Scanned(i, x, j);
    }
    forall y, x | 0 <= y < |g| && 0 <= x < |g| && Full(g, y) && !Full(g, x) && Between(Home(hash, |g|, g[y].key), x, y)
      ensures x == i && !Scanned(i, y, e)
    {
      assert x == i && !Scanned(i, y, j);
      assert Scanned(i, y, e) ==> y == e;
    }
  }

  /** The element at the next slot fills the hole, and leaves a new one behind. */
  lemma MoveHole(g: seq<Entry>, hash: nat -> nat, i: nat, j: nat)
    requires Holed(g, hash, i, j)
    requires var e := Next(j, |g|); e != i && Full(g, e) && Between(Home(hash, |g|, g[e].key), i, e)
    ensures var e := Next(j, |g|); Holed(g[i := g[e]][e := EMPTY], hash, e, e)
  {
    var e := Next(j, |g|);
    var t := g[i := g[e]][e := EMPTY];
    forall y, x | 0 <= y < |t| && 0 <= x < |t| && Full(t, y) && !Full(t, x) && Between(Home(hash, |t|, t[y].key), x, y)
      ensures x == e
    {
      if x != e {
        assert !Full(g, x) && x != i;
        if y == i {
          assert Between(Home(hash, |g|, g[e].key), x, e);
        } else {
          assert Full(g, y);
        }
        assert false;
      }
    }
  }

  lemma MoveKeeps(g: seq<Entry>, m: map<nat, nat>, i: nat, e: nat)
    requires i < |g| && e < |g| && i != e && !Full(g, i) && Full(g, e)
    requires Distinct(g) && Clean(g) && Represents(g, m)
    ensures var t := g[i := g[e]][e := EMPTY];
            Distinct(t) && Clean(t) && Represents(t, m)
  {
    var t := g[i := g[e]][e := EMPTY];
    forall key | key in m
      ensures HasKey(t, key)
    {
      assert HasKey(g, key);
      var x :| 0 <= x < |g| && g[x].key == key;
      assert t[if x == e then i else x].key == key;
    }
  }
}
