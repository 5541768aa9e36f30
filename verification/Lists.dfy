/**
 Intrusive circular lists: every item carries its two links, and a list is itself an item, the
 sentinel, that closes the ring. A ring is described by the sequence of its items, sentinel first.
 */
module Lists {
  class Item {
    var next: Item?
    var previous: Item?
    var payload: nat

    constructor (payload: nat)
      ensures this.payload == payload && next == null && previous == null
    {
      next, previous, this.payload := null, null, payload;
    }
  }

  predicate Distinct(r: seq<Item>) {
    forall i, j :: 0 <= i < j < |r| ==> r[i] != r[j]
  }

  /** Following `next` walks through `r` and back to its start; following `previous` is the reverse. */
  ghost predicate Ring(r: seq<Item>)
    reads r
  {
    && |r| > 0 && Distinct(r)
    && (forall i :: 0 <= i < |r| ==> r[i].next == r[Succ(i, |r|)])
    && (forall i :: 0 <= i < |r| ==> r[i].previous == r[Pred(i, |r|)])
  }

  function Succ(i: nat, n: nat): nat {
    if i + 1 == n then 0 else i + 1
  }

  function Pred(i: nat, n: nat): int {
    if i == 0 then n - 1 else i - 1
  }

  /** `item` put before position `k`; before the sentinel means at the end. */
  function InsertAt<T>(r: seq<T>, k: nat, item: T): seq<T>
    requires k < |r|
  {
    if k == 0 then r + [item] else r[..k] + [item] + r[k..]
  }

  function RemoveAt<T>(r: seq<T>, k: nat): seq<T>
    requires 0 < k < |r|
  {
    r[..k] + r[k + 1..]
  }

  /** The item at `from` taken out and put before the item at `to`. */
  function MoveBefore<T>(r: seq<T>, from: nat, to: nat): seq<T>
    requires 0 < from < |r| && to < |r| && from != to
  {
    InsertAt(RemoveAt(r, from), if from < to then to - 1 else to, r[from])
  }

  function Reverse<T>(s: seq<T>): seq<T> {
    if s == [] then [] else Reverse(s[1..]) + [s[0]]
  }

  /** The position at which the moved item arrives. */
  function MovedTo(n: nat, from: nat, to: nat): nat
    requires 0 < from < n && to < n
  {
    if to == 0 then n - 1 else if from < to then to - 1 else to
  }

  /** A move loses and duplicates nothing, keeps the sentinel in front, puts the item right before its
      target, and changes nothing about the rest. */
  lemma MoveIsPermutation<T>(r: seq<T>, from: nat, to: nat)
    requires 0 < from < |r| && to < |r| && from != to
    ensures var moved, k := MoveBefore(r, from, to), MovedTo(|r|, from, to);
            && |moved| == |r| && moved[0] == r[0] && moved[k] == r[from]
            && 0 < k && RemoveAt(moved, k) == RemoveAt(r, from)
            && moved[Succ(k, |r|)] == r[to]
    ensures multiset(MoveBefore(r, from, to)) == multiset(r)
  {
    hide RemoveAt, MoveBefore;
    Moved(r, from, to);
    SameItems(r, from);
    SameItems(MoveBefore(r, from, to), MovedTo(|r|, from, to));
  }

  lemma Moved<T>(r: seq<T>, from: nat, to: nat)
    requires 0 < from < |r| && to < |r| && from != to
    ensures var moved, k := MoveBefore(r, from, to), MovedTo(|r|, from, to);
            && |moved| == |r| && moved[0] == r[0] && moved[k] == r[from]
            && 0 < k && RemoveAt(moved, k) == RemoveAt(r, from)
            && moved[Succ(k, |r|)] == r[to]
  {
    var cut, k := RemoveAt(r, from), MovedTo(|r|, from, to);
    var moved := MoveBefore(r, from, to);
    assert moved == cut[..k] + [r[from]] + cut[k..];
    assert moved[..k] == cut[..k] && moved[k + 1..] == cut[k..];
  }

  lemma SameItems<T>(r: seq<T>, k: nat)
    requires 0 < k < |r|
    ensures multiset(r) == multiset(RemoveAt(r, k)) + multiset{r[k]}
  {
    assert r == r[..k] + ([r[k]] + r[k + 1..]);
    assert multiset(r) == multiset(r[..k]) + (multiset([r[k]]) + multiset(r[k + 1..]));
  }

  /** `list_construct`. */
  method Construct(l: Item)
    modifies l
    ensures Ring([l])
  {
    l.next := l;
    l.previous := l;
  }

  /** The links of `r` are those of a ring, except for the gap before position `k`, which `item` fills. */
  ghost predicate Fills(r: seq<Item>, k: nat, item: Item)
    reads r, item
  {
    && k < |r| && item.next == r[k] && item.previous == r[Pred(k, |r|)]
    && (forall i :: 0 <= i < |r| ==> r[i].next == if i == Pred(k, |r|) then item else r[Succ(i, |r|)])
    && (forall i :: 0 <= i < |r| ==> r[i].previous == if i == k then item else r[Pred(i, |r|)])
  }

  lemma Linked(r: seq<Item>, k: nat, item: Item)
    requires k < |r| && Fills(r, k, item) && Distinct(r) && item !in r
    ensures Ring(InsertAt(r, k, item))
  {
    hide InsertAt, Distinct, Fills;
    InsertedDistinct(r, k, item);
    forall i | 0 <= i <= |r|
      ensures InsertAt(r, k, item)[i].next == InsertAt(r, k, item)[Succ(i, |r| + 1)]
      ensures InsertAt(r, k, item)[i].previous == InsertAt(r, k, item)[Pred(i, |r| + 1)]
    {
      LinkedAt(r, k, item, i);
    }
  }

  /** Where the items of `r` end up when `item` is inserted. */
  lemma InsertedItems(r: seq<Item>, k: nat, item: Item)
    requires k < |r|
    ensures var r', p := InsertAt(r, k, item), if k == 0 then |r| else k;
            && |r'| == |r| + 1 && r'[p] == item
            && (forall i :: 0 <= i < p ==> r'[i] == r[i])
            && (forall i :: p < i < |r'| ==> r'[i] == r[i - 1])
  {
  }

  lemma InsertedDistinct(r: seq<Item>, k: nat, item: Item)
    requires k < |r| && Distinct(r) && item !in r
    ensures |InsertAt(r, k, item)| == |r| + 1 && Distinct(InsertAt(r, k, item))
  {
  }

  lemma FillsAt(r: seq<Item>, k: nat, item: Item, i: nat)
    requires k < |r| && Fills(r, k, item) && i < |r|
    ensures r[i].next == if i == Pred(k, |r|) then item else r[Succ(i, |r|)]
    ensures r[i].previous == if i == k then item else r[Pred(i, |r|)]
    ensures item.next == r[k] && item.previous == r[Pred(k, |r|)]
  {
  }

  lemma LinkedAt(r: seq<Item>, k: nat, item: Item, i: nat)
    requires k < |r| && Fills(r, k, item) && i <= |r|
    ensures |InsertAt(r, k, item)| == |r| + 1
    ensures InsertAt(r, k, item)[i].next == InsertAt(r, k, item)[Succ(i, |r| + 1)]
    ensures InsertAt(r, k, item)[i].previous == InsertAt(r, k, item)[Pred(i, |r| + 1)]
  {
    hide InsertAt, Fills;
    InsertedItems(r, k, item);
    var p := if k == 0 then |r| else k;
    FillsAt(r, k, item, if i < p then i else if i == p then k else i - 1);
  }

  /** The links of `r` are those of a ring that skips position `k`. */
  ghost predicate Skips(r: seq<Item>, k: nat)
    reads r
  {
    && 0 < k < |r| && r[k - 1].next == r[Succ(k, |r|)] && r[Succ(k, |r|)].previous == r[k - 1]
    && (forall i :: 0 <= i < |r| && i != k && i != k - 1 ==> r[i].next == r[Succ(i, |r|)])
    && (forall i :: 0 <= i < |r| && i != k && i != Succ(k, |r|) ==> r[i].previous == r[Pred(i, |r|)])
  }

  lemma Unlinked(r: seq<Item>, k: nat)
    requires 0 < k < |r| && Skips(r, k) && Distinct(r)
    ensures Ring(RemoveAt(r, k))
  {
    hide RemoveAt, Distinct, Skips;
    RemainDistinct(r, k);
    forall i | 0 <= i < |r| - 1
      ensures RemoveAt(r, k)[i].next == RemoveAt(r, k)[Succ(i, |r| - 1)]
      ensures RemoveAt(r, k)[i].previous == RemoveAt(r, k)[Pred(i, |r| - 1)]
    {
      UnlinkedAt(r, k, i);
    }
  }

  /** Where the other items end up when the item at `k` is removed. */
  lemma RemainingItems(r: seq<Item>, k: nat)
    requires 0 < k < |r|
    ensures var r' := RemoveAt(r, k);
            && |r'| == |r| - 1
            && (forall i :: 0 <= i < k ==> r'[i] == r[i])
            && (forall i :: k <= i < |r'| ==> r'[i] == r[i + 1])
  {
  }

  lemma RemainDistinct(r: seq<Item>, k: nat)
    requires 0 < k < |r| && Distinct(r)
    ensures |RemoveAt(r, k)| == |r| - 1 && Distinct(RemoveAt(r, k))
  {
  }

  lemma SkipsAt(r: seq<Item>, k: nat, i: nat)
    requires 0 < k < |r| && Skips(r, k) && i < |r| && i != k
    ensures r[i].next == r[Succ(if i == k - 1 then k else i, |r|)]
    ensures r[i].previous == if i == Succ(k, |r|) then r[k - 1] else r[Pred(i, |r|)]
  {
  }

  lemma UnlinkedAt(r: seq<Item>, k: nat, i: nat)
    requires 0 < k < |r| && Skips(r, k) && i < |r| - 1
    ensures |RemoveAt(r, k)| == |r| - 1
    ensures RemoveAt(r, k)[i].next == RemoveAt(r, k)[Succ(i, |r| - 1)]
    ensures RemoveAt(r, k)[i].previous == RemoveAt(r, k)[Pred(i, |r| - 1)]
  {
    hide RemoveAt, Skips;
    RemainingItems(r, k);
    SkipsAt(r, k, if i < k then i else i + 1);
  }

  lemma RingLinks(r: seq<Item>)
    requires Ring(r)
    ensures Distinct(r)
    ensures forall i :: 0 <= i < |r| ==> r[i].next == r[Succ(i, |r|)]
    ensures forall i :: 0 <= i < |r| ==> r[i].previous == r[Pred(i, |r|)]
  {
  }

  /** The four stores that link an item in front of another. */
  method Link(item: Item, after: Item, ghost r: seq<Item>, ghost k: nat)
    requires Ring(r) && k < |r| && r[k] == after && item !in r
    modifies r, item
    ensures Ring(InsertAt(r, k, item))
    ensures item.payload == old(item.payload) && forall x :: x in r ==> x.payload == old(x.payload)
  {
    hide Ring, InsertAt;
    RingLinks(r);
    item.previous := after.previous;
    item.next := after;
    item.previous.next := item;
    item.next.previous := item;
    Linked(r, k, item);
  }

  /** The two stores that unlink an item. */
  method Unlink(item: Item, ghost r: seq<Item>, ghost k: nat)
    requires Ring(r) && 0 < k < |r| && r[k] == item
    modifies r
    ensures Ring(RemoveAt(r, k))
    ensures forall x :: x in r ==> x.payload == old(x.payload)
  {
    hide Ring, RemoveAt;
    RingLinks(r);
    assert item.previous == r[k - 1] && item.next == r[Succ(k, |r|)];
    item.previous.next := item.next;
    item.next.previous := item.previous;
    Unlinked(r, k);
  }

  /** `list_insert`: a new item with a copy of the object, before the given item. */
  method Insert(after: Item, payload: nat, ghost r: seq<Item>, ghost k: nat) returns (item: Item)
    requires Ring(r) && k < |r| && r[k] == after
    modifies r
    ensures fresh(item) && item.payload == payload
    ensures Ring(InsertAt(r, k, item))
    ensures forall x :: x in r ==> x.payload == old(x.payload)
  {
    item := new Item(payload);
    Link(item, after, r, k);
  }

  /** `list_push_front` and `list_push_back`. */
  method PushFront(l: Item, payload: nat, ghost r: seq<Item>) returns (item: Item)
    requires Ring(r) && r[0] == l
    modifies r
    ensures fresh(item) && item.payload == payload
    ensures Ring([l, item] + r[1..])
  {
    assert l.next == r[Succ(0, |r|)];
    item := Insert(l.next, payload, r, Succ(0, |r|));
    assert InsertAt(r, Succ(0, |r|), item) == [l, item] + r[1..];
  }

  method PushBack(l: Item, payload: nat, ghost r: seq<Item>) returns (item: Item)
    requires Ring(r) && r[0] == l
    modifies r
    ensures fresh(item) && item.payload == payload
    ensures Ring(r + [item])
  {
    item := Insert(l, payload, r, 0);
  }

  /** `list_splice`: moves `from` before `to`, within one ring or from one ring to another. */
  method Splice(to: Item, from: Item, ghost target: seq<Item>, ghost kt: nat, ghost source: seq<Item>, ghost ks: nat)
    requires Ring(target) && kt < |target| && target[kt] == to
    requires Ring(source) && 0 < ks < |source| && source[ks] == from
    requires target == source || forall x :: x in target ==> x !in source
    modifies target, source
    ensures to == from ==> Ring(source)
    ensures to != from && target == source ==> Ring(MoveBefore(source, ks, kt))
    ensures target != source ==> Ring(RemoveAt(source, ks)) && Ring(InsertAt(target, kt, from))
    ensures forall x :: x in target || x in source ==> x.payload == old(x.payload)
  {
    hide Ring, InsertAt;
    RingLinks(source);
    assert from in source && to in target;
    if to == from {
      return;
    }
    ghost var cut := RemoveAt(source, ks);
    assert forall x :: x in cut ==> x in source && x != from;
    ghost var ring, at := target, kt;
    if target == source {
      ring, at := cut, if ks < kt then kt - 1 else kt;
      assert cut[at] == to;
    }
    Unlink(from, source, ks);
    if target != source {
      assert forall i :: 0 <= i < |target| ==> target[i] !in source;
      assert Ring(target);
    }
    Link(from, to, ring, at);
  }

  /** `list_erase`: the item is unlinked and handed to the release callback. */
  method Erase(item: Item, ghost r: seq<Item>, ghost k: nat) returns (released: Item)
    requires Ring(r) && 0 < k < |r| && r[k] == item
    modifies r
    ensures Ring(RemoveAt(r, k)) && released == item
    ensures forall x :: x in r ==> x.payload == old(x.payload)
  {
    Unlink(item, r, k);
    released := item;
  }

  /** `list_empty`. */
  method Empty(l: Item, ghost r: seq<Item>) returns (b: bool)
    requires Ring(r) && r[0] == l
    ensures b <==> r == [l]
  {
    b := l.next == l;
    if |r| > 1 { assert l.next == r[1] && r[0] != r[1]; }
  }

  /** `list_erase(list_front(l))`. */
  method EraseFront(l: Item, ghost r: seq<Item>) returns (released: Item)
    requires Ring(r) && r[0] == l && |r| > 1
    modifies r
    ensures Ring([l] + r[2..])
    ensures r[1..] == [released] + r[2..]
  {
    assert l.next == r[Succ(0, |r|)];
    released := Erase(l.next, r, 1);
    assert RemoveAt(r, 1) == [l] + r[2..];
  }

  /** `list_clear`: every item is released once, in order, and the empty ring remains. */
  method Clear(l: Item, ghost r: seq<Item>) returns (released: seq<Item>)
    requires Ring(r) && r[0] == l
    modifies r
    ensures Ring([l])
    ensures released == r[1..]
  {
    released := [];
    ghost var rest := r;
    while true
      invariant Ring(rest) && rest[0] == l && forall i :: 0 <= i < |rest| ==> rest[i] in r
      invariant r[1..] == released + rest[1..]
      decreases |rest|
    {
      var empty := Empty(l, rest);
      if empty {
        break;
      }
      var item := EraseFront(l, rest);
      released := released + [item];
      rest := [l] + rest[2..];
    }
  }

  /** `list_foreach`: the items in order. */
  method Forward(l: Item, ghost r: seq<Item>) returns (items: seq<Item>)
    requires Ring(r) && r[0] == l
    ensures items == r[1..]
  {
    items := [];
    var o := l.next;
    ghost var i := Succ(0, |r|);
    while o != l
      invariant |items| < |r| && i == Succ(|items|, |r|) && o == r[i]
      invariant items == r[1..|items| + 1]
      decreases |r| - |items|
    {
      items := items + [o];
      o := o.next;
      i := Succ(i, |r|);
    }
  }

  /** `list_foreach_reverse`: the same items, in reverse order. */
  method Backward(l: Item, ghost r: seq<Item>) returns (items: seq<Item>)
    requires Ring(r) && r[0] == l
    ensures items == Reverse(r[1..])
  {
    items := [];
    var o := l.previous;
    ghost var i := |r| - 1;
    assert r[|r|..] == [];
    while o != l
      invariant 0 <= i < |r| && o == r[i]
      invariant items == Reverse(r[i + 1..])
      decreases i
    {
      ReversePrepend(r, i);
      items := items + [o];
      o := o.previous;
      i := i - 1;
    }
  }

  lemma ReversePrepend<T>(r: seq<T>, i: nat)
    requires i < |r|
    ensures Reverse(r[i..]) == Reverse(r[i + 1..]) + [r[i]]
  {
    assert r[i..][1..] == r[i + 1..];
  }

  /** `list_find`: the first item whose object compares equal. */
  method Find(l: Item, compare: (nat, nat) -> int, payload: nat, ghost r: seq<Item>) returns (found: Item?)
    requires Ring(r) && r[0] == l
    ensures found == null ==> forall k :: 0 < k < |r| ==> compare(payload, r[k].payload) != 0
    ensures found != null ==>
              exists k :: 0 < k < |r| && r[k] == found && compare(payload, found.payload) == 0
                && forall j :: 0 < j < k ==> compare(payload, r[j].payload) != 0
  {
    var o := l.next;
    ghost var n := 1;
    while o != l
      invariant 1 <= n <= |r| && o == r[if n == |r| then 0 else n]
      invariant forall j :: 0 < j < n ==> compare(payload, r[j].payload) != 0
      decreases |r| - n
    {
      if compare(payload, o.payload) == 0 {
        assert r[n] == o;
        return o;
      }
      o := o.next;
      n := n + 1;
    }
    found := null;
  }
}
