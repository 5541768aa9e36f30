/** Whole runs of the hash map: what it holds after any sequence of operations, and that every
    inserted element is either still stored or was released, exactly once. */
module MapRuns {
  import opened Bits
  import opened HashTable
  import opened HashMap

  datatype Op = Insert(entry: Entry) | Erase(key: nat) | Reserve(size: nat) | Clear

  predicate Allowed(op: Op) {
    match op
    case Insert(e) => e.key != 0
    case Reserve(size) => 2 * size <= WORD / 2
    case _ => true
  }

  ghost function After(m: map<nat, nat>, op: Op): map<nat, nat> {
    match op
    case Insert(e) => if e.key in m then m else m[e.key := e.value]
    case Erase(key) => m - {key}
    case Reserve(_) => m
    case Clear => map[]
  }

  ghost function Released(m: map<nat, nat>, op: Op): multiset<Entry> {
    match op
    case Insert(e) => if e.key in m then multiset{e} else multiset{}
    case Erase(key) => if key in m then multiset{Entry(key, m[key])} else multiset{}
    case Reserve(_) => multiset{}
    case Clear => multiset(Entries(m))
  }

  function Inserted(op: Op): multiset<Entry> {
    if op.Insert? then multiset{op.entry} else multiset{}
  }

  ghost function RunContents(m: map<nat, nat>, ops: seq<Op>): map<nat, nat> {
    if ops == [] then m else After(RunContents(m, ops[..|ops| - 1]), ops[|ops| - 1])
  }

  ghost function RunReleased(m: map<nat, nat>, ops: seq<Op>): multiset<Entry> {
    if ops == [] then multiset{}
    else RunReleased(m, ops[..|ops| - 1]) + Released(RunContents(m, ops[..|ops| - 1]), ops[|ops| - 1])
  }

  function RunInserted(ops: seq<Op>): multiset<Entry> {
    if ops == [] then multiset{} else RunInserted(ops[..|ops| - 1]) + Inserted(ops[|ops| - 1])
  }

  lemma StepConserves(m: map<nat, nat>, op: Op)
    ensures multiset(Entries(m)) + Inserted(op) == multiset(Entries(After(m, op))) + Released(m, op)
  {
    match op
    case Insert(e) => if e.key !in m { AddEntry(m, e); }
    case Erase(key) => if key in m { RemoveEntry(m, key); } else { assert m - {key} == m; }
    case Reserve(_) =>
    case Clear => assert Entries(map[]) == {};
  }

  /** Conservation: elements inserted = elements stored + elements released. */
  lemma {:induction false} RunConserves(m: map<nat, nat>, ops: seq<Op>)
    ensures multiset(Entries(m)) + RunInserted(ops) == multiset(Entries(RunContents(m, ops))) + RunReleased(m, ops)
    decreases |ops|
  {
    if ops != [] {
      var init, op := ops[..|ops| - 1], ops[|ops| - 1];
      RunConserves(m, init);
      StepConserves(RunContents(m, init), op);
      Balance(multiset(Entries(m)), RunInserted(init), Inserted(op), multiset(Entries(RunContents(m, init))),
              RunReleased(m, init), multiset(Entries(RunContents(m, ops))), Released(RunContents(m, init), op));
    }
  }

  lemma Balance<T>(a: multiset<T>, i: multiset<T>, i': multiset<T>, c: multiset<T>, r: multiset<T>,
                   c': multiset<T>, r': multiset<T>)
    requires a + i == c + r && c + i' == c' + r'
    ensures a + (i + i') == c' + (r + r')
  {
    assert a + (i + i') == c + r + i' == (c + i') + r == c' + (r + r');
  }

  predicate Resets(op: Op, key: nat) {
    op == Clear || op == Erase(key)
  }

  /** Operation `i` inserted `key`, and nothing removed it since. */
  ghost predicate Live(ops: seq<Op>, i: nat, key: nat) {
    && i < |ops| && ops[i].Insert? && ops[i].entry.key == key
    && forall j :: i < j < |ops| ==> !Resets(ops[j], key)
  }

  ghost predicate Wins(ops: seq<Op>, i: nat, key: nat) {
    Live(ops, i, key) && forall j: nat :: j < i ==> !Live(ops, j, key)
  }

  /** A key is present exactly if some insertion of it is still live, and then the earliest such
      insertion determines the value. */
  lemma {:induction false} FirstInsertionWins(ops: seq<Op>, key: nat)
    ensures key in RunContents(map[], ops) <==> exists i: nat :: Live(ops, i, key)
    ensures forall i: nat :: Wins(ops, i, key) ==> RunContents(map[], ops)[key] == ops[i].entry.value
    ensures key in RunContents(map[], ops) ==> exists i: nat :: Wins(ops, i, key)
    decreases |ops|
  {
    if ops != [] {
      var n := |ops| - 1;
      var init, op := ops[..n], ops[n];
      FirstInsertionWins(init, key);
      assert forall i: nat :: i < n ==> (Live(ops, i, key) <==> Live(init, i, key) && !Resets(op, key)) by {
        forall i: nat | i < n
          ensures Live(ops, i, key) <==> Live(init, i, key) && !Resets(op, key)
        {
          LiveExtend(ops, i, key);
        }
      }
      assert Live(ops, n, key) <==> op.Insert? && op.entry.key == key;
      if Resets(op, key) {
        assert forall i: nat :: !Live(ops, i, key);
      } else if key in RunContents(map[], init) {
        var w: nat :| Wins(init, w, key);
        assert Live(init, w, key) && Wins(ops, w, key);
        forall i: nat | Wins(ops, i, key)
          ensures i == w
        {
          assert i < w ==> !Live(init, i, key);
          assert w < i ==> !Live(ops, w, key);
        }
      } else {
        assert forall i: nat :: i < n ==> !Live(init, i, key);
        if op.Insert? && op.entry.key == key {
          assert Wins(ops, n, key);
        }
      }
    }
  }

  lemma LiveExtend(ops: seq<Op>, i: nat, key: nat)
    requires i < |ops| - 1
    ensures Live(ops, i, key) <==> Live(ops[..|ops| - 1], i, key) && !Resets(ops[|ops| - 1], key)
  {
    var n := |ops| - 1;
    var init := ops[..n];
    if Live(ops, i, key) {
      forall j | i < j < n
        ensures !Resets(init[j], key)
      {
        assert !Resets(ops[j], key);
      }
    }
    if Live(init, i, key) && !Resets(ops[n], key) {
      forall j | i < j < |ops|
        ensures !Resets(ops[j], key)
      {
        if j < n { assert !Resets(init[j], key); }
      }
    }
  }

  lemma AfterSize(m: map<nat, nat>, op: Op)
    ensures |After(m, op)| <= |m| + 1
  {
    if op.Erase? {
      SubmapSize(m - {op.key}, m);
    }
  }

  /** One operation on a real table does to its contents what `After` says. */
  method Perform(table: Map, op: Op) returns (released: seq<Entry>)
    requires table.Valid() && Allowed(op)
    requires 2 * (|table.contents| + 1) <= WORD / 2
    modifies table, table.elements
    ensures table.Valid()
    ensures table.elements == old(table.elements) || fresh(table.elements)
    ensures table.contents == After(old(table.contents), op)
    ensures multiset(released) == Released(old(table.contents), op)
  {
    released := [];
    match op {
      case Insert(e) => released := table.Insert(e, true);
      case Erase(key) => released := table.Erase(key, true);
      case Reserve(size) => table.Reserve(size);
      case Clear => released := table.Clear(true);
    }
  }

  /** Any run on a real table, with rehashes wherever they fall, refines the run on the finite map. */
  method Execute(table: Map, ops: seq<Op>) returns (released: seq<Entry>)
    requires table.Valid()
    requires forall i :: 0 <= i < |ops| ==> Allowed(ops[i])
    requires 2 * (|table.contents| + |ops|) <= WORD / 2
    modifies table, table.elements
    ensures table.Valid()
    ensures table.contents == RunContents(old(table.contents), ops)
    ensures multiset(released) == RunReleased(old(table.contents), ops)
  {
    hide *;
    released := [];
    ghost var m := table.contents;
    RunNothing(m);
    assert ops[..0] == [];
    for i := 0 to |ops|
      invariant table.Valid()
      invariant table.elements == old(table.elements) || fresh(table.elements)
      invariant table.contents == RunContents(m, ops[..i]) && |table.contents| <= |m| + i
      invariant multiset(released) == RunReleased(m, ops[..i])
    {
      RunStep(m, ops, i);
      AfterSize(table.contents, ops[i]);
      var now := Perform(table, ops[i]);
      released := released + now;
    }
    assert ops[..|ops|] == ops;
  }

  lemma RunNothing(m: map<nat, nat>)
    ensures RunContents(m, []) == m && RunReleased(m, []) == multiset{}
  {
  }

  lemma RunStep(m: map<nat, nat>, ops: seq<Op>, i: nat)
    requires i < |ops|
    ensures RunContents(m, ops[..i + 1]) == After(RunContents(m, ops[..i]), ops[i])
    ensures RunReleased(m, ops[..i + 1]) == RunReleased(m, ops[..i]) + Released(RunContents(m, ops[..i]), ops[i])
  {
    assert ops[..i + 1][..i] == ops[..i];
  }
}
