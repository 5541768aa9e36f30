/** Replacing every occurrence of a string, described on values: leftmost, non-overlapping, and
    without looking again at what was put in. */
module Replacement {
  import opened Wrappers
  import opened Bytes

  predicate OccursAt(s: seq<byte>, m: seq<byte>, i: nat) {
    i + |m| <= |s| && s[i..i + |m|] == m
  }

  /** The leftmost occurrence from position `i` on. */
  function FirstFrom(s: seq<byte>, m: seq<byte>, i: nat): (r: Option<nat>)
    ensures r.Some? ==> i <= r.value && OccursAt(s, m, r.value)
    ensures forall k: nat :: i <= k < (if r.Some? then r.value else |s| + 1) ==> !OccursAt(s, m, k)
    decreases |s| - i
  {
    if i + |m| > |s| then None
    else if OccursAt(s, m, i) then Some(i)
    else FirstFrom(s, m, i + 1)
  }

  function ReplaceAll(s: seq<byte>, m: seq<byte>, r: seq<byte>): seq<byte>
    decreases |s|
  {
    if m == [] then s
    else
      match FirstFrom(s, m, 0)
      case None => s
      case Some(i) => s[..i] + r + ReplaceAll(s[i + |m|..], m, r)
  }

  // ---------- an independent description ----------

  /** The pieces between the occurrences that are replaced. */
  function Split(s: seq<byte>, m: seq<byte>): (gaps: seq<seq<byte>>)
    requires m != []
    ensures gaps != []
    decreases |s|
  {
    match FirstFrom(s, m, 0)
    case None => [s]
    case Some(i) => [s[..i]] + Split(s[i + |m|..], m)
  }

  function Join(gaps: seq<seq<byte>>, sep: seq<byte>): seq<byte>
    requires gaps != []
  {
    if |gaps| == 1 then gaps[0] else gaps[0] + sep + Join(gaps[1..], sep)
  }

  /** No piece lets an occurrence start before the one that ends it, and the last piece has none. */
  ghost predicate Leftmost(gaps: seq<seq<byte>>, m: seq<byte>)
    requires gaps != []
  {
    && (forall k :: 0 <= k < |gaps| - 1 ==> EndsFirst(gaps[k], m))
    && Without(gaps[|gaps| - 1], m)
  }

  ghost predicate Without(s: seq<byte>, m: seq<byte>) {
    forall i: nat :: !OccursAt(s, m, i)
  }

  /** In a piece and the occurrence that ends it, no other occurrence starts earlier. */
  ghost predicate EndsFirst(gap: seq<byte>, m: seq<byte>) {
    forall i: nat :: i < |gap| ==> !OccursAt(gap + m, m, i)
  }

  /** Replacing puts the new text between the pieces, and nothing else changes. */
  lemma {:induction false} ReplaceIsJoin(s: seq<byte>, m: seq<byte>, r: seq<byte>)
    requires m != []
    ensures ReplaceAll(s, m, r) == Join(Split(s, m), r)
    decreases |s|
  {
    match FirstFrom(s, m, 0)
    case None =>
    case Some(i) =>
      ReplaceIsJoin(s[i + |m|..], m, r);
      JoinCons(s[..i], Split(s[i + |m|..], m), r);
  }

  lemma JoinCons(gap: seq<byte>, gaps: seq<seq<byte>>, sep: seq<byte>)
    requires gaps != []
    ensures Join([gap] + gaps, sep) == gap + sep + Join(gaps, sep)
  {
    assert ([gap] + gaps)[1..] == gaps;
  }

  /** The pieces joined by the match are the original text; so replacing a text by itself changes nothing. */
  lemma {:induction false} SplitJoins(s: seq<byte>, m: seq<byte>)
    requires m != []
    ensures Join(Split(s, m), m) == s
    decreases |s|
  {
    match FirstFrom(s, m, 0)
    case None =>
    case Some(i) =>
      SplitJoins(s[i + |m|..], m);
      JoinCons(s[..i], Split(s[i + |m|..], m), m);
      assert s == s[..i] + s[i..i + |m|] + s[i + |m|..];
  }

  lemma FirstFromIs(s: seq<byte>, m: seq<byte>, i: nat, k: nat)
    requires i <= k && OccursAt(s, m, k)
    requires forall x: nat :: i <= x < k ==> !OccursAt(s, m, x)
    ensures FirstFrom(s, m, i) == Some(k)
  {
  }

  lemma OccursInPrefix(s: seq<byte>, t: seq<byte>, m: seq<byte>, i: nat)
    requires i + |m| <= |s| && s <= t
    ensures OccursAt(s, m, i) <==> OccursAt(t, m, i)
  {
    assert s[i..i + |m|] == t[i..i + |m|];
  }

  lemma {:induction false} SplitIsLeftmost(s: seq<byte>, m: seq<byte>)
    requires m != []
    ensures Leftmost(Split(s, m), m)
    decreases |s|
  {
    match FirstFrom(s, m, 0)
    case None =>
    case Some(i) =>
      var rest := Split(s[i + |m|..], m);
      SplitIsLeftmost(s[i + |m|..], m);
      var gaps := [s[..i]] + rest;
      forall k | 0 <= k < |gaps| - 1
        ensures EndsFirst(gaps[k], m)
      {
        if k == 0 {
          assert s[..i] + m == s[..i + |m|];
          forall x: nat | x < i ensures !OccursAt(s[..i] + m, m, x) {
            OccursInPrefix(s[..i] + m, s, m, x);
          }
        } else {
          assert gaps[k] == rest[k - 1];
        }
      }
      assert gaps[|gaps| - 1] == rest[|rest| - 1];
  }

  /** Leftmost pieces are unique: every leftmost cut of a text is the one `Split` finds. */
  lemma {:induction false} LeftmostIsSplit(gaps: seq<seq<byte>>, m: seq<byte>)
    requires m != [] && gaps != [] && Leftmost(gaps, m)
    ensures Split(Join(gaps, m), m) == gaps
    decreases |gaps|
  {
    var s := Join(gaps, m);
    if |gaps| == 1 {
      assert FirstFrom(s, m, 0) == None;
    } else {
      var g, rest := gaps[0], Join(gaps[1..], m);
      assert s == g + m + rest;
      var i := |g|;
      assert s[i..i + |m|] == m;
      forall x: nat | x < i
        ensures !OccursAt(s, m, x)
      {
        OccursInPrefix(g + m, s, m, x);
      }
      FirstFromIs(s, m, 0, i);
      assert s[i + |m|..] == rest && s[..i] == g;
      assert EndsFirst(g, m);
      forall k | 0 <= k < |gaps| - 2
        ensures EndsFirst(gaps[1..][k], m)
      {
        assert gaps[1..][k] == gaps[k + 1];
      }
      assert gaps[1..][|gaps| - 2] == gaps[|gaps| - 1];
      LeftmostIsSplit(gaps[1..], m);
    }
  }

  // ---------- for the loop ----------

  lemma {:induction false} FirstFromShift(done: seq<byte>, rest: seq<byte>, m: seq<byte>, i: nat)
    ensures FirstFrom(done + rest, m, |done| + i) ==
            match FirstFrom(rest, m, i) case None => None case Some(k) => Some(|done| + k)
    decreases |rest| - i
  {
    hide OccursAt;
    if i + |m| <= |rest| {
      OccursShift(done, rest, m, i);
      if !OccursAt(rest, m, i) {
        FirstFromShift(done, rest, m, i + 1);
      }
    }
  }

  lemma OccursShift(done: seq<byte>, rest: seq<byte>, m: seq<byte>, i: nat)
    ensures OccursAt(done + rest, m, |done| + i) <==> OccursAt(rest, m, i)
  {
    if i + |m| <= |rest| {
      assert (done + rest)[|done| + i..|done| + i + |m|] == rest[i..i + |m|];
    }
  }
}
