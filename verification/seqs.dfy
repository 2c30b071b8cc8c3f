/** Facts about topic lists: distinct elements in first-occurrence order, and
    the first and last position of an element. */
module Seqs {

  /** No element occurs twice. */
  predicate Distinct<T(==)>(s: seq<T>)
  {
    forall i, j :: 0 <= i < j < |s| ==> s[i] != s[j]
  }

  /** The distinct elements of `s`, each kept at its first occurrence. */
  function Dedup<T(==, !new)>(s: seq<T>): (d: seq<T>)
    ensures forall x :: x in d <==> x in s
    ensures Distinct(d)
    ensures |d| <= |s|
    decreases |s|
  {
    if |s| == 0 then []
    else
      var prev := Dedup(s[..|s| - 1]);
      var x := s[|s| - 1];
      assert s == s[..|s| - 1] + [x];
      if x in prev then prev else prev + [x]
  }

  /** Position of the first occurrence of `t` in `s`. */
  function FirstIndex<T(==)>(s: seq<T>, t: T): (k: nat)
    requires t in s
    ensures k < |s| && s[k] == t
    ensures forall j :: 0 <= j < k ==> s[j] != t
    decreases |s|
  {
    if s[0] == t then 0 else 1 + FirstIndex(s[1..], t)
  }

  /** Position of the last occurrence of `t` in `s`. */
  function LastIndex<T(==)>(s: seq<T>, t: T): (k: nat)
    requires t in s
    ensures k < |s| && s[k] == t
    ensures forall j :: k < j < |s| ==> s[j] != t
    decreases |s|
  {
    var n := |s| - 1;
    if s[n] == t then n
    else
      assert t in s[..n] by { assert s == s[..n] + [s[n]]; }
      LastIndex(s[..n], t)
  }

  /** The first occurrence of an element of a prefix is unaffected by appending. */
  lemma FirstIndexOfPrefix<T>(s: seq<T>, x: T, t: T)
    requires t in s
    ensures t in s + [x] && FirstIndex(s + [x], t) == FirstIndex(s, t)
  {
    var k := FirstIndex(s + [x], t);
    var k' := FirstIndex(s, t);
    assert (s + [x])[k'] == t;
    assert !(k < k') by { assert s[k] == (s + [x])[k]; }
  }

  /** `Dedup` lists the elements in the order of their first occurrence. */
  lemma {:induction false} DedupFirstOccurrenceOrder<T(!new)>(s: seq<T>)
    ensures forall i, j :: 0 <= i < j < |Dedup(s)| ==>
              FirstIndex(s, Dedup(s)[i]) < FirstIndex(s, Dedup(s)[j])
    decreases |s|
  {
    if |s| > 0 {
      var n := |s| - 1;
      var p := s[..n];
      var x := s[n];
      assert s == p + [x];
      DedupFirstOccurrenceOrder(p);
      var d := Dedup(s);
      var dp := Dedup(p);
      forall i, j | 0 <= i < j < |d|
        ensures FirstIndex(s, d[i]) < FirstIndex(s, d[j])
      {
        assert d[i] in dp;
        FirstIndexOfPrefix(p, x, d[i]);
        if j < |dp| {
          assert d[j] == dp[j];
          assert d[i] == dp[i];
          FirstIndexOfPrefix(p, x, d[j]);
        } else {
          assert d[j] == x && x !in p;
          assert FirstIndex(s, x) == n;
        }
      }
    }
  }

  /** A list has no more distinct elements than it has elements. */
  lemma {:induction false} ElementsAtMostLength<T>(s: seq<T>)
    ensures |set x | x in s| <= |s|
    decreases |s|
  {
    if |s| > 0 {
      var n := |s| - 1;
      var p := s[..n];
      ElementsAtMostLength(p);
      assert s == p + [s[n]];
      assert (set x | x in s) == (set x | x in p) + {s[n]};
    }
  }

  /** `idx` lists, ascending, exactly the positions of `s` whose element
      satisfies `keep`. */
  ghost predicate Positions<T>(keep: T -> bool, s: seq<T>, idx: seq<nat>)
  {
    && (forall i :: 0 <= i < |idx| ==> idx[i] < |s| && keep(s[idx[i]]))
    && (forall i, j :: 0 <= i < j < |idx| ==> idx[i] < idx[j])
    && (forall j :: 0 <= j < |s| && keep(s[j]) ==> j in idx)
  }

  /** The positions kept in a list extend those kept in its prefix by the last
      position, if that element is kept. */
  lemma PositionsStep<T>(keep: T -> bool, s: seq<T>, prev: seq<nat>, idx: seq<nat>)
    requires |s| > 0
    requires Positions(keep, s[..|s| - 1], prev)
    requires idx == if keep(s[|s| - 1]) then prev + [|s| - 1] else prev
    ensures Positions(keep, s, idx)
  {
    var n := |s| - 1;
    var p := s[..n];
    forall i | 0 <= i < |idx|
      ensures idx[i] < |s| && keep(s[idx[i]])
    {
      if i < |prev| {
        assert idx[i] == prev[i] && s[prev[i]] == p[prev[i]];
      }
    }
    forall i, j | 0 <= i < j < |idx|
      ensures idx[i] < idx[j]
    {
      assert idx[i] == prev[i];
    }
    forall j | 0 <= j < |s| && keep(s[j])
      ensures j in idx
    {
      if j < n {
        assert s[j] == p[j];
      } else {
        assert idx[|prev|] == n;
      }
    }
  }

  /** `f` applied to the elements of `s` at the positions `idx`, in order. */
  function Pick<T, U>(f: T --> U, s: seq<T>, idx: seq<nat>): seq<U>
    requires forall i :: 0 <= i < |idx| ==> idx[i] < |s| && f.requires(s[idx[i]])
  {
    seq(|idx|, i requires 0 <= i < |idx| => f(s[idx[i]]))
  }

  /** Picking from a list at its prefix's positions, and possibly its last
      position, extends what is picked from the prefix. */
  lemma PickStep<T, U>(f: T --> U, s: seq<T>, prev: seq<nat>, keepLast: bool)
    requires |s| > 0
    requires forall i :: 0 <= i < |prev| ==> prev[i] < |s| - 1 && f.requires(s[prev[i]])
    requires keepLast ==> f.requires(s[|s| - 1])
    ensures var n := |s| - 1;
      Pick(f, s, if keepLast then prev + [n] else prev)
      == Pick(f, s[..n], prev) + (if keepLast then [f(s[n])] else [])
  {
    var n := |s| - 1;
    var idx := if keepLast then prev + [n] else prev;
    var last := if keepLast then [f(s[n])] else [];
    var k := Pick(f, s, idx);
    var kp := Pick(f, s[..n], prev);
    forall i | 0 <= i < |k|
      ensures k[i] == (kp + last)[i]
    {
      if i < |prev| {
        assert idx[i] == prev[i] && s[prev[i]] == s[..n][prev[i]];
      }
    }
    assert k == kp + last;
  }
}
