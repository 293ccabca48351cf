/** The two array operations the editor's transitions are built from: JavaScript's
    `Array.prototype.filter` and `Array.prototype.map`, over immutable sequences. */
module Seqs {

  /** The elements of `s` satisfying `keep`, in their original order. */
  function Filter<T(!new)>(keep: T -> bool, s: seq<T>): (r: seq<T>)
    ensures |r| <= |s|
    ensures forall x :: x in r <==> x in s && keep(x)
    ensures forall x :: multiset(r)[x] == if keep(x) then multiset(s)[x] else 0
    decreases |s|
  {
    if |s| == 0 then []
    else
      assert s == [s[0]] + s[1..];
      if keep(s[0]) then [s[0]] + Filter(keep, s[1..]) else Filter(keep, s[1..])
  }

  /** Filtering distributes over concatenation: nothing moves across a cut point. */
  lemma {:induction false} FilterConcat<T(!new)>(keep: T -> bool, a: seq<T>, b: seq<T>)
    ensures Filter(keep, a + b) == Filter(keep, a) + Filter(keep, b)
    decreases |a|
  {
    if |a| > 0 {
      assert (a + b)[1..] == a[1..] + b;
      FilterConcat(keep, a[1..], b);
    } else {
      assert a + b == b;
    }
  }

  /** Filtering with a predicate every element meets changes nothing. */
  lemma {:induction false} FilterKeepsAll<T(!new)>(keep: T -> bool, s: seq<T>)
    requires forall x :: x in s ==> keep(x)
    ensures Filter(keep, s) == s
    decreases |s|
  {
    if |s| > 0 {
      FilterKeepsAll(keep, s[1..]);
      assert s == [s[0]] + s[1..];
    }
  }

  /** `f` applied to every element of `s`, position by position. */
  function Map<T, U>(f: T -> U, s: seq<T>): (r: seq<U>)
    ensures |r| == |s|
    ensures forall i :: 0 <= i < |s| ==> r[i] == f(s[i])
    decreases |s|
  {
    if |s| == 0 then [] else [f(s[0])] + Map(f, s[1..])
  }

  /** `f` witnesses that `a` sits inside `b` in order: `a[i] == b[f[i]]` with `f` strictly
      increasing. */
  ghost predicate Embeds<T>(a: seq<T>, b: seq<T>, f: seq<nat>) {
    && |f| == |a|
    && (forall i :: 0 <= i < |f| ==> f[i] < |b| && a[i] == b[f[i]])
    && (forall i, j :: 0 <= i < j < |f| ==> f[i] < f[j])
  }

  /** `a` is `b` with some elements dropped and the rest in their original relative order. */
  ghost predicate IsSubsequence<T>(a: seq<T>, b: seq<T>) {
    exists f :: Embeds(a, b, f)
  }

  /** The positions of `s` whose elements `keep` accepts, in increasing order. */
  ghost function KeptPositions<T>(keep: T -> bool, s: seq<T>): seq<nat>
    decreases |s|
  {
    if |s| == 0 then []
    else
      var rest := KeptPositions(keep, s[1..]);
      var shifted := seq(|rest|, i requires 0 <= i < |rest| => rest[i] + 1);
      if keep(s[0]) then [0] + shifted else shifted
  }

  lemma {:induction false} FilterEmbeds<T(!new)>(keep: T -> bool, s: seq<T>)
    ensures Embeds(Filter(keep, s), s, KeptPositions(keep, s))
    decreases |s|
  {
    if |s| > 0 {
      var tail := s[1..];
      var r' := Filter(keep, tail);
      var rest := KeptPositions(keep, tail);
      FilterEmbeds(keep, tail);
      var shifted := seq(|rest|, i requires 0 <= i < |rest| => rest[i] + 1);
      assert Embeds(r', s, shifted) by {
        forall i | 0 <= i < |shifted|
          ensures shifted[i] < |s| && r'[i] == s[shifted[i]]
        {
          assert r'[i] == tail[rest[i]];
        }
      }
      if keep(s[0]) {
        ShiftedEmbeds(s[0], r', s, shifted);
      }
    }
  }

  /** Putting the first element of `b` in front of an embedding that avoids position 0. */
  lemma ShiftedEmbeds<T>(x: T, a: seq<T>, b: seq<T>, f: seq<nat>)
    requires |b| > 0 && b[0] == x
    requires Embeds(a, b, f)
    requires forall i :: 0 <= i < |f| ==> f[i] > 0
    ensures Embeds([x] + a, b, [0] + f)
  {
  }

  /** Filtering keeps the surviving elements in their original relative order. */
  lemma FilterIsSubsequence<T(!new)>(keep: T -> bool, s: seq<T>)
    ensures IsSubsequence(Filter(keep, s), s)
  {
    FilterEmbeds(keep, s);
  }
}
