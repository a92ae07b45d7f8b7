/**
  Sequence operations the source gets from its runtime library: first-seen
  de-duplication (the `$seen[$t]` / `array_keys` idiom) and the stable sort
  behind PHP 8's usort and JavaScript's Array.prototype.sort.
 */
module Seqs {

  // ---------------------------------------------------------------------
  // De-duplication in first-seen order
  // ---------------------------------------------------------------------

  predicate NoDup<T(==)>(s: seq<T>)
  {
    forall i, j :: 0 <= i < j < |s| ==> s[i] != s[j]
  }

  /** Position of the first occurrence of `x` in `s`. */
  function FirstIndex<T(==)>(s: seq<T>, x: T): (k: nat)
    requires x in s
    ensures k < |s| && s[k] == x && x !in s[..k]
  {
    if s[0] == x then 0 else 1 + FirstIndex(s[1..], x)
  }

  lemma {:induction false} FirstIndexAppend<T>(s: seq<T>, y: T, x: T)
    requires x in s
    ensures x in s + [y] && FirstIndex(s + [y], x) == FirstIndex(s, x)
  {
    if s[0] != x {
      assert (s + [y])[1..] == s[1..] + [y];
      FirstIndexAppend(s[1..], y, x);
    }
  }

  /** Keep the first occurrence of every element, in order (defined by the last element, as a loop builds it). */
  function Dedup<T(==)>(s: seq<T>): (r: seq<T>)
  {
    if s == [] then []
    else
      var d := Dedup(s[..|s| - 1]);
      if s[|s| - 1] in d then d else d + [s[|s| - 1]]
  }

  /**
    Dedup is the duplicate-free sequence of the elements of `s`, ordered by
    first occurrence, and it is no longer than `s`.
   */
  lemma {:induction false} DedupSpec<T>(s: seq<T>)
    ensures NoDup(Dedup(s))
    ensures forall x :: x in Dedup(s) <==> x in s
    ensures forall i, j :: 0 <= i < j < |Dedup(s)| ==> FirstIndex(s, Dedup(s)[i]) < FirstIndex(s, Dedup(s)[j])
    ensures |Dedup(s)| <= |s|
  {
    if s != [] {
      var p := s[..|s| - 1];
      var y := s[|s| - 1];
      assert s == p + [y];
      DedupSpec(p);
      var d := Dedup(p);
      forall x | x in p ensures FirstIndex(s, x) == FirstIndex(p, x) {
        FirstIndexAppend(p, y, x);
      }
      if y !in d {
        assert y !in p;
        assert FirstIndex(s, y) == |p| by {
          assert forall k :: 0 <= k < |p| ==> s[k] != y;
        }
        var r := d + [y];
        forall i, j | 0 <= i < j < |r| ensures FirstIndex(s, r[i]) < FirstIndex(s, r[j]) {
          if j < |d| {
            assert r[i] == d[i] && r[j] == d[j];
          } else {
            assert r[i] == d[i] && d[i] in d;
          }
        }
      }
    }
  }

  /** The non-empty elements, in order. */
  function DropEmpty<T>(xs: seq<seq<T>>): (r: seq<seq<T>>)
    ensures forall i :: 0 <= i < |r| ==> r[i] != []
  {
    if xs == [] then []
    else
      var p := DropEmpty(xs[..|xs| - 1]);
      if xs[|xs| - 1] != [] then p + [xs[|xs| - 1]] else p
  }

  lemma {:induction false} DropEmptyMembers<T>(xs: seq<seq<T>>, t: seq<T>)
    ensures t in DropEmpty(xs) <==> t in xs && t != []
  {
    if xs != [] {
      var p := xs[..|xs| - 1];
      DropEmptyMembers(p, t);
      assert xs == p + [xs[|xs| - 1]];
    }
  }

  // ---------------------------------------------------------------------
  // Concatenation of a sequence of sequences
  // ---------------------------------------------------------------------

  function Flatten<T>(ss: seq<seq<T>>): (r: seq<T>)
  {
    if ss == [] then [] else Flatten(ss[..|ss| - 1]) + ss[|ss| - 1]
  }

  lemma FlattenSnoc<T>(ss: seq<seq<T>>, s: seq<T>)
    ensures Flatten(ss + [s]) == Flatten(ss) + s
  {
    assert (ss + [s])[..|ss|] == ss;
  }

  lemma FlattenStep<T>(ss: seq<seq<T>>, i: nat)
    requires i < |ss|
    ensures Flatten(ss[..i + 1]) == Flatten(ss[..i]) + ss[i]
  {
    assert ss[..i + 1][..i] == ss[..i];
  }

  lemma FlattenWhole<T>(ss: seq<seq<T>>)
    ensures Flatten(ss[..|ss|]) == Flatten(ss)
  {
    assert ss[..|ss|] == ss;
  }

  /** The concatenation of a prefix is a prefix of the concatenation. */
  lemma {:induction false} FlattenPrefix<T>(ss: seq<seq<T>>, k: nat)
    requires k <= |ss|
    ensures |Flatten(ss[..k])| <= |Flatten(ss)| && Flatten(ss)[..|Flatten(ss[..k])|] == Flatten(ss[..k])
    decreases |ss| - k
  {
    if k < |ss| {
      var p := ss[..|ss| - 1];
      assert p[..k] == ss[..k];
      FlattenPrefix(p, k);
    } else {
      assert ss[..k] == ss;
    }
  }

  /** A prefix of a prefix is a prefix of the whole. */
  lemma PrefixTake<T>(a: seq<T>, b: seq<T>, n: nat)
    requires |b| <= |a| && a[..|b|] == b && n <= |b|
    ensures a[..n] == b[..n]
  {
    assert a[..|b|][..n] == a[..n];
  }

  /** Every element of the concatenation comes from one of the pieces. */
  lemma {:induction false} FlattenMember<T>(ss: seq<seq<T>>, k: nat)
    requires k < |Flatten(ss)|
    ensures exists i, j :: 0 <= i < |ss| && 0 <= j < |ss[i]| && Flatten(ss)[k] == ss[i][j]
  {
    var p := ss[..|ss| - 1];
    var last := ss[|ss| - 1];
    if k < |Flatten(p)| {
      FlattenMember(p, k);
      var i, j :| 0 <= i < |p| && 0 <= j < |p[i]| && Flatten(p)[k] == p[i][j];
      assert ss[i] == p[i];
    } else {
      assert Flatten(ss)[k] == last[k - |Flatten(p)|];
    }
  }

  // ---------------------------------------------------------------------
  // Stable insertion sort with a caller-supplied "a may precede b" relation
  // ---------------------------------------------------------------------

  ghost predicate TotalPreorder<T(!new)>(le: (T, T) -> bool)
  {
    && (forall a, b :: le(a, b) || le(b, a))
    && (forall a, b, c :: le(a, b) && le(b, c) ==> le(a, c))
  }

  predicate SortedBy<T>(s: seq<T>, le: (T, T) -> bool)
  {
    forall i, j :: 0 <= i < j < |s| ==> le(s[i], s[j])
  }

  /** Puts `x` in front of the first element it may precede: equal elements keep `x` first. */
  function Insert<T>(x: T, s: seq<T>, le: (T, T) -> bool): (r: seq<T>)
    ensures multiset(r) == multiset(s) + multiset{x}
    ensures |r| == |s| + 1
  {
    if s == [] then [x]
    else if le(x, s[0]) then [x] + s
    else
      assert s == [s[0]] + s[1..];
      [s[0]] + Insert(x, s[1..], le)
  }

  /** Sorting inserts each element into the sorted rest, so earlier elements stay ahead of equal later ones. */
  function Sort<T>(s: seq<T>, le: (T, T) -> bool): (r: seq<T>)
  {
    if s == [] then [] else Insert(s[0], Sort(s[1..], le), le)
  }

  /** A lower bound of `x` and of every element of `s` bounds every element of the insertion. */
  lemma {:induction false} InsertBound<T>(x: T, s: seq<T>, le: (T, T) -> bool, b: T)
    requires le(b, x) && forall i :: 0 <= i < |s| ==> le(b, s[i])
    ensures forall i :: 0 <= i < |Insert(x, s, le)| ==> le(b, Insert(x, s, le)[i])
  {
    if s != [] && !le(x, s[0]) {
      InsertBound(x, s[1..], le, b);
    }
  }

  lemma {:induction false} InsertSorted<T(!new)>(x: T, s: seq<T>, le: (T, T) -> bool)
    requires TotalPreorder(le) && SortedBy(s, le)
    ensures SortedBy(Insert(x, s, le), le)
  {
    if s != [] && !le(x, s[0]) {
      InsertSorted(x, s[1..], le);
      assert le(s[0], x);
      InsertBound(x, s[1..], le, s[0]);
    }
  }

  /** The sort returns a permutation of its input. */
  lemma {:induction false} SortPerm<T>(s: seq<T>, le: (T, T) -> bool)
    ensures multiset(Sort(s, le)) == multiset(s)
    ensures |Sort(s, le)| == |s|
  {
    if s != [] {
      SortPerm(s[1..], le);
      assert s == [s[0]] + s[1..];
    }
  }

  /** The sort returns an ordered permutation of its input. */
  lemma {:induction false} SortSpec<T(!new)>(s: seq<T>, le: (T, T) -> bool)
    requires TotalPreorder(le)
    ensures SortedBy(Sort(s, le), le)
    ensures multiset(Sort(s, le)) == multiset(s)
    ensures |Sort(s, le)| == |s|
  {
    SortPerm(s, le);
    if s != [] {
      SortSpec(s[1..], le);
      InsertSorted(s[0], Sort(s[1..], le), le);
    }
  }
}
