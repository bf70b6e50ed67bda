/** Sequence utilities shared by the background and popup models: prefix and
    substring tests on strings, order-preserving filtering, subsequences and
    uniqueness of a projection. */
module Seqs {

  /** `s.startsWith(prefix)`. */
  predicate StartsWith(s: string, prefix: string) {
    |prefix| <= |s| && s[..|prefix|] == prefix
  }

  /** `s.includes(q)`: q occurs somewhere in s, tried at every offset from the left. */
  predicate Includes(s: string, q: string)
    decreases |s|
  {
    StartsWith(s, q) || (|s| > 0 && Includes(s[1..], q))
  }

  /** q occurs in s starting at offset i. */
  ghost predicate OccursAt(s: string, q: string, i: int) {
    0 <= i && i + |q| <= |s| && s[i..i + |q|] == q
  }

  /** Includes agrees with the textbook definition of a substring occurrence. */
  lemma {:induction false} IncludesIff(s: string, q: string)
    ensures Includes(s, q) <==> exists i :: OccursAt(s, q, i)
    decreases |s|
  {
    if StartsWith(s, q) {
      assert OccursAt(s, q, 0);
    } else if |s| == 0 {
    } else {
      IncludesIff(s[1..], q);
      if Includes(s[1..], q) {
        var i :| OccursAt(s[1..], q, i);
        assert s[i + 1..i + 1 + |q|] == s[1..][i..i + |q|];
        assert OccursAt(s, q, i + 1);
      }
      if exists i :: OccursAt(s, q, i) {
        var i :| OccursAt(s, q, i);
        assert i != 0;
        assert s[1..][i - 1..i - 1 + |q|] == s[i..i + |q|];
        assert OccursAt(s[1..], q, i - 1);
      }
    }
  }

  lemma ConcatAssoc3<T>(a: seq<T>, b: seq<T>, c: seq<T>)
    ensures a + (b + c) == a + b + c
  {
  }

  lemma ConcatAssoc<T>(a: seq<T>, b: seq<T>, c: seq<T>, d: seq<T>)
    ensures a + (b + c + d) == a + b + c + d
  {
  }

  /** A query whose first character does not occur in s is not contained in s. */
  lemma {:induction false} IncludesNeedsFirst(s: string, q: string)
    requires |q| > 0 && q[0] !in s
    ensures !Includes(s, q)
    decreases |s|
  {
    if |s| > 0 {
      assert s[0] != q[0];
      IncludesNeedsFirst(s[1..], q);
    }
  }

  /** The empty query is contained in every string. */
  lemma IncludesEmpty(s: string)
    ensures Includes(s, "")
  {
    assert StartsWith(s, "");
  }

  /** `s.filter(p)`: the elements satisfying p, in their original order. */
  function Filter<T>(s: seq<T>, p: T -> bool): (r: seq<T>)
    ensures |r| <= |s|
    decreases |s|
  {
    if |s| == 0 then []
    else (if p(s[0]) then [s[0]] else []) + Filter(s[1..], p)
  }

  /** The filter keeps exactly the elements of s that pass p. */
  lemma {:induction false} FilterMembers<T>(s: seq<T>, p: T -> bool)
    ensures forall x :: x in Filter(s, p) <==> x in s && p(x)
    decreases |s|
  {
    if |s| > 0 {
      FilterMembers(s[1..], p);
      assert s == [s[0]] + s[1..];
    }
  }

  lemma {:induction false} FilterAppend<T>(a: seq<T>, b: seq<T>, p: T -> bool)
    ensures Filter(a + b, p) == Filter(a, p) + Filter(b, p)
    decreases |a|
  {
    if |a| > 0 {
      assert (a + b)[1..] == a[1..] + b;
      FilterAppend(a[1..], b, p);
    } else {
      assert a + b == b;
    }
  }

  /** A filter that every element passes keeps the whole sequence. */
  lemma {:induction false} FilterKeepsAll<T>(s: seq<T>, p: T -> bool)
    requires forall i | 0 <= i < |s| :: p(s[i])
    ensures Filter(s, p) == s
    decreases |s|
  {
    if |s| > 0 {
      FilterKeepsAll(s[1..], p);
    }
  }

  /** A filter that no element passes keeps nothing. */
  lemma {:induction false} FilterNone<T>(s: seq<T>, p: T -> bool)
    requires forall i | 0 <= i < |s| :: !p(s[i])
    ensures Filter(s, p) == []
    decreases |s|
  {
    if |s| > 0 {
      FilterNone(s[1..], p);
    }
  }

  /** Every element passing p keeps all its occurrences, every other element has none. */
  lemma {:induction false} FilterCount<T>(s: seq<T>, p: T -> bool)
    ensures forall x :: multiset(Filter(s, p))[x] == if p(x) then multiset(s)[x] else 0
    decreases |s|
  {
    if |s| > 0 {
      FilterCount(s[1..], p);
      assert s == [s[0]] + s[1..];
    }
  }

  /** a can be obtained from b by deleting elements (greedy left-to-right matching). */
  ghost predicate IsSubsequence<T>(a: seq<T>, b: seq<T>)
    decreases |b|
  {
    if |a| == 0 then true
    else if |b| == 0 then false
    else if a[0] == b[0] then IsSubsequence(a[1..], b[1..])
    else IsSubsequence(a, b[1..])
  }

  lemma {:induction false} FilterIsSubsequence<T>(s: seq<T>, p: T -> bool)
    ensures IsSubsequence(Filter(s, p), s)
    decreases |s|
  {
    if |s| > 0 {
      FilterIsSubsequence(s[1..], p);
      var rest := Filter(s[1..], p);
      if p(s[0]) {
        assert Filter(s, p) == [s[0]] + rest;
        assert ([s[0]] + rest)[1..] == rest;
      } else {
        assert Filter(s, p) == rest;
        SubsequenceOfTail(rest, s);
      }
    }
  }

  /** A subsequence of the tail is a subsequence of the whole. */
  lemma {:induction false} SubsequenceOfTail<T>(a: seq<T>, s: seq<T>)
    requires |s| > 0 && IsSubsequence(a, s[1..])
    ensures IsSubsequence(a, s)
    decreases |s|, 1
  {
    if |a| > 0 && a[0] == s[0] {
      SubsequenceDropHead(a, s[1..]);
    }
  }

  /** Dropping the first element of a subsequence leaves a subsequence. */
  lemma {:induction false} SubsequenceDropHead<T>(a: seq<T>, b: seq<T>)
    requires |a| > 0 && IsSubsequence(a, b)
    ensures IsSubsequence(a[1..], b)
    decreases |b|, 2
  {
    if a[0] != b[0] {
      SubsequenceDropHead(a, b[1..]);
    }
    if |a[1..]| > 0 {
      SubsequenceOfTail(a[1..], b);
    }
  }

  /** `s.findIndex(x => key(x) === k)`: the first position whose key is k, or -1. */
  function FirstIndex<T, K(==)>(s: seq<T>, key: T -> K, k: K): (i: int)
    ensures -1 <= i < |s|
    ensures 0 <= i ==> key(s[i]) == k && forall j | 0 <= j < i :: key(s[j]) != k
    ensures i == -1 ==> forall j | 0 <= j < |s| :: key(s[j]) != k
    decreases |s|
  {
    if |s| == 0 then -1
    else if key(s[0]) == k then 0
    else
      var i := FirstIndex(s[1..], key, k);
      if i < 0 then -1 else i + 1
  }

  /** No two positions of s carry the same value of f. */
  ghost predicate UniqueBy<T, U>(s: seq<T>, f: T -> U) {
    forall i, j | 0 <= i < j < |s| :: f(s[i]) != f(s[j])
  }

  /** A value occurring at two different positions occurs at least twice. */
  lemma TwoPositionsCount<T>(s: seq<T>, i: nat, j: nat)
    requires i < j < |s| && s[i] == s[j]
    ensures multiset(s)[s[i]] >= 2
  {
    assert s == s[..i] + [s[i]] + s[i + 1..];
    assert s[j] in s[i + 1..];
  }

  /** A value that occurs once in s occurs at no other position. */
  lemma SoleOccurrence<T>(s: seq<T>, i: nat)
    requires i < |s| && multiset(s)[s[i]] == 1
    ensures forall j | 0 <= j < |s| && j != i :: s[j] != s[i]
  {
    var x, before, after := s[i], s[..i], s[i + 1..];
    assert s == before + [x] + after;
    assert multiset(s) == multiset(before) + multiset{x} + multiset(after);
    assert x !in before && x !in after;
    forall j | 0 <= j < |s| && j != i
      ensures s[j] != x
    {
      if j < i {
        assert s[j] == before[j];
      } else {
        assert s[j] == after[j - i - 1];
      }
    }
  }

  /** A value occurring at least twice occurs at two different positions. */
  lemma CountTwoPositions<T>(s: seq<T>, x: T) returns (i: nat, j: nat)
    requires multiset(s)[x] >= 2
    ensures i < j < |s| && s[i] == x && s[j] == x
  {
    assert x in s;
    i :| i < |s| && s[i] == x;
    assert s == s[..i] + [s[i]] + s[i + 1..];
    var rest := s[..i] + s[i + 1..];
    assert multiset(s) == multiset(rest) + multiset{x};
    assert x in rest;
    var k :| 0 <= k < |rest| && rest[k] == x;
    if k < i {
      i, j := k, i;
      assert s[i] == rest[k];
    } else {
      j := k + 1;
      assert s[j] == rest[k];
    }
  }

  /** Two different positions of t come from two different positions of s, when t
      is a reordering of s. */
  lemma DistinctSources<T>(s: seq<T>, t: seq<T>, i: nat, j: nat) returns (p: nat, q: nat)
    requires multiset(s) == multiset(t)
    requires i < j < |t|
    ensures p < |s| && q < |s| && p != q
    ensures s[p] == t[i] && s[q] == t[j]
  {
    if t[i] == t[j] {
      TwoPositionsCount(t, i, j);
      p, q := CountTwoPositions(s, t[i]);
    } else {
      assert t[i] in multiset(s) && t[j] in multiset(s);
      p :| p < |s| && s[p] == t[i];
      q :| q < |s| && s[q] == t[j];
    }
  }

  /** Reordering a sequence keeps the values of a projection pairwise distinct. */
  lemma PermutationKeepsUnique<T, U>(s: seq<T>, t: seq<T>, f: T -> U)
    requires multiset(s) == multiset(t)
    requires UniqueBy(s, f)
    ensures UniqueBy(t, f)
  {
    forall i, j | 0 <= i < j < |t|
      ensures f(t[i]) != f(t[j])
    {
      var p, q := DistinctSources(s, t, i, j);
      if p < q {
        assert f(s[p]) != f(s[q]);
      } else {
        assert f(s[q]) != f(s[p]);
      }
    }
  }
}
