/** Stable sorting in non-increasing order of an integer key, the behaviour of
    `list.sort((a, b) => key(b) - key(a))` on a JavaScript array (the language
    requires Array.prototype.sort to be stable). The specification is insertion
    from the back; the array method sorts in place and is proved to agree. */
module Sorting {

  ghost predicate SortedDesc<T>(s: seq<T>, key: T -> int) {
    forall i, j | 0 <= i < j < |s| :: key(s[i]) >= key(s[j])
  }

  lemma SortedPrefix<T>(s: seq<T>, n: nat, key: T -> int)
    requires n <= |s| && SortedDesc(s, key)
    ensures SortedDesc(s[..n], key)
  {
    assert forall i | 0 <= i < n :: s[..n][i] == s[i];
  }

  /** In a sorted sequence nothing after position n has a larger key than
      anything before it. */
  lemma SortedSplit<T>(t: seq<T>, n: nat, key: T -> int)
    requires n <= |t| && SortedDesc(t, key)
    ensures forall e, k | e in t[n..] && k in t[..n] :: key(e) <= key(k)
  {
    forall e, k | e in t[n..] && k in t[..n]
      ensures key(e) <= key(k)
    {
      var p :| 0 <= p < |t[n..]| && t[n..][p] == e;
      var q :| 0 <= q < n && t[..n][q] == k;
      assert t[q] == k && t[n + p] == e;
    }
  }

  /** What truncation drops from a sequence, as a multiset. */
  lemma DroppedBySplit<T>(s: seq<T>, t: seq<T>, n: nat)
    requires n <= |t| && multiset(s) == multiset(t)
    ensures multiset(s) - multiset(t[..n]) == multiset(t[n..])
    ensures multiset(t[..n]) <= multiset(s)
  {
    assert t == t[..n] + t[n..];
  }

  /** An element whose key beats every other comes first. */
  lemma SortDescStrictMaxFirst<T>(s: seq<T>, p: nat, key: T -> int)
    requires p < |s|
    requires forall q | 0 <= q < |s| && q != p :: key(s[q]) < key(s[p])
    ensures SortDesc(s, key)[0] == s[p]
  {
    var t := SortDesc(s, key);
    SortDescCorrect(s, key);
    assert s[p] in multiset(t);
    var j :| 0 <= j < |t| && t[j] == s[p];
    assert t[0] in multiset(s);
    var q :| 0 <= q < |s| && s[q] == t[0];
    assert key(t[0]) >= key(t[j]);
  }

  /** The elements of s whose key is k, in order. */
  function WithKey<T>(s: seq<T>, key: T -> int, k: int): seq<T>
    decreases |s|
  {
    if |s| == 0 then []
    else WithKey(s[..|s| - 1], key, k) + (if key(s[|s| - 1]) == k then [s[|s| - 1]] else [])
  }

  lemma {:induction false} WithKeyAppend<T>(a: seq<T>, b: seq<T>, key: T -> int, k: int)
    ensures WithKey(a + b, key, k) == WithKey(a, key, k) + WithKey(b, key, k)
    decreases |b|
  {
    if |b| == 0 {
      assert a + b == a;
    } else {
      assert (a + b)[..|a + b| - 1] == a + b[..|b| - 1];
      WithKeyAppend(a, b[..|b| - 1], key, k);
    }
  }

  /** Insert x into s after every element whose key is at least key(x). */
  function InsertDesc<T>(s: seq<T>, x: T, key: T -> int): (r: seq<T>)
    ensures |r| == |s| + 1
    decreases |s|
  {
    if |s| == 0 || key(s[|s| - 1]) >= key(x) then s + [x]
    else InsertDesc(s[..|s| - 1], x, key) + [s[|s| - 1]]
  }

  /** Insertion adds exactly x. */
  lemma {:induction false} InsertDescPermutes<T>(s: seq<T>, x: T, key: T -> int)
    ensures multiset(InsertDesc(s, x, key)) == multiset(s) + multiset{x}
    decreases |s|
  {
    if |s| > 0 && key(s[|s| - 1]) < key(x) {
      assert s == s[..|s| - 1] + [s[|s| - 1]];
      InsertDescPermutes(s[..|s| - 1], x, key);
    }
  }

  /** Inserting into a sorted sequence keeps it sorted. */
  lemma {:induction false} InsertDescSorted<T>(s: seq<T>, x: T, key: T -> int)
    requires SortedDesc(s, key)
    ensures SortedDesc(InsertDesc(s, x, key), key)
    decreases |s|
  {
    if |s| > 0 && key(s[|s| - 1]) < key(x) {
      var front, last := s[..|s| - 1], s[|s| - 1];
      InsertDescSorted(front, x, key);
      InsertDescPermutes(front, x, key);
      var r' := InsertDesc(front, x, key);
      forall i | 0 <= i < |r'|
        ensures key(r'[i]) >= key(last)
      {
        assert r'[i] in multiset(front) + multiset{x};
        if r'[i] != x {
          var m :| 0 <= m < |front| && front[m] == r'[i];
          assert s[m] == front[m];
        }
      }
    }
  }

  /** Stable sort, non-increasing by key. */
  function SortDesc<T>(s: seq<T>, key: T -> int): (r: seq<T>)
    ensures |r| == |s|
    decreases |s|
  {
    if |s| == 0 then []
    else InsertDesc(SortDesc(s[..|s| - 1], key), s[|s| - 1], key)
  }

  /** The sort is a permutation of its input and is ordered by non-increasing key. */
  lemma {:induction false} SortDescCorrect<T>(s: seq<T>, key: T -> int)
    ensures multiset(SortDesc(s, key)) == multiset(s)
    ensures SortedDesc(SortDesc(s, key), key)
    decreases |s|
  {
    if |s| > 0 {
      var front := s[..|s| - 1];
      assert s == front + [s[|s| - 1]];
      SortDescCorrect(front, key);
      InsertDescPermutes(SortDesc(front, key), s[|s| - 1], key);
      InsertDescSorted(SortDesc(front, key), s[|s| - 1], key);
    }
  }

  lemma WithKeySingle<T>(x: T, key: T -> int, k: int)
    ensures WithKey([x], key, k) == if key(x) == k then [x] else []
  {
    assert [x][..0] == [];
  }

  /** Inserting x disturbs no key class other than x's, and puts x last in its own. */
  lemma {:induction false} InsertDescStable<T>(s: seq<T>, x: T, key: T -> int, k: int)
    ensures WithKey(InsertDesc(s, x, key), key, k)
         == WithKey(s, key, k) + (if key(x) == k then [x] else [])
    decreases |s|
  {
    if |s| == 0 || key(s[|s| - 1]) >= key(x) {
      WithKeyAppend(s, [x], key, k);
      WithKeySingle(x, key, k);
    } else {
      var front, last := s[..|s| - 1], s[|s| - 1];
      InsertDescStable(front, x, key, k);
      WithKeyAppend(InsertDesc(front, x, key), [last], key, k);
      WithKeySingle(last, key, k);
      WithKeySingle(x, key, k);
      WithKeyAppend(front, [last], key, k);
      assert s == front + [last];
    }
  }

  /** Stability: elements with equal keys keep their relative order. */
  lemma {:induction false} SortDescStable<T>(s: seq<T>, key: T -> int, k: int)
    ensures WithKey(SortDesc(s, key), key, k) == WithKey(s, key, k)
    decreases |s|
  {
    if |s| > 0 {
      var front, last := s[..|s| - 1], s[|s| - 1];
      SortDescStable(front, key, k);
      InsertDescStable(SortDesc(front, key), last, key, k);
    }
  }

  /** Where the backward scan stops: x goes right after the last element whose
      key is at least key(x). */
  lemma {:induction false} InsertDescAt<T>(s: seq<T>, j: nat, x: T, key: T -> int)
    requires j <= |s|
    requires j == 0 || key(s[j - 1]) >= key(x)
    requires forall m | j <= m < |s| :: key(s[m]) < key(x)
    ensures InsertDesc(s, x, key) == s[..j] + [x] + s[j..]
    decreases |s|
  {
    if |s| == j {
      assert s[..j] == s;
    } else {
      var front, last := s[..|s| - 1], s[|s| - 1];
      assert key(last) < key(x);
      assert InsertDesc(s, x, key) == InsertDesc(front, x, key) + [last];
      InsertDescAt(front, j, x, key);
      assert front[..j] == s[..j];
      assert front[j..] + [last] == s[j..];
    }
  }

  /** Move a[i] down into the sorted prefix a[..i]. */
  method InsertIntoPrefix<T>(a: array<T>, i: nat, key: T -> int)
    requires i < a.Length
    modifies a
    ensures a[..i + 1] == InsertDesc(old(a[..i]), old(a[i]), key)
    ensures a[i + 1..] == old(a[i + 1..])
  {
    ghost var prefix := a[..i];
    var x := a[i];
    var j := i;
    while j > 0 && key(a[j - 1]) < key(x)
      invariant 0 <= j <= i
      invariant forall m | 0 <= m < j :: a[m] == prefix[m]
      invariant forall m | j < m <= i :: a[m] == prefix[m - 1]
      invariant forall m | i < m < a.Length :: a[m] == old(a[m])
      invariant forall m | j <= m < i :: key(prefix[m]) < key(x)
    {
      a[j] := a[j - 1];
      j := j - 1;
    }
    a[j] := x;
    InsertDescAt(prefix, j, x, key);
    assert a[..i + 1] == prefix[..j] + [x] + prefix[j..];
  }

  /** Sorting one more element of s inserts it into the sorted prefix. */
  lemma SortDescExtend<T>(s: seq<T>, i: nat, key: T -> int)
    requires i < |s|
    ensures SortDesc(s[..i + 1], key) == InsertDesc(SortDesc(s[..i], key), s[i], key)
  {
    assert s[..i + 1][..i] == s[..i];
  }

  /** Sort a[..] in place: stable, non-increasing by key. */
  method SortInPlace<T>(a: array<T>, key: T -> int)
    modifies a
    ensures a[..] == SortDesc(old(a[..]), key)
  {
    ghost var orig := a[..];
    var i := 0;
    while i < a.Length
      invariant 0 <= i <= a.Length
      invariant a[..i] == SortDesc(orig[..i], key)
      invariant a[i..] == orig[i..]
    {
      ghost var before := a[..];
      assert before[i] == orig[i] by {
        assert before[i] == a[i..][0];
      }
      assert before[i + 1..] == orig[i + 1..] by {
        assert before[i + 1..] == a[i..][1..];
      }
      InsertIntoPrefix(a, i, key);
      SortDescExtend(orig, i, key);
      i := i + 1;
    }
    assert a[..] == a[..a.Length];
    assert orig == orig[..a.Length];
  }

  /** Sort a list the way the scripts do: in an array, in place. */
  method SortSeq<T>(s: seq<T>, key: T -> int) returns (r: seq<T>)
    ensures r == SortDesc(s, key)
  {
    var a := new T[|s|](j requires 0 <= j < |s| => s[j]);
    assert a[..] == s;
    SortInPlace(a, key);
    r := a[..];
  }
}
