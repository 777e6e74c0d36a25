/**
 * Database tables modelled as sequences of rows, and the few queryset
 * operations the application uses on them: `.filter(...)`, `.delete()` of
 * the rows equal to a given one, `.exists()` and `.count()`.
 */
module Tables {

  /** The rows of `s` that satisfy `p`, in their original order. */
  function Filter<T(==,!new)>(s: seq<T>, p: T -> bool): (r: seq<T>)
    ensures |r| <= |s|
    ensures forall x :: x in r <==> x in s && p(x)
  {
    if s == [] then [] else (if p(s[0]) then [s[0]] else []) + Filter(s[1..], p)
  }

  /** `a` is obtained from `b` by dropping elements: same elements, same relative order. */
  predicate SubseqOf<T(==,!new)>(a: seq<T>, b: seq<T>)
    decreases |b|
  {
    if a == [] then true
    else if b == [] then false
    else if a[0] == b[0] then SubseqOf(a[1..], b[1..])
    else SubseqOf(a, b[1..])
  }

  /** Every element of a subsequence is an element of the whole sequence. */
  lemma {:induction false} SubseqElements<T(!new)>(a: seq<T>, b: seq<T>)
    requires SubseqOf(a, b)
    ensures forall x :: x in a ==> x in b
    decreases |b|
  {
    if a != [] {
      if a[0] == b[0] {
        SubseqElements(a[1..], b[1..]);
        forall x | x in a ensures x in b {
          if x != a[0] { assert x in a[1..]; }
        }
      } else {
        SubseqElements(a, b[1..]);
      }
    }
  }

  lemma {:induction false} SubseqRefl<T(!new)>(s: seq<T>)
    ensures SubseqOf(s, s)
  {
    if s != [] {
      SubseqRefl(s[1..]);
    }
  }

  /** Dropping the first element of a subsequence leaves a subsequence. */
  lemma {:induction false} SubseqTail<T(!new)>(a: seq<T>, s: seq<T>)
    requires a != [] && SubseqOf(a, s)
    ensures SubseqOf(a[1..], s)
    decreases |s|, 1
  {
    if a[0] == s[0] {
      SubseqCons(a[1..], s);
    } else {
      SubseqTail(a, s[1..]);
      SubseqCons(a[1..], s);
    }
  }

  /** A subsequence of the tail is a subsequence of the whole. */
  lemma {:induction false} SubseqCons<T(!new)>(a: seq<T>, s: seq<T>)
    requires s != [] && SubseqOf(a, s[1..])
    ensures SubseqOf(a, s)
    decreases |s|, 0
  {
    if a != [] && a[0] == s[0] {
      SubseqTail(a, s[1..]);
    }
  }

  lemma {:induction false} SubseqTrans<T(!new)>(a: seq<T>, b: seq<T>, c: seq<T>)
    requires SubseqOf(a, b) && SubseqOf(b, c)
    ensures SubseqOf(a, c)
    decreases |c|
  {
    if a != [] {
      if b[0] == c[0] {
        if a[0] == b[0] {
          SubseqTrans(a[1..], b[1..], c[1..]);
        } else {
          SubseqTrans(a, b[1..], c[1..]);
        }
      } else {
        SubseqTrans(a, b, c[1..]);
        SubseqCons(a, c);
      }
    }
  }

  /** Filtering never reorders: the kept rows are a subsequence of the table. */
  lemma {:induction false} FilterIsSubseq<T(!new)>(s: seq<T>, p: T -> bool)
    ensures SubseqOf(Filter(s, p), s)
  {
    if s != [] {
      FilterIsSubseq(s[1..], p);
      var r := Filter(s, p);
      if !p(s[0]) {
        assert r == Filter(s[1..], p);
        if r != [] {
          assert r[0] in r;
          assert r[0] != s[0];
        }
      }
    }
  }

  lemma {:induction false} FilterAppend<T(!new)>(a: seq<T>, b: seq<T>, p: T -> bool)
    ensures Filter(a + b, p) == Filter(a, p) + Filter(b, p)
  {
    if a == [] {
      assert a + b == b;
    } else {
      assert (a + b)[1..] == a[1..] + b;
      FilterAppend(a[1..], b, p);
    }
  }

  lemma {:induction false} FilterAll<T(!new)>(s: seq<T>, p: T -> bool)
    requires forall x :: x in s ==> p(x)
    ensures Filter(s, p) == s
  {
    if s != [] {
      FilterAll(s[1..], p);
    }
  }

  lemma {:induction false} FilterNone<T(!new)>(s: seq<T>, p: T -> bool)
    requires forall x :: x in s ==> !p(x)
    ensures Filter(s, p) == []
  {
    if s != [] {
      FilterNone(s[1..], p);
    }
  }

  /** Filtering twice by the same condition keeps the same rows as filtering once. */
  lemma FilterIdempotent<T(!new)>(s: seq<T>, p: T -> bool)
    ensures Filter(Filter(s, p), p) == Filter(s, p)
  {
    FilterAll(Filter(s, p), p);
  }

  /** `.filter(...).delete()` on the rows equal to `x`: every other row stays, in order. */
  function Except<T(==,!new)>(s: seq<T>, x: T): (r: seq<T>)
    ensures x !in r
    ensures forall y :: y in r <==> y in s && y != x
  {
    Filter(s, y => y != x)
  }

  /** Deleting a row that is not there changes nothing. */
  lemma ExceptAbsent<T(!new)>(s: seq<T>, x: T)
    requires x !in s
    ensures Except(s, x) == s
  {
    FilterAll(s, y => y != x);
  }

  /** The number of rows equal to `x` (what `.delete()` reports as deleted). */
  function Count<T(==,!new)>(s: seq<T>, x: T): (n: nat)
    ensures n <= |s|
    ensures n == 0 <==> x !in s
  {
    if s == [] then 0 else (if s[0] == x then 1 else 0) + Count(s[1..], x)
  }

  /** Deleting the rows equal to `x` removes exactly `Count(s, x)` rows. */
  lemma {:induction false} ExceptCount<T(!new)>(s: seq<T>, x: T)
    ensures |Except(s, x)| + Count(s, x) == |s|
  {
    if s != [] {
      ExceptCount(s[1..], x);
      assert Except(s, x) == (if s[0] != x then [s[0]] else []) + Except(s[1..], x);
    }
  }

  predicate NoDuplicates<T(==,!new)>(s: seq<T>) {
    forall i, j :: 0 <= i < j < |s| ==> s[i] != s[j]
  }

  /** In a table without duplicate rows, a row occurs at most once. */
  lemma {:induction false} CountNoDuplicates<T(!new)>(s: seq<T>, x: T)
    requires NoDuplicates(s)
    ensures Count(s, x) == if x in s then 1 else 0
  {
    if s != [] {
      assert NoDuplicates(s[1..]) by {
        forall i, j | 0 <= i < j < |s[1..]| ensures s[1..][i] != s[1..][j] {
          assert s[1..][i] == s[i + 1] && s[1..][j] == s[j + 1];
        }
      }
      CountNoDuplicates(s[1..], x);
      if s[0] == x {
        assert x !in s[1..] by {
          forall k | 0 <= k < |s[1..]| ensures s[1..][k] != x {
            assert s[1..][k] == s[k + 1];
          }
        }
      }
    }
  }

  lemma ExceptKeepsNoDuplicates<T(!new)>(s: seq<T>, x: T)
    requires NoDuplicates(s)
    ensures NoDuplicates(Except(s, x))
  {
    FilterKeepsNoDuplicates(s, y => y != x);
  }

  lemma {:induction false} FilterKeepsNoDuplicates<T(!new)>(s: seq<T>, p: T -> bool)
    requires NoDuplicates(s)
    ensures NoDuplicates(Filter(s, p))
  {
    if s != [] {
      assert NoDuplicates(s[1..]) by {
        forall i, j | 0 <= i < j < |s[1..]| ensures s[1..][i] != s[1..][j] {
          assert s[1..][i] == s[i + 1] && s[1..][j] == s[j + 1];
        }
      }
      FilterKeepsNoDuplicates(s[1..], p);
      var rest := Filter(s[1..], p);
      if p(s[0]) {
        assert s[0] !in s[1..] by {
          forall k | 0 <= k < |s[1..]| ensures s[1..][k] != s[0] {
            assert s[1..][k] == s[k + 1];
          }
        }
        assert s[0] !in rest;
        var r := [s[0]] + rest;
        forall i, j | 0 <= i < j < |r| ensures r[i] != r[j] {
          if i == 0 {
            assert r[j] == rest[j - 1];
            assert r[j] in rest;
          } else {
            assert r[i] == rest[i - 1] && r[j] == rest[j - 1];
          }
        }
      }
    }
  }

  /** The elements of a sequence as a set (Python's `set(list)`). */
  function ToSet<T(==,!new)>(s: seq<T>): (r: set<T>)
    ensures forall x :: x in r <==> x in s
  {
    set x | x in s
  }

  lemma {:induction false} ToSetBound<T(!new)>(s: seq<T>)
    ensures |ToSet(s)| <= |s|
  {
    if s != [] {
      var init := s[..|s| - 1];
      assert s == init + [s[|s| - 1]];
      assert ToSet(s) == ToSet(init) + {s[|s| - 1]};
      ToSetBound(init);
    }
  }

  /**
   * `len(l) == len(set(l))`, the test the source uses for duplicates, holds
   * exactly when no two positions of the list hold equal elements.
   */
  lemma {:induction false} NoDuplicatesIffSetSize<T(!new)>(s: seq<T>)
    ensures NoDuplicates(s) <==> |ToSet(s)| == |s|
  {
    if s != [] {
      var init, last := s[..|s| - 1], s[|s| - 1];
      assert s == init + [last];
      assert ToSet(s) == ToSet(init) + {last};
      NoDuplicatesIffSetSize(init);
      ToSetBound(init);
      if NoDuplicates(s) {
        assert NoDuplicates(init) by {
          forall i, j | 0 <= i < j < |init| ensures init[i] != init[j] {
            assert init[i] == s[i] && init[j] == s[j];
          }
        }
        assert last !in init by {
          forall k | 0 <= k < |init| ensures init[k] != last {
            assert init[k] == s[k];
          }
        }
        assert last !in ToSet(init);
      }
      if |ToSet(s)| == |s| {
        assert last !in ToSet(init);
        assert |ToSet(init)| == |init|;
        forall i, j | 0 <= i < j < |s| ensures s[i] != s[j] {
          if j == |s| - 1 {
            assert s[i] == init[i];
            assert s[i] in init;
          } else {
            assert s[i] == init[i] && s[j] == init[j];
          }
        }
      }
    }
  }
}
