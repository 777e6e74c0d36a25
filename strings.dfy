/**
 * The handful of Python string operations the application relies on:
 * `str.split`, `str.join`, `str.isdigit`, `int(...)` on a digit string and
 * the decimal rendering of an integer. Characters are compared as code
 * points; `isdigit` is restricted to the ASCII digits.
 */
module Strings {

  /** `sep.join(parts)`. */
  function Join(parts: seq<string>, sep: string): string
  {
    if |parts| == 0 then ""
    else if |parts| == 1 then parts[0]
    else parts[0] + sep + Join(parts[1..], sep)
  }

  /** `sep` occurs in `s` starting at position `i`. */
  predicate OccursAt(s: string, sep: string, i: nat) {
    i + |sep| <= |s| && s[i..i + |sep|] == sep
  }

  /** An occurrence of `sep` in `s` matches it character by character. */
  lemma OccursAtChar(s: string, sep: string, i: nat, k: int)
    ensures OccursAt(s, sep, i) && 0 <= k < |sep| ==> s[i + k] == sep[k]
  {
    if OccursAt(s, sep, i) && 0 <= k < |sep| {
      assert s[i..i + |sep|][k] == s[i + k];
    }
  }

  /** The separator occurs right where it is put. */
  lemma OccursAfter(a: string, sep: string, rest: string)
    ensures OccursAt(a + sep + rest, sep, |a|)
  {
    assert (a + sep + rest)[|a|..|a| + |sep|] == sep;
  }

  /** An occurrence that lies inside the front part is an occurrence in it. */
  lemma OccursInFront(a: string, b: string, sep: string, i: nat)
    ensures OccursAt(a + b, sep, i) && i + |sep| <= |a| ==> OccursAt(a, sep, i)
  {
    if OccursAt(a + b, sep, i) && i + |sep| <= |a| {
      assert (a + b)[i..i + |sep|] == a[i..i + |sep|];
    }
  }

  /** An occurrence that lies inside the back part is an occurrence in it. */
  lemma OccursInBack(a: string, b: string, sep: string, i: nat)
    ensures OccursAt(a + b, sep, i) && |a| <= i ==> OccursAt(b, sep, i - |a|)
  {
    if OccursAt(a + b, sep, i) && |a| <= i {
      assert (a + b)[i..i + |sep|] == b[i - |a|..i - |a| + |sep|];
    }
  }

  /** `sep in s`: the separator occurs somewhere in `s`. */
  predicate Contains(s: string, sep: string) {
    exists i: nat | i <= |s| :: OccursAt(s, sep, i)
  }

  /**
   * `s.split(sep)` for a non-empty separator: the string is scanned from the
   * left and cut at every non-overlapping occurrence of `sep`.
   */
  function Split(s: string, sep: string): (parts: seq<string>)
    requires sep != ""
    ensures |parts| >= 1
    decreases |s|
  {
    if |s| < |sep| then [s]
    else if s[..|sep|] == sep then [""] + Split(s[|sep|..], sep)
    else
      var rest := Split(s[1..], sep);
      [[s[0]] + rest[0]] + rest[1..]
  }

  function Last<T>(s: seq<T>): T
    requires |s| > 0
  {
    s[|s| - 1]
  }

  lemma JoinPrepend(c: char, p: string, ps: seq<string>, sep: string)
    ensures Join([[c] + p] + ps, sep) == [c] + Join([p] + ps, sep)
  {
    if ps != [] {
      assert ([[c] + p] + ps)[1..] == ps;
      assert ([p] + ps)[1..] == ps;
    }
  }

  lemma JoinHead(parts: seq<string>, sep: string)
    requires |parts| >= 1
    ensures parts[0] <= Join(parts, sep)
  {
  }

  /** Splitting and joining back with the same separator gives the original string. */
  lemma {:induction false} JoinSplit(s: string, sep: string)
    requires sep != ""
    ensures Join(Split(s, sep), sep) == s
    decreases |s|
  {
    if |s| < |sep| {
    } else if s[..|sep|] == sep {
      var rest := Split(s[|sep|..], sep);
      JoinSplit(s[|sep|..], sep);
      assert Split(s, sep)[1..] == rest;
      assert s == s[..|sep|] + s[|sep|..];
    } else {
      var rest := Split(s[1..], sep);
      JoinSplit(s[1..], sep);
      JoinPrepend(s[0], rest[0], rest[1..], sep);
      assert [rest[0]] + rest[1..] == rest;
      assert s == [s[0]] + s[1..];
    }
  }

  /**
   * When the first occurrence of `sep` comes right after `h`, the split's
   * first piece is `h` and the rest is the split of what follows the separator.
   */
  lemma {:induction false} SplitAtFirstSep(h: string, sep: string, t: string)
    requires sep != ""
    requires forall i :: 0 <= i < |h| ==> !OccursAt(h + sep + t, sep, i)
    ensures Split(h + sep + t, sep) == [h] + Split(t, sep)
    decreases |h|
  {
    var s := h + sep + t;
    if h == [] {
      assert s == sep + t;
      assert s[..|sep|] == sep;
      assert s[|sep|..] == t;
    } else {
      assert !OccursAt(s, sep, 0);
      assert s[..|sep|] != sep;
      var rest := h[1..] + sep + t;
      assert s[1..] == rest;
      forall i | 0 <= i < |h[1..]| ensures !OccursAt(rest, sep, i) {
        assert !OccursAt(s, sep, i + 1);
        if i + |sep| <= |rest| {
          assert rest[i..i + |sep|] == s[i + 1..i + 1 + |sep|];
        }
      }
      SplitAtFirstSep(h[1..], sep, t);
      assert [h[0]] + h[1..] == h;
    }
  }

  /** No piece of a split contains the separator. */
  lemma {:induction false} SplitPiecesFree(s: string, sep: string)
    requires sep != ""
    ensures forall i :: 0 <= i < |Split(s, sep)| ==> !Contains(Split(s, sep)[i], sep)
    decreases |s|
  {
    var parts := Split(s, sep);
    if |s| < |sep| {
      assert parts == [s];
    } else if s[..|sep|] == sep {
      var rest := Split(s[|sep|..], sep);
      SplitPiecesFree(s[|sep|..], sep);
      assert parts == [""] + rest;
      forall i | 0 <= i < |parts| ensures !Contains(parts[i], sep) {
        if i > 0 {
          assert parts[i] == rest[i - 1];
        }
      }
    } else {
      var rest := Split(s[1..], sep);
      SplitPiecesFree(s[1..], sep);
      var t := [s[0]] + rest[0];
      assert parts == [t] + rest[1..];
      assert t <= s by {
        JoinSplit(s[1..], sep);
        JoinHead(rest, sep);
        assert s == [s[0]] + s[1..];
      }
      assert !Contains(t, sep) by {
        forall k: nat | k <= |t| ensures !OccursAt(t, sep, k) {
          if k == 0 {
            if |sep| <= |t| {
              assert t[..|sep|] == s[..|sep|];
            }
          } else if k + |sep| <= |t| {
            assert t[k..k + |sep|] == rest[0][k - 1..k - 1 + |sep|];
            assert !OccursAt(rest[0], sep, k - 1);
          }
        }
      }
      forall i | 0 <= i < |parts| ensures !Contains(parts[i], sep) {
        if i > 0 {
          assert parts[i] == rest[i];
        }
      }
    }
  }

  /** A string without the separator splits into itself alone. */
  lemma {:induction false} SplitWithoutSep(s: string, sep: string)
    requires sep != "" && !Contains(s, sep)
    ensures Split(s, sep) == [s]
    decreases |s|
  {
    if |s| >= |sep| {
      assert !OccursAt(s, sep, 0);
      assert s[..|sep|] != sep;
      var t := s[1..];
      assert !Contains(t, sep) by {
        forall k: nat | k <= |t| ensures !OccursAt(t, sep, k) {
          assert !OccursAt(s, sep, k + 1);
          if k + |sep| <= |t| {
            assert t[k..k + |sep|] == s[k + 1..k + 1 + |sep|];
          }
        }
      }
      SplitWithoutSep(t, sep);
      assert [s[0]] + t == s;
    }
  }

  /**
   * The last piece of a split is a suffix of the string that holds no
   * separator, and when there are several pieces the separator comes right
   * before it.
   */
  lemma {:induction false} LastPieceSuffix(s: string, sep: string)
    requires sep != ""
    ensures var ext := Last(Split(s, sep));
      && |ext| <= |s| && s[|s| - |ext|..] == ext && !Contains(ext, sep)
      && (|Split(s, sep)| >= 2 ==>
            |ext| + |sep| <= |s| && s[|s| - |ext| - |sep|..|s| - |ext|] == sep)
  {
    var parts := Split(s, sep);
    JoinSplit(s, sep);
    SplitPiecesFree(s, sep);
    var ext := Last(parts);
    if |parts| >= 2 {
      JoinLast(parts, sep);
      var front := Join(parts[..|parts| - 1], sep);
      assert s == front + sep + ext;
      assert s[|s| - |ext|..] == ext;
      assert s[|s| - |ext| - |sep|..|s| - |ext|] == sep;
    }
  }

  /** The last piece of a split is what follows the last separator. */
  lemma {:induction false} JoinLast(parts: seq<string>, sep: string)
    requires |parts| >= 2
    ensures Join(parts, sep) == Join(parts[..|parts| - 1], sep) + sep + Last(parts)
  {
    if |parts| > 2 {
      JoinLast(parts[1..], sep);
      assert parts[1..][..|parts[1..]| - 1] == parts[..|parts| - 1][1..];
    }
  }

  /** Splitting at a single character that a piece does not contain. */
  lemma {:induction false} SplitAtChar(p: string, c: char, t: string)
    requires c !in p
    ensures Split(p + [c] + t, [c]) == [p] + Split(t, [c])
  {
    if p == [] {
      assert p + [c] + t == [c] + t;
      assert ([c] + t)[1..] == t;
    } else {
      SplitAtChar(p[1..], c, t);
      assert (p + [c] + t)[1..] == p[1..] + [c] + t;
      assert [p[0]] + p[1..] == p;
    }
  }

  lemma {:induction false} SplitWithoutChar(p: string, c: char)
    requires c !in p
    ensures Split(p, [c]) == [p]
  {
    if p != [] {
      SplitWithoutChar(p[1..], c);
      assert [p[0]] + p[1..] == p;
    }
  }

  /**
   * Joining with a one-character separator and splitting again gives the
   * pieces back, provided no piece contains that character.
   */
  lemma {:induction false} SplitJoin(parts: seq<string>, c: char)
    requires |parts| >= 1
    requires forall i :: 0 <= i < |parts| ==> c !in parts[i]
    ensures Split(Join(parts, [c]), [c]) == parts
  {
    if |parts| == 1 {
      SplitWithoutChar(parts[0], c);
    } else {
      SplitJoin(parts[1..], c);
      SplitAtChar(parts[0], c, Join(parts[1..], [c]));
      assert [parts[0]] + parts[1..] == parts;
    }
  }

  predicate IsDigit(c: char) {
    '0' <= c <= '9'
  }

  /** `s.isdigit()`: non-empty and made of digits only. */
  predicate IsDigits(s: string) {
    |s| > 0 && forall i :: 0 <= i < |s| ==> IsDigit(s[i])
  }

  function DigitChar(d: nat): (c: char)
    requires d < 10
    ensures IsDigit(c)
  {
    (('0' as int) + d) as char
  }

  function DigitValue(c: char): (d: nat)
    requires IsDigit(c)
    ensures d < 10 && DigitChar(d) == c
  {
    (c as int) - ('0' as int)
  }

  /** `str(n)` / `'{}'.format(n)` for a non-negative integer. */
  function NatToString(n: nat): (s: string)
    ensures IsDigits(s)
    decreases n
  {
    if n < 10 then [DigitChar(n)] else NatToString(n / 10) + [DigitChar(n % 10)]
  }

  /** `int(s)` for a string of decimal digits (leading zeros allowed). */
  function ParseDigits(s: string): nat
    requires forall i :: 0 <= i < |s| ==> IsDigit(s[i])
    decreases |s|
  {
    if s == [] then 0 else ParseDigits(s[..|s| - 1]) * 10 + DigitValue(s[|s| - 1])
  }
}
