/**
 * The few JavaScript string operations the site relies on, as functions on
 * `seq<char>`: `s.split(c)[0]`, `s.includes(t)`, `a.localeCompare(b)` restricted to
 * the lexicographic order it agrees with on ISO dates, `parts.join('')`, and
 * `s || d` on a string that may be missing.
 */
module Strings {
  import opened Wrappers

  /** `o || d` where `o` is an optional string: a missing or empty string is falsy. */
  function OrElse(o: Option<string>, d: string): (r: string)
    ensures o.Some? && o.value != "" ==> r == o.value
    ensures o.None? || o.value == "" ==> r == d
    ensures r == "" ==> d == ""
  {
    if o.Some? && o.value != "" then o.value else d
  }

  /** `s.split(c)[0]`: the part of `s` before the first `c`, or all of `s` when it has none. */
  function PrefixBefore(s: string, c: char): (r: string)
    ensures r <= s
    ensures c !in r
    ensures |r| < |s| ==> s[|r|] == c
    ensures c !in s ==> r == s
  {
    if s == [] then []
    else if s[0] == c then []
    else [s[0]] + PrefixBefore(s[1..], c)
  }

  /** The prefix before a separator is determined by the part of the string up to that separator. */
  lemma {:induction false} PrefixBeforeConcat(a: string, c: char, b: string)
    requires c !in a
    ensures PrefixBefore(a + [c] + b, c) == a
  {
    if a != [] {
      assert (a + [c] + b)[1..] == a[1..] + [c] + b;
      PrefixBeforeConcat(a[1..], c, b);
    }
  }

  /** `s.endsWith(k)`. */
  predicate EndsWith(s: string, k: string)
  {
    |k| <= |s| && s[|s| - |k|..] == k
  }

  /** `t` occurs in `s` starting at index `i`. */
  predicate OccursAt(s: string, t: string, i: int)
  {
    0 <= i && i + |t| <= |s| && s[i..i + |t|] == t
  }

  /** `s.includes(t)`. */
  function Contains(s: string, t: string): (b: bool)
    ensures b <==> exists i :: OccursAt(s, t, i)
    decreases |s|
  {
    if |s| < |t| then false
    else if s[..|t|] == t then assert OccursAt(s, t, 0); true
    else
      var b' := Contains(s[1..], t);
      assert b' ==> exists i :: OccursAt(s, t, i) by {
        if b' {
          var j :| OccursAt(s[1..], t, j);
          assert OccursAt(s, t, j + 1);
        }
      }
      assert (exists i :: OccursAt(s, t, i)) ==> b' by {
        if i :| OccursAt(s, t, i) {
          assert i != 0;
          assert OccursAt(s[1..], t, i - 1);
        }
      }
      b'
  }

  /** `parts.join('')`: the parts concatenated in order, with no separator. */
  function Join(parts: seq<string>): (r: string)
    ensures |parts| == 1 ==> r == parts[0]
    ensures r == "" <==> forall i :: 0 <= i < |parts| ==> parts[i] == ""
  {
    if parts == [] then "" else parts[0] + Join(parts[1..])
  }

  /** Joining distributes over concatenation of the parts. */
  lemma {:induction false} JoinAppend(a: seq<string>, b: seq<string>)
    ensures Join(a + b) == Join(a) + Join(b)
  {
    if a == [] {
      assert a + b == b;
    } else {
      assert (a + b)[0] == a[0];
      assert (a + b)[1..] == a[1..] + b;
      JoinAppend(a[1..], b);
    }
  }

  /** Strict lexicographic order on code points: the model of `a.localeCompare(b) < 0`. */
  predicate LexLess(a: string, b: string)
    // a proper prefix sorts first, and a string never sorts before one of its prefixes
    ensures a < b ==> LexLess(a, b)
    ensures LexLess(a, b) ==> !(b <= a)
  {
    if a == [] then b != []
    else if b == [] then false
    else if a[0] != b[0] then a[0] < b[0]
    else LexLess(a[1..], b[1..])
  }

  lemma {:induction false} LexLessIrreflexive(a: string)
    ensures !LexLess(a, a)
  {
    if a != [] {
      LexLessIrreflexive(a[1..]);
    }
  }

  lemma {:induction false} LexLessTransitive(a: string, b: string, c: string)
    requires LexLess(a, b) && LexLess(b, c)
    ensures LexLess(a, c)
  {
    if a != [] && b != [] && c != [] && a[0] == b[0] == c[0] {
      LexLessTransitive(a[1..], b[1..], c[1..]);
    }
  }

  lemma {:induction false} LexLessTotal(a: string, b: string)
    requires a != b
    ensures LexLess(a, b) || LexLess(b, a)
  {
    if a != [] && b != [] && a[0] == b[0] {
      assert a == [a[0]] + a[1..] && b == [b[0]] + b[1..];
      LexLessTotal(a[1..], b[1..]);
    }
  }

  lemma {:induction false} LexLessAsymmetric(a: string, b: string)
    requires LexLess(a, b)
    ensures !LexLess(b, a)
  {
    if a != [] && b != [] && a[0] == b[0] {
      LexLessAsymmetric(a[1..], b[1..]);
    }
  }
}
