/**
 * The two string operations of the Kotlin standard library that the event
 * list relies on: `String.compareTo` (the order used by `sortedBy`) and
 * `String.contains(other, ignoreCase = true)` (the filter).
 * Characters are compared by their code; case mapping covers ASCII letters only.
 */
module Strings {

  // ---------------------------------------------------------------------------
  // Lexicographic order, as String.compareTo: the first differing character
  // decides, and a proper prefix comes first.
  // ---------------------------------------------------------------------------

  predicate LexLe(a: string, b: string)
    decreases |a|
  {
    |a| == 0 || (|b| > 0 && (a[0] < b[0] || (a[0] == b[0] && LexLe(a[1..], b[1..]))))
  }

  predicate LexLt(a: string, b: string)
  {
    LexLe(a, b) && a != b
  }

  lemma {:induction false} LexLeReflexive(a: string)
    ensures LexLe(a, a)
  {
    if |a| > 0 {
      LexLeReflexive(a[1..]);
    }
  }

  lemma {:induction false} LexLeTotal(a: string, b: string)
    ensures LexLe(a, b) || LexLe(b, a)
  {
    if |a| > 0 && |b| > 0 && a[0] == b[0] {
      LexLeTotal(a[1..], b[1..]);
    }
  }

  lemma {:induction false} LexLeAntisymmetric(a: string, b: string)
    requires LexLe(a, b) && LexLe(b, a)
    ensures a == b
  {
    if |a| > 0 {
      LexLeAntisymmetric(a[1..], b[1..]);
      assert a == [a[0]] + a[1..] && b == [b[0]] + b[1..];
    }
  }

  lemma {:induction false} LexLeTransitive(a: string, b: string, c: string)
    requires LexLe(a, b) && LexLe(b, c)
    ensures LexLe(a, c)
  {
    if |a| > 0 && a[0] == b[0] && b[0] == c[0] {
      LexLeTransitive(a[1..], b[1..], c[1..]);
    }
  }

  /** Comparing two strings whose first parts have equal length: the first parts decide unless they are equal. */
  lemma {:induction false} LexLeConcat(a1: string, a2: string, b1: string, b2: string)
    requires |a1| == |b1|
    ensures LexLe(a1 + a2, b1 + b2) <==> LexLt(a1, b1) || (a1 == b1 && LexLe(a2, b2))
  {
    if |a1| > 0 {
      assert (a1 + a2)[0] == a1[0] && (a1 + a2)[1..] == a1[1..] + a2;
      assert (b1 + b2)[0] == b1[0] && (b1 + b2)[1..] == b1[1..] + b2;
      LexLeConcat(a1[1..], a2, b1[1..], b2);
      assert a1 == [a1[0]] + a1[1..] && b1 == [b1[0]] + b1[1..];
    } else {
      assert a1 + a2 == a2 && b1 + b2 == b2;
    }
  }

  // ---------------------------------------------------------------------------
  // Case-insensitive matching, as Char.equals(other, ignoreCase = true) and
  // CharSequence.contains(other, ignoreCase = true).
  // ---------------------------------------------------------------------------

  function ToUpperAscii(c: char): char
  {
    if 'a' <= c <= 'z' then (c as int - 32) as char else c
  }

  function ToLowerAscii(c: char): char
  {
    if 'A' <= c <= 'Z' then (c as int + 32) as char else c
  }

  /** Equal, or equal after upper-casing, or equal after upper- then lower-casing. */
  predicate CharEqualsIgnoreCase(a: char, b: char)
  {
    a == b || ToUpperAscii(a) == ToUpperAscii(b) || ToLowerAscii(ToUpperAscii(a)) == ToLowerAscii(ToUpperAscii(b))
  }

  /** With ASCII case maps, ignoring case means equal lower-case forms. */
  lemma CharEqualsIgnoreCaseIsLower(a: char, b: char)
    ensures CharEqualsIgnoreCase(a, b) <==> ToLowerAscii(a) == ToLowerAscii(b)
  {
  }

  /** `sub` occurs in `s` at position `i`, ignoring case. */
  predicate MatchesAt(s: string, sub: string, i: int)
    requires 0 <= i && i + |sub| <= |s|
  {
    forall j :: 0 <= j < |sub| ==> CharEqualsIgnoreCase(s[i + j], sub[j])
  }

  predicate StartsWithIgnoreCase(s: string, sub: string)
  {
    |sub| <= |s| && forall j :: 0 <= j < |sub| ==> CharEqualsIgnoreCase(s[j], sub[j])
  }

  /** Tries the region match at every start index 0 .. |s| - |sub|, in order. */
  predicate ContainsIgnoreCase(s: string, sub: string)
    decreases |s|
  {
    |sub| <= |s| && (StartsWithIgnoreCase(s, sub) || (|s| > 0 && ContainsIgnoreCase(s[1..], sub)))
  }

  /** `ContainsIgnoreCase` holds exactly when some start index gives a region match. */
  lemma {:induction false} ContainsIgnoreCaseSpec(s: string, sub: string)
    ensures ContainsIgnoreCase(s, sub) <==> exists i :: 0 <= i <= |s| - |sub| && MatchesAt(s, sub, i)
  {
    if ContainsIgnoreCase(s, sub) {
      if StartsWithIgnoreCase(s, sub) {
        assert MatchesAt(s, sub, 0);
      } else {
        ContainsIgnoreCaseSpec(s[1..], sub);
        var i :| 0 <= i <= |s| - 1 - |sub| && MatchesAt(s[1..], sub, i);
        assert MatchesAt(s, sub, i + 1) by {
          forall j | 0 <= j < |sub| ensures CharEqualsIgnoreCase(s[i + 1 + j], sub[j]) {
            assert s[1..][i + j] == s[i + 1 + j];
          }
        }
      }
    }
    if exists i :: 0 <= i <= |s| - |sub| && MatchesAt(s, sub, i) {
      var i :| 0 <= i <= |s| - |sub| && MatchesAt(s, sub, i);
      if i == 0 {
        assert StartsWithIgnoreCase(s, sub);
      } else {
        assert MatchesAt(s[1..], sub, i - 1) by {
          forall j | 0 <= j < |sub| ensures CharEqualsIgnoreCase(s[1..][i - 1 + j], sub[j]) {
            assert s[1..][i - 1 + j] == s[i + j];
          }
        }
        ContainsIgnoreCaseSpec(s[1..], sub);
      }
    }
  }

  /** Every string contains the empty string. */
  lemma ContainsEmpty(s: string)
    ensures ContainsIgnoreCase(s, "")
  {
  }
}
