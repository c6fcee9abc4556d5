/**
 * Case-insensitive comparison of program text, as the compiler does it
 * with `std::toupper` (parser.cpp:178) and with `boost::iequals` and
 * `boost::algorithm::istarts_with` (parser.cpp:154, 704): letters are
 * compared without regard to case, in the "C" locale.  The virtual
 * machine's string operations are here as well: the order of
 * `std::string` and `boost::erase_all`.
 */
module Text {

  /** `std::toupper` in the "C" locale: only 'a'..'z' change. */
  function Upper(c: char): (r: char)
    ensures 'a' <= c <= 'z' ==> 'A' <= r <= 'Z' && r as int == c as int - 32
    ensures !('a' <= c <= 'z') ==> r == c
  {
    if 'a' <= c <= 'z' then (c as int - 32) as char else c
  }

  /** The characters of `s` from `p` on spell `w`, ignoring case. */
  predicate MatchesAt(s: string, p: nat, w: string)
  {
    p + |w| <= |s| && forall i :: 0 <= i < |w| ==> Upper(s[p + i]) == Upper(w[i])
  }

  /** `boost::iequals`. */
  predicate EqualsIgnoreCase(a: string, b: string)
  {
    |a| == |b| && MatchesAt(a, 0, b)
  }

  /** `boost::algorithm::istarts_with`. */
  predicate StartsWithIgnoreCase(s: string, prefix: string)
  {
    MatchesAt(s, 0, prefix)
  }

  lemma UpperIdempotent(c: char)
    ensures Upper(Upper(c)) == Upper(c)
  {
  }

  /** Ignoring case is an equivalence: it is reflexive, symmetric and transitive. */
  lemma EqualsIgnoreCaseEquivalence(a: string, b: string, c: string)
    ensures EqualsIgnoreCase(a, a)
    ensures EqualsIgnoreCase(a, b) ==> EqualsIgnoreCase(b, a)
    ensures EqualsIgnoreCase(a, b) && EqualsIgnoreCase(b, c) ==> EqualsIgnoreCase(a, c)
  {
    if EqualsIgnoreCase(a, b) {
      assert forall i :: 0 <= i < |a| ==> Upper(b[i]) == Upper(a[0 + i]);
    }
  }

  /** Text spelled in upper case letters matches its lower case spelling. */
  lemma MatchesUpperCase(s: string, w: string)
    requires |s| == |w|
    requires forall i :: 0 <= i < |w| ==> s[i] == Upper(w[i])
    ensures MatchesAt(s, 0, w)
  {
    forall i | 0 <= i < |w| ensures Upper(s[0 + i]) == Upper(w[i]) {
      UpperIdempotent(w[i]);
    }
  }

  // ---------------------------------------------------------------------
  // Strings at run time: `std::string` order and `boost::erase_all`
  // (vm.cpp:1092-1263, 1494, 737, 778)
  // ---------------------------------------------------------------------

  /** `std::string` `<`: lexicographic order on the characters, a proper prefix first. */
  predicate StrLess(a: string, b: string)
    decreases |a|
  {
    if |a| == 0 then |b| > 0
    else if |b| == 0 then false
    else if a[0] != b[0] then a[0] < b[0]
    else StrLess(a[1..], b[1..])
  }

  /** The order is strict and total: exactly one of `a < b`, `a == b`, `b < a` holds. */
  lemma {:induction false} StrLessTrichotomy(a: string, b: string)
    ensures !(StrLess(a, b) && StrLess(b, a))
    ensures StrLess(a, b) || a == b || StrLess(b, a)
    ensures !StrLess(a, a)
    decreases |a|
  {
    if |a| > 0 && |b| > 0 && a[0] == b[0] {
      StrLessTrichotomy(a[1..], b[1..]);
      if a[1..] == b[1..] {
        assert a == [a[0]] + a[1..] && b == [b[0]] + b[1..];
      }
    }
    if |a| > 0 {
      StrLessTrichotomy(a[1..], a[1..]);
    }
  }

  lemma {:induction false} StrLessTransitive(a: string, b: string, c: string)
    requires StrLess(a, b) && StrLess(b, c)
    ensures StrLess(a, c)
    decreases |a|
  {
    if |a| > 0 && a[0] == b[0] && b[0] == c[0] {
      StrLessTransitive(a[1..], b[1..], c[1..]);
    }
  }

  /** A string comes before every longer string it is a prefix of. */
  lemma {:induction false} PrefixIsLess(a: string, b: string)
    requires |b| > 0
    ensures StrLess(a, a + b)
    decreases |a|
  {
    if |a| > 0 {
      assert (a + b)[1..] == a[1..] + b;
      PrefixIsLess(a[1..], b);
    }
  }

  /**
   * `boost::erase_all(s, p)`: every occurrence of `p` found scanning `s`
   * from the left is removed; the scan goes on after the removed text and
   * never looks at the result again.  An empty pattern removes nothing.
   */
  function EraseAll(s: string, p: string): (r: string)
    decreases |s|
  {
    if |p| == 0 || |s| < |p| then s
    else if s[..|p|] == p then EraseAll(s[|p|..], p)
    else [s[0]] + EraseAll(s[1..], p)
  }

  /** Erasing never lengthens a string. */
  lemma {:induction false} EraseAllLength(s: string, p: string)
    ensures |EraseAll(s, p)| <= |s|
    decreases |s|
  {
    if |p| == 0 || |s| < |p| {
    } else if s[..|p|] == p {
      EraseAllLength(s[|p|..], p);
    } else {
      EraseAllLength(s[1..], p);
    }
  }

  /** `p` occurs in `s` at offset `i`. */
  predicate OccursAt(s: string, p: string, i: nat)
  {
    i + |p| <= |s| && s[i..i + |p|] == p
  }

  /** A string in which the pattern does not occur is left as it is. */
  lemma {:induction false} EraseAllAbsent(s: string, p: string)
    requires forall i: nat :: !OccursAt(s, p, i)
    ensures EraseAll(s, p) == s
    decreases |s|
  {
    if |p| > 0 && |s| >= |p| {
      assert !OccursAt(s, p, 0);
      assert s[0..0 + |p|] == s[..|p|];
      forall i: nat ensures !OccursAt(s[1..], p, i) {
        if i + |p| <= |s[1..]| {
          assert s[1..][i..i + |p|] == s[i + 1..i + 1 + |p|];
          assert !OccursAt(s, p, i + 1);
        }
      }
      EraseAllAbsent(s[1..], p);
      assert s == [s[0]] + s[1..];
    }
  }

  /** An occurrence at the start is removed whole, and the scan goes on after it. */
  lemma EraseAllLeading(p: string, s: string)
    requires |p| > 0
    ensures EraseAll(p + s, p) == EraseAll(s, p)
  {
    assert (p + s)[..|p|] == p && (p + s)[|p|..] == s;
  }

  /** Removing a pattern from the pattern itself leaves nothing, and an empty pattern removes nothing. */
  lemma EraseAllSelf(p: string, s: string)
    ensures EraseAll(p, p) == ""
    ensures EraseAll(s, "") == s
  {
    if |p| > 0 {
      assert p[..|p|] == p && p[|p|..] == "";
    }
  }

  /** The scan does not look at the result again: "aabb" minus "ab" is "ab". */
  lemma EraseAllDoesNotRescan()
    ensures EraseAll("aabb", "ab") == "ab"
  {
    var s := "aabb";
    assert s[..2][1] != "ab"[1];
    assert s[1..] == "abb" && s[1..][..2] == "ab" && s[1..][2..] == "b";
    assert EraseAll("b", "ab") == "b";
  }
}
