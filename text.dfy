/** The few Python string operations the core relies on: str.strip(),
    substring containment, str.startswith, str.replace(old, '') and
    str.upper(). */
module Text {

  /** Python's str.isspace() for one character: the ASCII control
      whitespace, the information separators 0x1C..0x1F, the space and the
      Unicode space characters. */
  predicate IsSpace(c: char) {
    var n := c as int;
    (9 <= n <= 13) || (28 <= n <= 32) || n == 0x85 || n == 0xA0 || n == 0x1680
    || (0x2000 <= n <= 0x200A) || n == 0x2028 || n == 0x2029 || n == 0x202F
    || n == 0x205F || n == 0x3000
  }

  predicate AllSpace(s: string) {
    forall i :: 0 <= i < |s| ==> IsSpace(s[i])
  }

  function LeadingSpaces(s: string): (n: nat)
    ensures n <= |s|
  {
    if s == [] || !IsSpace(s[0]) then 0 else LeadingSpaces(s[1..]) + 1
  }

  function TrailingSpaces(s: string): (n: nat)
    ensures n <= |s|
  {
    if s == [] || !IsSpace(s[|s| - 1]) then 0 else TrailingSpaces(s[..|s| - 1]) + 1
  }

  /** LeadingSpaces counts the whitespace run that starts s. */
  lemma {:induction false} LeadingSpacesRun(s: string)
    ensures var n := LeadingSpaces(s);
      AllSpace(s[..n]) && (n < |s| ==> !IsSpace(s[n]))
  {
    if s != [] && IsSpace(s[0]) {
      var m := LeadingSpaces(s[1..]);
      LeadingSpacesRun(s[1..]);
      assert s[..m + 1] == [s[0]] + s[1..][..m];
    }
  }

  /** TrailingSpaces counts the whitespace run that ends s. */
  lemma {:induction false} TrailingSpacesRun(s: string)
    ensures var n := TrailingSpaces(s);
      AllSpace(s[|s| - n..]) && (n < |s| ==> !IsSpace(s[|s| - 1 - n]))
  {
    if s != [] && IsSpace(s[|s| - 1]) {
      var p := s[..|s| - 1];
      var m := TrailingSpaces(p);
      TrailingSpacesRun(p);
      assert TrailingSpaces(s) == m + 1;
      var run := s[|s| - (m + 1)..];
      assert run == p[|p| - m..] + [s[|s| - 1]];
      forall k | 0 <= k < |run| ensures IsSpace(run[k]) {
        if k < m {
          assert run[k] == p[|p| - m..][k];
        }
      }
      if m + 1 < |s| {
        assert s[|s| - 1 - (m + 1)] == p[|p| - 1 - m];
      }
    }
  }

  /** Python's str.strip(): the leading and the trailing whitespace is cut
      off (StripTrims). */
  function Strip(s: string): string {
    var a := LeadingSpaces(s);
    var t := s[a..];
    t[..|t| - TrailingSpaces(t)]
  }

  /** The result of Strip is a piece of s that neither starts nor ends with
      whitespace, and everything cut off on either side is whitespace. */
  lemma StripTrims(s: string)
    ensures var r := Strip(s);
      && (r == [] || (!IsSpace(r[0]) && !IsSpace(r[|r| - 1])))
      && exists a :: (0 <= a <= |s| - |r| && s[a..a + |r|] == r
                      && AllSpace(s[..a]) && AllSpace(s[a + |r|..]))
  {
    var a := LeadingSpaces(s);
    var t := s[a..];
    var n := TrailingSpaces(t);
    var r := t[..|t| - n];
    LeadingSpacesRun(s);
    TrailingSpacesRun(t);
    assert r == Strip(s);
    assert s[a..a + |r|] == r;
    assert s[a + |r|..] == t[|t| - n..];
  }

  predicate StartsWith(s: string, p: string) {
    |p| <= |s| && s[..|p|] == p
  }

  /** p occurs in s at offset i. */
  predicate OccursAt(s: string, p: string, i: nat) {
    i + |p| <= |s| && s[i..i + |p|] == p
  }

  /** Python's `p in s`. */
  function Contains(s: string, p: string): (b: bool)
    ensures b <==> exists i: nat :: OccursAt(s, p, i)
  {
    if StartsWith(s, p) then
      assert OccursAt(s, p, 0);
      true
    else if |s| <= |p| then
      assert forall i: nat :: OccursAt(s, p, i) ==> i == 0;
      false
    else
      var b := Contains(s[1..], p);
      assert forall i: nat :: OccursAt(s[1..], p, i) <==> OccursAt(s, p, i + 1) by {
        forall i: nat ensures OccursAt(s[1..], p, i) <==> OccursAt(s, p, i + 1) {
          if i + 1 + |p| <= |s| {
            assert s[1..][i..i + |p|] == s[i + 1..i + 1 + |p|];
          }
        }
      }
      assert forall i: nat :: OccursAt(s, p, i) ==> i > 0 && OccursAt(s[1..], p, i - 1);
      b
  }

  /** Python's s.replace(p, ''): occurrences of p are removed from left to
      right, each search resuming after the occurrence just removed. */
  function RemoveAll(s: string, p: string): string
    requires |p| > 0
    decreases |s|
  {
    if |s| < |p| then s
    else if s[..|p|] == p then RemoveAll(s[|p|..], p)
    else [s[0]] + RemoveAll(s[1..], p)
  }

  /** When p starts with a dot, a dot-free prefix is left alone: only the
      rest of the string is searched. */
  lemma {:induction false} RemoveAllSkipsDotFree(stem: string, t: string, p: string)
    requires |p| > 0 && p[0] == '.' && '.' !in stem
    ensures RemoveAll(stem + t, p) == stem + RemoveAll(t, p)
    decreases |stem|
  {
    if stem != [] {
      var s := stem + t;
      assert s[0] == stem[0] && stem[0] != '.';
      assert s[1..] == stem[1..] + t;
      assert |s| >= |p| ==> s[..|p|][0] != p[0];
      RemoveAllSkipsDotFree(stem[1..], t, p);
      if |s| < |p| {
        assert |t| < |p|;
      } else {
        calc {
          RemoveAll(s, p);
          [s[0]] + RemoveAll(stem[1..] + t, p);
          [stem[0]] + (stem[1..] + RemoveAll(t, p));
          { assert [stem[0]] + stem[1..] == stem; }
          stem + RemoveAll(t, p);
        }
      }
    } else {
      assert stem + t == t;
    }
  }

  /** Python's str.upper() on ASCII letters; other characters are kept. */
  function Upper(s: string): (r: string)
    ensures |r| == |s|
  {
    seq(|s|, i requires 0 <= i < |s| =>
      if 'a' <= s[i] <= 'z' then (s[i] as int - 32) as char else s[i])
  }

  predicate IsLower(c: char) {
    'a' <= c <= 'z'
  }

  /** upper() leaves no lower-case letter, turns each one into the capital
      at the same position of the alphabet, and keeps every other
      character. */
  lemma UpperCases(s: string)
    ensures |Upper(s)| == |s|
    ensures forall i :: 0 <= i < |s| ==> !IsLower(Upper(s)[i])
    ensures forall i :: 0 <= i < |s| && IsLower(s[i]) ==>
      'A' <= Upper(s)[i] <= 'Z' && Upper(s)[i] as int - 'A' as int == s[i] as int - 'a' as int
    ensures forall i :: 0 <= i < |s| && !IsLower(s[i]) ==> Upper(s)[i] == s[i]
  {
  }

  /** Upper-casing twice is upper-casing once. */
  lemma UpperIdempotent(s: string)
    ensures Upper(Upper(s)) == Upper(s)
  {
    UpperCases(s);
    UpperCases(Upper(s));
  }
}
