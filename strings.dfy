/** Python's `str.replace(old, new)`: every non-overlapping occurrence of
    `old` (here `pat`), scanning from the left, is replaced by `new` (here `rep`). */
module Strings {

  /** `pat` occurs in `s` starting at position `i`. */
  predicate OccursAt(s: string, pat: string, i: nat)
  {
    i + |pat| <= |s| && s[i..i + |pat|] == pat
  }

  /** `pat` is a substring of `s` (Python's `pat in s`). */
  predicate Contains(s: string, pat: string)
  {
    exists i: nat | i <= |s| :: OccursAt(s, pat, i)
  }

  /** `s.replace(old, new)`. With an empty pattern, Python inserts the replacement before
      every character and at the end. */
  function ReplaceAll(s: string, pat: string, rep: string): string
    decreases |s|
  {
    if pat == [] then
      if s == [] then rep else rep + [s[0]] + ReplaceAll(s[1..], pat, rep)
    else if |s| < |pat| then s
    else if s[..|pat|] == pat then rep + ReplaceAll(s[|pat|..], pat, rep)
    else [s[0]] + ReplaceAll(s[1..], pat, rep)
  }

  /** A replacement no longer than the pattern never lengthens the string, and
      one no shorter never shortens it. */
  lemma {:induction false} ReplaceLength(s: string, pat: string, rep: string)
    ensures |rep| <= |pat| ==> |ReplaceAll(s, pat, rep)| <= |s|
    ensures |rep| >= |pat| ==> |ReplaceAll(s, pat, rep)| >= |s|
    decreases |s|
  {
    if pat == [] {
      if s != [] { ReplaceLength(s[1..], pat, rep); }
    } else if |s| >= |pat| {
      if s[..|pat|] == pat {
        ReplaceLength(s[|pat|..], pat, rep);
      } else {
        ReplaceLength(s[1..], pat, rep);
      }
    }
  }

  /** Replacing a string that does not occur leaves the input unchanged. */
  lemma {:induction false} ReplaceAbsent(s: string, pat: string, rep: string)
    requires pat != [] && !Contains(s, pat)
    ensures ReplaceAll(s, pat, rep) == s
    decreases |s|
  {
    if |s| >= |pat| {
      assert !OccursAt(s, pat, 0);
      assert !Contains(s[1..], pat) by {
        forall i: nat | OccursAt(s[1..], pat, i) ensures false {
          assert s[1..][i..i + |pat|] == s[i + 1..i + 1 + |pat|];
          assert OccursAt(s, pat, i + 1);
        }
      }
      ReplaceAbsent(s[1..], pat, rep);
    }
  }

  /** Replacing one character by one character is a character-wise map. */
  lemma {:induction false} ReplaceChar(s: string, c: char, d: char)
    ensures |ReplaceAll(s, [c], [d])| == |s|
    ensures forall i :: 0 <= i < |s| ==>
              ReplaceAll(s, [c], [d])[i] == if s[i] == c then d else s[i]
    decreases |s|
  {
    if s != [] {
      ReplaceChar(s[1..], c, d);
      var rest := ReplaceAll(s[1..], [c], [d]);
      assert ReplaceAll(s, [c], [d]) == [if s[0] == c then d else s[0]] + rest;
    }
  }

  /** A pattern holding a character that `s` lacks does not occur in `s`. */
  lemma NotContainsByChar(s: string, pat: string, c: char)
    requires c in pat && c !in s
    ensures !Contains(s, pat)
  {
    forall i: nat | i <= |s| ensures !OccursAt(s, pat, i) {
      if i + |pat| <= |s| {
        assert forall x :: x in s[i..i + |pat|] ==> x in s;
      }
    }
  }

  /** A prefix without the pattern's first character is copied unchanged. */
  lemma {:induction false} ReplaceSkip(a: string, b: string, pat: string, rep: string)
    requires pat != [] && pat[0] !in a
    ensures ReplaceAll(a + b, pat, rep) == a + ReplaceAll(b, pat, rep)
    decreases |a|
  {
    if a != [] {
      assert (a + b)[0] == a[0] && (a + b)[1..] == a[1..] + b;
      if |a + b| < |pat| {
        assert ReplaceAll(a + b, pat, rep) == a + b;
        assert ReplaceAll(b, pat, rep) == b;
      } else {
        assert (a + b)[..|pat|][0] != pat[0];
        assert ReplaceAll(a + b, pat, rep) == [a[0]] + ReplaceAll(a[1..] + b, pat, rep);
        ReplaceSkip(a[1..], b, pat, rep);
        assert a == [a[0]] + a[1..];
        assert [a[0]] + (a[1..] + ReplaceAll(b, pat, rep)) == a + ReplaceAll(b, pat, rep);
      }
    } else {
      assert a + b == b;
    }
  }

  /** An occurrence at the front is replaced, and scanning resumes after it. */
  lemma ReplaceHead(b: string, pat: string, rep: string)
    requires pat != []
    ensures ReplaceAll(pat + b, pat, rep) == rep + ReplaceAll(b, pat, rep)
  {
    assert (pat + b)[..|pat|] == pat && (pat + b)[|pat|..] == b;
  }

  /** The only occurrence, after a prefix without the pattern's first character. */
  lemma ReplaceMiddle(a: string, pat: string, b: string, rep: string)
    requires pat != [] && pat[0] !in a && !Contains(b, pat)
    ensures ReplaceAll(a + pat + b, pat, rep) == a + rep + b
  {
    assert a + pat + b == a + (pat + b);
    ReplaceSkip(a, pat + b, pat, rep);
    ReplaceHead(b, pat, rep);
    ReplaceAbsent(b, pat, rep);
  }

  /** The only occurrence, at the end, after a prefix without the pattern's
      first character. */
  lemma ReplaceAtEnd(a: string, pat: string, rep: string)
    requires pat != [] && pat[0] !in a
    ensures ReplaceAll(a + pat, pat, rep) == a + rep
  {
    ReplaceSkip(a, pat, pat, rep);
    ReplaceHead([], pat, rep);
    assert pat + [] == pat && rep + [] == rep;
  }

  /** Removing the only occurrence, when a character of the pattern is absent
      after it and its first character is absent before it. */
  lemma RemoveMiddle(a: string, pat: string, b: string, c: char)
    requires pat != [] && pat[0] !in a && c in pat && c !in b
    ensures ReplaceAll(a + pat + b, pat, []) == a + b
  {
    NotContainsByChar(b, pat, c);
    ReplaceMiddle(a, pat, b, []);
    assert a + [] + b == a + b;
  }
}
