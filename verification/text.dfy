/**
 String replacement as Python's `str.replace(old, new)` performs it: the
 string is scanned from the left, and every occurrence of `old` that does not
 overlap an occurrence already replaced is replaced by `new`.
 */
module Text {

  /** `pat` occurs in `s` starting at index `i`. */
  predicate OccursAt(s: string, pat: string, i: int)
  {
    0 <= i && i + |pat| <= |s| && s[i..i + |pat|] == pat
  }

  /** `pat` occurs nowhere in `s`. */
  predicate Free(s: string, pat: string)
  {
    forall i :: 0 <= i < |s| ==> !OccursAt(s, pat, i)
  }

  /** Dropping the first character keeps a string free of `pat`. */
  lemma FreeTail(s: string, pat: string)
    requires |s| > 0
    ensures Free(s, pat) ==> Free(s[1..], pat)
  {
    if Free(s, pat) {
      forall i | 0 <= i < |s[1..]| ensures !OccursAt(s[1..], pat, i) {
        assert !OccursAt(s, pat, i + 1);
        if i + |pat| <= |s[1..]| {
          assert s[1..][i..i + |pat|] == s[i + 1..i + 1 + |pat|];
        }
      }
    }
  }

  /**
   All non-overlapping occurrences of `pat`, leftmost first, replaced by
   `rep`. Each replacement changes the length by `|rep| - |pat|`, so the
   length is kept when the two have the same length and never shrinks when
   `rep` is longer.
   */
  function ReplaceAll(s: string, pat: string, rep: string): (r: string)
    requires |pat| > 0
    ensures |rep| == |pat| ==> |r| == |s|
    ensures |rep| >= |pat| ==> |r| >= |s|
    decreases |s|
  {
    if |s| < |pat| then s
    else if s[..|pat|] == pat then rep + ReplaceAll(s[|pat|..], pat, rep)
    else [s[0]] + ReplaceAll(s[1..], pat, rep)
  }

  /** A string without an occurrence is left unchanged. */
  lemma {:induction false} ReplaceFree(s: string, pat: string, rep: string)
    requires |pat| > 0
    requires Free(s, pat)
    ensures ReplaceAll(s, pat, rep) == s
    decreases |s|
  {
    if |s| >= |pat| {
      assert !OccursAt(s, pat, 0);
      FreeTail(s, pat);
      ReplaceFree(s[1..], pat, rep);
    }
  }

  /** Putting the first character of `a` back in front. */
  lemma ConsRegroup(a: string, u: string, v: string)
    requires |a| > 0
    ensures [a[0]] + (a[1..] + u + v) == a + u + v
  {
    assert a == [a[0]] + a[1..];
  }

  /**
   The leftmost occurrence is the first one replaced: when no occurrence starts
   inside `a`, the text `a` is copied, the occurrence right after it becomes
   `rep`, and the scan resumes behind it.
   */
  lemma {:induction false} ReplaceLeftmost(a: string, pat: string, rep: string, b: string)
    requires |pat| > 0
    requires forall i :: 0 <= i < |a| ==> !OccursAt(a + pat + b, pat, i)
    ensures ReplaceAll(a + pat + b, pat, rep) == a + rep + ReplaceAll(b, pat, rep)
    decreases |a|
  {
    var s := a + pat + b;
    if a == [] {
      assert ReplaceAll(s, pat, rep) == rep + ReplaceAll(b, pat, rep) by {
        assert s == pat + b;
        assert s[..|pat|] == pat;
        assert s[|pat|..] == b;
      }
    } else {
      var rest := ReplaceAll(b, pat, rep);
      assert ReplaceAll(s, pat, rep) == [s[0]] + ReplaceAll(a[1..] + pat + b, pat, rep) by {
        assert !OccursAt(s, pat, 0);
        ReplaceSkip(s, pat, rep);
        assert s[1..] == a[1..] + pat + b;
      }
      assert ReplaceAll(a[1..] + pat + b, pat, rep) == a[1..] + rep + rest by {
        NoEarlyOccurrenceTail(a, pat, b);
        ReplaceLeftmost(a[1..], pat, rep, b);
      }
      ConsRegroup(a, rep, rest);
    }
  }

  /** Where no occurrence starts at the front, the first character is copied. */
  lemma ReplaceSkip(s: string, pat: string, rep: string)
    requires |pat| > 0 && |s| > 0
    requires !OccursAt(s, pat, 0)
    ensures ReplaceAll(s, pat, rep) == [s[0]] + ReplaceAll(s[1..], pat, rep)
  {
    if |s| >= |pat| {
      assert s[..|pat|] != pat;
    }
  }

  /** No occurrence starting inside `a` means none starting inside `a[1..]` after the first character is dropped. */
  lemma NoEarlyOccurrenceTail(a: string, pat: string, b: string)
    requires |a| > 0
    requires forall i :: 0 <= i < |a| ==> !OccursAt(a + pat + b, pat, i)
    ensures forall i :: 0 <= i < |a[1..]| ==> !OccursAt(a[1..] + pat + b, pat, i)
  {
    var s := a + pat + b;
    assert s[1..] == a[1..] + pat + b;
    forall i | 0 <= i < |a[1..]| ensures !OccursAt(a[1..] + pat + b, pat, i) {
      assert !OccursAt(s, pat, i + 1);
      assert s[i + 1..i + 1 + |pat|] == (a[1..] + pat + b)[i..i + |pat|];
    }
  }

  /**
   Replacing a single character by a single character works position by
   position: the length is kept, every `p` becomes `q`, every other character
   stays.
   */
  lemma {:induction false} ReplaceCharPointwise(s: string, p: char, q: char)
    ensures |ReplaceAll(s, [p], [q])| == |s|
    ensures forall i :: 0 <= i < |s| ==>
      ReplaceAll(s, [p], [q])[i] == (if s[i] == p then q else s[i])
    decreases |s|
  {
    if |s| > 0 {
      ReplaceCharPointwise(s[1..], p, q);
      var r := ReplaceAll(s, [p], [q]);
      var t := ReplaceAll(s[1..], [p], [q]);
      if s[..1] == [p] {
        assert r == [q] + t;
      } else {
        assert r == [s[0]] + t;
      }
      forall i | 0 <= i < |s| ensures r[i] == (if s[i] == p then q else s[i]) {
        if i > 0 {
          assert r[i] == t[i - 1];
          assert s[1..][i - 1] == s[i];
        }
      }
    }
  }
}
