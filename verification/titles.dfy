/**
 Page titles derived from file stems: every `-` becomes a space, then the
 result is title-cased the way Python's `str.title` does it. A cased character
 (an ASCII letter here) is upper-cased when the character before it is not
 cased, and lower-cased when it is; every other character is copied and ends
 the current word.
 */
module Titles {
  import Text

  predicate IsUpper(c: char) { 'A' <= c <= 'Z' }

  predicate IsLower(c: char) { 'a' <= c <= 'z' }

  predicate IsLetter(c: char) { IsUpper(c) || IsLower(c) }

  function ToUpper(c: char): (r: char)
    ensures IsLetter(c) ==> IsUpper(r)
    ensures !IsLower(c) ==> r == c
  {
    if IsLower(c) then (c as int - 32) as char else c
  }

  function ToLower(c: char): (r: char)
    ensures IsLetter(c) ==> IsLower(r)
    ensures !IsUpper(c) ==> r == c
  {
    if IsUpper(c) then (c as int + 32) as char else c
  }

  /** The same letter regardless of case. */
  lemma CaseRoundTrip(c: char)
    requires IsLetter(c)
    ensures ToLower(ToUpper(c)) == ToLower(c)
    ensures ToUpper(ToLower(c)) == ToUpper(c)
  {
  }

  /** The character that `str.title` writes for `c`, given whether the character before it is cased. */
  function TitleChar(c: char, casedBefore: bool): char
  {
    if !IsLetter(c) then c
    else if casedBefore then ToLower(c)
    else ToUpper(c)
  }

  /** The character before index `i` of `s` is cased. */
  predicate CasedBefore(s: string, i: int)
    requires 0 <= i <= |s|
  {
    i > 0 && IsLetter(s[i - 1])
  }

  /**
   The left-to-right scan of `str.title`, which carries whether the previous
   character was cased. Its contract states the result character by
   character.
   */
  function TitleScan(s: string, prevCased: bool): (r: string)
    ensures |r| == |s|
    ensures forall i :: 0 <= i < |s| ==>
      r[i] == TitleChar(s[i], if i == 0 then prevCased else IsLetter(s[i - 1]))
  {
    if s == [] then []
    else [TitleChar(s[0], prevCased)] + TitleScan(s[1..], IsLetter(s[0]))
  }

  /** Python's `str.title` on ASCII text. */
  function TitleCase(s: string): (r: string)
    ensures |r| == |s|
    ensures forall i :: 0 <= i < |s| ==> r[i] == TitleChar(s[i], CasedBefore(s, i))
  {
    TitleScan(s, false)
  }

  /** Every run of letters begins with an upper-case letter and continues in lower case. */
  predicate TitleShaped(s: string)
  {
    forall i :: 0 <= i < |s| && IsLetter(s[i]) ==> (IsUpper(s[i]) <==> !CasedBefore(s, i))
  }

  /**
   Title-casing changes only the case of letters: letters stay the same
   letters at the same places, and everything else is copied.
   */
  lemma TitleCaseKeepsLetters(s: string)
    ensures forall i :: 0 <= i < |s| ==> (IsLetter(TitleCase(s)[i]) <==> IsLetter(s[i]))
    ensures forall i :: 0 <= i < |s| && IsLetter(s[i]) ==> ToLower(TitleCase(s)[i]) == ToLower(s[i])
    ensures forall i :: 0 <= i < |s| && !IsLetter(s[i]) ==> TitleCase(s)[i] == s[i]
  {
    var r := TitleCase(s);
    forall i | 0 <= i < |s| && IsLetter(s[i]) ensures ToLower(r[i]) == ToLower(s[i]) {
      CaseRoundTrip(s[i]);
    }
  }

  /** The result of title-casing is title-shaped. */
  lemma TitleCaseIsShaped(s: string)
    ensures TitleShaped(TitleCase(s))
  {
    var r := TitleCase(s);
    TitleCaseKeepsLetters(s);
    forall i | 0 <= i < |r| && IsLetter(r[i]) ensures IsUpper(r[i]) <==> !CasedBefore(r, i) {
      assert CasedBefore(r, i) == CasedBefore(s, i);
    }
  }

  /** A string is left unchanged by title-casing exactly when it is already title-shaped. */
  lemma TitleCaseFixedPoints(s: string)
    ensures TitleCase(s) == s <==> TitleShaped(s)
  {
    var r := TitleCase(s);
    if TitleShaped(s) {
      forall i | 0 <= i < |s| ensures r[i] == s[i] {
        if IsLetter(s[i]) {
          if CasedBefore(s, i) {
            assert IsLower(s[i]);
          } else {
            assert IsUpper(s[i]);
          }
        }
      }
    } else {
      TitleCaseIsShaped(s);
    }
  }

  /** Title-casing twice is title-casing once. */
  lemma TitleCaseIdempotent(s: string)
    ensures TitleCase(TitleCase(s)) == TitleCase(s)
  {
    TitleCaseIsShaped(s);
    TitleCaseFixedPoints(TitleCase(s));
  }

  /** A dash reads as a space. */
  function Undash(c: char): char
  {
    if c == '-' then ' ' else c
  }

  /**
   The display title of a page: `stem.replace('-', ' ').title()`. Its letters
   are the stem's letters in title shape, and every other character is the
   stem's with `-` read as a space; together these fix the title.
   */
  function DeriveTitle(stem: string): (r: string)
    ensures |r| == |stem|
    ensures '-' !in r
    ensures TitleShaped(r)
    ensures forall i :: 0 <= i < |stem| && stem[i] == '-' ==> r[i] == ' '
    ensures forall i :: 0 <= i < |stem| ==> (IsLetter(r[i]) <==> IsLetter(stem[i]))
    ensures forall i :: 0 <= i < |stem| ==> ToLower(r[i]) == ToLower(Undash(stem[i]))
  {
    var spaced := Text.ReplaceAll(stem, "-", " ");
    Text.ReplaceCharPointwise(stem, '-', ' ');
    assert forall i :: 0 <= i < |stem| ==> spaced[i] == Undash(stem[i]);
    TitleCaseIsShaped(spaced);
    TitleCaseKeepsLetters(spaced);
    TitleCase(spaced)
  }

  /** The display title, character by character. */
  lemma DeriveTitlePointwise(stem: string)
    ensures forall i :: 0 <= i < |stem| ==>
      DeriveTitle(stem)[i] == TitleChar(Undash(stem[i]), i > 0 && IsLetter(Undash(stem[i - 1])))
  {
    var spaced := Text.ReplaceAll(stem, "-", " ");
    Text.ReplaceCharPointwise(stem, '-', ' ');
    assert DeriveTitle(stem) == TitleCase(spaced);
    assert forall i :: 0 <= i < |stem| ==> spaced[i] == Undash(stem[i]);
    forall i | 0 <= i < |stem|
      ensures DeriveTitle(stem)[i] == TitleChar(Undash(stem[i]), i > 0 && IsLetter(Undash(stem[i - 1])))
    {
      assert CasedBefore(spaced, i) == (i > 0 && IsLetter(Undash(stem[i - 1])));
    }
  }

  /**
   The contract of `DeriveTitle` fixes the title: a title-shaped candidate
   of the stem's length that agrees with the undashed stem up to case is
   the display title.
   */
  lemma DeriveTitleUnique(stem: string, title: string)
    requires |title| == |stem|
    requires TitleShaped(title)
    requires forall i :: 0 <= i < |stem| ==> ToLower(title[i]) == ToLower(Undash(stem[i]))
    ensures title == DeriveTitle(stem)
  {
    DeriveTitlePointwise(stem);
    var r := DeriveTitle(stem);
    forall i | 0 <= i < |stem| ensures IsLetter(title[i]) <==> IsLetter(Undash(stem[i])) {
      assert ToLower(title[i]) == ToLower(Undash(stem[i]));
    }
    forall i | 0 <= i < |stem| ensures r[i] == title[i] {
      if i > 0 {
        assert IsLetter(title[i - 1]) <==> IsLetter(Undash(stem[i - 1]));
      }
      if IsLetter(title[i]) {
        assert CasedBefore(title, i) == (i > 0 && IsLetter(Undash(stem[i - 1])));
      }
    }
  }

  /** `title` agrees with the pointwise description of the display title of `stem` from index `k` on. */
  predicate AgreesFrom(stem: string, title: string, k: nat)
    requires |title| == |stem|
    decreases |stem| - k
  {
    k >= |stem| ||
    (title[k] == TitleChar(Undash(stem[k]), k > 0 && IsLetter(Undash(stem[k - 1])))
     && AgreesFrom(stem, title, k + 1))
  }

  /** A candidate that agrees with the pointwise description is the display title. */
  lemma {:induction false} DeriveTitleFromPointwise(stem: string, title: string, k: nat)
    requires |title| == |stem|
    requires k <= |stem|
    requires AgreesFrom(stem, title, k)
    requires forall i :: 0 <= i < k ==> DeriveTitle(stem)[i] == title[i]
    ensures DeriveTitle(stem) == title
    decreases |stem| - k
  {
    DeriveTitlePointwise(stem);
    if k < |stem| {
      DeriveTitleFromPointwise(stem, title, k + 1);
    }
  }

  /** The titles of the five configured pages. */
  lemma TitleOfReadme()
    ensures DeriveTitle("README") == "Readme"
  {
    DeriveTitleFromPointwise("README", "Readme", 0);
  }

  lemma TitleOfArchitecture()
    ensures DeriveTitle("ARCHITECTURE") == "Architecture"
  {
    DeriveTitleFromPointwise("ARCHITECTURE", "Architecture", 0);
  }

  lemma TitleOfCiCd()
    ensures DeriveTitle("CI-CD-SETUP") == "Ci Cd Setup"
  {
    DeriveTitleFromPointwise("CI-CD-SETUP", "Ci Cd Setup", 0);
  }

  lemma TitleOfTestResults()
    ensures DeriveTitle("TEST-RESULTS") == "Test Results"
  {
    DeriveTitleFromPointwise("TEST-RESULTS", "Test Results", 0);
  }

  lemma TitleOfCliGuide()
    ensures DeriveTitle("zero-trust-cli-guide") == "Zero Trust Cli Guide"
  {
    var stem, title := "zero-trust-cli-guide", "Zero Trust Cli Guide";
    assert AgreesFrom(stem, title, 15);
    assert AgreesFrom(stem, title, 10);
    assert AgreesFrom(stem, title, 5);
    DeriveTitleFromPointwise(stem, title, 0);
  }
}
