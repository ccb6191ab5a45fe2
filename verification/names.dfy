/**
 File names of the documentation pages: the stem that identifies a page, and
 the output name `name.replace('.md', '.html')`.
 */
module FileNames {
  import opened Text

  const MdSuffix: string := ".md"
  const HtmlSuffix: string := ".html"

  /** Python's `str.rfind` for one character: the last index of `c`, or -1. */
  function LastIndexOf(s: string, c: char): (r: int)
    ensures -1 <= r < |s|
    ensures r == -1 <==> c !in s
    ensures r >= 0 ==> s[r] == c && forall j :: r < j < |s| ==> s[j] != c
  {
    if s == [] then -1
    else if s[|s| - 1] == c then |s| - 1
    else LastIndexOf(s[..|s| - 1], c)
  }

  /**
   The stem of a file name as `pathlib` computes it: the name without its
   last suffix, where a suffix starts at the last `.`, that `.` is not the
   first character and not the last.
   */
  function Stem(name: string): (r: string)
    ensures |r| <= |name| && r == name[..|r|]
    ensures r != name ==>
      && 0 < |r| < |name| - 1
      && name[|r|] == '.'
      && forall j :: |r| < j < |name| ==> name[j] != '.'
    ensures r == name <==>
      || (|name| > 0 && name[|name| - 1] == '.')
      || forall j :: 0 < j < |name| - 1 ==> name[j] != '.'
  {
    var i := LastIndexOf(name, '.');
    if 0 < i < |name| - 1 then name[..i] else name
  }

  /** The output file name: every `.md` replaced by `.html`; no `.md` is left in it. */
  function OutputName(name: string): (r: string)
    ensures Free(r, MdSuffix)
    ensures |r| >= |name|
  {
    NoMdSurvives(name);
    ReplaceAll(name, MdSuffix, HtmlSuffix)
  }

  /** The first character of a replacement result: `.` if an occurrence was replaced there, else the original. */
  lemma ReplaceHead(t: string)
    requires |t| > 0
    ensures |ReplaceAll(t, MdSuffix, HtmlSuffix)| > 0
    ensures ReplaceAll(t, MdSuffix, HtmlSuffix)[0] == (if OccursAt(t, MdSuffix, 0) then '.' else t[0])
  {
  }

  /** No `.md` survives the replacement: every occurrence is replaced and none is created. */
  lemma {:induction false} NoMdSurvives(name: string)
    ensures Free(ReplaceAll(name, MdSuffix, HtmlSuffix), MdSuffix)
    decreases |name|
  {
    var s := name;
    var r := ReplaceAll(s, MdSuffix, HtmlSuffix);
    if |s| < 3 {
      assert r == s;
    } else if s[..3] == MdSuffix {
      var t := ReplaceAll(s[3..], MdSuffix, HtmlSuffix);
      NoMdSurvives(s[3..]);
      assert r == HtmlSuffix + t;
      forall i | 0 <= i < |r| ensures !OccursAt(r, MdSuffix, i) {
        if i + 3 > |r| {
        } else if i == 0 {
          assert r[i..i + 3][1] == 'h';
        } else if i < 5 {
          assert r[i..i + 3][0] != '.';
        } else {
          assert r[i..i + 3] == t[i - 5..i - 2];
          assert !OccursAt(t, MdSuffix, i - 5);
        }
      }
    } else {
      var t := ReplaceAll(s[1..], MdSuffix, HtmlSuffix);
      NoMdSurvives(s[1..]);
      assert r == [s[0]] + t;
      forall i | 0 <= i < |r| ensures !OccursAt(r, MdSuffix, i) {
        if i + 3 > |r| {
        } else if i > 0 {
          assert r[i..i + 3] == t[i - 1..i + 2];
          assert !OccursAt(t, MdSuffix, i - 1);
        } else if s[0] != '.' {
          assert r[..3][0] == s[0];
        } else {
          var w := r[..3];
          ReplaceHead(s[1..]);
          if t[0] != 'm' {
            assert w[1] == t[0];
          } else {
            assert s[1] == 'm' && s[2] != 'd';
            assert !OccursAt(s[1..], MdSuffix, 0);
            if |s[1..]| < 3 {
              assert t == s[1..];
            } else {
              assert t == [s[1]] + ReplaceAll(s[2..], MdSuffix, HtmlSuffix);
              ReplaceHead(s[2..]);
            }
            assert w[2] == t[1] != 'd';
          }
        }
      }
    }
  }

  /** A name without `.md` keeps its name. */
  lemma OutputNameOfPlainName(name: string)
    requires Free(name, MdSuffix)
    ensures OutputName(name) == name
  {
    ReplaceFree(name, MdSuffix, HtmlSuffix);
  }

  /** A name that is a stem without `.md` followed by `.md` becomes that stem followed by `.html`. */
  lemma OutputNameOfMdFile(stem: string)
    requires Free(stem, MdSuffix)
    ensures OutputName(stem + MdSuffix) == stem + HtmlSuffix
  {
    var s := stem + MdSuffix;
    assert s + [] == s;
    forall i | 0 <= i < |stem| ensures !OccursAt(s, MdSuffix, i) {
      if i + 3 <= |stem| {
        assert s[i..i + 3] == stem[i..i + 3];
        assert !OccursAt(stem, MdSuffix, i);
      } else if i + 3 <= |s| {
        var k := |stem| - i;
        assert s[i..i + 3][k] == '.';
        assert MdSuffix[k] != '.';
      }
    }
    ReplaceLeftmost(stem, MdSuffix, HtmlSuffix, []);
    assert s + [] == s;
  }

  /** The stem of a non-empty name followed by `.md` is that name. */
  lemma StemOfMdFile(stem: string)
    requires |stem| > 0
    ensures Stem(stem + MdSuffix) == stem
  {
    var s := stem + MdSuffix;
    assert s[|s| - 1] != '.' && s[|s| - 2] != '.' && s[|s| - 3] == '.';
    assert LastIndexOf(s, '.') == |stem|;
  }

  /** For such names the output name is the stem followed by `.html`. */
  lemma OutputNameIsStemHtml(stem: string)
    requires |stem| > 0
    requires Free(stem, MdSuffix)
    ensures OutputName(stem + MdSuffix) == Stem(stem + MdSuffix) + HtmlSuffix
  {
    StemOfMdFile(stem);
    OutputNameOfMdFile(stem);
  }
}
