/**
 The batch run of the documentation generator: the homepage is generated
 first and always; then each configured Markdown file, in order, is either
 converted into a page or skipped with a warning when it is missing; finally
 a summary lists the homepage and the output name of every configured file.

 The file system and the Markdown library are not modelled: whether a file
 exists, what it contains and what the library makes of it are fields of
 `Site`, and so is the homepage body, which is a fixed text.
 */
module Batch {
  import opened Nav
  import opened Titles
  import opened FileNames
  import opened Page
  import opened Text

  /** The configured Markdown files, in processing order. */
  const MdFiles: seq<string> :=
    ["README.md", "ARCHITECTURE.md", "CI-CD-SETUP.md", "TEST-RESULTS.md", "zero-trust-cli-guide.md"]

  const IndexName: string := "index.html"
  const IndexTitle: string := "Documentation Hub"

  /** What the run reads from outside: file existence, file text, the Markdown converter, the homepage body. */
  datatype Site = Site(
    present: string -> bool,
    read: string -> string,
    convert: string -> string,
    indexContent: string)

  /** One step of the run: a page written to `output`, or a warning that `source` is missing. */
  datatype Event = Generated(output: string, doc: Document) | Skipped(source: string)

  /** The result of a run: its events in order and the file list of the final summary. */
  datatype Outcome = Outcome(events: seq<Event>, summary: seq<string>)

  /**
   The document made from a Markdown file: the title derived from the file
   stem, the navigation flags selected by `activePage`, and the converted text.
   */
  function ConvertDocument(name: string, source: string, activePage: string, convert: string -> string): (d: Document)
    ensures d.content == convert(source)
    ensures |d.title| == |Stem(name)| && '-' !in d.title && TitleShaped(d.title)
    ensures forall i :: 0 <= i < |Stem(name)| ==> ToLower(d.title[i]) == ToLower(Undash(Stem(name)[i]))
    ensures WellFormed(d.nav)
    ensures forall s: Slot :: IsActive(d.nav, s) <==> PageId(s) == activePage
  {
    Document(DeriveTitle(Stem(name)), NavActive(activePage), convert(source))
  }

  /** The homepage document: fixed title, fixed body, only the Home entry active. */
  function IndexDocument(site: Site): (d: Document)
    ensures d.title == IndexTitle
    ensures d.content == site.indexContent
    ensures ActiveEntries(d.nav) == [Home]
    ensures forall s: Slot :: s != Home ==> Get(d.nav, s) == ""
  {
    HomeNavIsIndexSelection();
    Document(IndexTitle, HomeNav(), site.indexContent)
  }

  /**
   The event for one configured file. A present file is converted with its
   own stem as the page identifier, so its page is titled from that stem and
   marks exactly the entry that compares against it.
   */
  function FileEvent(name: string, site: Site): (e: Event)
    ensures e.Generated? <==> site.present(name)
    ensures e.Skipped? ==> e.source == name
    ensures e.Generated? ==> e.output == OutputName(name) && e.doc.content == site.convert(site.read(name))
    ensures e.Generated? ==> WellFormed(e.doc.nav)
    ensures e.Generated? ==> forall s: Slot :: IsActive(e.doc.nav, s) <==> PageId(s) == Stem(name)
    ensures e.Generated? ==> |e.doc.title| == |Stem(name)| && TitleShaped(e.doc.title)
    ensures e.Generated? ==>
      forall i :: 0 <= i < |Stem(name)| ==> ToLower(e.doc.title[i]) == ToLower(Undash(Stem(name)[i]))
  {
    if site.present(name) then
      Generated(OutputName(name), ConvertDocument(name, site.read(name), Stem(name), site.convert))
    else
      Skipped(name)
  }

  /** The events for a list of files: one per file, in list order. */
  function PlanFiles(files: seq<string>, site: Site): (r: seq<Event>)
    ensures |r| == |files|
    ensures forall i :: 0 <= i < |files| ==> r[i] == FileEvent(files[i], site)
  {
    if files == [] then [] else [FileEvent(files[0], site)] + PlanFiles(files[1..], site)
  }

  /** The summary list: the homepage, then the output name of every file, generated or not. */
  function SummaryNames(files: seq<string>): (r: seq<string>)
    ensures |r| == |files| + 1
    ensures r[0] == IndexName
    ensures forall i :: 0 <= i < |files| ==> r[i + 1] == OutputName(files[i])
  {
    [IndexName] + OutputNames(files)
  }

  /** The output name of every file, in order. */
  function OutputNames(files: seq<string>): (r: seq<string>)
    ensures |r| == |files|
    ensures forall i :: 0 <= i < |files| ==> r[i] == OutputName(files[i])
  {
    if files == [] then [] else [OutputName(files[0])] + OutputNames(files[1..])
  }

  /**
   A run over the file list `files`; the program runs it over `MdFiles`.
   The homepage comes first whatever exists, then one event per file in
   order, and the summary names every file whether it was generated or not.
   */
  function Run(files: seq<string>, site: Site): (o: Outcome)
    ensures |o.events| == |files| + 1
    ensures o.events[0] == Generated(IndexName, IndexDocument(site))
    ensures forall i :: 0 <= i < |files| ==> o.events[i + 1] == FileEvent(files[i], site)
    ensures |o.summary| == |files| + 1 && o.summary[0] == IndexName
    ensures forall i :: 0 <= i < |files| ==> o.summary[i + 1] == OutputName(files[i])
  {
    var plan := PlanFiles(files, site);
    var events := [Generated(IndexName, IndexDocument(site))] + plan;
    assert forall i :: 0 <= i < |files| ==> events[i + 1] == plan[i];
    Outcome(events, SummaryNames(files))
  }

  /**
   A missing file never stops the run: the events of a list are the events
   of its first part followed by the events of the rest, whatever happened
   in the first part.
   */
  lemma {:induction false} PlanAppend(a: seq<string>, b: seq<string>, site: Site)
    ensures PlanFiles(a + b, site) == PlanFiles(a, site) + PlanFiles(b, site)
  {
    if a == [] {
      assert a + b == b;
    } else {
      assert (a + b)[0] == a[0];
      assert (a + b)[1..] == a[1..] + b;
      PlanAppend(a[1..], b, site);
    }
  }

  /** Whether one file is missing changes only that file's event. */
  lemma MissingFileIsLocal(files: seq<string>, site: Site, name: string)
    ensures var site' := site.(present := (f: string) => f != name && site.present(f));
      forall i :: 0 <= i < |files| && files[i] != name ==>
        PlanFiles(files, site')[i] == PlanFiles(files, site)[i]
  {
  }

  /** With no file present the run still writes the homepage and warns once per file, in order. */
  lemma NothingPresent(files: seq<string>, site: Site)
    requires forall f :: !site.present(f)
    ensures Run(files, site).events[0].Generated?
    ensures forall i :: 1 <= i < |Run(files, site).events| ==> Run(files, site).events[i] == Skipped(files[i - 1])
  {
  }

  /** The summary does not depend on which files exist. */
  lemma SummaryIgnoresPresence(files: seq<string>, site1: Site, site2: Site)
    ensures Run(files, site1).summary == Run(files, site2).summary
  {
  }

  /** Every page the run writes is listed in the summary, at the same position. */
  lemma GeneratedAreSummarised(files: seq<string>, site: Site)
    ensures forall n :: 0 <= n < |Run(files, site).events| && Run(files, site).events[n].Generated? ==>
      Run(files, site).summary[n] == Run(files, site).events[n].output
    ensures forall e :: e in Run(files, site).events && e.Generated? ==> e.output in Run(files, site).summary
  {
    var o := Run(files, site);
    forall n | 0 <= n < |o.events| && o.events[n].Generated? ensures o.summary[n] == o.events[n].output {
      if n > 0 {
        assert o.events[n] == FileEvent(files[n - 1], site);
      }
    }
    forall e | e in o.events && e.Generated? ensures e.output in o.summary {
      var n :| 0 <= n < |o.events| && o.events[n] == e;
      assert o.summary[n] == e.output;
    }
  }

  /** A name with no `.` has no `.md` inside it. */
  lemma DotFreeIsMdFree(stem: string)
    requires '.' !in stem
    ensures Free(stem, MdSuffix)
  {
    forall i | 0 <= i < |stem| ensures !OccursAt(stem, MdSuffix, i) {
      if i + 3 <= |stem| {
        assert stem[i..i + 3][0] == stem[i];
      }
    }
  }

  /** A configured name is a dot-free stem followed by `.md`; its output name is the stem followed by `.html`. */
  lemma ConfiguredName(stem: string)
    requires |stem| > 0 && '.' !in stem
    ensures Stem(stem + MdSuffix) == stem
    ensures OutputName(stem + MdSuffix) == stem + HtmlSuffix
  {
    DotFreeIsMdFree(stem);
    StemOfMdFile(stem);
    OutputNameOfMdFile(stem);
  }

  /** The stem of `stem.md` selects entry `k`, whose link is the output name of `stem.md`. */
  lemma ConfiguredEntry(stem: string, k: Slot)
    requires |stem| > 0 && '.' !in stem
    requires PageId(k) == stem && Href(k) == stem + HtmlSuffix
    ensures Stem(stem + MdSuffix) in KnownPages
    ensures SlotOf(Stem(stem + MdSuffix)) == k
    ensures Href(k) == OutputName(stem + MdSuffix)
  {
    ConfiguredName(stem);
    KnownPagesArePageIds(stem);
    PageIdInjective(SlotOf(stem), k);
  }

  /**
   The identifier passed for each configured file selects the navigation
   entry that links to that file's own output, and that entry is not Home.
   */
  lemma ConfiguredFileSelectsOwnEntry(f: string)
    requires f in MdFiles
    ensures Stem(f) in KnownPages
    ensures Href(SlotOf(Stem(f))) == OutputName(f)
    ensures SlotOf(Stem(f)) != Home
  {
    if f == "README.md" {
      assert f == "README" + MdSuffix;
      ConfiguredEntry("README", Overview);
    } else if f == "ARCHITECTURE.md" {
      assert f == "ARCHITECTURE" + MdSuffix;
      ConfiguredEntry("ARCHITECTURE", Architecture);
    } else if f == "CI-CD-SETUP.md" {
      assert f == "CI-CD-SETUP" + MdSuffix;
      ConfiguredEntry("CI-CD-SETUP", CiCd);
    } else if f == "TEST-RESULTS.md" {
      assert f == "TEST-RESULTS" + MdSuffix;
      ConfiguredEntry("TEST-RESULTS", TestResults);
    } else {
      assert f == "zero-trust-cli-guide" + MdSuffix;
      ConfiguredEntry("zero-trust-cli-guide", CliGuide);
    }
  }

  /** The entries the configured files select, in file order. */
  const ConfiguredSlots: seq<Slot> := [Overview, Architecture, CiCd, TestResults, CliGuide]

  /**
   The configured files are one per navigation link other than Home: file
   `n` selects entry `ConfiguredSlots[n]`.
   */
  lemma MdFilesCoverLinks()
    ensures |MdFiles| == |ConfiguredSlots|
    ensures forall n :: 0 <= n < |MdFiles| ==>
      Stem(MdFiles[n]) in KnownPages && SlotOf(Stem(MdFiles[n])) == ConfiguredSlots[n]
  {
    forall n | 0 <= n < |MdFiles|
      ensures Stem(MdFiles[n]) in KnownPages && SlotOf(Stem(MdFiles[n])) == ConfiguredSlots[n]
    {
      MdFileSelects(n);
    }
  }

  /** The selected entries are the five entries other than Home, each once. */
  lemma ConfiguredSlotsAreNonHome()
    ensures Distinct(ConfiguredSlots)
    ensures forall k: Slot :: k in ConfiguredSlots <==> k != Home
  {
  }

  /** Configured file `n` selects entry `ConfiguredSlots[n]`. */
  lemma MdFileSelects(n: int)
    requires 0 <= n < |MdFiles|
    ensures Stem(MdFiles[n]) in KnownPages && SlotOf(Stem(MdFiles[n])) == ConfiguredSlots[n]
  {
    var stem := if n == 0 then "README"
      else if n == 1 then "ARCHITECTURE"
      else if n == 2 then "CI-CD-SETUP"
      else if n == 3 then "TEST-RESULTS"
      else "zero-trust-cli-guide";
    assert MdFiles[n] == stem + MdSuffix;
    ConfiguredEntry(stem, ConfiguredSlots[n]);
  }

  /**
   Every page of a run marks exactly one navigation entry active: the entry
   whose link is the page's own output file. Event 0 is the homepage, event
   `n` the page of configured file `n - 1` when that file exists.
   */
  lemma GeneratedPagesMarkThemselves(site: Site, n: int) returns (k: Slot)
    requires 0 <= n <= |MdFiles|
    requires n == 0 || site.present(MdFiles[n - 1])
    ensures Run(MdFiles, site).events[n].Generated?
    ensures ActiveEntries(Run(MdFiles, site).events[n].doc.nav) == [k]
    ensures forall s: Slot :: s != k ==> Get(Run(MdFiles, site).events[n].doc.nav, s) == ""
    ensures Href(k) == Run(MdFiles, site).events[n].output
  {
    if n == 0 {
      k := Home;
    } else {
      var f := MdFiles[n - 1];
      ConfiguredFileSelectsOwnEntry(f);
      ExactlyOneActive(Stem(f));
      k := SlotOf(Stem(f));
    }
  }

  /** The active link with its mark appears in every page the run writes. */
  lemma RenderedPagesMarkThemselves(site: Site, chrome: Chrome -> string, n: int) returns (k: Slot, i: int)
    requires 0 <= n <= |MdFiles|
    requires n == 0 || site.present(MdFiles[n - 1])
    ensures Run(MdFiles, site).events[n].Generated?
    ensures Href(k) == Run(MdFiles, site).events[n].output
    ensures OccursAt(Render(Run(MdFiles, site).events[n].doc, chrome), EntryOpen(k) + ActiveMark + EntryClose(k), i)
  {
    k := GeneratedPagesMarkThemselves(site, n);
    var d := Run(MdFiles, site).events[n].doc;
    i := RenderShowsEntry(d, chrome, k);
    assert IsActive(d.nav, k);
  }

  /** A page converted with the default identifier `''` marks no entry. */
  lemma DefaultIdentifierMarksNothing(name: string, source: string, convert: string -> string)
    ensures ActiveEntries(ConvertDocument(name, source, "", convert).nav) == []
  {
    UnknownActivatesNothing("");
  }
}
