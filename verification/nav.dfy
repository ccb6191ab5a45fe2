/**
 Navigation flags of the documentation site.

 Every page carries a navigation bar of six links in a fixed order. For each
 link the page composer receives a flag that is either the attribute text
 `class="active"` or the empty string; the flag decides whether the link is
 drawn as the current page.
 */
module Nav {

  /** The six navigation entries, named after the pages they link to. */
  datatype Slot = Home | Overview | Architecture | CliGuide | CiCd | TestResults

  /** The entries in the order the template draws them. */
  const NavOrder: seq<Slot> := [Home, Overview, Architecture, CliGuide, CiCd, TestResults]

  /** The attribute text that marks a link as the current page. */
  const ActiveMark: string := "class=\"active\""

  /** The page identifier compared against `active_page` for each entry. */
  function PageId(s: Slot): string
  {
    match s
    case Home => "index"
    case Overview => "README"
    case Architecture => "ARCHITECTURE"
    case CliGuide => "zero-trust-cli-guide"
    case CiCd => "CI-CD-SETUP"
    case TestResults => "TEST-RESULTS"
  }

  /** The file each entry links to. */
  function Href(s: Slot): string
  {
    match s
    case Home => "index.html"
    case Overview => "README.html"
    case Architecture => "ARCHITECTURE.html"
    case CliGuide => "zero-trust-cli-guide.html"
    case CiCd => "CI-CD-SETUP.html"
    case TestResults => "TEST-RESULTS.html"
  }

  /** The link text of each entry. */
  function Label(s: Slot): string
  {
    match s
    case Home => "Home"
    case Overview => "Overview"
    case Architecture => "Architecture"
    case CliGuide => "CLI Guide"
    case CiCd => "CI/CD Setup"
    case TestResults => "Test Results"
  }

  /** The identifiers that select some entry. */
  const KnownPages: set<string> := set s | s in NavOrder :: PageId(s)

  /** The six substitution values, one per `*_active` placeholder. */
  datatype NavFlags = NavFlags(
    indexActive: string,
    readmeActive: string,
    archActive: string,
    cliActive: string,
    cicdActive: string,
    testActive: string)

  /** The flag substituted into the placeholder of entry `s`. */
  function Get(f: NavFlags, s: Slot): string
  {
    match s
    case Home => f.indexActive
    case Overview => f.readmeActive
    case Architecture => f.archActive
    case CliGuide => f.cliActive
    case CiCd => f.cicdActive
    case TestResults => f.testActive
  }

  predicate IsActive(f: NavFlags, s: Slot)
  {
    Get(f, s) == ActiveMark
  }

  /** Every flag is either the mark or empty. */
  predicate WellFormed(f: NavFlags)
  {
    forall s: Slot :: Get(f, s) == ActiveMark || Get(f, s) == ""
  }

  /** The entries drawn as active, in template order. */
  function ActiveEntries(f: NavFlags): (r: seq<Slot>)
    ensures forall s :: s in r <==> IsActive(f, s)
  {
    Filter(NavOrder, f)
  }

  function Filter(slots: seq<Slot>, f: NavFlags): (r: seq<Slot>)
    ensures forall s :: s in r <==> s in slots && IsActive(f, s)
  {
    if slots == [] then []
    else (if IsActive(f, slots[0]) then [slots[0]] else []) + Filter(slots[1..], f)
  }

  predicate Distinct(slots: seq<Slot>)
  {
    forall i, j :: 0 <= i < j < |slots| ==> slots[i] != slots[j]
  }

  /** Filtering a repetition-free list in which only `k` is active leaves `[k]`. */
  lemma {:induction false} FilterSingle(slots: seq<Slot>, f: NavFlags, k: Slot)
    requires Distinct(slots)
    requires k in slots
    requires forall s :: s in slots ==> (IsActive(f, s) <==> s == k)
    ensures Filter(slots, f) == [k]
  {
    if slots[0] == k {
      assert forall s :: s in slots[1..] ==> s != k by {
        forall s | s in slots[1..] ensures s != k {
          var i :| 0 <= i < |slots[1..]| && slots[1..][i] == s;
          assert slots[i + 1] == s;
        }
      }
      FilterNone(slots[1..], f);
    } else {
      assert Distinct(slots[1..]) by {
        forall i, j | 0 <= i < j < |slots[1..]| ensures slots[1..][i] != slots[1..][j] {
          assert slots[1..][i] == slots[i + 1] && slots[1..][j] == slots[j + 1];
        }
      }
      FilterSingle(slots[1..], f, k);
    }
  }

  /** Filtering a list with no active entry leaves nothing. */
  lemma {:induction false} FilterNone(slots: seq<Slot>, f: NavFlags)
    requires forall s :: s in slots ==> !IsActive(f, s)
    ensures Filter(slots, f) == []
  {
    if slots != [] {
      FilterNone(slots[1..], f);
    }
  }

  /** Every entry occurs in the navigation bar exactly once. */
  lemma NavOrderCoversEachSlotOnce(s: Slot)
    ensures s in NavOrder
    ensures |NavOrder| == 6
    ensures Distinct(NavOrder)
  {
  }

  /** Distinct entries answer to distinct page identifiers. */
  lemma PageIdInjective(s: Slot, t: Slot)
    ensures PageId(s) == PageId(t) <==> s == t
  {
  }

  /** The known identifiers are exactly the identifiers of the six entries. */
  lemma KnownPagesArePageIds(p: string)
    ensures p in KnownPages <==> exists s: Slot :: PageId(s) == p
  {
    if exists s: Slot :: PageId(s) == p {
      var s: Slot :| PageId(s) == p;
      NavOrderCoversEachSlotOnce(s);
    }
  }

  /** The entry an identifier selects. */
  function SlotOf(p: string): (s: Slot)
    requires p in KnownPages
    ensures PageId(s) == p
  {
    if p == "index" then Home
    else if p == "README" then Overview
    else if p == "ARCHITECTURE" then Architecture
    else if p == "zero-trust-cli-guide" then CliGuide
    else if p == "CI-CD-SETUP" then CiCd
    else TestResults
  }

  /**
   The flag map a converted page receives: the entry whose identifier equals
   `activePage` carries the mark, every other entry is empty.
   */
  function NavActive(activePage: string): (r: NavFlags)
    ensures WellFormed(r)
    ensures forall s: Slot :: IsActive(r, s) <==> PageId(s) == activePage
  {
    NavFlags(
      if activePage == "index" then ActiveMark else "",
      if activePage == "README" then ActiveMark else "",
      if activePage == "ARCHITECTURE" then ActiveMark else "",
      if activePage == "zero-trust-cli-guide" then ActiveMark else "",
      if activePage == "CI-CD-SETUP" then ActiveMark else "",
      if activePage == "TEST-RESULTS" then ActiveMark else "")
  }

  /** The hard-coded flag map of the homepage. */
  function HomeNav(): (r: NavFlags)
    ensures WellFormed(r)
    ensures IsActive(r, Home)
    ensures forall s: Slot :: s != Home ==> Get(r, s) == ""
  {
    NavFlags(ActiveMark, "", "", "", "", "")
  }

  /** A known identifier activates exactly one entry: its own. */
  lemma ExactlyOneActive(activePage: string)
    requires activePage in KnownPages
    ensures ActiveEntries(NavActive(activePage)) == [SlotOf(activePage)]
    ensures forall s: Slot :: s != SlotOf(activePage) ==> Get(NavActive(activePage), s) == ""
  {
    var f := NavActive(activePage);
    var k := SlotOf(activePage);
    forall s: Slot ensures IsActive(f, s) <==> s == k {
      PageIdInjective(s, k);
    }
    NavOrderCoversEachSlotOnce(k);
    FilterSingle(NavOrder, f, k);
  }

  /** Any other identifier, the default `''` among them, activates nothing. */
  lemma UnknownActivatesNothing(activePage: string)
    requires activePage !in KnownPages
    ensures ActiveEntries(NavActive(activePage)) == []
    ensures forall s: Slot :: Get(NavActive(activePage), s) == ""
  {
    KnownPagesArePageIds(activePage);
    FilterNone(NavOrder, NavActive(activePage));
  }

  /** The homepage map is the map a page with identifier `index` would get. */
  lemma HomeNavIsIndexSelection()
    ensures HomeNav() == NavActive("index")
    ensures ActiveEntries(HomeNav()) == [Home]
  {
    ExactlyOneActive("index");
  }
}
