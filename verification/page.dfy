/**
 The page template, read as a fixed sequence of pieces: literal markup, and
 holes that receive the title, the six navigation flags and the converted
 content. Substituting a document into the template concatenates the pieces
 with every hole replaced by its value.

 The long literal blocks (the head and style sheet, the banner, the footer)
 are named here but their text is supplied by the caller as `chrome`; the
 navigation links between the flag holes are written out.
 */
module Page {
  import opened Nav
  import opened Text

  /** The literal blocks of the template whose text is not spelled out. */
  datatype Chrome =
    | DocumentHead  // from the doctype to the opening of the title element
    | AfterTitle    // the title suffix, the style sheet, the banner, the opening of the navigation list
    | NavToMain     // the closing of the navigation list and the opening of the main region
    | PageEnd       // the closing of the main region, the footer and the end of the document

  /** The substitution points of the template. */
  datatype Hole = TitleHole | FlagHole(slot: Slot) | ContentHole

  datatype Piece = Block(block: Chrome) | Literal(text: string) | Gap(hole: Hole)

  /** The values substituted into a page: title, navigation flags and content. */
  datatype Document = Document(title: string, nav: NavFlags, content: string)

  /** The markup of a navigation link before its flag. */
  function EntryOpen(s: Slot): string
  {
    "                <li><a href=\"" + Href(s) + "\" "
  }

  /** The markup of a navigation link after its flag. */
  function EntryClose(s: Slot): string
  {
    ">" + Label(s) + "</a></li>\n"
  }

  /** The pieces of one navigation link: its opening markup, its flag hole, its closing markup. */
  function NavEntryPieces(s: Slot): seq<Piece>
  {
    [Literal(EntryOpen(s)), Gap(FlagHole(s)), Literal(EntryClose(s))]
  }

  /** The pieces of the navigation links, in the given order. */
  function NavPieces(slots: seq<Slot>): seq<Piece>
  {
    if slots == [] then []
    else NavEntryPieces(slots[0]) + NavPieces(slots[1..])
  }

  /** The page template. */
  const Template: seq<Piece> :=
    [Block(DocumentHead), Gap(TitleHole), Block(AfterTitle)]
    + NavPieces(NavOrder)
    + [Block(NavToMain), Gap(ContentHole), Block(PageEnd)]

  /** The holes of a piece sequence, in order. */
  function Holes(ps: seq<Piece>): (r: seq<Hole>)
    ensures |r| <= |ps|
  {
    if ps == [] then []
    else (if ps[0].Gap? then [ps[0].hole] else []) + Holes(ps[1..])
  }

  function FlagHoles(slots: seq<Slot>): seq<Hole>
  {
    if slots == [] then [] else [FlagHole(slots[0])] + FlagHoles(slots[1..])
  }

  /** The value a hole receives from a document. */
  function HoleValue(h: Hole, d: Document): string
  {
    match h
    case TitleHole => d.title
    case FlagHole(s) => Get(d.nav, s)
    case ContentHole => d.content
  }

  function Fill(p: Piece, d: Document, chrome: Chrome -> string): string
  {
    match p
    case Block(b) => chrome(b)
    case Literal(t) => t
    case Gap(h) => HoleValue(h, d)
  }

  /** The pieces, filled and concatenated. */
  function RenderPieces(ps: seq<Piece>, d: Document, chrome: Chrome -> string): string
  {
    if ps == [] then "" else Fill(ps[0], d, chrome) + RenderPieces(ps[1..], d, chrome)
  }

  /**
   A complete page: the template with the document substituted. Every page
   is the head, the title, the banner, the navigation links with their flags
   in the fixed order, the content and the footer.
   */
  function Render(d: Document, chrome: Chrome -> string): (r: string)
    ensures r ==
      chrome(DocumentHead) + d.title + chrome(AfterTitle)
      + NavBar(d.nav, NavOrder)
      + chrome(NavToMain) + d.content + chrome(PageEnd)
  {
    TemplateLayout(d, chrome);
    RenderPieces(Template, d, chrome)
  }

  /** One navigation link with its flag. */
  function Entry(f: NavFlags, s: Slot): string
  {
    EntryOpen(s) + Get(f, s) + EntryClose(s)
  }

  /** The navigation links, in the given order. */
  function NavBar(f: NavFlags, slots: seq<Slot>): string
  {
    if slots == [] then "" else Entry(f, slots[0]) + NavBar(f, slots[1..])
  }

  lemma {:induction false} HolesAppend(a: seq<Piece>, b: seq<Piece>)
    ensures Holes(a + b) == Holes(a) + Holes(b)
  {
    if a != [] {
      assert (a + b)[0] == a[0];
      assert (a + b)[1..] == a[1..] + b;
      HolesAppend(a[1..], b);
    } else {
      assert a + b == b;
    }
  }

  lemma {:induction false} RenderAppend(a: seq<Piece>, b: seq<Piece>, d: Document, chrome: Chrome -> string)
    ensures RenderPieces(a + b, d, chrome) == RenderPieces(a, d, chrome) + RenderPieces(b, d, chrome)
  {
    if a != [] {
      assert (a + b)[0] == a[0];
      assert (a + b)[1..] == a[1..] + b;
      RenderAppend(a[1..], b, d, chrome);
    } else {
      assert a + b == b;
    }
  }

  lemma RenderThree(p: Piece, q: Piece, u: Piece, d: Document, chrome: Chrome -> string)
    ensures RenderPieces([p, q, u], d, chrome) == Fill(p, d, chrome) + Fill(q, d, chrome) + Fill(u, d, chrome)
  {
    assert [p, q, u][1..] == [q, u];
    assert [q, u][1..] == [u];
    assert [u][1..] == [];
    assert RenderPieces([u], d, chrome) == Fill(u, d, chrome) + "";
    assert Fill(u, d, chrome) + "" == Fill(u, d, chrome);
  }

  lemma {:induction false} NavPiecesHoles(slots: seq<Slot>)
    ensures Holes(NavPieces(slots)) == FlagHoles(slots)
  {
    if slots != [] {
      var head := NavEntryPieces(slots[0]);
      HolesAppend(head, NavPieces(slots[1..]));
      NavPiecesHoles(slots[1..]);
      assert Holes(head) == [FlagHole(slots[0])] by {
        assert head[1..][1..] == [head[2]];
      }
    }
  }

  lemma {:induction false} NavPiecesRender(slots: seq<Slot>, d: Document, chrome: Chrome -> string)
    ensures RenderPieces(NavPieces(slots), d, chrome) == NavBar(d.nav, slots)
  {
    if slots != [] {
      var s := slots[0];
      var head := NavEntryPieces(s);
      RenderAppend(head, NavPieces(slots[1..]), d, chrome);
      NavPiecesRender(slots[1..], d, chrome);
      RenderThree(Literal(EntryOpen(s)), Gap(FlagHole(s)), Literal(EntryClose(s)), d, chrome);
    }
  }

  /**
   The template holds exactly the placeholders the substitution supplies:
   the title first, then one flag per navigation entry in the fixed order,
   then the content, each once.
   */
  lemma TemplateHoles()
    ensures Holes(Template) == [TitleHole] + FlagHoles(NavOrder) + [ContentHole]
    ensures |Holes(Template)| == 8
  {
    var head := [Block(DocumentHead), Gap(TitleHole), Block(AfterTitle)];
    var tail := [Block(NavToMain), Gap(ContentHole), Block(PageEnd)];
    HolesAppend(head + NavPieces(NavOrder), tail);
    HolesAppend(head, NavPieces(NavOrder));
    NavPiecesHoles(NavOrder);
    HolesBetweenBlocks(DocumentHead, TitleHole, AfterTitle);
    HolesBetweenBlocks(NavToMain, ContentHole, PageEnd);
    FlagHolesLength(NavOrder);
  }

  /** A hole between two blocks is the only hole of the three pieces. */
  lemma HolesBetweenBlocks(a: Chrome, h: Hole, b: Chrome)
    ensures Holes([Block(a), Gap(h), Block(b)]) == [h]
  {
    var ps := [Block(a), Gap(h), Block(b)];
    assert ps[1..] == [Gap(h), Block(b)];
    assert ps[1..][1..] == [Block(b)];
    assert Holes([Block(b)]) == [];
  }

  lemma {:induction false} FlagHolesLength(slots: seq<Slot>)
    ensures |FlagHoles(slots)| == |slots|
  {
    if slots != [] {
      FlagHolesLength(slots[1..]);
    }
  }

  /** Substituting into the template piece by piece gives the page layout. */
  lemma TemplateLayout(d: Document, chrome: Chrome -> string)
    ensures RenderPieces(Template, d, chrome) ==
      chrome(DocumentHead) + d.title + chrome(AfterTitle)
      + NavBar(d.nav, NavOrder)
      + chrome(NavToMain) + d.content + chrome(PageEnd)
  {
    var head := [Block(DocumentHead), Gap(TitleHole), Block(AfterTitle)];
    var tail := [Block(NavToMain), Gap(ContentHole), Block(PageEnd)];
    RenderAppend(head + NavPieces(NavOrder), tail, d, chrome);
    RenderAppend(head, NavPieces(NavOrder), d, chrome);
    NavPiecesRender(NavOrder, d, chrome);
    RenderThree(Block(DocumentHead), Gap(TitleHole), Block(AfterTitle), d, chrome);
    RenderThree(Block(NavToMain), Gap(ContentHole), Block(PageEnd), d, chrome);
  }

  lemma OccursInMiddle(a: string, t: string, b: string)
    ensures OccursAt(a + t + b, t, |a|)
  {
    assert (a + t + b)[|a|..|a| + |t|] == t;
  }

  /** An occurrence stays an occurrence when text is added around it. */
  lemma OccursWithin(a: string, s: string, b: string, t: string, i: int)
    requires OccursAt(s, t, i)
    ensures OccursAt(a + s + b, t, |a| + i)
  {
    assert (a + s + b)[|a| + i..|a| + i + |t|] == s[i..i + |t|];
  }

  /** A string that is one of the parts of a concatenation occurs in it. */
  lemma {:induction false} PartOccurs(parts: seq<string>, k: int) returns (i: int)
    requires 0 <= k < |parts|
    ensures OccursAt(Join(parts), parts[k], i)
  {
    var rest := Join(parts[1..]);
    assert Join(parts) == [] + parts[0] + rest;
    if k == 0 {
      OccursInMiddle([], parts[0], rest);
      i := 0;
    } else {
      var j := PartOccurs(parts[1..], k - 1);
      OccursWithin(parts[0], rest, [], parts[k], j);
      assert parts[0] + rest + [] == Join(parts);
      i := |parts[0]| + j;
    }
  }

  function Join(parts: seq<string>): string
  {
    if parts == [] then "" else parts[0] + Join(parts[1..])
  }

  function Entries(f: NavFlags, slots: seq<Slot>): (r: seq<string>)
    ensures |r| == |slots|
    ensures forall k :: 0 <= k < |slots| ==> r[k] == Entry(f, slots[k])
  {
    if slots == [] then [] else [Entry(f, slots[0])] + Entries(f, slots[1..])
  }

  lemma {:induction false} NavBarJoinsEntries(f: NavFlags, slots: seq<Slot>)
    ensures NavBar(f, slots) == Join(Entries(f, slots))
  {
    if slots != [] {
      NavBarJoinsEntries(f, slots[1..]);
      assert Entries(f, slots)[1..] == Entries(f, slots[1..]);
    }
  }

  /** Every listed navigation link appears, with its flag, in the navigation bar; `i` is where. */
  lemma NavBarShowsEntry(f: NavFlags, slots: seq<Slot>, k: int) returns (i: int)
    requires 0 <= k < |slots|
    ensures OccursAt(NavBar(f, slots), Entry(f, slots[k]), i)
  {
    NavBarJoinsEntries(f, slots);
    i := PartOccurs(Entries(f, slots), k);
  }

  /** The index of an entry in the fixed navigation order. */
  function SlotIndex(s: Slot): (k: int)
    ensures 0 <= k < |NavOrder| && NavOrder[k] == s
  {
    match s
    case Home => 0
    case Overview => 1
    case Architecture => 2
    case CliGuide => 3
    case CiCd => 4
    case TestResults => 5
  }

  lemma BarWithin(pre: string, f: NavFlags, slots: seq<Slot>, post: string, k: int) returns (i: int)
    requires 0 <= k < |slots|
    ensures OccursAt(pre + NavBar(f, slots) + post, Entry(f, slots[k]), i)
  {
    var j := NavBarShowsEntry(f, slots, k);
    OccursWithin(pre, NavBar(f, slots), post, Entry(f, slots[k]), j);
    i := |pre| + j;
  }

  /**
   Every page shows every navigation link, each followed by the flag the
   document gives it; `i` is where.
   */
  lemma RenderShowsEntry(d: Document, chrome: Chrome -> string, s: Slot) returns (i: int)
    ensures OccursAt(Render(d, chrome), Entry(d.nav, s), i)
  {
    var pre := chrome(DocumentHead) + d.title + chrome(AfterTitle);
    var post := chrome(NavToMain) + d.content + chrome(PageEnd);
    assert Render(d, chrome) == pre + NavBar(d.nav, NavOrder) + post;
    i := BarWithin(pre, d.nav, NavOrder, post, SlotIndex(s));
  }

  /** Every page carries its content verbatim, after the navigation bar. */
  lemma RenderShowsContent(d: Document, chrome: Chrome -> string) returns (i: int)
    ensures OccursAt(Render(d, chrome), d.content, i)
    ensures i == |chrome(DocumentHead) + d.title + chrome(AfterTitle) + NavBar(d.nav, NavOrder) + chrome(NavToMain)|
  {
    var pre := chrome(DocumentHead) + d.title + chrome(AfterTitle) + NavBar(d.nav, NavOrder) + chrome(NavToMain);
    OccursInMiddle(pre, d.content, chrome(PageEnd));
    i := |pre|;
  }
}
