# Documentation generator: navigation, names and batch plan

This project models the pure core of `generate_html.py`, the script that
turns the project's Markdown documents into HTML pages. The model covers
the following parts:

- **Navigation flags** (`Nav`). A page identifier selects which of the six
  navigation links carries `class="active"`. Converted pages get their flags
  from a comparison per entry. The homepage uses a hard-coded map.
- **Titles** (`Titles`). A file stem becomes a display title: `-` becomes a
  space, then Python's `str.title` is applied.
- **File names** (`FileNames`, `Text`). These are `pathlib`'s stem rule and
  Python's left-to-right, non-overlapping `str.replace`, which turns
  `name.md` into `name.html`.
- **Page composition** (`Page`). The template is a fixed sequence of pieces:
  literal markup blocks, the six navigation links, and holes for the title,
  the six flags and the content.
- **The batch run** (`Batch`). The homepage is always generated first. Then
  each configured file, in order, is either converted or skipped with a
  warning. The closing summary names `index.html` and the output name of
  every configured file.

The file system and the Markdown library are inputs to the model. A `Site`
value says which files exist, what each file contains, what the converter
returns, and what the homepage body is. A run produces a list of events
(`Generated(output, document)` or `Skipped(source)`) and the summary list.
`Page.Render` turns a document into the page text. The long literal blocks
of the template come in as a `chrome` function.

The summary is headed `Generated files:` (generate_html.py:417), but it
lists the output name of every configured file, skipped ones included
(generate_html.py:419-421); `Batch.Run` models that.

## Model

| member | source | states |
|---|---|---|
| `Nav.NavActive` | generate_html.py:348-355 | each flag is the active mark or empty; an entry is active exactly when its page identifier equals `active_page` |
| `Nav.HomeNav` | generate_html.py:373-380 | the homepage map marks Home active and leaves the other five flags empty |
| `Nav.ExactlyOneActive` | generate_html.py:348-355 | for each of the six known identifiers, the active entries are exactly `[SlotOf(p)]` and every other flag is empty |
| `Nav.UnknownActivatesNothing` | generate_html.py:334-355 | any other identifier, including the default `''`, leaves all six flags empty |
| `Nav.HomeNavIsIndexSelection` | generate_html.py:373-380 | the hard-coded homepage map equals the map selected by identifier `index`, and only Home is active |
| `Nav.FilterSingle` | generate_html.py:348-355 | in a repetition-free entry list where only `k` is active, the active entries are exactly `[k]` |
| `Nav.NavOrderCoversEachSlotOnce` | generate_html.py:241-246 | the navigation order lists all six entries, each exactly once |
| `Nav.PageIdInjective` | generate_html.py:348-355 | different entries compare against different identifiers |
| `Nav.KnownPagesArePageIds` | generate_html.py:348-355 | an identifier is among the six known ones exactly when some entry compares against it |
| `Titles.TitleScan` | generate_html.py:345 | the left-to-right `str.title` scan keeps the length and decides each character from the character before it |
| `Titles.TitleCase` | generate_html.py:345 | each letter is upper-cased when the character before it is not a letter and lower-cased otherwise; other characters are copied |
| `Titles.TitleCaseKeepsLetters` | generate_html.py:345 | title-casing keeps each letter at its place, changing only its case, and copies every other character |
| `Titles.TitleCaseIsShaped` | generate_html.py:345 | after title-casing, every run of letters starts upper-case and continues lower-case |
| `Titles.TitleCaseFixedPoints` | generate_html.py:345 | title-casing leaves a string unchanged exactly when the string is already title-shaped |
| `Titles.TitleCaseIdempotent` | generate_html.py:345 | title-casing twice gives the same result as title-casing once |
| `Titles.DeriveTitle` | generate_html.py:345 | the title has the stem's length, no `-`, a space wherever the stem had `-`, letters where the stem had letters, is title-shaped, and equals the stem with `-` read as a space up to the case of letters |
| `Titles.DeriveTitlePointwise` | generate_html.py:345 | each title character is the `str.title` character of the undashed stem character, given the undashed character before it |
| `Titles.DeriveTitleUnique` | generate_html.py:345 | a title-shaped string of the stem's length that equals the undashed stem up to case is the derived title, so the contract of `DeriveTitle` fixes the title |
| `Titles.DeriveTitleFromPointwise` | generate_html.py:345 | a candidate that matches the pointwise description at every index is the derived title |
| `Titles.TitleOfReadme` | generate_html.py:345 | stem `README` gets title `Readme` |
| `Titles.TitleOfArchitecture` | generate_html.py:345 | stem `ARCHITECTURE` gets title `Architecture` |
| `Titles.TitleOfCiCd` | generate_html.py:345 | stem `CI-CD-SETUP` gets title `Ci Cd Setup` |
| `Titles.TitleOfTestResults` | generate_html.py:345 | stem `TEST-RESULTS` gets title `Test Results` |
| `Titles.TitleOfCliGuide` | generate_html.py:345 | stem `zero-trust-cli-guide` gets title `Zero Trust Cli Guide` |
| `Text.ReplaceAll` | generate_html.py:406 | each replacement changes the length by the difference of replacement and pattern: an equal-length replacement keeps the length, a longer one never shortens the text |
| `Text.ReplaceFree` | generate_html.py:406 | replacement leaves a string that has no occurrence of the pattern unchanged |
| `Text.ReplaceLeftmost` | generate_html.py:406 | when no occurrence starts before a given one, the text before it is copied, that occurrence is replaced, and scanning resumes after it |
| `Text.ReplaceCharPointwise` | generate_html.py:345 | replacing one character by another keeps the length, turns every match into the replacement and keeps every other character |
| `FileNames.LastIndexOf` | generate_html.py:410 | returns -1 exactly when the character is absent, otherwise an index holding it with none after it |
| `FileNames.Stem` | generate_html.py:410 | the stem is a prefix of the name; when shorter it ends just before the last `.`, which is neither first nor last; it is the whole name exactly when the name ends in `.` or has no `.` strictly inside |
| `FileNames.OutputName` | generate_html.py:406 | no `.md` remains in an output name, and the output name is never shorter than the source name |
| `FileNames.NoMdSurvives` | generate_html.py:406 | after replacing `.md` by `.html` no `.md` remains: every occurrence is replaced and none is created |
| `FileNames.OutputNameOfPlainName` | generate_html.py:406 | a name without `.md` is its own output name |
| `FileNames.OutputNameOfMdFile` | generate_html.py:406 | a stem without `.md` followed by `.md` becomes that stem followed by `.html` |
| `FileNames.StemOfMdFile` | generate_html.py:410 | the stem of a non-empty name followed by `.md` is that name |
| `FileNames.OutputNameIsStemHtml` | generate_html.py:406-410 | for such names, the output name is the stem followed by `.html` |
| `Page.TemplateHoles` | generate_html.py:25-251 | the template's holes, in order, are the title, the six flags in navigation order, then the content, each once |
| `Page.NavPiecesHoles` | generate_html.py:241-246 | the navigation pieces hold exactly one flag hole per entry, in order |
| `Page.NavPiecesRender` | generate_html.py:241-246 | filled navigation pieces give each link's markup with its flag, in order |
| `Page.Render` | generate_html.py:20-261 | every page is the head, the title, the banner, the navigation bar in fixed order, the middle block, the content and the footer |
| `Page.TemplateLayout` | generate_html.py:20-261 | substituting a document into the template piece by piece yields that layout |
| `Page.NavBarShowsEntry` | generate_html.py:240-247 | each listed navigation link appears in the bar together with its flag |
| `Page.NavBarJoinsEntries` | generate_html.py:240-247 | the navigation bar is the concatenation of its links |
| `Page.RenderShowsEntry` | generate_html.py:239-248 | every page shows each of the six links followed by the flag its document gives it |
| `Page.RenderShowsContent` | generate_html.py:250-252 | every page carries its content verbatim, right after the head, title, banner, navigation bar and the block that opens the main region |
| `Batch.ConvertDocument` | generate_html.py:334-362 | the converted document carries the converter's output; its title is title-shaped and equals the stem with `-` read as a space up to case; its flags mark exactly the entry named by `active_page` |
| `Batch.IndexDocument` | generate_html.py:371-386 | the homepage document is titled `Documentation Hub`, carries the homepage body, and Home is its only active entry |
| `Batch.FileEvent` | generate_html.py:404-413 | a file yields a generated page exactly when it exists, written to its output name with its converted text, titled from its stem, with well-formed flags that mark exactly the entry its stem names and leave the other five empty; otherwise it yields a warning naming it |
| `Batch.PlanFiles` | generate_html.py:404-413 | one event per file, in file order, each the event of that file alone |
| `Batch.OutputNames` | generate_html.py:419-421 | one output name per file, in file order |
| `Batch.SummaryNames` | generate_html.py:417-421 | the summary is `index.html` followed by the output name of every file, in order |
| `Batch.Run` | generate_html.py:395-421 | the homepage event comes first whatever exists; then comes one event per configured file in order, and the summary lists every file |
| `Batch.PlanAppend` | generate_html.py:404-413 | the events of a list are the events of its first part followed by those of the rest, so an earlier missing file changes nothing later |
| `Batch.MissingFileIsLocal` | generate_html.py:409-413 | a file going missing changes only that file's event |
| `Batch.NothingPresent` | generate_html.py:400-413 | with no file present, the run still writes the homepage and warns once per file, in order |
| `Batch.SummaryIgnoresPresence` | generate_html.py:417-421 | the summary is the same whichever files exist |
| `Batch.GeneratedAreSummarised` | generate_html.py:401-421 | every generated page's output name appears in the summary, at the same position as its event |
| `Batch.MdFilesCoverLinks` | generate_html.py:11-17 | configured file `n` has a known stem that selects entry `ConfiguredSlots[n]`: README, ARCHITECTURE, CI-CD-SETUP, TEST-RESULTS, CLI guide |
| `Batch.MdFileSelects` | generate_html.py:11-17 | the same fact for one configured file |
| `Batch.ConfiguredSlotsAreNonHome` | generate_html.py:241-246 | the entries the configured files select are the five links other than Home, each once |
| `Batch.ConfiguredName` | generate_html.py:11-17 | for a dot-free stem, the stem of `stem.md` is `stem` and the output name is `stem.html` |
| `Batch.ConfiguredEntry` | generate_html.py:404-411 | the stem of such a configured file selects the entry whose link is that file's output name |
| `Batch.ConfiguredFileSelectsOwnEntry` | generate_html.py:404-411 | each configured file's stem is a known identifier; it selects a non-Home entry whose link is the file's own output name |
| `Batch.GeneratedPagesMarkThemselves` | generate_html.py:400-411 | every page of the configured run has exactly one active entry, that entry links to the page's own output file, and every other flag is empty |
| `Batch.RenderedPagesMarkThemselves` | generate_html.py:241-246 | the rendered text of every generated page contains its own link marked `class="active"` |
| `Batch.DefaultIdentifierMarksNothing` | generate_html.py:334-355 | a page converted with the default identifier `''` marks no entry |

## Left out

- Reading and writing files, and resolving names against `BASE_DIR`, are I/O. File existence, file text and the Markdown converter are fields of `Batch.Site`.
- The Markdown library call (with its extension list) is an uninterpreted function `Site.convert`.
- Console output is not modelled as text. The "Generated" and "Warning" lines are the `Generated`/`Skipped` events. The summary is its list of names. The separator lines and closing hint are dropped.
- The literal CSS, banner and footer markup of the template is supplied as the `Page.Chrome` blocks. The homepage body is `Site.indexContent`. Their text, and the `{{`/`}}` brace escapes of `str.format` inside the CSS, are not spelled out.
- `Titles.TitleCase`: treats only ASCII letters as cased. Python would also case-map non-ASCII letters, sometimes changing the length (`ß`). The configured stems are ASCII.
- `FileNames.Stem`: applies the rule to a bare file name. A `pathlib` path first takes the last path component, but the configured names have no directory part.
- `Text.ReplaceAll` requires a non-empty pattern. Python's `str.replace` with an empty pattern inserts between every character, but the program only uses `-` and `.md`.
- Errors other than a missing input file propagate as uncaught exceptions in the program. Examples are write failures and unreadable files. They are not modelled.
