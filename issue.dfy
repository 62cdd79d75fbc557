/**
 * One issue end to end: the values `get_report_data` extracts from the page are the values
 * `populate_report` writes, and the report can only be completed when the page has exactly
 * as many custom-field cells as the table has slots.
 */
module Issue {
  import opened Wrappers
  import opened Text
  import opened Page
  import opened Extract
  import opened Report
  import Http
  import Folder
  import Scraper

  /** A table of the right shape whose entries hold no text yet, as `copy.deepcopy(original_data)` is. */
  ghost predicate FreshTable(s: map<string, Slot>, c: map<int, Slot>)
  {
    && (forall k :: k in s <==> k in ScalarKeys)
    && (forall k :: k in c <==> 0 <= k < CustomSlots)
    && (forall k :: k in s ==> s[k].texts == [])
    && (forall k :: k in c ==> c[k].texts == [])
  }

  /** The table as declared is fresh. */
  lemma OriginalTableFresh()
    ensures FreshTable(OriginalScalars(), OriginalCustom())
  {
    OriginalTableShape();
    OriginalScalarsEmpty();
    OriginalCustomEmpty();
  }

  lemma OriginalScalarsEmpty()
    ensures forall k :: k in OriginalScalars() ==> OriginalScalars()[k].texts == []
  {
  }

  lemma OriginalCustomEmpty()
    ensures forall k :: k in OriginalCustom() ==> OriginalCustom()[k].texts == []
  {
  }

  /** The custom-field entry k of the table sits at row 11 + k of the first column after the labels. */
  lemma OriginalCustomCoordinates(k: int)
    requires 0 <= k < CustomSlots
    ensures k in OriginalCustom() && OriginalCustom()[k].row == 11 + k && OriginalCustom()[k].col == 1
  {
  }

  /** The table addresses rows 1 to 22 and columns 0 to 5: a template table of 23 rows of 6 cells
      holds every cell it names. */
  lemma OriginalTableFits(g: Grid)
    requires |g| >= 23 && forall r :: 0 <= r < |g| ==> |g[r]| >= 6
    ensures Fits(g, OriginalScalars(), OriginalCustom())
  {
    var s := OriginalScalars();
    forall j | 0 <= j < |ScalarKeys|
      ensures ScalarKeys[j] in s && Holds(g, s[ScalarKeys[j]].row, s[ScalarKeys[j]].col)
    {
      OriginalScalarBounds(j);
    }
    forall k | 0 <= k < |CustomFieldKey|
      ensures k in OriginalCustom() && Holds(g, OriginalCustom()[k].row, OriginalCustom()[k].col)
    {
      OriginalCustomCoordinates(k);
    }
  }

  lemma OriginalScalarBounds(j: nat)
    requires j < |ScalarKeys|
    ensures var s := OriginalScalars();
            ScalarKeys[j] in s && 1 <= s[ScalarKeys[j]].row <= 9 && 0 <= s[ScalarKeys[j]].col <= 5
  {
  }

  /** Extraction keeps every coordinate, so a template that holds the table's cells still holds them
      after extraction. */
  lemma ExtractionKeepsFit(g: Grid, s: map<string, Slot>, c: map<int, Slot>, page: seq<Element>)
    requires FreshTable(s, c) && Fits(g, s, c)
    ensures var r := ReportData(s, c, page); Fits(g, r.0, r.1)
  {
    var r := ReportData(s, c, page);
    ReportDataKeepsCoordinates(s, c, page);
    forall j | 0 <= j < |ScalarKeys|
      ensures ScalarKeys[j] in r.0 && Holds(g, r.0[ScalarKeys[j]].row, r.0[ScalarKeys[j]].col)
    {
      assert ScalarKeys[j] in s;
    }
    forall k | 0 <= k < |CustomFieldKey|
      ensures k in r.1 && Holds(g, r.1[k].row, r.1[k].col)
    {
      assert k in c;
    }
  }

  /** After a successful extraction into a fresh table, every scalar entry holds exactly one text. */
  lemma ExtractedScalarsHaveValues(s: map<string, Slot>, c: map<int, Slot>, page: seq<Element>)
    requires FreshTable(s, c)
    requires ReportData(s, c, page).2.None?
    ensures var r := ReportData(s, c, page);
            forall j :: 0 <= j < |ScalarKeys| ==> ScalarKeys[j] in r.0 && |r.0[ScalarKeys[j]].texts| == 1
  {
    var r := ReportData(s, c, page);
    ReportDataKeepsCoordinates(s, c, page);
    forall j | 0 <= j < |ScalarKeys|
      ensures ScalarKeys[j] in r.0 && |r.0[ScalarKeys[j]].texts| == 1
    {
      ReportDataScalar(s, c, page, j);
    }
  }

  /** After a successful extraction into a fresh table, custom entry k holds a text exactly when the
      page has more than k custom-field cells. */
  lemma ExtractedCustomValues(s: map<string, Slot>, c: map<int, Slot>, page: seq<Element>)
    requires FreshTable(s, c)
    requires ReportData(s, c, page).2.None?
    ensures var r := ReportData(s, c, page);
            var tags := FindAll(page, CustomSelector);
            forall k :: 0 <= k < CustomSlots ==>
              k in r.1 && r.1[k].texts == (if k < |tags| then [Strip(tags[k].text)] else [])
  {
    var r := ReportData(s, c, page);
    ReportDataKeepsCoordinates(s, c, page);
    forall k | 0 <= k < CustomSlots
      ensures k in r.1 && r.1[k].texts == (if k < |FindAll(page, CustomSelector)| then [Strip(FindAll(page, CustomSelector)[k].text)] else [])
    {
      ReportDataCustom(s, c, page, k);
    }
  }

  /** The report's writes over a table whose scalar entries all hold a value and whose first `n`
      custom entries, and no others, hold one: they succeed exactly when `n` reaches twelve. */
  lemma WritesNeedEveryCustomValue(g: Grid, s: map<string, Slot>, c: map<int, Slot>, n: int, issueUrl: string)
    requires Formed(g) && Fits(g, s, c)
    requires forall j :: 0 <= j < |ScalarKeys| ==> |s[ScalarKeys[j]].texts| >= 1
    requires forall k :: 0 <= k < CustomSlots ==> (|c[k].texts| >= 1 <==> k < n)
    ensures Populated(g, s, c, issueUrl).1.None? <==> n >= CustomSlots
  {
    assert |CustomFieldKey| == CustomSlots;
    ScalarWritesOutcome(g, s, ScalarKeys, issueUrl);
    var g' := ScalarWrites(g, s, ScalarKeys, issueUrl).0;
    FitsKept(g, g', s, c);
    CustomWritesOutcome(g', c, 0, |CustomFieldKey|);
    if n < CustomSlots {
      var k := if n < 0 then 0 else n;
      assert |c[k].texts| == 0;
    }
  }

  /** Extraction accepts up to twelve custom-field cells, but the report's loop reads all twelve
      entries: after a successful extraction into a fresh table the writes succeed exactly when the
      page has exactly twelve. */
  lemma ReportNeedsTwelveCustomFields(g: Grid, s: map<string, Slot>, c: map<int, Slot>, page: seq<Element>, issueUrl: string)
    requires FreshTable(s, c) && Formed(g) && Fits(g, s, c)
    requires ReportData(s, c, page).2.None?
    ensures var r := ReportData(s, c, page);
            Fits(g, r.0, r.1)
            && (Populated(g, r.0, r.1, issueUrl).1.None? <==> |FindAll(page, CustomSelector)| == CustomSlots)
  {
    var r := ReportData(s, c, page);
    ExtractionKeepsFit(g, s, c, page);
    ExtractedScalarsHaveValues(s, c, page);
    ExtractedCustomValues(s, c, page);
    ReportDataOutcome(s, c, page);
    WritesNeedEveryCustomValue(g, r.0, r.1, |FindAll(page, CustomSelector)|, issueUrl);
  }

  /** The values the report's file name is built from: the category as the page shows it (stripped,
      but neither whitespace-deleted nor cleaned as the folder key is) and the twelfth custom field. `ScalarKeys[2]` is `category`. */
  lemma ReportNameSources(s: map<string, Slot>, c: map<int, Slot>, page: seq<Element>)
    requires FreshTable(s, c)
    requires ReportData(s, c, page).2.None?
    requires |FindAll(page, CustomSelector)| == CustomSlots
    ensures var r := ReportData(s, c, page);
            var category := ScalarKeys[2];
            && LastText(page, category).Some?
            && category in r.0 && r.0[category].texts == [LastText(page, category).value]
            && 11 in r.1 && r.1[11].texts == [Strip(FindAll(page, CustomSelector)[11].text)]
  {
    ReportDataKeepsCoordinates(s, c, page);
    ReportDataScalar(s, c, page, 2);
    ReportDataCustom(s, c, page, 11);
  }

  /** For the table as declared and a template table of at least 23 rows of 6 cells: once an issue
      page has been extracted, its report is completed exactly when the page has twelve custom-field cells. */
  lemma DeclaredTableReport(g: Grid, page: seq<Element>, issueUrl: string)
    requires Formed(g) && |g| >= 23 && forall r :: 0 <= r < |g| ==> |g[r]| >= 6
    requires ReportData(OriginalScalars(), OriginalCustom(), page).2.None?
    ensures var r := ReportData(OriginalScalars(), OriginalCustom(), page);
            Fits(g, r.0, r.1)
            && (Populated(g, r.0, r.1, issueUrl).1.None? <==> |FindAll(page, CustomSelector)| == CustomSlots)
  {
    OriginalTableFresh();
    OriginalTableFits(g);
    ReportNeedsTwelveCustomFields(g, OriginalScalars(), OriginalCustom(), page, issueUrl);
  }

  /* ---------- The whole report ---------- */

  /** A template table `populate_report` can address: at least 23 rows of at least 6 cells. */
  predicate Template(g: Grid)
  {
    Formed(g) && |g| >= 23 && forall r :: 0 <= r < |g| ==> |g[r]| >= 6
  }

  /** The table's entries sit where the declared table puts them, whatever texts they hold:
      extraction into the declared table keeps this. */
  ghost predicate DeclaredCoordinates(s: map<string, Slot>, c: map<int, Slot>)
  {
    && (forall k :: k in s <==> k in ScalarKeys)
    && (forall k :: k in c <==> 0 <= k < CustomSlots)
    && (forall j :: 0 <= j < |ScalarKeys| ==>
          s[ScalarKeys[j]].row == OriginalScalars()[ScalarKeys[j]].row
          && s[ScalarKeys[j]].col == OriginalScalars()[ScalarKeys[j]].col)
    && (forall k :: 0 <= k < CustomSlots ==> c[k].row == 11 + k && c[k].col == 1)
  }

  /** No two scalar entries of the declared table share a cell. */
  lemma DeclaredScalarCellsDistinct(i: nat, j: nat)
    requires i < j < |ScalarKeys|
    ensures var s := OriginalScalars();
            (s[ScalarKeys[i]].row, s[ScalarKeys[i]].col) != (s[ScalarKeys[j]].row, s[ScalarKeys[j]].col)
  {
  }

  lemma DeclaredCoordinatesFit(g: Grid, s: map<string, Slot>, c: map<int, Slot>)
    requires Template(g) && DeclaredCoordinates(s, c)
    ensures Fits(g, s, c)
  {
    forall j | 0 <= j < |ScalarKeys|
      ensures ScalarKeys[j] in s && Holds(g, s[ScalarKeys[j]].row, s[ScalarKeys[j]].col)
    {
      OriginalScalarBounds(j);
    }
  }

  /** With the declared coordinates, scalar entry j's cell is addressed by no other scalar entry. */
  lemma DeclaredScalarCellOwn(s: map<string, Slot>, c: map<int, Slot>, j: nat)
    requires DeclaredCoordinates(s, c) && j < |ScalarKeys|
    ensures forall i :: 0 <= i < |ScalarKeys| && i != j ==>
              (s[ScalarKeys[i]].row, s[ScalarKeys[i]].col) != (s[ScalarKeys[j]].row, s[ScalarKeys[j]].col)
  {
    forall i | 0 <= i < |ScalarKeys| && i != j
      ensures (s[ScalarKeys[i]].row, s[ScalarKeys[i]].col) != (s[ScalarKeys[j]].row, s[ScalarKeys[j]].col)
    {
      if i < j { DeclaredScalarCellsDistinct(i, j); } else { DeclaredScalarCellsDistinct(j, i); }
    }
  }

  /** Scalar key j's write: the link for `id` (key 0, row 1, column 0), plain text for the others. */
  lemma DeclaredScalarCell(g: Grid, s: map<string, Slot>, c: map<int, Slot>, issueUrl: string, j: nat)
    requires Template(g) && DeclaredCoordinates(s, c) && j < |ScalarKeys|
    requires |s[ScalarKeys[j]].texts| >= 1
    ensures var slot := s[ScalarKeys[j]];
            && Holds(g, slot.row, slot.col)
            && ScalarCell(g, ScalarKeys[j], slot, issueUrl)
               == (if j == 0 then AddLink(g[1][0], issueUrl, slot.texts[0]) else TextCell(slot.texts[0]))
  {
    OriginalScalarBounds(j);
    ScalarKeysDistinct();
    assert ScalarKeys[0] == "id";
  }

  /** After `populate_report`'s writes succeed on a table with the declared coordinates, the cell
      of scalar key j holds that key's value: the `id` cell (row 1, column 0) is the template's cell
      with a link to the issue appended to its first paragraph, and every other scalar cell is the
      plain text. */
  lemma PopulatedScalarValue(g: Grid, s: map<string, Slot>, c: map<int, Slot>, issueUrl: string, j: nat)
    requires Template(g) && DeclaredCoordinates(s, c) && j < |ScalarKeys|
    requires (DeclaredCoordinatesFit(g, s, c); Populated(g, s, c, issueUrl).1.None?)
    ensures var slot := s[ScalarKeys[j]];
            var h := Populated(g, s, c, issueUrl).0;
            && |slot.texts| >= 1 && Holds(h, slot.row, slot.col)
            && h[slot.row][slot.col] == (if j == 0 then AddLink(g[1][0], issueUrl, slot.texts[0]) else TextCell(slot.texts[0]))
  {
    DeclaredCoordinatesFit(g, s, c);
    var slot := s[ScalarKeys[j]];
    DeclaredScalarCellOwn(s, c, j);
    ScalarWritesValue(g, s, ScalarKeys, issueUrl, j);
    DeclaredScalarCell(g, s, c, issueUrl, j);
    var g' := ScalarWrites(g, s, ScalarKeys, issueUrl).0;
    FitsKept(g, g', s, c);
    OriginalScalarBounds(j);
    CustomWritesUntouched(g', c, 0, |CustomFieldKey|, slot.row, slot.col);
  }

  /** After `populate_report`'s writes succeed on a table with the declared coordinates, custom
      entry k's cell (row 11 + k, column 1) holds exactly that entry's text. */
  lemma PopulatedCustomValue(g: Grid, s: map<string, Slot>, c: map<int, Slot>, issueUrl: string, k: nat)
    requires Template(g) && DeclaredCoordinates(s, c) && k < CustomSlots
    requires (DeclaredCoordinatesFit(g, s, c); Populated(g, s, c, issueUrl).1.None?)
    ensures var h := Populated(g, s, c, issueUrl).0;
            |c[k].texts| >= 1 && Holds(h, 11 + k, 1) && h[11 + k][1] == TextCell(c[k].texts[0])
  {
    DeclaredCoordinatesFit(g, s, c);
    var g' := ScalarWrites(g, s, ScalarKeys, issueUrl).0;
    FitsKept(g, g', s, c);
    CustomWritesValue(g', c, 0, |CustomFieldKey|, k);
  }

  /** `populate_report`'s writes, successful or not, leave every cell that no entry of the table
      addresses as the template had it. */
  lemma PopulatedUntouched(g: Grid, s: map<string, Slot>, c: map<int, Slot>, issueUrl: string, row: int, col: int)
    requires Formed(g) && Fits(g, s, c) && Holds(g, row, col)
    requires forall j :: 0 <= j < |ScalarKeys| ==> (s[ScalarKeys[j]].row, s[ScalarKeys[j]].col) != (row, col)
    requires forall k :: 0 <= k < CustomSlots ==> (c[k].row, c[k].col) != (row, col)
    ensures Populated(g, s, c, issueUrl).0[row][col] == g[row][col]
  {
    ScalarWritesUntouched(g, s, ScalarKeys, issueUrl, row, col);
    var g' := ScalarWrites(g, s, ScalarKeys, issueUrl).0;
    FitsKept(g, g', s, c);
    CustomWritesUntouched(g', c, 0, |CustomFieldKey|, row, col);
  }

  /** The declared table itself has the declared coordinates. */
  lemma OriginalDeclared()
    ensures DeclaredCoordinates(OriginalScalars(), OriginalCustom())
  {
    OriginalTableShape();
    forall k | 0 <= k < CustomSlots
      ensures OriginalCustom()[k].row == 11 + k && OriginalCustom()[k].col == 1
    {
      OriginalCustomCoordinates(k);
    }
  }

  /** Extraction into any table with the declared coordinates keeps them. */
  lemma ExtractionKeepsCoordinatesOf(s: map<string, Slot>, c: map<int, Slot>, page: seq<Element>)
    requires DeclaredCoordinates(s, c)
    ensures var r := ReportData(s, c, page); DeclaredCoordinates(r.0, r.1)
  {
    ReportDataKeepsCoordinates(s, c, page);
  }

  /** Extraction into the declared table keeps its coordinates. */
  lemma ExtractionKeepsDeclaredCoordinates(page: seq<Element>)
    ensures (OriginalTableShape(); var r := ReportData(OriginalScalars(), OriginalCustom(), page);
             DeclaredCoordinates(r.0, r.1))
  {
    OriginalDeclared();
    ExtractionKeepsCoordinatesOf(OriginalScalars(), OriginalCustom(), page);
  }

  /** For the declared table and a template it fits: once the page is extracted and the report's
      writes succeed, scalar key j's cell, where the declared table puts it, holds the stripped text
      of the last element of that key, as a link to the issue in the `id` cell. */
  lemma ReportScalarCellFromPage(g: Grid, page: seq<Element>, issueUrl: string, j: nat)
    requires Template(g) && j < |ScalarKeys|
    requires ReportData(OriginalScalars(), OriginalCustom(), page).2.None?
    ensures var r := ReportData(OriginalScalars(), OriginalCustom(), page);
            && Fits(g, r.0, r.1)
            && (Populated(g, r.0, r.1, issueUrl).1.None? ==>
                  var h := Populated(g, r.0, r.1, issueUrl).0;
                  var key := ScalarKeys[j];
                  && LastText(page, key).Some? && key in r.0
                  && r.0[key].row == OriginalScalars()[key].row && r.0[key].col == OriginalScalars()[key].col
                  && Holds(h, r.0[key].row, r.0[key].col)
                  && h[r.0[key].row][r.0[key].col] == (if j == 0 then AddLink(g[1][0], issueUrl, LastText(page, key).value)
                                                       else TextCell(LastText(page, key).value)))
  {
    var s, c := OriginalScalars(), OriginalCustom();
    OriginalTableFresh();
    OriginalTableFits(g);
    ExtractionKeepsFit(g, s, c, page);
    var r := ReportData(s, c, page);
    if Populated(g, r.0, r.1, issueUrl).1.None? {
      ExtractionKeepsDeclaredCoordinates(page);
      PopulatedScalarValue(g, r.0, r.1, issueUrl, j);
      ReportDataScalar(s, c, page, j);
    }
  }

  /** For the declared table and a template it fits: once the page is extracted and the report's
      writes succeed, custom cell k (row 11 + k, column 1) holds the stripped text of the page's
      k-th custom-field cell. */
  lemma ReportCustomCellFromPage(g: Grid, page: seq<Element>, issueUrl: string, k: nat)
    requires Template(g) && k < CustomSlots
    requires ReportData(OriginalScalars(), OriginalCustom(), page).2.None?
    ensures var r := ReportData(OriginalScalars(), OriginalCustom(), page);
            && Fits(g, r.0, r.1)
            && (Populated(g, r.0, r.1, issueUrl).1.None? ==>
                  var h := Populated(g, r.0, r.1, issueUrl).0;
                  var tags := FindAll(page, CustomSelector);
                  && k < |tags| && Holds(h, 11 + k, 1)
                  && h[11 + k][1] == TextCell(Strip(tags[k].text)))
  {
    var s, c := OriginalScalars(), OriginalCustom();
    OriginalTableFresh();
    OriginalTableFits(g);
    ExtractionKeepsFit(g, s, c, page);
    var r := ReportData(s, c, page);
    if Populated(g, r.0, r.1, issueUrl).1.None? {
      ExtractionKeepsDeclaredCoordinates(page);
      PopulatedCustomValue(g, r.0, r.1, issueUrl, k);
      ReportNeedsTwelveCustomFields(g, s, c, page, issueUrl);
      ExtractedCustomValues(s, c, page);
    }
  }

  /* ---------- The run over the issue list ---------- */

  /** Whether `main`'s loop body ends without raising for one issue: `reply` answers the issue
      page's GET, `page` is that page's elements, `g` the template's table. The body raises when
      `access_issue_page` rejects the page, when `scrape_page` finds no title or category cell,
      when `get_report_data` fails, or when `populate_report`'s writes fail. */
  predicate IssueCompletes(baseUrl: string, issue: string, reply: Http.Reply, page: seq<Element>, g: Grid)
    requires Template(g)
  {
    OriginalTableShape();
    var r := ReportData(OriginalScalars(), OriginalCustom(), page);
    && Scraper.IssuePage(baseUrl, issue, reply).Some?
    && Folder.ScrapePage(page).Success?
    && r.2.None?
    && (DeclaredTableReport(g, page, Scraper.IssueUrl(baseUrl, issue));
        Populated(g, r.0, r.1, Scraper.IssueUrl(baseUrl, issue)).1.None?)
  }

  /** An issue's body completes exactly when its page is accepted, holds a title and a category
      cell, yields every scalar value, and has exactly twelve custom-field cells. */
  lemma IssueCompletesIff(baseUrl: string, issue: string, reply: Http.Reply, page: seq<Element>, g: Grid)
    requires Template(g)
    ensures (OriginalTableShape();
             IssueCompletes(baseUrl, issue, reply, page, g)
             <==> && Scraper.IssuePage(baseUrl, issue, reply).Some?
                  && Folder.ScrapePage(page).Success?
                  && ReportData(OriginalScalars(), OriginalCustom(), page).2.None?
                  && |FindAll(page, CustomSelector)| == CustomSlots)
  {
    OriginalTableShape();
    if ReportData(OriginalScalars(), OriginalCustom(), page).2.None? {
      DeclaredTableReport(g, page, Scraper.IssueUrl(baseUrl, issue));
    }
  }

  /** Which bodies of the loop complete, issue by issue. */
  function Completions(baseUrl: string, issues: seq<string>, replies: seq<Http.Reply>, pages: seq<seq<Element>>, g: Grid): (r: seq<bool>)
    requires |replies| == |issues| && |pages| == |issues| && Template(g)
    ensures |r| == |issues|
    decreases |issues|
  {
    if issues == [] then []
    else [IssueCompletes(baseUrl, issues[0], replies[0], pages[0], g)] + Completions(baseUrl, issues[1..], replies[1..], pages[1..], g)
  }

  lemma {:induction false} CompletionsAt(baseUrl: string, issues: seq<string>, replies: seq<Http.Reply>, pages: seq<seq<Element>>, g: Grid, i: nat)
    requires |replies| == |issues| && |pages| == |issues| && Template(g) && i < |issues|
    ensures Completions(baseUrl, issues, replies, pages, g)[i] == IssueCompletes(baseUrl, issues[i], replies[i], pages[i], g)
    decreases i
  {
    if i > 0 {
      CompletionsAt(baseUrl, issues[1..], replies[1..], pages[1..], g, i - 1);
    }
  }

  /** The run handles the issues before the first one whose body raises, and stops there: every
      issue before it completed, and that issue did not. */
  lemma RunStopsAtFirstFailedIssue(baseUrl: string, issues: seq<string>, replies: seq<Http.Reply>, pages: seq<seq<Element>>, g: Grid)
    requires |replies| == |issues| && |pages| == |issues| && Template(g)
    ensures var n := Scraper.IssuesProcessed(Completions(baseUrl, issues, replies, pages, g));
            && n <= |issues|
            && (forall i :: 0 <= i < n ==> IssueCompletes(baseUrl, issues[i], replies[i], pages[i], g))
            && (n < |issues| ==> !IssueCompletes(baseUrl, issues[n], replies[n], pages[n], g))
  {
    var cs := Completions(baseUrl, issues, replies, pages, g);
    Scraper.IssuesProcessedStopsAtFirstFailure(cs);
    forall i | 0 <= i < |issues|
      ensures cs[i] == IssueCompletes(baseUrl, issues[i], replies[i], pages[i], g)
    {
      CompletionsAt(baseUrl, issues, replies, pages, g, i);
    }
  }

  /** The run reaches the end of the issue list exactly when every issue's body completes. */
  lemma RunReachesEveryIssueIff(baseUrl: string, issues: seq<string>, replies: seq<Http.Reply>, pages: seq<seq<Element>>, g: Grid)
    requires |replies| == |issues| && |pages| == |issues| && Template(g)
    ensures Scraper.IssuesProcessed(Completions(baseUrl, issues, replies, pages, g)) == |issues|
            <==> forall i :: 0 <= i < |issues| ==> IssueCompletes(baseUrl, issues[i], replies[i], pages[i], g)
  {
    var cs := Completions(baseUrl, issues, replies, pages, g);
    Scraper.IssuesProcessedAllIff(cs);
    forall i | 0 <= i < |issues|
      ensures cs[i] == IssueCompletes(baseUrl, issues[i], replies[i], pages[i], g)
    {
      CompletionsAt(baseUrl, issues, replies, pages, g, i);
    }
  }
}
