/**
 * `populate_report`: the issue's values written into the first table of the report template,
 * the id cell given a hyperlink to the issue page, the row heights fixed, one hyperlink
 * paragraph per attachment, and the name the document is saved under.
 */
module Report {
  import opened Wrappers
  import opened Extract

  /** What a paragraph holds: plain runs of text and hyperlinks (`w:hyperlink` around one run). */
  datatype Inline = Run(text: string) | Hyperlink(target: string, text: string)

  datatype Paragraph = Paragraph(inlines: seq<Inline>)

  /** A table cell is a list of paragraphs; a Word cell always holds at least one. */
  datatype Cell = Cell(paragraphs: seq<Paragraph>)

  datatype HeightRule = Auto | AtLeast | Exactly

  /** `row.height` (in EMU) and `row.height_rule`; `None` where the template leaves them unset. */
  datatype RowFormat = RowFormat(height: Option<int>, rule: Option<HeightRule>)

  /** `Cm(0.5)` in English Metric Units (360000 per centimetre). */
  const HalfCm := 180000

  /** The sub-directory the attachments are saved in, spelled as in the program. */
  const AttachmentDir := "attachements"

  /** The key whose characters the custom-field loop enumerates. */
  const CustomFieldKey := "custom-field"

  /** The table of the report: rows of cells, addressed `grid[row][col]`. */
  type Grid = seq<seq<Cell>>

  predicate Holds(g: Grid, row: int, col: int)
  {
    0 <= row < |g| && 0 <= col < |g[row]|
  }

  predicate FormedCell(cell: Cell)
  {
    |cell.paragraphs| >= 1
  }

  /** Every cell has a first paragraph. */
  predicate Formed(g: Grid)
  {
    forall i, j :: 0 <= i < |g| && 0 <= j < |g[i]| ==> FormedCell(g[i][j])
  }

  predicate SameShape(g: Grid, h: Grid)
  {
    |g| == |h| && forall i :: 0 <= i < |g| ==> |g[i]| == |h[i]|
  }

  /** Replace one cell. */
  function Put(g: Grid, row: int, col: int, cell: Cell): (h: Grid)
    requires Holds(g, row, col)
    ensures SameShape(g, h)
    ensures h[row][col] == cell
    ensures forall i, j :: Holds(g, i, j) && (i, j) != (row, col) ==> h[i][j] == g[i][j]
    ensures Formed(g) && FormedCell(cell) ==> Formed(h)
  {
    g[row := g[row][col := cell]]
  }

  /** `cell.text = t`: the cell's content is replaced by one paragraph holding one run of `t`. */
  function TextCell(t: string): (cell: Cell)
    ensures FormedCell(cell)
  {
    Cell([Paragraph([Run(t)])])
  }

  /** `add_hyperlink(cell.paragraphs[0], url, text)`: a hyperlink appended to the first paragraph,
      everything already in the cell kept. */
  function AddLink(cell: Cell, url: string, text: string): (r: Cell)
    requires FormedCell(cell)
    ensures FormedCell(r) && |r.paragraphs| == |cell.paragraphs|
    ensures r.paragraphs[0].inlines == cell.paragraphs[0].inlines + [Hyperlink(url, text)]
    ensures forall p :: 1 <= p < |cell.paragraphs| ==> r.paragraphs[p] == cell.paragraphs[p]
  {
    var first := cell.paragraphs[0];
    Cell(cell.paragraphs[0 := Paragraph(first.inlines + [Hyperlink(url, text)])])
  }

  datatype PopulateError =
    | NoValue(key: string)   // `issue_data[key][2]` on an entry extraction left as `[row, col]`: IndexError
    | NoCustomValue(index: int)

  /** Every entry the loop writes addresses a cell of the table. */
  predicate Fits(g: Grid, s: map<string, Slot>, c: map<int, Slot>)
  {
    FitsKeys(g, s, ScalarKeys) && FitsCustom(g, c, 0, |CustomFieldKey|)
  }

  predicate FitsKeys(g: Grid, s: map<string, Slot>, keys: seq<string>)
  {
    forall j :: 0 <= j < |keys| ==> keys[j] in s && Holds(g, s[keys[j]].row, s[keys[j]].col)
  }

  predicate FitsCustom(g: Grid, c: map<int, Slot>, index: int, count: int)
  {
    forall k :: index <= k < count ==> k in c && Holds(g, c[k].row, c[k].col)
  }

  /** The write the loop makes for scalar key `key`: the id cell gains a link to the issue page, any
      other cell gets the value as its text. */
  function ScalarCell(g: Grid, key: string, slot: Slot, issueUrl: string): (cell: Cell)
    requires Formed(g) && Holds(g, slot.row, slot.col) && |slot.texts| >= 1
    ensures FormedCell(cell)
  {
    if key == "id" then AddLink(g[slot.row][slot.col], issueUrl, slot.texts[0])
    else TextCell(slot.texts[0])
  }

  /** Reference definition of the scalar writes, key by key; the first entry without a value stops
      them with the writes made so far. */
  function ScalarWrites(g: Grid, s: map<string, Slot>, keys: seq<string>, issueUrl: string): (r: (Grid, Option<PopulateError>))
    requires Formed(g) && FitsKeys(g, s, keys)
    ensures SameShape(g, r.0) && Formed(r.0)
    decreases |keys|
  {
    if keys == [] then (g, None)
    else
      var slot := s[keys[0]];
      if |slot.texts| == 0 then (g, Some(NoValue(keys[0])))
      else ScalarWrites(Put(g, slot.row, slot.col, ScalarCell(g, keys[0], slot, issueUrl)), s, keys[1..], issueUrl)
  }

  /** Reference definition of the custom-field writes for indices `index` to `count - 1`. */
  function CustomWrites(g: Grid, c: map<int, Slot>, index: nat, count: nat): (r: (Grid, Option<PopulateError>))
    requires Formed(g) && index <= count && FitsCustom(g, c, index, count)
    ensures SameShape(g, r.0) && Formed(r.0)
    decreases count - index
  {
    if index == count then (g, None)
    else
      var slot := c[index];
      if |slot.texts| == 0 then (g, Some(NoCustomValue(index)))
      else CustomWrites(Put(g, slot.row, slot.col, TextCell(slot.texts[0])), c, index + 1, count)
  }

  /** All writes of the key loop: the scalar keys in table order, then `custom-field`. */
  function Populated(g: Grid, s: map<string, Slot>, c: map<int, Slot>, issueUrl: string): (Grid, Option<PopulateError>)
    requires Formed(g) && Fits(g, s, c)
  {
    var (g', err) := ScalarWrites(g, s, ScalarKeys, issueUrl);
    if err.Some? then (g', err) else CustomWrites(g', c, 0, |CustomFieldKey|)
  }

  /** The paragraph added to the document body for an attachment: a link to it under the attachment directory. */
  function AttachmentParagraph(filename: string): Paragraph
  {
    Paragraph([Hyperlink(AttachmentDir + "/" + filename, filename)])
  }

  /** One link paragraph per attachment file, in listing order. */
  function AttachmentParagraphs(files: seq<string>): (r: seq<Paragraph>)
    ensures |r| == |files|
    ensures forall i :: 0 <= i < |files| ==> r[i] == AttachmentParagraph(files[i])
  {
    seq(|files|, i requires 0 <= i < |files| => AttachmentParagraph(files[i]))
  }

  /** The row-height rule: rows with index at most 7 or at least 10 are exactly 0.5 cm high, rows 8
      and 9 keep their format. */
  predicate HeightsFixed(before: seq<RowFormat>, after: seq<RowFormat>)
  {
    && |after| == |before|
    && (forall i :: 0 <= i < |after| && (i <= 7 || i >= 10) ==> after[i] == RowFormat(Some(HalfCm), Some(Exactly)))
    && (forall i :: 8 <= i <= 9 && i < |after| ==> after[i] == before[i])
  }

  /** `f"{category}-{custom11}.docx"`, the category text used as found, without any cleaning. */
  function DocumentName(category: string, custom11: string): (r: string)
    ensures |r| == |category| + |custom11| + 6
    ensures r[..|category|] == category && r[|category|] == '-'
    ensures r[|category| + 1..|r| - 5] == custom11
    ensures r[|r| - 5..] == ".docx"
  {
    category + "-" + custom11 + ".docx"
  }

  /** The opened template: its first table, that table's row formats, and the paragraphs of the body. */
  class ReportDocument {
    var grid: Grid
    var rows: seq<RowFormat>
    var body: seq<Paragraph>

    ghost predicate Valid()
      reads this
    {
      |rows| == |grid| && Formed(grid)
    }

    constructor (grid: Grid, rows: seq<RowFormat>, body: seq<Paragraph>)
      requires |rows| == |grid| && Formed(grid)
      ensures Valid()
      ensures this.grid == grid && this.rows == rows && this.body == body
    {
      this.grid := grid;
      this.rows := rows;
      this.body := body;
    }

    /** `_table.cell(row, col)` replaced; nothing else changes. */
    method SetCell(row: int, col: int, cell: Cell)
      requires Valid() && Holds(grid, row, col) && FormedCell(cell)
      modifies this
      ensures Valid()
      ensures grid == Put(old(grid), row, col, cell)
      ensures rows == old(rows) && body == old(body)
    {
      grid := Put(grid, row, col, cell);
    }

    /** The row-height loop: every row whose index is at most 7 or at least 10 becomes exactly
        0.5 cm high; rows 8 and 9 keep their format. */
    method FixRowHeights()
      requires Valid()
      modifies this
      ensures Valid()
      ensures HeightsFixed(old(rows), rows)
      ensures grid == old(grid) && body == old(body)
    {
      var index := 0;
      while index < |rows|
        invariant 0 <= index <= |rows| == |old(rows)|
        invariant forall i :: 0 <= i < index ==>
                    rows[i] == if i <= 7 || i >= 10 then RowFormat(Some(HalfCm), Some(Exactly)) else old(rows)[i]
        invariant forall i :: index <= i < |rows| ==> rows[i] == old(rows)[i]
        invariant grid == old(grid) && body == old(body)
      {
        if index <= 7 || index >= 10 {
          rows := rows[index := RowFormat(Some(HalfCm), Some(Exactly))];
        }
        index := index + 1;
      }
    }

    /** One paragraph per listed attachment file, appended in listing order. */
    method AddAttachmentLinks(files: seq<string>)
      requires Valid()
      modifies this
      ensures Valid()
      ensures body == old(body) + AttachmentParagraphs(files)
      ensures grid == old(grid) && rows == old(rows)
    {
      var n := 0;
      while n < |files|
        invariant 0 <= n <= |files|
        invariant body == old(body) + AttachmentParagraphs(files[..n])
        invariant grid == old(grid) && rows == old(rows)
      {
        assert AttachmentParagraphs(files[..n + 1]) == AttachmentParagraphs(files[..n]) + [AttachmentParagraph(files[n])];
        body := body + [AttachmentParagraph(files[n])];
        n := n + 1;
      }
      assert files[..n] == files;
    }
  }

  /** The scalar part of the key loop: for each key in table order (`ScalarKeys` at the call),
      `issue_data[key][2]` written to the cell at `[key][0]`, `[key][1]`. */
  method WriteScalarFields(doc: ReportDocument, data: IssueData, keys: seq<string>, issueUrl: string)
    returns (err: Option<PopulateError>)
    requires doc.Valid()
    requires FitsKeys(doc.grid, data.scalars, keys)
    modifies doc
    ensures doc.Valid()
    ensures (doc.grid, err) == ScalarWrites(old(doc.grid), data.scalars, keys, issueUrl)
    ensures doc.rows == old(doc.rows) && doc.body == old(doc.body)
  {
    var i := 0;
    while i < |keys|
      invariant 0 <= i <= |keys|
      invariant doc.Valid() && FitsKeys(doc.grid, data.scalars, keys[i..])
      invariant doc.rows == old(doc.rows) && doc.body == old(doc.body)
      invariant ScalarWrites(doc.grid, data.scalars, keys[i..], issueUrl) == ScalarWrites(old(doc.grid), data.scalars, keys, issueUrl)
    {
      var key := keys[i];
      ScalarWritesStep(doc.grid, data.scalars, keys, i, issueUrl);
      var slot := data.scalars[key];
      if |slot.texts| == 0 {
        return Some(NoValue(key));
      }
      if key == "id" {
        doc.SetCell(slot.row, slot.col, AddLink(doc.grid[slot.row][slot.col], issueUrl, slot.texts[0]));
      } else {
        doc.SetCell(slot.row, slot.col, TextCell(slot.texts[0]));
      }
      i := i + 1;
    }
    assert keys[i..] == [];
    return None;
  }

  /** The `custom-field` part of the key loop: one write per character of the key, that is for
      indices 0 to 11. */
  method WriteCustomFields(doc: ReportDocument, data: IssueData) returns (err: Option<PopulateError>)
    requires doc.Valid()
    requires FitsCustom(doc.grid, data.custom, 0, |CustomFieldKey|)
    modifies doc
    ensures doc.Valid()
    ensures (doc.grid, err) == CustomWrites(old(doc.grid), data.custom, 0, |CustomFieldKey|)
    ensures doc.rows == old(doc.rows) && doc.body == old(doc.body)
  {
    var index := 0;
    while index < |CustomFieldKey|
      invariant 0 <= index <= |CustomFieldKey|
      invariant doc.Valid() && SameShape(old(doc.grid), doc.grid)
      invariant doc.rows == old(doc.rows) && doc.body == old(doc.body)
      invariant CustomWrites(doc.grid, data.custom, index, |CustomFieldKey|) == CustomWrites(old(doc.grid), data.custom, 0, |CustomFieldKey|)
    {
      var slot := data.custom[index];
      if |slot.texts| == 0 {
        return Some(NoCustomValue(index));
      }
      doc.SetCell(slot.row, slot.col, TextCell(slot.texts[0]));
      index := index + 1;
    }
    return None;
  }

  /** `populate_report(issue_data, report_path, issue_url)` on the opened template. `files` is the
      listing of the attachment directory. On success the result is the name the document is saved
      under; a failure leaves the writes made before it and nothing else. `ScalarKeys[2]` is the
      `category` key. */
  method PopulateReport(doc: ReportDocument, data: IssueData, issueUrl: string, files: seq<string>)
    returns (r: Result<string, PopulateError>)
    requires doc.Valid()
    requires Fits(doc.grid, data.scalars, data.custom)
    modifies doc
    ensures doc.Valid()
    ensures var (g, err) := Populated(old(doc.grid), data.scalars, data.custom, issueUrl);
            && doc.grid == g
            && (err.Some? ==> r == Failure(err.value) && doc.rows == old(doc.rows) && doc.body == old(doc.body))
            && (err.None? ==>
                  && |data.scalars[ScalarKeys[2]].texts| >= 1 && |data.custom[11].texts| >= 1
                  && r == Success(DocumentName(data.scalars[ScalarKeys[2]].texts[0], data.custom[11].texts[0]))
                  && HeightsFixed(old(doc.rows), doc.rows)
                  && doc.body == old(doc.body) + AttachmentParagraphs(files))
  {
    ghost var g0 := doc.grid;
    var err := WriteScalarFields(doc, data, ScalarKeys, issueUrl);
    if err.Some? {
      return Failure(err.value);
    }
    ghost var g1 := doc.grid;
    ScalarWritesOutcome(g0, data.scalars, ScalarKeys, issueUrl);
    FitsKept(g0, g1, data.scalars, data.custom);
    err := WriteCustomFields(doc, data);
    if err.Some? {
      return Failure(err.value);
    }
    CustomWritesOutcome(g1, data.custom, 0, |CustomFieldKey|);
    doc.FixRowHeights();
    doc.AddAttachmentLinks(files);
    r := Success(DocumentName(data.scalars[ScalarKeys[2]].texts[0], data.custom[11].texts[0]));
  }

  /* ---------- Properties of the reference definitions ---------- */

  lemma FitsKeysTail(g: Grid, s: map<string, Slot>, keys: seq<string>)
    requires FitsKeys(g, s, keys) && keys != []
    ensures keys[0] in s && Holds(g, s[keys[0]].row, s[keys[0]].col)
    ensures FitsKeys(g, s, keys[1..])
  {
    assert forall j :: 0 <= j < |keys| - 1 ==> keys[1..][j] == keys[j + 1];
  }

  /** One turn of the scalar loop: the writes from key `i` on are the write of key `i` followed by
      the writes from key `i + 1` on, or stop at key `i` when it holds no value. */
  lemma ScalarWritesStep(g: Grid, s: map<string, Slot>, keys: seq<string>, i: nat, issueUrl: string)
    requires Formed(g) && i < |keys| && FitsKeys(g, s, keys[i..])
    ensures keys[i] in s && Holds(g, s[keys[i]].row, s[keys[i]].col)
    ensures var slot := s[keys[i]];
            if |slot.texts| == 0 then ScalarWrites(g, s, keys[i..], issueUrl) == (g, Some(NoValue(keys[i])))
            else
              var h := Put(g, slot.row, slot.col, ScalarCell(g, keys[i], slot, issueUrl));
              FitsKeys(h, s, keys[i + 1..])
              && ScalarWrites(g, s, keys[i..], issueUrl) == ScalarWrites(h, s, keys[i + 1..], issueUrl)
  {
    assert keys[i..][0] == keys[i] && keys[i..][1..] == keys[i + 1..];
    FitsKeysTail(g, s, keys[i..]);
    var slot := s[keys[i]];
    if |slot.texts| > 0 {
      FitsKeysKept(g, Put(g, slot.row, slot.col, ScalarCell(g, keys[i], slot, issueUrl)), s, keys[i + 1..]);
    }
  }

  lemma FitsKeysKept(g: Grid, h: Grid, s: map<string, Slot>, keys: seq<string>)
    requires FitsKeys(g, s, keys) && SameShape(g, h)
    ensures FitsKeys(h, s, keys)
  {
  }

  lemma FitsKept(g: Grid, h: Grid, s: map<string, Slot>, c: map<int, Slot>)
    requires FitsCustom(g, c, 0, |CustomFieldKey|) && SameShape(g, h)
    ensures FitsCustom(h, c, 0, |CustomFieldKey|)
  {
  }

  /** The scalar writes succeed exactly when every written entry has a value. */
  lemma {:induction false} ScalarWritesOutcome(g: Grid, s: map<string, Slot>, keys: seq<string>, issueUrl: string)
    requires Formed(g) && FitsKeys(g, s, keys)
    ensures ScalarWrites(g, s, keys, issueUrl).1.None? <==> forall j :: 0 <= j < |keys| ==> |s[keys[j]].texts| >= 1
    decreases |keys|
  {
    if keys != [] {
      FitsKeysTail(g, s, keys);
      var slot := s[keys[0]];
      if |slot.texts| > 0 {
        var g' := Put(g, slot.row, slot.col, ScalarCell(g, keys[0], slot, issueUrl));
        FitsKeysKept(g, g', s, keys[1..]);
        ScalarWritesOutcome(g', s, keys[1..], issueUrl);
        assert forall j :: 1 <= j < |keys| ==> keys[1..][j - 1] == keys[j];
      }
    }
  }

  /** A cell no key addresses is left as it was. */
  lemma {:induction false} ScalarWritesUntouched(g: Grid, s: map<string, Slot>, keys: seq<string>, issueUrl: string, row: int, col: int)
    requires Formed(g) && FitsKeys(g, s, keys) && Holds(g, row, col)
    requires forall j :: 0 <= j < |keys| ==> (s[keys[j]].row, s[keys[j]].col) != (row, col)
    ensures ScalarWrites(g, s, keys, issueUrl).0[row][col] == g[row][col]
    decreases |keys|
  {
    if keys != [] {
      FitsKeysTail(g, s, keys);
      var slot := s[keys[0]];
      if |slot.texts| > 0 {
        var g' := Put(g, slot.row, slot.col, ScalarCell(g, keys[0], slot, issueUrl));
        FitsKeysKept(g, g', s, keys[1..]);
        assert forall j :: 0 <= j < |keys| - 1 ==> keys[1..][j] == keys[j + 1];
        ScalarWritesUntouched(g', s, keys[1..], issueUrl, row, col);
      }
    }
  }

  /** When the writes succeed and no other key shares its cell, the cell of key `keys[j]` ends up
      with that key's write: a link appended for the id, the value as text for any other key. */
  lemma {:induction false} ScalarWritesValue(g: Grid, s: map<string, Slot>, keys: seq<string>, issueUrl: string, j: nat)
    requires Formed(g) && FitsKeys(g, s, keys) && j < |keys|
    requires forall i :: 0 <= i < |keys| && i != j ==> (s[keys[i]].row, s[keys[i]].col) != (s[keys[j]].row, s[keys[j]].col)
    requires ScalarWrites(g, s, keys, issueUrl).1.None?
    ensures var slot := s[keys[j]];
            |slot.texts| >= 1 && ScalarWrites(g, s, keys, issueUrl).0[slot.row][slot.col] == ScalarCell(g, keys[j], slot, issueUrl)
    decreases |keys|
  {
    FitsKeysTail(g, s, keys);
    var slot := s[keys[0]];
    var g' := Put(g, slot.row, slot.col, ScalarCell(g, keys[0], slot, issueUrl));
    FitsKeysKept(g, g', s, keys[1..]);
    assert forall i :: 0 <= i < |keys| - 1 ==> keys[1..][i] == keys[i + 1];
    if j == 0 {
      ScalarWritesUntouched(g', s, keys[1..], issueUrl, slot.row, slot.col);
    } else {
      ScalarWritesValue(g', s, keys[1..], issueUrl, j - 1);
      var slot' := s[keys[j]];
      assert g'[slot'.row][slot'.col] == g[slot'.row][slot'.col];
    }
  }

  /** The custom writes succeed exactly when every written entry has a value. */
  lemma {:induction false} CustomWritesOutcome(g: Grid, c: map<int, Slot>, index: nat, count: nat)
    requires Formed(g) && index <= count && FitsCustom(g, c, index, count)
    ensures CustomWrites(g, c, index, count).1.None? <==> forall k :: index <= k < count ==> |c[k].texts| >= 1
    decreases count - index
  {
    if index < count {
      var slot := c[index];
      if |slot.texts| > 0 {
        CustomWritesOutcome(Put(g, slot.row, slot.col, TextCell(slot.texts[0])), c, index + 1, count);
      }
    }
  }

  /** A cell no custom entry addresses is left as it was. */
  lemma {:induction false} CustomWritesUntouched(g: Grid, c: map<int, Slot>, index: nat, count: nat, row: int, col: int)
    requires Formed(g) && index <= count && FitsCustom(g, c, index, count) && Holds(g, row, col)
    requires forall k :: index <= k < count ==> (c[k].row, c[k].col) != (row, col)
    ensures CustomWrites(g, c, index, count).0[row][col] == g[row][col]
    decreases count - index
  {
    if index < count {
      var slot := c[index];
      if |slot.texts| > 0 {
        CustomWritesUntouched(Put(g, slot.row, slot.col, TextCell(slot.texts[0])), c, index + 1, count, row, col);
      }
    }
  }

  /** When the writes succeed and no other entry shares its cell, custom entry `k` ends up as its value's text. */
  lemma {:induction false} CustomWritesValue(g: Grid, c: map<int, Slot>, index: nat, count: nat, k: int)
    requires Formed(g) && index <= k < count && FitsCustom(g, c, index, count)
    requires forall i :: index <= i < count && i != k ==> (c[i].row, c[i].col) != (c[k].row, c[k].col)
    requires CustomWrites(g, c, index, count).1.None?
    ensures |c[k].texts| >= 1 && CustomWrites(g, c, index, count).0[c[k].row][c[k].col] == TextCell(c[k].texts[0])
    decreases count - index
  {
    var slot := c[index];
    var g' := Put(g, slot.row, slot.col, TextCell(slot.texts[0]));
    if k == index {
      CustomWritesUntouched(g', c, index + 1, count, slot.row, slot.col);
    } else {
      CustomWritesValue(g', c, index + 1, count, k);
    }
  }
}
