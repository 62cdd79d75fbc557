/**
 * The coordinate table `original_data` and `get_report_data`, which appends to each
 * entry of a fresh copy of that table the text found for it on the issue page.
 */
module Extract {
  import opened Wrappers
  import opened Text
  import opened Page

  /** One entry of the table: the list `[row, col]` of a report-table cell, to which
      extraction appends text (the cell's value is then the list's third element). */
  datatype Slot = Slot(row: int, col: int, texts: seq<string>)

  /** `entry.append(text)` */
  function Append(s: Slot, t: string): Slot
  {
    s.(texts := s.texts + [t])
  }

  /** The scalar keys of the table, in the dictionary's order; `custom-field` comes after them. */
  const ScalarKeys: seq<string> := [
    "id", "project", "category", "view-status", "date-submitted", "last-modified",
    "reporter", "assigned-to", "priority", "severity", "reproducibility",
    "status", "resolution", "summary", "description", "steps-to-reproduce"]

  /** The number of entries under `custom-field` (keys 0 to 11). */
  const CustomSlots := 12

  /** The scalar entries of `original_data`. */
  function OriginalScalars(): map<string, Slot>
  {
    map[
      "id" := Slot(1, 0, []), "project" := Slot(1, 1, []), "category" := Slot(1, 2, []),
      "view-status" := Slot(1, 3, []), "date-submitted" := Slot(1, 4, []), "last-modified" := Slot(1, 5, []),
      "reporter" := Slot(3, 1, []), "assigned-to" := Slot(3, 3, []),
      "priority" := Slot(4, 1, []), "severity" := Slot(4, 3, []), "reproducibility" := Slot(4, 5, []),
      "status" := Slot(5, 1, []), "resolution" := Slot(5, 3, []),
      "summary" := Slot(7, 1, []), "description" := Slot(8, 1, []), "steps-to-reproduce" := Slot(9, 1, [])]
  }

  /** The `custom-field` entries of `original_data`: entry k sits at row 11 + k, column 1. */
  function OriginalCustom(): map<int, Slot>
  {
    map[
      0 := Slot(11, 1, []), 1 := Slot(12, 1, []), 2 := Slot(13, 1, []), 3 := Slot(14, 1, []),
      4 := Slot(15, 1, []), 5 := Slot(16, 1, []), 6 := Slot(17, 1, []), 7 := Slot(18, 1, []),
      8 := Slot(19, 1, []), 9 := Slot(20, 1, []), 10 := Slot(21, 1, []), 11 := Slot(22, 1, [])]
  }

  /** No scalar key is listed twice. */
  lemma ScalarKeysDistinct()
    ensures forall i, j :: 0 <= i < j < |ScalarKeys| ==> ScalarKeys[i] != ScalarKeys[j]
  {
  }

  /** The table has one scalar entry per scalar key and one custom entry per index 0 to 11. */
  lemma OriginalTableShape()
    ensures forall k :: k in OriginalScalars() <==> k in ScalarKeys
    ensures forall k :: k in OriginalCustom() <==> 0 <= k < CustomSlots
  {
  }

  /** A fresh, mutable copy of `original_data` (`copy.deepcopy`), one per issue. */
  class IssueData {
    var scalars: map<string, Slot>
    var custom: map<int, Slot>

    /** The dictionary holds exactly the table's keys. */
    ghost predicate Valid()
      reads this
    {
      && (forall k :: k in scalars <==> k in ScalarKeys)
      && (forall k :: k in custom <==> 0 <= k < CustomSlots)
    }

    constructor ()
      ensures Valid()
      ensures scalars == OriginalScalars() && custom == OriginalCustom()
    {
      scalars := OriginalScalars();
      custom := OriginalCustom();
    }
  }

  /** The element a scalar key is read from: class list exactly `["bug-<key>"]`, any tag. */
  function ScalarSelector(key: string): Selector
  {
    ExactClasses("bug-" + key)
  }

  /** The custom-field cells: `<td>` tags whose class list is exactly `["bug-custom-field"]`. */
  const CustomSelector := TdExactClasses("bug-custom-field")

  datatype ExtractError =
    | MissingElement(key: string) // `find_all(...)[-1]` on an empty list: IndexError
    | NoCustomSlot(index: int)    // `issue_data["custom-field"][index]` for a missing index: KeyError

  /** `find_all(<bug-key>)[-1].text.strip()`: the stripped text of the last element selected for `key`,
      or `None` where indexing the empty result raises. */
  function LastText(page: seq<Element>, key: string): Option<string>
  {
    var found := FindAll(page, ScalarSelector(key));
    if found == [] then None else Some(Strip(found[|found| - 1].text))
  }

  /** What each key of `keys` finds on the page, in order. */
  function LastTexts(page: seq<Element>, keys: seq<string>): (r: seq<Option<string>>)
    ensures |r| == |keys|
  {
    if keys == [] then [] else [LastText(page, keys[0])] + LastTexts(page, keys[1..])
  }

  lemma {:induction false} LastTextsAt(page: seq<Element>, keys: seq<string>, i: nat)
    requires i < |keys|
    ensures LastTexts(page, keys)[i] == LastText(page, keys[i])
  {
    if i > 0 {
      LastTextsAt(page, keys[1..], i - 1);
    }
  }

  /** Reference definition of the scalar part of the loop: each key in turn gets what was found for it;
      the first key with nothing found stops the loop with the entries updated so far. */
  function Fill(s: map<string, Slot>, keys: seq<string>, found: seq<Option<string>>): (r: (map<string, Slot>, Option<ExtractError>))
    requires |found| == |keys|
    requires forall k :: k in keys ==> k in s
    ensures r.0.Keys == s.Keys
  {
    if keys == [] then (s, None)
    else
      match found[0]
      case None => (s, Some(MissingElement(keys[0])))
      case Some(t) => Fill(s[keys[0] := Append(s[keys[0]], t)], keys[1..], found[1..])
  }

  function ExtractScalars(s: map<string, Slot>, keys: seq<string>, page: seq<Element>): (map<string, Slot>, Option<ExtractError>)
    requires forall k :: k in keys ==> k in s
  {
    Fill(s, keys, LastTexts(page, keys))
  }

  /** Reference definition of the custom-field part: the k-th custom cell (from `index`) goes to entry k;
      a cell with no entry stops the loop. */
  function ExtractCustom(c: map<int, Slot>, tags: seq<Element>, index: int): (r: (map<int, Slot>, Option<ExtractError>))
    ensures r.0.Keys == c.Keys
  {
    if tags == [] then (c, None)
    else if index !in c then (c, Some(NoCustomSlot(index)))
    else ExtractCustom(c[index := Append(c[index], Strip(tags[0].text))], tags[1..], index + 1)
  }

  /** The whole of `get_report_data`: scalars first, then, if they all succeeded, the custom fields. */
  function ReportData(s: map<string, Slot>, c: map<int, Slot>, page: seq<Element>): (map<string, Slot>, map<int, Slot>, Option<ExtractError>)
    requires forall k :: k in ScalarKeys ==> k in s
  {
    var (s', err) := ExtractScalars(s, ScalarKeys, page);
    if err.Some? then (s', c, err)
    else
      var (c', err') := ExtractCustom(c, FindAll(page, CustomSelector), 0);
      (s', c', err')
  }

  /** `get_report_data(issue_data, soup)`: fills `data` in place; a failure leaves the entries
      updated before it. */
  method GetReportData(data: IssueData, page: seq<Element>) returns (err: Option<ExtractError>)
    requires data.Valid()
    modifies data
    ensures data.Valid()
    ensures (data.scalars, data.custom, err) == ReportData(old(data.scalars), old(data.custom), page)
  {
    err := FillScalars(data, ScalarKeys, page);
    if err.Some? {
      return;
    }
    err := FillCustom(data, FindAll(page, CustomSelector));
  }

  /** The loop over the scalar keys of `get_report_data`: each key in turn, in table order
      (`ScalarKeys` at the call), gets the stripped text of its last element. */
  method FillScalars(data: IssueData, keys: seq<string>, page: seq<Element>) returns (err: Option<ExtractError>)
    requires forall k :: k in keys ==> k in data.scalars
    modifies data
    ensures (data.scalars, err) == Fill(old(data.scalars), keys, LastTexts(page, keys))
    ensures data.custom == old(data.custom)
  {
    var i := 0;
    while i < |keys|
      invariant 0 <= i <= |keys|
      invariant data.scalars.Keys == old(data.scalars).Keys && data.custom == old(data.custom)
      invariant Fill(data.scalars, keys[i..], LastTexts(page, keys)[i..]) == Fill(old(data.scalars), keys, LastTexts(page, keys))
    {
      var key := keys[i];
      FillStep(data.scalars, keys, page, i);
      var tags := FindAll(page, ScalarSelector(key));
      if tags == [] {
        return Some(MissingElement(key));
      }
      var tag := tags[|tags| - 1];
      data.scalars := data.scalars[key := Append(data.scalars[key], Strip(tag.text))];
      i := i + 1;
    }
    assert keys[i..] == [] && LastTexts(page, keys)[i..] == [];
    return None;
  }

  /** The loop over the custom-field cells of `get_report_data`: the k-th cell goes to entry k. */
  method FillCustom(data: IssueData, customTags: seq<Element>) returns (err: Option<ExtractError>)
    modifies data
    ensures (data.custom, err) == ExtractCustom(old(data.custom), customTags, 0)
    ensures data.scalars == old(data.scalars)
  {
    var index := 0;
    while index < |customTags|
      invariant 0 <= index <= |customTags|
      invariant data.scalars == old(data.scalars)
      invariant ExtractCustom(data.custom, customTags[index..], index) == ExtractCustom(old(data.custom), customTags, 0)
    {
      assert customTags[index..][0] == customTags[index] && customTags[index..][1..] == customTags[index + 1..];
      if index !in data.custom {
        return Some(NoCustomSlot(index));
      }
      data.custom := data.custom[index := Append(data.custom[index], Strip(customTags[index].text))];
      index := index + 1;
    }
    assert customTags[index..] == [];
    return None;
  }

  /* ---------- Properties of the reference definitions ---------- */

  /** One turn of the scalar loop: filling from key `i` on either stops at key `i`, when nothing was
      found for it, or appends what was found and fills from key `i + 1` on. */
  lemma FillStep(s: map<string, Slot>, keys: seq<string>, page: seq<Element>, i: nat)
    requires i < |keys| && forall k :: k in keys ==> k in s
    ensures keys[i] in s
    ensures forall k :: k in keys[i..] ==> k in s
    ensures Fill(s, keys[i..], LastTexts(page, keys)[i..])
         == match LastText(page, keys[i])
            case None => (s, Some(MissingElement(keys[i])))
            case Some(t) => Fill(s[keys[i] := Append(s[keys[i]], t)], keys[i + 1..], LastTexts(page, keys)[i + 1..])
  {
    assert keys[i..][0] == keys[i] && keys[i..][1..] == keys[i + 1..];
    LastTextsAt(page, keys, i);
    assert LastTexts(page, keys)[i..][0] == LastText(page, keys[i]);
    assert LastTexts(page, keys)[i..][1..] == LastTexts(page, keys)[i + 1..];
  }

  /** The scalar phase succeeds exactly when every key found something. */
  lemma {:induction false} FillSucceedsIff(s: map<string, Slot>, keys: seq<string>, found: seq<Option<string>>)
    requires |found| == |keys|
    requires forall k :: k in keys ==> k in s
    ensures Fill(s, keys, found).1.None? <==> forall j :: 0 <= j < |found| ==> found[j].Some?
  {
    if keys != [] && found[0].Some? {
      FillSucceedsIff(s[keys[0] := Append(s[keys[0]], found[0].value)], keys[1..], found[1..]);
      assert forall j :: 1 <= j < |found| ==> found[1..][j - 1] == found[j];
    }
  }

  /** A failure names the first key, in table order, that found nothing. */
  lemma {:induction false} FillFailsAtFirstMissing(s: map<string, Slot>, keys: seq<string>, found: seq<Option<string>>, j: nat)
    requires |found| == |keys|
    requires forall k :: k in keys ==> k in s
    requires j < |keys| && found[j].None?
    requires forall i :: 0 <= i < j ==> found[i].Some?
    ensures Fill(s, keys, found).1 == Some(MissingElement(keys[j]))
  {
    if j > 0 {
      assert forall i :: 0 <= i < j - 1 ==> found[1..][i] == found[i + 1];
      FillFailsAtFirstMissing(s[keys[0] := Append(s[keys[0]], found[0].value)], keys[1..], found[1..], j - 1);
    }
  }

  /** On success, the entry of each key gained exactly what was found for it. */
  lemma {:induction false} FillValue(s: map<string, Slot>, keys: seq<string>, found: seq<Option<string>>, j: nat)
    requires |found| == |keys|
    requires forall k :: k in keys ==> k in s
    requires forall a, b :: 0 <= a < b < |keys| ==> keys[a] != keys[b]
    requires j < |keys|
    requires Fill(s, keys, found).1.None?
    ensures found[j].Some? && Fill(s, keys, found).0[keys[j]] == Append(s[keys[j]], found[j].value)
  {
    var s' := s[keys[0] := Append(s[keys[0]], found[0].value)];
    if j == 0 {
      FillOthersUnchanged(s', keys[1..], found[1..], keys[0]);
    } else {
      assert forall a, b :: 0 <= a < b < |keys[1..]| ==> keys[1..][a] == keys[a + 1] && keys[1..][b] == keys[b + 1];
      FillValue(s', keys[1..], found[1..], j - 1);
    }
  }

  /** Entries whose key is not processed keep their value. */
  lemma {:induction false} FillOthersUnchanged(s: map<string, Slot>, keys: seq<string>, found: seq<Option<string>>, k: string)
    requires |found| == |keys|
    requires forall k' :: k' in keys ==> k' in s
    requires k in s && k !in keys
    ensures Fill(s, keys, found).0[k] == s[k]
  {
    if keys != [] && found[0].Some? {
      FillOthersUnchanged(s[keys[0] := Append(s[keys[0]], found[0].value)], keys[1..], found[1..], k);
    }
  }

  /** Extraction never moves an entry: row and column stay what they were, success or not. */
  lemma {:induction false} FillKeepsCoordinates(s: map<string, Slot>, keys: seq<string>, found: seq<Option<string>>, k: string)
    requires |found| == |keys|
    requires forall k' :: k' in keys ==> k' in s
    requires k in s
    ensures var e := Fill(s, keys, found).0[k]; e.row == s[k].row && e.col == s[k].col
  {
    if keys != [] && found[0].Some? {
      FillKeepsCoordinates(s[keys[0] := Append(s[keys[0]], found[0].value)], keys[1..], found[1..], k);
    }
  }

  /** With entries `lo` to `hi - 1`, the custom phase from `index` succeeds exactly when the remaining
      cells fit; otherwise it stops at the first missing index, `hi`. */
  lemma {:induction false} ExtractCustomOutcome(c: map<int, Slot>, tags: seq<Element>, index: int, lo: int, hi: int)
    requires forall k :: k in c <==> lo <= k < hi
    requires lo <= index <= hi
    ensures ExtractCustom(c, tags, index).1 == if index + |tags| <= hi then None else Some(NoCustomSlot(hi))
    decreases |tags|
  {
    if tags != [] && index < hi {
      var c' := c[index := Append(c[index], Strip(tags[0].text))];
      ExtractCustomOutcome(c', tags[1..], index + 1, lo, hi);
    }
  }

  /** Custom cell k (counted from `index`) lands in entry `index + k`; entries no cell reaches are unchanged. */
  lemma {:induction false} ExtractCustomValue(c: map<int, Slot>, tags: seq<Element>, index: int, k: int)
    requires k in c
    requires forall i :: index <= i < index + |tags| ==> i in c
    ensures ExtractCustom(c, tags, index).0[k]
         == if index <= k < index + |tags| then Append(c[k], Strip(tags[k - index].text)) else c[k]
    decreases |tags|
  {
    if tags != [] {
      var c' := c[index := Append(c[index], Strip(tags[0].text))];
      assert ExtractCustom(c, tags, index) == ExtractCustom(c', tags[1..], index + 1);
      if k == index {
        ExtractCustomUntouched(c', tags[1..], index + 1, k);
      } else {
        ExtractCustomValue(c', tags[1..], index + 1, k);
        if index < k < index + |tags| {
          assert tags[1..][k - (index + 1)] == tags[k - index];
        }
      }
    }
  }

  /** Entries below the starting index are left alone by the custom phase. */
  lemma {:induction false} ExtractCustomUntouched(c: map<int, Slot>, tags: seq<Element>, index: int, k: int)
    requires k in c && k < index
    ensures ExtractCustom(c, tags, index).0[k] == c[k]
    decreases |tags|
  {
    if tags != [] && index in c {
      var c' := c[index := Append(c[index], Strip(tags[0].text))];
      ExtractCustomUntouched(c', tags[1..], index + 1, k);
    }
  }

  /** The custom phase never moves an entry either. */
  lemma {:induction false} ExtractCustomKeepsCoordinates(c: map<int, Slot>, tags: seq<Element>, index: int, k: int)
    requires k in c
    ensures var e := ExtractCustom(c, tags, index).0[k]; e.row == c[k].row && e.col == c[k].col
    decreases |tags|
  {
    if tags != [] && index in c {
      var c' := c[index := Append(c[index], Strip(tags[0].text))];
      ExtractCustomKeepsCoordinates(c', tags[1..], index + 1, k);
    }
  }

  /* ---------- get_report_data on a fresh copy of the table ---------- */

  /** What a scalar key finds: nothing exactly when no element's class list is `["bug-<key>"]`, and otherwise
      the stripped text of the last such element in document order. */
  lemma LastTextIsLastMatch(page: seq<Element>, key: string, last: nat)
    requires last < |page| && Matches(ScalarSelector(key), page[last])
    requires forall i :: last < i < |page| ==> !Matches(ScalarSelector(key), page[i])
    ensures LastText(page, key) == Some(Strip(page[last].text))
  {
    FindAllLast(page, ScalarSelector(key), last);
  }

  lemma LastTextNone(page: seq<Element>, key: string)
    ensures LastText(page, key).None? <==> forall i :: 0 <= i < |page| ==> !Matches(ScalarSelector(key), page[i])
  {
    FindAllMembers(page, ScalarSelector(key));
    if LastText(page, key).None? {
      forall i | 0 <= i < |page|
        ensures !Matches(ScalarSelector(key), page[i])
      {
        assert page[i] in page;
      }
    } else {
      var found := FindAll(page, ScalarSelector(key));
      assert found[0] in found;
    }
  }

  /** Extraction on a table of the right shape succeeds exactly when every scalar key has an element
      and there are at most twelve custom-field cells; thirteen or more stop it at index 12. Fewer
      than twelve is not an error here. */
  lemma ReportDataOutcome(s: map<string, Slot>, c: map<int, Slot>, page: seq<Element>)
    requires forall k :: k in s <==> k in ScalarKeys
    requires forall k :: k in c <==> 0 <= k < CustomSlots
    ensures var r := ReportData(s, c, page);
            r.2.None? <==> (forall j :: 0 <= j < |ScalarKeys| ==> LastText(page, ScalarKeys[j]).Some?)
                           && |FindAll(page, CustomSelector)| <= CustomSlots
  {
    var found := LastTexts(page, ScalarKeys);
    FillSucceedsIff(s, ScalarKeys, found);
    forall j | 0 <= j < |ScalarKeys|
      ensures found[j] == LastText(page, ScalarKeys[j])
    {
      LastTextsAt(page, ScalarKeys, j);
    }
    ExtractCustomOutcome(c, FindAll(page, CustomSelector), 0, 0, CustomSlots);
  }

  /** After a successful extraction, each scalar entry has gained, as its one new text, what its key found. */
  lemma ReportDataScalar(s: map<string, Slot>, c: map<int, Slot>, page: seq<Element>, j: nat)
    requires forall k :: k in s <==> k in ScalarKeys
    requires j < |ScalarKeys|
    requires ReportData(s, c, page).2.None?
    ensures var key := ScalarKeys[j];
            LastText(page, key).Some? && ReportData(s, c, page).0[key] == Append(s[key], LastText(page, key).value)
  {
    ScalarKeysDistinct();
    FillValue(s, ScalarKeys, LastTexts(page, ScalarKeys), j);
    LastTextsAt(page, ScalarKeys, j);
  }

  /** After a successful extraction, custom entry k has gained the stripped text of the k-th
      custom-field cell in document order when there is one, and is unchanged otherwise. */
  lemma ReportDataCustom(s: map<string, Slot>, c: map<int, Slot>, page: seq<Element>, k: int)
    requires forall k :: k in s <==> k in ScalarKeys
    requires forall k :: k in c <==> 0 <= k < CustomSlots
    requires 0 <= k < CustomSlots
    requires ReportData(s, c, page).2.None?
    ensures var tags := FindAll(page, CustomSelector);
            ReportData(s, c, page).1[k] == if k < |tags| then Append(c[k], Strip(tags[k].text)) else c[k]
  {
    ReportDataOutcome(s, c, page);
    ExtractCustomValue(c, FindAll(page, CustomSelector), 0, k);
  }

  /** Whether or not it succeeds, extraction keeps every entry's row and column. */
  lemma ReportDataKeepsCoordinates(s: map<string, Slot>, c: map<int, Slot>, page: seq<Element>)
    requires forall k :: k in s <==> k in ScalarKeys
    ensures var r := ReportData(s, c, page);
            && r.0.Keys == s.Keys && r.1.Keys == c.Keys
            && (forall k :: k in s ==> r.0[k].row == s[k].row && r.0[k].col == s[k].col)
            && (forall k :: k in c ==> r.1[k].row == c[k].row && r.1[k].col == c[k].col)
  {
    var found := LastTexts(page, ScalarKeys);
    forall k | k in s
      ensures var e := ReportData(s, c, page).0[k]; e.row == s[k].row && e.col == s[k].col
    {
      FillKeepsCoordinates(s, ScalarKeys, found, k);
    }
    var (s', err) := ExtractScalars(s, ScalarKeys, page);
    if err.None? {
      forall k | k in c
        ensures var e := ReportData(s, c, page).1[k]; e.row == c[k].row && e.col == c[k].col
      {
        ExtractCustomKeepsCoordinates(c, FindAll(page, CustomSelector), 0, k);
      }
    }
  }
}
