/**
 * The per-issue folder: the issue number read from the page title and the folder key
 * built from the issue's category and that number.
 */
module Folder {
  import opened Wrappers
  import opened Text
  import opened Page

  /** The characters `re.sub(r'[<>:"/\\|?*]', '_', ...)` replaces. */
  predicate IsIllegalPathChar(c: char)
  {
    c == '<' || c == '>' || c == ':' || c == '"' || c == '/' || c == '\\' || c == '|' || c == '?' || c == '*'
  }

  predicate IsLegalPath(s: string)
  {
    forall i :: 0 <= i < |s| ==> !IsIllegalPathChar(s[i])
  }

  /** Every character of `<>:"/\|?*` replaced by `_`. */
  function ReplaceIllegal(s: string): (r: string)
    ensures |r| == |s|
    ensures IsLegalPath(r)
  {
    if s == [] then []
    else [if IsIllegalPathChar(s[0]) then '_' else s[0]] + ReplaceIllegal(s[1..])
  }

  lemma {:induction false} ReplaceIllegalAt(s: string, i: nat)
    requires i < |s|
    ensures ReplaceIllegal(s)[i] == if IsIllegalPathChar(s[i]) then '_' else s[i]
  {
    if i > 0 {
      ReplaceIllegalAt(s[1..], i - 1);
    }
  }

  /** A string without illegal characters is left unchanged, so the replacement is idempotent. */
  lemma {:induction false} ReplaceIllegalFixesLegal(s: string)
    requires IsLegalPath(s)
    ensures ReplaceIllegal(s) == s
  {
    if s != [] {
      ReplaceIllegalFixesLegal(s[1..]);
    }
  }

  lemma {:induction false} ReplaceIllegalConcat(a: string, b: string)
    ensures ReplaceIllegal(a + b) == ReplaceIllegal(a) + ReplaceIllegal(b)
  {
    if a == [] {
      assert a + b == b;
    } else {
      assert (a + b)[0] == a[0] && (a + b)[1..] == a[1..] + b;
      ReplaceIllegalConcat(a[1..], b);
    }
  }

  /** `title.split(':')[0]`: the issue number is the title up to its first colon. */
  function IssueNumber(title: string): (r: string)
    ensures StartsWith(title, r)
    ensures forall i :: 0 <= i < |r| ==> r[i] != ':'
    ensures r == title || title[|r|] == ':'
  {
    BeforeFirst(title, ':')
  }

  /** `re.sub(r'[<>:"/\\|?*]', '_', f"{category}_({issue_no})")` with the category's whitespace deleted. */
  function FolderKey(categoryText: string, issueNo: string): string
  {
    ReplaceIllegal(RemoveSpace(categoryText) + "_(" + issueNo + ")")
  }

  /** The key is the cleaned category, `_(`, the cleaned issue number and `)`: it holds none of
      `<>:"/\|?*`, ends with `)`, and its category part has no whitespace. */
  lemma {:induction false} FolderKeyShape(categoryText: string, issueNo: string)
    ensures var key := FolderKey(categoryText, issueNo);
            var cat := ReplaceIllegal(RemoveSpace(categoryText));
            && key == cat + "_(" + ReplaceIllegal(issueNo) + ")"
            && IsLegalPath(key)
            && key[|key| - 1] == ')'
            && forall i :: 0 <= i < |cat| ==> !IsSpace(cat[i])
  {
    var c := RemoveSpace(categoryText);
    ReplaceIllegalKeyParts(c, issueNo);
    var key := FolderKey(categoryText, issueNo);
    var cat := ReplaceIllegal(c);
    assert key[|key| - 1] == ')' by {
      assert key == (cat + "_(" + ReplaceIllegal(issueNo)) + ")";
    }
    forall i | 0 <= i < |cat|
      ensures !IsSpace(cat[i])
    {
      ReplaceIllegalAt(c, i);
    }
  }

  /** Cleaning `c + "_(" + n + ")"` cleans `c` and `n` and keeps the legal `_(` and `)`. */
  lemma ReplaceIllegalKeyParts(c: string, n: string)
    ensures ReplaceIllegal(c + "_(" + n + ")") == ReplaceIllegal(c) + "_(" + ReplaceIllegal(n) + ")"
  {
    ReplaceIllegalFixesLegal("_(");
    ReplaceIllegalFixesLegal(")");
    assert c + "_(" + n + ")" == c + ("_(" + (n + ")"));
    ReplaceIllegalConcat(c, "_(" + (n + ")"));
    ReplaceIllegalConcat("_(", n + ")");
    ReplaceIllegalConcat(n, ")");
  }

  /** A folder key is its own cleaned form. */
  lemma FolderKeyStable(categoryText: string, issueNo: string)
    ensures ReplaceIllegal(FolderKey(categoryText, issueNo)) == FolderKey(categoryText, issueNo)
  {
    ReplaceIllegalFixesLegal(FolderKey(categoryText, issueNo));
  }

  /** Whitespace inside the category is deleted, not turned into a separator: "Network Issues"
      gives the same key as "NetworkIssues". */
  lemma {:induction false} CategoryWhitespaceDeleted(a: string, b: string, issueNo: string)
    requires forall i :: 0 <= i < |a| ==> !IsSpace(a[i])
    requires forall i :: 0 <= i < |b| ==> !IsSpace(b[i])
    ensures FolderKey(a + " " + b, issueNo) == FolderKey(a + b, issueNo)
  {
    assert RemoveSpace(" ") == [] by {
      assert IsSpace(" "[0]) && " "[1..] == [];
    }
    calc {
      RemoveSpace(a + " " + b);
      { RemoveSpaceConcat(a + " ", b); }
      RemoveSpace(a + " ") + RemoveSpace(b);
      { RemoveSpaceConcat(a, " "); assert RemoveSpace(a) + [] == RemoveSpace(a); }
      RemoveSpace(a) + RemoveSpace(b);
      { RemoveSpaceConcat(a, b); }
      RemoveSpace(a + b);
    }
  }

  datatype ScrapeError =
    | NoTitle        // soup.title is None
    | NoCategoryCell // no <td> with class bug-category

  /** What `scrape_page` derives from the page: the issue number, the folder key and the snapshot file name. */
  datatype ScrapedIssue = ScrapedIssue(issueNo: string, folder: string, snapshot: string)

  /** The decisions of `scrape_page`: the issue number comes from the first `<title>`, the category
      from the first `<td>` carrying the class `bug-category`; a missing one raises. */
  function ScrapePage(page: seq<Element>): (r: Result<ScrapedIssue, ScrapeError>)
    ensures r.Success? ==> forall i :: 0 <= i < |r.value.issueNo| ==> r.value.issueNo[i] != ':'
    ensures r.Success? ==> IsLegalPath(r.value.folder) && EndsWith(r.value.snapshot, "_report.html")
  {
    match Find(page, Named("title"))
    case None => Failure(NoTitle)
    case Some(title) =>
      match Find(page, TdWithClass("bug-category"))
      case None => Failure(NoCategoryCell)
      case Some(cell) =>
        var issueNo := IssueNumber(title.text);
        FolderKeyShape(cell.text, issueNo);
        assert EndsWith(issueNo + "_report.html", "_report.html");
        Success(ScrapedIssue(issueNo, FolderKey(cell.text, issueNo), issueNo + "_report.html"))
  }

  /** `scrape_page` fails exactly when the page has no `<title>` or no `<td>` with the class `bug-category`. */
  lemma ScrapePageFails(page: seq<Element>)
    ensures ScrapePage(page).Failure?
        <==> ((forall i :: 0 <= i < |page| ==> !Matches(Named("title"), page[i]))
              || (forall i :: 0 <= i < |page| ==> !Matches(TdWithClass("bug-category"), page[i])))
  {
    FindSpec(page, Named("title"));
    FindSpec(page, TdWithClass("bug-category"));
  }

  /** Otherwise the issue number comes from the first `<title>` and the folder key from the first
      `bug-category` cell, in document order. */
  lemma ScrapePageValue(page: seq<Element>, t: nat, c: nat)
    requires t < |page| && Matches(Named("title"), page[t])
    requires forall i :: 0 <= i < t ==> !Matches(Named("title"), page[i])
    requires c < |page| && Matches(TdWithClass("bug-category"), page[c])
    requires forall i :: 0 <= i < c ==> !Matches(TdWithClass("bug-category"), page[i])
    ensures var issueNo := IssueNumber(page[t].text);
            ScrapePage(page) == Success(ScrapedIssue(issueNo, FolderKey(page[c].text, issueNo), issueNo + "_report.html"))
  {
    FindIsFirst(page, Named("title"), t);
    FindIsFirst(page, TdWithClass("bug-category"), c);
  }
}
