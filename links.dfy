/**
 * Attachment links on an issue page: which anchors qualify, how they are de-duplicated,
 * the absolute URL each is fetched from, and the file name it is saved under.
 */
module Links {
  import opened Text
  import opened Wrappers
  import opened Page

  /* ---------- Base URL and URL resolution ---------- */

  /** The base URL the scraper keeps: `base_url.rstrip('/')`. */
  function TrimBase(baseUrl: string): (r: string)
    ensures StartsWith(baseUrl, r)
    ensures r == [] || r[|r| - 1] != '/'
    ensures forall i :: |r| <= i < |baseUrl| ==> baseUrl[i] == '/'
  {
    RStripChar(baseUrl, '/')
  }

  /** Trimming an already trimmed base changes nothing. */
  lemma TrimBaseIdempotent(baseUrl: string)
    ensures TrimBase(TrimBase(baseUrl)) == TrimBase(baseUrl)
  {
    var r := TrimBase(baseUrl);
    assert r == [] || r[|r| - 1] != '/';
  }

  /** The URL an attachment is fetched from: an href starting with `http` is used as it is;
      any other href has its leading slashes dropped and is joined to the base with one `/`. */
  function ResolveUrl(baseUrl: string, href: string): string
  {
    if StartsWith(href, "http") then href else baseUrl + "/" + LStripChar(href, '/')
  }

  lemma AbsoluteHrefKept(baseUrl: string, href: string)
    requires StartsWith(href, "http")
    ensures ResolveUrl(baseUrl, href) == href
  {
  }

  /** For a relative href, the resolved URL is the trimmed base, one `/`, then the href without
      its leading slashes, so the join point never holds two consecutive slashes. */
  lemma {:induction false} JoinPointSingleSlash(rawBase: string, href: string)
    requires !StartsWith(href, "http")
    ensures var base := TrimBase(rawBase);
            var r := ResolveUrl(base, href);
            && StartsWith(r, base)
            && |r| > |base| && r[|base|] == '/'
            && r[|base| + 1..] == LStripChar(href, '/')
            && (|base| == 0 || r[|base| - 1] != '/')
            && (|r| == |base| + 1 || r[|base| + 1] != '/')
  {
    var base := TrimBase(rawBase);
    var rest := LStripChar(href, '/');
    LStripCharSpec(href, '/');
    var r := ResolveUrl(base, href);
    assert r == base + "/" + rest;
    assert r[..|base|] == base;
    assert r[|base| + 1..] == rest;
    if |r| > |base| + 1 {
      assert r[|base| + 1] == rest[0];
    }
  }

  /* ---------- os.path.splitext ---------- */

  /** Index of the last `c` in `s`, or -1 (Python's `str.rfind`). */
  function LastIndexOf(s: string, c: char): (r: int)
    ensures -1 <= r < |s|
    ensures r >= 0 ==> s[r] == c
    ensures forall j :: r < j < |s| ==> s[j] != c
  {
    if s == [] then -1
    else if s[|s| - 1] == c then |s| - 1
    else LastIndexOf(s[..|s| - 1], c)
  }

  /** Some character of `p[lo..hi]` is not a `.`: the scan `splitext` makes past the leading dots. */
  predicate HasNonDot(p: string, lo: int, hi: int)
    requires 0 <= lo && hi <= |p|
    decreases hi - lo
  {
    lo < hi && (p[lo] != '.' || HasNonDot(p, lo + 1, hi))
  }

  lemma {:induction false} HasNonDotIff(p: string, lo: int, hi: int)
    requires 0 <= lo && hi <= |p|
    ensures HasNonDot(p, lo, hi) <==> exists k :: lo <= k < hi && p[k] != '.'
    decreases hi - lo
  {
    if lo < hi {
      HasNonDotIff(p, lo + 1, hi);
    }
  }

  /** `os.path.splitext(p)` with `/` as the separator: the extension starts at the last `.` after the
      last `/`, unless everything between that `/` and that `.` is dots (a leading-dot name such as `.bashrc`). */
  function SplitExt(p: string): (r: (string, string))
    ensures r.0 + r.1 == p
    ensures r.1 == [] || r.1[0] == '.'
    ensures forall j :: 0 < j < |r.1| ==> r.1[j] != '.' && r.1[j] != '/'
  {
    var sepIndex := LastIndexOf(p, '/');
    var dotIndex := LastIndexOf(p, '.');
    if dotIndex > sepIndex && HasNonDot(p, sepIndex + 1, dotIndex) then
      assert forall j :: 0 < j < |p[dotIndex..]| ==> p[dotIndex..][j] == p[dotIndex + j];
      (p[..dotIndex], p[dotIndex..])
    else
      (p, "")
  }

  /** Text without a `.` has no extension. */
  lemma SplitExtNoDot(p: string)
    requires forall j :: 0 <= j < |p| ==> p[j] != '.'
    ensures SplitExt(p) == (p, "")
  {
  }

  /** When everything between the last `/` and the last `.` is dots (a name such as `.bashrc` or
      `..x`), or there is no `.` after the last `/`, the text has no extension. */
  lemma SplitExtLeadingDots(p: string)
    requires forall k :: LastIndexOf(p, '/') < k < LastIndexOf(p, '.') ==> p[k] == '.'
    ensures SplitExt(p) == (p, "")
  {
    var sepIndex, dotIndex := LastIndexOf(p, '/'), LastIndexOf(p, '.');
    if dotIndex > sepIndex {
      HasNonDotIff(p, sepIndex + 1, dotIndex);
    }
  }

  /** A name, a dot and an extension without dots or slashes split back into name and `.`+extension,
      as long as the name has a character other than `.` after its last `/`. */
  lemma {:induction false} SplitExtOfNameDotExt(name: string, ext: string)
    requires forall j :: 0 <= j < |ext| ==> ext[j] != '.' && ext[j] != '/'
    requires exists k :: LastIndexOf(name, '/') < k < |name| && name[k] != '.'
    ensures SplitExt(name + "." + ext) == (name, "." + ext)
  {
    var p := name + "." + ext;
    LastIndexAfter(name + ".", ext, '.');
    LastIndexAfter(name + ".", ext, '/');
    LastIndexAfter(name, ".", '/');
    assert LastIndexOf(p, '.') == |name|;
    var k :| LastIndexOf(name, '/') < k < |name| && name[k] != '.';
    assert p[k] == name[k];
    HasNonDotIff(p, LastIndexOf(p, '/') + 1, |name|);
    assert p[..|name|] == name;
    assert p[|name|..] == "." + ext;
  }

  /** Appending text without `c` does not move the last `c`. */
  lemma {:induction false} LastIndexAfter(a: string, b: string, c: char)
    requires forall j :: 0 <= j < |b| ==> b[j] != c
    ensures LastIndexOf(a + b, c) == LastIndexOf(a, c)
  {
    if b != [] {
      assert (a + b)[..|a + b| - 1] == a + b[..|b| - 1];
      LastIndexAfter(a, b[..|b| - 1], c);
    } else {
      assert a + b == a;
    }
  }

  /* ---------- File-name sanitisation ---------- */

  /** `\w` restricted to ASCII: a letter, a digit or `_`. */
  predicate IsWordChar(c: char)
  {
    ('a' <= c <= 'z') || ('A' <= c <= 'Z') || IsDigit(c) || c == '_'
  }

  /** The characters the regex `[^\w\.-]` leaves alone. */
  predicate Kept(c: char)
  {
    IsWordChar(c) || c == '.' || c == '-'
  }

  predicate IsClean(s: string)
  {
    forall i :: 0 <= i < |s| ==> Kept(s[i])
  }

  function SanitiseChar(c: char): char
  {
    if Kept(c) then c else '_'
  }

  /** `re.sub(r'[^\w\.-]', '_', s)`: every character outside `[\w.-]` becomes `_`. */
  function Sanitise(s: string): (r: string)
    ensures |r| == |s|
    ensures IsClean(r)
  {
    if s == [] then [] else [SanitiseChar(s[0])] + Sanitise(s[1..])
  }

  /** Character `i` of the sanitised string is character `i` of the input, or `_` when that one is not kept. */
  lemma {:induction false} SanitiseAt(s: string, i: nat)
    requires i < |s|
    ensures Sanitise(s)[i] == if Kept(s[i]) then s[i] else '_'
  {
    if i > 0 {
      SanitiseAt(s[1..], i - 1);
    }
  }

  /** A string made only of kept characters is left unchanged. */
  lemma {:induction false} SanitiseFixesClean(s: string)
    requires IsClean(s)
    ensures Sanitise(s) == s
  {
    if s != [] {
      SanitiseFixesClean(s[1..]);
    }
  }

  /** Sanitising twice is sanitising once. */
  lemma {:induction false} SanitiseIdempotent(s: string)
    ensures Sanitise(Sanitise(s)) == Sanitise(s)
  {
    SanitiseFixesClean(Sanitise(s));
  }

  lemma {:induction false} SanitiseConcat(a: string, b: string)
    ensures Sanitise(a + b) == Sanitise(a) + Sanitise(b)
  {
    if a == [] {
      assert a + b == b;
    } else {
      assert (a + b)[0] == a[0] && (a + b)[1..] == a[1..] + b;
      SanitiseConcat(a[1..], b);
    }
  }

  /* ---------- Attachment file names ---------- */

  /** The name attachment number `index` (counted from 1) is saved under, from the link's text:
      `f"{index}_{basename.strip()}.{extension}"`, sanitised, where the extension is the text's
      extension without its dot. The `or` fallback to `{index}_file.{extension}` is kept as written. */
  function AttachmentFilename(index: nat, text: string): string
  {
    var parts := SplitExt(text);
    var extension := LStripChar(parts.1, '.');
    var name := Decimal(index) + "_" + Strip(parts.0) + "." + extension;
    Sanitise(if name != [] then name else Decimal(index) + "_file." + extension)
  }

  /** The part of the name after the index prefix. */
  function NameTail(text: string): string
  {
    var parts := SplitExt(text);
    Strip(parts.0) + "." + LStripChar(parts.1, '.')
  }

  /** The index prefix `{index}_` passes sanitisation unchanged. */
  lemma IndexPrefixClean(index: nat)
    ensures Sanitise(Decimal(index) + "_") == Decimal(index) + "_"
  {
    var d := Decimal(index);
    assert IsClean(d + "_") by {
      forall i | 0 <= i < |d + "_"|
        ensures Kept((d + "_")[i])
      {
        if i < |d| {
          assert (d + "_")[i] == d[i] && IsDigit(d[i]);
        }
      }
    }
    SanitiseFixesClean(d + "_");
  }

  /** The `or` fallback never applies: the first name always has the index in front, so it is never empty. */
  lemma FallbackNeverUsed(index: nat, text: string)
    ensures AttachmentFilename(index, text) == Sanitise(Decimal(index) + "_" + NameTail(text))
  {
    var parts := SplitExt(text);
    var name := Decimal(index) + "_" + Strip(parts.0) + "." + LStripChar(parts.1, '.');
    assert name == Decimal(index) + "_" + NameTail(text);
  }

  /** The name is the index, `_`, then the sanitised stripped base name, a `.` and the extension;
      it only holds kept characters. */
  lemma {:induction false} AttachmentFilenameShape(index: nat, text: string)
    ensures AttachmentFilename(index, text) == Decimal(index) + "_" + Sanitise(NameTail(text))
    ensures IsClean(AttachmentFilename(index, text))
  {
    var prefix := Decimal(index) + "_";
    var tail := NameTail(text);
    FallbackNeverUsed(index, text);
    SanitiseConcat(prefix, tail);
    IndexPrefixClean(index);
  }

  /** Text without an extension gives a name ending in `.`. */
  lemma {:induction false} NoExtensionTrailingDot(index: nat, text: string)
    requires SplitExt(text).1 == []
    ensures var r := AttachmentFilename(index, text); r != [] && r[|r| - 1] == '.'
  {
    AttachmentFilenameShape(index, text);
    var tail := NameTail(text);
    assert tail == Strip(SplitExt(text).0) + ".";
    SanitiseAt(tail, |tail| - 1);
  }

  /** Two all-digit strings followed by `_` agree up to the `_` only if they are equal. */
  lemma {:induction false} DigitPrefixDetermined(p: string, q: string, x: string, y: string)
    requires AllDigits(p) && AllDigits(q)
    requires p + "_" + x == q + "_" + y
    ensures p == q
  {
    var s := p + "_" + x;
    assert s[|p|] == '_';
    assert s == q + "_" + y;
    assert s[|q|] == '_';
    assert p == s[..|p|] && q == s[..|q|];
  }

  /** Attachments at different indices never share a file name, whatever their texts. */
  lemma {:induction false} FilenameDeterminesIndex(i: nat, t: string, j: nat, u: string)
    requires AttachmentFilename(i, t) == AttachmentFilename(j, u)
    ensures i == j
  {
    AttachmentFilenameShape(i, t);
    AttachmentFilenameShape(j, u);
    DigitPrefixDetermined(Decimal(i), Decimal(j), Sanitise(NameTail(t)), Sanitise(NameTail(u)));
    DecimalInjective(i, j);
  }

  /* ---------- Qualification and de-duplication ---------- */

  /** The href fragment that marks a download link on an issue page. */
  const DownloadFragment := "file_download.php"

  /** The candidate anchors: `<a>` tags whose href contains the download fragment. */
  function CandidateLinks(page: seq<Element>): seq<Element>
  {
    FindAll(page, AnchorHrefContains(DownloadFragment))
  }

  /** A genuine attachment anchor: exactly one attribute, no child tag, and text that is not blank. */
  predicate Qualifies(e: Element)
  {
    AttrCount(e) == 1 && !e.hasChildElement && Strip(e.text) != []
  }

  /** `set(link for link in links if qualifies)`. Tags compare structurally (name, attributes,
      contents), which is datatype equality on `Element`. */
  function UniqueLinks(links: seq<Element>): (r: set<Element>)
    ensures forall e :: e in r ==> Qualifies(e) && e in links
    ensures forall i :: 0 <= i < |links| && Qualifies(links[i]) ==> links[i] in r
  {
    set e | e in links && Qualifies(e)
  }

  /** De-duplicating a listing of the survivors gives the survivors back. */
  lemma UniqueLinksIdempotent(links: seq<Element>, again: seq<Element>)
    requires forall e :: e in again <==> e in UniqueLinks(links)
    ensures UniqueLinks(again) == UniqueLinks(links)
  {
  }

  /** A map with one key holds exactly that key. */
  lemma SingleKey(m: map<string, string>, k: string)
    requires |m| == 1 && k in m
    ensures m == map[k := m[k]]
  {
    forall k' | k' in m
      ensures k' == k
    {
      if k' != k {
        assert {k, k'} <= m.Keys;
        assert |{k, k'}| == 2;
        SubsetCard({k, k'}, m.Keys);
        assert false;
      }
    }
  }

  lemma {:induction false} SubsetCard<T>(a: set<T>, b: set<T>)
    requires a <= b
    ensures |a| <= |b|
    decreases |a|
  {
    if a != {} {
      var x :| x in a;
      SubsetCard(a - {x}, b - {x});
    }
  }

  /** A qualifying candidate is determined by its href and its text: its only attribute is the href. */
  lemma QualifiedCandidateShape(e: Element)
    requires Matches(AnchorHrefContains(DownloadFragment), e) && Qualifies(e)
    ensures e == Element("a", None, map["href" := e.attrs["href"]], e.text, false)
  {
    assert e.classes.None?;
    SingleKey(e.attrs, "href");
  }

  /** Every link selected from a page's candidates has an href, so `link["href"]` in the download
      loop never raises. */
  lemma SurvivorsHaveHref(page: seq<Element>)
    ensures forall e | e in UniqueLinks(CandidateLinks(page)) :: "href" in e.attrs && e.attrs["href"] != ""
  {
    FindAllMembers(page, AnchorHrefContains(DownloadFragment));
  }

  /** Among the candidate links of a page, no two survivors share both href and text. */
  lemma SurvivorsDistinctByKey(page: seq<Element>, a: Element, b: Element)
    requires a in UniqueLinks(CandidateLinks(page)) && b in UniqueLinks(CandidateLinks(page))
    requires a != b
    ensures "href" in a.attrs && "href" in b.attrs
    ensures a.attrs["href"] != b.attrs["href"] || a.text != b.text
  {
    FindAllMembers(page, AnchorHrefContains(DownloadFragment));
    QualifiedCandidateShape(a);
    QualifiedCandidateShape(b);
  }
}
