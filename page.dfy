/**
 * The parsed issue page, abstracted from BeautifulSoup: the page's tags in document
 * order, each with its name, its class list (absent when the tag has no `class`
 * attribute), its other attributes, its text and whether it has a child tag.
 * The queries the scraper runs on it are `Selector`s.
 */
module Page {
  import opened Wrappers
  import opened Text

  /** A tag's attributes other than `class`: the parser keeps the class list apart, in `classes`. */
  type Attributes = m: map<string, string> | "class" !in m witness map[]

  /** A tag. Its `class` attribute is held in `classes`, and `Attributes` keeps it out of `attrs`. */
  datatype Element = Element(
    name: string,
    classes: Option<seq<string>>,
    attrs: Attributes,
    text: string,
    hasChildElement: bool)

  /** `len(tag.attrs)`: the class list counts as one attribute. */
  function AttrCount(e: Element): nat
  {
    |e.attrs| + (if e.classes.Some? then 1 else 0)
  }

  /** `AttrCount` is the number of distinct attribute names of the tag, as `len(tag.attrs)` is. */
  lemma AttrCountNames(e: Element)
    ensures AttrCount(e) == |e.attrs.Keys + (if e.classes.Some? then {"class"} else {})|
  {
  }

  /** The tag filters the scraper passes to `find` and `find_all`. */
  datatype Selector =
    | ExactClasses(cls: string)           // tag.has_attr("class") and tag["class"] == [cls]
    | TdExactClasses(cls: string)         // tag.name == 'td' and tag.get('class') == [cls]
    | TdWithClass(cls: string)            // find("td", class_=cls): cls is one of the tag's classes
    | Named(tag: string)                  // soup.<tag>
    | AnchorHrefContains(fragment: string) // find_all("a", href=lambda x: x and fragment in x)

  predicate Matches(sel: Selector, e: Element)
  {
    match sel
    case ExactClasses(cls) => e.classes == Some([cls])
    case TdExactClasses(cls) => e.name == "td" && e.classes == Some([cls])
    case TdWithClass(cls) => e.name == "td" && e.classes.Some? && cls in e.classes.value
    case Named(tag) => e.name == tag
    case AnchorHrefContains(fragment) =>
      e.name == "a" && "href" in e.attrs && e.attrs["href"] != "" && Contains(e.attrs["href"], fragment)
  }

  /** `soup.find_all(sel)`: the matching tags, in document order. */
  function FindAll(page: seq<Element>, sel: Selector): (r: seq<Element>)
    ensures |r| <= |page|
  {
    if page == [] then []
    else (if Matches(sel, page[0]) then [page[0]] else []) + FindAll(page[1..], sel)
  }

  /** `soup.find(sel)`: the first match, or `None`. */
  function Find(page: seq<Element>, sel: Selector): Option<Element>
  {
    var all := FindAll(page, sel);
    if all == [] then None else Some(all[0])
  }

  /** `find_all` keeps exactly the matching tags of the page. */
  lemma {:induction false} FindAllMembers(page: seq<Element>, sel: Selector)
    ensures forall e :: e in FindAll(page, sel) <==> e in page && Matches(sel, e)
  {
    if page != [] {
      FindAllMembers(page[1..], sel);
      assert page == [page[0]] + page[1..];
    }
  }

  /** `find` fails exactly when no tag matches, and otherwise returns a matching tag of the page. */
  lemma FindSpec(page: seq<Element>, sel: Selector)
    ensures Find(page, sel).None? <==> forall i :: 0 <= i < |page| ==> !Matches(sel, page[i])
    ensures Find(page, sel).Some? ==> Find(page, sel).value in page && Matches(sel, Find(page, sel).value)
  {
    FindAllMembers(page, sel);
    var all := FindAll(page, sel);
    if all != [] {
      assert all[0] in all;
    } else {
      forall i | 0 <= i < |page|
        ensures !Matches(sel, page[i])
      {
        assert page[i] in page;
      }
    }
  }

  /** `find` returns the matching tag that comes first in the document. */
  lemma {:induction false} FindIsFirst(page: seq<Element>, sel: Selector, i: nat)
    requires i < |page| && Matches(sel, page[i])
    requires forall j :: 0 <= j < i ==> !Matches(sel, page[j])
    ensures Find(page, sel) == Some(page[i])
  {
    FindAllFirst(page, sel, i);
  }

  lemma {:induction false} FindAllFirst(page: seq<Element>, sel: Selector, i: nat)
    requires i < |page| && Matches(sel, page[i])
    requires forall j :: 0 <= j < i ==> !Matches(sel, page[j])
    ensures FindAll(page, sel) != [] && FindAll(page, sel)[0] == page[i]
  {
    if i > 0 {
      FindAllFirst(page[1..], sel, i - 1);
    }
  }

  /** `find_all(sel)[-1]` is the matching tag that comes last in the document. */
  lemma {:induction false} FindAllLast(page: seq<Element>, sel: Selector, i: nat)
    requires i < |page| && Matches(sel, page[i])
    requires forall j :: i < j < |page| ==> !Matches(sel, page[j])
    ensures var all := FindAll(page, sel); all != [] && all[|all| - 1] == page[i]
  {
    if i > 0 {
      FindAllLast(page[1..], sel, i - 1);
    } else {
      FindAllNone(page[1..], sel);
    }
  }

  /** A page with no matching tag yields an empty `find_all`. */
  lemma {:induction false} FindAllNone(page: seq<Element>, sel: Selector)
    requires forall j :: 0 <= j < |page| ==> !Matches(sel, page[j])
    ensures FindAll(page, sel) == []
  {
    if page != [] {
      FindAllNone(page[1..], sel);
    }
  }
}
