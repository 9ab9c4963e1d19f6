/** `initializeNavigation`: the navigation link whose `href` names the current
    page is coloured as active. */
module Navigation {
  import opened Wrappers

  /** The page assumed when the path ends in `/` or is empty. */
  const HomePage := "index.html"

  /** The colour given to the active link. */
  const ActiveColor := "#ff5a5f"

  predicate HasNoSlash(s: string) {
    forall k :: 0 <= k < |s| ==> s[k] != '/'
  }

  /** `path.split('/').pop()`: the longest suffix of `path` without a `/`. */
  function LastSegment(path: string): (r: string)
    ensures |r| <= |path| && r == path[|path| - |r|..]
    ensures HasNoSlash(r)
    ensures |r| < |path| ==> path[|path| - |r| - 1] == '/'
  {
    if path == [] || path[|path| - 1] == '/' then []
    else LastSegment(path[..|path| - 1]) + [path[|path| - 1]]
  }

  /** `pathname.split('/').pop() || 'index.html'`: the text after the last
      `/` of the path, or the home page when that text is empty. */
  function CurrentPage(pathname: string): (page: string)
    ensures page != [] && HasNoSlash(page)
    ensures pathname == [] || pathname[|pathname| - 1] == '/' ==> page == HomePage
    ensures pathname != [] && pathname[|pathname| - 1] != '/' ==>
              && |page| <= |pathname| && page == pathname[|pathname| - |page|..]
              && (|page| == |pathname| || pathname[|pathname| - |page| - 1] == '/')
  {
    var last := LastSegment(pathname);
    if last == [] then HomePage else last
  }

  /** A `nav a` element: its `href` attribute (None when the attribute is
      absent, where `getAttribute` gives null) and its inline colour. */
  datatype NavLink = NavLink(href: Option<string>, color: string)

  /** The link is marked active on `page`: its `href` is the page name,
      character for character. */
  predicate IsActive(link: NavLink, page: string) {
    link.href == Some(page)
  }

  /** A link after the highlighting step for `page`. */
  function Highlighted(link: NavLink, page: string): NavLink {
    if IsActive(link, page) then link.(color := ActiveColor) else link
  }

  /** The loop of `initializeNavigation` over the document's navigation links
      for the current page `page`: each link active on it gets the active
      colour, every other link is left as it was, and no link is added,
      removed or moved. */
  method HighlightLinks(links: array<NavLink>, page: string)
    modifies links
    ensures forall k :: 0 <= k < links.Length ==> links[k] == Highlighted(old(links[k]), page)
  {
    var i := 0;
    while i < links.Length
      invariant 0 <= i <= links.Length
      invariant forall k :: 0 <= k < i ==> links[k] == Highlighted(old(links[k]), page)
      invariant forall k :: i <= k < links.Length ==> links[k] == old(links[k])
    {
      if links[i].href == Some(page) {
        links[i] := links[i].(color := ActiveColor);
      }
      i := i + 1;
    }
  }

  /** `initializeNavigation` on a page whose path is `pathname`. */
  method InitializeNavigation(links: array<NavLink>, pathname: string)
    modifies links
    ensures forall k :: 0 <= k < links.Length ==>
              links[k] == Highlighted(old(links[k]), CurrentPage(pathname))
  {
    var currentPage := CurrentPage(pathname);
    HighlightLinks(links, currentPage);
  }

  /** Whatever precedes it, the segment after the last `/` is the current
      page. */
  lemma {:induction false} LastSegmentAfterSlash(dir: string, segment: string)
    requires HasNoSlash(segment)
    ensures LastSegment(dir + "/" + segment) == segment
    decreases |segment|
  {
    var path := dir + "/" + segment;
    if segment != [] {
      var init := segment[..|segment| - 1];
      LastSegmentAfterSlash(dir, init);
      assert path[..|path| - 1] == dir + "/" + init;
      assert init + [segment[|segment| - 1]] == segment;
    }
  }

  /** On a path that ends in a non-empty segment without `/`, the current
      page is that segment, whatever directories precede it. */
  lemma CurrentPageIsLastSegment(dir: string, segment: string)
    requires segment != [] && HasNoSlash(segment)
    ensures CurrentPage(dir + "/" + segment) == segment
  {
    LastSegmentAfterSlash(dir, segment);
  }

  /** A path that is empty or ends in `/` falls back to the home page. */
  lemma HomePageExamples()
    ensures CurrentPage("") == HomePage
    ensures CurrentPage("/") == HomePage
    ensures CurrentPage("/site/") == HomePage
  {
  }

  /** On a path ending in `/page`, a link whose `href` is `page` is active;
      a link to `page/` is not, because the comparison is exact, and neither
      is a link without an `href`. */
  lemma ExactMatch(dir: string, page: string, color: string)
    requires page != [] && HasNoSlash(page)
    ensures IsActive(NavLink(Some(page), color), CurrentPage(dir + "/" + page))
    ensures !IsActive(NavLink(Some(page + "/"), color), CurrentPage(dir + "/" + page))
    ensures !IsActive(NavLink(None, color), CurrentPage(dir + "/" + page))
  {
    CurrentPageIsLastSegment(dir, page);
    assert |page + "/"| != |page|;
  }
}
