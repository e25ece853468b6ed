/**
  `initActiveLink` (js/main.js:51-87) as a pure function: from the page
  path and the navigation links, with the `active` markers the markup
  starts with, to the set of links left marked active.

  Links are numbered in document order, the order of
  `document.querySelectorAll('.nav-menu a')`. A link inside a `.dropdown`
  records the index of that dropdown's first link, the one
  `dropdownParent.querySelector('a')` returns; in document order it comes
  no later than any other link of the dropdown.
 */
module ActiveLink {
  import opened Optional
  import opened Text

  /** A navigation link: its `href` attribute (`None` when it has none) and,
      inside a dropdown, the index of the dropdown's first link. */
  datatype Link = Link(href: Option<string>, dropdown: Option<nat>)

  const HomePage := "index.html"

  /** The page that is itself a dropdown item but does not mark its
      dropdown's parent link. */
  const SecondHomePage := "home2.html"

  /** `seg` is the part of `path` after its last '/' (all of it when it has
      none). */
  ghost predicate IsLastSegment(path: string, seg: string) {
    && '/' !in seg
    && exists i | 0 <= i <= |path| :: path[i..] == seg && (i == 0 || path[i - 1] == '/')
  }

  predicate EndsInSlash(path: string) {
    |path| > 0 && path[|path| - 1] == '/'
  }

  /** `window.location.pathname.split('/').pop() || 'index.html'` */
  function CurrentPage(path: string): (page: string)
    ensures page != [] && '/' !in page
    ensures path == [] || EndsInSlash(path) ==> page == HomePage
    ensures path != [] && !EndsInSlash(path) ==> IsLastSegment(path, page)
  {
    var parts := Split(path, '/');
    var last := parts[|parts| - 1];
    LastPartIsLastSegment(path);
    if last == [] then HomePage else last
  }

  lemma LastPartIsLastSegment(path: string)
    ensures IsLastSegment(path, Split(path, '/')[|Split(path, '/')| - 1])
    ensures Split(path, '/')[|Split(path, '/')| - 1] == [] <==> (path == [] || EndsInSlash(path))
  {
    var parts := Split(path, '/');
    var last := parts[|parts| - 1];
    JoinSplit(path, '/');
    if |parts| == 1 {
      assert path == last && path[0..] == last;
    } else {
      JoinLast(parts, '/');
      SegmentAfterSlash(path, Join(parts[..|parts| - 1], '/'), last);
    }
  }

  /** What follows the last '/' of a path is its last segment. */
  lemma SegmentAfterSlash(path: string, init: string, last: string)
    requires path == init + ['/'] + last && '/' !in last
    ensures IsLastSegment(path, last)
    ensures last == [] <==> EndsInSlash(path)
  {
    var m := |init| + 1;
    assert path[m..] == last && path[m - 1] == '/';
    if last != [] {
      assert path[|path| - 1] == last[|last| - 1];
      assert last[|last| - 1] in last;
    }
  }

  lemma CurrentPageOfRoot()
    ensures CurrentPage("") == HomePage
    ensures CurrentPage("/") == HomePage
  {
    assert EndsInSlash("/");
  }

  /** The current page is whatever follows the last '/', when something
      does. */
  lemma CurrentPageAfterSlash(path: string, i: nat)
    requires 0 < i < |path| && path[i - 1] == '/' && '/' !in path[i..]
    ensures CurrentPage(path) == path[i..]
  {
    var page := CurrentPage(path);
    assert path[|path| - 1] == path[i..][|path| - 1 - i];
    var m :| 0 <= m <= |path| && path[m..] == page && (m == 0 || path[m - 1] == '/');
  }

  lemma CurrentPageOfFile()
    ensures CurrentPage("/site/about.html") == "about.html"
  {
    var path := "/site/about.html";
    assert '/' !in path[6..];
    CurrentPageAfterSlash(path, 6);
  }

  /** The test at js/main.js:61-63, exactly as written. */
  predicate MatchesAsWritten(linkPage: Option<string>, currentPage: string) {
    || linkPage == Some(currentPage)
    || (currentPage == "" && linkPage == Some("index.html"))
    || (currentPage == "index.html" && linkPage == Some("index.html"))
  }

  /** The current page is never empty, so the second alternative of the test
      can never hold, and the third implies the first: the test is plain
      equality of the link's target with the current page. */
  lemma MatchIsEquality(path: string, linkPage: Option<string>)
    ensures CurrentPage(path) != ""
    ensures MatchesAsWritten(linkPage, CurrentPage(path)) <==> linkPage == Some(CurrentPage(path))
  {
  }

  /** Every dropdown link comes no earlier than its dropdown's first link. */
  predicate ParentsFirst(links: seq<Link>) {
    forall i | 0 <= i < |links| :: links[i].dropdown.Some? ==> links[i].dropdown.value <= i
  }

  /** One iteration of the `forEach` over the links, for link `i`. */
  function Visit(links: seq<Link>, page: string, i: nat, active: set<nat>): set<nat>
    requires i < |links|
  {
    var cleared := active - {i};
    if MatchesAsWritten(links[i].href, page) then
      var marked := cleared + {i};
      match links[i].dropdown
      case Some(p) =>
        if p !in marked && page != SecondHomePage then marked + {p} else marked
      case None => marked
    else cleared
  }

  /** The `forEach` from link `i` to the end. */
  function VisitFrom(links: seq<Link>, page: string, i: nat, active: set<nat>): set<nat>
    requires i <= |links|
    decreases |links| - i
  {
    if i == |links| then active
    else VisitFrom(links, page, i + 1, Visit(links, page, i, active))
  }

  /** The index of the first link whose `href` is `target`, as
      `document.querySelector('.nav-menu a[href="..."]')` finds it. */
  function FirstWithHref(links: seq<Link>, target: string): (r: Option<nat>)
    ensures r.Some? ==> r.value < |links| && links[r.value].href == Some(target)
    ensures r.Some? ==> forall j | 0 <= j < r.value :: links[j].href != Some(target)
    ensures r.None? ==> forall j | 0 <= j < |links| :: links[j].href != Some(target)
  {
    if links == [] then None
    else if links[0].href == Some(target) then Some(0)
    else
      match FirstWithHref(links[1..], target)
      case Some(j) => Some(j + 1)
      case None => None
  }

  /** The special case at js/main.js:81-86. */
  function Override(links: seq<Link>, page: string, active: set<nat>): set<nat> {
    if page == SecondHomePage then
      match FirstWithHref(links, SecondHomePage)
      case Some(j) => active + {j}
      case None => active
    else active
  }

  /** Link `i` targets the current page. */
  predicate Hit(links: seq<Link>, page: string, i: int) {
    0 <= i < |links| && links[i].href == Some(page)
  }

  /** Link `j` is the first link of a dropdown holding a link, among the
      first `k`, that targets the current page, and the page is not the
      second home page. */
  ghost predicate Bubbled(links: seq<Link>, page: string, k: nat, j: nat) {
    && page != SecondHomePage
    && exists i | 0 <= i < k :: Hit(links, page, i) && links[i].dropdown == Some(j)
  }

  /** The links the markers end on: those targeting the current page and,
      unless it is the second home page, the first link of each dropdown
      holding one of them. */
  ghost function Expected(links: seq<Link>, page: string): set<nat> {
    set j: nat | j < |links| && (Hit(links, page, j) || Bubbled(links, page, |links|, j))
  }

  /** The markers once the first `k` links have been visited. */
  ghost function AfterVisits(links: seq<Link>, page: string, k: nat, initial: set<nat>): set<nat> {
    set j: nat | j < |links| && ((j < k && Hit(links, page, j)) || Bubbled(links, page, k, j) || (k <= j && j in initial))
  }

  lemma VisitStep(links: seq<Link>, page: string, k: nat, initial: set<nat>)
    requires ParentsFirst(links) && page != ""
    requires k < |links|
    requires forall j | j in initial :: j < |links|
    ensures Visit(links, page, k, AfterVisits(links, page, k, initial)) == AfterVisits(links, page, k + 1, initial)
  {
    var before := AfterVisits(links, page, k, initial);
    var after := Visit(links, page, k, before);
    var want := AfterVisits(links, page, k + 1, initial);
    assert MatchesAsWritten(links[k].href, page) <==> Hit(links, page, k);
    forall j: nat | j in after
      ensures j in want
    {
      if j == k {
        assert Hit(links, page, k);
      } else if j in before {
        if Bubbled(links, page, k, j) {
          var i :| 0 <= i < k && Hit(links, page, i) && links[i].dropdown == Some(j);
          assert 0 <= i < k + 1;
        }
      } else {
        assert Hit(links, page, k) && links[k].dropdown == Some(j) && page != SecondHomePage;
        assert 0 <= k < k + 1;
      }
    }
    forall j: nat | j in want
      ensures j in after
    {
      if Bubbled(links, page, k + 1, j) && !Bubbled(links, page, k, j) {
        var i :| 0 <= i < k + 1 && Hit(links, page, i) && links[i].dropdown == Some(j);
        assert i == k;
      } else if Bubbled(links, page, k + 1, j) {
        var i :| 0 <= i < k && Hit(links, page, i) && links[i].dropdown == Some(j);
        assert j <= i;
      }
    }
  }

  lemma {:induction false} VisitAll(links: seq<Link>, page: string, k: nat, initial: set<nat>)
    requires ParentsFirst(links) && page != ""
    requires k <= |links|
    requires forall j | j in initial :: j < |links|
    ensures VisitFrom(links, page, k, AfterVisits(links, page, k, initial)) == Expected(links, page)
    decreases |links| - k
  {
    if k == |links| {
      assert AfterVisits(links, page, k, initial) == Expected(links, page);
    } else {
      VisitStep(links, page, k, initial);
      VisitAll(links, page, k + 1, initial);
    }
  }

  /** `initActiveLink`. */
  function InitActiveLink(path: string, links: seq<Link>, initial: set<nat>): (active: set<nat>)
    requires ParentsFirst(links)
    requires forall j | j in initial :: j < |links|
    ensures active == Expected(links, CurrentPage(path))
  {
    var page := CurrentPage(path);
    assert AfterVisits(links, page, 0, initial) == initial;
    VisitAll(links, page, 0, initial);
    var visited := VisitFrom(links, page, 0, initial);
    OverrideIsRedundant(links, page, visited);
    Override(links, page, visited)
  }

  /** The special case for the second home page never changes the outcome:
      the link it marks already is. */
  lemma OverrideIsRedundant(links: seq<Link>, page: string, active: set<nat>)
    requires active == Expected(links, page)
    ensures Override(links, page, active) == active
  {
    if page == SecondHomePage && FirstWithHref(links, SecondHomePage).Some? {
      var j := FirstWithHref(links, SecondHomePage).value;
      assert Hit(links, page, j);
    }
  }

  /** On the second home page no dropdown parent is marked: exactly the
      links targeting it end active. */
  lemma SecondHomeMarksOnlyItself(path: string, links: seq<Link>, initial: set<nat>)
    requires ParentsFirst(links)
    requires forall j | j in initial :: j < |links|
    requires CurrentPage(path) == SecondHomePage
    ensures forall j: nat | j < |links| :: j in InitActiveLink(path, links, initial) <==> links[j].href == Some(SecondHomePage)
  {
  }

  /** A menu with a "Home" dropdown holding two home pages. */
  const SampleMenu: seq<Link> := [
    Link(Some("index.html"), None),
    Link(Some("#"), Some(1)),
    Link(Some("home.html"), Some(1)),
    Link(Some("home2.html"), Some(1)),
    Link(Some("about.html"), None)
  ]

  /** A dropdown item marks itself and its dropdown's first link. */
  lemma DropdownItemExample()
    ensures Expected(SampleMenu, "home.html") == {1, 2}
  {
    var want := Expected(SampleMenu, "home.html");
    assert Hit(SampleMenu, "home.html", 2) && SampleMenu[2].dropdown == Some(1);
    assert 1 in want && 2 in want;
    forall j: nat | j in want
      ensures j == 1 || j == 2
    {
      if !Hit(SampleMenu, "home.html", j) {
        var i :| 0 <= i < |SampleMenu| && Hit(SampleMenu, "home.html", i) && SampleMenu[i].dropdown == Some(j);
        assert i == 2;
      }
    }
  }

  /** On the second home page only its own link is marked. */
  lemma SecondHomeExample()
    ensures Expected(SampleMenu, SecondHomePage) == {3}
  {
    var want := Expected(SampleMenu, SecondHomePage);
    assert Hit(SampleMenu, SecondHomePage, 3);
    assert 3 in want;
  }

  /** Visiting the sample menu from the page "/home.html": the marker the
      markup put on the first link is cleared, and the dropdown item and its
      dropdown's first link end marked. */
  lemma DropdownPageExample()
    ensures InitActiveLink("/home.html", SampleMenu, {0}) == {1, 2}
  {
    CurrentPageAfterSlash("/home.html", 1);
    DropdownItemExample();
  }

  /** Visiting the sample menu from the page "/home2.html". */
  lemma SecondHomePageExample()
    ensures InitActiveLink("/home2.html", SampleMenu, {0}) == {3}
  {
    CurrentPageAfterSlash("/home2.html", 1);
    SecondHomeExample();
  }
}
