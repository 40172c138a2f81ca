/**
 * The activation over a small outline shaped like the book's: chapter
 * items at the top level, then a plain `LI` holding a `section` list whose
 * items are chapter items too; plus the scroll and toggle handlers in use.
 *
 *   root: OL
 *     li1: LI.chapter-item > a1 "index.html"
 *     li2: LI.chapter-item > a2 "part-2.html"
 *     li3: LI > ol: OL.section
 *                 li4: LI.chapter-item > a3 "ch04.html"
 */
module Scenarios {
  import opened Wrappers
  import opened Strings
  import opened Url
  import opened Href
  import opened Dom
  import opened Sidebar

  const Base := "https://book.example/"

  /** The browser's resolution of an href against the page, fixed here for concreteness. */
  function ResolveAgainstBase(href: Option<string>): string {
    if href.Some? then Base + href.value else Base
  }

  /** The shape drawn above; it speaks only of fields that never change. */
  ghost predicate Outline(root: Node, li1: Node, a1: Node, li2: Node, a2: Node,
                          li3: Node, ol: Node, li4: Node, a3: Node)
  {
    root.tag == "OL" && !root.chapterItem && root.parent == null && root.prev == null &&
    li1.tag == "LI" && li1.chapterItem && li1.parent == root && li1.prev == null && li1.depth == root.depth + 1 &&
    a1.tag == "A" && a1.parent == li1 && a1.prev == null && a1.depth == li1.depth + 1 &&
    li2.tag == "LI" && li2.chapterItem && li2.parent == root && li2.prev == li1 && li2.depth == root.depth + 1 &&
    a2.tag == "A" && a2.parent == li2 && a2.prev == null && a2.depth == li2.depth + 1 &&
    li3.tag == "LI" && !li3.chapterItem && li3.parent == root && li3.prev == li2 && li3.depth == root.depth + 1 &&
    ol.tag == "OL" && !ol.chapterItem && ol.parent == li3 && ol.prev == null && ol.depth == li3.depth + 1 &&
    li4.tag == "LI" && li4.chapterItem && li4.parent == ol && li4.prev == null && li4.depth == ol.depth + 1 &&
    a3.tag == "A" && a3.parent == li4 && a3.prev == null && a3.depth == li4.depth + 1
  }

  lemma OutlineClosed(root: Node, li1: Node, a1: Node, li2: Node, a2: Node,
                      li3: Node, ol: Node, li4: Node, a3: Node)
    requires Outline(root, li1, a1, li2, a2, li3, ol, li4, a3)
    ensures Closed({root, li1, a1, li2, a2, li3, ol, li4, a3})
  {
  }

  /**
   * For the nested anchor `a3`, the walk opens its own item and, through the
   * plain `LI` holding the section, the chapter item just before it, and no
   * other top-level item.
   */
  lemma NestedAnchorOpens(root: Node, li1: Node, a1: Node, li2: Node, a2: Node,
                          li3: Node, ol: Node, li4: Node, a3: Node)
    requires Outline(root, li1, a1, li2, a2, li3, ol, li4, a3)
    ensures var nodes := {root, li1, a1, li2, a2, li3, ol, li4, a3};
      Closed(nodes) && Opens(nodes, a3, li4) && Opens(nodes, a3, li2) && !Opens(nodes, a3, li1)
  {
    var nodes := {root, li1, a1, li2, a2, li3, ol, li4, a3};
    OutlineClosed(root, li1, a1, li2, a2, li3, ol, li4, a3);
    assert Ancestors(nodes, root) == {root};
    assert Ancestors(nodes, li3) == {li3, root};
    assert Ancestors(nodes, ol) == {ol, li3, root};
    assert Ancestors(nodes, li4) == {li4, ol, li3, root};
    assert OpensSibling(li3);
  }

  /** Which anchors the criterion picks on `ch04.html`, whatever the fragment, with an empty `path_to_root`. */
  lemma NestedPageCriteria(fragment: string)
    ensures Normalize(Base + "ch04.html" + "#" + fragment) == Base + "ch04.html"
    ensures !IsActiveLink(0, Some("index.html"), "", Base + "ch04.html", ResolveAgainstBase)
    ensures !IsActiveLink(1, Some("part-2.html"), "", Base + "ch04.html", ResolveAgainstBase)
    ensures IsActiveLink(2, Some("ch04.html"), "", Base + "ch04.html", ResolveAgainstBase)
  {
    var page := Base + "ch04.html";
    assert page[|page| - 1] == 'l';
    NormalizeDropsFragment(page, fragment);
    RewriteAtRoot(Some("index.html"));
    RewriteAtRoot(Some("part-2.html"));
    RewriteAtRoot(Some("ch04.html"));
    NotEndsWithAt(page, "/" + IndexPage, 0);
    assert (Base + "index.html")[|Base|] != page[|Base|];
    assert (Base + "part-2.html")[|Base|] != page[|Base|];
  }

  /**
   * On that page the pass reveals the nested anchor's own item and the
   * chapter item just before its section, and not the first item.
   */
  lemma NestedPageReveals(root: Node, li1: Node, a1: Node, li2: Node, a2: Node,
                          li3: Node, ol: Node, li4: Node, a3: Node)
    requires Outline(root, li1, a1, li2, a2, li3, ol, li4, a3)
    ensures var nodes := {root, li1, a1, li2, a2, li3, ol, li4, a3};
      var hrefs := [Some("index.html"), Some("part-2.html"), Some("ch04.html")];
      var r := RevealedBy(nodes, [a1, a2, a3], hrefs, "", Base + "ch04.html", ResolveAgainstBase, 3);
      li2 in r && li4 in r && li1 !in r
  {
    var nodes := {root, li1, a1, li2, a2, li3, ol, li4, a3};
    var links := [a1, a2, a3];
    var hrefs := [Some("index.html"), Some("part-2.html"), Some("ch04.html")];
    var page := Base + "ch04.html";
    NestedAnchorOpens(root, li1, a1, li2, a2, li3, ol, li4, a3);
    NestedPageCriteria("");
    RevealedExactly(nodes, links, hrefs, "", page, ResolveAgainstBase, li1);
    forall j | 0 <= j < |links|
      ensures !(IsActiveLink(j, hrefs[j], "", page, ResolveAgainstBase) && Opens(nodes, links[j], li1))
    {
      assert j == 0 || j == 1 || j == 2;
    }
    RevealedExactly(nodes, links, hrefs, "", page, ResolveAgainstBase, li2);
    RevealedExactly(nodes, links, hrefs, "", page, ResolveAgainstBase, li4);
  }

  /** With an empty `path_to_root`, the book's directory URL activates the first anchor, whatever its href. */
  lemma RootUrlActivatesFirst(href: Option<string>)
    ensures Normalize(Base) == Base + IndexPage
    ensures IsActiveLink(0, href, "", Normalize(Base), ResolveAgainstBase)
  {
    assert Base[|Base| - 1..] == "/";
    NormalizeDirectory(Base);
    IndexAliasesFirstAnchor(Base, href, ResolveAgainstBase);
  }

  /**
   * Two anchors with the same href are both active: the pass keeps going
   * after a match, so "at most one active link" does not hold.
   */
  lemma DuplicateAnchorsBothActive()
    ensures IsActiveLink(1, Some("ch04.html"), "", Base + "ch04.html", ResolveAgainstBase)
    ensures IsActiveLink(2, Some("ch04.html"), "", Base + "ch04.html", ResolveAgainstBase)
  {
    RewriteAtRoot(Some("ch04.html"));
  }

  /**
   * An anchor click saves the offset, and the next page's activation, in the
   * same session, puts it back and consumes the key (toc.js:43-52).
   */
  method ScrollSurvivesNavigation(before: Scrollbox, location: string) returns (restored: string, left: map<string, string>)
    requires before.Valid()
    ensures restored == before.scrollTop
    ensures ScrollKey !in left
  {
    var storage := new SessionStorage(map[]);
    before.OnClick("A", storage);
    var after := new Scrollbox();
    var scroll := after.ConnectedCallback({}, [], [], location, "", ResolveAgainstBase, storage);
    restored := after.scrollTop;
    left := storage.items;
  }

  /** Two clicks on a section's toggle open, then close it again (toc.js:62-64). */
  method ToggleTwice() returns (afterOne: bool, afterTwo: bool)
    ensures afterOne && !afterTwo
  {
    var li := new Node("LI", true, null, null, None);
    var toggle := new Node("A", false, li, null, None);
    ToggleSection({li, toggle}, toggle);
    afterOne := li.expanded;
    ToggleSection({li, toggle}, toggle);
    afterTwo := li.expanded;
  }

  /** Any toggle clicked twice leaves every section as it found it (toc.js:62-64). */
  method ToggleTwiceRestores(nodes: set<Node>, target: Node)
    requires Closed(nodes) && target in nodes
    modifies nodes`expanded
    ensures forall n :: n in nodes ==> n.expanded == old(n.expanded)
  {
    ToggleSection(nodes, target);
    ToggleSection(nodes, target);
  }
}
