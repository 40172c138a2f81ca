/**
 * The sidebar element's activation (toc.js:10-68): it works out the current
 * page, rewrites and marks the outline's anchors, opens the sections that lead
 * to an active anchor, restores the scroll offset kept in session storage, and
 * wires the click handlers whose bodies are modelled here as methods.
 */
module Sidebar {
  import opened Wrappers
  import opened Strings
  import opened Url
  import opened Href
  import opened Dom

  /** The session-storage key of toc.js:45 and toc.js:48-49. */
  const ScrollKey := "sidebar-scroll"

  /** The page's session storage: string keys to string values. */
  class SessionStorage {
    var items: map<string, string>

    constructor (items: map<string, string>)
      ensures this.items == items
    {
      this.items := items;
    }

    method GetItem(key: string) returns (v: Option<string>)
      ensures v.Some? <==> key in items
      ensures v.Some? ==> v.value == items[key]
    {
      v := if key in items then Some(items[key]) else None;
    }

    method SetItem(key: string, value: string)
      modifies this
      ensures items == old(items)[key := value]
    {
      items := items[key := value];
    }

    method RemoveItem(key: string)
      modifies this
      ensures items == old(items) - {key}
    {
      items := items - {key};
    }
  }

  /**
   * The criterion of toc.js:26 for the anchor at index `i` whose href attribute
   * was `href` before the rewrite: its resolved href is the page, or it is the
   * first anchor, `path_to_root` is empty (the page is in the book's top
   * directory) and the page is an index page.
   * `resolve` stands for the browser's reading of `link.href`.
   */
  predicate IsActiveLink(i: nat, href: Option<string>, pathToRoot: string, page: string,
                         resolve: Option<string> -> string)
  {
    resolve(RewriteHref(pathToRoot, href)) == page
      || (i == 0 && pathToRoot == "" && EndsWith(page, "/" + IndexPage))
  }

  /** With an empty `path_to_root`, a directory page always activates the first anchor. */
  lemma IndexAliasesFirstAnchor(location: string, href: Option<string>, resolve: Option<string> -> string)
    requires EndsWith(Stripped(location), "/")
    ensures IsActiveLink(0, href, "", Normalize(location), resolve)
  {
    NormalizeIndexSuffix(location);
  }

  /** With an empty `path_to_root`, any other anchor is active exactly when its unrewritten href resolves to the page. */
  lemma AtRootOnlyExactMatch(i: nat, href: Option<string>, page: string, resolve: Option<string> -> string)
    requires i > 0
    ensures IsActiveLink(i, href, "", page, resolve) <==> resolve(href) == page
  {
    RewriteAtRoot(href);
  }

  /** The href attributes of the anchors, in document order. */
  ghost function Hrefs(links: seq<Node>): (r: seq<Option<string>>)
    reads links
    ensures |r| == |links|
    ensures forall j :: 0 <= j < |links| ==> r[j] == links[j].href
  {
    if links == [] then [] else [links[0].href] + Hrefs(links[1..])
  }

  ghost predicate InDocument(nodes: set<Node>, links: seq<Node>) {
    Closed(nodes) && forall j :: 0 <= j < |links| ==> links[j] in nodes
  }

  /** What the first `k` anchors of the pass mark `expanded`, given their original hrefs. */
  ghost function RevealedBy(nodes: set<Node>, links: seq<Node>, hrefs: seq<Option<string>>,
                            pathToRoot: string, page: string, resolve: Option<string> -> string,
                            k: nat): (r: set<Node>)
    requires InDocument(nodes, links) && k <= |links| == |hrefs|
    ensures r <= nodes
  {
    if k == 0 then {}
    else
      RevealedBy(nodes, links, hrefs, pathToRoot, page, resolve, k - 1)
        + (if IsActiveLink(k - 1, hrefs[k - 1], pathToRoot, page, resolve)
           then RevealSet(nodes, links[k - 1]) else {})
  }

  /** A node is revealed by the first `k` anchors exactly when some active one among them reveals it. */
  lemma {:induction false} RevealedByExact(nodes: set<Node>, links: seq<Node>, hrefs: seq<Option<string>>,
                                           pathToRoot: string, page: string,
                                           resolve: Option<string> -> string, k: nat)
    requires InDocument(nodes, links) && k <= |links| == |hrefs|
    ensures forall j :: 0 <= j < k && IsActiveLink(j, hrefs[j], pathToRoot, page, resolve) ==>
      RevealSet(nodes, links[j]) <= RevealedBy(nodes, links, hrefs, pathToRoot, page, resolve, k)
    ensures forall n :: n in RevealedBy(nodes, links, hrefs, pathToRoot, page, resolve, k) ==>
      exists j :: 0 <= j < k && IsActiveLink(j, hrefs[j], pathToRoot, page, resolve) &&
        n in RevealSet(nodes, links[j])
  {
    if k > 0 {
      RevealedByExact(nodes, links, hrefs, pathToRoot, page, resolve, k - 1);
    }
  }

  /**
   * After the whole pass a node has been revealed exactly when some anchor
   * meeting the criterion opens it (toc.js:26-40).
   */
  lemma RevealedExactly(nodes: set<Node>, links: seq<Node>, hrefs: seq<Option<string>>,
                        pathToRoot: string, page: string, resolve: Option<string> -> string, n: Node)
    requires InDocument(nodes, links) && |links| == |hrefs|
    ensures n in RevealedBy(nodes, links, hrefs, pathToRoot, page, resolve, |links|) <==>
      n in nodes &&
      exists j :: 0 <= j < |links| && IsActiveLink(j, hrefs[j], pathToRoot, page, resolve) && Opens(nodes, links[j], n)
  {
    RevealedByExact(nodes, links, hrefs, pathToRoot, page, resolve, |links|);
    forall j | 0 <= j < |links| ensures n in RevealSet(nodes, links[j]) <==> n in nodes && Opens(nodes, links[j], n) {
      RevealSetExact(nodes, links[j]);
    }
  }

  /**
   * For each anchor meeting the criterion, the pass opens its parent when that
   * is a chapter item, and the chapter item before every `LI` from that parent
   * up to the root (toc.js:28-37).
   */
  lemma ExpansionObligation(nodes: set<Node>, links: seq<Node>, hrefs: seq<Option<string>>,
                            pathToRoot: string, page: string, resolve: Option<string> -> string, j: nat)
    requires InDocument(nodes, links) && |links| == |hrefs|
    requires j < |links| && IsActiveLink(j, hrefs[j], pathToRoot, page, resolve)
    ensures var r := RevealedBy(nodes, links, hrefs, pathToRoot, page, resolve, |links|);
      var p := links[j].parent;
      (p != null && p.chapterItem ==> p in r) &&
      forall q :: q in Ancestors(nodes, p) && OpensSibling(q) ==> q.prev in r
  {
    RevealedByExact(nodes, links, hrefs, pathToRoot, page, resolve, |links|);
    WalkTargetsExact(nodes, links[j].parent);
  }

  /**
   * toc.js:28-39 for one active anchor: its parent is opened when it is a
   * chapter item, then every element from that parent up to the root that is
   * an `LI` after a chapter item opens that chapter item.
   */
  method Reveal(nodes: set<Node>, link: Node)
    requires Closed(nodes) && link in nodes
    modifies nodes`expanded
    ensures forall n :: n in nodes ==> n.expanded == (old(n.expanded) || n in RevealSet(nodes, link))
  {
    var parent := link.parent;
    if parent != null && parent.chapterItem {
      parent.expanded := true;
    }
    while parent != null
      invariant parent == null || parent in nodes
      invariant forall n :: n in nodes ==>
        (n.expanded || n in WalkTargets(nodes, parent)) == (old(n.expanded) || n in RevealSet(nodes, link))
      decreases if parent == null then 0 else parent.depth + 1
    {
      if parent.tag == "LI" && parent.prev != null {
        if parent.prev.chapterItem {
          parent.prev.expanded := true;
        }
      }
      parent := parent.parent;
    }
  }

  /**
   * The body of the loop of toc.js:19-41 for the anchor at index `i`: rewrite
   * its href, then mark it and reveal it when it meets the criterion.
   */
  method Visit(nodes: set<Node>, link: Node, i: nat, page: string, pathToRoot: string,
               resolve: Option<string> -> string)
    requires Closed(nodes) && link in nodes
    modifies link`href, link`active, nodes`expanded
    ensures link.href == RewriteHref(pathToRoot, old(link.href))
    ensures link.active == (old(link.active) || IsActiveLink(i, old(link.href), pathToRoot, page, resolve))
    ensures forall n :: n in nodes ==>
      n.expanded == (old(n.expanded) ||
                     (IsActiveLink(i, old(link.href), pathToRoot, page, resolve) && n in RevealSet(nodes, link)))
  {
    var href := link.href;
    if ShouldPrefix(href) {
      link.href := Some(pathToRoot + href.value);
    }
    if resolve(link.href) == page || (i == 0 && pathToRoot == "" && EndsWith(page, "/" + IndexPage)) {
      link.active := true;
      Reveal(nodes, link);
    }
  }

  /**
   * The loop of toc.js:17-41 over the component's anchors in document order.
   * Every anchor is rewritten, every anchor meeting the criterion is marked
   * (there is no `break`, so several may be), and flags are only ever added.
   */
  method MarkActive(nodes: set<Node>, links: seq<Node>, page: string, pathToRoot: string,
                    resolve: Option<string> -> string)
    requires InDocument(nodes, links)
    requires forall a, b :: 0 <= a < b < |links| ==> links[a] != links[b]
    modifies nodes`href, nodes`active, nodes`expanded
    ensures forall j :: 0 <= j < |links| ==> links[j].href == RewriteHref(pathToRoot, old(links[j].href))
    ensures forall j :: 0 <= j < |links| ==>
      links[j].active == (old(links[j].active) || IsActiveLink(j, old(links[j].href), pathToRoot, page, resolve))
    ensures forall n :: n in nodes && n !in links ==> n.href == old(n.href) && n.active == old(n.active)
    ensures forall n :: n in nodes ==>
      n.expanded == (old(n.expanded) || n in RevealedBy(nodes, links, old(Hrefs(links)), pathToRoot, page, resolve, |links|))
  {
    ghost var hrefs := Hrefs(links);
    for i := 0 to |links|
      invariant forall j :: 0 <= j < i ==> links[j].href == RewriteHref(pathToRoot, hrefs[j])
      invariant forall j :: 0 <= j < i ==>
        links[j].active == (old(links[j].active) || IsActiveLink(j, hrefs[j], pathToRoot, page, resolve))
      invariant forall j :: i <= j < |links| ==> links[j].href == hrefs[j] && links[j].active == old(links[j].active)
      invariant forall n :: n in nodes && n !in links ==> n.href == old(n.href) && n.active == old(n.active)
      invariant forall n :: n in nodes ==>
        n.expanded == (old(n.expanded) || n in RevealedBy(nodes, links, hrefs, pathToRoot, page, resolve, i))
    {
      Visit(nodes, links[i], i, page, pathToRoot, resolve);
    }
  }

  /** `document.querySelector('#sidebar .active')` over the sidebar's elements in document order. */
  function FirstActive(elems: seq<Node>): (k: nat)
    reads elems
    ensures k <= |elems|
    ensures forall j :: 0 <= j < k ==> !elems[j].active
    ensures k < |elems| ==> elems[k].active
  {
    if elems == [] then 0
    else if elems[0].active then 0
    else 1 + FirstActive(elems[1..])
  }

  /** What activation does to the sidebar's scroll position (toc.js:48-59). */
  datatype ScrollAction =
    | Restored(offset: string)   // the stored offset was put back
    | Centred(node: Node)        // the first active element was scrolled into view
    | Unmoved                    // nothing stored and nothing active

  /** `classList.toggle('expanded')` on the clicked toggle's parent (toc.js:62-64). */
  method ToggleSection(nodes: set<Node>, target: Node)
    requires Closed(nodes) && target in nodes
    modifies nodes`expanded
    ensures forall n :: n in nodes ==>
      n.expanded == if n == target.parent then !old(n.expanded) else old(n.expanded)
  {
    // A toggle without a parent element would throw before changing anything.
    if target.parent != null {
      target.parent.expanded := !target.parent.expanded;
    }
  }

  /** The custom element `mdbook-sidebar-scrollbox`; of its own state only the scroll offset matters. */
  class Scrollbox {
    /** `scrollTop`, held as the decimal string that session storage keeps. */
    var scrollTop: string

    /** A number's decimal form is never empty. */
    ghost predicate Valid()
      reads this
    {
      scrollTop != ""
    }

    constructor ()
      ensures Valid() && scrollTop == "0"
    {
      scrollTop := "0";
    }

    /** The click listener of toc.js:43-47: a click on an anchor saves the offset. */
    method OnClick(targetTag: string, storage: SessionStorage)
      requires Valid()
      modifies storage
      ensures storage.items == if targetTag == "A" then old(storage.items)[ScrollKey := scrollTop]
                               else old(storage.items)
      ensures targetTag == "A" ==> storage.items[ScrollKey] != ""
    {
      if targetTag == "A" {
        storage.SetItem(ScrollKey, scrollTop);
      }
    }

    /**
     * connectedCallback (toc.js:10-68) on the outline already in place:
     * `location` is the document's URL, `links` the component's anchors and
     * `sidebarElems` the elements of `#sidebar`, both in document order.
     */
    method ConnectedCallback(nodes: set<Node>, links: seq<Node>, sidebarElems: seq<Node>,
                             location: string, pathToRoot: string,
                             resolve: Option<string> -> string, storage: SessionStorage)
      returns (scroll: ScrollAction)
      requires Valid() && InDocument(nodes, links)
      requires forall a, b :: 0 <= a < b < |links| ==> links[a] != links[b]
      modifies this, storage, nodes`href, nodes`active, nodes`expanded
      ensures Valid()
      ensures forall j :: 0 <= j < |links| ==> links[j].href == RewriteHref(pathToRoot, old(links[j].href))
      ensures forall j :: 0 <= j < |links| ==>
        links[j].active == (old(links[j].active) ||
                            IsActiveLink(j, old(links[j].href), pathToRoot, Normalize(location), resolve))
      ensures forall n :: n in nodes && n !in links ==> n.href == old(n.href) && n.active == old(n.active)
      ensures forall n :: n in nodes ==>
        n.expanded == (old(n.expanded) ||
                       n in RevealedBy(nodes, links, old(Hrefs(links)), pathToRoot, Normalize(location), resolve, |links|))
      ensures storage.items == old(storage.items) - {ScrollKey}
      ensures var stored := old(storage.items); ScrollKey in stored && stored[ScrollKey] != "" ==>
        scroll == Restored(stored[ScrollKey]) && scrollTop == stored[ScrollKey]
      ensures var stored := old(storage.items); !(ScrollKey in stored && stored[ScrollKey] != "") ==>
        scroll == if FirstActive(sidebarElems) < |sidebarElems|
                  then Centred(sidebarElems[FirstActive(sidebarElems)]) else Unmoved
      ensures scroll == Unmoved ==> scrollTop == old(scrollTop)
    {
      var page := Normalize(location);
      MarkActive(nodes, links, page, pathToRoot, resolve);
      var sidebarScrollTop := storage.GetItem(ScrollKey);
      storage.RemoveItem(ScrollKey);
      if sidebarScrollTop.Some? && sidebarScrollTop.value != "" {
        scrollTop := sidebarScrollTop.value;
        scroll := Restored(sidebarScrollTop.value);
      } else {
        var k := FirstActive(sidebarElems);
        scroll := if k < |sidebarElems| then Centred(sidebarElems[k]) else Unmoved;
      }
    }
  }
}
