/**
 * The part of the document the activation pass of toc.js:17-41 looks at. An
 * element has a tag name, may carry the `chapter-item` class, has a parent
 * element and a previous element sibling (both fixed while the script runs),
 * and has the three things the pass may change: its `href` attribute and its
 * `active` and `expanded` classes.
 */
module Dom {
  import opened Wrappers

  class Node {
    const tag: string
    const chapterItem: bool
    const parent: Node?
    const prev: Node?
    /** Distance from the document root; it makes the climb of toc.js:32-39 terminate. */
    ghost const depth: nat
    var href: Option<string>
    var active: bool
    var expanded: bool

    constructor (tag: string, chapterItem: bool, parent: Node?, prev: Node?, href: Option<string>)
      ensures this.tag == tag && this.chapterItem == chapterItem
      ensures this.parent == parent && this.prev == prev
      ensures depth == if parent == null then 0 else parent.depth + 1
      ensures this.href == href && !active && !expanded
    {
      this.tag := tag;
      this.chapterItem := chapterItem;
      this.parent := parent;
      this.prev := prev;
      this.depth := if parent == null then 0 else parent.depth + 1;
      this.href := href;
      this.active := false;
      this.expanded := false;
    }
  }

  /**
   * `nodes` is a whole document: it holds the parent and previous sibling of
   * each of its elements, and each parent is nearer the root than its child.
   */
  ghost predicate Closed(nodes: set<Node>) {
    forall n :: n in nodes ==>
      (n.parent != null ==> n.parent in nodes && n.parent.depth < n.depth) &&
      (n.prev != null ==> n.prev in nodes)
  }

  /** `p` and every element above it, up to the root. */
  ghost function Ancestors(nodes: set<Node>, p: Node?): (r: set<Node>)
    requires Closed(nodes) && (p == null || p in nodes)
    ensures r <= nodes
    ensures p != null ==> p in r
    ensures forall q :: q in r && q.parent != null ==> q.parent in r
    decreases if p == null then 0 else p.depth + 1
  {
    if p == null then {} else {p} + Ancestors(nodes, p.parent)
  }

  /** The test of toc.js:33-34: an `LI` whose previous element sibling is a chapter item. */
  predicate OpensSibling(p: Node) {
    p.tag == "LI" && p.prev != null && p.prev.chapterItem
  }

  /** The siblings the upward walk of toc.js:32-39 marks `expanded`, starting at `p`. */
  ghost function WalkTargets(nodes: set<Node>, p: Node?): (r: set<Node>)
    requires Closed(nodes) && (p == null || p in nodes)
    ensures r <= nodes
    decreases if p == null then 0 else p.depth + 1
  {
    if p == null then {}
    else (if OpensSibling(p) then {p.prev} else {}) + WalkTargets(nodes, p.parent)
  }

  /**
   * The walk reaches exactly the previous siblings of the opening ancestors:
   * each of them is marked, and nothing else is.
   */
  lemma {:induction false} WalkTargetsExact(nodes: set<Node>, p: Node?)
    requires Closed(nodes) && (p == null || p in nodes)
    ensures forall q :: q in Ancestors(nodes, p) && OpensSibling(q) ==> q.prev in WalkTargets(nodes, p)
    ensures forall n :: n in WalkTargets(nodes, p) ==>
      exists q :: q in Ancestors(nodes, p) && OpensSibling(q) && q.prev == n
    decreases if p == null then 0 else p.depth + 1
  {
    if p != null {
      WalkTargetsExact(nodes, p.parent);
    }
  }

  /** Everything toc.js:28-39 marks `expanded` for one active anchor. */
  ghost function RevealSet(nodes: set<Node>, link: Node): (r: set<Node>)
    requires Closed(nodes) && link in nodes
    ensures r <= nodes
  {
    (if link.parent != null && link.parent.chapterItem then {link.parent} else {})
      + WalkTargets(nodes, link.parent)
  }

  /**
   * What toc.js:28-39 promises for one active anchor `link`: `n` is its
   * parent and a chapter item, or `n` is the previous sibling, a chapter item,
   * of an `LI` at or above that parent.
   */
  ghost predicate Opens(nodes: set<Node>, link: Node, n: Node)
    requires Closed(nodes) && link in nodes
  {
    (link.parent != null && link.parent.chapterItem && n == link.parent)
      || exists q :: q in Ancestors(nodes, link.parent) && OpensSibling(q) && q.prev == n
  }

  /** The nodes revealed for one anchor are exactly those it opens. */
  lemma RevealSetExact(nodes: set<Node>, link: Node)
    requires Closed(nodes) && link in nodes
    ensures forall n :: n in RevealSet(nodes, link) <==> n in nodes && Opens(nodes, link, n)
  {
    WalkTargetsExact(nodes, link.parent);
  }
}
