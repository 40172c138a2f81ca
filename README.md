# Sidebar activation of the book's table of contents

This project models `MDBookSidebarScrollbox.connectedCallback` in `toc.js`.
That routine is the custom element that fills the book's sidebar. When it is
attached to a page it does five things:

- It works out the current page from the document's location. It cuts the URL at the first `#`, then at the first `?`, and reads a trailing `/` as `index.html`.
- It prefixes every relative outline href with `path_to_root`.
- It marks `active` every anchor whose resolved href is the current page. The first anchor is also marked on an index page when `path_to_root` is empty (the page is in the book's top directory).
- It opens (`expanded`) the sections that lead to each active anchor.
- It restores the sidebar's scroll offset from session storage, which holds it for one use only. Otherwise it brings the first active element into view.

Two click handlers complete it. A click whose target element is itself an `A` saves the scroll offset; a click on a child of the anchor, such as its `<strong>` number, saves nothing. A click on a toggle flips the `expanded` class of the toggle's parent.

Modules, following the routine's structure:

- `Strings`: the `startsWith`/`endsWith` tests.
- `Url`: the current-page key (toc.js:13-16), as pure functions.
- `Href`: the href rewrite rule (toc.js:21-24), as pure functions. The regular expression `^(?:[a-z+]+:)?//` is computed by `IsAbsoluteRef` and read straight off the pattern by `MatchesAbsolutePattern`; a lemma shows the two agree.
- `Dom`: the elements the pass looks at, as a `Node` class. Tag, `chapter-item` class, parent and previous sibling are fixed. The href, `active` and `expanded` can be changed. A ghost depth makes the parent climb terminate. `WalkTargets` and `RevealSet` specify what the climb opens.
- `Sidebar`: the imperative part, as methods with loops over the heap:
  - the anchor loop (`MarkActive`, `Visit`);
  - the parent climb (`Reveal`);
  - session storage (`SessionStorage`, a class over a string map);
  - the scroll decision and the handlers (`Scrollbox`, `ToggleSection`).

  `RevealedBy` is the specification function that the pass is proved against.
- `Scenarios`: a hand-built outline with two top-level chapter items and a plain `LI` holding a `section` list. It also has a scroll round trip and repeated toggles.

The browser's resolution of `link.href` is a parameter, `resolve: Option<string> -> string`. It is applied to the href attribute after the rewrite and is not reimplemented. The document's location, `path_to_root` and the elements of `#sidebar` are parameters too.

### Behaviour that may be unexpected

The model follows the code in each case below.

- One might expect at most one active link, the first match in document order. The anchor loop has no `break`, so every anchor that meets the criterion is marked `active`, and an outline with duplicate hrefs gets several (`Scenarios.DuplicateAnchorsBothActive`).
- One might expect any stored scroll offset to be restored. It is restored only when it is present and non-empty. JavaScript treats `""` as false. An empty stored value therefore takes the scroll-to-active branch. The key is removed in every case.
- The parent of an active anchor is opened only when it carries `chapter-item`. The climb opens the previous sibling of each `LI`, from the anchor's parent up to the root, when that sibling is a chapter item. One might expect every section container on the path to be opened; the code opens only these.
- The test for an absolute href is `^(?:[a-z+]+:)?//`. This is narrower than the scheme grammar of section 3.1 of RFC 3986. `mailto:x`, `HTTP://x` and `h2://x` are prefixed.

## Model

| member | source | states |
|---|---|---|
| Url.BeforeFirst | toc.js:13 | `split(c)[0]`: a prefix of the input without `c`, ending at the input's end or at a `c` |
| Url.BeforeFirstAbsent | toc.js:13 | splitting at an absent character returns the whole string |
| Url.BeforeFirstAt | toc.js:13 | the split lands exactly at the first occurrence |
| Url.Stripped | toc.js:13 | the location cut at the first `#`, then at the first `?`: a prefix with neither character, ending at the end or at a `#` or `?` |
| Url.Normalize | toc.js:13-16 | the page key has no `#`, no `?`, and never ends in `/`; it equals the stripped URL exactly when that URL does not end in `/`, and otherwise it is the stripped URL plus `index.html` |
| Url.NormalizeIdempotent | toc.js:13-16 | normalising a page key again changes nothing, so `index.html` is never appended twice |
| Url.NormalizeDirectory | toc.js:14-16 | a directory URL without query or fragment becomes that URL plus `index.html`, ending in `/index.html` |
| Url.NormalizePlainPage | toc.js:13-16 | a URL without query, fragment or trailing `/` is its own key |
| Url.NormalizeIndexSuffix | toc.js:14-16 | whenever the stripped location ends in `/`, the key ends in `/index.html` |
| Url.NormalizeDropsFragment | toc.js:13 | a plain page with any fragment has the page itself as its key |
| Strings.StartsWith | toc.js:22 | `String.prototype.startsWith`: the prefix fits and equals the string's start |
| Strings.EndsWith | toc.js:14 | `String.prototype.endsWith`: the suffix fits and equals the string's end |
| Strings.NotEndsWithAt | toc.js:26 | one mismatching character rules out a suffix |
| Href.SchemeRun | toc.js:22 | the length of the leading `[a-z+]` run: only scheme characters before it, and the end or a non-scheme character at it |
| Href.SchemeRunIs | toc.js:22 | that run length is unique |
| Href.IsAbsoluteRef | toc.js:22 | the script's absolute-URL test: `//` at the start, or the leading `[a-z+]` run non-empty and followed by `://`; its meaning is fixed by `AbsoluteRefIsPattern` |
| Href.ShouldPrefix | toc.js:22 | the condition of the `if`: present, non-empty, not starting with `#`, not absolute |
| Href.MatchesAbsolutePattern | toc.js:22 | the reference reading of `^(?:[a-z+]+:)?//`: `//` at the start, or some non-empty `[a-z+]` word followed by `://` |
| Href.AbsoluteRefIsPattern | toc.js:22 | the computed absolute-URL test holds exactly when the pattern `^(?:[a-z+]+:)?//` matches, in both directions |
| Href.RewriteHref | toc.js:21-24 | the rewrite keeps a missing href missing, and anything it changes becomes `path_to_root` followed by the original |
| Href.RewriteRule | toc.js:21-24 | an href is prefixed exactly when it is present, non-empty, not a fragment and not matched by the absolute-URL pattern; every other href is kept as it is |
| Href.RewriteAtRoot | toc.js:23 | with an empty `path_to_root` the rewrite is the identity |
| Href.FragmentHrefsKept | toc.js:22 | missing, empty and `#top` hrefs are not prefixed |
| Href.SchemeSlashesAbsolute | toc.js:22 | every `[a-z+]+://…` and every `//…` href counts as absolute |
| Href.AbsoluteHrefsKept | toc.js:22 | `//x`, `http://x`, `https://x` and `svn+ssh://x` are not prefixed |
| Href.NoSchemePrefixed | toc.js:22 | a non-empty href whose first character is not in `[a-z+]`, not `/` and not `#` is always prefixed |
| Href.NarrowSchemesPrefixed | toc.js:22 | `mailto:x`, `HTTP://x`, `h2://x` and `01-system-map.html` are prefixed |
| Dom.Ancestors | toc.js:28-38 | the chain from an element up to the root stays within the document, holds the element, and is closed under taking parents |
| Dom.OpensSibling | toc.js:33-34 | the climb's test: an `LI` whose previous element sibling is a chapter item |
| Dom.WalkTargets | toc.js:32-39 | what the parent climb marks stays within the document |
| Dom.WalkTargetsExact | toc.js:32-39 | the climb marks the previous sibling of every `LI` ancestor whose previous sibling is a chapter item, and nothing else |
| Dom.RevealSet | toc.js:28-39 | what one active anchor opens stays within the document |
| Dom.RevealSetExact | toc.js:28-39 | one active anchor opens exactly its chapter-item parent and the chapter items just before the `LI`s at or above that parent |
| Sidebar.SessionStorage.GetItem | toc.js:48 | `getItem` returns a value exactly when the key is stored, and that value is the stored one |
| Sidebar.SessionStorage.SetItem | toc.js:45 | `setItem` stores the value under the key and leaves the other keys alone |
| Sidebar.SessionStorage.RemoveItem | toc.js:49 | `removeItem` deletes the key and nothing else |
| Sidebar.IsActiveLink | toc.js:26 | the criterion: the resolved rewritten href equals the page, or the anchor is the first, `path_to_root` is empty and the page ends in `/index.html` |
| Sidebar.IndexAliasesFirstAnchor | toc.js:25-26 | when `path_to_root` is empty (the page is in the book's top directory), a directory location activates the first anchor whatever its href |
| Sidebar.AtRootOnlyExactMatch | toc.js:26 | when `path_to_root` is empty, any anchor after the first is active exactly when its unrewritten href resolves to the page |
| Sidebar.Hrefs | toc.js:21 | the href attributes of the anchors, index by index |
| Sidebar.RevealedBy | toc.js:19-40 | what the first `k` anchors open stays within the document |
| Sidebar.RevealedByExact | toc.js:19-40 | the first `k` anchors open everything each active one among them opens, and nothing else |
| Sidebar.RevealedExactly | toc.js:19-40 | after the pass, an element is opened exactly when some anchor meeting the criterion opens it |
| Sidebar.ExpansionObligation | toc.js:28-37 | for each active anchor, its chapter-item parent is opened, and so is the chapter item just before every `LI` from that parent up to the root |
| Sidebar.Reveal | toc.js:28-39 | the parent check then the climb: every element's `expanded` becomes its old value or membership in the anchor's reveal set; the climb terminates on the depth |
| Sidebar.Visit | toc.js:20-40 | one step of the anchor loop: the href is rewritten, and the anchor is marked and revealed exactly when it meets the criterion on its original href |
| Sidebar.MarkActive | toc.js:17-41 | the whole anchor loop: every href is rewritten; each anchor's `active` becomes its old value or the criterion, so several anchors may end up marked; other elements keep their href and `active`; flags are only added; `expanded` is the old value or what the active anchors reveal |
| Sidebar.FirstActive | toc.js:55 | the first active element in document order: none before it is active, and it is active when it exists |
| Sidebar.ToggleSection | toc.js:62-64 | the toggle's parent has its `expanded` flag flipped, and every other element keeps its flag |
| Sidebar.Scrollbox.OnClick | toc.js:43-47 | a click whose target is an `A` stores the current offset under `sidebar-scroll`, and the stored offset is non-empty; a click on any other element leaves storage unchanged |
| Sidebar.Scrollbox.ConnectedCallback | toc.js:12-59 | all of `MarkActive`'s promises hold for the normalised location; `sidebar-scroll` is absent afterwards; a present, non-empty stored offset is restored; otherwise the first active sidebar element, if any, is centred, and when there is none the offset is kept |
| Scenarios.OutlineClosed | toc.js:11 | the hand-built outline is a closed document |
| Scenarios.NestedAnchorOpens | toc.js:28-39 | for the nested anchor, the walk opens its own chapter item and the chapter item before its section, but not the first top-level item |
| Scenarios.NestedPageCriteria | toc.js:13-26 | on `ch04.html` with any fragment and an empty `path_to_root`, only the third anchor meets the criterion |
| Scenarios.NestedPageReveals | toc.js:26-39 | on that page the pass opens the nested anchor's item and the preceding chapter item, and not the first item |
| Scenarios.RootUrlActivatesFirst | toc.js:14-26 | the book's root URL normalises to its `index.html`, and the first anchor is active there whatever its href |
| Scenarios.DuplicateAnchorsBothActive | toc.js:19-27 | two anchors with the same href both meet the criterion, so both are marked |
| Scenarios.ScrollSurvivesNavigation | toc.js:43-52 | for any scrollbox, the offset saved by an anchor click comes back on the next activation, and the key is consumed |
| Scenarios.ToggleTwice | toc.js:62-64 | one click opens a closed section and a second click closes it |
| Scenarios.ToggleTwiceRestores | toc.js:62-64 | two clicks on any toggle leave every element's `expanded` flag as it was |

## Left out

- The outline literal injected through `innerHTML` (toc.js:11) is not parsed. The model starts from the resulting element tree (`nodes`, `links`), and `Scenarios` builds a small one by hand.
- Browser URL resolution behind `link.href` (toc.js:23, 26) is the parameter `resolve`, applied to the rewritten href attribute.
- `document.location` and the page-global `path_to_root` are parameters of `ConnectedCallback`.
- Listener registration (toc.js:43-47, 65-67) and custom-element registration (toc.js:70) are event-loop plumbing. Only the handler bodies are modelled, as `Scrollbox.OnClick` and `ToggleSection`.
- `scrollIntoView({ block: 'center' })` (toc.js:57) is layout. The model returns it as the `Centred` action naming the element.
- Sidebar.Scrollbox.ConnectedCallback: the offset that `scrollIntoView` leaves in `scrollTop` after centring is not modelled. The contract says nothing about `scrollTop` in the `Centred` case, so the offset that a later anchor click saves after centring is not captured.
- `document.querySelector('#sidebar .active')` (toc.js:55) searches outside the component. It is modelled as `FirstActive` over a `sidebarElems` sequence that the caller supplies.
- `querySelectorAll('#sidebar a.toggle')` (toc.js:61) is modelled the same way: the clicked toggle is a parameter of `ToggleSection`.
- `this.querySelectorAll("a")` (toc.js:17) is the `links` sequence. It must list distinct anchors of the document in document order.
- `link.href` of an anchor without an href attribute is `resolve(None)`, which is left unconstrained. In a browser it is the empty string, which never equals a location, so the fact that such an anchor is matched only through the first-anchor alias is not captured.
- Number-to-string coercion of `scrollTop` (toc.js:45, 52) is not modelled. The offset is kept as the decimal string that storage holds, with no layout meaning.
- Sidebar.ToggleSection: a toggle without a parent element makes the source throw. The model leaves everything unchanged in that case instead.
- Sidebar.MarkActive: class lists are modelled as the two flags `active` and `expanded`. Other classes, and adding a class that is already present, are not distinguished.
- Scenarios.NestedPageCriteria: the outline scenarios are stated over the specification functions (`IsActiveLink`, `RevealedBy`) that `MarkActive` and `ConnectedCallback` are proved against. They do not run those methods on the concrete heap.
