/**
 * The current-page key of toc.js:13-16. The location is cut at its first `#`,
 * then at its first `?`, and a directory URL (one ending in `/`) is read as its
 * `index.html`. The result is compared as a plain string, never parsed.
 */
module Url {
  import opened Strings

  const IndexPage := "index.html"

  /** `s.split(c)[0]`: the longest prefix of `s` that holds no `c`. */
  function BeforeFirst(s: string, c: char): (r: string)
    ensures r <= s
    ensures c !in r
    ensures |r| == |s| || s[|r|] == c
  {
    if s == [] then []
    else if s[0] == c then []
    else [s[0]] + BeforeFirst(s[1..], c)
  }

  /** Cutting at a character that does not occur leaves the string as it is. */
  lemma BeforeFirstAbsent(s: string, c: char)
    requires c !in s
    ensures BeforeFirst(s, c) == s
  {
  }

  /** The cut lands at the first `c`, wherever that is. */
  lemma BeforeFirstAt(s: string, c: char, k: nat)
    requires k < |s| && s[k] == c && c !in s[..k]
    ensures BeforeFirst(s, c) == s[..k]
  {
    var r := BeforeFirst(s, c);
    assert |r| <= k;
  }

  /**
   * The location without fragment and query (toc.js:13): exactly the prefix
   * that runs up to the first `#` or `?`, whichever comes first.
   */
  function Stripped(url: string): (p: string)
    ensures p <= url
    ensures '#' !in p && '?' !in p
    ensures |p| == |url| || url[|p|] == '#' || url[|p|] == '?'
  {
    var q := BeforeFirst(url, '#');
    var p := BeforeFirst(q, '?');
    assert '#' !in p by {
      forall k | 0 <= k < |p| ensures p[k] != '#' { assert p[k] == q[k]; assert q[k] in q; }
    }
    p
  }

  /**
   * The current page (toc.js:13-16): no fragment, no query, and a trailing
   * `/` completed with `index.html` exactly once.
   */
  function Normalize(url: string): (r: string)
    ensures '#' !in r && '?' !in r
    ensures !EndsWith(r, "/")
    ensures r == Stripped(url) <==> !EndsWith(Stripped(url), "/")
    ensures r != Stripped(url) ==> r == Stripped(url) + IndexPage
  {
    var p := Stripped(url);
    if EndsWith(p, "/") then
      assert (p + IndexPage)[|p + IndexPage| - 1] == 'l';
      p + IndexPage
    else p
  }

  /** A page key is left alone by a second normalisation (toc.js:13-16). */
  lemma NormalizeIdempotent(url: string)
    ensures Normalize(Normalize(url)) == Normalize(url)
  {
    var r := Normalize(url);
    BeforeFirstAbsent(r, '#');
    BeforeFirstAbsent(r, '?');
    assert Stripped(r) == r;
  }

  /** A directory URL with no query or fragment names its index page. */
  lemma NormalizeDirectory(url: string)
    requires '#' !in url && '?' !in url && EndsWith(url, "/")
    ensures Normalize(url) == url + IndexPage
    ensures EndsWith(Normalize(url), "/" + IndexPage)
  {
    BeforeFirstAbsent(url, '#');
    BeforeFirstAbsent(url, '?');
    assert Stripped(url) == url;
    assert (url + IndexPage)[|url| - 1..] == "/" + IndexPage;
  }

  /** A location with no query, no fragment and no trailing `/` is its own key. */
  lemma NormalizePlainPage(url: string)
    requires '#' !in url && '?' !in url && !EndsWith(url, "/")
    ensures Normalize(url) == url
  {
    BeforeFirstAbsent(url, '#');
    BeforeFirstAbsent(url, '?');
  }

  /** A directory location, once normalised, ends in `/index.html`. */
  lemma NormalizeIndexSuffix(url: string)
    requires EndsWith(Stripped(url), "/")
    ensures EndsWith(Normalize(url), "/" + IndexPage)
  {
    var p := Stripped(url);
    assert (p + IndexPage)[|p| - 1..] == p[|p| - 1..] + IndexPage;
  }

  /** The fragment of a plain page location is ignored. */
  lemma NormalizeDropsFragment(page: string, fragment: string)
    requires '#' !in page && '?' !in page && !EndsWith(page, "/")
    ensures Normalize(page + "#" + fragment) == page
  {
    var url := page + "#" + fragment;
    assert url[..|page|] == page;
    BeforeFirstAt(url, '#', |page|);
    BeforeFirstAbsent(page, '?');
  }
}
