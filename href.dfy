/**
 * Which outline hrefs toc.js:21-24 prefixes with `path_to_root`. An href is
 * left alone when it is missing or empty, when it is a same-page fragment
 * (`#...`), or when it matches `^(?:[a-z+]+:)?//`, the script's test for an
 * absolute URL. That test is narrower than the scheme grammar of section 3.1
 * of RFC 3986: it admits only lower-case letters and `+`, so `HTTP://x` and
 * `h2://x` count as relative and are prefixed.
 */
module Href {
  import opened Wrappers
  import opened Strings

  /** One character of the class `[a-z+]`. */
  predicate IsSchemeChar(c: char) {
    'a' <= c <= 'z' || c == '+'
  }

  /** The length of the run of `[a-z+]` characters that starts `s`. */
  function SchemeRun(s: string): (n: nat)
    ensures n <= |s|
    ensures forall i :: 0 <= i < n ==> IsSchemeChar(s[i])
    ensures n == |s| || !IsSchemeChar(s[n])
  {
    if s != [] && IsSchemeChar(s[0]) then 1 + SchemeRun(s[1..]) else 0
  }

  /** The run is determined by its two ends: `k` scheme characters, then a non-scheme one or the end. */
  lemma SchemeRunIs(s: string, k: nat)
    requires k <= |s| && (forall i :: 0 <= i < k ==> IsSchemeChar(s[i]))
    requires k == |s| || !IsSchemeChar(s[k])
    ensures SchemeRun(s) == k
  {
  }

  /**
   * The script's absolute-URL test, computed as a matcher would: the scheme
   * part of the regular expression can only be the whole leading `[a-z+]`
   * run, because `:` is not in that class.
   */
  predicate IsAbsoluteRef(h: string) {
    StartsWith(h, "//") || (var n := SchemeRun(h); 0 < n && StartsWith(h[n..], "://"))
  }

  /** `h[..k]` is a non-empty `[a-z+]` word followed by `://`. */
  ghost predicate SchemeThenSlashes(h: string, k: nat) {
    0 < k <= |h| && (forall i :: 0 <= i < k ==> IsSchemeChar(h[i])) && StartsWith(h[k..], "://")
  }

  /** What `^(?:[a-z+]+:)?//` matches, read straight off the pattern. */
  ghost predicate MatchesAbsolutePattern(h: string) {
    StartsWith(h, "//") || exists k: nat :: SchemeThenSlashes(h, k)
  }

  /** The computed test accepts exactly the strings the pattern matches. */
  lemma AbsoluteRefIsPattern(h: string)
    ensures IsAbsoluteRef(h) <==> MatchesAbsolutePattern(h)
  {
    var n := SchemeRun(h);
    if IsAbsoluteRef(h) && !StartsWith(h, "//") {
      assert SchemeThenSlashes(h, n);
    }
    if MatchesAbsolutePattern(h) && !StartsWith(h, "//") {
      var k: nat :| SchemeThenSlashes(h, k);
      assert h[k] == ':';
      assert n == k;
    }
  }

  /** The condition of toc.js:22: a present, non-empty, relative, non-fragment href. */
  predicate ShouldPrefix(href: Option<string>) {
    href.Some? && href.value != "" && !StartsWith(href.value, "#") && !IsAbsoluteRef(href.value)
  }

  /** The href attribute once toc.js:22-24 has run over it. */
  function RewriteHref(pathToRoot: string, href: Option<string>): (r: Option<string>)
    ensures r.Some? <==> href.Some?
    ensures r != href ==> href.Some? && r.value == pathToRoot + href.value
  {
    if ShouldPrefix(href) then Some(pathToRoot + href.value) else href
  }

  /**
   * The rewrite against the condition of toc.js:22 as written, with the
   * regular expression read as a pattern: a present, non-empty href that is
   * no fragment and matches no `^(?:[a-z+]+:)?//` gets `path_to_root` in front,
   * and every other href is kept.
   */
  lemma RewriteRule(pathToRoot: string, href: Option<string>)
    ensures href.Some? && href.value != "" && !StartsWith(href.value, "#") && !MatchesAbsolutePattern(href.value)
      ==> RewriteHref(pathToRoot, href) == Some(pathToRoot + href.value)
    ensures !(href.Some? && href.value != "" && !StartsWith(href.value, "#") && !MatchesAbsolutePattern(href.value))
      ==> RewriteHref(pathToRoot, href) == href
  {
    if href.Some? {
      AbsoluteRefIsPattern(href.value);
    }
  }

  /** An empty `path_to_root` leaves every href as it is. */
  lemma RewriteAtRoot(href: Option<string>)
    ensures RewriteHref("", href) == href
  {
    if ShouldPrefix(href) {
      assert "" + href.value == href.value;
    }
  }

  /** Missing, empty and fragment-only hrefs are never prefixed. */
  lemma FragmentHrefsKept()
    ensures !ShouldPrefix(None) && !ShouldPrefix(Some(""))
    ensures !ShouldPrefix(Some("#top"))
  {
    assert StartsWith("#top", "#");
  }

  /** Every `[a-z+]+://...` and every `//...` href is absolute to the script. */
  lemma SchemeSlashesAbsolute(scheme: string, rest: string)
    requires scheme != [] && forall i :: 0 <= i < |scheme| ==> IsSchemeChar(scheme[i])
    ensures IsAbsoluteRef(scheme + "://" + rest)
    ensures IsAbsoluteRef("//" + rest)
  {
    var h := scheme + "://" + rest;
    assert h[|scheme|] == ':';
    SchemeRunIs(h, |scheme|);
    assert h[|scheme|..] == "://" + rest;
    assert ("//" + rest)[..2] == "//";
  }

  /** Protocol-relative hrefs and lower-case `[a-z+]` schemes with `//` are never prefixed. */
  lemma AbsoluteHrefsKept()
    ensures !ShouldPrefix(Some("//x"))
    ensures !ShouldPrefix(Some("http://x")) && !ShouldPrefix(Some("https://x"))
    ensures !ShouldPrefix(Some("svn+ssh://x"))
  {
    SchemeSlashesAbsolute("http", "x");
    assert "http" + "://" + "x" == "http://x";
    SchemeSlashesAbsolute("https", "x");
    assert "https" + "://" + "x" == "https://x";
    SchemeSlashesAbsolute("svn+ssh", "x");
    assert "svn+ssh" + "://" + "x" == "svn+ssh://x";
    assert "//" + "x" == "//x";
  }

  /** An href that starts with neither `[a-z+]`, `/` nor `#` is always prefixed. */
  lemma NoSchemePrefixed(h: string)
    requires h != [] && !IsSchemeChar(h[0]) && h[0] != '/' && h[0] != '#'
    ensures ShouldPrefix(Some(h))
  {
    SchemeRunIs(h, 0);
  }

  /** A scheme without `//`, an upper-case scheme and a digit in the scheme are all prefixed. */
  lemma NarrowSchemesPrefixed()
    ensures ShouldPrefix(Some("mailto:x"))
    ensures ShouldPrefix(Some("HTTP://x"))
    ensures ShouldPrefix(Some("h2://x"))
    ensures ShouldPrefix(Some("01-system-map.html"))
  {
    SchemeRunIs("mailto:x", 6);
    assert "mailto:x"[6..] == ":x";
    NoSchemePrefixed("HTTP://x");
    SchemeRunIs("h2://x", 1);
    assert "h2://x"[1..] == "2://x";
    NoSchemePrefixed("01-system-map.html");
  }
}
