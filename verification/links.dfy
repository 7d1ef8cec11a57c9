/** Resolution of wiki links against the wiki's origin (`toAbsoluteHref`). */
module Links {
  import opened JsText

  /** The origin every relative link is resolved against. */
  const WikiBase: string := "https://bindingofisaacrebirth.wiki.gg"
  const Page: string := "Achievements"
  /** The page the achievements are read from; fragment links point into it. */
  const SourcePage: string := WikiBase + "/wiki/" + Page

  /** `s` starts with the lower-case ASCII `prefix`, ignoring ASCII case. */
  predicate StartsWithIgnoringCase(s: string, prefix: string) {
    |prefix| <= |s| && forall i :: 0 <= i < |prefix| ==> LowerChar(s[i]) == prefix[i]
  }

  /** The test `/^(https?:|mailto:)/i`. */
  predicate HasAbsoluteScheme(h: string) {
    StartsWithIgnoringCase(h, "http:") || StartsWithIgnoringCase(h, "https:") || StartsWithIgnoringCase(h, "mailto:")
  }

  /** `h.replace(/^\/+/, "")`. */
  function StripLeadingSlashes(h: string): (r: string)
    ensures r == [] || r[0] != '/'
    ensures |r| <= |h| && r == h[|h| - |r|..]
    ensures forall i :: 0 <= i < |h| - |r| ==> h[i] == '/'
    ensures h == [] || h[0] != '/' ==> r == h
  {
    if |h| > 0 && h[0] == '/' then StripLeadingSlashes(h[1..]) else h
  }

  /** `toAbsoluteHref`: resolves a link target found on the wiki to an absolute URL,
      or to "" when there is no target. */
  function ToAbsoluteHref(href: string): (r: string)
    ensures r == [] <==> AllSpace(href)
    ensures r != [] ==> HasAbsoluteScheme(r) && IsTrimmed(r)
  {
    var h := Trim(href);
    if h == [] then h
    else if h[0] == '/' then OnWiki(WikiBase, h)
    else if h[0] == '#' then OnWiki(SourcePage, h)
    else if HasAbsoluteScheme(h) then h
    else OnWiki(WikiBase + "/", StripLeadingSlashes(h))
  }

  /** `h` appended to a prefix of the wiki's origin (the origin itself, the source page,
      or the origin with a trailing slash). */
  function OnWiki(prefix: string, h: string): (r: string)
    requires StartsWith(prefix, WikiBase)
    requires h != [] && IsTrimmed(h)
    ensures HasAbsoluteScheme(r) && IsTrimmed(r)
    ensures |h| <= |r| && r[|r| - |h|..] == h
  {
    var r := prefix + h;
    BaseIsHttps();
    assert forall i :: 0 <= i < 6 ==> r[i] == WikiBase[i];
    assert r[|r| - |h|..] == h;
    r
  }

  lemma BaseIsHttps()
    ensures StartsWithIgnoringCase(WikiBase, "https:") && WikiBase[0] == 'h'
  {
    assert WikiBase[..6] == "https:";
  }

  /** Resolution only ever adds a prefix: the trimmed target is the end of the result. */
  lemma ToAbsoluteHrefKeepsTarget(href: string)
    ensures var r := ToAbsoluteHref(href); var h := Trim(href);
      |h| <= |r| && r[|r| - |h|..] == h
  {
    var h := Trim(href);
    if h != [] && h[0] != '/' && h[0] != '#' && !HasAbsoluteScheme(h) {
      assert StripLeadingSlashes(h) == h;
    }
  }

  /** The rules in the order the source applies them. */
  lemma ToAbsoluteHrefRules(href: string)
    ensures var h := Trim(href);
      && (h == [] ==> ToAbsoluteHref(href) == [])
      && (h != [] && h[0] == '/' ==> ToAbsoluteHref(href) == WikiBase + h)
      && (h != [] && h[0] == '#' ==> ToAbsoluteHref(href) == SourcePage + h)
      && (h != [] && h[0] != '/' && h[0] != '#' && HasAbsoluteScheme(h) ==> ToAbsoluteHref(href) == h)
      && (h != [] && h[0] != '/' && h[0] != '#' && !HasAbsoluteScheme(h) ==> ToAbsoluteHref(href) == WikiBase + "/" + h)
  {
    var h := Trim(href);
    if h != [] && h[0] != '/' && h[0] != '#' && !HasAbsoluteScheme(h) {
      assert StripLeadingSlashes(h) == h;
    }
  }

  /** A non-empty result starts with one of the schemes the test above accepts, is
      already trimmed, and so is returned unchanged by a second resolution. */
  lemma ToAbsoluteHrefIdempotent(href: string)
    ensures ToAbsoluteHref(ToAbsoluteHref(href)) == ToAbsoluteHref(href)
  {
    var r := ToAbsoluteHref(href);
    if r != [] {
      assert Trim(r) == r;
      assert !IsUpper(LowerChar(r[0]));
      assert r[0] != '/' && r[0] != '#';
    }
  }

  /** An already trimmed target is resolved by the rules without a trimming step. */
  lemma ResolveTrimmed(h: string)
    requires h != [] && IsTrimmed(h)
    ensures h[0] == '/' ==> ToAbsoluteHref(h) == WikiBase + h
    ensures h[0] == '#' ==> ToAbsoluteHref(h) == SourcePage + h
    ensures h[0] != '/' && h[0] != '#' && HasAbsoluteScheme(h) ==> ToAbsoluteHref(h) == h
  {
    assert Trim(h) == h;
  }

  /** A root-relative link resolves onto the origin. */
  lemma RootRelativeExample()
    ensures ToAbsoluteHref("/wiki/Foo") == "https://bindingofisaacrebirth.wiki.gg/wiki/Foo"
  {
    ResolveTrimmed("/wiki/Foo");
  }

  /** A fragment link resolves into the achievements page. */
  lemma FragmentExample()
    ensures ToAbsoluteHref("#Bar") == "https://bindingofisaacrebirth.wiki.gg/wiki/Achievements#Bar"
  {
    ResolveTrimmed("#Bar");
    SourcePageSpelledOut();
  }

  lemma SourcePageSpelledOut()
    ensures SourcePage == "https://bindingofisaacrebirth.wiki.gg/wiki/Achievements"
  {
  }

  /** An absolute link is kept as it is. */
  lemma AbsoluteExample()
    ensures ToAbsoluteHref("https://x/y") == "https://x/y"
  {
    var h := "https://x/y";
    assert h[..6] == "https:";
    ResolveTrimmed(h);
  }

  /** White space alone is no link at all. */
  lemma BlankExample()
    ensures ToAbsoluteHref(" \t ") == ""
  {
  }
}
