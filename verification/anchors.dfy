/** What happens to the attributes of every link (`a` tag) inside the chosen unlock
    fragment: the Cheerio pass of the row loop, the `transformTags` hook handed to
    sanitize-html, and the attribute allow-list configured for `a`. */
module Anchors {
  import opened JsText
  import opened Links

  /** The attributes of one element, by name. */
  type Attributes = map<string, string>

  const Target: string := "_blank"
  const Rel: string := "noopener noreferrer"

  /** The attributes sanitize-html is configured to keep on an `a` tag. */
  const AnchorAllowList: set<string> := {"href", "target", "rel", "title"}

  /** The attributes the two rewrites set themselves. */
  predicate IsRewritten(name: string) {
    name == "href" || name == "target" || name == "rel"
  }

  /** The Cheerio pass over each link of the chosen fragment: `href` is resolved
      (a missing one reads as ""), and the link opens in a new tab without an opener. */
  function PrepareAnchor(attribs: Attributes): (r: Attributes)
    ensures "href" in r && r["href"] == ToAbsoluteHref(if "href" in attribs then attribs["href"] else "")
    ensures "target" in r && r["target"] == Target
    ensures "rel" in r && r["rel"] == Rel
    ensures forall k :: k in attribs && !IsRewritten(k) ==> k in r && r[k] == attribs[k]
    ensures forall k :: k in r ==> k in attribs || IsRewritten(k)
  {
    var href := if "href" in attribs then attribs["href"] else "";
    attribs["href" := ToAbsoluteHref(href)]["target" := Target]["rel" := Rel]
  }

  /** The `transformTags` hook for `a`: `href` survives only when it resolves to a
      non-empty URL, and then as that URL; `target` and `rel` are forced; every other
      attribute is kept as it was. */
  function SanitizerAnchorHook(attribs: Attributes): (r: Attributes)
    ensures "target" in r && r["target"] == Target
    ensures "rel" in r && r["rel"] == Rel
    ensures "href" in r <==> "href" in attribs && ToAbsoluteHref(attribs["href"]) != []
    ensures "href" in r ==> r["href"] == ToAbsoluteHref(attribs["href"])
    ensures forall k :: k in attribs && !IsRewritten(k) ==> k in r && r[k] == attribs[k]
    ensures forall k :: k in r ==> k in attribs || IsRewritten(k)
  {
    // `attribs.href ? toAbsoluteHref(attribs.href) : ""`: an empty href is falsy
    var href := if "href" in attribs && attribs["href"] != [] then ToAbsoluteHref(attribs["href"]) else [];
    var next := attribs["target" := Target]["rel" := Rel];
    if href != [] then next["href" := href] else next - {"href"}
  }

  /** The attribute allow-list configured for `a`, applied after the hook. sanitize-html's
      built-in attribute rules (dropping empty non-boolean attributes, checking names,
      re-encoding entities) are not part of this model. */
  function KeepAllowed(attribs: Attributes): (r: Attributes)
    ensures r.Keys == attribs.Keys * AnchorAllowList
    ensures forall k :: k in r ==> r[k] == attribs[k]
  {
    map k | k in attribs && k in AnchorAllowList :: attribs[k]
  }

  /** Running the Cheerio pass before the hook changes nothing: the hook alone already
      decides every attribute, because resolving a resolved link is the identity. */
  lemma PrepareThenHook(attribs: Attributes)
    ensures SanitizerAnchorHook(PrepareAnchor(attribs)) == SanitizerAnchorHook(attribs)
  {
    var a := SanitizerAnchorHook(PrepareAnchor(attribs));
    var b := SanitizerAnchorHook(attribs);
    PrepareThenHookHref(attribs);
    PrepareThenHookOthers(attribs);
    SameAttributes(a, b);
  }

  lemma SameAttributes(a: Attributes, b: Attributes)
    requires "target" in a && "target" in b && a["target"] == b["target"]
    requires "rel" in a && "rel" in b && a["rel"] == b["rel"]
    requires ("href" in a <==> "href" in b) && ("href" in a ==> a["href"] == b["href"])
    requires forall k :: !IsRewritten(k) ==> (k in a <==> k in b) && (k in a ==> a[k] == b[k])
    ensures a == b
  {
    assert a.Keys == b.Keys;
  }

  lemma PrepareThenHookHref(attribs: Attributes)
    ensures var a := SanitizerAnchorHook(PrepareAnchor(attribs)); var b := SanitizerAnchorHook(attribs);
      && ("href" in a <==> "href" in b)
      && ("href" in a ==> a["href"] == b["href"])
  {
    var given := if "href" in attribs then attribs["href"] else "";
    ToAbsoluteHrefIdempotent(given);
    assert AllSpace("");
  }

  lemma PrepareThenHookOthers(attribs: Attributes)
    ensures var a := SanitizerAnchorHook(PrepareAnchor(attribs)); var b := SanitizerAnchorHook(attribs);
      forall k :: !IsRewritten(k) ==> (k in a <==> k in b) && (k in a ==> a[k] == b[k])
  {
  }

  /** What an anchor's attributes look like after both rewrites and the configured
      allow-list: only allowed attributes, forced `target` and `rel`, a `title` kept as
      written, and an `href` exactly when one was written with some non-blank text,
      holding that text resolved to an absolute URL. */
  lemma AnchorAfterSanitizer(attribs: Attributes)
    ensures var r := KeepAllowed(SanitizerAnchorHook(PrepareAnchor(attribs)));
      && r.Keys <= AnchorAllowList
      && "target" in r && r["target"] == Target
      && "rel" in r && r["rel"] == Rel
      && ("href" in r ==> HasAbsoluteScheme(r["href"]))
      && ("href" in r <==> "href" in attribs && !AllSpace(attribs["href"]))
      && ("href" in r ==> r["href"] == ToAbsoluteHref(attribs["href"]))
      && ("title" in attribs ==> "title" in r && r["title"] == attribs["title"])
  {
    PrepareThenHook(attribs);
    HookThenAllowList(attribs);
  }

  lemma HookThenAllowList(attribs: Attributes)
    ensures var r := KeepAllowed(SanitizerAnchorHook(attribs));
      && r.Keys <= AnchorAllowList
      && "target" in r && r["target"] == Target
      && "rel" in r && r["rel"] == Rel
      && ("href" in r ==> HasAbsoluteScheme(r["href"]))
      && ("href" in r <==> "href" in attribs && !AllSpace(attribs["href"]))
      && ("href" in r ==> r["href"] == ToAbsoluteHref(attribs["href"]))
      && ("title" in attribs ==> "title" in r && r["title"] == attribs["title"])
  {
    var h := SanitizerAnchorHook(attribs);
    assert "href" in h ==> h["href"] == ToAbsoluteHref(attribs["href"]) && h["href"] != [];
    assert !IsRewritten("title");
  }
}
