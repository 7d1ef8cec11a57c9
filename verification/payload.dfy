/** Where the page's HTML is taken from in the wiki's `action=parse` JSON response:
    `data?.parse?.text?.["*"] ?? data?.parse?.text ?? data?.parse?.["*"] ?? ""`,
    followed by the `if (!html)` test. */
module Payload {
  import opened Maybe

  /** A parsed JSON value. Objects map each key to its value (a repeated key keeps its
      last value, as `JSON.parse` does). */
  datatype Json =
    | JNull
    | JBool(b: bool)
    | JNumber(n: real)
    | JString(s: string)
    | JArray(items: seq<Json>)
    | JObject(fields: map<string, Json>)

  /** The failures of the endpoint that the model covers. */
  datatype ApiError =
    | NoHtmlContent
    | UnexpectedPayload
    | TooFewAchievements(count: nat)

  /** `v?.[key]`, with None for `undefined`: only an object has members; a string,
      number, array, boolean or null yields `undefined` for these keys. */
  function Member(v: Option<Json>, key: string): (r: Option<Json>)
    ensures r.Some? <==> v.Some? && v.value.JObject? && key in v.value.fields
    ensures r.Some? ==> r.value == v.value.fields[key]
  {
    match v
    case Some(JObject(fields)) => if key in fields then Some(fields[key]) else None
    case _ => None
  }

  /** `undefined` and `null` are the values `??` passes over. */
  predicate IsNullish(v: Option<Json>) {
    v.None? || v.value.JNull?
  }

  /** `a ?? b`. */
  function Coalesce(a: Option<Json>, b: Option<Json>): (r: Option<Json>)
    ensures !IsNullish(a) ==> r == a
    ensures IsNullish(a) ==> r == b
  {
    if IsNullish(a) then b else a
  }

  /** JavaScript truthiness of a JSON value (JSON has no NaN). */
  predicate Truthy(v: Json) {
    match v
    case JNull => false
    case JBool(b) => b
    case JNumber(n) => n != 0.0
    case JString(s) => s != []
    case JArray(_) => true
    case JObject(_) => true
  }

  /** The three places the HTML may sit, in the order they are tried. */
  function TextStar(data: Json): Option<Json> {
    Member(Member(Member(Some(data), "parse"), "text"), "*")
  }

  function Text(data: Json): Option<Json> {
    Member(Member(Some(data), "parse"), "text")
  }

  function ParseStar(data: Json): Option<Json> {
    Member(Member(Some(data), "parse"), "*")
  }

  /** The value the chain settles on: the first of the three that is neither missing
      nor null, or "" when all three are. */
  function ChosenHtml(data: Json): (v: Json)
    ensures !IsNullish(TextStar(data)) ==> v == TextStar(data).value
    ensures IsNullish(TextStar(data)) && !IsNullish(Text(data)) ==> v == Text(data).value
    ensures IsNullish(TextStar(data)) && IsNullish(Text(data)) && !IsNullish(ParseStar(data)) ==>
      v == ParseStar(data).value
    ensures IsNullish(TextStar(data)) && IsNullish(Text(data)) && IsNullish(ParseStar(data)) ==>
      v == JString("")
  {
    Coalesce(Coalesce(Coalesce(TextStar(data), Text(data)), ParseStar(data)), Some(JString(""))).value
  }

  /** The HTML to parse, or the endpoint's failure: a falsy value means "no HTML
      content"; a truthy value that is not a string cannot be parsed as markup. */
  function HtmlPayload(data: Json): (r: Result<string, ApiError>)
    ensures r.Ok? <==> ChosenHtml(data).JString? && ChosenHtml(data).s != []
    ensures r.Ok? ==> r.value == ChosenHtml(data).s
    ensures r == Err(NoHtmlContent) <==> !Truthy(ChosenHtml(data))
    ensures r.Err? ==> r.error == NoHtmlContent || r.error == UnexpectedPayload
  {
    var v := ChosenHtml(data);
    if !Truthy(v) then Err(NoHtmlContent)
    else if v.JString? then Ok(v.s)
    else Err(UnexpectedPayload)
  }

  /** The usual response shape: `parse.text["*"]` holds the markup. */
  lemma StarredTextIsUsed(html: string, rest: map<string, Json>, top: map<string, Json>)
    requires html != []
    ensures var text := JObject(rest["*" := JString(html)]);
      var data := JObject(top["parse" := JObject(map["text" := text])]);
      HtmlPayload(data) == Ok(html)
  {
  }

  /** A plain string under `parse.text` is used as it is: a string has no `*` member. */
  lemma PlainTextIsUsed(html: string, parse: map<string, Json>)
    requires html != []
    ensures HtmlPayload(JObject(map["parse" := JObject(parse["text" := JString(html)])])) == Ok(html)
  {
  }

  /** `??` stops at an empty string: an empty `parse.text["*"]` hides a non-empty
      `parse["*"]`, and the response counts as having no HTML. */
  lemma EmptyStringStopsTheChain(fallback: string)
    ensures var parse := map["text" := JObject(map["*" := JString("")]), "*" := JString(fallback)];
      HtmlPayload(JObject(map["parse" := JObject(parse)])) == Err(NoHtmlContent)
  {
    var parse := map["text" := JObject(map["*" := JString("")]), "*" := JString(fallback)];
    var data := JObject(map["parse" := JObject(parse)]);
    assert TextStar(data) == Some(JString(""));
  }

  /** `null` does not stop it: a null `parse.text` falls through to `parse["*"]`. */
  lemma NullFallsThrough(html: string)
    requires html != []
    ensures var parse := map["text" := JNull, "*" := JString(html)];
      HtmlPayload(JObject(map["parse" := JObject(parse)])) == Ok(html)
  {
    var parse := map["text" := JNull, "*" := JString(html)];
    var data := JObject(map["parse" := JObject(parse)]);
    assert Text(data) == Some(JNull);
    assert TextStar(data) == None;
  }

  /** A response without `parse` has no HTML content. */
  lemma MissingParseHasNoHtml(data: Json)
    requires !(data.JObject? && "parse" in data.fields)
    ensures HtmlPayload(data) == Err(NoHtmlContent)
  {
  }
}
