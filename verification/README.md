# Isaac achievements tracker: a Dafny model of the extractor and the list view

The tracker shows every achievement of *The Binding of Isaac: Repentance* as a
checklist. Its server endpoint (`GET /api/achievements`) asks the community wiki's
parse API for the "Achievements" page and reads the HTML tables. For each table it:

1. finds which columns hold the id, the name and the unlock description;
2. keeps only the line of the unlock cell that describes the latest game version;
3. rewrites every link to an absolute URL that opens in a new tab;
4. sanitizes the markup.

It then keeps the first row for each id, sorts by id, and refuses to answer with fewer
than 500 achievements. The page filters that list by a search text and a completion
status, sorts it by id, counts completed rows and marks rows done in bulk.

This project models that logic in Dafny 4.11 and proves properties of it.

| file | module | models |
|---|---|---|
| `maybe.dfy` | `Maybe` | `Option` (`null` / `undefined`) and `Result` (value or error response) |
| `jstext.dfy` | `JsText` | `trim`, ASCII `toLowerCase`, `includes`, `startsWith`, `\s` `\d` `\w`, decimal digits |
| `links.dfy` | `Links` | `toAbsoluteHref` |
| `anchors.dfy` | `Anchors` | the Cheerio link rewrite of the row loop, the `transformTags` hook for `a`, the `a` attribute allow-list |
| `columns.dfy` | `Columns` | `normalizeHeader`, `findColumnIndexes` |
| `variants.dfy` | `Variants` | `pickLatestVersionSnippet`: `<br>` splitting, the keyword tests and the four priority tiers |
| `arrays.dfy` | `Arrays` | `Array.prototype.sort` with a numeric comparator (stable), `filter`, `map`, "push what the callback yields" |
| `rows.dfy` | `Rows` | header row, data cells, the row loop and the table loop |
| `payload.dfy` | `Payload` | the `data?.parse?.text?.["*"] ?? …` chain and the `if (!html)` test |
| `extraction.dfy` | `Extraction` | the id map (first row wins), the sort by id, the floor of 500, the envelope |
| `clientlist.dfy` | `ClientList` | `completedCount`, the `filtered` memo, `toggleIdSort`, `toggleCompleted`, `markFiltered` |

The two libraries the endpoint calls are parameters of the model:

- Cheerio becomes the tables a page holds, the list items of a fragment and the text of a fragment.
- sanitize-html becomes `Rendering.finish`.

`Anchors` models what the Cheerio link pass, the `transformTags` hook and the attribute
allow-list configured for `a` (`href`, `target`, `rel`, `title`) do to link attributes.
sanitize-html's own built-in attribute rules are not part of that model, and nothing else is
assumed about the two parameters.

Facts of the code that shape the model:

- There is no image column. A record holds an id, a name, an optional name link and the
  unlock markup, and nothing else.
- The header texts come from the `th` and `td` cells of the first row, but the body
  cells come from the `td` cells only. `Rows.HeaderTexts` and `Rows.DataCells` keep that
  asymmetry, so a body row that starts with a `th` is read with shifted indices.
- The `??` chain passes over `null` and `undefined` but stops at `""`, so an empty
  `parse.text["*"]` hides `parse["*"]`.
- A truthy payload that is not a string (an object, a number, `true`) is not markup. It
  is modelled as the error `UnexpectedPayload`, where the code would hand it to Cheerio.

## Model

| member | source | states |
|---|---|---|
| Links.ToAbsoluteHref | app/api/achievements/route.ts:20-27 | The result is "" exactly when the target is missing or white space; otherwise it starts with `http:`, `https:` or `mailto:` (any case) and has no surrounding white space |
| Links.ToAbsoluteHrefRules | app/api/achievements/route.ts:21-26 | The rules in source order on the trimmed target: empty stays empty, `/…` goes onto the origin, `#…` onto the achievements page, an absolute URL is kept, anything else goes onto the origin after a `/` |
| Links.ToAbsoluteHrefKeepsTarget | app/api/achievements/route.ts:20-27 | Resolution only adds a prefix: the trimmed target is the tail of the result |
| Links.ToAbsoluteHrefIdempotent | app/api/achievements/route.ts:20-27 | Resolving a resolved link changes nothing |
| Links.StripLeadingSlashes | app/api/achievements/route.ts:26 | `replace(/^\/+/, "")` removes exactly the leading run of `/`: what it drops is all `/`, what it returns is the rest of the input and does not start with `/` |
| Links.RootRelativeExample | app/api/achievements/route.ts:23 | `/wiki/Foo` resolves to the origin followed by `/wiki/Foo` |
| Links.FragmentExample | app/api/achievements/route.ts:24 | `#Bar` resolves to the achievements page followed by `#Bar` |
| Links.AbsoluteExample | app/api/achievements/route.ts:25 | An `https:` URL is kept unchanged |
| Links.BlankExample | app/api/achievements/route.ts:21-22 | A target of white space only resolves to "" |
| JsText.Trim | app/api/achievements/route.ts:21 | `trim` leaves no white space at either end, is "" exactly when the input is all white space, and leaves a trimmed string alone |
| JsText.TrimDropsOuterSpace | app/api/achievements/route.ts:21 | The trimmed text is a slice of the input with only white space before and after it |
| JsText.TrimOfMargins | app/api/achievements/route.ts:21 | A trimmed middle between two runs of white space is exactly what `trim` returns |
| JsText.NonSpaceTrim | app/api/achievements/route.ts:21 | `trim` removes white space only: the non-space characters are kept, in order |
| JsText.Lower | app/api/achievements/route.ts:31 | `toLowerCase` keeps the length and lowers each character on its own, at the same position (also used at app/page.tsx:139 and 145) |
| JsText.KeepDigits | app/api/achievements/route.ts:246 | `replace(/[^\d]/g, "")` leaves only digits, is "" exactly when the input has no digit, and leaves an all-digit string alone |
| JsText.KeepDigitsConcat | app/api/achievements/route.ts:246 | `replace(/[^\d]/g, "")` works character by character: the digits of a concatenation are the digits of each part, in order |
| JsText.KeepDigitsChar | app/api/achievements/route.ts:246 | A single character is kept exactly when it is a digit |
| JsText.TrimIsSlice | app/api/achievements/route.ts:21 | The trimmed text occurs in the input |
| JsText.DecimalRoundTrip | app/page.tsx:146 | Reading back the decimal form of an id (`a.id.toString()`) gives the id |
| Columns.CollapseSpaces | app/api/achievements/route.ts:32 | After `replace(/\s+/g, " ")` every white-space character is a plain space, no two are adjacent, and no other character is introduced |
| Columns.CollapseSpacesSqueezes | app/api/achievements/route.ts:32 | The replacement equals the character-by-character reference `Squeeze`: each maximal run of white space becomes one space and every other character is copied |
| Columns.CollapseKeepsNonSpace | app/api/achievements/route.ts:32 | The replacement keeps every non-space character, in order |
| Columns.RemovePunctuation | app/api/achievements/route.ts:33 | `replace(/[:*#().]/g, "")` leaves none of `:*#().`, never lengthens the text, and leaves text without them alone |
| Columns.RemovePunctuationConcat | app/api/achievements/route.ts:33 | The replace works character by character: what is left of a concatenation is what is left of each part, in order |
| Columns.RemovePunctuationChar | app/api/achievements/route.ts:33 | A single character is removed exactly when it is one of `:*#().` |
| Columns.NormalizeHeader | app/api/achievements/route.ts:29-35 | The body applies lower-casing, white-space collapsing, punctuation removal and trimming in the source's order; the result is trimmed, has no upper-case letter, none of `:*#().`, and only plain spaces |
| Columns.NormalizeHeaderKeeps | app/api/achievements/route.ts:29-35 | The non-space characters of a normalised header are those of the input, lower-cased, with `:*#().` removed, in order |
| Columns.NormalizeCanonical | app/api/achievements/route.ts:29-35 | A header already lower-case, without punctuation, with single plain spaces and trimmed normalises to itself |
| Columns.NormalizeWord | app/api/achievements/route.ts:29-35 | A header without white space or punctuation normalises to its lower-case form |
| Columns.NormalizedWithoutPunctuation | app/api/achievements/route.ts:29-35 | A header without punctuation normalises to text with no two spaces side by side |
| Columns.NormalizeHeaderNotIdempotent | app/api/achievements/route.ts:29-35 | `"a . b"` normalises to `"a  b"`, and normalising that again gives a different result |
| Columns.Scan | app/api/achievements/route.ts:54-80 | After the `forEach`, each slot holds the leftmost header passing its role's test, or -1 when no header passes it |
| Columns.FindColumnIndexes | app/api/achievements/route.ts:37-84 | The result is null exactly when some role has no matching header; otherwise each index is the leftmost header passing that role's test |
| Columns.ReorderedHeadersExample | app/api/achievements/route.ts:54-83 | Headers "unlock", "id", "name" map to id 1, name 2, unlock 0 |
| Columns.OneColumnManyRolesExample | app/api/achievements/route.ts:54-80 | One header can take all three roles |
| Variants.SplitOnBreaks | app/api/achievements/route.ts:109-110 | Splitting on `<br>`, `<br/>`, `<BR />`… yields at least one piece, no piece holds a break tag, and a fragment without break tags is one piece |
| Variants.SplitOnBreaksRoundTrip | app/api/achievements/route.ts:109-110 | Nothing is lost: putting the removed tags back between the pieces gives the fragment again, and each removed text is one whole break tag |
| Variants.SplitAroundOneBreak | app/api/achievements/route.ts:109-110 | Two lines without `<` around one `<br>` split into exactly those two lines |
| Variants.TrimmedLines | app/api/achievements/route.ts:111-112 | The kept lines are non-empty and trimmed, and there are no more of them than pieces |
| Variants.TrimmedLinesConcat | app/api/achievements/route.ts:111-112 | `map(trim).filter(Boolean)` works piece by piece: the lines of a concatenation are the lines of each part, in order |
| Variants.TrimmedLinesOne | app/api/achievements/route.ts:111-112 | A single piece gives nothing when it is blank and its trimmed text otherwise |
| Variants.CandidateParts | app/api/achievements/route.ts:100-117 | The list items when the fragment has any; otherwise exactly the trimmed non-blank `<br>` lines, in order, each paired with its parsed text |
| Variants.Rank | app/api/achievements/route.ts:121-152 | A line's rank is the first of the four tiers it belongs to, or 5 when it belongs to none |
| Variants.LatestIndex | app/api/achievements/route.ts:128-155 | The chosen line has the best rank of all lines and no later line has that rank |
| Variants.LatestIsUnique | app/api/achievements/route.ts:128-155 | At most one line satisfies that choice, so the choice is determined |
| Variants.PickLatestVersionSnippet | app/api/achievements/route.ts:94-156 | An empty fragment or one without candidate lines comes back unchanged; otherwise the markup of the chosen line |
| Variants.NoKeywordTakesLast | app/api/achievements/route.ts:154-155 | Without "repentance" or "afterbirth" in any line, the last line is chosen |
| Variants.RepentancePlusRedundant | app/api/achievements/route.ts:124 | `\brepentance\+?\b` matches exactly where the whole word "repentance" stands |
| Variants.AfterbirthPlusIsAfterbirth | app/api/achievements/route.ts:125-126 | Every line matching the Afterbirth+ test also matches the Afterbirth test |
| Variants.ExcludedLineLosesExample | app/api/achievements/route.ts:121-134 | "Before Repentance: do X" loses to a later "In Repentance: do Y" |
| Variants.BreakLineExample | app/api/achievements/route.ts:94-156 | For "Before Repentance: do X<br>In Repentance: do Y" without list items, the snippet is "In Repentance: do Y" |
| Anchors.PrepareAnchor | app/api/achievements/route.ts:266-271 | The Cheerio pass sets `href` to the resolved target (a missing one read as ""), forces `target` and `rel`, and keeps every other attribute |
| Anchors.SanitizerAnchorHook | app/api/achievements/route.ts:181-194 | The hook forces `target` and `rel`, keeps `href` exactly when it resolves to a non-empty URL (then as that URL), and keeps every other attribute |
| Anchors.KeepAllowed | app/api/achievements/route.ts:173-174 | The allow-list configured for `a`: only `href`, `target`, `rel` and `title` survive on a link, with their values |
| Anchors.PrepareThenHook | app/api/achievements/route.ts:266-274 | Running the Cheerio pass before the hook gives the same attributes as the hook alone |
| Anchors.HookThenAllowList | app/api/achievements/route.ts:173-194 | After the hook and the configured allow-list, a link has forced `target` and `rel`, its `title`, and an `href` exactly when its original target was not blank, holding that target resolved to a URL with an allowed scheme |
| Anchors.AnchorAfterSanitizer | app/api/achievements/route.ts:264-274 | The same holds for any anchor's attributes after the two rewrites and the configured allow-list |
| Payload.Member | app/api/achievements/route.ts:219-221 | `v?.[key]` is present exactly when `v` is an object holding `key` |
| Payload.Coalesce | app/api/achievements/route.ts:218-222 | `a ?? b` is `a` unless `a` is null or undefined |
| Payload.ChosenHtml | app/api/achievements/route.ts:218-222 | The chain settles on the first of `parse.text["*"]`, `parse.text`, `parse["*"]` that is neither null nor undefined, else "" |
| Payload.HtmlPayload | app/api/achievements/route.ts:218-229 | HTML is found exactly when the chosen value is a non-empty string; a falsy value is "no HTML content" |
| Payload.StarredTextIsUsed | app/api/achievements/route.ts:219 | The usual response shape yields its `parse.text["*"]` |
| Payload.PlainTextIsUsed | app/api/achievements/route.ts:220 | A string under `parse.text` is used as it is |
| Payload.EmptyStringStopsTheChain | app/api/achievements/route.ts:218-229 | An empty `parse.text["*"]` hides `parse["*"]` and the response has no HTML |
| Payload.NullFallsThrough | app/api/achievements/route.ts:218-222 | A null `parse.text` falls through to `parse["*"]` |
| Payload.MissingParseHasNoHtml | app/api/achievements/route.ts:218-229 | A response without `parse` has no HTML content |
| Rows.HeaderTexts | app/api/achievements/route.ts:41-48 | One normalised text per `th`/`td` cell of the first row, in order; none for an empty table |
| Rows.RawHeadersExample | app/api/achievements/route.ts:37-83 | A first row of header cells "Unlock", "ID", "Name" maps to id 1, name 2, unlock 0 |
| Rows.DataCells | app/api/achievements/route.ts:242 | Every cell kept is a `td` cell of the row, and every `td` cell of the row is kept |
| Rows.DataCellsConcat | app/api/achievements/route.ts:242 | `find("td")` works cell by cell: the data cells of a concatenation are those of each part, in order |
| Rows.DataCellsOne | app/api/achievements/route.ts:242 | A single cell is kept exactly when it is a `td` cell |
| Rows.ParseId | app/api/achievements/route.ts:245-248 | There is an id exactly when the id cell holds a digit, and it is the decimal value of the cell's digits read in order |
| Rows.ParseIdExample | app/api/achievements/route.ts:245-248 | "No. 4 (b5)" reads as id 45 |
| Rows.ParseIdRoundTrip | app/api/achievements/route.ts:245-248 | An id written in decimal reads back as itself |
| Rows.NameUrl | app/api/achievements/route.ts:254-255 | No URL exactly when the name cell has no link target; otherwise the target resolved by `toAbsoluteHref` |
| Rows.UnlockSource | app/api/achievements/route.ts:257-259 | The unlock cell's markup, or its trimmed text when the markup is empty |
| Rows.ExtractRowSpec | app/api/achievements/route.ts:241-278 | A body row yields a record exactly when it has at least three `td` cells, a digit in the id cell and a non-blank name; the record holds that id, the trimmed name, the name link and the finished latest unlock variant |
| Rows.ExtractRow | app/api/achievements/route.ts:241-278 | One body row to a record or nothing; its contract is carried by `Rows.ExtractRowSpec` |
| Rows.RowRecords | app/api/achievements/route.ts:238-279 | A table yields at most one record per body row |
| Rows.RowRecordsMembers | app/api/achievements/route.ts:238-279 | The records of a run of rows are exactly what its rows yield |
| Rows.TableRecordsMembers | app/api/achievements/route.ts:234-279 | A table contributes exactly the records of its rows after the first, and only when its header row names all three roles |
| Rows.TableRecords | app/api/achievements/route.ts:234-279 | One table's records; its contract is carried by `Rows.TableRecordsMembers` and `Rows.UnrecognisedTableIgnored` |
| Rows.DocumentRecordsMembers | app/api/achievements/route.ts:234-280 | The page contributes exactly the records of its tables |
| Rows.DocumentRecords | app/api/achievements/route.ts:234-280 | The records of all tables in document order; its contract is carried by `Rows.DocumentRecordsMembers` |
| Rows.SkippedRowIsInvisible | app/api/achievements/route.ts:243-252 | Removing a skipped row from anywhere in a table leaves its records as they were |
| Rows.UnrecognisedTableIgnored | app/api/achievements/route.ts:235-236 | A table without all three roles contributes nothing |
| Arrays.SortBy | app/api/achievements/route.ts:282-284 | The sort returns a permutation of its input in non-decreasing key order |
| Arrays.SortStable | app/api/achievements/route.ts:282-284 | The sort is stable: elements with equal keys keep their order |
| Arrays.DistinctKeysSortStrictly | app/api/achievements/route.ts:282-284 | With distinct keys the sorted keys strictly increase |
| Arrays.SortSortedIsIdentity | app/page.tsx:160 | Sorting an already sorted sequence changes nothing |
| Arrays.FilterKeepsSorted | app/page.tsx:144-155 | Filtering keeps the relative order of what it keeps |
| Extraction.Dedup | app/api/achievements/route.ts:276-278 | The map holds distinct ids, the same ids as the rows, and for each id the first row with it |
| Extraction.Collect | app/api/achievements/route.ts:282-284 | The list is strictly increasing by id, has one record per id found, and each record is the first row with its id |
| Extraction.Achievements | app/api/achievements/route.ts:231-284 | The list the page yields is strictly increasing by id; which records it holds is stated by `Extraction.ReturnedAreFirstRows` |
| Extraction.Extract | app/api/achievements/route.ts:217-302 | A payload error is passed on; a page with fewer than 500 achievements gives "too few" (the count it carries is the model's own addition: the response only has a fixed message); a success has a count equal to the list length, at least 500, the source page, ids in increasing order and the achievements of the page |
| Extraction.ExtractSucceedsIff | app/api/achievements/route.ts:286-295 | The endpoint succeeds exactly when HTML was found and the page yields at least 500 distinct ids |
| Extraction.ReturnedAreFirstRows | app/api/achievements/route.ts:276-284 | Every achievement of a page is the first row with its id in document order, and every id any row yields is there |
| Extraction.LaterDuplicateIgnored | app/api/achievements/route.ts:276-278 | A later row repeating an id never replaces the first |
| ClientList.NextSortMode | app/page.tsx:165-169 | A press always changes the sort mode |
| ClientList.SortModeCycle | app/page.tsx:165-169 | Three presses pass through all three modes and return to the start |
| ClientList.ToggleCompleted | app/page.tsx:172-179 | The toggled id flips between done and not done, no other entry changes, and a record of `true` entries stays so |
| ClientList.ToggleTwice | app/page.tsx:172-179 | Toggling twice restores what is done, and restores the record itself when it holds only `true` entries |
| ClientList.MarkFiltered | app/page.tsx:181-190 | Every shown row becomes done (or loses its entry), and the entries of ids not shown are untouched |
| ClientList.CompletedCount | app/page.tsx:123-130 | The counter is the number of rows whose id is done, and with the rows not done it adds up to all rows |
| ClientList.Selected | app/page.tsx:133-155 | The selection is in load order and holds exactly the rows that pass the search and the status filter |
| ClientList.WithOrder | app/page.tsx:134-137 | Each row is paired with its position in the loaded list, one pair per row |
| ClientList.Visible | app/page.tsx:133-163 | The `filtered` memo; its contract is carried by `ClientList.ShownRows` and `ClientList.InitialOrderIsLoadOrder` |
| ClientList.SortByMode | app/page.tsx:157-160 | Each sort mode returns a permutation of the selection |
| ClientList.InitialOrderIsLoadOrder | app/page.tsx:133-163 | Without the id sort, the list is the loaded list with failing rows removed, in load order |
| ClientList.ShownRows | app/page.tsx:133-163 | Whatever the sort, the shown rows are exactly the rows passing both filters |
| ClientList.AscendingById | app/page.tsx:158 | The ascending sort shows ids in non-decreasing order |
| ClientList.DescendingById | app/page.tsx:159 | The descending sort shows ids in non-increasing order |
| ClientList.NothingSelectedShowsAll | app/page.tsx:139-163 | A blank search with no filter and no sort shows every row in load order |
| ClientList.CountMatchesCompletedFilter | app/page.tsx:123-155 | The counter equals the length of the "completed" list for an empty search |
| ClientList.MarkShownDone | app/page.tsx:181-190 | Marking the shown rows done makes each of them done and undoes nothing |

## Left out

- Network and response plumbing is not modelled. This covers `fetch`, the request headers, the upstream status check (502), the status codes and messages of the error responses, the `Cache-Control` header, `lastFetched` and the `catch` branch. The model returns `Result` values instead.
- Cheerio's parser and serialiser are parameters (`HtmlModel.tables`, `FragmentReader`, `Rendering.finish`). In particular, `find("tr")` also finds the rows of tables nested in a table, which the model takes as already flattened.
- sanitize-html is a parameter (`Rendering.finish`). Of its configuration only the attribute allow-list for `a` and the `transformTags` hook are modelled (`Anchors`); the tag allow-list, `span` classes and the other tags' schemes are not.
- Anchors.KeepAllowed: applies only the configured allow-list. sanitize-html's own attribute rules are not modelled: it drops non-boolean attributes with an empty value (so `title=""` would not survive, unlike what `Anchors.HookThenAllowList` and `Anchors.AnchorAfterSanitizer` state), validates attribute names and re-encodes entities. Those rules depend on the library version, which the repository's sources do not fix.
- Rows.ParseId: does not model `parseInt` losing precision above 2^53 or overflowing to Infinity; ids are exact natural numbers, because every id on the page has a few digits.
- JsText.Decimal: writes every id in plain digits, where `toString` (app/page.tsx:146) switches to exponent form from 1e21 on; ids on the page are far below that, as for `Rows.ParseId`.
- JsText.Lower: lower-cases ASCII letters only; other letters are kept, because the keywords and headers the code tests are ASCII. The search (app/page.tsx:139 and 145) also lower-cases the user's query and the achievement names, so a non-ASCII query matches differently: the query "é" finds the name "Éden" in the program but not in the model.
- Payload.HtmlPayload: a truthy non-string payload ends in `UnexpectedPayload`; what Cheerio would do with such a value is not modelled.
- Extraction.Extract: the envelope leaves out `lastFetched`, which is the clock.
- The page's loading effect and the local storage of the completion record are not modelled. `deferredSearch` becomes a plain search parameter.
- The scroll listener, `flushSync`, `clearAll` with its `confirm` dialog, and the rendering components are user-interface code with no list logic.
