/** The whole endpoint once the wiki has answered: the HTML is taken from the JSON
    response, every table is read, the first record for each id is kept (the
    `Map<number, Achievement>` of the source, which ignores later rows with an id it
    has already seen), the records are sorted by id, and fewer than 500 is an error. */
module Extraction {
  import opened Maybe
  import opened Links
  import opened Arrays
  import opened Rows
  import opened Payload

  /** A page that yields fewer achievements than this is taken as a layout change. */
  const MinAchievements: nat := 500

  /** The parser's view of the page: its tables in document order, and what happens
      to each unlock fragment. */
  datatype HtmlModel = HtmlModel(tables: string -> seq<Table>, render: Rendering)

  /** The successful response body (the model leaves out `lastFetched`). */
  datatype Envelope = Envelope(achievements: seq<Achievement>, count: nat, source: string)

  function IdKey(a: Achievement): int {
    a.id
  }

  /** The ids that occur in `xs`. */
  function IdsOf(xs: seq<Achievement>): set<nat> {
    set i | 0 <= i < |xs| :: xs[i].id
  }

  predicate UniqueIds(xs: seq<Achievement>) {
    forall i, j :: 0 <= i < j < |xs| ==> xs[i].id != xs[j].id
  }

  /** The first record in `xs` with id `id`: the one the map keeps. */
  function FirstWithId(xs: seq<Achievement>, id: nat): (r: Option<Achievement>)
    ensures r.Some? ==> r.value in xs && r.value.id == id
  {
    if xs == [] then None
    else if xs[0].id == id then Some(xs[0])
    else FirstWithId(xs[1..], id)
  }

  lemma {:induction false} FirstWithIdPresent(xs: seq<Achievement>, id: nat)
    ensures FirstWithId(xs, id).Some? <==> id in IdsOf(xs)
  {
    if xs != [] {
      FirstWithIdPresent(xs[1..], id);
      assert IdsOf(xs) == {xs[0].id} + IdsOf(xs[1..]) by {
        assert forall i :: 1 <= i < |xs| ==> xs[i] == xs[1..][i - 1];
        assert forall i :: 0 <= i < |xs[1..]| ==> xs[1..][i] == xs[i + 1];
      }
    }
  }

  /** Appending a record changes the first record of its id only when the id is new. */
  lemma {:induction false} FirstWithIdSnoc(xs: seq<Achievement>, a: Achievement, id: nat)
    ensures FirstWithId(xs + [a], id) ==
      if FirstWithId(xs, id).Some? then FirstWithId(xs, id)
      else if a.id == id then Some(a)
      else None
  {
    if xs == [] {
      assert FirstWithId([a][1..], id) == None;
    } else {
      assert (xs + [a])[0] == xs[0];
      assert (xs + [a])[1..] == xs[1..] + [a];
      FirstWithIdSnoc(xs[1..], a, id);
    }
  }

  lemma IdsOfSnoc(xs: seq<Achievement>, a: Achievement)
    ensures IdsOf(xs + [a]) == IdsOf(xs) + {a.id}
  {
    var ys := xs + [a];
    assert forall i :: 0 <= i < |xs| ==> ys[i] == xs[i];
    assert ys[|xs|] == a;
  }

  /** The records the map holds, in insertion order: each record is added unless its
      id is already present. */
  function Dedup(xs: seq<Achievement>): (r: seq<Achievement>)
    ensures UniqueIds(r)
    ensures IdsOf(r) == IdsOf(xs)
    ensures forall i :: 0 <= i < |r| ==> FirstWithId(xs, r[i].id) == Some(r[i])
  {
    if xs == [] then []
    else
      var init := xs[..|xs| - 1];
      var last := xs[|xs| - 1];
      var kept := Dedup(init);
      assert xs == init + [last];
      IdsOfSnoc(init, last);
      DedupStep(init, last, kept);
      if last.id in IdsOf(kept) then kept else kept + [last]
  }

  lemma DedupStep(init: seq<Achievement>, last: Achievement, kept: seq<Achievement>)
    requires UniqueIds(kept) && IdsOf(kept) == IdsOf(init)
    requires forall i :: 0 <= i < |kept| ==> FirstWithId(init, kept[i].id) == Some(kept[i])
    ensures var r := if last.id in IdsOf(kept) then kept else kept + [last];
      && UniqueIds(r)
      && IdsOf(r) == IdsOf(init + [last])
      && forall i :: 0 <= i < |r| ==> FirstWithId(init + [last], r[i].id) == Some(r[i])
  {
    IdsOfSnoc(init, last);
    KeptStaysFirst(init, last, kept);
    if last.id !in IdsOf(kept) {
      IdsOfSnoc(kept, last);
      NewIdAppended(init, last, kept);
    }
  }

  /** Appending a record leaves every record already kept first with its id. */
  lemma KeptStaysFirst(init: seq<Achievement>, last: Achievement, kept: seq<Achievement>)
    requires forall i :: 0 <= i < |kept| ==> FirstWithId(init, kept[i].id) == Some(kept[i])
    ensures forall i :: 0 <= i < |kept| ==> FirstWithId(init + [last], kept[i].id) == Some(kept[i])
  {
    forall i | 0 <= i < |kept| ensures FirstWithId(init + [last], kept[i].id) == Some(kept[i]) {
      FirstWithIdSnoc(init, last, kept[i].id);
    }
  }

  /** A record with a new id becomes the first with that id, and the ids stay distinct. */
  lemma NewIdAppended(init: seq<Achievement>, last: Achievement, kept: seq<Achievement>)
    requires UniqueIds(kept) && IdsOf(kept) == IdsOf(init) && last.id !in IdsOf(kept)
    requires forall i :: 0 <= i < |kept| ==> FirstWithId(init + [last], kept[i].id) == Some(kept[i])
    ensures UniqueIds(kept + [last])
    ensures forall i :: 0 <= i < |kept + [last]| ==> FirstWithId(init + [last], (kept + [last])[i].id) == Some((kept + [last])[i])
  {
    var r := kept + [last];
    FirstWithIdPresent(init, last.id);
    FirstWithIdSnoc(init, last, last.id);
    assert forall i :: 0 <= i < |kept| ==> kept[i].id in IdsOf(kept);
    assert forall i :: 0 <= i < |kept| ==> r[i] == kept[i];
    assert r[|kept|] == last;
  }

  /** The map's contents sorted by id. */
  function Collect(records: seq<Achievement>): (r: seq<Achievement>)
    ensures StrictlySortedBy(r, IdKey)
    ensures IdsOf(r) == IdsOf(records)
    ensures |r| == |IdsOf(records)|
    ensures forall i :: 0 <= i < |r| ==> FirstWithId(records, r[i].id) == Some(r[i])
  {
    var kept := Dedup(records);
    var r := SortBy(kept, IdKey);
    DistinctKeysSortStrictly(kept, IdKey);
    CollectFacts(records, kept, r);
    r
  }

  lemma CollectFacts(records: seq<Achievement>, kept: seq<Achievement>, r: seq<Achievement>)
    requires UniqueIds(kept)
    requires forall i :: 0 <= i < |kept| ==> FirstWithId(records, kept[i].id) == Some(kept[i])
    requires multiset(r) == multiset(kept)
    ensures forall i :: 0 <= i < |r| ==> FirstWithId(records, r[i].id) == Some(r[i])
    ensures IdsOf(r) == IdsOf(kept)
    ensures |r| == |IdsOf(kept)|
  {
    forall i | 0 <= i < |r| ensures FirstWithId(records, r[i].id) == Some(r[i]) && r[i].id in IdsOf(kept) {
      assert r[i] in multiset(r);
      var j :| 0 <= j < |kept| && kept[j] == r[i];
    }
    forall i | 0 <= i < |kept| ensures kept[i].id in IdsOf(r) {
      assert kept[i] in multiset(kept);
      var j :| 0 <= j < |r| && r[j] == kept[i];
    }
    assert |r| == |multiset(r)| == |kept|;
    UniqueIdsCount(kept);
  }

  /** Distinct ids: as many ids as records. */
  lemma {:induction false} UniqueIdsCount(xs: seq<Achievement>)
    requires UniqueIds(xs)
    ensures |IdsOf(xs)| == |xs|
  {
    if xs != [] {
      var init := xs[..|xs| - 1];
      var last := xs[|xs| - 1];
      assert xs == init + [last];
      UniqueIdsCount(init);
      IdsOfSnoc(init, last);
      assert last.id !in IdsOf(init);
    }
  }

  /** The achievements the endpoint returns for a page. */
  function Achievements(html: string, model: HtmlModel): (r: seq<Achievement>)
    ensures StrictlySortedBy(r, IdKey)
  {
    Collect(DocumentRecords(model.tables(html), model.render))
  }

  /** `GET` from the parsed JSON response on: the envelope, or the failure. */
  function Extract(data: Json, model: HtmlModel): (r: Result<Envelope, ApiError>)
    ensures HtmlPayload(data).Err? ==> r == Err(HtmlPayload(data).error)
    ensures r.Ok? ==>
      && r.value.count == |r.value.achievements| >= MinAchievements
      && r.value.source == SourcePage
      && StrictlySortedBy(r.value.achievements, IdKey)
      && r.value.achievements == Achievements(HtmlPayload(data).value, model)
    ensures r.Err? && r.error.TooFewAchievements? ==> r.error.count < MinAchievements
    ensures HtmlPayload(data).Ok? && |Achievements(HtmlPayload(data).value, model)| < MinAchievements ==>
      r == Err(TooFewAchievements(|Achievements(HtmlPayload(data).value, model)|))
  {
    match HtmlPayload(data)
    case Err(e) => Err(e)
    case Ok(html) =>
      var list := Achievements(html, model);
      if |list| < MinAchievements then Err(TooFewAchievements(|list|))
      else Ok(Envelope(list, |list|, SourcePage))
  }

  // ---------------------------------------------------------------------------
  // properties of the endpoint

  /** The floor: a response is an envelope exactly when the HTML was found and the page
      holds at least 500 distinct achievement ids. */
  lemma ExtractSucceedsIff(data: Json, model: HtmlModel)
    ensures Extract(data, model).Ok? <==>
      && HtmlPayload(data).Ok?
      && |IdsOf(DocumentRecords(model.tables(HtmlPayload(data).value), model.render))| >= MinAchievements
  {
  }

  /** Every returned achievement is the first row with its id in document order, and
      every id any row yields is returned. */
  lemma ReturnedAreFirstRows(html: string, model: HtmlModel)
    ensures var records := DocumentRecords(model.tables(html), model.render);
      var list := Achievements(html, model);
      && IdsOf(list) == IdsOf(records)
      && forall i :: 0 <= i < |list| ==> FirstWithId(records, list[i].id) == Some(list[i])
  {
  }

  /** A later row repeating an id never replaces the first one. */
  lemma LaterDuplicateIgnored(records: seq<Achievement>, dup: Achievement)
    requires dup.id in IdsOf(records)
    ensures Collect(records + [dup]) == Collect(records)
  {
    var kept := Dedup(records);
    var xs := records + [dup];
    assert xs[..|xs| - 1] == records;
    assert dup.id in IdsOf(kept);
  }
}
