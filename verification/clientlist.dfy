/** The list logic of the tracker page: the completion record kept in the browser,
    the search / status / id-sort pipeline that decides which rows are shown and in
    which order, the bulk "mark shown rows" action and the completed counter. */
module ClientList {
  import opened JsText
  import opened Arrays
  import opened Rows

  datatype StatusFilter = All | Completed | Uncompleted
  datatype SortMode = Initial | Asc | Desc

  /** `Record<number, boolean>`: what the page remembers per id. Entries read back from
      storage may hold `false`; only a `true` entry marks an achievement as done. */
  type Completion = map<int, bool>

  predicate IsDone(c: Completion, id: int) {
    id in c && c[id]
  }

  /** Every entry is `true`, as the page's own updates leave it. */
  predicate AllTrue(c: Completion) {
    forall k :: k in c ==> c[k]
  }

  // ---------------------------------------------------------------------------
  // id sort button

  /** `toggleIdSort`: initial, then ascending, then descending, then initial again. */
  function NextSortMode(m: SortMode): (r: SortMode)
    ensures r != m
  {
    match m
    case Initial => Asc
    case Asc => Desc
    case Desc => Initial
  }

  /** Three presses bring the sort back, passing through every mode on the way. */
  lemma SortModeCycle(m: SortMode)
    ensures NextSortMode(NextSortMode(NextSortMode(m))) == m
    ensures {m, NextSortMode(m), NextSortMode(NextSortMode(m))} == {Initial, Asc, Desc}
  {
  }

  // ---------------------------------------------------------------------------
  // completion updates

  /** `toggleCompleted`: a done id loses its entry, any other id gets a `true` entry. */
  function ToggleCompleted(c: Completion, id: int): (r: Completion)
    ensures IsDone(r, id) <==> !IsDone(c, id)
    ensures forall k :: k != id ==> (k in r <==> k in c) && (k in r ==> r[k] == c[k])
    ensures AllTrue(c) ==> AllTrue(r)
  {
    if IsDone(c, id) then c - {id} else c[id := true]
  }

  /** Toggling twice restores whether every id is done, and restores the record itself
      when it holds only `true` entries. */
  lemma ToggleTwice(c: Completion, id: int)
    ensures forall k :: IsDone(ToggleCompleted(ToggleCompleted(c, id), id), k) <==> IsDone(c, k)
    ensures AllTrue(c) ==> ToggleCompleted(ToggleCompleted(c, id), id) == c
  {
    var r := ToggleCompleted(ToggleCompleted(c, id), id);
    if AllTrue(c) {
      assert r.Keys == c.Keys;
    }
  }

  /** The ids of the given rows. */
  function IdsIn(rows: seq<Achievement>): set<int> {
    set i | 0 <= i < |rows| :: rows[i].id as int
  }

  /** `markFiltered(value)`: every shown row becomes done (`value`) or loses its entry
      (`!value`); the entries of every other id are left as they were. */
  method MarkFiltered(c: Completion, shown: seq<Achievement>, value: bool) returns (next: Completion)
    ensures forall i :: 0 <= i < |shown| ==> if value then IsDone(next, shown[i].id) else shown[i].id !in next
    ensures forall k :: k !in IdsIn(shown) ==> (k in next <==> k in c) && (k in next ==> next[k] == c[k])
  {
    next := c;
    var i := 0;
    while i < |shown|
      invariant 0 <= i <= |shown|
      invariant forall j :: 0 <= j < i ==> if value then IsDone(next, shown[j].id) else shown[j].id !in next
      invariant forall k :: k !in IdsIn(shown[..i]) ==> (k in next <==> k in c) && (k in next ==> next[k] == c[k])
    {
      var id: int := shown[i].id;
      if value {
        next := next[id := true];
      } else {
        next := next - {id};
      }
      assert IdsIn(shown[..i + 1]) == IdsIn(shown[..i]) + {id} by {
        assert forall j :: 0 <= j < i ==> shown[..i + 1][j] == shown[..i][j];
      }
      i := i + 1;
    }
    assert shown[..i] == shown;
  }

  // ---------------------------------------------------------------------------
  // counter

  /** Whether a row counts as completed. */
  function DonePred(c: Completion): Achievement -> bool {
    (a: Achievement) => IsDone(c, a.id)
  }

  function NotDonePred(c: Completion): Achievement -> bool {
    (a: Achievement) => !IsDone(c, a.id)
  }

  /** `completedCount`: the rows whose id is done; a row appearing twice counts twice. */
  function CompletedCount(rows: seq<Achievement>, c: Completion): (n: nat)
    ensures n == |Filter(rows, DonePred(c))|
    ensures n + |Filter(rows, NotDonePred(c))| == |rows|
  {
    if rows == [] then 0 else (if IsDone(c, rows[0].id) then 1 else 0) + CompletedCount(rows[1..], c)
  }

  // ---------------------------------------------------------------------------
  // search, status filter and sort

  /** A row with its position in the loaded list (`__order`). */
  datatype Ordered = Ordered(item: Achievement, order: nat)

  /** `achievements.map((a, i) => ({ ...a, __order: i }))`. */
  function WithOrder(rows: seq<Achievement>): (r: seq<Ordered>)
    ensures |r| == |rows|
    ensures forall i :: 0 <= i < |r| ==> r[i] == Ordered(rows[i], i)
  {
    seq(|rows|, i requires 0 <= i < |rows| => Ordered(rows[i], i))
  }

  function ItemOf(o: Ordered): Achievement {
    o.item
  }

  /** Drops the positions again (the final `as Achievement[]`). */
  function Items(os: seq<Ordered>): seq<Achievement> {
    MapSeq(os, ItemOf)
  }

  /** `search.trim().toLowerCase()`. */
  function Query(search: string): string {
    Lower(Trim(search))
  }

  /** `/^\d+$/.test(q)`. */
  predicate DigitsOnly(q: string) {
    q != [] && AllDigits(q)
  }

  /** The search test: an empty query keeps everything; otherwise the lower-cased name
      contains the query, or the query is all digits and starts the id's decimal form. */
  predicate MatchesQuery(a: Achievement, q: string) {
    q == [] || Contains(Lower(a.name), q) || (DigitsOnly(q) && StartsWith(Decimal(a.id), q))
  }

  predicate PassesStatus(a: Achievement, c: Completion, status: StatusFilter) {
    match status
    case All => true
    case Completed => IsDone(c, a.id)
    case Uncompleted => !IsDone(c, a.id)
  }

  function QueryPred(q: string): Achievement -> bool {
    (a: Achievement) => MatchesQuery(a, q)
  }

  function StatusPred(c: Completion, status: StatusFilter): Achievement -> bool {
    (a: Achievement) => PassesStatus(a, c, status)
  }

  /** What a row must satisfy to be shown. */
  function ShownPred(q: string, c: Completion, status: StatusFilter): Achievement -> bool {
    (a: Achievement) => MatchesQuery(a, q) && PassesStatus(a, c, status)
  }

  function ById(o: Ordered): int {
    o.item.id
  }

  function ByIdDescending(o: Ordered): int {
    -(o.item.id as int)
  }

  function ByOrder(o: Ordered): int {
    o.order
  }

  /** The rows that pass the search (when there is one) and then the status filter
      (unless it is "all"), still positioned and in load order. */
  function Selected(rows: seq<Achievement>, c: Completion, q: string, status: StatusFilter): (r: seq<Ordered>)
    ensures SortedBy(r, ByOrder)
    ensures Items(r) == Filter(rows, ShownPred(q, c, status))
  {
    var list := WithOrder(rows);
    var byQuery := if q != [] then Filter(list, Pull(QueryPred(q), ItemOf)) else list;
    var r := if status == All then byQuery else Filter(byQuery, Pull(StatusPred(c, status), ItemOf));
    FilterKeepsSorted(list, Pull(QueryPred(q), ItemOf), ByOrder);
    FilterKeepsSorted(byQuery, Pull(StatusPred(c, status), ItemOf), ByOrder);
    SelectedItems(rows, c, q, status, list, byQuery, r);
    r
  }

  lemma SelectedItems(rows: seq<Achievement>, c: Completion, q: string, status: StatusFilter,
                      list: seq<Ordered>, byQuery: seq<Ordered>, r: seq<Ordered>)
    requires list == WithOrder(rows)
    requires byQuery == if q != [] then Filter(list, Pull(QueryPred(q), ItemOf)) else list
    requires r == if status == All then byQuery else Filter(byQuery, Pull(StatusPred(c, status), ItemOf))
    ensures Items(r) == Filter(rows, ShownPred(q, c, status))
  {
    assert Items(list) == rows;
    MapFilter(list, ItemOf, QueryPred(q));
    if q == [] {
      FilterAll(rows, QueryPred(q));
    }
    var afterQuery := Filter(rows, QueryPred(q));
    assert Items(byQuery) == afterQuery;
    MapFilter(byQuery, ItemOf, StatusPred(c, status));
    if status == All {
      FilterAll(afterQuery, StatusPred(c, status));
    }
    assert Items(r) == Filter(afterQuery, StatusPred(c, status));
    FilterTwice(rows, QueryPred(q), StatusPred(c, status), ShownPred(q, c, status));
  }

  /** The id sort of the memo: ascending, descending, or back to load order. */
  function SortByMode(list: seq<Ordered>, mode: SortMode): (r: seq<Ordered>)
    ensures multiset(r) == multiset(list)
  {
    match mode
    case Asc => SortBy(list, ById)
    case Desc => SortBy(list, ByIdDescending)
    case Initial => SortBy(list, ByOrder)
  }

  /** The `filtered` memo: the rows shown, in the order shown. */
  function Visible(rows: seq<Achievement>, c: Completion, search: string, status: StatusFilter, mode: SortMode): seq<Achievement> {
    Items(SortByMode(Selected(rows, c, Query(search), status), mode))
  }

  // ---------------------------------------------------------------------------
  // properties of the list

  /** Without the id sort the rows keep the order they were loaded in: the list is the
      loaded list with the rows that fail the search or the status filter removed. */
  lemma InitialOrderIsLoadOrder(rows: seq<Achievement>, c: Completion, search: string, status: StatusFilter)
    ensures Visible(rows, c, search, status, Initial) == Filter(rows, ShownPred(Query(search), c, status))
  {
    var r := Selected(rows, c, Query(search), status);
    SortSortedIsIdentity(r, ByOrder);
  }

  /** The rows shown are exactly the loaded rows that pass the search and the status
      filter, whatever the sort. */
  lemma ShownRows(rows: seq<Achievement>, c: Completion, search: string, status: StatusFilter, mode: SortMode)
    ensures multiset(Visible(rows, c, search, status, mode)) == multiset(Filter(rows, ShownPred(Query(search), c, status)))
  {
    var r := Selected(rows, c, Query(search), status);
    MapMultiset(SortByMode(r, mode), r, ItemOf);
  }

  /** The ascending sort shows ids in non-decreasing order. */
  lemma AscendingById(rows: seq<Achievement>, c: Completion, search: string, status: StatusFilter)
    ensures var v := Visible(rows, c, search, status, Asc);
      forall i, j :: 0 <= i < j < |v| ==> v[i].id <= v[j].id
  {
    ItemsById(SortByMode(Selected(rows, c, Query(search), status), Asc));
  }

  /** The descending sort shows ids in non-increasing order. */
  lemma DescendingById(rows: seq<Achievement>, c: Completion, search: string, status: StatusFilter)
    ensures var v := Visible(rows, c, search, status, Desc);
      forall i, j :: 0 <= i < j < |v| ==> v[i].id >= v[j].id
  {
    ItemsByIdDescending(SortByMode(Selected(rows, c, Query(search), status), Desc));
  }

  lemma ItemsById(s: seq<Ordered>)
    requires SortedBy(s, ById)
    ensures var v := Items(s); forall i, j :: 0 <= i < j < |v| ==> v[i].id <= v[j].id
  {
    forall i, j | 0 <= i < j < |s| ensures s[i].item.id <= s[j].item.id {
      assert ById(s[i]) <= ById(s[j]);
    }
  }

  lemma ItemsByIdDescending(s: seq<Ordered>)
    requires SortedBy(s, ByIdDescending)
    ensures var v := Items(s); forall i, j :: 0 <= i < j < |v| ==> v[i].id >= v[j].id
  {
    forall i, j | 0 <= i < j < |s| ensures s[i].item.id >= s[j].item.id {
      assert ByIdDescending(s[i]) <= ByIdDescending(s[j]);
    }
  }

  /** With an empty search, no status filter and no id sort, every loaded row is shown
      in load order. */
  lemma NothingSelectedShowsAll(rows: seq<Achievement>, c: Completion, search: string)
    requires AllSpace(search)
    ensures Visible(rows, c, search, All, Initial) == rows
  {
    InitialOrderIsLoadOrder(rows, c, search, All);
    FilterAll(rows, ShownPred(Query(search), c, All));
  }

  /** The counter equals the number of rows the "completed" filter shows for an empty
      search. */
  lemma CountMatchesCompletedFilter(rows: seq<Achievement>, c: Completion)
    ensures CompletedCount(rows, c) == |Visible(rows, c, "", Completed, Initial)|
  {
    InitialOrderIsLoadOrder(rows, c, "", Completed);
    SameFilter(rows, ShownPred(Query(""), c, Completed), DonePred(c));
  }

  /** After marking the shown rows as done, each of them counts as completed, and no
      row that was done before stops being done. */
  method MarkShownDone(rows: seq<Achievement>, c: Completion, search: string, status: StatusFilter, mode: SortMode)
    returns (next: Completion)
    ensures forall a :: a in Visible(rows, c, search, status, mode) ==> IsDone(next, a.id)
    ensures forall k :: IsDone(c, k) ==> IsDone(next, k)
  {
    var shown := Visible(rows, c, search, status, mode);
    next := MarkFiltered(c, shown, true);
    forall k | IsDone(c, k) ensures IsDone(next, k) {
      if k in IdsIn(shown) {
        var i :| 0 <= i < |shown| && shown[i].id as int == k;
      }
    }
  }
}
