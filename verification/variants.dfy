/** Choosing the line of an unlock cell that describes the current game version
    (`pickLatestVersionSnippet`). */
module Variants {
  import opened JsText

  /** One candidate line: its markup and its text (used only for keyword tests). */
  datatype Part = Part(html: string, text: string)

  /** What the HTML parser reports about an unlock fragment, standing in for Cheerio:
      the list items it finds in the fragment (markup and text of each, in document
      order), and the text content of a piece of markup. */
  datatype FragmentReader = FragmentReader(listItems: string -> seq<Part>, textOf: string -> string)

  // ---------------------------------------------------------------------------
  // Splitting on line breaks: `html.split(/<br\s*\/?>/gi)`

  /** The first index at or after `j` that does not hold white space. */
  function SpacesEnd(s: string, j: nat): (k: nat)
    requires j <= |s|
    ensures j <= k <= |s|
    ensures k == |s| || !IsSpace(s[k])
    ensures forall m :: j <= m < k ==> IsSpace(s[m])
    decreases |s| - j
  {
    if j < |s| && IsSpace(s[j]) then SpacesEnd(s, j + 1) else j
  }

  /** The length of a line-break tag `<br>`, `<br/>`, `<BR  />`, ... starting at `i`,
      or 0 when none starts there. */
  function BreakAt(s: string, i: nat): (n: nat)
    ensures n != 0 ==> 4 <= n && i + n <= |s|
  {
    if i + 3 <= |s| && s[i] == '<' && LowerChar(s[i + 1]) == 'b' && LowerChar(s[i + 2]) == 'r' then
      var k := SpacesEnd(s, i + 3);
      if k < |s| && s[k] == '>' then k + 1 - i
      else if k + 1 < |s| && s[k] == '/' && s[k + 1] == '>' then k + 2 - i
      else 0
    else 0
  }

  /** No line-break tag starts anywhere in `s`. */
  predicate NoBreak(s: string) {
    forall q :: 0 <= q < |s| ==> BreakAt(s, q) == 0
  }

  /** The first line-break tag at or after `i`. */
  function FirstBreak(s: string, i: nat): (p: nat)
    requires i <= |s|
    ensures i <= p <= |s|
    ensures p < |s| ==> BreakAt(s, p) != 0
    ensures forall q :: i <= q < p ==> BreakAt(s, q) == 0
    decreases |s| - i
  {
    if i == |s| || BreakAt(s, i) != 0 then i else FirstBreak(s, i + 1)
  }

  /** The outcome of a split: the pieces between the line-break tags, and the tags
      themselves, both in order. */
  datatype Split = Split(pieces: seq<string>, tags: seq<string>)

  /** `t` is exactly one line-break tag. */
  predicate IsBreakTag(t: string) {
    BreakAt(t, 0) == |t|
  }

  /** The split of `s[start..]`. Nothing is lost: the pieces with the tags put back
      between them are the text again. */
  function SplitFrom(s: string, start: nat): (r: Split)
    requires start <= |s|
    ensures |r.pieces| == |r.tags| + 1
    ensures forall k :: 0 <= k < |r.pieces| ==> NoBreak(r.pieces[k])
    ensures forall k :: 0 <= k < |r.tags| ==> IsBreakTag(r.tags[k])
    ensures NoBreak(s[start..]) ==> r.pieces == [s[start..]]
    ensures Interleave(r.pieces, r.tags) == s[start..]
    decreases |s| - start
  {
    var p := FirstBreak(s, start);
    if p == |s| then
      LastPiece(s, start);
      Split([s[start..]], [])
    else
      var n := BreakAt(s, p);
      var rest := SplitFrom(s, p + n);
      SplitStep(s, start, p, n, rest);
      Split([s[start..p]] + rest.pieces, [s[p..p + n]] + rest.tags)
  }

  /** No tag is left: the rest of the text is the last piece. */
  lemma LastPiece(s: string, start: nat)
    requires start <= |s|
    requires forall q :: start <= q < |s| ==> BreakAt(s, q) == 0
    ensures NoBreak(s[start..])
    ensures Interleave([s[start..]], []) == s[start..]
  {
    BreakFreePrefix(s, start, |s|);
    assert s[start..|s|] == s[start..];
    InterleaveOne(s[start..]);
  }

  /** One tag at `p`: the piece before it, the tag, and the split of the rest make up
      the split of `s[start..]`. */
  lemma SplitStep(s: string, start: nat, p: nat, n: nat, rest: Split)
    requires start <= p < |s| && n == BreakAt(s, p) && n != 0
    requires forall q :: start <= q < p ==> BreakAt(s, q) == 0
    requires |rest.pieces| == |rest.tags| + 1
    requires forall k :: 0 <= k < |rest.pieces| ==> NoBreak(rest.pieces[k])
    requires forall k :: 0 <= k < |rest.tags| ==> IsBreakTag(rest.tags[k])
    requires Interleave(rest.pieces, rest.tags) == s[p + n..]
    ensures var pieces := [s[start..p]] + rest.pieces; var tags := [s[p..p + n]] + rest.tags;
      && |pieces| == |rest.tags| + 2
      && (forall k :: 0 <= k < |pieces| ==> NoBreak(pieces[k]))
      && (forall k :: 0 <= k < |tags| ==> IsBreakTag(tags[k]))
      && !NoBreak(s[start..])
      && Interleave(pieces, [s[p..p + n]] + rest.tags) == s[start..]
  {
    BreakFreePrefix(s, start, p);
    BreakInSlice(s, start, p);
    JoinStep(s, start, p, p + n, rest.pieces, rest.tags);
    WholeTag(s, p);
    var pieces := [s[start..p]] + rest.pieces;
    var tags := [s[p..p + n]] + rest.tags;
    forall k | 0 <= k < |tags| ensures IsBreakTag(tags[k]) {
      if k > 0 {
        assert tags[k] == rest.tags[k - 1];
      }
    }
    forall k | 0 <= k < |pieces| ensures NoBreak(pieces[k]) {
      if k > 0 {
        assert pieces[k] == rest.pieces[k - 1];
      }
    }
  }

  /** `html.split(/<br\s*\/?>/gi)`. */
  function SplitOnBreaks(s: string): (pieces: seq<string>)
    ensures |pieces| >= 1
    ensures forall k :: 0 <= k < |pieces| ==> NoBreak(pieces[k])
    ensures NoBreak(s) ==> pieces == [s]
  {
    assert s[0..] == s;
    SplitFrom(s, 0).pieces
  }

  /** The tags `SplitOnBreaks` removes, in order. */
  function BreakTags(s: string): seq<string> {
    SplitFrom(s, 0).tags
  }

  /** The tag found at `p` read on its own is still one whole tag. */
  lemma WholeTag(s: string, p: nat)
    requires BreakAt(s, p) != 0
    ensures IsBreakTag(s[p..p + BreakAt(s, p)])
  {
    var n := BreakAt(s, p);
    var u := s[p..];
    BreakInSlice(s, p, p);
    assert u[..n] == s[p..p + n];
    TagInPrefix(u, n);
  }

  /** A tag at the start of `u` that ends within `len` is read the same in `u[..len]`. */
  lemma TagInPrefix(u: string, len: nat)
    requires BreakAt(u, 0) != 0 && BreakAt(u, 0) <= len <= |u|
    ensures BreakAt(u[..len], 0) == BreakAt(u, 0)
  {
    var t := u[..len];
    assert t[0] == u[0] && t[1] == u[1] && t[2] == u[2];
    SpacesEndInPrefixBack(u, len, 3);
  }

  lemma {:induction false} SpacesEndInPrefixBack(u: string, len: nat, j: nat)
    requires j <= len <= |u|
    requires SpacesEnd(u, j) < len
    ensures SpacesEnd(u[..len], j) == SpacesEnd(u, j)
    decreases len - j
  {
    assert u[..len][j] == u[j];
    if IsSpace(u[j]) {
      SpacesEndInPrefixBack(u, len, j + 1);
    }
  }

  /** The pieces put back together, with the consumed tags between them. */
  function Interleave(pieces: seq<string>, tags: seq<string>): string
    decreases |pieces|
  {
    if pieces == [] then []
    else if tags == [] then pieces[0]
    else pieces[0] + tags[0] + Interleave(pieces[1..], tags[1..])
  }

  /** Putting one piece and one tag back in front of a rejoined rest. */
  lemma JoinStep(s: string, start: nat, p: nat, q: nat, rest: seq<string>, restTags: seq<string>)
    requires start <= p <= q <= |s|
    requires Interleave(rest, restTags) == s[q..] && |rest| == |restTags| + 1
    ensures Interleave([s[start..p]] + rest, [s[p..q]] + restTags) == s[start..]
  {
    InterleaveCons(s[start..p], s[p..q], rest, restTags);
    SliceThree(s, start, p, q);
  }

  lemma InterleaveOne(piece: string)
    ensures Interleave([piece], []) == piece
  {
  }

  lemma SliceThree(s: string, i: nat, j: nat, k: nat)
    requires i <= j <= k <= |s|
    ensures s[i..] == s[i..j] + s[j..k] + s[k..]
  {
  }

  lemma InterleaveCons(piece: string, tag: string, pieces: seq<string>, tags: seq<string>)
    ensures Interleave([piece] + pieces, [tag] + tags) == piece + tag + Interleave(pieces, tags)
  {
    assert ([piece] + pieces)[1..] == pieces && ([tag] + tags)[1..] == tags;
  }

  /** The split loses nothing: re-inserting the removed tags between the pieces gives
      back the text, and every re-inserted tag is one whole `<br>` tag. */
  lemma SplitOnBreaksRoundTrip(s: string)
    ensures |SplitOnBreaks(s)| == |BreakTags(s)| + 1
    ensures Interleave(SplitOnBreaks(s), BreakTags(s)) == s
    ensures forall k :: 0 <= k < |BreakTags(s)| ==> IsBreakTag(BreakTags(s)[k])
  {
    assert s[0..] == s;
  }

  /** A tag needs a `<`: no tag starts where the text has another character. */
  lemma NoTagWithoutLt(s: string, q: nat)
    requires q < |s| && s[q] != '<'
    ensures BreakAt(s, q) == 0
  {
  }

  /** Two lines around one plain `<br>` split into exactly those two lines. */
  lemma SplitAroundOneBreak(a: string, b: string)
    requires forall q :: 0 <= q < |a| ==> a[q] != '<'
    requires forall q :: 0 <= q < |b| ==> b[q] != '<'
    ensures SplitOnBreaks(a + "<br>" + b) == [a, b]
  {
    var s := a + "<br>" + b;
    var m := |a|;
    forall q | 0 <= q < m ensures BreakAt(s, q) == 0 {
      assert s[q] == a[q];
      NoTagWithoutLt(s, q);
    }
    assert s[m] == '<' && s[m + 1] == 'b' && s[m + 2] == 'r' && s[m + 3] == '>';
    assert SpacesEnd(s, m + 3) == m + 3;
    assert BreakAt(s, m) == 4;
    var p := FirstBreak(s, 0);
    assert p == m;
    assert s[m + 4..] == b && s[0..m] == a;
    forall q | 0 <= q < |b| ensures BreakAt(b, q) == 0 {
      NoTagWithoutLt(b, q);
    }
    assert SplitFrom(s, m + 4).pieces == [b];
  }

  /** A line-break tag inside a slice is a line-break tag of the whole string. */
  lemma BreakInSlice(s: string, a: nat, q: nat)
    requires a <= q <= |s|
    ensures BreakAt(s[a..], q - a) == BreakAt(s, q)
  {
    var t := s[a..];
    var i := q - a;
    if i + 3 <= |t| {
      assert t[i] == s[q] && t[i + 1] == s[q + 1] && t[i + 2] == s[q + 2];
      SpacesEndInSlice(s, a, q + 3);
    }
  }

  lemma {:induction false} SpacesEndInSlice(s: string, a: nat, j: nat)
    requires a <= j <= |s|
    ensures SpacesEnd(s[a..], j - a) == SpacesEnd(s, j) - a
    decreases |s| - j
  {
    if j < |s| && IsSpace(s[j]) {
      assert s[a..][j - a] == s[j];
      SpacesEndInSlice(s, a, j + 1);
    }
  }

  /** The piece before the first break has no break of its own: a tag starting in it
      would also start in `s` before the first break. */
  lemma BreakFreePrefix(s: string, start: nat, p: nat)
    requires start <= p <= |s|
    requires forall q :: start <= q < p ==> BreakAt(s, q) == 0
    requires p < |s| ==> BreakAt(s, p) != 0
    ensures NoBreak(s[start..p])
  {
    var t := s[start..p];
    forall q | 0 <= q < |t| ensures BreakAt(t, q) == 0 {
      var n := BreakAt(t, q);
      if n != 0 {
        PrefixBreak(s, start, p, q);
        assert false;
      }
    }
  }

  /** A tag found in `s[start..p]` at `q` is found in `s` at `start + q`. */
  lemma PrefixBreak(s: string, start: nat, p: nat, q: nat)
    requires start <= p <= |s| && q < p - start
    requires BreakAt(s[start..p], q) != 0
    ensures BreakAt(s, start + q) != 0
  {
    var t := s[start..p];
    BreakInSlice(s, start, start + q);
    var u := s[start..];
    assert t == u[..p - start];
    BreakInPrefix(u, p - start, q);
  }

  /** A tag that fits inside a prefix is read the same in the whole string. */
  lemma BreakInPrefix(u: string, len: nat, q: nat)
    requires len <= |u| && q < len
    requires BreakAt(u[..len], q) != 0
    ensures BreakAt(u, q) == BreakAt(u[..len], q)
  {
    var t := u[..len];
    assert t[q] == u[q] && t[q + 1] == u[q + 1] && t[q + 2] == u[q + 2];
    SpacesEndInPrefix(u, len, q + 3);
  }

  lemma {:induction false} SpacesEndInPrefix(u: string, len: nat, j: nat)
    requires j <= len <= |u|
    ensures SpacesEnd(u[..len], j) < len ==> SpacesEnd(u, j) == SpacesEnd(u[..len], j)
    decreases len - j
  {
    if j < len && IsSpace(u[j]) {
      assert u[..len][j] == u[j];
      SpacesEndInPrefix(u, len, j + 1);
    }
  }

  // ---------------------------------------------------------------------------
  // Candidate lines

  /** `.map((s) => s.trim()).filter(Boolean)`. */
  function TrimmedLines(pieces: seq<string>): (lines: seq<string>)
    ensures forall k :: 0 <= k < |lines| ==> lines[k] != [] && IsTrimmed(lines[k])
    ensures |lines| <= |pieces|
  {
    if pieces == [] then []
    else
      var t := Trim(pieces[0]);
      (if t == [] then [] else [t]) + TrimmedLines(pieces[1..])
  }

  /** Lines are taken piece by piece, in order; with the one-piece case below this
      fixes `TrimmedLines` completely. */
  lemma {:induction false} TrimmedLinesConcat(a: seq<string>, b: seq<string>)
    ensures TrimmedLines(a + b) == TrimmedLines(a) + TrimmedLines(b)
  {
    if a == [] {
      assert a + b == b;
    } else {
      assert (a + b)[0] == a[0] && (a + b)[1..] == a[1..] + b;
      TrimmedLinesConcat(a[1..], b);
    }
  }

  /** One piece: its trimmed form, unless nothing is left of it. */
  lemma TrimmedLinesOne(piece: string)
    ensures TrimmedLines([piece]) == if AllSpace(piece) then [] else [Trim(piece)]
  {
    assert [piece][1..] == [];
  }

  /** Each line paired with its text as the parser reads it. */
  function ToParts(lines: seq<string>, reader: FragmentReader): (parts: seq<Part>)
    ensures |parts| == |lines|
    ensures forall k :: 0 <= k < |parts| ==> parts[k].html == lines[k] && parts[k].text == reader.textOf(lines[k])
  {
    if lines == [] then [] else [Part(lines[0], reader.textOf(lines[0]))] + ToParts(lines[1..], reader)
  }

  /** The candidate lines of an unlock fragment: its list items when it has any,
      otherwise its non-blank pieces between line breaks. */
  function CandidateParts(html: string, reader: FragmentReader): (parts: seq<Part>)
    ensures |reader.listItems(html)| > 0 ==> parts == reader.listItems(html)
    ensures |reader.listItems(html)| == 0 ==>
      forall k :: 0 <= k < |parts| ==>
        && parts[k].html != [] && IsTrimmed(parts[k].html)
        && parts[k].text == reader.textOf(parts[k].html)
    ensures |reader.listItems(html)| == 0 ==>
      var lines := TrimmedLines(SplitOnBreaks(html));
      |parts| == |lines| && forall k :: 0 <= k < |parts| ==> parts[k].html == lines[k]
  {
    var items := reader.listItems(html);
    if |items| > 0 then items
    else ToParts(TrimmedLines(SplitOnBreaks(html)), reader)
  }

  // ---------------------------------------------------------------------------
  // Keyword tests (case-insensitive, on the lower-cased text)

  /** `\b` at position `j`: a word character on exactly one side. */
  predicate IsBoundary(t: string, j: nat)
    requires j <= |t|
  {
    (j > 0 && IsWordChar(t[j - 1])) != (j < |t| && IsWordChar(t[j]))
  }

  /** `\brepentance\+?\b` matching at `i`. */
  predicate RepentanceAt(t: string, i: nat) {
    && OccursAt(t, "repentance", i)
    && IsBoundary(t, i)
    && (|| IsBoundary(t, i + 10)
        || (i + 11 <= |t| && t[i + 10] == '+' && IsBoundary(t, i + 11)))
  }

  /** `\bafterbirth\s*\+|\bafterbirth\+\b` matching at `i`. */
  predicate AfterbirthPlusAt(t: string, i: nat) {
    && OccursAt(t, "afterbirth", i)
    && IsBoundary(t, i)
    && (|| (SpacesEnd(t, i + 10) < |t| && t[SpacesEnd(t, i + 10)] == '+')
        || (i + 11 <= |t| && t[i + 10] == '+' && IsBoundary(t, i + 11)))
  }

  /** `\bafterbirth\b` matching at `i`. */
  predicate AfterbirthAt(t: string, i: nat) {
    OccursAt(t, "afterbirth", i) && IsBoundary(t, i) && IsBoundary(t, i + 10)
  }

  predicate MentionsRepentance(text: string) {
    exists i: nat :: i <= |text| && RepentanceAt(Lower(text), i)
  }

  predicate MentionsAfterbirthPlus(text: string) {
    exists i: nat :: i <= |text| && AfterbirthPlusAt(Lower(text), i)
  }

  predicate MentionsAfterbirth(text: string) {
    exists i: nat :: i <= |text| && AfterbirthAt(Lower(text), i)
  }

  /** The phrases that mark a line as describing what no longer applies. */
  const ExclusionPhrases: seq<string> :=
    ["except in", "except for", "before", "prior to", "no longer", "removed in"]

  predicate IsExclusion(text: string) {
    exists k :: 0 <= k < |ExclusionPhrases| && Contains(Lower(text), ExclusionPhrases[k])
  }

  /** The four priority tiers, best first: Repentance without an exclusion phrase,
      any Repentance line, Afterbirth+, Afterbirth. */
  predicate InTier(text: string, tier: nat) {
    match tier
    case 1 => MentionsRepentance(text) && !IsExclusion(text)
    case 2 => MentionsRepentance(text)
    case 3 => MentionsAfterbirthPlus(text)
    case 4 => MentionsAfterbirth(text)
    case _ => false
  }

  /** The best tier a line belongs to; 5 for a line no tier accepts. */
  function Rank(text: string): (n: nat)
    ensures 1 <= n <= 5
    ensures n < 5 ==> InTier(text, n)
    ensures forall m :: 1 <= m < n ==> !InTier(text, m)
  {
    if InTier(text, 1) then 1
    else if InTier(text, 2) then 2
    else if InTier(text, 3) then 3
    else if InTier(text, 4) then 4
    else 5
  }

  /** Reference definition of the choice: `k` holds the best rank of all lines, and
      no later line has that rank. */
  ghost predicate IsLatest(parts: seq<Part>, k: int) {
    && 0 <= k < |parts|
    && (forall j :: 0 <= j < |parts| ==> Rank(parts[k].text) <= Rank(parts[j].text))
    && (forall j :: k < j < |parts| ==> Rank(parts[j].text) != Rank(parts[k].text))
  }

  /** The last line of a tier, if the tier has any line. */
  function LastInTier(parts: seq<Part>, tier: nat): (r: int)
    ensures -1 <= r < |parts|
    ensures r >= 0 ==> InTier(parts[r].text, tier)
    ensures forall j :: r < j < |parts| ==> !InTier(parts[j].text, tier)
  {
    if parts == [] then -1
    else if InTier(parts[|parts| - 1].text, tier) then |parts| - 1
    else LastInTier(parts[..|parts| - 1], tier)
  }

  /** The four tiers tried in turn, the last line of the first non-empty one chosen,
      and the last line of all when no tier has any. */
  function LatestIndex(parts: seq<Part>): (k: nat)
    requires |parts| > 0
    ensures IsLatest(parts, k)
  {
    var t1 := LastInTier(parts, 1);
    var t2 := LastInTier(parts, 2);
    var t3 := LastInTier(parts, 3);
    var t4 := LastInTier(parts, 4);
    if t1 >= 0 then t1
    else if t2 >= 0 then t2
    else if t3 >= 0 then t3
    else if t4 >= 0 then t4
    else |parts| - 1
  }

  /** At most one line is the latest. */
  lemma LatestIsUnique(parts: seq<Part>, k1: int, k2: int)
    requires IsLatest(parts, k1) && IsLatest(parts, k2)
    ensures k1 == k2
  {
  }

  /** `pickLatestVersionSnippet`: the markup of the most relevant candidate line, or the
      fragment unchanged when it is empty or yields no candidate at all. */
  function PickLatestVersionSnippet(html: string, reader: FragmentReader): (r: string)
    ensures html == [] ==> r == html
    ensures html != [] && |CandidateParts(html, reader)| == 0 ==> r == html
    ensures html != [] && |CandidateParts(html, reader)| > 0 ==>
      exists k :: IsLatest(CandidateParts(html, reader), k) && r == CandidateParts(html, reader)[k].html
  {
    if html == [] then html
    else
      var parts := CandidateParts(html, reader);
      if |parts| == 0 then html else parts[LatestIndex(parts)].html
  }

  /** Without a version keyword anywhere, the last line is chosen. */
  lemma NoKeywordTakesLast(parts: seq<Part>)
    requires |parts| > 0
    requires forall j :: 0 <= j < |parts| ==> !MentionsRepentance(parts[j].text) && !MentionsAfterbirth(parts[j].text)
    ensures LatestIndex(parts) == |parts| - 1
  {
    var k := LatestIndex(parts);
    forall j | 0 <= j < |parts| ensures Rank(parts[j].text) == 5 {
      AfterbirthPlusIsAfterbirth(parts[j].text);
    }
  }

  /** The optional `+` in `\brepentance\+?\b` never changes the verdict: the test is
      "repentance" as a whole word. */
  lemma RepentancePlusRedundant(t: string, i: nat)
    ensures RepentanceAt(t, i) <==> OccursAt(t, "repentance", i) && IsBoundary(t, i) && IsBoundary(t, i + 10)
  {
    if OccursAt(t, "repentance", i) && i + 11 <= |t| && t[i + 10] == '+' {
      assert t[i + 9] == "repentance"[9];
    }
  }

  /** Every Afterbirth+ line is an Afterbirth line too. */
  lemma AfterbirthPlusIsAfterbirth(text: string)
    ensures MentionsAfterbirthPlus(text) ==> MentionsAfterbirth(text)
  {
    if MentionsAfterbirthPlus(text) {
      var t := Lower(text);
      var i: nat :| i <= |text| && AfterbirthPlusAt(t, i);
      assert t[i + 9] == "afterbirth"[9];
      assert AfterbirthAt(t, i);
    }
  }

  /** A line that names Repentance only to exclude it loses to a later plain
      Repentance line: of "Before Repentance: do X" and "In Repentance: do Y", the
      second is chosen. */
  lemma ExcludedLineLosesExample()
    ensures LatestIndex([Part("Before Repentance: do X", "Before Repentance: do X"),
                         Part("In Repentance: do Y", "In Repentance: do Y")]) == 1
  {
    var a := "Before Repentance: do X";
    var b := "In Repentance: do Y";
    var parts := [Part(a, a), Part(b, b)];
    assert Rank(b) == 1 by { CurrentLineExample(); }
    var k := LatestIndex(parts);
    assert IsLatest(parts, k);
  }

  /** A reader for markup without list items whose lines are plain text. */
  const PlainReader: FragmentReader := FragmentReader((h: string) => [], (h: string) => h)

  /** From the cell's markup to the chosen line: the Repentance line that follows an
      excluded one is picked. */
  lemma BreakLineExample()
    ensures PickLatestVersionSnippet("Before Repentance: do X<br>In Repentance: do Y", PlainReader)
      == "In Repentance: do Y"
  {
    var parts := [Part("Before Repentance: do X", "Before Repentance: do X"),
                  Part("In Repentance: do Y", "In Repentance: do Y")];
    BreakLineParts();
    ExcludedLineLosesExample();
    PickAmong("Before Repentance: do X<br>In Repentance: do Y", PlainReader, parts);
  }

  lemma BreakLineParts()
    ensures CandidateParts("Before Repentance: do X<br>In Repentance: do Y", PlainReader)
      == [Part("Before Repentance: do X", "Before Repentance: do X"),
          Part("In Repentance: do Y", "In Repentance: do Y")]
  {
    var a := "Before Repentance: do X";
    var b := "In Repentance: do Y";
    assert a + "<br>" + b == "Before Repentance: do X<br>In Repentance: do Y";
    TwoPlainLines(a, b);
  }

  /** With candidates, the pick is the markup of the latest one. */
  lemma PickAmong(html: string, reader: FragmentReader, parts: seq<Part>)
    requires html != [] && |parts| > 0 && CandidateParts(html, reader) == parts
    ensures PickLatestVersionSnippet(html, reader) == parts[LatestIndex(parts)].html
  {
  }

  /** Two trimmed lines around a `<br>` become two candidates, read as plain text. */
  lemma TwoPlainLines(a: string, b: string)
    requires a != [] && b != [] && IsTrimmed(a) && IsTrimmed(b)
    requires forall q :: 0 <= q < |a| ==> a[q] != '<'
    requires forall q :: 0 <= q < |b| ==> b[q] != '<'
    ensures CandidateParts(a + "<br>" + b, PlainReader) == [Part(a, a), Part(b, b)]
  {
    var html := a + "<br>" + b;
    SplitAroundOneBreak(a, b);
    TrimmedLinesConcat([a], [b]);
    TrimmedLinesOne(a);
    TrimmedLinesOne(b);
    assert [a] + [b] == [a, b];
    assert TrimmedLines([a, b]) == [a, b];
    var parts := CandidateParts(html, PlainReader);
    assert parts[0] == Part(a, a) && parts[1] == Part(b, b);
  }

  lemma CurrentLineExample()
    ensures MentionsRepentance("In Repentance: do Y")
    ensures !IsExclusion("In Repentance: do Y")
  {
    CurrentLineLower();
    CurrentLineMentions("in repentance: do y");
    CurrentLineNoPhrase("in repentance: do y");
  }

  lemma CurrentLineLower()
    ensures Lower("In Repentance: do Y") == "in repentance: do y"
  {
  }

  lemma CurrentLineMentions(t: string)
    requires t == "in repentance: do y"
    ensures RepentanceAt(t, 3)
  {
    OccursByChars(t, "repentance", 3);
  }

  lemma CurrentLineNoPhrase(t: string)
    requires t == "in repentance: do y"
    ensures forall k :: 0 <= k < |ExclusionPhrases| ==> !Contains(t, ExclusionPhrases[k])
  {
    AbsentChar(t, "except in", 1);
    AbsentChar(t, "except for", 1);
    AbsentChar(t, "before", 0);
    AbsentPair(t, "prior to");
    AbsentChar(t, "no longer", 3);
    AbsentChar(t, "removed in", 2);
  }
}
