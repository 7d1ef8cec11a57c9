/** Header normalisation and the mapping of header cells to the three column roles
    the extractor needs (`normalizeHeader`, `findColumnIndexes`). */
module Columns {
  import opened JsText
  import opened Maybe

  // ---------------------------------------------------------------------------
  // normalizeHeader

  /** `replace(/\s+/g, " ")`: every run of white space becomes one plain space. */
  function CollapseSpaces(s: string): (r: string)
    ensures forall i :: 0 <= i < |r| && IsSpace(r[i]) ==> r[i] == ' '
    ensures forall i :: 0 <= i < |r| - 1 ==> !(IsSpace(r[i]) && IsSpace(r[i + 1]))
    ensures forall c :: c in r ==> c in s || c == ' '
    ensures r == [] <==> s == []
    ensures r != [] ==> (IsSpace(r[0]) <==> IsSpace(s[0]))
    decreases |s|
  {
    if s == [] then []
    else if IsSpace(s[0]) then [' '] + CollapseSpaces(SkipSpaces(s))
    else [s[0]] + CollapseSpaces(s[1..])
  }

  /** What is left of `s` after its leading white space. */
  function SkipSpaces(s: string): (r: string)
    ensures |r| <= |s| && r == s[|s| - |r|..]
    ensures r == [] || !IsSpace(r[0])
    ensures s != [] && IsSpace(s[0]) ==> |r| < |s|
  {
    s[StartFrom(s, 0)..]
  }

  /** The same rewrite read one character at a time: a white-space character becomes a
      plain space unless it continues a run (`inRun`), in which case it is dropped. */
  function Squeeze(s: string, inRun: bool): string
  {
    if s == [] then []
    else if IsSpace(s[0]) then (if inRun then [] else [' ']) + Squeeze(s[1..], true)
    else [s[0]] + Squeeze(s[1..], false)
  }

  /** Collapsing runs of white space agrees with the character-at-a-time reading. */
  lemma {:induction false} CollapseSpacesSqueezes(s: string)
    ensures CollapseSpaces(s) == Squeeze(s, false)
    decreases |s|
  {
    if s != [] {
      if IsSpace(s[0]) {
        SqueezeRun(s[1..]);
        SkipSpacesCons(s);
        CollapseSpacesSqueezes(SkipSpaces(s));
      } else {
        CollapseSpacesSqueezes(s[1..]);
      }
    }
  }

  /** Inside a run, the rest of the run disappears. */
  lemma {:induction false} SqueezeRun(s: string)
    ensures Squeeze(s, true) == Squeeze(SkipSpaces(s), false)
  {
    if s != [] {
      if IsSpace(s[0]) {
        SqueezeRun(s[1..]);
        SkipSpacesCons(s);
      } else {
        assert StartFrom(s, 0) == 0;
      }
    }
  }

  /** Skipping white space from a white-space character on is skipping from the next one. */
  lemma SkipSpacesCons(s: string)
    requires s != [] && IsSpace(s[0])
    ensures SkipSpaces(s) == SkipSpaces(s[1..])
  {
    StartFromShift(s, 1);
  }

  lemma {:induction false} StartFromShift(s: string, k: nat)
    requires 1 <= k <= |s|
    ensures StartFrom(s, k) == StartFrom(s[1..], k - 1) + 1
    decreases |s| - k
  {
    if k < |s| {
      assert s[k] == s[1..][k - 1];
      if IsSpace(s[k]) {
        StartFromShift(s, k + 1);
      }
    }
  }

  /** Collapsing white space keeps every other character, in order. */
  lemma {:induction false} SqueezeKeepsNonSpace(s: string, inRun: bool)
    ensures NonSpace(Squeeze(s, inRun)) == NonSpace(s)
  {
    if s != [] {
      SqueezeKeepsNonSpace(s[1..], IsSpace(s[0]));
      var rest := Squeeze(s[1..], IsSpace(s[0]));
      if IsSpace(s[0]) {
        if !inRun {
          assert ([' '] + rest)[1..] == rest;
        } else {
          assert [] + rest == rest;
        }
      } else {
        assert ([s[0]] + rest)[1..] == rest;
      }
    }
  }

  lemma CollapseKeepsNonSpace(s: string)
    ensures NonSpace(CollapseSpaces(s)) == NonSpace(s)
  {
    CollapseSpacesSqueezes(s);
    SqueezeKeepsNonSpace(s, false);
  }

  /** The characters `normalizeHeader` deletes. */
  predicate IsHeaderPunctuation(c: char) {
    c == ':' || c == '*' || c == '#' || c == '(' || c == ')' || c == '.'
  }

  /** `replace(/[:*#().]/g, "")`. */
  function RemovePunctuation(s: string): (r: string)
    ensures |r| <= |s|
    ensures forall i :: 0 <= i < |r| ==> !IsHeaderPunctuation(r[i])
    ensures (forall i :: 0 <= i < |s| ==> !IsHeaderPunctuation(s[i])) ==> r == s
  {
    if s == [] then []
    else if IsHeaderPunctuation(s[0]) then RemovePunctuation(s[1..])
    else [s[0]] + RemovePunctuation(s[1..])
  }

  /** The global replace works character by character: what is left of a concatenation
      is what is left of each part, in order. With the one-character case below this
      fixes `RemovePunctuation` completely. */
  lemma {:induction false} RemovePunctuationConcat(a: string, b: string)
    ensures RemovePunctuation(a + b) == RemovePunctuation(a) + RemovePunctuation(b)
    decreases |a|
  {
    if a == [] {
      assert a + b == b;
    } else {
      assert (a + b)[0] == a[0] && (a + b)[1..] == a[1..] + b;
      RemovePunctuationConcat(a[1..], b);
    }
  }

  /** A single character is removed exactly when it is one of `:*#().`. */
  lemma RemovePunctuationChar(c: char)
    ensures RemovePunctuation([c]) == if IsHeaderPunctuation(c) then [] else [c]
  {
    assert [c][1..] == [];
  }

  /** Removing punctuation keeps exactly the other characters. */
  lemma {:induction false} RemovePunctuationMembers(s: string)
    ensures forall c :: c in RemovePunctuation(s) ==> c in s && !IsHeaderPunctuation(c)
    ensures forall c :: c in s && !IsHeaderPunctuation(c) ==> c in RemovePunctuation(s)
  {
    if s != [] {
      RemovePunctuationMembers(s[1..]);
      assert forall c :: c in s ==> c == s[0] || c in s[1..];
    }
  }

  /** `normalizeHeader`: lower-cased, white space collapsed, punctuation removed, trimmed. */
  function NormalizeHeader(text: string): (r: string)
    ensures IsTrimmed(r)
    ensures forall c :: c in r ==> !IsUpper(c) && !IsHeaderPunctuation(c)
    ensures forall c :: c in r && IsSpace(c) ==> c == ' '
  {
    var lower := Lower(text);
    var collapsed := CollapseSpaces(lower);
    var kept := RemovePunctuation(collapsed);
    RemovePunctuationMembers(collapsed);
    var r := Trim(kept);
    TrimKeepsOnly(kept, r);
    forall c | c in r ensures !IsUpper(c) && (IsSpace(c) ==> c == ' ') {
      assert c in kept && c in collapsed;
      if c != ' ' {
        var i :| 0 <= i < |lower| && lower[i] == c;
        assert LowerChar(text[i]) == c;
      } else {
        assert !IsUpper(' ');
      }
    }
    r
  }

  /** Punctuation is never white space, so the two deletions commute. */
  lemma {:induction false} PunctuationNonSpace(s: string)
    ensures NonSpace(RemovePunctuation(s)) == RemovePunctuation(NonSpace(s))
  {
    if s != [] {
      PunctuationNonSpace(s[1..]);
      if !IsSpace(s[0]) {
        assert NonSpace(s)[0] == s[0] && NonSpace(s)[1..] == NonSpace(s[1..]);
      }
      if !IsHeaderPunctuation(s[0]) {
        var kept := RemovePunctuation(s);
        assert kept[0] == s[0] && kept[1..] == RemovePunctuation(s[1..]);
      }
    }
  }

  /** Apart from white space, a normalised header holds exactly the lower-cased
      characters of the header that are not punctuation, in their original order. */
  lemma NormalizeHeaderKeeps(text: string)
    ensures NonSpace(NormalizeHeader(text)) == RemovePunctuation(Lower(NonSpace(text)))
  {
    var lower := Lower(text);
    var collapsed := CollapseSpaces(lower);
    var kept := RemovePunctuation(collapsed);
    assert NormalizeHeader(text) == Trim(kept);
    NonSpaceTrim(kept);
    PunctuationNonSpace(collapsed);
    CollapseKeepsNonSpace(lower);
    LowerNonSpace(text);
  }

  /** A header already in normal form (lower case, no punctuation, single plain spaces,
      trimmed) normalises to itself. */
  lemma NormalizeCanonical(h: string)
    requires forall i :: 0 <= i < |h| ==> !IsUpper(h[i]) && !IsHeaderPunctuation(h[i])
    requires forall i :: 0 <= i < |h| && IsSpace(h[i]) ==> h[i] == ' '
    requires NoDoubleSpace(h) && IsTrimmed(h)
    ensures NormalizeHeader(h) == h
  {
    assert Lower(h) == h;
    CollapseSingleSpaces(h);
    RemovePunctuationKeeps(h);
  }

  /** A one-word header without punctuation normalises to its lower-case form. */
  lemma NormalizeWord(text: string)
    requires forall i :: 0 <= i < |text| ==> !IsSpace(text[i]) && !IsHeaderPunctuation(text[i])
    ensures NormalizeHeader(text) == Lower(text)
  {
    var lower := Lower(text);
    assert forall i :: 0 <= i < |lower| ==> !IsSpace(lower[i]) && !IsHeaderPunctuation(lower[i]);
    CollapseSingleSpaces(lower);
    RemovePunctuationKeeps(lower);
  }

  /** Trimming only removes characters. */
  lemma TrimKeepsOnly(s: string, r: string)
    requires r == Trim(s)
    ensures forall c :: c in r ==> c in s
  {
    TrimIsSlice(s);
    var i :| 0 <= i <= |s| && OccursAt(s, r, i);
    forall c | c in r ensures c in s {
      var k :| 0 <= k < |r| && r[k] == c;
      assert s[i + k] == c;
    }
  }

  /** No two white-space characters side by side. */
  predicate NoDoubleSpace(s: string) {
    forall i :: 0 <= i < |s| - 1 ==> !(IsSpace(s[i]) && IsSpace(s[i + 1]))
  }

  /** Collapsing leaves a string alone when its white space is already single plain spaces. */
  lemma {:induction false} CollapseSingleSpaces(s: string)
    requires NoDoubleSpace(s)
    requires forall i :: 0 <= i < |s| && IsSpace(s[i]) ==> s[i] == ' '
    ensures CollapseSpaces(s) == s
    decreases |s|
  {
    if s != [] {
      assert NoDoubleSpace(s[1..]) by {
        forall i | 0 <= i < |s[1..]| - 1 ensures !(IsSpace(s[1..][i]) && IsSpace(s[1..][i + 1])) {
          assert s[1..][i] == s[i + 1] && s[1..][i + 1] == s[i + 2];
        }
      }
      CollapseSingleSpaces(s[1..]);
      if IsSpace(s[0]) {
        var rest := s[1..];
        assert rest == [] || !IsSpace(rest[0]);
        assert StartFrom(s, 1) == 1 && StartFrom(s, 0) == 1;
        assert StartFrom(rest, 0) == 0;
      }
    }
  }

  /** A header without punctuation normalises to text in which no two spaces touch. */
  lemma NormalizedWithoutPunctuation(text: string)
    requires forall c :: c in text ==> !IsHeaderPunctuation(c)
    ensures NoDoubleSpace(NormalizeHeader(text))
  {
    var collapsed := CollapseSpaces(Lower(text));
    CollapsedWithoutPunctuation(text);
    RemovePunctuationKeeps(collapsed);
    TrimNoDoubleSpace(collapsed);
  }

  lemma CollapsedWithoutPunctuation(text: string)
    requires forall c :: c in text ==> !IsHeaderPunctuation(c)
    ensures forall c :: c in CollapseSpaces(Lower(text)) ==> !IsHeaderPunctuation(c)
  {
    var lower := Lower(text);
    forall c | c in CollapseSpaces(lower) ensures !IsHeaderPunctuation(c) {
      if c != ' ' {
        var i :| 0 <= i < |lower| && lower[i] == c;
        assert text[i] in text;
      }
    }
  }

  /** Trimming keeps a string free of doubled spaces. */
  lemma TrimNoDoubleSpace(s: string)
    requires NoDoubleSpace(s)
    ensures NoDoubleSpace(Trim(s))
  {
    var r := Trim(s);
    TrimIsSlice(s);
    var k :| 0 <= k <= |s| && OccursAt(s, r, k);
    forall i | 0 <= i < |r| - 1 ensures !(IsSpace(r[i]) && IsSpace(r[i + 1])) {
      assert r[i] == s[k + i] && r[i + 1] == s[k + i + 1];
    }
  }

  /** Removing punctuation from text that has none changes nothing. */
  lemma {:induction false} RemovePunctuationKeeps(s: string)
    requires forall c :: c in s ==> !IsHeaderPunctuation(c)
    ensures RemovePunctuation(s) == s
  {
    if s != [] {
      assert s[0] in s;
      RemovePunctuationKeeps(s[1..]);
    }
  }

  /** Removing punctuation can bring two spaces together, and normalising again then
      merges them: `normalizeHeader` is not idempotent. */
  lemma NormalizeHeaderNotIdempotent()
    ensures NormalizeHeader("a . b") == "a  b"
    ensures NormalizeHeader(NormalizeHeader("a . b")) != NormalizeHeader("a . b")
  {
    NormalizeSpacedDot();
    NormalizedWithoutPunctuation("a  b");
    assert !NoDoubleSpace("a  b") by {
      assert IsSpace("a  b"[1]) && IsSpace("a  b"[2]);
    }
  }

  lemma NormalizeSpacedDot()
    ensures NormalizeHeader("a . b") == "a  b"
  {
    SpacedDotSteps();
    assert IsTrimmed("a  b");
  }

  lemma SpacedDotSteps()
    ensures Lower("a . b") == "a . b"
    ensures CollapseSpaces("a . b") == "a . b"
    ensures RemovePunctuation("a . b") == "a  b"
  {
    SpacedDotLower();
    SpacedDotCollapse();
    SpacedDotRemove();
  }

  lemma SpacedDotLower()
    ensures Lower("a . b") == "a . b"
  {
    var s := "a . b";
    assert forall i :: 0 <= i < |s| ==> !IsUpper(s[i]);
  }

  lemma SpacedDotCollapse()
    ensures CollapseSpaces("a . b") == "a . b"
  {
    var s := "a . b";
    assert NoDoubleSpace(s) by {
      assert !IsSpace(s[0]) && !IsSpace(s[2]) && !IsSpace(s[4]);
    }
    CollapseSingleSpaces(s);
  }

  lemma SpacedDotRemove()
    ensures RemovePunctuation("a . b") == "a  b"
  {
    assert RemovePunctuation("b") == "b" by { assert "b"[1..] == []; }
    assert RemovePunctuation(" b") == " b" by { assert " b"[1..] == "b"; }
    assert RemovePunctuation(". b") == " b" by { assert ". b"[1..] == " b"; }
    assert RemovePunctuation(" . b") == "  b" by { assert " . b"[1..] == ". b"; }
    assert "a . b"[1..] == " . b";
  }

  // ---------------------------------------------------------------------------
  // findColumnIndexes

  /** The three roles a data table must provide. */
  datatype Role = IdRole | NameRole | UnlockRole

  /** `/^id\b/`: the header starts with the word "id". */
  predicate StartsWithWordId(h: string) {
    StartsWith(h, "id") && (|h| == 2 || !IsWordChar(h[2]))
  }

  /** The header tests of the three roles, on normalised headers. */
  predicate Matches(role: Role, h: string) {
    match role
    case IdRole => h == "id" || h == "no" || h == "number" || StartsWithWordId(h)
    case NameRole =>
      Contains(h, "achievement") || h == "name" || h == "title" || Contains(h, "achievement name")
    case UnlockRole =>
      || Contains(h, "unlock method") || Contains(h, "how to unlock") || h == "unlock"
      || Contains(h, "requirement") || Contains(h, "unlock criteria")
  }

  /** `k` is the leftmost header that passes `role`'s test. */
  ghost predicate IsFirstMatch(headers: seq<string>, role: Role, k: int) {
    && 0 <= k < |headers|
    && Matches(role, headers[k])
    && forall j :: 0 <= j < k ==> !Matches(role, headers[j])
  }

  ghost predicate NoMatch(headers: seq<string>, role: Role) {
    forall j :: 0 <= j < |headers| ==> !Matches(role, headers[j])
  }

  /** The column positions of the three roles. */
  datatype ColumnIndexes = ColumnIndexes(id: nat, name: nat, unlock: nat)

  /** The three slots of the scan; -1 means "not found yet". */
  datatype Slots = Slots(id: int, name: int, unlock: int) {
    function Get(role: Role): int {
      match role
      case IdRole => id
      case NameRole => name
      case UnlockRole => unlock
    }
  }

  /** After looking at the first `upto` headers, a slot holds the first match so far,
      or -1 when there has been none. */
  ghost predicate Settled(headers: seq<string>, upto: nat, role: Role, slot: int)
    requires upto <= |headers|
  {
    || (slot == -1 && forall j :: 0 <= j < upto ==> !Matches(role, headers[j]))
    || (slot < upto && IsFirstMatch(headers, role, slot))
  }

  /** One step of the `forEach`: three independent tests, each filling its slot only
      while that slot is still empty, so one column can take several roles. */
  function Step(slots: Slots, h: string, idx: nat): Slots {
    Slots(
      if slots.id == -1 && Matches(IdRole, h) then idx else slots.id,
      if slots.name == -1 && Matches(NameRole, h) then idx else slots.name,
      if slots.unlock == -1 && Matches(UnlockRole, h) then idx else slots.unlock)
  }

  /** The `forEach` over the headers from position `i` on. */
  function Scan(headers: seq<string>, i: nat, slots: Slots): (r: Slots)
    requires i <= |headers|
    requires forall role :: Settled(headers, i, role, slots.Get(role))
    ensures forall role :: Settled(headers, |headers|, role, r.Get(role))
    decreases |headers| - i
  {
    if i == |headers| then slots
    else
      var next := Step(slots, headers[i], i);
      assert forall role :: Settled(headers, i + 1, role, next.Get(role)) by {
        forall role ensures Settled(headers, i + 1, role, next.Get(role)) {
          assert Settled(headers, i, role, slots.Get(role));
        }
      }
      Scan(headers, i + 1, next)
  }

  /** `findColumnIndexes`: the leftmost column of each role, or nothing when some role
      has no column at all. */
  function FindColumnIndexes(headers: seq<string>): (r: Option<ColumnIndexes>)
    ensures r.None? <==> NoMatch(headers, IdRole) || NoMatch(headers, NameRole) || NoMatch(headers, UnlockRole)
    ensures r.Some? ==>
      && IsFirstMatch(headers, IdRole, r.value.id)
      && IsFirstMatch(headers, NameRole, r.value.name)
      && IsFirstMatch(headers, UnlockRole, r.value.unlock)
  {
    var s := Scan(headers, 0, Slots(-1, -1, -1));
    assert Settled(headers, |headers|, IdRole, s.Get(IdRole));
    assert Settled(headers, |headers|, NameRole, s.Get(NameRole));
    assert Settled(headers, |headers|, UnlockRole, s.Get(UnlockRole));
    if s.id == -1 || s.name == -1 || s.unlock == -1 then None
    else Some(ColumnIndexes(s.id, s.name, s.unlock))
  }

  /** The role tests do not depend on where a header stands: a table whose headers
      read "Unlock", "ID", "Name" is mapped as well as one in the usual order. */
  lemma ReorderedHeadersExample()
    ensures FindColumnIndexes(["unlock", "id", "name"]) == Some(ColumnIndexes(1, 2, 0))
  {
    var hs := ["unlock", "id", "name"];
    assert Matches(UnlockRole, hs[0]) && Matches(IdRole, hs[1]) && Matches(NameRole, hs[2]);
    assert !Matches(IdRole, hs[0]) by { assert hs[0][..2][0] == 'u'; }
    assert !Matches(NameRole, hs[0]) && !Matches(NameRole, hs[1]) by {
      NotContainsShort(hs[0], "achievement");
      NotContainsShort(hs[0], "achievement name");
      NotContainsShort(hs[1], "achievement");
      NotContainsShort(hs[1], "achievement name");
    }
    var r := FindColumnIndexes(hs);
    assert r.Some?;
  }

  /** A single column can take all three roles. */
  lemma OneColumnManyRolesExample()
    ensures FindColumnIndexes(["id achievement requirement"]) == Some(ColumnIndexes(0, 0, 0))
  {
    var h := "id achievement requirement";
    assert StartsWithWordId(h);
    OccursByChars(h, "achievement", 3);
    OccursByChars(h, "requirement", 15);
    assert Matches(IdRole, h) && Matches(NameRole, h) && Matches(UnlockRole, h);
  }

  /** A word longer than the text cannot occur in it. */
  lemma NotContainsShort(s: string, word: string)
    requires |s| < |word|
    ensures !Contains(s, word)
  {
  }
}
