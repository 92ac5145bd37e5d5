/**
 * The player-name resolver of class `NBAStats` in api/index.js: the static
 * directory `KNOWN_PLAYERS`, `normalizeName` and `findPlayerId`.
 */
module NameResolver {
  import opened Wrappers
  import opened JsStrings

  /** A JavaScript object used as a dictionary, as its entries in insertion order. */
  type Directory = seq<(string, int)>

  /** `NBAStats.KNOWN_PLAYERS`, in the order of its declaration. */
  const KNOWN_PLAYERS: Directory := [
    ("lebron james", 2544),
    ("stephen curry", 201939),
    ("kevin durant", 201142),
    ("luka doncic", 1629029),
    ("giannis antetokounmpo", 203507),
    ("nikola jokic", 203999),
    ("joel embiid", 203954),
    ("jayson tatum", 1628369),
    ("ja morant", 1629630),
    ("devin booker", 1626164),
    ("trae young", 1629027),
    ("donovan mitchell", 1628378),
    ("anthony davis", 203076),
    ("damian lillard", 203081),
    ("jimmy butler", 202710),
    ("paul george", 202331),
    ("kawhi leonard", 202695),
    ("kyrie irving", 202681),
    ("anthony edwards", 1630162),
    ("shai gilgeous alexander", 1628983),
    ("victor wembanyama", 1641705)
  ]

  // ---------------------------------------------------------------------------
  // normalizeName

  /** A name in normal form: lower case, no whitespace at either end, and every
      gap between words a single plain space. */
  ghost predicate IsNormalName(t: string) {
    && (forall i :: 0 <= i < |t| ==> !IsUpper(t[i]))
    && (t == [] || (!IsSpace(t[0]) && !IsSpace(t[|t| - 1])))
    && NoAdjacentSpaces(t)
    && (forall i :: 0 <= i < |t| && IsSpace(t[i]) ==> t[i] == ' ')
  }

  /** `normalizeName(name)`: `name.toLowerCase().trim().replace(/\s+/g, ' ')`. */
  function NormalizeName(name: string): string {
    ReplaceSpaceRuns(Trim(ToLowerCase(name)))
  }

  /** The result of `normalizeName` is in normal form, and it is empty exactly
      when the name is all whitespace. */
  lemma NormalizeNameIsNormal(name: string)
    ensures IsNormalName(NormalizeName(name))
    ensures NormalizeName(name) == [] <==> AllSpace(name)
  {
    var lower := ToLowerCase(name);
    var trimmed := Trim(lower);
    TrimKeepsLowerCase(lower);
    ReplacedSpacesArePlain(trimmed);
    ReplacedSpacesAreSingle(trimmed);
    ReplacedKeepsLowerCase(trimmed);
    ReplaceKeepsFirst(trimmed);
    ReplaceKeepsLast(trimmed);
    assert AllSpace(lower) <==> AllSpace(name);
  }

  // ---------------------------------------------------------------------------
  // Reference definition: the words of a name, joined by single spaces

  /** A word: a non-empty run of characters none of which is whitespace. */
  predicate IsWord(w: string) {
    w != [] && NoSpace(w)
  }

  /** The longest prefix of `s` that holds no whitespace. */
  function LeadingWord(s: string): (w: string)
    ensures |w| <= |s| && w == s[..|w|]
    ensures NoSpace(w)
    ensures |w| == |s| || IsSpace(s[|w|])
  {
    if s == [] || IsSpace(s[0]) then [] else [s[0]] + LeadingWord(s[1..])
  }

  /** The words of `s`, in order: its maximal runs of non-whitespace characters. */
  function Words(s: string): (ws: seq<string>)
    decreases |s|
  {
    if s == [] then []
    else if IsSpace(s[0]) then Words(s[1..])
    else
      var w := LeadingWord(s);
      assert w != [];
      [w] + Words(s[|w|..])
  }

  /** The words `ws` joined by single spaces. */
  function Unwords(ws: seq<string>): string {
    if ws == [] then []
    else if |ws| == 1 then ws[0]
    else ws[0] + " " + Unwords(ws[1..])
  }

  /** Every element of `Words(s)` is a word. */
  lemma {:induction false} WordsAreWords(s: string)
    ensures forall i :: 0 <= i < |Words(s)| ==> IsWord(Words(s)[i])
    decreases |s|
  {
    if s != [] && IsSpace(s[0]) {
      WordsAreWords(s[1..]);
    } else if s != [] {
      var w := LeadingWord(s);
      var ws := Words(s[|w|..]);
      WordsAreWords(s[|w|..]);
      assert Words(s) == [w] + ws;
      forall i | 0 <= i < |Words(s)|
        ensures IsWord(Words(s)[i])
      {
        if i > 0 {
          assert Words(s)[i] == ws[i - 1];
        }
      }
    }
  }

  /** Whitespace in front of anything does not change the words. */
  lemma {:induction false} WordsAfterSpaces(p: string, rest: string)
    requires AllSpace(p)
    ensures Words(p + rest) == Words(rest)
    decreases |p|
  {
    if p != [] {
      assert (p + rest)[1..] == p[1..] + rest;
      WordsAfterSpaces(p[1..], rest);
    } else {
      assert p + rest == rest;
    }
  }

  /** Words ignores whitespace in front of the first word. */
  lemma WordsSkipLeadingSpace(s: string)
    ensures Words(TrimStart(s)) == Words(s)
  {
    var t := TrimStart(s);
    var p := s[..|s| - |t|];
    assert s == p + t;
    WordsAfterSpaces(p, t);
  }

  /** The leading word of `s` ends exactly at the first whitespace character. */
  lemma {:induction false} LeadingWordOf(s: string, n: nat)
    requires n <= |s| && NoSpace(s[..n])
    requires n == |s| || IsSpace(s[n])
    ensures LeadingWord(s) == s[..n]
  {
    if n > 0 {
      assert s[1..][..n - 1] == s[1..n];
      LeadingWordOf(s[1..], n - 1);
    }
  }

  /** A word followed by whitespace (or by nothing) is the first of the words. */
  lemma WordsOfWordThen(w: string, z: string)
    requires IsWord(w)
    requires z == [] || IsSpace(z[0])
    ensures Words(w + z) == [w] + Words(z)
  {
    var x := w + z;
    assert TrimStart(x) == x by { assert x[0] == w[0]; }
    assert x[..|w|] == w;
    LeadingWordOf(x, |w|);
  }

  /** A joined, non-empty list of words starts with a character that is not whitespace. */
  lemma UnwordsStart(ws: seq<string>)
    requires ws != [] && forall i :: 0 <= i < |ws| ==> IsWord(ws[i])
    ensures Unwords(ws) != [] && !IsSpace(Unwords(ws)[0])
  {
    assert IsWord(ws[0]);
    if |ws| > 1 {
      assert Unwords(ws) == ws[0] + " " + Unwords(ws[1..]);
      assert Unwords(ws)[0] == ws[0][0];
    }
  }

  /** A single space in front of a word does not change the words. */
  lemma WordsOfSpaceThen(rest: string)
    requires rest != [] && !IsSpace(rest[0])
    ensures Words(" " + rest) == Words(rest)
  {
    WordsAfterSpaces(" ", rest);
  }

  /** A word, a single space and a string starting with a word. */
  lemma WordsOfWordSpaceThen(w: string, rest: string)
    requires IsWord(w)
    requires rest != [] && !IsSpace(rest[0])
    ensures Words(w + (" " + rest)) == [w] + Words(rest)
  {
    var gap := " " + rest;
    assert IsSpace(gap[0]);
    WordsOfWordThen(w, gap);
    WordsOfSpaceThen(rest);
  }

  /** A word followed only by whitespace is the only word. */
  lemma WordsOfWordThenSpaces(w: string, r: string)
    requires IsWord(w) && AllSpace(r)
    ensures Words(w + r) == [w]
  {
    WordsOfWordThen(w, r);
    WordsOfSpaces(r);
    assert [w] + [] == [w];
  }

  /** A single word is its own list of words. */
  lemma WordsOfOneWord(w: string)
    requires IsWord(w)
    ensures Words(w) == [w]
  {
    WordsOfWordThenSpaces(w, []);
    assert w + [] == w;
  }

  /** The words after the first of a list of words are words. */
  lemma TailAreWords(ws: seq<string>)
    requires ws != [] && forall i :: 0 <= i < |ws| ==> IsWord(ws[i])
    ensures forall i :: 0 <= i < |ws[1..]| ==> IsWord(ws[1..][i])
  {
    forall i | 0 <= i < |ws[1..]|
      ensures IsWord(ws[1..][i])
    {
      assert ws[1..][i] == ws[i + 1];
    }
  }

  /** The round trip for a list of at least two words, given that it holds
      for all but the first. */
  lemma WordsOfUnwordsStep(ws: seq<string>)
    requires |ws| > 1 && IsWord(ws[0])
    requires Unwords(ws[1..]) != [] && !IsSpace(Unwords(ws[1..])[0])
    requires Words(Unwords(ws[1..])) == ws[1..]
    ensures Words(Unwords(ws)) == ws
  {
    UnwordsCons(ws[0], ws[1..]);
    assert [ws[0]] + ws[1..] == ws;
    WordsOfWordSpaceThen(ws[0], Unwords(ws[1..]));
  }

  /** Round trip: splitting words joined by single spaces gives back the same words. */
  lemma {:induction false} WordsOfUnwords(ws: seq<string>)
    requires forall i :: 0 <= i < |ws| ==> IsWord(ws[i])
    ensures Words(Unwords(ws)) == ws
  {
    if |ws| == 1 {
      WordsOfOneWord(ws[0]);
      assert ws == [ws[0]];
    } else if ws != [] {
      TailAreWords(ws);
      WordsOfUnwords(ws[1..]);
      UnwordsStart(ws[1..]);
      WordsOfUnwordsStep(ws);
    }
  }

  /** A string of whitespace has no words. */
  lemma WordsOfSpaces(r: string)
    requires AllSpace(r)
    ensures Words(r) == []
  {
    WordsAfterSpaces(r, []);
    assert r + [] == r;
  }

  /** Splits a string that starts with whitespace but is not all whitespace into
      its leading whitespace and the rest. */
  lemma SplitLeadingSpaces(r: string) returns (p: string, rest: string)
    requires r != [] && IsSpace(r[0]) && !AllSpace(r)
    ensures r == p + rest && rest == TrimStart(r)
    ensures p != [] && AllSpace(p)
    ensures rest != [] && !IsSpace(rest[0])
  {
    rest := TrimStart(r);
    p := r[..|r| - |rest|];
    assert r == p + rest;
  }

  /** End-trimming keeps the first character of a string that starts with a
      non-whitespace character. */
  lemma TrimEndKeepsStart(s: string)
    requires s != [] && !IsSpace(s[0])
    ensures TrimEnd(s) != [] && TrimEnd(s)[0] == s[0]
  {
  }

  /** The last word followed only by whitespace collapses to itself. */
  lemma CollapsedLastWord(w: string, r: string)
    requires IsWord(w) && AllSpace(r)
    ensures ReplaceSpaceRuns(TrimEnd(w + r)) == w
  {
    TrimEndSpaceSuffix(w, r);
    assert TrimEnd(w) == w;
    ReplaceAfterWord(w, []);
    assert w + [] == w;
  }

  /** Joining a word in front of further words puts a single space after it. */
  lemma UnwordsCons(w: string, tail: seq<string>)
    requires tail != []
    ensures Unwords([w] + tail) == w + (" " + Unwords(tail))
  {
    assert ([w] + tail)[1..] == tail;
  }

  /** One step of the collapse: a word, a run of whitespace, and a rest that
      starts with a word. */
  lemma CollapsedGap(w: string, p: string, r': string)
    requires IsWord(w) && p != [] && AllSpace(p)
    requires r' != [] && !IsSpace(r'[0])
    ensures ReplaceSpaceRuns(TrimEnd(w + (p + r'))) == w + (" " + ReplaceSpaceRuns(TrimEnd(r')))
  {
    TrimEndKeepsStart(r');
    var y := TrimEnd(r');
    assert !AllSpace(r') by { assert !IsSpace(r'[0]); }
    assert !AllSpace(p + r') by { assert !IsSpace((p + r')[|p|]); }
    calc {
      ReplaceSpaceRuns(TrimEnd(w + (p + r')));
      { TrimEndAppend(w, p + r'); }
      ReplaceSpaceRuns(w + TrimEnd(p + r'));
      { TrimEndAppend(p, r'); }
      ReplaceSpaceRuns(w + (p + y));
      { ReplaceAfterWord(w, p + y); }
      w + ReplaceSpaceRuns(p + y);
      { ReplaceAfterSpaces(p, y); }
      w + (" " + ReplaceSpaceRuns(y));
    }
  }

  /** The collapse of one word followed only by whitespace. */
  lemma CollapsedOneWord(w: string, r: string)
    requires IsWord(w) && AllSpace(r)
    ensures ReplaceSpaceRuns(TrimEnd(w + r)) == Unwords(Words(w + r))
  {
    CollapsedLastWord(w, r);
    WordsOfWordThen(w, r);
    WordsOfSpaces(r);
    assert Words(w + r) == [w];
  }

  /** The collapse of a word, a run of whitespace and a rest that starts with a
      word, given the collapse of the rest. */
  lemma CollapsedStep(w: string, p: string, r': string)
    requires IsWord(w) && p != [] && AllSpace(p)
    requires r' != [] && !IsSpace(r'[0])
    requires ReplaceSpaceRuns(TrimEnd(r')) == Unwords(Words(r'))
    ensures ReplaceSpaceRuns(TrimEnd(w + (p + r'))) == Unwords(Words(w + (p + r')))
  {
    CollapsedGap(w, p, r');
    WordsOfWordThen(w, p + r');
    WordsAfterSpaces(p, r');
    var tail := Words(r');
    assert tail != [];
    UnwordsCons(w, tail);
  }

  /** Collapsing and end-trimming a string that starts with a non-whitespace
      character joins its words with single spaces. */
  lemma {:induction false} CollapsedIsUnwords(x: string)
    requires x == [] || !IsSpace(x[0])
    ensures ReplaceSpaceRuns(TrimEnd(x)) == Unwords(Words(x))
    decreases |x|
  {
    if x != [] {
      var w := LeadingWord(x);
      assert w != [] by { assert !IsSpace(x[0]); }
      var r := x[|w|..];
      assert x == w + r;
      if AllSpace(r) {
        CollapsedOneWord(w, r);
      } else {
        var p, r' := SplitLeadingSpaces(r);
        assert x == w + (p + r');
        CollapsedIsUnwords(r');
        CollapsedStep(w, p, r');
      }
    }
  }

  /** The reference definition: `normalizeName` lower-cases the name and joins
      its words with single spaces. */
  lemma NormalizeNameIsUnwords(name: string)
    ensures NormalizeName(name) == Unwords(Words(ToLowerCase(name)))
  {
    var lower := ToLowerCase(name);
    CollapsedIsUnwords(TrimStart(lower));
    WordsSkipLeadingSpace(lower);
  }

  /** Two names normalize alike exactly when, once lower-cased, they have the same
      words: they differ at most in letter case and in the amount and kind of
      whitespace between, before and after the words. */
  lemma NormalizeNameAgree(a: string, b: string)
    ensures NormalizeName(a) == NormalizeName(b) <==>
            Words(ToLowerCase(a)) == Words(ToLowerCase(b))
  {
    var wa, wb := Words(ToLowerCase(a)), Words(ToLowerCase(b));
    NormalizeNameIsUnwords(a);
    NormalizeNameIsUnwords(b);
    WordsAreWords(ToLowerCase(a));
    WordsAreWords(ToLowerCase(b));
    WordsOfUnwords(wa);
    WordsOfUnwords(wb);
  }

  /** `normalizeName` is idempotent. */
  lemma NormalizeNameIdempotent(name: string)
    ensures NormalizeName(NormalizeName(name)) == NormalizeName(name)
  {
    var n := NormalizeName(name);
    var ws := Words(ToLowerCase(name));
    NormalizeNameIsNormal(name);
    NormalizeNameIsUnwords(name);
    NormalizeNameIsUnwords(n);
    LowerCaseFixed(n);
    WordsAreWords(ToLowerCase(name));
    WordsOfUnwords(ws);
  }

  // ---------------------------------------------------------------------------
  // findPlayerId

  /** No two entries of the directory share a name, as in a JavaScript object. */
  predicate DistinctNames(dir: Directory) {
    forall i, j :: 0 <= i < j < |dir| ==> dir[i].0 != dir[j].0
  }

  /** `dir[key]`: the id stored under `key`, or `undefined` (`None`). */
  function Get(dir: Directory, key: string): (r: Option<int>)
    ensures r.None? <==> forall j :: 0 <= j < |dir| ==> dir[j].0 != key
    ensures r.Some? ==> exists j :: 0 <= j < |dir| && dir[j] == (key, r.value)
  {
    GetFrom(dir, key, 0)
  }

  /** The lookup among the entries from index `i` on. */
  function GetFrom(dir: Directory, key: string, i: nat): (r: Option<int>)
    requires i <= |dir|
    ensures r.None? <==> forall j :: i <= j < |dir| ==> dir[j].0 != key
    ensures r.Some? ==> exists j :: i <= j < |dir| && dir[j] == (key, r.value)
    decreases |dir| - i
  {
    if i == |dir| then None
    else if dir[i].0 == key then Some(dir[i].1)
    else GetFrom(dir, key, i + 1)
  }

  /** The test of the partial search: either name contains the other. */
  predicate Matches(normalizedName: string, knownName: string) {
    Includes(normalizedName, knownName) || Includes(knownName, normalizedName)
  }

  /** Entry `j` matches and no entry from `i` up to it does. */
  ghost predicate IsFirstMatchFrom(dir: Directory, normalizedName: string, i: nat, j: int) {
    && i <= j < |dir|
    && Matches(normalizedName, dir[j].0)
    && forall k :: i <= k < j ==> !Matches(normalizedName, dir[k].0)
  }

  /** Entry `j` matches and no entry before it does. */
  ghost predicate IsFirstMatch(dir: Directory, normalizedName: string, j: int) {
    IsFirstMatchFrom(dir, normalizedName, 0, j)
  }

  /** The partial search: the id of the first entry, in insertion order, whose
      name matches, or `None` when no entry does. */
  function FirstMatch(dir: Directory, normalizedName: string): (r: Option<int>)
    ensures r.None? <==> forall j :: 0 <= j < |dir| ==> !Matches(normalizedName, dir[j].0)
    ensures r.Some? ==> exists j :: IsFirstMatch(dir, normalizedName, j) && r.value == dir[j].1
  {
    FirstMatchFrom(dir, normalizedName, 0)
  }

  /** The partial search among the entries from index `i` on. */
  function FirstMatchFrom(dir: Directory, normalizedName: string, i: nat): (r: Option<int>)
    requires i <= |dir|
    ensures r.None? <==> forall j :: i <= j < |dir| ==> !Matches(normalizedName, dir[j].0)
    ensures r.Some? ==> exists j :: IsFirstMatchFrom(dir, normalizedName, i, j) && r.value == dir[j].1
    decreases |dir| - i
  {
    if i == |dir| then None
    else if Matches(normalizedName, dir[i].0) then
      assert IsFirstMatchFrom(dir, normalizedName, i, i);
      Some(dir[i].1)
    else
      var r := FirstMatchFrom(dir, normalizedName, i + 1);
      assert r.Some? ==> exists j :: IsFirstMatchFrom(dir, normalizedName, i, j) && r.value == dir[j].1 by {
        if r.Some? {
          var j :| IsFirstMatchFrom(dir, normalizedName, i + 1, j) && r.value == dir[j].1;
          assert IsFirstMatchFrom(dir, normalizedName, i, j);
        }
      }
      r
  }

  /** The search `findPlayerId` runs on the normalized name: the id under that
      name when the lookup is truthy (present and not 0), otherwise the first
      partial match, otherwise `null` (`None`). */
  function Lookup(dir: Directory, normalizedName: string): Option<int> {
    var exact := Get(dir, normalizedName);
    if exact.Some? && exact.value != 0 then exact else FirstMatch(dir, normalizedName)
  }

  /** What `findPlayerId(playerName)` returns against the directory `dir`. */
  function Resolve(dir: Directory, playerName: string): Option<int> {
    Lookup(dir, NormalizeName(playerName))
  }

  /** `findPlayerId(playerName)`: normalize the name, then search for it. */
  method FindPlayerId(dir: Directory, playerName: string) returns (r: Option<int>)
    ensures r == Resolve(dir, playerName)
  {
    var normalizedName := NormalizeName(playerName);
    r := Search(dir, normalizedName);
  }

  /** The body of `findPlayerId` after normalization: the exact lookup, then
      the loop over `Object.entries(KNOWN_PLAYERS)` that returns at the first
      match. */
  method Search(dir: Directory, normalizedName: string) returns (r: Option<int>)
    ensures r == Lookup(dir, normalizedName)
  {
    var exact := Get(dir, normalizedName);
    if exact.Some? && exact.value != 0 {
      return exact;
    }
    assert Lookup(dir, normalizedName) == FirstMatch(dir, normalizedName);
    var i := 0;
    while i < |dir|
      invariant 0 <= i <= |dir|
      invariant forall j :: 0 <= j < i ==> !Matches(normalizedName, dir[j].0)
    {
      var (knownName, playerId) := dir[i];
      if Includes(normalizedName, knownName) || Includes(knownName, normalizedName) {
        assert IsFirstMatch(dir, normalizedName, i);
        FirstMatchIsUnique(dir, normalizedName, i);
        return Some(playerId);
      }
      i := i + 1;
    }
    return None;
  }

  /** Only one entry can be the first match. */
  lemma FirstMatchIsUnique(dir: Directory, normalizedName: string, j: int)
    requires IsFirstMatch(dir, normalizedName, j)
    ensures FirstMatch(dir, normalizedName) == Some(dir[j].1)
  {
    var r := FirstMatch(dir, normalizedName);
    var k :| IsFirstMatch(dir, normalizedName, k) && r.value == dir[k].1;
  }

  // ---------------------------------------------------------------------------
  // What findPlayerId promises

  /** In `KNOWN_PLAYERS` no name appears twice and every id is positive, so an
      exact lookup is truthy whenever the name is present. */
  lemma KnownPlayersWellFormed()
    ensures DistinctNames(KNOWN_PLAYERS)
    ensures forall j :: 0 <= j < |KNOWN_PLAYERS| ==> KNOWN_PLAYERS[j].1 > 0
  {
    KnownIdsPositive();
    KnownNamesDistinctFirst();
    KnownNamesDistinctSecond();
    KnownNamesDistinctThird();
    KnownNamesDistinctFirstSecond();
    KnownNamesDistinctFirstThird();
    KnownNamesDistinctSecondThird();
  }

  /** Every id in `KNOWN_PLAYERS` is positive. */
  lemma KnownIdsPositive()
    ensures forall j :: 0 <= j < |KNOWN_PLAYERS| ==> KNOWN_PLAYERS[j].1 > 0
  {
  }

  // The names of KNOWN_PLAYERS are pairwise distinct, shown seven entries at a time.

  lemma KnownNamesDistinctFirst()
    ensures forall i, j :: 0 <= i < j < 7 ==> KNOWN_PLAYERS[i].0 != KNOWN_PLAYERS[j].0
  {
  }

  lemma KnownNamesDistinctSecond()
    ensures forall i, j :: 7 <= i < j < 14 ==> KNOWN_PLAYERS[i].0 != KNOWN_PLAYERS[j].0
  {
  }

  lemma KnownNamesDistinctThird()
    ensures forall i, j :: 14 <= i < j < 21 ==> KNOWN_PLAYERS[i].0 != KNOWN_PLAYERS[j].0
  {
  }

  lemma KnownNamesDistinctFirstSecond()
    ensures forall i, j :: 0 <= i < 7 && 7 <= j < 14 ==> KNOWN_PLAYERS[i].0 != KNOWN_PLAYERS[j].0
  {
  }

  lemma KnownNamesDistinctFirstThird()
    ensures forall i, j :: 0 <= i < 7 && 14 <= j < 21 ==> KNOWN_PLAYERS[i].0 != KNOWN_PLAYERS[j].0
  {
  }

  lemma KnownNamesDistinctSecondThird()
    ensures forall i, j :: 7 <= i < 14 && 14 <= j < 21 ==> KNOWN_PLAYERS[i].0 != KNOWN_PLAYERS[j].0
  {
  }

  /** A name whose normal form is an entry's name (with a truthy id, and with
      no earlier entry of the same name) resolves to that entry's id, whatever
      entries before it would match partially. */
  lemma ResolveExact(dir: Directory, playerName: string, j: int)
    requires 0 <= j < |dir| && dir[j].0 == NormalizeName(playerName) && dir[j].1 != 0
    requires forall k :: 0 <= k < j ==> dir[k].0 != dir[j].0
    ensures Resolve(dir, playerName) == Some(dir[j].1)
  {
    var n := NormalizeName(playerName);
    assert GetFrom(dir, n, j) == Some(dir[j].1);
    GetSkips(dir, n, j);
  }

  /** The lookup passes over entries that do not carry the key. */
  lemma {:induction false} GetSkips(dir: Directory, key: string, j: nat)
    requires j <= |dir|
    requires forall k :: 0 <= k < j ==> dir[k].0 != key
    ensures Get(dir, key) == GetFrom(dir, key, j)
    decreases j
  {
    if j > 0 {
      GetSkips(dir, key, j - 1);
    }
  }

  /** A name whose normal form is no entry's name resolves to the id of the
      first entry, in insertion order, that matches it partially. */
  lemma ResolvePartial(dir: Directory, playerName: string, j: int)
    requires forall k :: 0 <= k < |dir| ==> dir[k].0 != NormalizeName(playerName)
    requires IsFirstMatch(dir, NormalizeName(playerName), j)
    ensures Resolve(dir, playerName) == Some(dir[j].1)
  {
    FirstMatchIsUnique(dir, NormalizeName(playerName), j);
  }

  /** The result is `null` exactly when no entry matches the normal form even
      partially (an exact key would match itself). */
  lemma ResolveNull(dir: Directory, playerName: string)
    ensures Resolve(dir, playerName).None? <==>
            forall j :: 0 <= j < |dir| ==> !Matches(NormalizeName(playerName), dir[j].0)
  {
    var n := NormalizeName(playerName);
    var exact := Get(dir, n);
    if exact.Some? {
      var k :| 0 <= k < |dir| && dir[k] == (n, exact.value);
      IncludesItself(n);
      assert Matches(n, dir[k].0);
      if exact.value != 0 {
        assert Resolve(dir, playerName) == exact;
      } else {
        assert Resolve(dir, playerName) == FirstMatch(dir, n);
      }
    } else {
      assert Resolve(dir, playerName) == FirstMatch(dir, n);
    }
  }

  /** A non-null result is the id of an entry whose name matches the normal form. */
  lemma ResolveFromDirectory(dir: Directory, playerName: string)
    ensures var r := Resolve(dir, playerName);
      r.Some? ==> exists j :: 0 <= j < |dir| && Matches(NormalizeName(playerName), dir[j].0) && dir[j].1 == r.value
  {
    var n := NormalizeName(playerName);
    var exact := Get(dir, n);
    if exact.Some? && exact.value != 0 {
      var k :| 0 <= k < |dir| && dir[k] == (n, exact.value);
      IncludesItself(n);
      assert Matches(n, dir[k].0);
    }
  }

  /** A name that normalizes to the empty string, such as one made only of
      whitespace, matches the first entry: every string contains "". */
  lemma ResolveBlankName(dir: Directory, playerName: string)
    requires AllSpace(playerName)
    requires dir != [] && forall k :: 0 <= k < |dir| ==> dir[k].0 != []
    ensures Resolve(dir, playerName) == Some(dir[0].1)
  {
    IncludesEmpty(dir[0].0);
    assert Matches([], dir[0].0);
  }

  /** With `KNOWN_PLAYERS`, a blank name resolves to LeBron James. */
  lemma ResolveBlankNameKnown(playerName: string)
    requires AllSpace(playerName)
    ensures Resolve(KNOWN_PLAYERS, playerName) == Some(2544)
  {
    ResolveBlankName(KNOWN_PLAYERS, playerName);
  }

  /** Two names that differ only in letter case and in the amount of whitespace
      around and between their words resolve alike. */
  lemma ResolveIgnoresCaseAndSpacing(dir: Directory, a: string, b: string)
    requires Words(ToLowerCase(a)) == Words(ToLowerCase(b))
    ensures Resolve(dir, a) == Resolve(dir, b)
  {
    NormalizeNameAgree(a, b);
  }

  /** Resolving an already normalized name gives the same answer. */
  lemma ResolveNormalized(dir: Directory, playerName: string)
    ensures Resolve(dir, NormalizeName(playerName)) == Resolve(dir, playerName)
  {
    NormalizeNameIdempotent(playerName);
  }
}
