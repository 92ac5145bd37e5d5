/** Worked examples of `findPlayerId` on `KNOWN_PLAYERS`: an exact hit after
    normalisation, a partial match, and no match at all. The names an example
    is about are its parameters, fixed by its precondition.

    To show that an entry does not match, it is enough to name one character
    of the shorter of the two names that the longer one lacks (`LacksChar`):
    then neither name can contain the other. A string of such "clue"
    characters, one per entry, rules out a run of consecutive entries. */
module ResolverExamples {
  import opened Wrappers
  import opened JsStrings
  import opened NameResolver

  // ---------------------------------------------------------------------------
  // General steps the examples are built from

  /** Lower-casing `s` character by character gives `t`. */
  lemma LowerCaseOf(s: string, t: string)
    requires |s| == |t| && forall i :: 0 <= i < |s| ==> LowerChar(s[i]) == t[i]
    ensures ToLowerCase(s) == t
  {
    assert forall i :: 0 <= i < |s| ==> ToLowerCase(s)[i] == t[i];
  }

  /** One word with whitespace runs before and after it. */
  lemma WordsOfOne(p: string, a: string, r: string)
    requires AllSpace(p) && AllSpace(r) && IsWord(a)
    ensures Words(p + (a + r)) == [a]
  {
    var y := a + r;
    assert y[0] == a[0];
    WordsAfterSpaces(p, y);
    WordsOfWordThenSpaces(a, r);
  }

  /** The first character of a string that starts with a whitespace run. */
  lemma SpaceFirst(q: string, y: string)
    requires AllSpace(q) && q != []
    ensures IsSpace((q + y)[0])
  {
    assert (q + y)[0] == q[0];
  }

  /** Two words with a whitespace run between them and one after them. */
  lemma WordsOfTwo(a: string, q: string, b: string, r: string)
    requires AllSpace(q) && q != [] && AllSpace(r)
    requires IsWord(a) && IsWord(b)
    ensures Words(a + (q + (b + r))) == [a, b]
  {
    SpaceFirst(q, b + r);
    WordsOfWordThen(a, q + (b + r));
    WordsOfOne(q, b, r);
    assert [a] + [b] == [a, b];
  }

  /** Neither name can contain the other when the longer one holds a character
      that the shorter one lacks. */
  predicate LacksChar(normalizedName: string, knownName: string, c: char) {
    || (|knownName| > |normalizedName| && c in normalizedName && c !in knownName)
    || (|normalizedName| > |knownName| && c in knownName && c !in normalizedName)
  }

  lemma NoMatchByChar(normalizedName: string, knownName: string, c: char)
    requires LacksChar(normalizedName, knownName, c)
    ensures !Matches(normalizedName, knownName)
  {
    if |knownName| > |normalizedName| {
      NotIncludedByChar(knownName, normalizedName, c);
    } else {
      NotIncludedByChar(normalizedName, knownName, c);
    }
  }

  /** No entry from index `lo` on, for `|clues|` entries, matches: the entry
      at `lo + i` is ruled out by the character `clues[i]`. */
  lemma NoMatchAmong(normalizedName: string, dir: Directory, lo: nat, clues: string)
    requires lo + |clues| <= |dir|
    requires forall i :: 0 <= i < |clues| ==> LacksChar(normalizedName, dir[lo + i].0, clues[i])
    ensures forall i :: lo <= i < lo + |clues| ==> !Matches(normalizedName, dir[i].0)
  {
    forall i | lo <= i < lo + |clues|
      ensures !Matches(normalizedName, dir[i].0)
    {
      NoMatchByChar(normalizedName, dir[i].0, clues[i - lo]);
    }
  }

  /** A one-word name already in lower case is its own normal form. */
  lemma NormalizeOneWord(w: string)
    requires IsWord(w) && forall i :: 0 <= i < |w| ==> !IsUpper(w[i])
    ensures NormalizeName(w) == w
  {
    LowerCaseFixed(w);
    WordsOfWordThen(w, []);
    assert w + [] == w;
    NormalizeNameIsUnwords(w);
  }

  // ---------------------------------------------------------------------------
  // "  LeBron   James " -> 2544

  lemma LowerLeBronSpaced(playerName: string, lower: string)
    requires playerName == "  LeBron   James "
    requires lower == "  " + ("lebron" + ("   " + ("james" + " ")))
    ensures ToLowerCase(playerName) == lower
  {
    LowerCaseOf(playerName, lower);
  }

  /** A name made of two words with whitespace runs before, between and
      after them normalizes to the lower-cased words joined by one space. */
  lemma NormalizeSpacedTwo(name: string, p: string, a: string, q: string, b: string, r: string)
    requires AllSpace(p) && AllSpace(q) && q != [] && AllSpace(r)
    requires IsWord(a) && IsWord(b)
    requires ToLowerCase(name) == p + (a + (q + (b + r)))
    ensures NormalizeName(name) == a + (" " + b)
  {
    WordsAfterSpaces(p, a + (q + (b + r)));
    WordsOfTwo(a, q, b, r);
    NormalizeNameIsUnwords(name);
    UnwordsCons(a, [b]);
  }

  /** The two words joined by a space are the directory's first name. */
  lemma LeBronKey(a: string, b: string)
    requires a == "lebron" && b == "james"
    ensures a + (" " + b) == KNOWN_PLAYERS[0].0
  {
  }

  /** "  LeBron   James " is an exact match for "lebron james". */
  lemma ResolveLeBronSpaced(playerName: string)
    requires playerName == "  LeBron   James "
    ensures Resolve(KNOWN_PLAYERS, playerName) == Some(2544)
  {
    LowerLeBronSpaced(playerName, "  " + ("lebron" + ("   " + ("james" + " "))));
    NormalizeSpacedTwo(playerName, "  ", "lebron", "   ", "james", " ");
    LeBronKey("lebron", "james");
    ResolveExact(KNOWN_PLAYERS, playerName, 0);
  }

  // ---------------------------------------------------------------------------
  // "anthony" -> 203076

  /** Entries 0-5 are all longer than "anthony" and lack one of its letters:
      "lebron james" has no 't', "stephen curry" no 'a', "kevin durant" no
      'h', "luka doncic" no 't', "giannis antetokounmpo" no 'h' and
      "nikola jokic" no 't'. */
  lemma AnthonyNotFirstHalf(n: string, clues: string)
    requires n == "anthony" && clues == "tahtht"
    ensures forall i :: 0 <= i < 6 ==> !Matches(n, KNOWN_PLAYERS[i].0)
  {
    NoMatchAmong(n, KNOWN_PLAYERS, 0, clues);
  }

  /** Entries 6-11 likewise: "joel embiid" has no 'a', "jayson tatum",
      "ja morant" and "trae young" no 'h', "devin booker" no 'a' and
      "donovan mitchell" no 'y'. */
  lemma AnthonyNotSecondHalf(n: string, clues: string)
    requires n == "anthony" && clues == "ahhahy"
    ensures forall i :: 6 <= i < 12 ==> !Matches(n, KNOWN_PLAYERS[i].0)
  {
    NoMatchAmong(n, KNOWN_PLAYERS, 6, clues);
  }

  /** "anthony" is no entry's name. */
  lemma AnthonyNotAKey(n: string)
    requires n == "anthony"
    ensures forall k :: 0 <= k < |KNOWN_PLAYERS| ==> KNOWN_PLAYERS[k].0 != n
  {
  }

  /** "anthony davis" is the first entry that matches "anthony". */
  lemma AnthonyFirstMatch(n: string)
    requires n == "anthony"
    ensures IsFirstMatch(KNOWN_PLAYERS, n, 12)
  {
    AnthonyNotFirstHalf(n, "tahtht");
    AnthonyNotSecondHalf(n, "ahhahy");
    assert OccursAt(KNOWN_PLAYERS[12].0, n, 0);
  }

  /** "anthony" is already in normal form. */
  lemma AnthonyNormal(playerName: string)
    requires playerName == "anthony"
    ensures NormalizeName(playerName) == playerName
  {
    NormalizeOneWord(playerName);
  }

  /** "anthony" is no entry's name; the first entry that contains it is
      "anthony davis", ahead of "anthony edwards". */
  lemma ResolveAnthony(playerName: string)
    requires playerName == "anthony"
    ensures Resolve(KNOWN_PLAYERS, playerName) == Some(203076)
  {
    AnthonyNormal(playerName);
    AnthonyNotAKey(playerName);
    AnthonyFirstMatch(playerName);
    ResolvePartial(KNOWN_PLAYERS, playerName, 12);
    AnthonyDavisEntry();
  }

  /** The id stored with "anthony davis". */
  lemma AnthonyDavisEntry()
    ensures KNOWN_PLAYERS[12].1 == 203076
  {
  }

  // ---------------------------------------------------------------------------
  // "Nonexistent Player XYZ" -> null

  /** The three words joined by single spaces. */
  lemma UnwordsNonexistent(ws: seq<string>)
    requires ws == ["nonexistent", "player", "xyz"]
    ensures Unwords(ws) == "nonexistent player xyz"
  {
    UnwordsCons("player", ["xyz"]);
    assert ws[1..] == ["player"] + ["xyz"];
    UnwordsCons("nonexistent", ws[1..]);
    assert ws == ["nonexistent"] + ws[1..];
  }

  lemma NormalizeNonexistent(playerName: string, ws: seq<string>)
    requires playerName == "Nonexistent Player XYZ"
    requires ws == ["nonexistent", "player", "xyz"]
    ensures NormalizeName(playerName) == "nonexistent player xyz"
  {
    UnwordsNonexistent(ws);
    LowerCaseOf(playerName, Unwords(ws));
    WordsOfUnwords(ws);
    NormalizeNameIsUnwords(playerName);
  }

  // No entry matches "nonexistent player xyz", a few entries at a time. The
  // query has 22 characters; every entry but "shai gilgeous alexander" is
  // shorter, so its clue is a letter of the entry that the query lacks.

  /** "lebron james" has a 'b', "stephen curry" an 'h'. */
  lemma NonexistentNoMatchFrom0(n: string, clues: string)
    requires n == "nonexistent player xyz" && clues == "bh"
    ensures forall i :: 0 <= i < 2 ==> !Matches(n, KNOWN_PLAYERS[i].0)
  {
    NoMatchAmong(n, KNOWN_PLAYERS, 0, clues);
  }

  /** "kevin durant" has a 'k', "luka doncic" a 'u'. */
  lemma NonexistentNoMatchFrom2(n: string, clues: string)
    requires n == "nonexistent player xyz" && clues == "ku"
    ensures forall i :: 2 <= i < 4 ==> !Matches(n, KNOWN_PLAYERS[i].0)
  {
    NoMatchAmong(n, KNOWN_PLAYERS, 2, clues);
  }

  /** "giannis antetokounmpo" has a 'g'; "nikola jokic" a 'k'; "joel embiid"
      and "jayson tatum" a 'j'. */
  lemma NonexistentNoMatchFrom4(n: string, clues: string)
    requires n == "nonexistent player xyz" && clues == "gkjj"
    ensures forall i :: 4 <= i < 8 ==> !Matches(n, KNOWN_PLAYERS[i].0)
  {
    NoMatchAmong(n, KNOWN_PLAYERS, 4, clues);
  }

  /** "ja morant" has a 'j', "devin booker" a 'd', "trae young" a 'u',
      "donovan mitchell" a 'd'. */
  lemma NonexistentNoMatchFrom8(n: string, clues: string)
    requires n == "nonexistent player xyz" && clues == "jdud"
    ensures forall i :: 8 <= i < 12 ==> !Matches(n, KNOWN_PLAYERS[i].0)
  {
    NoMatchAmong(n, KNOWN_PLAYERS, 8, clues);
  }

  /** "anthony davis" has an 'h', "damian lillard" a 'd', "jimmy butler" a
      'j', "paul george" a 'u'. */
  lemma NonexistentNoMatchFrom12(n: string, clues: string)
    requires n == "nonexistent player xyz" && clues == "hdju"
    ensures forall i :: 12 <= i < 16 ==> !Matches(n, KNOWN_PLAYERS[i].0)
  {
    NoMatchAmong(n, KNOWN_PLAYERS, 12, clues);
  }

  /** "kawhi leonard" and "kyrie irving" have a 'k', "anthony edwards" an
      'h', "victor wembanyama" a 'v'; "shai gilgeous alexander" is the one
      entry longer than the query, and it lacks the query's 't'. */
  lemma NonexistentNoMatchFrom16(n: string, clues: string)
    requires n == "nonexistent player xyz" && clues == "kkhtv"
    ensures forall i :: 16 <= i < 21 ==> !Matches(n, KNOWN_PLAYERS[i].0)
  {
    NoMatchAmong(n, KNOWN_PLAYERS, 16, clues);
  }

  /** "Nonexistent Player XYZ" matches no entry even partially, so the result
      is `null`. */
  lemma ResolveUnknown(playerName: string)
    requires playerName == "Nonexistent Player XYZ"
    ensures Resolve(KNOWN_PLAYERS, playerName) == None
  {
    var n := "nonexistent player xyz";
    NormalizeNonexistent(playerName, ["nonexistent", "player", "xyz"]);
    NonexistentNoMatchFrom0(n, "bh");
    NonexistentNoMatchFrom2(n, "ku");
    NonexistentNoMatchFrom4(n, "gkjj");
    NonexistentNoMatchFrom8(n, "jdud");
    NonexistentNoMatchFrom12(n, "hdju");
    NonexistentNoMatchFrom16(n, "kkhtv");
    ResolveNull(KNOWN_PLAYERS, playerName);
  }
}
