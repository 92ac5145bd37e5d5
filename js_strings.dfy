/**
 * The JavaScript string operations that `normalizeName` and `findPlayerId` in
 * api/index.js rely on: `toLowerCase`, `trim`, `replace(/\s+/g, ' ')` and
 * `includes`, over ASCII characters.
 */
module JsStrings {

  /** Whitespace as `\s` and `trim` see it, restricted to ASCII: tab, line feed,
      vertical tab, form feed, carriage return (U+0009 to U+000D) and space. */
  predicate IsSpace(c: char) {
    c == ' ' || '\t' <= c <= '\r'
  }

  predicate IsUpper(c: char) {
    'A' <= c <= 'Z'
  }

  /** Every character of `s` is whitespace (the empty string included). */
  predicate AllSpace(s: string) {
    forall i :: 0 <= i < |s| ==> IsSpace(s[i])
  }

  /** No two whitespace characters of `s` stand next to each other. */
  ghost predicate NoAdjacentSpaces(s: string) {
    forall i, j :: 0 <= i < j < |s| && j == i + 1 ==> !(IsSpace(s[i]) && IsSpace(s[j]))
  }

  /** `s` has no whitespace character at all. */
  predicate NoSpace(s: string) {
    forall i :: 0 <= i < |s| ==> !IsSpace(s[i])
  }

  function LowerChar(c: char): (d: char)
    ensures !IsUpper(d)
    ensures IsSpace(d) == IsSpace(c)
    ensures !IsUpper(c) ==> d == c
  {
    if IsUpper(c) then (c as int - 'A' as int + 'a' as int) as char else c
  }

  /** `s.toLowerCase()`. */
  function ToLowerCase(s: string): (r: string)
    ensures |r| == |s|
    ensures forall i :: 0 <= i < |s| ==> r[i] == LowerChar(s[i])
  {
    if s == [] then [] else [LowerChar(s[0])] + ToLowerCase(s[1..])
  }

  /** A string without upper-case letters is its own lower-case form. */
  lemma LowerCaseFixed(s: string)
    requires forall i :: 0 <= i < |s| ==> !IsUpper(s[i])
    ensures ToLowerCase(s) == s
  {
    var r := ToLowerCase(s);
    assert forall i :: 0 <= i < |s| ==> r[i] == s[i];
  }

  /** The leading-whitespace half of `s.trim()`: what is left of `s` once its
      leading whitespace is dropped. */
  function TrimStart(s: string): (r: string)
    ensures |r| <= |s| && r == s[|s| - |r|..]
    ensures r == [] || !IsSpace(r[0])
    ensures AllSpace(s[..|s| - |r|])
  {
    if s != [] && IsSpace(s[0]) then TrimStart(s[1..]) else s
  }

  /** The trailing-whitespace half of `s.trim()`. */
  function TrimEnd(s: string): (r: string)
    ensures |r| <= |s| && r == s[..|r|]
    ensures r == [] || !IsSpace(r[|r| - 1])
    ensures AllSpace(s[|r|..])
  {
    if s != [] && IsSpace(s[|s| - 1]) then
      var init := s[..|s| - 1];
      var r := TrimEnd(init);
      assert s[|r|..] == init[|r|..] + [s[|s| - 1]];
      r
    else
      s
  }

  /** `r` is what is left of `s` once a whitespace prefix and a whitespace
      suffix are cut off. */
  ghost predicate IsMiddleOf(r: string, s: string) {
    exists i :: 0 <= i <= |s| - |r| && r == s[i..i + |r|] && AllSpace(s[..i]) && AllSpace(s[i + |r|..])
  }

  /** `s.trim()`: `s` without its leading and trailing whitespace. */
  function Trim(s: string): (r: string)
    ensures r == [] || (!IsSpace(r[0]) && !IsSpace(r[|r| - 1]))
    ensures r == [] <==> AllSpace(s)
    ensures IsMiddleOf(r, s)
  {
    var t := TrimStart(s);
    var r := TrimEnd(t);
    TrimBoth(s, t, r);
    r
  }

  /** What trimming the front and then the back of `s` leaves: a middle slice
      of `s` between whitespace, with no whitespace at its ends. */
  lemma TrimBoth(s: string, t: string, r: string)
    requires |t| <= |s| && t == s[|s| - |t|..] && AllSpace(s[..|s| - |t|])
    requires t == [] || !IsSpace(t[0])
    requires |r| <= |t| && r == t[..|r|] && AllSpace(t[|r|..])
    requires r == [] || !IsSpace(r[|r| - 1])
    ensures r == [] || (!IsSpace(r[0]) && !IsSpace(r[|r| - 1]))
    ensures r == [] <==> AllSpace(s)
    ensures IsMiddleOf(r, s)
  {
    var i := |s| - |t|;
    assert r == s[i..i + |r|] && s[i + |r|..] == t[|r|..];
    if r == [] {
      assert t == t[|r|..];
      assert s == s[..i] + t;
    } else {
      assert r[0] == t[0];
    }
  }

  /** Trimming removes characters only, so a string without upper-case
      letters keeps that property. */
  lemma TrimKeepsLowerCase(s: string)
    requires forall i :: 0 <= i < |s| ==> !IsUpper(s[i])
    ensures forall i :: 0 <= i < |Trim(s)| ==> !IsUpper(Trim(s)[i])
  {
    var t := TrimStart(s);
    var r := TrimEnd(t);
    assert Trim(s) == r;
    forall i | 0 <= i < |r|
      ensures !IsUpper(r[i])
    {
      assert r[i] == t[i] == s[|s| - |t| + i];
    }
  }

  /** `s.replace(/\s+/g, ' ')`: every maximal run of whitespace becomes one space. */
  function ReplaceSpaceRuns(s: string): string
    decreases |s|
  {
    if s == [] then []
    else if IsSpace(s[0]) then
      var t := TrimStart(s);
      assert |t| < |s|;
      " " + ReplaceSpaceRuns(t)
    else
      [s[0]] + ReplaceSpaceRuns(s[1..])
  }

  /** The replacement is empty only for the empty string, and keeps whether
      the first character is whitespace. */
  lemma ReplaceKeepsFirst(s: string)
    ensures var r := ReplaceSpaceRuns(s);
      && (r == [] <==> s == [])
      && (r != [] ==> IsSpace(r[0]) == IsSpace(s[0]))
  {
  }

  /** The replacement keeps whether the last character is whitespace. */
  lemma {:induction false} ReplaceKeepsLast(s: string)
    ensures var r := ReplaceSpaceRuns(s);
      r != [] ==> IsSpace(r[|r| - 1]) == IsSpace(s[|s| - 1])
    decreases |s|
  {
    if s != [] {
      var r := ReplaceSpaceRuns(s);
      var t := if IsSpace(s[0]) then TrimStart(s) else s[1..];
      var c := if IsSpace(s[0]) then ' ' else s[0];
      assert r == [c] + ReplaceSpaceRuns(t);
      if t == [] {
        assert r == [c];
        if IsSpace(s[0]) {
          assert AllSpace(s[..|s|]);
          assert s[..|s|][|s| - 1] == s[|s| - 1];
        } else {
          assert |s| == 1;
        }
      } else {
        ReplaceKeepsFirst(t);
        ReplaceKeepsLast(t);
        assert r[|r| - 1] == ReplaceSpaceRuns(t)[|ReplaceSpaceRuns(t)| - 1];
        assert s[|s| - 1] == t[|t| - 1];
      }
    }
  }

  /** After the replacement every whitespace character is a plain space. */
  lemma {:induction false} ReplacedSpacesArePlain(s: string)
    ensures var r := ReplaceSpaceRuns(s);
      forall i :: 0 <= i < |r| && IsSpace(r[i]) ==> r[i] == ' '
    decreases |s|
  {
    if s == [] {
    } else if IsSpace(s[0]) {
      var t := TrimStart(s);
      ReplacedSpacesArePlain(t);
      assert ReplaceSpaceRuns(s) == " " + ReplaceSpaceRuns(t);
    } else {
      ReplacedSpacesArePlain(s[1..]);
      assert ReplaceSpaceRuns(s) == [s[0]] + ReplaceSpaceRuns(s[1..]);
    }
  }

  /** After the replacement no two whitespace characters are adjacent. */
  lemma {:induction false} ReplacedSpacesAreSingle(s: string)
    ensures var r := ReplaceSpaceRuns(s);
      NoAdjacentSpaces(r)
    decreases |s|
  {
    if s == [] {
    } else if IsSpace(s[0]) {
      var t := TrimStart(s);
      ReplacedSpacesAreSingle(t);
      assert ReplaceSpaceRuns(s) == " " + ReplaceSpaceRuns(t);
    } else {
      ReplacedSpacesAreSingle(s[1..]);
      assert ReplaceSpaceRuns(s) == [s[0]] + ReplaceSpaceRuns(s[1..]);
    }
  }

  /** The replacement introduces no upper-case letter. */
  lemma {:induction false} ReplacedKeepsLowerCase(s: string)
    requires forall i :: 0 <= i < |s| ==> !IsUpper(s[i])
    ensures var r := ReplaceSpaceRuns(s);
      forall i :: 0 <= i < |r| ==> !IsUpper(r[i])
    decreases |s|
  {
    if s == [] {
    } else if IsSpace(s[0]) {
      var t := TrimStart(s);
      ReplacedKeepsLowerCase(t);
      assert ReplaceSpaceRuns(s) == " " + ReplaceSpaceRuns(t);
    } else {
      ReplacedKeepsLowerCase(s[1..]);
      assert ReplaceSpaceRuns(s) == [s[0]] + ReplaceSpaceRuns(s[1..]);
    }
  }

  /** Trailing whitespace is only looked for after the last non-whitespace character. */
  lemma {:induction false} TrimEndAppend(a: string, b: string)
    requires !AllSpace(b)
    ensures TrimEnd(a + b) == a + TrimEnd(b)
    decreases |b|
  {
    if IsSpace(b[|b| - 1]) {
      var b' := b[..|b| - 1];
      assert (a + b)[..|a + b| - 1] == a + b';
      TrimEndAppend(a, b');
    }
  }

  /** Whitespace appended to a string is trimmed away again. */
  lemma {:induction false} TrimEndSpaceSuffix(a: string, b: string)
    requires AllSpace(b)
    ensures TrimEnd(a + b) == TrimEnd(a)
    decreases |b|
  {
    if b != [] {
      var b' := b[..|b| - 1];
      assert (a + b)[..|a + b| - 1] == a + b';
      TrimEndSpaceSuffix(a, b');
    } else {
      assert a + b == a;
    }
  }

  /** Leading whitespace in front of a non-whitespace character is trimmed exactly. */
  lemma {:induction false} TrimStartSpacePrefix(p: string, y: string)
    requires AllSpace(p)
    requires y == [] || !IsSpace(y[0])
    ensures TrimStart(p + y) == y
    decreases |p|
  {
    if p != [] {
      assert (p + y)[1..] == p[1..] + y;
      TrimStartSpacePrefix(p[1..], y);
    } else {
      assert p + y == y;
    }
  }

  /** A character other than whitespace passes through the replacement unchanged. */
  lemma ReplaceAfterChar(c: char, z: string)
    requires !IsSpace(c)
    ensures ReplaceSpaceRuns([c] + z) == [c] + ReplaceSpaceRuns(z)
  {
    var x := [c] + z;
    assert x[0] == c && x[1..] == z;
  }

  /** Characters other than whitespace pass through the replacement unchanged. */
  lemma {:induction false} ReplaceAfterWord(w: string, z: string)
    requires NoSpace(w)
    ensures ReplaceSpaceRuns(w + z) == w + ReplaceSpaceRuns(z)
    decreases |w|
  {
    if w != [] {
      var v := w[1..];
      assert NoSpace(v) by { assert forall i :: 0 <= i < |v| ==> v[i] == w[i + 1]; }
      assert w + z == [w[0]] + (v + z);
      ReplaceAfterChar(w[0], v + z);
      ReplaceAfterWord(v, z);
      assert w == [w[0]] + v;
    } else {
      assert w + z == z;
    }
  }

  /** A non-empty run of whitespace in front of a non-whitespace character becomes one space. */
  lemma ReplaceAfterSpaces(p: string, y: string)
    requires p != [] && AllSpace(p)
    requires y == [] || !IsSpace(y[0])
    ensures ReplaceSpaceRuns(p + y) == " " + ReplaceSpaceRuns(y)
  {
    TrimStartSpacePrefix(p, y);
  }

  /** `sub` occurs in `s` starting at index `i`. */
  predicate OccursAt(s: string, sub: string, i: nat) {
    i + |sub| <= |s| && s[i..i + |sub|] == sub
  }

  /** `s.includes(sub)`: `sub` occurs in `s` as a contiguous block. */
  predicate Includes(s: string, sub: string) {
    exists i | 0 <= i <= |s| - |sub| :: OccursAt(s, sub, i)
  }

  /** Every string contains itself. */
  lemma IncludesItself(s: string)
    ensures Includes(s, s)
  {
    assert OccursAt(s, s, 0);
  }

  /** Every string contains the empty string. */
  lemma IncludesEmpty(s: string)
    ensures Includes(s, [])
  {
    assert OccursAt(s, [], 0);
  }

  /** A block that holds a character missing from `s` cannot occur in `s`. */
  lemma NotIncludedByChar(s: string, sub: string, c: char)
    requires c in sub && c !in s
    ensures !Includes(s, sub)
  {
  }
}
