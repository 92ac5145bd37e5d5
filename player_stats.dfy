/**
 * `get_player_stats` in api/player-stats.py: a lookup of a player's game log
 * memoised in the module-level dictionary `cache`. The key is built from the
 * arguments; on a hit the stored list is returned; on a miss the game log is
 * fetched, projected to nine columns, stored and returned.
 *
 * The fetch (`PlayerGameLog(...).get_data_frames()[0]`) is a call into a
 * foreign library over the network; it is an `Upstream` object whose answers
 * are a parameter of the model. Cell values are of an arbitrary type `V`.
 */
module PlayerStats {
  import opened Wrappers

  // ---------------------------------------------------------------------------
  // The cache key: f"{player_id}_{season}_{season_type}"

  function DigitChar(d: nat): (c: char)
    requires d < 10
    ensures '0' <= c <= '9'
  {
    ('0' as int + d) as char
  }

  predicate IsDigit(c: char) {
    '0' <= c <= '9'
  }

  /** The decimal digits of `n`, most significant first, without leading zeros. */
  function NatDecimal(n: nat): (s: string)
    ensures s != [] && forall i :: 0 <= i < |s| ==> IsDigit(s[i])
    ensures |s| == 1 || s[0] != '0'
    decreases n
  {
    if n < 10 then [DigitChar(n)] else NatDecimal(n / 10) + [DigitChar(n % 10)]
  }

  /** `str(n)` for a Python `int`: a minus sign for a negative number, then
      the digits of its magnitude. */
  function Decimal(n: int): string {
    if n < 0 then "-" + NatDecimal(-n) else NatDecimal(n)
  }

  function DigitValue(c: char): nat
    requires IsDigit(c)
  {
    c as int - '0' as int
  }

  /** The number a string of decimal digits denotes. */
  function DigitsValue(s: string): nat
    requires forall i :: 0 <= i < |s| ==> IsDigit(s[i])
    decreases |s|
  {
    if s == [] then 0
    else
      var n := |s| - 1;
      DigitsValue(s[..n]) * 10 + DigitValue(s[n])
  }

  /** Reading the digits back gives the number: `NatDecimal` loses nothing. */
  lemma {:induction false} NatDecimalValue(n: nat)
    ensures DigitsValue(NatDecimal(n)) == n
    decreases n
  {
    if n >= 10 {
      var front := NatDecimal(n / 10);
      var s := NatDecimal(n);
      assert s == front + [DigitChar(n % 10)];
      assert s[..|s| - 1] == front;
      NatDecimalValue(n / 10);
    }
  }

  /** A decimal form starts with a minus sign exactly when the number is negative. */
  lemma DecimalSign(n: int)
    ensures Decimal(n) != [] && (Decimal(n)[0] == '-' <==> n < 0)
  {
    if n >= 0 {
      assert IsDigit(NatDecimal(n)[0]);
    }
  }

  /** Distinct numbers have distinct decimal forms. */
  lemma DecimalInjective(a: int, b: int)
    requires Decimal(a) == Decimal(b)
    ensures a == b
  {
    DecimalSign(a);
    DecimalSign(b);
    if a < 0 && b < 0 {
      assert NatDecimal(-a) == Decimal(a)[1..];
      assert NatDecimal(-b) == Decimal(b)[1..];
      NatDecimalValue(-a);
      NatDecimalValue(-b);
    } else if a >= 0 && b >= 0 {
      NatDecimalValue(a);
      NatDecimalValue(b);
    }
  }

  /** A decimal form holds no underscore. */
  lemma DecimalHasNoUnderscore(n: int)
    ensures '_' !in Decimal(n)
  {
    var s := NatDecimal(if n < 0 then -n else n);
    assert forall i :: 0 <= i < |s| ==> s[i] != '_';
  }

  /** Line 17: the key under which the stats of one request are cached. */
  function CacheKey(playerId: int, season: string, seasonType: string): string {
    Decimal(playerId) + "_" + season + "_" + seasonType
  }

  /** Splitting at the first underscore: the part before it holds none. */
  lemma SplitAtUnderscore(x: string, y: string, x': string, y': string)
    requires '_' !in x && '_' !in x'
    requires x + "_" + y == x' + "_" + y'
    ensures x == x' && y == y'
  {
    var k, k' := x + "_" + y, x' + "_" + y';
    FirstUnderscore(x, y);
    FirstUnderscore(x', y');
    assert |x| == |x'|;
    assert x == k[..|x|] && x' == k'[..|x|];
    assert y == k[|x| + 1..] && y' == k'[|x| + 1..];
  }

  /** In `x + "_" + y` with no underscore in `x`, the first underscore is at `|x|`. */
  lemma FirstUnderscore(x: string, y: string)
    requires '_' !in x
    ensures var k := x + "_" + y;
      |x| < |k| && k[|x|] == '_' && forall i :: 0 <= i < |x| ==> k[i] != '_'
  {
    var k := x + "_" + y;
    assert forall i :: 0 <= i < |x| ==> k[i] == x[i];
  }

  /** The key tells requests apart as long as the season holds no underscore
      (seasons are written like "2023-24"). */
  lemma CacheKeyInjective(id: int, season: string, seasonType: string,
                          id': int, season': string, seasonType': string)
    requires '_' !in season && '_' !in season'
    requires CacheKey(id, season, seasonType) == CacheKey(id', season', seasonType')
    ensures id == id' && season == season' && seasonType == seasonType'
  {
    DecimalHasNoUnderscore(id);
    DecimalHasNoUnderscore(id');
    var d, d' := Decimal(id), Decimal(id');
    assert d + "_" + season + "_" + seasonType == d + "_" + (season + "_" + seasonType);
    assert d' + "_" + season' + "_" + seasonType' == d' + "_" + (season' + "_" + seasonType');
    SplitAtUnderscore(d, season + "_" + seasonType, d', season' + "_" + seasonType');
    SplitAtUnderscore(season, seasonType, season', seasonType');
    DecimalInjective(id, id');
  }

  /** Without that condition two different requests can share a key. */
  lemma CacheKeyCollision()
    ensures CacheKey(1, "2023_24", "Playoffs") == CacheKey(1, "2023", "24_Playoffs")
  {
    assert Decimal(1) == "1";
  }

  /** The decimal form of Joel Embiid's id. */
  lemma DecimalExample(n: int)
    requires n == 203954
    ensures Decimal(n) == "203954"
  {
    DigitsStep(20, "2", '0');
    DigitsStep(203, "20", '3');
    DigitsStep(2039, "203", '9');
    DigitsStep(20395, "2039", '5');
    DigitsStep(203954, "20395", '4');
  }

  /** One more digit at the end. */
  lemma DigitsStep(n: nat, front: string, last: char)
    requires n >= 10 && NatDecimal(n / 10) == front && last == DigitChar(n % 10)
    ensures NatDecimal(n) == front + [last]
  {
  }

  /** The key of the request the HTTP handler makes for Joel Embiid. */
  lemma CacheKeyExample(playerId: int, season: string, seasonType: string)
    requires playerId == 203954 && season == "2023-24" && seasonType == "Regular Season"
    ensures CacheKey(playerId, season, seasonType) == "203954_2023-24_Regular Season"
  {
    DecimalExample(playerId);
  }

  // ---------------------------------------------------------------------------
  // The projection: gamelog_df[[...]].to_dict(orient='records')

  /** The nine columns that are kept, in the order they are selected. */
  const STAT_COLUMNS: seq<string> := ["GAME_DATE", "MATCHUP", "PTS", "REB", "AST", "BLK", "STL", "MIN", "WL"]

  /** One element of the list `to_dict(orient='records')` returns: column name
      to cell. */
  type StatRecord<V> = map<string, V>

  /** A pandas data frame: its column labels and its rows of cells. */
  datatype RawFrame<V> = RawFrame(columns: seq<string>, rows: seq<seq<V>>)

  /** Column labels are distinct and every row has one cell per column. */
  predicate WellFormedFrame<V>(f: RawFrame<V>) {
    && (forall i, j :: 0 <= i < j < |f.columns| ==> f.columns[i] != f.columns[j])
    && (forall r :: 0 <= r < |f.rows| ==> |f.rows[r]| == |f.columns|)
  }

  type Frame<V> = f: RawFrame<V> | WellFormedFrame(f) witness RawFrame([], [])

  /** Why a lookup raises instead of returning stats. */
  datatype StatsError =
    | UpstreamFailed     // the request to the statistics service raised
    | MissingColumns     // `df[[...]]` raised KeyError: a selected column is absent

  /** The position of the label `c` among the columns. */
  function ColumnIndex(columns: seq<string>, c: string): (i: nat)
    requires c in columns
    ensures i < |columns| && columns[i] == c
  {
    if columns[0] == c then 0
    else
      assert c in columns[1..] by {
        var k :| 0 <= k < |columns| && columns[k] == c;
        assert columns[1..][k - 1] == c;
      }
      1 + ColumnIndex(columns[1..], c)
  }

  /** The record of one row restricted to the columns `cols`. */
  function RowStats<V>(f: Frame<V>, cols: seq<string>, r: nat): StatRecord<V>
    requires r < |f.rows|
    requires forall c :: c in cols ==> c in f.columns
  {
    map c | c in cols :: f.rows[r][ColumnIndex(f.columns, c)]
  }

  /** `f[cols].to_dict(orient='records')`: KeyError when a selected column is
      absent, otherwise one record per row, in row order. */
  function Project<V>(f: Frame<V>, cols: seq<string>): Result<seq<StatRecord<V>>, StatsError> {
    if forall c :: c in cols ==> c in f.columns then
      Success(seq(|f.rows|, r requires 0 <= r < |f.rows| => RowStats(f, cols, r)))
    else
      Failure(MissingColumns)
  }

  /** The projection fails exactly when a selected column is absent; otherwise
      it keeps the row order and every record has exactly the selected columns
      as keys, each with the row's cell in that column. */
  lemma ProjectSpec<V>(f: Frame<V>, cols: seq<string>)
    ensures Project(f, cols).Failure? <==> exists c :: c in cols && c !in f.columns
    ensures Project(f, cols).Success? ==>
      var recs := Project(f, cols).value;
      && |recs| == |f.rows|
      && forall r :: 0 <= r < |f.rows| ==>
           && recs[r].Keys == (set c | c in cols)
           && forall j :: 0 <= j < |f.columns| && f.columns[j] in cols ==>
                recs[r][f.columns[j]] == f.rows[r][j]
  {
    if Project(f, cols).Success? {
      var recs := Project(f, cols).value;
      forall r, j | 0 <= r < |f.rows| && 0 <= j < |f.columns| && f.columns[j] in cols
        ensures recs[r][f.columns[j]] == f.rows[r][j]
      {
        var i := ColumnIndex(f.columns, f.columns[j]);
        assert i == j;
      }
    }
  }

  /** The keys of every record `get_player_stats` hands out. */
  function StatKeys(): set<string> {
    set c | c in STAT_COLUMNS
  }

  /** A list of records each of which has exactly the nine stat keys. */
  predicate HasStatKeys<V>(recs: seq<StatRecord<V>>) {
    forall r :: 0 <= r < |recs| ==> recs[r].Keys == StatKeys()
  }

  /** A successful projection to the stat columns has the nine stat keys. */
  lemma ProjectStatKeys<V>(f: Frame<V>)
    requires Project(f, STAT_COLUMNS).Success?
    ensures HasStatKeys(Project(f, STAT_COLUMNS).value)
  {
    ProjectSpec(f, STAT_COLUMNS);
  }

  // ---------------------------------------------------------------------------
  // The upstream service and the cache

  /** The arguments of one request to the statistics service. */
  datatype Query = Query(playerId: int, season: string, seasonType: string)

  /** `playergamelog.PlayerGameLog(...).get_data_frames()[0]`: the service's
      answer to the `n`-th request (counting from 0) is `respond(n, q)`, so the
      same query may be answered differently over time; `requests` is the log
      of the queries sent so far. */
  class Upstream<V> {
    const respond: (nat, Query) -> Result<Frame<V>, StatsError>
    var requests: seq<Query>

    constructor(respond: (nat, Query) -> Result<Frame<V>, StatsError>)
      ensures this.respond == respond && requests == []
    {
      this.respond := respond;
      requests := [];
    }

    /** Sends one request. */
    method Fetch(q: Query) returns (r: Result<Frame<V>, StatsError>)
      modifies this
      ensures requests == old(requests) + [q]
      ensures r == respond(|old(requests)|, q)
    {
      r := respond(|requests|, q);
      requests := requests + [q];
    }
  }

  /** What a miss computes from the service's answer. */
  function StatsOf<V>(answer: Result<Frame<V>, StatsError>): Result<seq<StatRecord<V>>, StatsError> {
    if answer.Failure? then Failure(answer.error) else Project(answer.value, STAT_COLUMNS)
  }

  /** The module-level dictionary `cache` with `get_player_stats`. */
  class StatsCache<V> {
    var entries: map<string, seq<StatRecord<V>>>

    /** Only `get_player_stats` writes the cache, and it stores projections to
        the stat columns. */
    predicate Valid()
      reads this
    {
      forall key :: key in entries ==> HasStatKeys(entries[key])
    }

    /** `cache = {}`. */
    constructor()
      ensures entries == map[] && Valid()
    {
      entries := map[];
    }

    /** `get_player_stats(player_id, season, season_type)`. A hit returns the
        stored list and sends no request; a miss sends exactly one request,
        and a successful answer is stored under the key and returned. Nothing
        is ever removed, no other key changes, and every list handed out has
        the nine stat keys in each record. */
    method GetPlayerStats(up: Upstream<V>, playerId: int, season: string, seasonType: string)
      returns (r: Result<seq<StatRecord<V>>, StatsError>)
      requires Valid()
      modifies this, up
      ensures Valid()
      ensures var key := CacheKey(playerId, season, seasonType);
        if key in old(entries) then
          && r == Success(old(entries)[key])
          && entries == old(entries)
          && up.requests == old(up.requests)
        else
          && up.requests == old(up.requests) + [Query(playerId, season, seasonType)]
          && r == StatsOf(up.respond(|old(up.requests)|, Query(playerId, season, seasonType)))
          && entries == (if r.Success? then old(entries)[key := r.value] else old(entries))
      ensures r.Success? ==> HasStatKeys(r.value)
      ensures r.Success? ==>
                (CacheKey(playerId, season, seasonType) in entries &&
                 entries[CacheKey(playerId, season, seasonType)] == r.value)
      ensures old(entries).Keys <= entries.Keys
      ensures forall key :: key in old(entries) && key != CacheKey(playerId, season, seasonType) ==>
                key in entries && entries[key] == old(entries)[key]
    {
      var cacheKey := CacheKey(playerId, season, seasonType);
      if cacheKey in entries {
        return Success(entries[cacheKey]);
      }
      var answer := up.Fetch(Query(playerId, season, seasonType));
      if answer.Failure? {
        return Failure(answer.error);
      }
      var stats := Project(answer.value, STAT_COLUMNS);
      if stats.Failure? {
        return stats;
      }
      ProjectStatKeys(answer.value);
      entries := entries[cacheKey := stats.value];
      return stats;
    }
  }

  /** Two calls with the same arguments. `between` is the request log after
      the first call. When the first call succeeds, the second returns the
      same list and sends no request of its own, and the list stays stored
      under the key. */
  method CallTwice<V>(cache: StatsCache<V>, up: Upstream<V>, playerId: int, season: string, seasonType: string)
    returns (first: Result<seq<StatRecord<V>>, StatsError>, second: Result<seq<StatRecord<V>>, StatsError>,
             ghost between: seq<Query>)
    requires cache.Valid()
    modifies cache, up
    ensures cache.Valid()
    ensures between == old(up.requests) || between == old(up.requests) + [Query(playerId, season, seasonType)]
    ensures first.Success? ==> second == first && up.requests == between
    ensures first.Success? ==>
              (CacheKey(playerId, season, seasonType) in cache.entries &&
               cache.entries[CacheKey(playerId, season, seasonType)] == first.value)
  {
    first := cache.GetPlayerStats(up, playerId, season, seasonType);
    between := up.requests;
    second := cache.GetPlayerStats(up, playerId, season, seasonType);
  }
}
