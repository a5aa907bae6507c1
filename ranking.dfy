/**
 * The ranking store (`save_ranking`, `get_top_rankings`): the `rankings`
 * table keyed by video ID, held as a map. The store operations are an
 * insert-or-overwrite by key and a read of the highest fire scores.
 */
module Ranking {

  /** The columns of a table row other than its key. */
  datatype Record = Record(title: string, fireScore: real)

  /** A row as the leaderboard read returns it. */
  datatype RankingRow = RankingRow(videoId: string, title: string, fireScore: real)

  /** How many rows the leaderboard read returns at most (`LIMIT 10`). */
  const TopLimit: nat := 10

  /**
   * Insert-or-overwrite: afterwards the key holds exactly the new title and
   * score, and every other key is as before.
   */
  function Upsert(table: map<string, Record>, videoId: string, title: string, score: real): (t: map<string, Record>)
    ensures videoId in t && t[videoId] == Record(title, score)
    ensures forall k :: k != videoId ==> (k in t <==> k in table)
    ensures forall k :: k != videoId && k in table ==> t[k] == table[k]
    ensures |t| == if videoId in table then |table| else |table| + 1
  {
    var t := table[videoId := Record(title, score)];
    assert t.Keys == table.Keys + {videoId};
    t
  }

  /** A second upsert of the same key leaves only the second title and score. */
  lemma UpsertLastWriteWins(table: map<string, Record>, videoId: string, t1: string, s1: real, t2: string, s2: real)
    ensures Upsert(Upsert(table, videoId, t1, s1), videoId, t2, s2) == Upsert(table, videoId, t2, s2)
  {
  }

  /** Repeating an upsert changes nothing. */
  lemma UpsertIdempotent(table: map<string, Record>, videoId: string, title: string, score: real)
    ensures Upsert(Upsert(table, videoId, title, score), videoId, title, score) == Upsert(table, videoId, title, score)
  {
  }

  /** The keys of the returned rows. */
  function Ids(rows: seq<RankingRow>): set<string>
  {
    set i | 0 <= i < |rows| :: rows[i].videoId
  }

  /** Fire scores do not increase along the rows. */
  predicate SortedByScore(rows: seq<RankingRow>)
  {
    forall i, j :: 0 <= i < j < |rows| ==> rows[j].fireScore <= rows[i].fireScore
  }

  /**
   * `rows` is an answer of `ORDER BY fire_score DESC LIMIT n` over `table`:
   * min(n, |table|) distinct rows of the table, by non-increasing score,
   * with no row left out scoring above a returned one. Ties are in no
   * particular order.
   */
  ghost predicate IsTopRanking(table: map<string, Record>, n: nat, rows: seq<RankingRow>)
  {
    && |rows| == (if n < |table| then n else |table|)
    && SortedByScore(rows)
    && (forall i :: 0 <= i < |rows| ==>
          rows[i].videoId in table && table[rows[i].videoId] == Record(rows[i].title, rows[i].fireScore))
    && (forall i, j :: 0 <= i < j < |rows| ==> rows[i].videoId != rows[j].videoId)
    && (forall k, i :: k in table && k !in Ids(rows) && 0 <= i < |rows| ==> table[k].fireScore <= rows[i].fireScore)
  }

  /** A key of `keys` whose score is highest. */
  method HighestScore(table: map<string, Record>, keys: set<string>) returns (best: string)
    requires keys != {} && keys <= table.Keys
    ensures best in keys
    ensures forall k :: k in keys ==> table[k].fireScore <= table[best].fireScore
  {
    best :| best in keys;
    var rest := keys - {best};
    while rest != {}
      invariant rest <= keys && best in keys
      invariant forall k :: k in keys && k !in rest ==> table[k].fireScore <= table[best].fireScore
      decreases rest
    {
      var k :| k in rest;
      if table[best].fireScore < table[k].fireScore {
        best := k;
      }
      rest := rest - {k};
    }
  }

  /**
   * Selection in progress: `rows` is the top of `table` taken so far and
   * `remaining` holds the keys not yet taken, none scoring above a row.
   */
  ghost predicate PartialTop(table: map<string, Record>, rows: seq<RankingRow>, remaining: set<string>)
  {
    && remaining <= table.Keys
    && Ids(rows) !! remaining && Ids(rows) + remaining == table.Keys
    && |rows| + |remaining| == |table|
    && SortedByScore(rows)
    && (forall i :: 0 <= i < |rows| ==>
          rows[i].videoId in table && table[rows[i].videoId] == Record(rows[i].title, rows[i].fireScore))
    && (forall i, j :: 0 <= i < j < |rows| ==> rows[i].videoId != rows[j].videoId)
    && (forall k, i :: k in remaining && 0 <= i < |rows| ==> table[k].fireScore <= rows[i].fireScore)
  }

  /** Appending a row adds its key to the keys of the rows. */
  lemma IdsAppend(rows: seq<RankingRow>, row: RankingRow)
    ensures Ids(rows + [row]) == Ids(rows) + {row.videoId}
  {
    var rows' := rows + [row];
    assert forall i :: 0 <= i < |rows| ==> rows'[i] == rows[i];
    assert rows'[|rows|] == row;
  }

  /** Appending a row scoring at most every row keeps the rows sorted. */
  lemma SortedAppend(rows: seq<RankingRow>, row: RankingRow)
    requires SortedByScore(rows)
    requires forall i :: 0 <= i < |rows| ==> row.fireScore <= rows[i].fireScore
    ensures SortedByScore(rows + [row])
  {
    var rows' := rows + [row];
    forall i, j | 0 <= i < j < |rows'| ensures rows'[j].fireScore <= rows'[i].fireScore {
      assert rows'[i] == rows[i];
    }
  }

  /** Appending a row with a new key keeps the keys distinct. */
  lemma DistinctAppend(rows: seq<RankingRow>, row: RankingRow)
    requires forall i, j :: 0 <= i < j < |rows| ==> rows[i].videoId != rows[j].videoId
    requires row.videoId !in Ids(rows)
    ensures forall i, j :: 0 <= i < j < |rows + [row]| ==> (rows + [row])[i].videoId != (rows + [row])[j].videoId
  {
    var rows' := rows + [row];
    forall i, j | 0 <= i < j < |rows'| ensures rows'[i].videoId != rows'[j].videoId {
      assert rows'[i] == rows[i];
      assert rows[i].videoId in Ids(rows);
    }
  }

  /** Taking the best remaining key keeps the selection a partial top. */
  lemma PartialTopStep(table: map<string, Record>, rows: seq<RankingRow>, remaining: set<string>, best: string)
    requires PartialTop(table, rows, remaining)
    requires best in remaining
    requires forall k :: k in remaining ==> table[k].fireScore <= table[best].fireScore
    ensures PartialTop(table, rows + [RankingRow(best, table[best].title, table[best].fireScore)], remaining - {best})
  {
    var row := RankingRow(best, table[best].title, table[best].fireScore);
    var rows' := rows + [row];
    var rest := remaining - {best};
    IdsAppend(rows, row);
    SortedAppend(rows, row);
    DistinctAppend(rows, row);
    assert |rest| == |remaining| - 1;
    RowsFromTableAppend(table, rows, row);
    BelowRowsAppend(table, rows, row, rest);
  }

  /** Appending a row of the table keeps every row a row of the table. */
  lemma RowsFromTableAppend(table: map<string, Record>, rows: seq<RankingRow>, row: RankingRow)
    requires forall i :: 0 <= i < |rows| ==>
      rows[i].videoId in table && table[rows[i].videoId] == Record(rows[i].title, rows[i].fireScore)
    requires row.videoId in table && table[row.videoId] == Record(row.title, row.fireScore)
    ensures forall i :: 0 <= i < |rows + [row]| ==>
      (rows + [row])[i].videoId in table && table[(rows + [row])[i].videoId] == Record((rows + [row])[i].title, (rows + [row])[i].fireScore)
  {
    var rows' := rows + [row];
    assert forall i :: 0 <= i < |rows| ==> rows'[i] == rows[i];
  }

  /** Keys scoring at most every row and at most the new row score at most every row after it is appended. */
  lemma BelowRowsAppend(table: map<string, Record>, rows: seq<RankingRow>, row: RankingRow, rest: set<string>)
    requires rest <= table.Keys
    requires forall k, i :: k in rest && 0 <= i < |rows| ==> table[k].fireScore <= rows[i].fireScore
    requires forall k :: k in rest ==> table[k].fireScore <= row.fireScore
    ensures forall k, i :: k in rest && 0 <= i < |rows + [row]| ==> table[k].fireScore <= (rows + [row])[i].fireScore
  {
    var rows' := rows + [row];
    assert forall i :: 0 <= i < |rows| ==> rows'[i] == rows[i];
  }

  /** A partial top that is full or has nothing left is an answer of the query. */
  lemma PartialTopDone(table: map<string, Record>, n: nat, rows: seq<RankingRow>, remaining: set<string>)
    requires PartialTop(table, rows, remaining)
    requires |rows| <= n
    requires |rows| == n || remaining == {}
    ensures IsTopRanking(table, n, rows)
  {
    assert |table| == |table.Keys|;
  }

  /** The `rankings` table. */
  class RankingStore {
    var table: map<string, Record>

    constructor ()
      ensures table == map[]
    {
      table := map[];
    }

    /** `INSERT ... ON CONFLICT (video_id) DO UPDATE`. */
    method SaveRanking(videoId: string, title: string, score: real)
      modifies this
      ensures table == Upsert(old(table), videoId, title, score)
    {
      table := Upsert(table, videoId, title, score);
    }

    /** `SELECT ... ORDER BY fire_score DESC LIMIT 10`, by repeated selection of the best remaining key. */
    method GetTopRankings() returns (rows: seq<RankingRow>)
      ensures IsTopRanking(table, TopLimit, rows)
      ensures |rows| <= TopLimit && SortedByScore(rows)
    {
      rows := [];
      var remaining := table.Keys;
      assert Ids(rows) == {};
      while |rows| < TopLimit && remaining != {}
        invariant PartialTop(table, rows, remaining)
        invariant |rows| <= TopLimit
        decreases remaining
      {
        var best := HighestScore(table, remaining);
        PartialTopStep(table, rows, remaining, best);
        rows := rows + [RankingRow(best, table[best].title, table[best].fireScore)];
        remaining := remaining - {best};
      }
      PartialTopDone(table, TopLimit, rows, remaining);
    }
  }
}
