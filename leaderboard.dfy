/**
 * The `leaderboard(id, username, score)` table as an ordered list of rows:
 * the upsert `submit_quiz` performs and the top-ten query of
 * `get_leaderboard`.
 */
module Leaderboard {
  import opened Wrappers

  /** One row of the table. `username` carries an index but no uniqueness
      constraint, so several rows may share a name. */
  datatype Row = Row(id: int, username: string, score: int)

  /** One `{"username", "score"}` entry of the query result. */
  datatype Standing = Standing(username: string, score: int)

  /** `limit(10)`. */
  const TopCount := 10

  // ---------------------------------------------------------------------
  // Upsert
  // ---------------------------------------------------------------------

  /** `db.query(Leaderboard).filter(Leaderboard.username == u).first()`: the
      position of the first row, in table order, that carries the name. */
  function FirstRow(rows: seq<Row>, user: string): (r: Option<nat>)
    ensures r.Some? ==> r.value < |rows| && rows[r.value].username == user
    ensures r.Some? ==> forall j :: 0 <= j < r.value ==> rows[j].username != user
    ensures r.None? ==> forall j :: 0 <= j < |rows| ==> rows[j].username != user
  {
    if rows == [] then None
    else if rows[0].username == user then Some(0)
    else
      match FirstRow(rows[1..], user)
      case Some(k) => Some(k + 1)
      case None => None
  }

  /** The score the table reports for a name: that of its first row. */
  function ScoreOf(rows: seq<Row>, user: string): Option<int> {
    match FirstRow(rows, user)
    case Some(k) => Some(rows[k].score)
    case None => None
  }

  /** The key the database gives an inserted row: one more than the largest
      key in use, or 1 for an empty table. */
  function NextId(rows: seq<Row>): (id: int)
    ensures forall j :: 0 <= j < |rows| ==> rows[j].id < id
  {
    if rows == [] then 1
    else
      var rest := NextId(rows[1..]);
      if rows[0].id + 1 > rest then rows[0].id + 1 else rest
  }

  /** The write of `submit_quiz`: the first row with the name gets the new
      score, whatever its old one was; without such a row one new row is
      appended. */
  function Upsert(rows: seq<Row>, user: string, score: int): (r: seq<Row>)
    ensures ScoreOf(r, user) == Some(score)
    ensures FirstRow(rows, user).Some? ==> |r| == |rows|
    ensures FirstRow(rows, user).None? ==>
              |r| == |rows| + 1 && r[|rows|].username == user && r[|rows|].score == score
              && forall j :: 0 <= j < |rows| ==> r[j].id != r[|rows|].id
    ensures forall j :: 0 <= j < |rows| && FirstRow(rows, user) != Some(j) ==> r[j] == rows[j]
    ensures forall j :: 0 <= j < |rows| ==> r[j].id == rows[j].id && r[j].username == rows[j].username
  {
    match FirstRow(rows, user)
    case Some(k) =>
      var r := rows[k := rows[k].(score := score)];
      assert FirstRow(r, user) == Some(k) by {
        FirstRowSameNames(rows, r, user);
      }
      r
    case None =>
      var r := rows + [Row(NextId(rows), user, score)];
      assert FirstRow(r, user) == Some(|rows|) by {
        FirstRowAppend(rows, r[|rows|], user);
      }
      r
  }

  /** The first row with a name depends only on the names, in order. */
  lemma {:induction false} FirstRowSameNames(a: seq<Row>, b: seq<Row>, user: string)
    requires |a| == |b|
    requires forall j :: 0 <= j < |a| ==> a[j].username == b[j].username
    ensures FirstRow(a, user) == FirstRow(b, user)
  {
    if a != [] && a[0].username != user {
      FirstRowSameNames(a[1..], b[1..], user);
    }
  }

  /** A row appended behind rows without the name is the first with it. */
  lemma {:induction false} FirstRowAppend(rows: seq<Row>, row: Row, user: string)
    requires FirstRow(rows, user).None? && row.username == user
    ensures FirstRow(rows + [row], user) == Some(|rows|)
  {
    if rows != [] {
      assert (rows + [row])[1..] == rows[1..] + [row];
      FirstRowAppend(rows[1..], row, user);
    }
  }

  /** Names other than the one written keep the score they had. */
  lemma UpsertOthers(rows: seq<Row>, user: string, score: int, other: string)
    requires other != user
    ensures ScoreOf(Upsert(rows, user, score), other) == ScoreOf(rows, other)
  {
    var r := Upsert(rows, user, score);
    if FirstRow(rows, user).Some? {
      FirstRowSameNames(rows, r, other);
    } else {
      FirstRowSameNamesPrefix(rows, r, other);
    }
  }

  /** An appended row that does not carry the name changes nothing about it. */
  lemma {:induction false} FirstRowSameNamesPrefix(a: seq<Row>, b: seq<Row>, user: string)
    requires |b| == |a| + 1 && b[|a|].username != user
    requires forall j :: 0 <= j < |a| ==> a[j] == b[j]
    ensures FirstRow(b, user) == FirstRow(a, user)
  {
    if a != [] && a[0].username != user {
      FirstRowSameNamesPrefix(a[1..], b[1..], user);
    }
  }

  /** Overwrite, not maximum: a second submission with a lower score leaves
      the lower score. */
  lemma UpsertOverwrites(rows: seq<Row>, user: string, first: int, second: int)
    ensures ScoreOf(Upsert(Upsert(rows, user, first), user, second), user) == Some(second)
    ensures |Upsert(Upsert(rows, user, first), user, second)| == |Upsert(rows, user, first)|
  {
  }

  // ---------------------------------------------------------------------
  // order_by(desc(score)).limit(10)
  // ---------------------------------------------------------------------

  predicate NonIncreasing(s: seq<Row>) {
    forall i, j :: 0 <= i < j < |s| ==> s[i].score >= s[j].score
  }

  /** Puts a row into a list in non-increasing score order, in front of the
      first row it is at least as good as. */
  function Insert(x: Row, s: seq<Row>): (r: seq<Row>)
    requires NonIncreasing(s)
    ensures NonIncreasing(r)
    ensures multiset(r) == multiset(s) + multiset{x}
    ensures forall k :: 0 <= k < |r| ==> r[k] == x || r[k] in s
  {
    if s == [] then [x]
    else if x.score >= s[0].score then [x] + s
    else
      TailNonIncreasing(s);
      var rest := Insert(x, s[1..]);
      HeadDominates(s, x, rest);
      [s[0]] + rest
  }

  lemma TailNonIncreasing(s: seq<Row>)
    requires s != [] && NonIncreasing(s)
    ensures NonIncreasing(s[1..])
  {
    var tl := s[1..];
    forall i, j | 0 <= i < j < |tl| ensures tl[i].score >= tl[j].score {
      assert tl[i] == s[i + 1] && tl[j] == s[j + 1];
    }
  }

  /** The head of a sorted list stays in front of what inserting a
      lower-scoring row into its tail gives. */
  lemma HeadDominates(s: seq<Row>, x: Row, rest: seq<Row>)
    requires s != [] && NonIncreasing(s) && x.score < s[0].score
    requires NonIncreasing(rest)
    requires multiset(rest) == multiset(s[1..]) + multiset{x}
    requires forall k :: 0 <= k < |rest| ==> rest[k] == x || rest[k] in s[1..]
    ensures NonIncreasing([s[0]] + rest)
    ensures multiset([s[0]] + rest) == multiset(s) + multiset{x}
    ensures forall k :: 0 <= k < |[s[0]] + rest| ==> ([s[0]] + rest)[k] == x || ([s[0]] + rest)[k] in s
  {
    var r := [s[0]] + rest;
    forall k | 0 <= k < |rest| ensures rest[k].score <= s[0].score {
      if rest[k] != x {
        var m :| 0 <= m < |s[1..]| && s[1..][m] == rest[k];
        assert s[m + 1] == rest[k];
      }
    }
    forall i, j | 0 <= i < j < |r| ensures r[i].score >= r[j].score {
      assert r[j] == rest[j - 1];
      if i > 0 {
        assert r[i] == rest[i - 1];
      }
    }
    assert s == [s[0]] + s[1..];
    forall k | 0 <= k < |r| ensures r[k] == x || r[k] in s {
      if k > 0 && r[k] != x {
        assert r[k] in s[1..];
      }
    }
  }

  /** The rows in non-increasing score order; the order among equal scores
      is one the database is free to pick. */
  function SortByScore(rows: seq<Row>): (r: seq<Row>)
    ensures NonIncreasing(r)
    ensures multiset(r) == multiset(rows)
    ensures |r| == |rows|
  {
    if rows == [] then []
    else
      assert rows == [rows[0]] + rows[1..];
      Insert(rows[0], SortByScore(rows[1..]))
  }

  function ToStanding(row: Row): Standing {
    Standing(row.username, row.score)
  }

  function Standings(rows: seq<Row>): (r: seq<Standing>)
    ensures |r| == |rows|
    ensures forall k :: 0 <= k < |rows| ==> r[k] == ToStanding(rows[k])
  {
    seq(|rows|, k requires 0 <= k < |rows| => ToStanding(rows[k]))
  }

  function Limit(n: nat): nat {
    if n < TopCount then n else TopCount
  }

  /** What `get_leaderboard` answers: the first ten rows in score order. */
  function TopTen(rows: seq<Row>): (r: seq<Standing>)
    ensures |r| == Limit(|rows|) <= TopCount
  {
    Standings(SortByScore(rows)[..Limit(|rows|)])
  }

  /** A possible answer of the query: the first ten of some ordering of all
      rows by non-increasing score. */
  ghost predicate IsTopTen(rows: seq<Row>, result: seq<Standing>) {
    exists order: seq<Row> ::
      && multiset(order) == multiset(rows)
      && NonIncreasing(order)
      && result == Standings(order[..Limit(|order|)])
  }

  /** The query answers at most ten entries, in non-increasing score order,
      each from a distinct row of the table, and is one of the answers the
      ordered query allows. */
  lemma TopTenShape(rows: seq<Row>)
    ensures |TopTen(rows)| == Limit(|rows|) <= TopCount
    ensures forall i, j :: 0 <= i < j < |TopTen(rows)| ==> TopTen(rows)[i].score >= TopTen(rows)[j].score
    ensures exists taken: seq<Row> ::
              multiset(taken) <= multiset(rows) && TopTen(rows) == Standings(taken)
    ensures IsTopTen(rows, TopTen(rows))
  {
    var sorted := SortByScore(rows);
    var taken := sorted[..Limit(|rows|)];
    assert sorted == taken + sorted[Limit(|rows|)..];
    assert multiset(taken) <= multiset(rows);
  }

  /** Nothing better is left out: every row of the table either appears in the
      answer or scores no more than every entry of it. */
  lemma TopTenDominates(rows: seq<Row>, row: Row)
    requires row in rows
    ensures var top := TopTen(rows);
            ToStanding(row) in top || forall k :: 0 <= k < |top| ==> top[k].score >= row.score
  {
    var sorted := SortByScore(rows);
    var n := Limit(|rows|);
    assert row in multiset(sorted);
    var p :| 0 <= p < |sorted| && sorted[p] == row;
    if p < n {
      assert TopTen(rows)[p] == ToStanding(row);
    }
  }

}
