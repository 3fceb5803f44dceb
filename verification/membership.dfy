/** The team_user relation: one row per (team, user) membership, carrying the
    auto-increment row id the store assigns. The queries the team service
    issues against it ("rows of this team", "rows of this user", "rows of this
    pair") and the two deletions it performs are defined here, together with
    the facts the invariant proofs need about them. */
module Membership {

  datatype Row = Row(id: int, teamId: int, userId: int)

  predicate IsPair(r: Row, t: int, u: int) {
    r.teamId == t && r.userId == u
  }

  /** Row ids strictly increase along the sequence: the sequence is the
      table in "order by id asc". */
  ghost predicate IdsIncreasing(rows: seq<Row>) {
    forall i, j :: 0 <= i < j < |rows| ==> rows[i].id < rows[j].id
  }

  /** `where teamId = t`, in table order. */
  function TeamRows(rows: seq<Row>, t: int): (r: seq<Row>)
    ensures |r| <= |rows|
    ensures forall x :: x in r <==> x in rows && x.teamId == t
    ensures IdsIncreasing(rows) ==> IdsIncreasing(r)
  {
    if |rows| == 0 then []
    else
      var init := TeamRows(rows[..|rows| - 1], t);
      var last := rows[|rows| - 1];
      IncreasingPrefix(rows, init);
      if last.teamId == t then init + [last] else init
  }

  /** `count(*) where userId = u`. */
  function UserRowCount(rows: seq<Row>, u: int): nat {
    if |rows| == 0 then 0
    else UserRowCount(rows[..|rows| - 1], u) + (if rows[|rows| - 1].userId == u then 1 else 0)
  }

  /** `count(*) where teamId = t and userId = u`. */
  function PairCount(rows: seq<Row>, t: int, u: int): nat {
    if |rows| == 0 then 0
    else PairCount(rows[..|rows| - 1], t, u) + (if IsPair(rows[|rows| - 1], t, u) then 1 else 0)
  }

  /** `delete where teamId = t and userId = u`. */
  function DropPair(rows: seq<Row>, t: int, u: int): (r: seq<Row>)
    ensures |r| <= |rows|
    ensures forall x :: x in r <==> x in rows && !IsPair(x, t, u)
    ensures IdsIncreasing(rows) ==> IdsIncreasing(r)
  {
    if |rows| == 0 then []
    else
      var init := DropPair(rows[..|rows| - 1], t, u);
      var last := rows[|rows| - 1];
      IncreasingPrefix(rows, init);
      if IsPair(last, t, u) then init else init + [last]
  }

  /** `delete where teamId = t`. */
  function DropTeam(rows: seq<Row>, t: int): (r: seq<Row>)
    ensures |r| <= |rows|
    ensures forall x :: x in r <==> x in rows && x.teamId != t
    ensures IdsIncreasing(rows) ==> IdsIncreasing(r)
  {
    if |rows| == 0 then []
    else
      var init := DropTeam(rows[..|rows| - 1], t);
      var last := rows[|rows| - 1];
      IncreasingPrefix(rows, init);
      if last.teamId == t then init else init + [last]
  }

  /** A subsequence of the first n-1 rows, followed by the last row, stays in
      id order. */
  lemma IncreasingPrefix(rows: seq<Row>, init: seq<Row>)
    requires |rows| > 0
    requires forall x :: x in init ==> x in rows[..|rows| - 1]
    ensures forall x :: x in rows[..|rows| - 1] ==> x in rows
    ensures IdsIncreasing(rows) && IdsIncreasing(init) ==> IdsIncreasing(init + [rows[|rows| - 1]])
  {
    if IdsIncreasing(rows) && IdsIncreasing(init) {
      var last := rows[|rows| - 1];
      forall x | x in init
        ensures x.id < last.id
      {
        var k :| 0 <= k < |rows| - 1 && rows[k] == x;
      }
    }
  }

  /** The pair count is zero exactly when no row holds the pair. */
  lemma {:induction false} PairCountZero(rows: seq<Row>, t: int, u: int)
    ensures PairCount(rows, t, u) == 0 <==> forall x :: x in rows ==> !IsPair(x, t, u)
    decreases |rows|
  {
    if |rows| > 0 {
      var init := rows[..|rows| - 1];
      PairCountZero(init, t, u);
      assert forall x :: x in rows <==> x in init || x == rows[|rows| - 1];
    }
  }

  // ---------------------------------------------------------------------
  // Concatenation laws: each query and deletion distributes over `+`.

  lemma {:induction false} TeamRowsConcat(a: seq<Row>, b: seq<Row>, t: int)
    ensures TeamRows(a + b, t) == TeamRows(a, t) + TeamRows(b, t)
    decreases |b|
  {
    if |b| == 0 {
      assert a + b == a;
    } else {
      var b' := b[..|b| - 1];
      assert (a + b)[..|a + b| - 1] == a + b';
      assert (a + b)[|a + b| - 1] == b[|b| - 1];
      TeamRowsConcat(a, b', t);
    }
  }

  lemma {:induction false} PairCountConcat(a: seq<Row>, b: seq<Row>, t: int, u: int)
    ensures PairCount(a + b, t, u) == PairCount(a, t, u) + PairCount(b, t, u)
    decreases |b|
  {
    if |b| == 0 {
      assert a + b == a;
    } else {
      var b' := b[..|b| - 1];
      assert (a + b)[..|a + b| - 1] == a + b';
      assert (a + b)[|a + b| - 1] == b[|b| - 1];
      PairCountConcat(a, b', t, u);
    }
  }

  lemma {:induction false} UserRowCountConcat(a: seq<Row>, b: seq<Row>, u: int)
    ensures UserRowCount(a + b, u) == UserRowCount(a, u) + UserRowCount(b, u)
    decreases |b|
  {
    if |b| == 0 {
      assert a + b == a;
    } else {
      var b' := b[..|b| - 1];
      assert (a + b)[..|a + b| - 1] == a + b';
      assert (a + b)[|a + b| - 1] == b[|b| - 1];
      UserRowCountConcat(a, b', u);
    }
  }

  /** The queries on a table of one row. */
  lemma SingleRow(r: Row, t: int, u: int)
    ensures TeamRows([r], t) == if r.teamId == t then [r] else []
    ensures PairCount([r], t, u) == if IsPair(r, t, u) then 1 else 0
    ensures UserRowCount([r], u) == if r.userId == u then 1 else 0
  {
    assert [r][..0] == [];
  }

  lemma {:induction false} DropPairConcat(a: seq<Row>, b: seq<Row>, t: int, u: int)
    ensures DropPair(a + b, t, u) == DropPair(a, t, u) + DropPair(b, t, u)
    decreases |b|
  {
    if |b| == 0 {
      assert a + b == a;
    } else {
      var b' := b[..|b| - 1];
      assert (a + b)[..|a + b| - 1] == a + b';
      assert (a + b)[|a + b| - 1] == b[|b| - 1];
      DropPairConcat(a, b', t, u);
    }
  }

  // ---------------------------------------------------------------------
  // How the queries see the result of a deletion.

  /** Deleting a pair that has no row changes nothing. */
  lemma {:induction false} DropPairAbsent(rows: seq<Row>, t: int, u: int)
    requires PairCount(rows, t, u) == 0
    ensures DropPair(rows, t, u) == rows
    decreases |rows|
  {
    if |rows| > 0 {
      var init := rows[..|rows| - 1];
      var last := rows[|rows| - 1];
      assert PairCount(init, t, u) == 0 && !IsPair(last, t, u);
      DropPairAbsent(init, t, u);
      assert DropPair(rows, t, u) == DropPair(init, t, u) + [last];
      assert init + [last] == rows;
    }
  }

  /** The rows of team t' after deleting the pair (t, u) are the rows of t'
      with that pair deleted. */
  lemma {:induction false} TeamRowsDropPair(rows: seq<Row>, t: int, u: int, t': int)
    ensures TeamRows(DropPair(rows, t, u), t') == DropPair(TeamRows(rows, t'), t, u)
    decreases |rows|
  {
    if |rows| > 0 {
      var init := rows[..|rows| - 1];
      var last := rows[|rows| - 1];
      TeamRowsDropPair(init, t, u, t');
      if !IsPair(last, t, u) {
        TeamRowsConcat(DropPair(init, t, u), [last], t');
      }
      if last.teamId == t' {
        DropPairConcat(TeamRows(init, t'), [last], t, u);
      }
    }
  }

  lemma {:induction false} TeamRowsDropTeam(rows: seq<Row>, t: int, t': int)
    ensures TeamRows(DropTeam(rows, t), t') == if t' == t then [] else TeamRows(rows, t')
    decreases |rows|
  {
    if |rows| > 0 {
      var init := rows[..|rows| - 1];
      var last := rows[|rows| - 1];
      TeamRowsDropTeam(init, t, t');
      if last.teamId != t {
        TeamRowsConcat(DropTeam(init, t), [last], t');
      }
    }
  }

  lemma {:induction false} PairCountDropPair(rows: seq<Row>, t: int, u: int, t': int, u': int)
    ensures PairCount(DropPair(rows, t, u), t', u') == if t' == t && u' == u then 0 else PairCount(rows, t', u')
    decreases |rows|
  {
    if |rows| > 0 {
      var init := rows[..|rows| - 1];
      var last := rows[|rows| - 1];
      PairCountDropPair(init, t, u, t', u');
      if !IsPair(last, t, u) {
        PairCountConcat(DropPair(init, t, u), [last], t', u');
      }
    }
  }

  lemma {:induction false} PairCountDropTeam(rows: seq<Row>, t: int, t': int, u': int)
    ensures PairCount(DropTeam(rows, t), t', u') == if t' == t then 0 else PairCount(rows, t', u')
    decreases |rows|
  {
    if |rows| > 0 {
      var init := rows[..|rows| - 1];
      var last := rows[|rows| - 1];
      PairCountDropTeam(init, t, t', u');
      if last.teamId != t {
        PairCountConcat(DropTeam(init, t), [last], t', u');
      }
    }
  }

  /** Counting a pair among the rows of one team counts it in the table. */
  lemma {:induction false} PairCountTeamRows(rows: seq<Row>, t: int, u: int)
    ensures PairCount(TeamRows(rows, t), t, u) == PairCount(rows, t, u)
    decreases |rows|
  {
    if |rows| > 0 {
      var init := rows[..|rows| - 1];
      var last := rows[|rows| - 1];
      PairCountTeamRows(init, t, u);
      if last.teamId == t {
        PairCountConcat(TeamRows(init, t), [last], t, u);
      }
    }
  }

  /** When the first row of a team's rows belongs to the only row of user u,
      deleting u's row leaves exactly the remaining rows, in order. */
  lemma DropFirstOwnRow(s: seq<Row>, t: int, u: int)
    requires |s| > 0 && IsPair(s[0], t, u)
    requires PairCount(s, t, u) <= 1
    ensures DropPair(s, t, u) == s[1..]
  {
    var head, tail := [s[0]], s[1..];
    assert s == head + tail;
    assert head[..0] == [];
    assert PairCount(head, t, u) == 1;
    assert DropPair(head, t, u) == [];
    PairCountConcat(head, tail, t, u);
    DropPairAbsent(tail, t, u);
    DropPairConcat(head, tail, t, u);
  }

  /** A team whose only row is user u's has no rows left once u's row is
      deleted. */
  lemma DropSoleRow(s: seq<Row>, t: int, u: int)
    requires |s| == 1 && PairCount(s, t, u) > 0
    ensures DropPair(s, t, u) == []
  {
    assert s[..0] == [];
  }

  /** A table in which no row names team t has no rows for t. */
  lemma {:induction false} TeamRowsNone(rows: seq<Row>, t: int)
    requires forall i :: 0 <= i < |rows| ==> rows[i].teamId != t
    ensures TeamRows(rows, t) == []
    decreases |rows|
  {
    if |rows| > 0 {
      TeamRowsNone(rows[..|rows| - 1], t);
    }
  }

  /** Deleting the row of a user who does not hold the first row keeps the
      first row first. */
  lemma KeepFirstRow(s: seq<Row>, t: int, u: int)
    requires |s| > 0 && !IsPair(s[0], t, u)
    ensures |DropPair(s, t, u)| > 0 && DropPair(s, t, u)[0] == s[0]
  {
    assert s == [s[0]] + s[1..];
    DropPairConcat([s[0]], s[1..], t, u);
  }

  /** In a table kept in id order, the first row of a team has the lowest id
      of that team's rows and the second row the lowest id after it: taking
      the first two rows is "order by id asc limit 2". */
  lemma TeamRowsLowestIds(rows: seq<Row>, t: int)
    requires IdsIncreasing(rows)
    ensures var s := TeamRows(rows, t);
      && (forall i :: 0 < i < |s| ==> s[0].id < s[i].id)
      && (forall i :: 1 < i < |s| ==> s[1].id < s[i].id)
  {
  }
}
