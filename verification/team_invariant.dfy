/** The store invariant the team operations keep, and its preservation by
    every operation. The central conjunct is captain succession's premise:
    each team's captain holds that team's lowest-id membership row, so the
    captain is always a member and "the second row by id" is always the
    earliest member other than the captain. */
module TeamInvariant {
  import opened Common
  import opened Membership
  import opened Teams
  import Users

  /** Team ids are positive and below the next auto-increment id. */
  ghost predicate TeamIdsFresh(s: State) {
    && s.nextTeamId >= 1
    && forall t :: t in s.teams ==> 0 < t < s.nextTeamId
  }

  /** The row table is in id order and below the next auto-increment id. */
  ghost predicate RowsOrdered(s: State) {
    && IdsIncreasing(s.rows)
    && forall i :: 0 <= i < |s.rows| ==> s.rows[i].id < s.nextRowId
  }

  /** Every row belongs to an existing team. */
  ghost predicate NoOrphans(s: State) {
    forall i :: 0 <= i < |s.rows| ==> s.rows[i].teamId in s.teams
  }

  /** Every team has a member, and its captain holds its lowest-id row. */
  ghost predicate CaptainFirst(s: State) {
    forall t :: t in s.teams ==> |TeamRows(s.rows, t)| > 0 && TeamRows(s.rows, t)[0].userId == s.teams[t].owner
  }

  /** No user holds two rows for the same team. */
  ghost predicate UniquePairs(s: State) {
    forall t, u :: PairCount(s.rows, t, u) <= 1
  }

  ghost predicate Inv(s: State) {
    TeamIdsFresh(s) && RowsOrdered(s) && NoOrphans(s) && CaptainFirst(s) && UniquePairs(s)
  }

  /** The store before any team exists satisfies the invariant. */
  lemma EmptyStoreInv()
    ensures Inv(State(map[], [], 1, 1))
  {
  }

  /** A team no row refers to has no rows. */
  lemma NoRowsForUnknownTeam(s: State, t: int)
    requires NoOrphans(s) && t !in s.teams
    ensures TeamRows(s.rows, t) == []
    ensures forall u :: PairCount(s.rows, t, u) == 0
  {
    TeamRowsNone(s.rows, t);
    forall u ensures PairCount(s.rows, t, u) == 0 {
      PairCountZero(s.rows, t, u);
    }
  }

  /** The captain is a member: under the invariant the captain has exactly
      one row in the team. */
  lemma {:induction false} CaptainIsMember(s: State, t: int)
    requires Inv(s) && t in s.teams
    ensures PairCount(s.rows, t, s.teams[t].owner) == 1
  {
    var rs := TeamRows(s.rows, t);
    assert rs[0] in rs;
    PairCountZero(rs, t, s.teams[t].owner);
    PairCountTeamRows(s.rows, t, s.teams[t].owner);
  }

  // ---------------------------------------------------------------------
  // Appending one row (create and join)

  /** Appending a row with a fresh id for a pair that has no row keeps the
      row conjuncts. */
  lemma AppendRowKeepsRows(s: State, row: Row)
    requires RowsOrdered(s) && UniquePairs(s)
    requires row.id == s.nextRowId
    requires PairCount(s.rows, row.teamId, row.userId) == 0
    ensures IdsIncreasing(s.rows + [row])
    ensures forall t, u :: PairCount(s.rows + [row], t, u) <= 1
  {
    forall t, u ensures PairCount(s.rows + [row], t, u) <= 1 {
      PairCountConcat(s.rows, [row], t, u);
    }
  }

  /** Appending a row adds it at the end of its own team's rows only. */
  lemma AppendRowTeamRows(rows: seq<Row>, row: Row)
    ensures forall t :: TeamRows(rows + [row], t) == TeamRows(rows, t) + (if row.teamId == t then [row] else [])
  {
    forall t ensures TeamRows(rows + [row], t) == TeamRows(rows, t) + (if row.teamId == t then [row] else []) {
      TeamRowsConcat(rows, [row], t);
    }
  }

  lemma AddKeepsCaptainFirst(s: State, d: TeamDraft, caller: int, now: int)
    requires TeamIdsFresh(s) && NoOrphans(s) && CaptainFirst(s)
    requires AddTeam(s, d, caller, now).Success?
    ensures CaptainFirst(AddTeam(s, d, caller, now).value.0)
  {
    var (s', id) := AddTeam(s, d, caller, now).value;
    var row := Row(s.nextRowId, id, caller);
    NoRowsForUnknownTeam(s, id);
    AppendRowTeamRows(s.rows, row);
    forall t | t in s'.teams
      ensures |TeamRows(s'.rows, t)| > 0 && TeamRows(s'.rows, t)[0].userId == s'.teams[t].owner
    {
      if t == id {
        assert TeamRows(s'.rows, t) == [row];
      } else {
        assert TeamRows(s'.rows, t) == TeamRows(s.rows, t);
      }
    }
  }

  lemma AddKeepsIdsFresh(s: State, d: TeamDraft, caller: int, now: int)
    requires TeamIdsFresh(s)
    requires AddTeam(s, d, caller, now).Success?
    ensures TeamIdsFresh(AddTeam(s, d, caller, now).value.0)
  {
  }

  lemma AddKeepsNoOrphans(s: State, d: TeamDraft, caller: int, now: int)
    requires NoOrphans(s)
    requires AddTeam(s, d, caller, now).Success?
    ensures NoOrphans(AddTeam(s, d, caller, now).value.0)
  {
    var s' := AddTeam(s, d, caller, now).value.0;
    forall i | 0 <= i < |s'.rows| ensures s'.rows[i].teamId in s'.teams {
      if i < |s.rows| {
        assert s'.rows[i] == s.rows[i];
      }
    }
  }

  lemma AddPreservesInv(s: State, d: TeamDraft, caller: int, now: int)
    requires Inv(s)
    requires AddTeam(s, d, caller, now).Success?
    ensures Inv(AddTeam(s, d, caller, now).value.0)
  {
    var id := AddTeam(s, d, caller, now).value.1;
    NoRowsForUnknownTeam(s, id);
    AppendRowKeepsRows(s, Row(s.nextRowId, id, caller));
    AddKeepsIdsFresh(s, d, caller, now);
    AddKeepsNoOrphans(s, d, caller, now);
    AddKeepsCaptainFirst(s, d, caller, now);
  }

  lemma JoinKeepsCaptainFirst(s: State, teamId: Option<int>, password: Option<string>, caller: int, now: int)
    requires CaptainFirst(s)
    requires JoinTeam(s, teamId, password, caller, now).Success?
    ensures CaptainFirst(JoinTeam(s, teamId, password, caller, now).value)
  {
    var s' := JoinTeam(s, teamId, password, caller, now).value;
    AppendRowTeamRows(s.rows, Row(s.nextRowId, teamId.value, caller));
    forall t | t in s'.teams
      ensures |TeamRows(s'.rows, t)| > 0 && TeamRows(s'.rows, t)[0].userId == s'.teams[t].owner
    {
      assert TeamRows(s'.rows, t)[0] == TeamRows(s.rows, t)[0];
    }
  }

  lemma JoinPreservesInv(s: State, teamId: Option<int>, password: Option<string>, caller: int, now: int)
    requires Inv(s)
    requires JoinTeam(s, teamId, password, caller, now).Success?
    ensures Inv(JoinTeam(s, teamId, password, caller, now).value)
  {
    AppendRowKeepsRows(s, Row(s.nextRowId, teamId.value, caller));
    JoinKeepsCaptainFirst(s, teamId, password, caller, now);
  }

  // ---------------------------------------------------------------------
  // Quit

  /** After the caller's row is deleted, every other team keeps its rows. */
  lemma DropPairOtherTeams(rows: seq<Row>, t: int, u: int)
    ensures forall t' :: t' != t ==> TeamRows(DropPair(rows, t, u), t') == TeamRows(rows, t')
  {
    forall t' | t' != t ensures TeamRows(DropPair(rows, t, u), t') == TeamRows(rows, t') {
      TeamRowsDropPair(rows, t, u, t');
      PairCountZero(TeamRows(rows, t'), t, u);
      DropPairAbsent(TeamRows(rows, t'), t, u);
    }
  }

  lemma QuitKeepsRows(s: State, teamId: Option<int>, caller: int)
    requires RowsOrdered(s) && UniquePairs(s)
    requires QuitTeam(s, teamId, caller).Success?
    ensures RowsOrdered(QuitTeam(s, teamId, caller).value) && UniquePairs(QuitTeam(s, teamId, caller).value)
  {
    var s' := QuitTeam(s, teamId, caller).value;
    QuitEffect(s, teamId, caller);
    forall t', u ensures PairCount(s'.rows, t', u) <= 1 {
      PairCountDropPair(s.rows, teamId.value, caller, t', u);
    }
  }

  /** Deleting the row of a team's only member leaves the team no rows. */
  lemma SoleMemberLeaves(rows: seq<Row>, t: int, u: int)
    requires |TeamRows(rows, t)| == 1 && PairCount(rows, t, u) > 0
    ensures TeamRows(DropPair(rows, t, u), t) == []
  {
    TeamRowsDropPair(rows, t, u, t);
    PairCountTeamRows(rows, t, u);
    DropSoleRow(TeamRows(rows, t), t, u);
  }

  /** A store whose rows all come from an orphan-free store, and which
      keeps every team except possibly t, has no orphans when t is either
      kept or left without rows. */
  lemma OrphanFree(s: State, s': State, t: int)
    requires NoOrphans(s)
    requires forall x :: x in s'.rows ==> x in s.rows
    requires forall t' :: t' in s.teams && t' != t ==> t' in s'.teams
    requires t in s'.teams || TeamRows(s'.rows, t) == []
    ensures NoOrphans(s')
  {
    forall i | 0 <= i < |s'.rows| ensures s'.rows[i].teamId in s'.teams {
      var x := s'.rows[i];
      assert x in s.rows;
      var k :| 0 <= k < |s.rows| && s.rows[k] == x;
      assert x.teamId == t ==> x in TeamRows(s'.rows, t);
    }
  }

  lemma QuitKeepsNoOrphans(s: State, teamId: Option<int>, caller: int)
    requires NoOrphans(s)
    requires QuitTeam(s, teamId, caller).Success?
    ensures NoOrphans(QuitTeam(s, teamId, caller).value)
  {
    var s' := QuitTeam(s, teamId, caller).value;
    var t := teamId.value;
    QuitEffect(s, teamId, caller);
    if MemberCount(s, t) == 1 {
      SoleMemberLeaves(s.rows, t, caller);
    }
    OrphanFree(s, s', t);
  }

  lemma QuitKeepsCaptainFirst(s: State, teamId: Option<int>, caller: int)
    requires CaptainFirst(s) && UniquePairs(s)
    requires QuitTeam(s, teamId, caller).Success?
    ensures CaptainFirst(QuitTeam(s, teamId, caller).value)
  {
    var s' := QuitTeam(s, teamId, caller).value;
    var t := teamId.value;
    QuitEffect(s, teamId, caller);
    DropPairOtherTeams(s.rows, t, caller);
    if t in s'.teams {
      var before := TeamRows(s.rows, t);
      TeamRowsDropPair(s.rows, t, caller, t);
      assert TeamRows(s'.rows, t) == DropPair(before, t, caller);
      if s.teams[t].owner == caller {
        PairCountTeamRows(s.rows, t, caller);
        DropFirstOwnRow(before, t, caller);
      } else {
        KeepFirstRow(before, t, caller);
      }
    }
  }

  lemma QuitPreservesInv(s: State, teamId: Option<int>, caller: int)
    requires Inv(s)
    requires QuitTeam(s, teamId, caller).Success?
    ensures Inv(QuitTeam(s, teamId, caller).value)
  {
    QuitEffect(s, teamId, caller);
    QuitKeepsRows(s, teamId, caller);
    QuitKeepsNoOrphans(s, teamId, caller);
    QuitKeepsCaptainFirst(s, teamId, caller);
  }

  // ---------------------------------------------------------------------
  // Dissolve and update

  lemma DeleteKeepsRows(s: State, teamId: int, caller: int)
    requires RowsOrdered(s) && UniquePairs(s)
    requires DeleteTeam(s, teamId, caller).Success?
    ensures RowsOrdered(DeleteTeam(s, teamId, caller).value) && UniquePairs(DeleteTeam(s, teamId, caller).value)
  {
    var s' := DeleteTeam(s, teamId, caller).value;
    assert s'.rows == DropTeam(s.rows, teamId);
    forall t', u ensures PairCount(s'.rows, t', u) <= 1 {
      PairCountDropTeam(s.rows, teamId, t', u);
    }
  }

  lemma DeleteKeepsNoOrphans(s: State, teamId: int, caller: int)
    requires NoOrphans(s)
    requires DeleteTeam(s, teamId, caller).Success?
    ensures NoOrphans(DeleteTeam(s, teamId, caller).value)
  {
    var s' := DeleteTeam(s, teamId, caller).value;
    assert s'.rows == DropTeam(s.rows, teamId);
    forall i | 0 <= i < |s'.rows| ensures s'.rows[i].teamId in s'.teams {
      assert s'.rows[i] in s'.rows;
    }
  }

  lemma DeletePreservesInv(s: State, teamId: int, caller: int)
    requires Inv(s)
    requires teamId > 0 && teamId in s.teams && s.teams[teamId].owner == caller
    ensures DeleteTeam(s, teamId, caller).Success?
    ensures Inv(DeleteTeam(s, teamId, caller).value)
  {
    DeleteKeepsRows(s, teamId, caller);
    DeleteKeepsNoOrphans(s, teamId, caller);
  }

  lemma UpdatePreservesInv(s: State, p: TeamPatch, loginUser: Users.User)
    requires Inv(s)
    requires UpdateTeam(s, p, loginUser).Success?
    ensures Inv(UpdateTeam(s, p, loginUser).value)
  {
  }

  /** Under the invariant the captain's dissolve never hits the
      empty-deletion system error: it succeeds exactly for the captain. */
  lemma DeleteByCaptainSucceeds(s: State, teamId: int, caller: int)
    requires Inv(s) && teamId in s.teams
    ensures DeleteTeam(s, teamId, caller).Success? <==> s.teams[teamId].owner == caller
  {
  }

  // ---------------------------------------------------------------------
  // The creation quota

  /** No user owns more than five teams. */
  ghost predicate OwnedQuota(s: State) {
    forall u :: OwnedCount(s.teams, u) <= MAX_OWNED
  }

  /** Creation keeps every user within the ownership quota. */
  lemma AddKeepsOwnedQuota(s: State, d: TeamDraft, caller: int, now: int)
    requires TeamIdsFresh(s) && OwnedQuota(s)
    requires AddTeam(s, d, caller, now).Success?
    ensures OwnedQuota(AddTeam(s, d, caller, now).value.0)
  {
    var (s', id) := AddTeam(s, d, caller, now).value;
    forall u ensures OwnedCount(s'.teams, u) <= MAX_OWNED {
      OwnedCountInsert(s.teams, id, s'.teams[id], u);
    }
  }

  /** Joining changes no team, so no ownership count. */
  lemma JoinKeepsOwnedQuota(s: State, teamId: Option<int>, password: Option<string>, caller: int, now: int)
    requires OwnedQuota(s)
    requires JoinTeam(s, teamId, password, caller, now).Success?
    ensures OwnedQuota(JoinTeam(s, teamId, password, caller, now).value)
  {
  }
}
