/** The team listing: the query's validation, the conjunction of filters it
    builds, the rule that expired teams are never shown, and the marking of
    each listed team with whether the viewer has joined it and how many
    members it has. */
module TeamListing {
  import opened Common
  import opened Membership
  import opened Teams

  /** The fields of a list request; null fields are None. An empty id list
      means "no id-list filter". */
  datatype TeamQuery = TeamQuery(
    id: Option<int>,
    idList: Option<seq<int>>,
    name: Option<string>,
    description: Option<string>,
    searchText: Option<string>,
    maxNum: Option<int>,
    userId: Option<int>,
    status: Option<int>)

  /** The query that sets no field. */
  const EmptyQuery := TeamQuery(None, None, None, None, None, None, None, None)

  datatype ListFault =
    | BadQueryId
    | QueryNameTooLong
    | QueryDescriptionTooLong
    | SearchTextTooLong
    | BadQueryMaxNum
    | BadQueryUserId
    | PrivateNeedsAdmin
  {
    function Code(): ErrorCode {
      if this == PrivateNeedsAdmin then NoAuth else ParamsError
    }
  }

  /** SQL LIKE: `%` matches any run of characters, `_` any one character,
      a backslash (the default escape character of MySQL) makes the next
      pattern character literal, and every other character matches itself.
      A backslash at the very end of a pattern is literal. */
  predicate LikeMatch(pat: string, text: string)
    decreases |pat|, |text|
  {
    if |pat| == 0 then |text| == 0
    else if pat[0] == '%' then LikeMatch(pat[1..], text) || (|text| > 0 && LikeMatch(pat, text[1..]))
    else if |text| == 0 then false
    else if pat[0] == '_' then LikeMatch(pat[1..], text[1..])
    else if pat[0] == '\\' && |pat| > 1 then text[0] == pat[1] && LikeMatch(pat[2..], text[1..])
    else text[0] == pat[0] && LikeMatch(pat[1..], text[1..])
  }

  /** A pattern with no wildcard and no escape character. */
  predicate Literal(pat: string) {
    forall i :: 0 <= i < |pat| ==> pat[i] != '%' && pat[i] != '_' && pat[i] != '\\'
  }

  /** `pat` occurs in `text` starting at position k. */
  predicate OccursAt(pat: string, text: string, k: int) {
    0 <= k <= |text| - |pat| && text[k..k + |pat|] == pat
  }

  /** `pat` occurs as a contiguous piece of `text`. */
  predicate Occurs(pat: string, text: string) {
    exists k :: 0 <= k <= |text| - |pat| && OccursAt(pat, text, k)
  }

  /** MyBatis-Plus `like(column, v)`: the column matches `%v%`, with `v`
      bound as it is, so its own `%`, `_` and backslashes keep their LIKE
      meaning. For a literal `v` this is plain substring search. */
  function Like(text: string, pat: string): (r: bool)
    ensures Literal(pat) ==> (r <==> Occurs(pat, text))
  {
    LikeLiteralOccurs(text, pat);
    LikeMatch("%" + pat + "%", text)
  }

  /** A column the query may search by text: a blank pattern sets no
      filter; a null column matches no pattern. */
  predicate TextMatches(pat: Option<string>, column: Option<string>) {
    BlankOpt(pat) || (column.Some? && Like(column.value, pat.value))
  }

  /** Shown at all: no expiry, or an expiry strictly after now. */
  predicate Shown(team: Team, now: int) {
    team.expireTime.None? || team.expireTime.value > now
  }

  /** The first query rule that fails, in the order the service checks
      them. */
  function QueryFault(q: TeamQuery, isAdmin: bool): Option<ListFault> {
    if q.id.Some? && q.id.value <= 0 then Some(BadQueryId)
    else if !BlankOpt(q.name) && Utf16Length(q.name.value) > 20 then Some(QueryNameTooLong)
    else if !BlankOpt(q.description) && Utf16Length(q.description.value) > 512 then Some(QueryDescriptionTooLong)
    else if !BlankOpt(q.searchText) && Utf16Length(q.searchText.value) > 20 then Some(SearchTextTooLong)
    else if q.maxNum.Some? && (q.maxNum.value <= 0 || q.maxNum.value > 20) then Some(BadQueryMaxNum)
    else if q.userId.Some? && q.userId.value <= 0 then Some(BadQueryUserId)
    else if !isAdmin && StatusOf(q.status) == Some(Private) then Some(PrivateNeedsAdmin)
    else None
  }

  /** The conjunction of `where` conditions the query builds for one team.
      A status value with no enum constant sets no status filter. */
  predicate Selected(q: TeamQuery, id: int, team: Team, now: int) {
    && (q.id.Some? ==> id == q.id.value)
    && (q.idList.Some? && |q.idList.value| > 0 ==> id in q.idList.value)
    && TextMatches(q.name, Some(team.name))
    && TextMatches(q.description, team.description)
    && (TextMatches(q.searchText, Some(team.name)) || TextMatches(q.searchText, team.description))
    && (q.maxNum.Some? ==> team.maxNum == q.maxNum.value)
    && (q.userId.Some? ==> team.owner == q.userId.value)
    && (StatusOf(q.status).Some? ==> team.status == q.status)
    && Shown(team, now)
  }

  /** listTeam: the teams the query selects, keyed by id, or the first
      query rule it breaks. Only a non-administrator asking for PRIVATE
      teams is refused; without a status filter PRIVATE teams are listed to
      anyone. */
  function ListTeams(s: State, q: TeamQuery, isAdmin: bool, now: int): (r: Result<map<int, Team>, ListFault>)
    ensures r.Success? <==>
      && (q.id.Some? ==> q.id.value > 0)
      && (BlankOpt(q.name) || Utf16Length(q.name.value) <= 20)
      && (BlankOpt(q.description) || Utf16Length(q.description.value) <= 512)
      && (BlankOpt(q.searchText) || Utf16Length(q.searchText.value) <= 20)
      && (q.maxNum.Some? ==> 1 <= q.maxNum.value <= 20)
      && (q.userId.Some? ==> q.userId.value > 0)
      && (!isAdmin ==> q.status != Some(1))
    ensures r.Failure? ==> (r.error.Code() == NoAuth <==> r.error == PrivateNeedsAdmin)
    ensures r == Failure(PrivateNeedsAdmin) ==> !isAdmin && q.status == Some(1)
    ensures r.Success? ==> forall t :: t in r.value ==>
      && t in s.teams && r.value[t] == s.teams[t]
      && Shown(s.teams[t], now)
      && (q.id.Some? ==> t == q.id.value)
      && (q.userId.Some? ==> s.teams[t].owner == q.userId.value)
      && (q.maxNum.Some? ==> s.teams[t].maxNum == q.maxNum.value)
      && (StatusOf(q.status).Some? ==> s.teams[t].status == q.status)
    ensures r.Success? ==> forall t :: t in s.teams && Selected(q, t, s.teams[t], now) ==> t in r.value
    ensures r.Success? ==> forall t :: t in r.value ==> Selected(q, t, s.teams[t], now)
  {
    var fault := QueryFault(q, isAdmin);
    if fault.Some? then Failure(fault.value)
    else Success(map t | t in s.teams && Selected(q, t, s.teams[t], now) :: s.teams[t])
  }

  // ---------------------------------------------------------------------
  // Properties of the listing

  // ---------------------------------------------------------------------
  // LIKE

  /** `%` matches every text. */
  lemma {:induction false} PercentMatchesAll(text: string)
    ensures LikeMatch("%", text)
    decreases |text|
  {
    if |text| > 0 {
      PercentMatchesAll(text[1..]);
    }
  }

  /** A literal pattern followed by `%` matches exactly the texts it
      begins. */
  lemma {:induction false} LiteralPrefix(pat: string, text: string)
    requires Literal(pat)
    ensures LikeMatch(pat + "%", text) <==> |pat| <= |text| && text[..|pat|] == pat
    decreases |pat|
  {
    if |pat| == 0 {
      assert pat + "%" == "%";
      PercentMatchesAll(text);
    } else {
      assert (pat + "%")[0] == pat[0];
      assert (pat + "%")[1..] == pat[1..] + "%";
      if |text| > 0 {
        LiteralPrefix(pat[1..], text[1..]);
        if |pat| <= |text| {
          assert text[..|pat|] == [text[0]] + text[1..][..|pat| - 1];
          assert pat == [pat[0]] + pat[1..];
        }
      }
    }
  }

  /** A leading `%` lets the rest of the pattern match any suffix. */
  lemma {:induction false} LeadingPercent(rest: string, text: string)
    ensures LikeMatch("%" + rest, text) <==> exists k :: 0 <= k <= |text| && LikeMatch(rest, text[k..])
    decreases |text|
  {
    var p := "%" + rest;
    assert p[0] == '%' && p[1..] == rest;
    assert text[0..] == text;
    if |text| > 0 {
      LeadingPercent(rest, text[1..]);
      if exists k :: 0 <= k <= |text| && LikeMatch(rest, text[k..]) {
        var k :| 0 <= k <= |text| && LikeMatch(rest, text[k..]);
        if k > 0 {
          assert text[1..][k - 1..] == text[k..];
        }
      }
      if exists k :: 0 <= k <= |text| - 1 && LikeMatch(rest, text[1..][k..]) {
        var k :| 0 <= k <= |text| - 1 && LikeMatch(rest, text[1..][k..]);
        assert text[1..][k..] == text[k + 1..];
      }
    }
  }

  /** For a literal pattern, the listing's LIKE is substring search. */
  lemma LikeLiteralOccurs(text: string, pat: string)
    ensures Literal(pat) ==> (LikeMatch("%" + pat + "%", text) <==> Occurs(pat, text))
  {
    if Literal(pat) {
      assert "%" + pat + "%" == "%" + (pat + "%");
      LeadingPercent(pat + "%", text);
      if Occurs(pat, text) {
        var k :| 0 <= k <= |text| - |pat| && OccursAt(pat, text, k);
        LiteralPrefix(pat, text[k..]);
        assert text[k..][..|pat|] == text[k..k + |pat|];
      }
      if exists k :: 0 <= k <= |text| && LikeMatch(pat + "%", text[k..]) {
        var k :| 0 <= k <= |text| && LikeMatch(pat + "%", text[k..]);
        LiteralPrefix(pat, text[k..]);
        assert text[k..][..|pat|] == text[k..k + |pat|];
        assert OccursAt(pat, text, k);
      }
    }
  }

  /** A pattern without a backslash followed by `%` matches every text that
      begins with the pattern itself. */
  lemma {:induction false} UnescapedPrefixOfSelf(pat: string, rest: string)
    requires forall i :: 0 <= i < |pat| ==> pat[i] != '\\'
    ensures LikeMatch(pat + "%", pat + rest)
    decreases |pat|
  {
    if |pat| == 0 {
      assert pat + "%" == "%" && pat + rest == rest;
      PercentMatchesAll(rest);
    } else {
      var p, t := pat + "%", pat + rest;
      assert p[0] == pat[0] && p[1..] == pat[1..] + "%";
      assert t[0] == pat[0] && t[1..] == pat[1..] + rest;
      UnescapedPrefixOfSelf(pat[1..], rest);
      if pat[0] == '%' {
        assert LikeMatch(p[1..], t[1..]);
        assert LikeMatch(p, t[1..]);
      }
    }
  }

  /** A name without a backslash is found by itself, wildcards included:
      `%` and `_` in the name match themselves among other things. */
  lemma LikeSelf(text: string)
    requires forall i :: 0 <= i < |text| ==> text[i] != '\\'
    ensures Like(text, text)
  {
    UnescapedPrefixOfSelf(text, []);
    assert text + [] == text;
    var p := "%" + text + "%";
    assert p[0] == '%' && p[1..] == text + "%";
  }

  /** A name that is a single backslash is not found by itself: the
      backslash escapes the closing `%`, which then asks for a literal `%`. */
  lemma BackslashNameMissed()
    ensures !Like("\\", "\\")
  {
    var p := "%" + "\\" + "%";
    assert p == ['%', '\\', '%'];
    assert p[1..] == ['\\', '%'] && p[1..][2..] == [];
    assert !LikeMatch(p[1..], []);
    assert !LikeMatch(p, []);
    assert !LikeMatch(p[1..], "\\");
    assert "\\"[1..] == [];
    assert Like("\\", "\\") == LikeMatch(p, "\\");
  }

  /** The pattern `_` lists every team whose name is not empty, not only the
      names containing an underscore. */
  lemma UnderscoreMatchesAnyName(text: string)
    ensures Like(text, "_") <==> |text| > 0
  {
    var p := "%" + "_" + "%";
    assert p == ['%', '_', '%'];
    assert p[1..] == ['_', '%'] && p[1..][1..] == "%";
    LeadingPercent("_%", text);
    if |text| > 0 {
      PercentMatchesAll(text[1..]);
      assert text[0..] == text;
    }
  }

  /** A pattern found in a suffix is found in the whole text. */
  lemma {:induction false} LikeSuffix(prefix: string, text: string, pat: string)
    requires Like(text, pat)
    ensures Like(prefix + text, pat)
    decreases |prefix|
  {
    var p := "%" + pat + "%";
    assert p[0] == '%';
    if |prefix| > 0 {
      LikeSuffix(prefix[1..], text, pat);
      assert (prefix + text)[1..] == prefix[1..] + text;
    } else {
      assert prefix + text == text;
    }
  }

  /** The empty query lists every shown team, PRIVATE ones included, to
      administrators and to everyone else alike. */
  lemma EmptyQueryListsAllShown(s: State, isAdmin: bool, now: int)
    ensures ListTeams(s, EmptyQuery, isAdmin, now).Success?
    ensures ListTeams(s, EmptyQuery, isAdmin, now).value.Keys == set t | t in s.teams && Shown(s.teams[t], now)
  {
  }

  /** A non-administrator who sets no status filter sees a shown PRIVATE
      team. */
  lemma NonAdminSeesPrivateTeams(s: State, t: int, now: int)
    requires t in s.teams && StatusOf(s.teams[t].status) == Some(Private) && Shown(s.teams[t], now)
    ensures t in ListTeams(s, EmptyQuery, false, now).value
  {
    EmptyQueryListsAllShown(s, false, now);
  }

  /** The administrator flag only decides whether a PRIVATE status filter is
      refused: whenever both calls succeed they list the same teams. */
  lemma AdminFlagOnlyGates(s: State, q: TeamQuery, now: int)
    requires ListTeams(s, q, false, now).Success?
    ensures ListTeams(s, q, true, now) == ListTeams(s, q, false, now)
  {
  }

  /** A status value with no enum constant filters nothing: the query lists
      what the same query without a status lists. */
  lemma UnknownStatusIgnored(s: State, q: TeamQuery, isAdmin: bool, now: int)
    requires q.status.Some? && StatusOf(q.status).None?
    ensures ListTeams(s, q, isAdmin, now) == ListTeams(s, q.(status := None), isAdmin, now)
  {
    var q' := q.(status := None);
    assert QueryFault(q, isAdmin) == QueryFault(q', isAdmin);
    forall t | t in s.teams ensures Selected(q, t, s.teams[t], now) == Selected(q', t, s.teams[t], now) {
    }
    if QueryFault(q, isAdmin).None? {
      var a, b := ListTeams(s, q, isAdmin, now).value, ListTeams(s, q', isAdmin, now).value;
      assert a.Keys == b.Keys;
      assert a == b;
    }
  }

  /** Filtering by a team's full name finds it whenever the other filters
      let it through. */
  lemma FoundByOwnName(s: State, t: int, now: int)
    requires t in s.teams && Shown(s.teams[t], now)
    requires !Blank(s.teams[t].name) && Utf16Length(s.teams[t].name) <= 20
    requires forall i :: 0 <= i < |s.teams[t].name| ==> s.teams[t].name[i] != '\\'
    ensures t in ListTeams(s, EmptyQuery.(name := Some(s.teams[t].name)), false, now).value
  {
    LikeSelf(s.teams[t].name);
  }

  /** Adding a name filter to a query can only remove teams from the
      listing. */
  lemma NameFilterNarrows(s: State, q: TeamQuery, name: string, isAdmin: bool, now: int)
    requires q.name.None?
    requires ListTeams(s, q.(name := Some(name)), isAdmin, now).Success?
    ensures ListTeams(s, q, isAdmin, now).Success?
    ensures ListTeams(s, q.(name := Some(name)), isAdmin, now).value.Keys <= ListTeams(s, q, isAdmin, now).value.Keys
  {
  }

  /** A listed team is never refused as expired by a join at the same
      moment: the listing's "after now" is stricter than the join's "not
      before now". */
  lemma ListedNotExpired(s: State, q: TeamQuery, isAdmin: bool, now: int, t: int)
    requires ListTeams(s, q, isAdmin, now).Success? && t in ListTeams(s, q, isAdmin, now).value
    ensures !Expired(s.teams[t], now)
  {
  }

  /** At the boundary the two rules differ: a team whose expiry is exactly
      now is hidden from the listing but is not refused as expired by a
      join. */
  lemma ExpiryBoundary(s: State, t: int, now: int)
    requires t in s.teams && s.teams[t].expireTime == Some(now)
    ensures t !in ListTeams(s, EmptyQuery, true, now).value
    ensures !Expired(s.teams[t], now)
  {
  }

  // ---------------------------------------------------------------------
  // Marking the listed teams

  /** One listed team as the viewer sees it: whether the viewer has joined
      it, and its member count; both stay unset when nobody is logged in. */
  datatype JoinFlag = JoinFlag(teamId: int, hasJoin: bool, hasJoinNum: Option<nat>)

  /** `where userId = u and teamId in ids`, as the set of team ids. */
  function JoinedAmong(rows: seq<Row>, ids: seq<int>, u: int): set<int> {
    set x | x in rows && x.userId == u && x.teamId in ids :: x.teamId
  }

  /** `where teamId in ids`. */
  function RowsAmong(rows: seq<Row>, ids: seq<int>): (r: seq<Row>)
    ensures forall x :: x in r <==> x in rows && x.teamId in ids
  {
    if |rows| == 0 then []
    else
      var init := RowsAmong(rows[..|rows| - 1], ids);
      var last := rows[|rows| - 1];
      if last.teamId in ids then init + [last] else init
  }

  /** flagUserJoinedTeams on the ids of the listed teams: a logged-in
      viewer's rows among those teams give each team's "has joined" mark,
      and the rows of those teams grouped by team give each team's member
      count. Without a login the marks keep their defaults. */
  function FlagJoinedTeams(rows: seq<Row>, ids: seq<int>, viewer: Option<int>): (r: seq<JoinFlag>)
    ensures |r| == |ids|
    ensures forall i :: 0 <= i < |ids| ==> r[i].teamId == ids[i]
    ensures forall i :: 0 <= i < |ids| ==> r[i].hasJoin == (viewer.Some? && PairCount(rows, ids[i], viewer.value) > 0)
    ensures forall i :: 0 <= i < |ids| ==> r[i].hasJoinNum == if viewer.Some? then Some(|TeamRows(rows, ids[i])|) else None
  {
    if viewer.None? then seq(|ids|, i requires 0 <= i < |ids| => JoinFlag(ids[i], false, None))
    else
      var joined := JoinedAmong(rows, ids, viewer.value);
      var among := RowsAmong(rows, ids);
      JoinedAmongPairs(rows, ids, viewer.value);
      RowsAmongTeamRows(rows, ids);
      seq(|ids|, i requires 0 <= i < |ids| =>
        JoinFlag(ids[i], ids[i] in joined, Some(|TeamRows(among, ids[i])|)))
  }

  /** A listed team is in the viewer's joined set exactly when the viewer
      has a row for it. */
  lemma JoinedAmongPairs(rows: seq<Row>, ids: seq<int>, u: int)
    ensures forall t :: t in ids ==> (t in JoinedAmong(rows, ids, u) <==> PairCount(rows, t, u) > 0)
  {
    forall t | t in ids
      ensures t in JoinedAmong(rows, ids, u) <==> PairCount(rows, t, u) > 0
    {
      PairCountZero(rows, t, u);
      if PairCount(rows, t, u) > 0 {
        var x :| x in rows && IsPair(x, t, u);
        assert x.teamId in JoinedAmong(rows, ids, u);
      }
    }
  }

  /** Grouping the rows of the listed teams by team gives, for a listed
      team, all of its rows. */
  lemma {:induction false} RowsAmongTeamRows(rows: seq<Row>, ids: seq<int>)
    ensures forall t :: t in ids ==> TeamRows(RowsAmong(rows, ids), t) == TeamRows(rows, t)
    decreases |rows|
  {
    if |rows| > 0 {
      var init := rows[..|rows| - 1];
      var last := rows[|rows| - 1];
      RowsAmongTeamRows(init, ids);
      if last.teamId in ids {
        forall t | t in ids
          ensures TeamRows(RowsAmong(rows, ids), t) == TeamRows(rows, t)
        {
          TeamRowsConcat(RowsAmong(init, ids), [last], t);
        }
      }
    }
  }

  /** After a successful join the viewer sees the team marked as joined,
      with one more member than before. */
  lemma JoinThenFlag(s: State, teamId: Option<int>, password: Option<string>, caller: int, now: int)
    requires JoinTeam(s, teamId, password, caller, now).Success?
    ensures var flags := FlagJoinedTeams(JoinTeam(s, teamId, password, caller, now).value.rows, [teamId.value], Some(caller));
      && flags[0].hasJoin
      && flags[0].hasJoinNum == Some(MemberCount(s, teamId.value) + 1)
  {
  }

  /** After a successful quit the viewer sees the team, if it still exists,
      marked as not joined. */
  lemma QuitThenFlag(s: State, teamId: Option<int>, caller: int)
    requires QuitTeam(s, teamId, caller).Success?
    ensures !FlagJoinedTeams(QuitTeam(s, teamId, caller).value.rows, [teamId.value], Some(caller))[0].hasJoin
  {
    QuitEffect(s, teamId, caller);
  }
}
