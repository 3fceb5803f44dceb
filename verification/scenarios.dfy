/** Concrete runs of the team and user services, and the consequences of
    their rules that cut across several operations: a full team, a SECRET
    team's password, captain succession, dissolving then joining, rejoining
    after a quit, a succession that lifts a user over the ownership quota,
    and a small ranking. */
module Scenarios {
  import opened Common
  import opened Membership
  import opened Teams
  import opened TeamInvariant
  import opened Users
  import opened Ranking

  function PublicTeam(maxNum: int, owner: int): Team {
    Team("team", None, maxNum, Some(0), None, None, owner)
  }

  const Pair: State := State(map[1 := PublicTeam(2, 10)], [Row(1, 1, 10)], 2, 2)
  const PairJoined: State := State(map[1 := PublicTeam(2, 10)], [Row(1, 1, 10), Row(2, 1, 11)], 2, 3)

  lemma PairJoinAllowed()
    ensures JoinAllowed(Pair, Some(1), None, 11, 0)
  {
    SingleRow(Row(1, 1, 10), 1, 11);
    assert MemberCount(Pair, 1) == 1;
  }

  /** A team with room for two and one member admits a second user ... */
  lemma SecondJoinAdmitted()
    ensures JoinTeam(Pair, Some(1), None, 11, 0) == Success(PairJoined)
  {
    PairJoinAllowed();
    var r := JoinTeam(Pair, Some(1), None, 11, 0);
    assert r.value.rows == PairJoined.rows;
    assert r.value == PairJoined;
  }

  lemma PairJoinedCounts()
    ensures MemberCount(PairJoined, 1) == 2
    ensures UserRowCount(PairJoined.rows, 12) == 0 && PairCount(PairJoined.rows, 1, 12) == 0
  {
    var a, b := [Row(1, 1, 10)], [Row(2, 1, 11)];
    assert PairJoined.rows == a + b;
    SingleRow(Row(1, 1, 10), 1, 12);
    SingleRow(Row(2, 1, 11), 1, 12);
    TeamRowsConcat(a, b, 1);
    PairCountConcat(a, b, 1, 12);
    UserRowCountConcat(a, b, 12);
  }

  /** ... and then refuses a third as full. */
  lemma FullTeamRefusesThird()
    ensures JoinTeam(PairJoined, Some(1), None, 12, 0) == Failure(TeamFull)
  {
    PairJoinedCounts();
  }

  const SecretStore: State := State(map[1 := Team("team", None, 5, Some(2), Some("abc123"), None, 10)], [Row(1, 1, 10)], 2, 2)

  /** A SECRET team with password "abc123" refuses "wrong" ... */
  lemma SecretTeamRefusesWrongPassword()
    ensures JoinTeam(SecretStore, Some(1), Some("wrong"), 11, 0) == Failure(WrongPassword)
  {
    assert "wrong" != "abc123";
  }

  lemma SecretStoreCounts()
    ensures MemberCount(SecretStore, 1) == 1
    ensures UserRowCount(SecretStore.rows, 11) == 0 && PairCount(SecretStore.rows, 1, 11) == 0
  {
    SingleRow(Row(1, 1, 10), 1, 11);
  }

  /** ... and admits "abc123". */
  lemma SecretTeamAdmitsPassword()
    ensures JoinTeam(SecretStore, Some(1), Some("abc123"), 11, 0).Success?
  {
    assert !IsWhitespace("abc123"[0]);
    assert !Blank("abc123");
    SecretStoreCounts();
    assert PasswordAccepted(SecretStore.teams[1], Some("abc123"));
    assert JoinAllowed(SecretStore, Some(1), Some("abc123"), 11, 0);
  }

  /** Captain A (user 10), then B (11), then C (12), all in team 1. */
  const Trio: State := State(map[1 := PublicTeam(5, 10)], [Row(1, 1, 10), Row(2, 1, 11), Row(3, 1, 12)], 2, 4)

  lemma TrioTeamRows()
    ensures TeamRows(Trio.rows, 1) == Trio.rows
  {
    var r1, r2, r3 := Row(1, 1, 10), Row(2, 1, 11), Row(3, 1, 12);
    assert Trio.rows == [r1] + ([r2] + [r3]);
    SingleRow(r1, 1, 10);
    SingleRow(r2, 1, 10);
    SingleRow(r3, 1, 10);
    TeamRowsConcat([r2], [r3], 1);
    TeamRowsConcat([r1], [r2] + [r3], 1);
  }

  lemma TrioCaptainRow()
    ensures PairCount(Trio.rows, 1, 10) == 1
  {
    var r1, r2, r3 := Row(1, 1, 10), Row(2, 1, 11), Row(3, 1, 12);
    assert Trio.rows == [r1] + ([r2] + [r3]);
    SingleRow(r1, 1, 10);
    SingleRow(r2, 1, 10);
    SingleRow(r3, 1, 10);
    PairCountConcat([r2], [r3], 1, 10);
    PairCountConcat([r1], [r2] + [r3], 1, 10);
  }

  /** In a store holding only one team's rows, captain first and once,
      the captain's quit hands the team to the second row's user and
      leaves the remaining rows in order. */
  lemma SuccessionInOwnStore(s: State, t: int, captain: int)
    requires t > 0 && t in s.teams && s.teams[t].owner == captain
    requires TeamRows(s.rows, t) == s.rows && |s.rows| >= 2
    requires IsPair(s.rows[0], t, captain) && PairCount(s.rows, t, captain) == 1
    ensures var s' := QuitTeam(s, Some(t), captain);
      && s'.Success?
      && t in s'.value.teams && s'.value.teams[t].owner == s.rows[1].userId
      && TeamRows(s'.value.rows, t) == s.rows[1..]
  {
    QuitEffect(s, Some(t), captain);
    DropFirstOwnRow(s.rows, t, captain);
    TeamRowsDropPair(s.rows, t, captain, t);
  }

  /** When the captain A quits, B becomes captain and the team keeps the
      rows of B and C, in that order. */
  lemma CaptainSuccessionToSecond()
    ensures var s' := QuitTeam(Trio, Some(1), 10);
      && s'.Success?
      && s'.value.teams[1].owner == 11
      && TeamRows(s'.value.rows, 1) == [Row(2, 1, 11), Row(3, 1, 12)]
  {
    TrioTeamRows();
    TrioCaptainRow();
    SuccessionInOwnStore(Trio, 1, 10);
    assert Trio.rows[1..] == [Row(2, 1, 11), Row(3, 1, 12)];
  }

  /** Once a team is dissolved, joining it fails as "not found". */
  lemma DissolvedTeamIsGone(s: State, teamId: int, caller: int, password: Option<string>, joiner: int, now: int)
    requires DeleteTeam(s, teamId, caller).Success?
    ensures JoinTeam(DeleteTeam(s, teamId, caller).value, Some(teamId), password, joiner, now) == Failure(TeamNotFound)
  {
  }

  /** Quitting and joining again gives the user one row for the team, and
      it is later by id than every row the store held before the quit. */
  lemma RejoinGetsLaterRow(s: State, t: int, u: int, password: Option<string>, now: int)
    requires Inv(s)
    requires QuitTeam(s, Some(t), u).Success?
    requires JoinTeam(QuitTeam(s, Some(t), u).value, Some(t), password, u, now).Success?
    ensures var s2 := JoinTeam(QuitTeam(s, Some(t), u).value, Some(t), password, u, now).value;
      && PairCount(s2.rows, t, u) == 1
      && s2.rows[|s2.rows| - 1] == Row(s.nextRowId, t, u)
      && forall i :: 0 <= i < |s.rows| ==> s.rows[i].id < s2.rows[|s2.rows| - 1].id
  {
    QuitEffect(s, Some(t), u);
  }

  /** Changing the captain of a team from one user to another adds the team
      to the new captain's count. */
  lemma OwnedCountTransfer(teams: map<int, Team>, t: int, b: int)
    requires t in teams && teams[t].owner != b
    ensures OwnedCount(teams[t := teams[t].(owner := b)], b) == OwnedCount(teams, b) + 1
  {
    assert OwnedTeams(teams[t := teams[t].(owner := b)], b) == OwnedTeams(teams, b) + {t};
  }

  /** The ownership quota binds creation only: a user who already owns five
      teams and holds the second row of another team becomes its captain
      when that captain quits, and then owns six. */
  lemma SuccessionExceedsOwnedQuota(s: State, t: int, a: int, b: int)
    requires t > 0 && t in s.teams && s.teams[t].owner == a && a != b
    requires MemberCount(s, t) >= 2 && TeamRows(s.rows, t)[1].userId == b
    requires PairCount(s.rows, t, a) > 0
    requires OwnedCount(s.teams, b) == MAX_OWNED
    ensures QuitTeam(s, Some(t), a).Success?
    ensures OwnedCount(QuitTeam(s, Some(t), a).value.teams, b) == MAX_OWNED + 1
  {
    QuitEffect(s, Some(t), a);
    var s' := QuitTeam(s, Some(t), a).value;
    assert s'.teams == s.teams[t := s.teams[t].(owner := b)];
    OwnedCountTransfer(s.teams, t, b);
  }

  // ---------------------------------------------------------------------
  // Lengths in UTF-16 units

  /** Four emoji, each outside the Basic Multilingual Plane. */
  const Emoji4: string := "\U{1F600}\U{1F600}\U{1F600}\U{1F600}"

  /** Four emoji are eight UTF-16 units: a long enough password. */
  lemma FourEmojiPasswordAccepted()
    ensures Utf16Length(Emoji4) == 8
    ensures RegistrationInputFault("alice", Emoji4, Emoji4, "1") == None
  {
    assert !IsWhitespace(Emoji4[0]) && !IsWhitespace("alice"[0]) && !IsWhitespace("1"[0]);
    assert AccountPattern("alice");
  }

  /** Three emoji are six UTF-16 units: too long for a planet code, though
      only three characters. */
  lemma ThreeEmojiPlanetCodeRefused()
    ensures RegistrationInputFault("alice", "password", "password", "\U{1F600}\U{1F600}\U{1F600}") == Some(PlanetCodeTooLong)
  {
    var code := "\U{1F600}\U{1F600}\U{1F600}";
    assert Utf16Length(code) == 6;
    assert !IsWhitespace("alice"[0]) && !IsWhitespace("password"[0]) && !IsWhitespace(code[0]);
  }

  /** Eleven emoji are twenty-two UTF-16 units: too long for a team name. */
  lemma ElevenEmojiNameRefused()
    ensures var name := seq(11, _ => '\U{1F600}');
      DraftFault(TeamDraft(Some(name), None, Some(5), None, None, None), 0) == Some(BadName)
  {
    var name := seq(11, _ => '\U{1F600}');
    assert Utf16Length(name) == 22;
  }

  // ---------------------------------------------------------------------
  // Ranking

  function Member(id: int, tag: string): User {
    User(id, None, None, None, None, Some("digest"), None, None, None, None, None, None, 0, None, Some([tag]))
  }

  /** Distances 1, 3 and 0 from the caller to users 1, 2 and 3. */
  function SampleDistance(mine: seq<string>, theirs: seq<string>): nat {
    if theirs == ["b"] then 3 else if theirs == ["c"] then 0 else 1
  }

  const Sample: seq<User> := [Member(1, "a"), Member(2, "b"), Member(3, "c"), Member(9, "me")]
  const SampleCandidates: seq<User> := [Member(1, "a"), Member(2, "b"), Member(3, "c")]

  lemma SampleEligibles()
    ensures Eligibles(Sample, 9) == SampleCandidates
  {
    var es := SampleCandidates;
    assert Sample[..3] == es;
    assert es[..2][..1] == [Member(1, "a")];
    assert es[..2] == [Member(1, "a"), Member(2, "b")];
    assert es[..1][..0] == [];
  }

  lemma SampleSorted()
    ensures SortByDistance(Score(SampleCandidates, ["me"], SampleDistance))
         == [Candidate(2, Member(3, "c"), 0), Candidate(0, Member(1, "a"), 1), Candidate(1, Member(2, "b"), 3)]
  {
    var c1, c2, c3 := Candidate(0, Member(1, "a"), 1), Candidate(1, Member(2, "b"), 3), Candidate(2, Member(3, "c"), 0);
    var scored := Score(SampleCandidates, ["me"], SampleDistance);
    assert scored == [c1, c2, c3];
    assert scored[..2][..1] == [c1];
    assert scored[..2] == [c1, c2];
    assert scored[..1][..0] == [];
    assert SortByDistance([c1]) == [c1];
    assert Insert(c2, [c1]) == [c1, c2];
    assert Insert(c3, [c1, c2]) == [c3, c1, c2];
  }

  lemma SampleTop()
    ensures TopCandidates(Sample, Member(9, "me"), 2, SampleDistance)
         == [Candidate(2, Member(3, "c"), 0), Candidate(0, Member(1, "a"), 1)]
  {
    SampleEligibles();
    SampleSorted();
  }

  lemma SampleUniqueIds()
    ensures UniqueIds(Sample)
  {
  }

  /** Whenever the two top candidates are known, the match result is
      those two users, redacted, in rank order. */
  lemma MatchedTopTwo(users: seq<User>, caller: User, dist: (seq<string>, seq<string>) -> nat, a: User, b: User)
    requires UniqueIds(users) && caller.tags.Some? && Eligibles(users, caller.id) != []
    requires var top := TopCandidates(users, caller, 2, dist); |top| == 2 && top[0].user == a && top[1].user == b
    ensures MatchUsers(users, caller, 2, dist) == Success([Safe(a), Safe(b)])
  {
    MatchUsersRanked(users, caller, 2, dist);
    var r := MatchUsers(users, caller, 2, dist).value;
    assert r == [Safe(a), Safe(b)];
  }

  /** Asking for two matches among candidates at distances 1, 3 and 0
      returns the candidates at distances 0 and 1, closest first,
      redacted. */
  lemma TopTwoOfThree()
    ensures MatchUsers(Sample, Member(9, "me"), 2, SampleDistance) == Success([Safe(Member(3, "c")), Safe(Member(1, "a"))])
  {
    SampleEligibles();
    SampleTop();
    SampleUniqueIds();
    MatchedTopTwo(Sample, Member(9, "me"), SampleDistance, Member(3, "c"), Member(1, "a"));
  }
}
