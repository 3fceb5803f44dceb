/** The team service's lifecycle operations over an in-memory store: create,
    join, quit (with captain succession), dissolve and update. Every
    operation either fails with a fault, leaving the store as it was, or
    returns the new store; this stands for the all-or-nothing transaction
    around each operation. The acting user is passed explicitly and "now" is
    an integer timestamp. */
module Teams {
  import opened Common
  import opened Membership
  import Users

  datatype TeamStatus = Public | Private | Secret

  /** The status enum's lookup by stored value; unknown values (and null)
      have no enum constant. */
  function StatusOf(v: Option<int>): (s: Option<TeamStatus>)
    ensures s == Some(Public) <==> v == Some(0)
    ensures s == Some(Private) <==> v == Some(1)
    ensures s == Some(Secret) <==> v == Some(2)
  {
    match v
    case Some(0) => Some(Public)
    case Some(1) => Some(Private)
    case Some(2) => Some(Secret)
    case _ => None
  }

  /** A row of the team table; `owner` is the captain's user id. */
  datatype Team = Team(
    name: string,
    description: Option<string>,
    maxNum: int,
    status: Option<int>,
    password: Option<string>,
    expireTime: Option<int>,
    owner: int)

  /** The team table keyed by id, the team_user table in id order, and the
      next auto-increment id of each. */
  datatype State = State(teams: map<int, Team>, rows: seq<Row>, nextTeamId: int, nextRowId: int)

  datatype TeamFault =
    | MaxNumOutOfRange
    | BadName
    | DescriptionTooLong
    | UnknownStatus
    | PasswordTooLong
    | ExpiryPassed
    | CreateQuotaReached
    | BadTeamId
    | TeamNotFound
    | TeamExpired
    | TeamPrivate
    | WrongPassword
    | JoinQuotaReached
    | AlreadyJoined
    | TeamFull
    | NotJoined
    | SuccessorMissing
    | NotCaptain
    | NotOwnerOrAdmin
    | SecretNeedsPassword
    | RowRemovalFailed
  {
    function Code(): ErrorCode {
      match this
      case TeamNotFound => NullError
      case NotCaptain | NotOwnerOrAdmin => NoAuth
      case SuccessorMissing | RowRemovalFailed => SystemError
      case _ => ParamsError
    }
  }

  /** How many teams a user may own, and how many teams a user may be in
      when joining another. */
  const MAX_OWNED: int := 5
  const MAX_JOINED: int := 5

  /** The ids of the teams a user owns (`where userId = u` on the team
      table). */
  function OwnedTeams(teams: map<int, Team>, u: int): set<int> {
    set t | t in teams && teams[t].owner == u
  }

  function OwnedCount(teams: map<int, Team>, u: int): nat {
    |OwnedTeams(teams, u)|
  }

  /** Adding a team under a new id adds one to its owner's count only. */
  lemma OwnedCountInsert(teams: map<int, Team>, id: int, team: Team, u: int)
    requires id !in teams
    ensures OwnedCount(teams[id := team], u) == OwnedCount(teams, u) + (if team.owner == u then 1 else 0)
  {
    if team.owner == u {
      assert OwnedTeams(teams[id := team], u) == OwnedTeams(teams, u) + {id};
    } else {
      assert OwnedTeams(teams[id := team], u) == OwnedTeams(teams, u);
    }
  }

  /** The number of members of team t. */
  function MemberCount(s: State, t: int): nat {
    |TeamRows(s.rows, t)|
  }

  // ---------------------------------------------------------------------
  // Create

  /** The fields of a create request; null fields are None. */
  datatype TeamDraft = TeamDraft(
    name: Option<string>,
    description: Option<string>,
    maxNum: Option<int>,
    status: Option<int>,
    password: Option<string>,
    expireTime: Option<int>)

  /** The creation rules, one conjunct per rule. A null member cap or status
      reads as 0; lengths count UTF-16 units, as Java's `length()` does; a
      SECRET team's password is bounded only when it is not blank; an expiry
      equal to now is still acceptable. */
  predicate DraftValid(d: TeamDraft, now: int) {
    && 1 <= d.maxNum.GetOr(0) <= 20
    && !BlankOpt(d.name) && Utf16Length(d.name.value) <= 20
    && (BlankOpt(d.description) || Utf16Length(d.description.value) <= 512)
    && StatusOf(Some(d.status.GetOr(0))).Some?
    && (StatusOf(Some(d.status.GetOr(0))) == Some(Secret) && !BlankOpt(d.password) ==> Utf16Length(d.password.value) <= 32)
    && (d.expireTime.Some? ==> now <= d.expireTime.value)
  }

  /** The first creation rule that fails, in the order the service checks
      them. */
  function DraftFault(d: TeamDraft, now: int): (f: Option<TeamFault>)
    ensures f.None? <==> DraftValid(d, now)
    ensures f.Some? ==> f.value.Code() == ParamsError
    ensures f == Some(MaxNumOutOfRange) <==> !(1 <= d.maxNum.GetOr(0) <= 20)
  {
    var maxNum := d.maxNum.GetOr(0);
    var status := StatusOf(Some(d.status.GetOr(0)));
    if maxNum < 1 || maxNum > 20 then Some(MaxNumOutOfRange)
    else if BlankOpt(d.name) || Utf16Length(d.name.value) > 20 then Some(BadName)
    else if !BlankOpt(d.description) && Utf16Length(d.description.value) > 512 then Some(DescriptionTooLong)
    else if status.None? then Some(UnknownStatus)
    else if status == Some(Secret) && !BlankOpt(d.password) && Utf16Length(d.password.value) > 32 then Some(PasswordTooLong)
    else if d.expireTime.Some? && now > d.expireTime.value then Some(ExpiryPassed)
    else None
  }

  /** addTeam: validate the draft, refuse a caller who already owns five
      teams, then insert the team (owned by the caller, under a fresh id) and
      the caller's membership row; returns the new state and the team id.
      The draft is saved with a null status left out of the insert, so the
      column takes the table's default, taken here to be 0 (PUBLIC), the
      value the validation reads a null status as. */
  function AddTeam(s: State, d: TeamDraft, caller: int, now: int): (r: Result<(State, int), TeamFault>)
    ensures r.Success? <==> DraftValid(d, now) && OwnedCount(s.teams, caller) < MAX_OWNED
    ensures r.Failure? ==> r.error.Code() == ParamsError
    ensures DraftValid(d, now) && OwnedCount(s.teams, caller) >= MAX_OWNED ==> r == Failure(CreateQuotaReached)
    ensures r.Success? ==>
      var (s', id) := r.value;
      && id == s.nextTeamId
      && s'.teams.Keys == s.teams.Keys + {id}
      && (forall t :: t in s.teams && t != id ==> s'.teams[t] == s.teams[t])
      && s'.teams == s.teams[id := s'.teams[id]]
      && s'.teams[id].owner == caller
      && s'.teams[id].name == d.name.value
      && s'.teams[id].description == d.description
      && s'.teams[id].maxNum == d.maxNum.value
      && 1 <= s'.teams[id].maxNum <= 20
      && !Blank(s'.teams[id].name) && Utf16Length(s'.teams[id].name) <= 20
      && s'.teams[id].status == Some(d.status.GetOr(0))
      && StatusOf(s'.teams[id].status).Some?
      && s'.teams[id].password == d.password
      && s'.teams[id].expireTime == d.expireTime
      && s'.rows == s.rows + [Row(s.nextRowId, id, caller)]
      && s'.nextTeamId == s.nextTeamId + 1
      && s'.nextRowId == s.nextRowId + 1
  {
    var fault := DraftFault(d, now);
    if fault.Some? then Failure(fault.value)
    else if OwnedCount(s.teams, caller) >= MAX_OWNED then Failure(CreateQuotaReached)
    else
      var id := s.nextTeamId;
      var team := Team(d.name.value, d.description, d.maxNum.value, Some(d.status.GetOr(0)), d.password, d.expireTime, caller);
      Success((State(s.teams[id := team], s.rows + [Row(s.nextRowId, id, caller)], id + 1, s.nextRowId + 1), id))
  }

  // ---------------------------------------------------------------------
  // Join

  predicate Expired(team: Team, now: int) {
    team.expireTime.Some? && team.expireTime.value < now
  }

  /** A SECRET team admits only a non-blank password equal to its own;
      other teams ignore the password. */
  predicate PasswordAccepted(team: Team, password: Option<string>) {
    StatusOf(team.status) == Some(Secret) ==> !BlankOpt(password) && password == team.password
  }

  /** The join rules, one conjunct per rule. */
  predicate JoinAllowed(s: State, teamId: Option<int>, password: Option<string>, caller: int, now: int) {
    && teamId.Some? && teamId.value > 0
    && teamId.value in s.teams
    && !Expired(s.teams[teamId.value], now)
    && StatusOf(s.teams[teamId.value].status) != Some(Private)
    && PasswordAccepted(s.teams[teamId.value], password)
    && UserRowCount(s.rows, caller) < MAX_JOINED
    && PairCount(s.rows, teamId.value, caller) == 0
    && MemberCount(s, teamId.value) < s.teams[teamId.value].maxNum
  }

  /** joinTeam: the team checks (present, not expired, not PRIVATE, right
      password for SECRET), then, as one atomic step, the count checks (the
      caller is in fewer than five teams, not yet in this one, and the team
      is not full) and the insertion of the caller's row. */
  function JoinTeam(s: State, teamId: Option<int>, password: Option<string>, caller: int, now: int): (r: Result<State, TeamFault>)
    ensures r.Success? <==> JoinAllowed(s, teamId, password, caller, now)
    ensures r.Failure? ==> r.error.Code() in {ParamsError, NullError}
    ensures r.Failure? ==> (r.error == TeamNotFound <==> teamId.Some? && teamId.value > 0 && teamId.value !in s.teams)
    ensures r.Success? ==>
      var t := teamId.value;
      && r.value.teams == s.teams
      && r.value.rows == s.rows + [Row(s.nextRowId, t, caller)]
      && r.value.nextTeamId == s.nextTeamId
      && r.value.nextRowId == s.nextRowId + 1
      && MemberCount(r.value, t) == MemberCount(s, t) + 1 <= s.teams[t].maxNum
      && PairCount(r.value.rows, t, caller) == 1
  {
    if teamId.None? || teamId.value <= 0 then Failure(BadTeamId)
    else
      var t := teamId.value;
      if t !in s.teams then Failure(TeamNotFound)
      else
        var team := s.teams[t];
        if Expired(team, now) then Failure(TeamExpired)
        else if StatusOf(team.status) == Some(Private) then Failure(TeamPrivate)
        else if StatusOf(team.status) == Some(Secret) && (BlankOpt(password) || password != team.password) then Failure(WrongPassword)
        else if UserRowCount(s.rows, caller) >= MAX_JOINED then Failure(JoinQuotaReached)
        else if PairCount(s.rows, t, caller) > 0 then Failure(AlreadyJoined)
        else if team.maxNum <= MemberCount(s, t) then Failure(TeamFull)
        else
          var row := Row(s.nextRowId, t, caller);
          TeamRowsConcat(s.rows, [row], t);
          PairCountConcat(s.rows, [row], t, caller);
          Success(s.(rows := s.rows + [row], nextRowId := s.nextRowId + 1))
  }

  // ---------------------------------------------------------------------
  // Quit

  /** `where teamId = t order by id asc limit 2`. */
  function FirstTwoRows(s: State, t: int): seq<Row> {
    var rs := TeamRows(s.rows, t);
    if |rs| <= 2 then rs else rs[..2]
  }

  /** quitTeam: the team must exist and the caller must have a row for it.
      The last member's quit also deletes the team; a captain's quit with
      others left hands the team to the holder of the second row by id. In
      every successful case the caller's row, and only it, is deleted. */
  function QuitTeam(s: State, teamId: Option<int>, caller: int): (r: Result<State, TeamFault>)
    ensures r.Success? <==> teamId.Some? && teamId.value > 0 && teamId.value in s.teams
                            && PairCount(s.rows, teamId.value, caller) > 0
    ensures r.Failure? ==> r.error in {BadTeamId, TeamNotFound, NotJoined}
  {
    if teamId.None? || teamId.value <= 0 then Failure(BadTeamId)
    else
      var t := teamId.value;
      if t !in s.teams then Failure(TeamNotFound)
      else if PairCount(s.rows, t, caller) <= 0 then Failure(NotJoined)
      else
        var team := s.teams[t];
        var rows' := DropPair(s.rows, t, caller);
        if MemberCount(s, t) == 1 then
          Success(s.(teams := s.teams - {t}, rows := rows'))
        else if team.owner == caller then
          var firstTwo := FirstTwoRows(s, t);
          CallerIsMember(s, t, caller);
          if |firstTwo| <= 1 then
            // a member count other than 1 that includes the caller is at least 2
            assert false;
            Failure(SuccessorMissing)
          else
            var successor := firstTwo[1].userId;
            Success(s.(teams := s.teams[t := team.(owner := successor)], rows := rows'))
        else
          Success(s.(rows := rows'))
  }

  /** A user who has a row in a team is counted among its members. */
  lemma CallerIsMember(s: State, t: int, u: int)
    requires PairCount(s.rows, t, u) > 0
    ensures MemberCount(s, t) > 0
  {
    PairCountTeamRows(s.rows, t, u);
    PairCountZero(TeamRows(s.rows, t), t, u);
  }

  /** What a successful quit leaves behind: exactly the caller's row of that
      team is gone; the team disappears exactly when the caller was its only
      member; a captain's departure hands the team to the user of the
      second row by id; a member's departure leaves the team untouched; no
      other team changes. */
  lemma QuitEffect(s: State, teamId: Option<int>, caller: int)
    requires QuitTeam(s, teamId, caller).Success?
    ensures var t, s' := teamId.value, QuitTeam(s, teamId, caller).value;
      && s'.rows == DropPair(s.rows, t, caller)
      && PairCount(s'.rows, t, caller) == 0
      && s'.nextTeamId == s.nextTeamId && s'.nextRowId == s.nextRowId
      && (t in s'.teams <==> MemberCount(s, t) != 1)
      && s'.teams.Keys <= s.teams.Keys
      && (forall t' :: t' in s.teams && t' != t ==> t' in s'.teams && s'.teams[t'] == s.teams[t'])
      && (t in s'.teams ==> s'.teams[t] == s.teams[t].(owner := s'.teams[t].owner))
      && (t in s'.teams && s.teams[t].owner != caller ==> s'.teams[t] == s.teams[t])
      && (t in s'.teams && s.teams[t].owner == caller ==> s'.teams[t].owner == TeamRows(s.rows, t)[1].userId)
  {
    PairCountDropPair(s.rows, teamId.value, caller, teamId.value, caller);
  }

  // ---------------------------------------------------------------------
  // Dissolve

  /** deleteTeam: only the captain may dissolve; every row of the team is
      deleted (an empty deletion is reported as a system error), then the
      team itself. */
  function DeleteTeam(s: State, teamId: int, caller: int): (r: Result<State, TeamFault>)
    ensures r.Success? <==> teamId > 0 && teamId in s.teams && s.teams[teamId].owner == caller && MemberCount(s, teamId) > 0
    ensures teamId > 0 && teamId !in s.teams ==> r == Failure(TeamNotFound)
    ensures teamId > 0 && teamId in s.teams && s.teams[teamId].owner != caller ==> r.Failure? && r.error.Code() == NoAuth
    ensures r.Success? ==>
      var s' := r.value;
      && s'.teams.Keys == s.teams.Keys - {teamId}
      && (forall t :: t in s'.teams ==> s'.teams[t] == s.teams[t])
      && TeamRows(s'.rows, teamId) == []
      && (forall t :: t != teamId ==> TeamRows(s'.rows, t) == TeamRows(s.rows, t))
      && s'.nextTeamId == s.nextTeamId && s'.nextRowId == s.nextRowId
  {
    if teamId <= 0 then Failure(BadTeamId)
    else if teamId !in s.teams then Failure(TeamNotFound)
    else if s.teams[teamId].owner != caller then Failure(NotCaptain)
    else if MemberCount(s, teamId) == 0 then Failure(RowRemovalFailed)
    else
      var rows' := DropTeam(s.rows, teamId);
      assert forall t :: TeamRows(rows', t) == if t == teamId then [] else TeamRows(s.rows, t) by {
        forall t { TeamRowsDropTeam(s.rows, teamId, t); }
      }
      Success(s.(teams := s.teams - {teamId}, rows := rows'))
  }

  /** deleteTeam as written: the captain test compares the two boxed user
      ids by reference, so it recognises the captain only when the id lies
      in the boxing cache. A captain with any other id is refused. */
  function DeleteTeamAsWritten(s: State, teamId: int, caller: int): (r: Result<State, TeamFault>)
    ensures r.Success? <==> DeleteTeam(s, teamId, caller).Success? && -128 <= caller <= 127
    ensures r.Success? ==> r == DeleteTeam(s, teamId, caller)
  {
    if teamId > 0 && teamId in s.teams && !BoxedSame(s.teams[teamId].owner, caller) then
      if s.teams[teamId].owner == caller then Failure(NotCaptain) else DeleteTeam(s, teamId, caller)
    else DeleteTeam(s, teamId, caller)
  }

  /** The captain of team 1, user 200, its only member: the code as written
      refuses the dissolve as "not the captain"; the intended rule allows
      it. */
  lemma CaptainRefusedAsWritten()
    ensures var s := State(map[1 := Team("t", None, 5, Some(0), None, None, 200)], [Row(1, 1, 200)], 2, 2);
      && DeleteTeamAsWritten(s, 1, 200) == Failure(NotCaptain)
      && DeleteTeam(s, 1, 200).Success?
  {
    var s := State(map[1 := Team("t", None, 5, Some(0), None, None, 200)], [Row(1, 1, 200)], 2, 2);
    assert TeamRows(s.rows, 1) == [Row(1, 1, 200)];
  }

  // ---------------------------------------------------------------------
  // Update

  /** The fields of an update request; None leaves a column unchanged. */
  datatype TeamPatch = TeamPatch(
    id: Option<int>,
    name: Option<string>,
    description: Option<string>,
    expireTime: Option<int>,
    status: Option<int>,
    password: Option<string>)

  function Patched(team: Team, p: TeamPatch): Team {
    team.(name := p.name.GetOr(team.name),
          description := if p.description.Some? then p.description else team.description,
          expireTime := if p.expireTime.Some? then p.expireTime else team.expireTime,
          status := if p.status.Some? then p.status else team.status,
          password := if p.password.Some? then p.password else team.password)
  }

  /** updateTeam: the captain or an administrator may update; switching to
      SECRET needs a non-blank password. No other creation rule is
      re-checked, and neither the captain nor the memberships change. */
  function UpdateTeam(s: State, p: TeamPatch, loginUser: Users.User): (r: Result<State, TeamFault>)
    ensures r.Success? <==>
      && p.id.Some? && p.id.value > 0 && p.id.value in s.teams
      && (s.teams[p.id.value].owner == loginUser.id || Users.IsAdmin(Some(loginUser)))
      && (StatusOf(p.status) == Some(Secret) ==> !BlankOpt(p.password))
    ensures (p.id.Some? && p.id.value > 0 && p.id.value in s.teams
             && s.teams[p.id.value].owner != loginUser.id && !Users.IsAdmin(Some(loginUser)))
            ==> r == Failure(NotOwnerOrAdmin)
    ensures r.Success? ==>
      var t := p.id.value;
      && r.value.rows == s.rows
      && r.value.teams.Keys == s.teams.Keys
      && (forall t' :: t' in s.teams && t' != t ==> r.value.teams[t'] == s.teams[t'])
      && r.value.teams[t].owner == s.teams[t].owner
      && r.value.teams[t].maxNum == s.teams[t].maxNum
      && r.value.teams[t].name == p.name.GetOr(s.teams[t].name)
      && r.value.teams[t].description == (if p.description.Some? then p.description else s.teams[t].description)
      && r.value.teams[t].expireTime == (if p.expireTime.Some? then p.expireTime else s.teams[t].expireTime)
      && r.value.teams[t].status == (if p.status.Some? then p.status else s.teams[t].status)
      && r.value.teams[t].password == (if p.password.Some? then p.password else s.teams[t].password)
      && (StatusOf(r.value.teams[t].status) == Some(Secret) && p.status.Some? ==> !BlankOpt(r.value.teams[t].password))
      && r.value.nextTeamId == s.nextTeamId && r.value.nextRowId == s.nextRowId
  {
    if p.id.None? || p.id.value <= 0 then Failure(BadTeamId)
    else
      var t := p.id.value;
      if t !in s.teams then Failure(TeamNotFound)
      else if s.teams[t].owner != loginUser.id && !Users.IsAdmin(Some(loginUser)) then Failure(NotOwnerOrAdmin)
      else if StatusOf(p.status) == Some(Secret) && BlankOpt(p.password) then Failure(SecretNeedsPassword)
      else Success(s.(teams := s.teams[t := Patched(s.teams[t], p)]))
  }
}
