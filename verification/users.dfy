/** The user service's rules: registration and login validation, the
    redacted ("safety") copy of a user, the in-memory tag search, the
    permission check on profile updates, and the admin test. The user table
    is a sequence in store order; the password digest is a parameter. */
module Users {
  import opened Common

  /** The role value that marks an administrator. */
  const ADMIN_ROLE: int := 1

  /** The fixed prefix mixed into every password before it is digested. */
  const SALT: string := "fdt"

  /** A row of the user table. `tags` is the JSON tag list already parsed:
      None stands for a blank (or null) tag column. */
  datatype User = User(
    id: int,
    username: Option<string>,
    userAccount: Option<string>,
    avatarUrl: Option<string>,
    gender: Option<int>,
    userPassword: Option<string>,
    phone: Option<string>,
    email: Option<string>,
    userStatus: Option<int>,
    createTime: Option<int>,
    updateTime: Option<int>,
    isDelete: Option<int>,
    userRole: int,
    planetCode: Option<string>,
    tags: Option<seq<string>>)

  /** The user table in store order, and the next auto-increment id. */
  datatype UserStore = UserStore(users: seq<User>, nextId: int)

  datatype UserFault =
    | BlankField
    | AccountTooShort
    | PasswordTooShort
    | PlanetCodeTooLong
    | AccountHasSpecialChars
    | PasswordMismatch
    | AccountTaken
    | PlanetCodeTaken
    | LoginMismatch
    | AmbiguousLogin
    | NullUser
    | EmptyTagQuery
    | MissingUserId
    | BadUserId
    | NotSelfOrAdmin
    | UserNotFound
    | NegativeLimit
    | CallerTagsMissing
    | RankedUserMissing
    | EmptyIdQuery
  {
    function Code(): ErrorCode {
      match this
      case AmbiguousLogin | MissingUserId | NegativeLimit | CallerTagsMissing | RankedUserMissing | EmptyIdQuery => SystemError
      case NotSelfOrAdmin => NoAuth
      case UserNotFound => NullError
      case _ => ParamsError
    }
  }

  // ---------------------------------------------------------------------
  // Registration and login

  predicate IsAlnum(c: char) {
    'a' <= c <= 'z' || 'A' <= c <= 'Z' || '0' <= c <= '9'
  }

  /** The whole-string match of `^[a-zA-Z0-9]+$`. */
  predicate AccountPattern(s: string) {
    |s| > 0 && forall i :: 0 <= i < |s| ==> IsAlnum(s[i])
  }

  /** The input rules of registration, one conjunct per rule. Lengths count
      UTF-16 units, as Java's `length()` does. */
  predicate RegistrationInputValid(account: string, password: string, check: string, planetCode: string) {
    && !Blank(account) && !Blank(password) && !Blank(check) && !Blank(planetCode)
    && Utf16Length(account) >= 4
    && Utf16Length(password) >= 8 && Utf16Length(check) >= 8
    && Utf16Length(planetCode) <= 5
    && AccountPattern(account)
    && password == check
  }

  predicate AccountFree(users: seq<User>, account: string) {
    forall i :: 0 <= i < |users| ==> users[i].userAccount != Some(account)
  }

  predicate PlanetCodeFree(users: seq<User>, planetCode: string) {
    forall i :: 0 <= i < |users| ==> users[i].planetCode != Some(planetCode)
  }

  /** The stored digest of a password. */
  function Digest(hash: string -> string, password: string): string {
    hash(SALT + password)
  }

  /** The first input rule that fails, in the order the service checks them. */
  function RegistrationInputFault(account: string, password: string, check: string, planetCode: string): (f: Option<UserFault>)
    ensures f.None? <==> RegistrationInputValid(account, password, check, planetCode)
    ensures f.Some? ==> f.value.Code() == ParamsError
  {
    if Blank(account) || Blank(password) || Blank(check) || Blank(planetCode) then Some(BlankField)
    else if Utf16Length(account) < 4 then Some(AccountTooShort)
    else if Utf16Length(password) < 8 || Utf16Length(check) < 8 then Some(PasswordTooShort)
    else if Utf16Length(planetCode) > 5 then Some(PlanetCodeTooLong)
    else if !AccountPattern(account) then Some(AccountHasSpecialChars)
    else if password != check then Some(PasswordMismatch)
    else None
  }

  /** The record registration inserts: account, digested password and
      planet code, every other column left to its default. */
  function NewUser(id: int, account: string, digest: string, planetCode: string): User {
    User(id, None, Some(account), None, None, Some(digest), None, None, None,
         None, None, None, 0, Some(planetCode), None)
  }

  /** userRegister: validate, reject a taken account or planet code, then
      insert exactly one user and return its id. */
  function Register(st: UserStore, account: string, password: string, check: string, planetCode: string,
                    hash: string -> string): (r: Result<(UserStore, int), UserFault>)
    ensures r.Success? <==>
      && RegistrationInputValid(account, password, check, planetCode)
      && AccountFree(st.users, account)
      && PlanetCodeFree(st.users, planetCode)
    ensures r.Failure? ==> r.error.Code() == ParamsError
    ensures r.Failure? && RegistrationInputValid(account, password, check, planetCode) ==>
      r.error == (if AccountFree(st.users, account) then PlanetCodeTaken else AccountTaken)
    ensures r.Success? ==>
      var (st', id) := r.value;
      && id == st.nextId
      && st'.nextId == st.nextId + 1
      && |st'.users| == |st.users| + 1
      && st'.users[..|st.users|] == st.users
      && st'.users[|st.users|].id == id
      && st'.users[|st.users|].userAccount == Some(account)
      && st'.users[|st.users|].planetCode == Some(planetCode)
      && st'.users[|st.users|].userPassword == Some(Digest(hash, password))
      && st'.users[|st.users|].userRole != ADMIN_ROLE
  {
    var fault := RegistrationInputFault(account, password, check, planetCode);
    if fault.Some? then Failure(fault.value)
    else if !AccountFree(st.users, account) then Failure(AccountTaken)
    else if !PlanetCodeFree(st.users, planetCode) then Failure(PlanetCodeTaken)
    else
      var u := NewUser(st.nextId, account, Digest(hash, password), planetCode);
      Success((UserStore(st.users + [u], st.nextId + 1), st.nextId))
  }

  /** The input rules of login: registration's rules for the account and
      the password. */
  predicate LoginInputValid(account: string, password: string) {
    && !Blank(account) && !Blank(password)
    && Utf16Length(account) >= 4
    && Utf16Length(password) >= 8
    && AccountPattern(account)
  }

  /** A stored row the login query selects. */
  predicate LoginRow(u: User, account: string, digest: string) {
    u.userAccount == Some(account) && u.userPassword == Some(digest)
  }

  /** The users the login query selects: this account and this digest. */
  function LoginMatches(users: seq<User>, account: string, digest: string): (r: seq<User>)
    ensures forall x :: x in r <==> x in users && x.userAccount == Some(account) && x.userPassword == Some(digest)
    ensures AccountFree(users, account) ==> r == []
  {
    if |users| == 0 then []
    else
      var init := LoginMatches(users[..|users| - 1], account, digest);
      var last := users[|users| - 1];
      assert forall x :: x in users <==> x in users[..|users| - 1] || x == last;
      if last.userAccount == Some(account) && last.userPassword == Some(digest) then init + [last] else init
  }

  /** userLogin: the same blank, length and charset checks as registration
      (no confirmation, no planet code), then a single-row lookup by account
      and digest; the caller receives the redacted record. */
  function Login(st: UserStore, account: string, password: string, hash: string -> string): (r: Result<User, UserFault>)
    ensures r.Success? ==>
      exists i :: 0 <= i < |st.users| && st.users[i].userAccount == Some(account)
        && st.users[i].userPassword == Some(Digest(hash, password)) && r.value == Safe(st.users[i])
    ensures r.Success? ==> LoginInputValid(account, password)
    ensures !LoginInputValid(account, password) ==> r.Failure? && r.error.Code() == ParamsError
    ensures AccountFree(st.users, account) ==> r.Failure?
  {
    if Blank(account) || Blank(password) then Failure(BlankField)
    else if Utf16Length(account) < 4 then Failure(AccountTooShort)
    else if Utf16Length(password) < 8 then Failure(PasswordTooShort)
    else if !AccountPattern(account) then Failure(AccountHasSpecialChars)
    else
      var matches := LoginMatches(st.users, account, Digest(hash, password));
      if |matches| == 0 then Failure(LoginMismatch)
      else if |matches| > 1 then Failure(AmbiguousLogin)
      else
        assert matches[0] in matches;
        Success(Safe(matches[0]))
  }

  /** Registering and then logging in with the same account and password
      returns the redacted copy of the record that registration inserted. */
  lemma RegisterThenLogin(st: UserStore, account: string, password: string, check: string, planetCode: string,
                          hash: string -> string)
    requires Register(st, account, password, check, planetCode, hash).Success?
    ensures var (st', id) := Register(st, account, password, check, planetCode, hash).value;
      Login(st', account, password, hash) ==
        Success(Safe(NewUser(id, account, Digest(hash, password), planetCode)))
  {
    var (st', id) := Register(st, account, password, check, planetCode, hash).value;
    var d := Digest(hash, password);
    var u := NewUser(id, account, d, planetCode);
    assert st'.users == st.users + [u];
    assert st'.users[..|st'.users| - 1] == st.users;
    assert LoginMatches(st'.users, account, d) == [u];
  }

  /** With no stored row for the account and digest, the query returns
      nothing. */
  lemma {:induction false} LoginMatchesNone(users: seq<User>, account: string, digest: string)
    requires forall j :: 0 <= j < |users| ==> !LoginRow(users[j], account, digest)
    ensures LoginMatches(users, account, digest) == []
    decreases |users|
  {
    if |users| > 0 {
      var init := users[..|users| - 1];
      forall j | 0 <= j < |init| ensures !LoginRow(init[j], account, digest) {
        assert init[j] == users[j];
      }
      LoginMatchesNone(init, account, digest);
    }
  }

  /** With exactly one stored row for the account and digest, the query
      returns that row. */
  lemma {:induction false} LoginMatchesSole(users: seq<User>, account: string, digest: string, i: int)
    requires 0 <= i < |users| && LoginRow(users[i], account, digest)
    requires forall j :: 0 <= j < |users| && j != i ==> !LoginRow(users[j], account, digest)
    ensures LoginMatches(users, account, digest) == [users[i]]
    decreases |users|
  {
    var init := users[..|users| - 1];
    if i == |users| - 1 {
      forall j | 0 <= j < |init| ensures !LoginRow(init[j], account, digest) {
        assert init[j] == users[j];
      }
      LoginMatchesNone(init, account, digest);
    } else {
      forall j | 0 <= j < |init| && j != i ensures !LoginRow(init[j], account, digest) {
        assert init[j] == users[j];
      }
      LoginMatchesSole(init, account, digest, i);
    }
  }

  /** Two stored rows for the account and digest give the query at least
      two results. */
  lemma {:induction false} LoginMatchesTwo(users: seq<User>, account: string, digest: string, i: int, j: int)
    requires 0 <= i < j < |users|
    requires LoginRow(users[i], account, digest) && LoginRow(users[j], account, digest)
    ensures |LoginMatches(users, account, digest)| >= 2
    decreases |users|
  {
    var init := users[..|users| - 1];
    if j == |users| - 1 {
      assert init[i] == users[i];
      assert users[i] in LoginMatches(init, account, digest);
    } else {
      assert init[i] == users[i] && init[j] == users[j];
      LoginMatchesTwo(init, account, digest, i, j);
    }
  }

  /** Valid input with exactly one stored row for the account and the
      salted digest logs that row in, redacted, whatever else the store
      holds. */
  lemma LoginFindsSoleMatch(st: UserStore, account: string, password: string, hash: string -> string, i: int)
    requires LoginInputValid(account, password)
    requires 0 <= i < |st.users| && LoginRow(st.users[i], account, Digest(hash, password))
    requires forall j :: 0 <= j < |st.users| && j != i ==> !LoginRow(st.users[j], account, Digest(hash, password))
    ensures Login(st, account, password, hash) == Success(Safe(st.users[i]))
  {
    LoginMatchesSole(st.users, account, Digest(hash, password), i);
  }

  /** Login fails when no stored row has the account and the salted digest,
      and when two rows have them (the single-row query cannot pick one). */
  lemma LoginRefusesNoneOrTwo(st: UserStore, account: string, password: string, hash: string -> string)
    ensures (forall j :: 0 <= j < |st.users| ==> !LoginRow(st.users[j], account, Digest(hash, password)))
            ==> Login(st, account, password, hash).Failure?
    ensures (exists i, j :: 0 <= i < j < |st.users| && LoginRow(st.users[i], account, Digest(hash, password))
                                                    && LoginRow(st.users[j], account, Digest(hash, password)))
            ==> Login(st, account, password, hash).Failure?
  {
    var d := Digest(hash, password);
    if forall j :: 0 <= j < |st.users| ==> !LoginRow(st.users[j], account, d) {
      LoginMatchesNone(st.users, account, d);
    }
    if exists i, j :: 0 <= i < j < |st.users| && LoginRow(st.users[i], account, d) && LoginRow(st.users[j], account, d) {
      var i, j :| 0 <= i < j < |st.users| && LoginRow(st.users[i], account, d) && LoginRow(st.users[j], account, d);
      LoginMatchesTwo(st.users, account, d, i, j);
    }
  }

  // ---------------------------------------------------------------------
  // Redaction

  /** The redacted copy getSafetyUser builds: every column except the
      password, the update time and the logical-delete flag. */
  function Safe(u: User): (s: User)
    ensures s.userPassword.None?
  {
    User(u.id, u.username, u.userAccount, u.avatarUrl, u.gender, None, u.phone, u.email,
         u.userStatus, u.createTime, None, None, u.userRole, u.planetCode, u.tags)
  }

  /** getSafetyUser: null is a parameter error; otherwise a copy that agrees
      with the input on every public column and carries no password. */
  function GetSafetyUser(o: Option<User>): (r: Result<User, UserFault>)
    ensures r.Failure? <==> o.None?
    ensures r.Failure? ==> r.error.Code() == ParamsError
    ensures r.Success? ==>
      var u, s := o.value, r.value;
      && s.id == u.id && s.username == u.username && s.userAccount == u.userAccount
      && s.avatarUrl == u.avatarUrl && s.gender == u.gender && s.phone == u.phone
      && s.email == u.email && s.tags == u.tags && s.userRole == u.userRole
      && s.userStatus == u.userStatus && s.createTime == u.createTime
      && s.planetCode == u.planetCode
      && s.userPassword.None?
  {
    if o.None? then Failure(NullUser) else Success(Safe(o.value))
  }

  /** Redaction is idempotent and forgets the password: two records that
      differ only in the hidden columns redact to the same copy. */
  lemma SafeForgetsHiddenColumns(u: User, pw: Option<string>, updated: Option<int>, deleted: Option<int>)
    ensures Safe(Safe(u)) == Safe(u)
    ensures Safe(u.(userPassword := pw, updateTime := updated, isDelete := deleted)) == Safe(u)
  {
  }

  // ---------------------------------------------------------------------
  // Tag search

  /** The user's tag set contains every requested tag; a blank tag column
      matches nothing. */
  predicate HasAllTags(u: User, tagNames: seq<string>) {
    u.tags.Some? && forall i :: 0 <= i < |tagNames| ==> tagNames[i] in u.tags.value
  }

  /** The users that pass the in-memory tag filter, in store order. */
  function Tagged(users: seq<User>, tagNames: seq<string>): (r: seq<User>)
    ensures |r| <= |users|
    ensures forall x :: x in r <==> x in users && HasAllTags(x, tagNames)
  {
    if |users| == 0 then []
    else
      var init := Tagged(users[..|users| - 1], tagNames);
      var last := users[|users| - 1];
      assert forall x :: x in users <==> x in users[..|users| - 1] || x == last;
      if HasAllTags(last, tagNames) then init + [last] else init
  }

  /** `r` lists, at increasing positions `idx` of `users`, the users those
      positions hold, and the positions are exactly those whose user holds
      every tag. */
  predicate TagSelection(users: seq<User>, tagNames: seq<string>, r: seq<User>, idx: seq<int>) {
    && |idx| == |r|
    && (forall k :: 0 <= k < |idx| ==> 0 <= idx[k] < |users| && r[k] == users[idx[k]])
    && (forall k, l :: 0 <= k < l < |idx| ==> idx[k] < idx[l])
    && (forall i :: 0 <= i < |users| ==> (HasAllTags(users[i], tagNames) <==> i in idx))
  }

  /** A selection extends by one user that holds every tag: the user's
      position joins the selection. */
  lemma TagSelectionKeep(users: seq<User>, tagNames: seq<string>, r: seq<User>, idx: seq<int>, u: User)
    requires TagSelection(users, tagNames, r, idx) && HasAllTags(u, tagNames)
    ensures TagSelection(users + [u], tagNames, r + [u], idx + [|users|])
  {
    var us, n := users + [u], |users|;
    var r', idx' := r + [u], idx + [n];
    assert forall k :: 0 <= k < |idx| ==> idx'[k] == idx[k] && r'[k] == r[k] && us[idx[k]] == users[idx[k]];
    assert idx'[|idx|] == n && r'[|idx|] == u && us[n] == u;
    forall i | 0 <= i < n ensures HasAllTags(us[i], tagNames) <==> i in idx' {
      assert us[i] == users[i];
      assert i in idx' <==> i in idx;
    }
  }

  /** A selection extends by one user that lacks a tag: the selection
      stays as it was. */
  lemma TagSelectionSkip(users: seq<User>, tagNames: seq<string>, r: seq<User>, idx: seq<int>, u: User)
    requires TagSelection(users, tagNames, r, idx) && !HasAllTags(u, tagNames)
    ensures TagSelection(users + [u], tagNames, r, idx)
  {
    var us, n := users + [u], |users|;
    assert forall k :: 0 <= k < |idx| ==> us[idx[k]] == users[idx[k]];
    assert n !in idx;
    forall i | 0 <= i < n ensures HasAllTags(us[i], tagNames) <==> i in idx {
      assert us[i] == users[i];
    }
  }

  /** Appending a user appends it to the filter result exactly when it
      holds every tag. */
  lemma TaggedSnoc(users: seq<User>, u: User, tagNames: seq<string>)
    ensures Tagged(users + [u], tagNames) == Tagged(users, tagNames) + (if HasAllTags(u, tagNames) then [u] else [])
  {
    var us := users + [u];
    assert us[..|us| - 1] == users && us[|us| - 1] == u;
  }

  /** The store positions of the users that hold every tag, in order. */
  function TagIndices(users: seq<User>, tagNames: seq<string>): seq<int> {
    if |users| == 0 then []
    else TagIndices(users[..|users| - 1], tagNames) + (if HasAllTags(users[|users| - 1], tagNames) then [|users| - 1] else [])
  }

  /** The filter result is the users at exactly those positions. */
  lemma {:induction false} TaggedAtIndices(users: seq<User>, tagNames: seq<string>)
    ensures TagSelection(users, tagNames, Tagged(users, tagNames), TagIndices(users, tagNames))
    decreases |users|
  {
    if |users| == 0 {
      assert Tagged(users, tagNames) == [] && TagIndices(users, tagNames) == [];
    } else {
      var init := users[..|users| - 1];
      var last := users[|users| - 1];
      assert init + [last] == users;
      var r, idx := Tagged(init, tagNames), TagIndices(init, tagNames);
      TaggedAtIndices(init, tagNames);
      TaggedSnoc(init, last, tagNames);
      if HasAllTags(last, tagNames) {
        assert Tagged(users, tagNames) == r + [last];
        assert TagIndices(users, tagNames) == idx + [|init|];
        TagSelectionKeep(init, tagNames, r, idx, last);
      } else {
        assert Tagged(users, tagNames) == r;
        assert TagIndices(users, tagNames) == idx;
        TagSelectionSkip(init, tagNames, r, idx, last);
      }
    }
  }

  /** The tag filter is the order-keeping selection of the users that hold
      every tag: no user is invented, repeated or moved. */
  lemma TaggedInOrder(users: seq<User>, tagNames: seq<string>)
    ensures exists idx :: TagSelection(users, tagNames, Tagged(users, tagNames), idx)
  {
    TaggedAtIndices(users, tagNames);
  }

  /** The filter keeps store order: it distributes over concatenation. */
  lemma {:induction false} TaggedConcat(a: seq<User>, b: seq<User>, tagNames: seq<string>)
    ensures Tagged(a + b, tagNames) == Tagged(a, tagNames) + Tagged(b, tagNames)
    decreases |b|
  {
    if |b| == 0 {
      assert a + b == a;
    } else {
      var b' := b[..|b| - 1];
      assert (a + b)[..|a + b| - 1] == a + b';
      assert (a + b)[|a + b| - 1] == b[|b| - 1];
      TaggedConcat(a, b', tagNames);
    }
  }

  function SafeAll(users: seq<User>): (r: seq<User>)
    ensures |r| == |users|
    ensures forall i :: 0 <= i < |r| ==> r[i] == Safe(users[i])
  {
    if |users| == 0 then [] else SafeAll(users[..|users| - 1]) + [Safe(users[|users| - 1])]
  }

  /** searchUsersByTags: an empty request is a parameter error; otherwise the
      redacted users whose tag set contains every requested tag, in store
      order. */
  function SearchUsersByTags(st: UserStore, tagNames: seq<string>): (r: Result<seq<User>, UserFault>)
    ensures r.Failure? <==> |tagNames| == 0
    ensures r.Failure? ==> r.error.Code() == ParamsError
    ensures r.Success? ==> r.value == SafeAll(Tagged(st.users, tagNames))
    ensures r.Success? ==> forall u :: u in st.users && HasAllTags(u, tagNames) ==> Safe(u) in r.value
    ensures r.Success? ==> forall i :: 0 <= i < |r.value| ==>
      r.value[i].userPassword.None? && r.value[i].tags.Some? &&
      forall j :: 0 <= j < |tagNames| ==> tagNames[j] in r.value[i].tags.value
  {
    if |tagNames| == 0 then Failure(EmptyTagQuery)
    else
      var kept := Tagged(st.users, tagNames);
      var out := SafeAll(kept);
      assert forall u :: u in kept ==> Safe(u) in out by {
        forall u | u in kept ensures Safe(u) in out {
          var k :| 0 <= k < |kept| && kept[k] == u;
          assert out[k] == Safe(u);
        }
      }
      assert forall i :: 0 <= i < |out| ==> kept[i] in kept;
      Success(out)
  }

  // ---------------------------------------------------------------------
  // Permissions and profile updates

  /** isAdmin(User): a non-null user whose role is the admin role. */
  function IsAdmin(o: Option<User>): (b: bool)
    ensures b <==> o.Some? && o.value.userRole == ADMIN_ROLE
  {
    match o
    case None => false
    case Some(u) => u.userRole == ADMIN_ROLE
  }

  /** The body of an update request: the id (None when the body carries
      none) plus the columns to overwrite; None leaves a column unchanged
      (update-by-id skips null fields). The
      request body may carry the two time columns like any other; the
      logical-delete flag is the one column update-by-id never sets. */
  datatype UserPatch = UserPatch(
    id: Option<int>,
    username: Option<string>,
    userAccount: Option<string>,
    avatarUrl: Option<string>,
    gender: Option<int>,
    userPassword: Option<string>,
    phone: Option<string>,
    email: Option<string>,
    userStatus: Option<int>,
    createTime: Option<int>,
    updateTime: Option<int>,
    userRole: Option<int>,
    planetCode: Option<string>,
    tags: Option<seq<string>>)

  function Overwrite<T>(current: Option<T>, given: Option<T>): Option<T> {
    if given.Some? then given else current
  }

  function Patched(u: User, p: UserPatch): User {
    u.(username := Overwrite(u.username, p.username),
       userAccount := Overwrite(u.userAccount, p.userAccount),
       avatarUrl := Overwrite(u.avatarUrl, p.avatarUrl),
       gender := Overwrite(u.gender, p.gender),
       userPassword := Overwrite(u.userPassword, p.userPassword),
       phone := Overwrite(u.phone, p.phone),
       email := Overwrite(u.email, p.email),
       userStatus := Overwrite(u.userStatus, p.userStatus),
       createTime := Overwrite(u.createTime, p.createTime),
       updateTime := Overwrite(u.updateTime, p.updateTime),
       userRole := p.userRole.GetOr(u.userRole),
       planetCode := Overwrite(u.planetCode, p.planetCode),
       tags := Overwrite(u.tags, p.tags))
  }

  predicate HasUser(users: seq<User>, id: int) {
    exists i :: 0 <= i < |users| && users[i].id == id
  }

  /** updateById: every row with the given id receives the patch. */
  function UpdateById(users: seq<User>, id: int, p: UserPatch): (r: seq<User>)
    ensures |r| == |users|
    ensures forall i :: 0 <= i < |r| ==> r[i] == if users[i].id == id then Patched(users[i], p) else users[i]
  {
    if |users| == 0 then []
    else
      var last := users[|users| - 1];
      UpdateById(users[..|users| - 1], id, p) + [if last.id == id then Patched(last, p) else last]
  }

  /** updateUser: a body without an id fails as it is unboxed (an
      exception, not a business error), a non-positive id is a parameter
      error, a non-admin may update only their own record, an unknown id is
      a null error; otherwise the record is overwritten and one row is
      reported updated. */
  function UpdateUser(st: UserStore, p: UserPatch, loginUser: User): (r: Result<(UserStore, int), UserFault>)
    ensures r.Success? <==>
      p.id.Some? && p.id.value > 0 && (IsAdmin(Some(loginUser)) || p.id.value == loginUser.id) && HasUser(st.users, p.id.value)
    ensures p.id.None? ==> r == Failure(MissingUserId) && r.error.Code() == SystemError
    ensures p.id.Some? && p.id.value <= 0 ==> r == Failure(BadUserId)
    ensures p.id.Some? && p.id.value > 0 && !IsAdmin(Some(loginUser)) && p.id.value != loginUser.id ==>
      r.Failure? && r.error.Code() == NoAuth
    ensures p.id.Some? && p.id.value > 0 && (IsAdmin(Some(loginUser)) || p.id.value == loginUser.id) && !HasUser(st.users, p.id.value) ==>
      r.Failure? && r.error.Code() == NullError
    ensures r.Success? ==>
      var (st', n) := r.value;
      && n == 1
      && st'.nextId == st.nextId
      && |st'.users| == |st.users|
      && (forall i :: 0 <= i < |st.users| && st.users[i].id != p.id.value ==> st'.users[i] == st.users[i])
      && (forall i :: 0 <= i < |st.users| && st.users[i].id == p.id.value ==> st'.users[i] == Patched(st.users[i], p))
  {
    if p.id.None? then Failure(MissingUserId)
    else
      var id := p.id.value;
      if id <= 0 then Failure(BadUserId)
      else if !IsAdmin(Some(loginUser)) && id != loginUser.id then Failure(NotSelfOrAdmin)
      else if !HasUser(st.users, id) then Failure(UserNotFound)
      else Success((st.(users := UpdateById(st.users, id, p)), 1))
  }

  /** A caller who is not an administrator changes no record but their own. */
  lemma NonAdminTouchesOnlySelf(st: UserStore, p: UserPatch, loginUser: User)
    requires !IsAdmin(Some(loginUser))
    requires UpdateUser(st, p, loginUser).Success?
    ensures forall i :: 0 <= i < |st.users| && st.users[i].id != loginUser.id ==>
      UpdateUser(st, p, loginUser).value.0.users[i] == st.users[i]
  {
  }

  /** The update copies the role column from the request like any other, so
      an ordinary user who sends the admin role for their own id comes out
      an administrator. */
  lemma SelfPromotion(st: UserStore, loginUser: User, i: int)
    requires 0 <= i < |st.users| && st.users[i].id == loginUser.id && loginUser.id > 0
    requires !IsAdmin(Some(loginUser))
    ensures var p := UserPatch(Some(loginUser.id), None, None, None, None, None, None, None, None, None, None, Some(ADMIN_ROLE), None, None);
      && UpdateUser(st, p, loginUser).Success?
      && IsAdmin(Some(UpdateUser(st, p, loginUser).value.0.users[i]))
  {
    var p := UserPatch(Some(loginUser.id), None, None, None, None, None, None, None, None, None, None, Some(ADMIN_ROLE), None, None);
    assert HasUser(st.users, loginUser.id);
  }

  /** The time columns are not protected either: a user who sends a
      creation time for their own id overwrites the stored one. */
  lemma CreateTimeRewritten(st: UserStore, loginUser: User, i: int, t: int)
    requires 0 <= i < |st.users| && st.users[i].id == loginUser.id && loginUser.id > 0
    ensures var p := UserPatch(Some(loginUser.id), None, None, None, None, None, None, None, None, Some(t), None, None, None, None);
      && UpdateUser(st, p, loginUser).Success?
      && UpdateUser(st, p, loginUser).value.0.users[i].createTime == Some(t)
      && UpdateUser(st, p, loginUser).value.0.users[i].updateTime == st.users[i].updateTime
  {
    var p := UserPatch(Some(loginUser.id), None, None, None, None, None, None, None, None, Some(t), None, None, None, None);
    assert HasUser(st.users, loginUser.id);
  }
}
