/** The "most similar users" ranker. Every user with tags, except the
    caller, becomes a candidate scored by the tag distance to the caller;
    the candidates are stably sorted by distance, the first `num` are kept,
    their full rows are fetched in one unordered batch, and the batch is put
    back into ranked order. The distance itself is a parameter: the ranking
    properties hold whatever it computes. */
module Ranking {
  import opened Common
  import opened Users
  import TagDistance

  /** A user scored against the caller; `pos` is the user's place in the
      candidate list, which the stable sort keeps for ties. */
  datatype Candidate = Candidate(pos: nat, user: User, distance: nat)

  /** The user ids of a user list are pairwise distinct (the table's
      primary key). */
  predicate UniqueIds(users: seq<User>) {
    forall i, j :: 0 <= i < j < |users| ==> users[i].id != users[j].id
  }

  // ---------------------------------------------------------------------
  // Candidates

  /** Kept as a candidate: the user has tags and is not the caller. */
  predicate Eligible(u: User, callerId: int) {
    u.tags.Some? && u.id != callerId
  }

  /** The eligible users in store order. */
  function Eligibles(users: seq<User>, callerId: int): (r: seq<User>)
    ensures |r| <= |users|
    ensures forall i :: 0 <= i < |r| ==> Eligible(r[i], callerId)
    ensures forall x :: x in r <==> x in users && Eligible(x, callerId)
  {
    if |users| == 0 then []
    else
      var init := Eligibles(users[..|users| - 1], callerId);
      var last := users[|users| - 1];
      assert forall x :: x in users <==> x in users[..|users| - 1] || x == last;
      if Eligible(last, callerId) then init + [last] else init
  }

  /** One row gives itself exactly when it is eligible, and nothing
      otherwise. */
  lemma EligiblesOne(u: User, callerId: int)
    ensures Eligibles([u], callerId) == if Eligible(u, callerId) then [u] else []
  {
    assert [u][..0] == [];
  }

  /** The filter keeps store order and takes each row once: it distributes
      over concatenation, and with `EligiblesOne` this fixes the candidate
      list entirely. */
  lemma {:induction false} EligiblesConcat(a: seq<User>, b: seq<User>, callerId: int)
    ensures Eligibles(a + b, callerId) == Eligibles(a, callerId) + Eligibles(b, callerId)
    decreases |b|
  {
    if |b| == 0 {
      assert a + b == a;
    } else {
      var b' := b[..|b| - 1];
      assert (a + b)[..|a + b| - 1] == a + b';
      assert (a + b)[|a + b| - 1] == b[|b| - 1];
      EligiblesConcat(a, b', callerId);
    }
  }

  /** The candidate filter as written: the caller test compares the two
      boxed user ids by reference, so it recognises the caller only when
      the id lies in the boxing cache. */
  function EligiblesAsWritten(users: seq<User>, callerId: int): (r: seq<User>)
    ensures forall x :: x in r <==> x in users && x.tags.Some? && !BoxedSame(x.id, callerId)
  {
    if |users| == 0 then []
    else
      var init := EligiblesAsWritten(users[..|users| - 1], callerId);
      var last := users[|users| - 1];
      assert forall x :: x in users <==> x in users[..|users| - 1] || x == last;
      if last.tags.Some? && !BoxedSame(last.id, callerId) then init + [last] else init
  }

  /** A caller with id 200 and tags is a candidate for their own match list
      under the code as written, and is excluded under the intended rule. */
  lemma CallerMatchedAsWritten(caller: User)
    requires caller.id == 200 && caller.tags.Some?
    ensures caller in EligiblesAsWritten([caller], caller.id)
    ensures Eligibles([caller], caller.id) == []
  {
  }

  /** Each eligible user scored by the distance from the caller's tags to
      theirs, numbered in list order. */
  function Score(es: seq<User>, callerTags: seq<string>, dist: (seq<string>, seq<string>) -> nat): (r: seq<Candidate>)
    requires forall i :: 0 <= i < |es| ==> es[i].tags.Some?
    ensures |r| == |es|
    ensures forall i :: 0 <= i < |r| ==> r[i].pos == i && r[i].user == es[i]
    ensures forall i :: 0 <= i < |r| ==> r[i].distance == dist(callerTags, es[i].tags.value)
  {
    seq(|es|, i requires 0 <= i < |es| => Candidate(i, es[i], dist(callerTags, es[i].tags.value)))
  }

  // ---------------------------------------------------------------------
  // The stable sort

  /** The order the stable sort produces: by distance, ties by position. */
  predicate Before(a: Candidate, b: Candidate) {
    a.distance < b.distance || (a.distance == b.distance && a.pos < b.pos)
  }

  /** Sorted by distance, with ties in their original relative order. */
  ghost predicate Ranked(s: seq<Candidate>) {
    forall i, j :: 0 <= i < j < |s| ==> Before(s[i], s[j])
  }

  /** Positions strictly increase: the candidate list before sorting. */
  ghost predicate PosIncreasing(s: seq<Candidate>) {
    forall i, j :: 0 <= i < j < |s| ==> s[i].pos < s[j].pos
  }

  /** Inserts c after every element that does not come after it by
      distance. */
  function Insert(c: Candidate, s: seq<Candidate>): (r: seq<Candidate>)
    ensures |r| == |s| + 1
    ensures forall x :: x in r <==> x in s || x == c
    ensures multiset(r) == multiset(s) + multiset{c}
  {
    if |s| == 0 then [c]
    else if c.distance < s[0].distance then
      [c] + s
    else
      assert s == [s[0]] + s[1..];
      [s[0]] + Insert(c, s[1..])
  }

  /** Inserting a candidate whose position is above every position of a
      ranked list keeps the list ranked. */
  lemma {:induction false} InsertRanked(c: Candidate, s: seq<Candidate>)
    requires Ranked(s)
    requires forall x :: x in s ==> x.pos < c.pos
    ensures Ranked(Insert(c, s))
    decreases |s|
  {
    var r := Insert(c, s);
    if |s| == 0 {
    } else if c.distance < s[0].distance {
      assert r == [c] + s;
      forall j | 0 < j < |r| ensures Before(r[0], r[j]) {
        if j > 1 {
          assert Before(s[0], s[j - 1]);
        }
      }
    } else {
      var tail := s[1..];
      assert forall x :: x in tail ==> x in s;
      InsertRanked(c, tail);
      var rest := Insert(c, tail);
      assert r == [s[0]] + rest;
      forall j | 0 < j < |r| ensures Before(r[0], r[j]) {
        assert r[j] == rest[j - 1];
        assert rest[j - 1] in rest;
        if rest[j - 1] != c {
          var k :| 0 <= k < |tail| && tail[k] == rest[j - 1];
          assert Before(s[0], s[k + 1]);
        }
      }
    }
  }

  /** The stable sort by distance, as insertion of each candidate in turn. */
  function SortByDistance(s: seq<Candidate>): (r: seq<Candidate>)
    ensures |r| == |s|
    ensures forall x :: x in r <==> x in s
    ensures multiset(r) == multiset(s)
  {
    if |s| == 0 then []
    else
      var init := s[..|s| - 1];
      assert s == init + [s[|s| - 1]];
      Insert(s[|s| - 1], SortByDistance(init))
  }

  /** Sorting a list whose positions increase ranks it: by distance, ties in
      their original order. */
  lemma {:induction false} SortRanked(s: seq<Candidate>)
    requires PosIncreasing(s)
    ensures Ranked(SortByDistance(s))
    decreases |s|
  {
    if |s| > 0 {
      var init := s[..|s| - 1];
      var last := s[|s| - 1];
      SortRanked(init);
      forall x | x in SortByDistance(init) ensures x.pos < last.pos {
        var k :| 0 <= k < |init| && init[k] == x;
      }
      InsertRanked(last, SortByDistance(init));
    }
  }

  /** The first n elements, or all of them when there are fewer. */
  function Take<T>(s: seq<T>, n: nat): (r: seq<T>)
    ensures |r| == Min(n, |s|)
    ensures r == s[..|r|]
  {
    if n <= |s| then s[..n] else s
  }

  // ---------------------------------------------------------------------
  // Restoring ranked order after the batched lookup

  /** The first user of the batch with the given id (`get(0)` of that id's
      group). */
  function FirstWithId(batch: seq<User>, id: int): (r: Option<User>)
    ensures r.Some? ==> r.value in batch && r.value.id == id
    ensures r.None? <==> forall x :: x in batch ==> x.id != id
  {
    if |batch| == 0 then None
    else if batch[0].id == id then Some(batch[0])
    else
      assert batch == [batch[0]] + batch[1..];
      FirstWithId(batch[1..], id)
  }

  /** Each ranked id replaced by its user from the batch, in ranked order;
      an id the batch lacks is a failure. */
  function RestoreOrder(ids: seq<int>, batch: seq<User>): (r: Result<seq<User>, UserFault>)
    ensures r.Success? <==> forall i :: 0 <= i < |ids| ==> FirstWithId(batch, ids[i]).Some?
    ensures r.Failure? ==> r.error == RankedUserMissing
    ensures r.Success? ==> |r.value| == |ids|
    ensures r.Success? ==> forall i :: 0 <= i < |ids| ==> r.value[i].id == ids[i] && r.value[i] in batch
  {
    if |ids| == 0 then Success([])
    else
      var head := FirstWithId(batch, ids[0]);
      if head.None? then Failure(RankedUserMissing)
      else
        match RestoreOrder(ids[1..], batch)
        case Failure(e) => Failure(e)
        case Success(rest) => Success([head.value] + rest)
  }

  /** The user ids of a candidate list, in order. */
  function IdsOf(cs: seq<Candidate>): (r: seq<int>)
    ensures |r| == |cs|
    ensures forall i :: 0 <= i < |cs| ==> r[i] == cs[i].user.id
  {
    seq(|cs|, i requires 0 <= i < |cs| => cs[i].user.id)
  }

  /** `where id in ids`, in store order. */
  function WithIds(users: seq<User>, ids: seq<int>): (r: seq<User>)
    ensures forall x :: x in r <==> x in users && x.id in ids
  {
    if |users| == 0 then []
    else
      var init := WithIds(users[..|users| - 1], ids);
      var last := users[|users| - 1];
      assert forall x :: x in users <==> x in users[..|users| - 1] || x == last;
      if last.id in ids then init + [last] else init
  }

  /** The batch the lookup returns: the rows with a ranked id, redacted. */
  function Lookup(users: seq<User>, ids: seq<int>): seq<User> {
    SafeAll(WithIds(users, ids))
  }

  // ---------------------------------------------------------------------
  // matchUsers

  /** The ranked candidate list before the lookup: scored, sorted, cut to
      num. */
  function TopCandidates(users: seq<User>, caller: User, num: nat, dist: (seq<string>, seq<string>) -> nat): seq<Candidate>
  {
    var es := Eligibles(users, caller.id);
    Take(SortByDistance(Score(es, caller.tags.GetOr([]), dist)), num)
  }

  /** matchUsers: the num users whose tags are closest to the caller's,
      closest first, redacted. A caller without tags cannot be compared
      with anyone, and a negative limit is refused. When no candidate is
      kept (a limit of 0, or nobody eligible) the lookup is `id in ()`,
      which MyBatis-Plus renders as an empty SQL list that the database
      rejects, so the call fails. */
  function MatchUsers(users: seq<User>, caller: User, num: int, dist: (seq<string>, seq<string>) -> nat): (r: Result<seq<User>, UserFault>)
    ensures r.Success? <==> num > 0 && caller.tags.Some? && Eligibles(users, caller.id) != []
    ensures num >= 0 && (caller.tags.Some? || Eligibles(users, caller.id) == []) && r.Failure? ==> r.error == EmptyIdQuery
    ensures r.Failure? ==> r.error.Code() == SystemError
    ensures r.Success? ==> |r.value| == Min(num, |Eligibles(users, caller.id)|)
    ensures r.Success? ==> forall i :: 0 <= i < |r.value| ==>
      r.value[i].id != caller.id && r.value[i].userPassword.None?
  {
    var es := Eligibles(users, caller.id);
    if caller.tags.None? && es != [] then Failure(CallerTagsMissing)
    else if num < 0 then Failure(NegativeLimit)
    else
      var top := TopCandidates(users, caller, num, dist);
      var ids := IdsOf(top);
      var batch := Lookup(users, ids);
      TopCandidatesFacts(users, caller, num, dist);
      if ids == [] then Failure(EmptyIdQuery)
      else
        RestoreTop(users, caller, num, dist);
        RestoreOrder(ids, batch)
  }

  /** The ranked users are all found again in the batch, and restoring
      them yields one redacted non-caller user per ranked candidate. */
  lemma RestoreTop(users: seq<User>, caller: User, num: nat, dist: (seq<string>, seq<string>) -> nat)
    ensures var top := TopCandidates(users, caller, num, dist);
      var r := RestoreOrder(IdsOf(top), Lookup(users, IdsOf(top)));
      && r.Success?
      && |r.value| == Min(num, |Eligibles(users, caller.id)|)
      && forall i :: 0 <= i < |r.value| ==> r.value[i].id != caller.id && r.value[i].userPassword.None?
  {
    var top := TopCandidates(users, caller, num, dist);
    TopCandidatesFacts(users, caller, num, dist);
    RestoreFindsAll(users, top);
    var found := RestoreOrder(IdsOf(top), Lookup(users, IdsOf(top))).value;
    RestoredAreTop(users, top, found);
  }

  /** The top candidates are the first of the eligible users ranked by
      distance: as many as the limit allows, ranked, each scored by the
      distance from the caller's tags to its own, and each carrying its
      place among the eligible users. */
  lemma TopCandidatesFacts(users: seq<User>, caller: User, num: nat, dist: (seq<string>, seq<string>) -> nat)
    ensures var top, es := TopCandidates(users, caller, num, dist), Eligibles(users, caller.id);
      && |top| == Min(num, |es|)
      && Ranked(top)
      && (forall i :: 0 <= i < |top| ==> top[i].pos < |es| && es[top[i].pos] == top[i].user)
      && (forall i :: 0 <= i < |top| ==> top[i].user in users && Eligible(top[i].user, caller.id))
      && (forall i :: 0 <= i < |top| ==> top[i].distance == dist(caller.tags.GetOr([]), top[i].user.tags.value))
  {
    var es := Eligibles(users, caller.id);
    var scored := Score(es, caller.tags.GetOr([]), dist);
    var sorted := SortByDistance(scored);
    var top := TopCandidates(users, caller, num, dist);
    SortRanked(scored);
    forall i | 0 <= i < |top|
      ensures top[i].pos < |es| && es[top[i].pos] == top[i].user
      ensures top[i].user in users && Eligible(top[i].user, caller.id)
      ensures top[i].distance == dist(caller.tags.GetOr([]), top[i].user.tags.value)
    {
      assert top[i] == sorted[i];
      assert sorted[i] in sorted;
      var k :| 0 <= k < |scored| && scored[k] == sorted[i];
      assert es[k] in es;
    }
  }

  /** Every ranked id is found in the batch. */
  lemma RestoreFindsAll(users: seq<User>, top: seq<Candidate>)
    requires forall i :: 0 <= i < |top| ==> top[i].user in users
    ensures forall i :: 0 <= i < |top| ==> FirstWithId(Lookup(users, IdsOf(top)), IdsOf(top)[i]).Some?
  {
    var ids := IdsOf(top);
    var w := WithIds(users, ids);
    forall i | 0 <= i < |top|
      ensures FirstWithId(Lookup(users, ids), ids[i]).Some?
    {
      assert top[i].user in w;
      var k :| 0 <= k < |w| && w[k] == top[i].user;
      assert Lookup(users, ids)[k].id == ids[i];
    }
  }

  /** A member of the batch is the redacted row of a store user with one of
      the requested ids. */
  lemma InLookup(users: seq<User>, ids: seq<int>, x: User) returns (u: User)
    requires x in Lookup(users, ids)
    ensures u in users && u.id in ids && x == Safe(u)
  {
    var w := WithIds(users, ids);
    var k :| 0 <= k < |w| && Lookup(users, ids)[k] == x;
    u := w[k];
    assert u in w;
  }

  /** The restored list has one entry per ranked candidate, with the ranked
      id and no password. */
  lemma RestoredAreTop(users: seq<User>, top: seq<Candidate>, found: seq<User>)
    requires RestoreOrder(IdsOf(top), Lookup(users, IdsOf(top))) == Success(found)
    ensures |found| == |top|
    ensures forall i :: 0 <= i < |found| ==> found[i].id == top[i].user.id && found[i].userPassword.None?
  {
    forall i | 0 <= i < |found| ensures found[i].userPassword.None? {
      var u := InLookup(users, IdsOf(top), found[i]);
    }
  }

  // ---------------------------------------------------------------------
  // Properties of the ranking

  /** Two users of a table with distinct ids that share an id are the same
      row. */
  lemma SameIdSameUser(users: seq<User>, a: User, b: User)
    requires UniqueIds(users) && a in users && b in users && a.id == b.id
    ensures a == b
  {
    var i :| 0 <= i < |users| && users[i] == a;
    var j :| 0 <= j < |users| && users[j] == b;
  }

  /** On a table with distinct ids, the result is exactly the redacted rows
      of the top candidates, in ranked order: closest first, ties in store
      order, every one with tags. */
  lemma MatchUsersRanked(users: seq<User>, caller: User, num: int, dist: (seq<string>, seq<string>) -> nat)
    requires UniqueIds(users)
    requires num > 0 && caller.tags.Some? && Eligibles(users, caller.id) != []
    ensures MatchUsers(users, caller, num, dist).Success?
    ensures var r, top := MatchUsers(users, caller, num, dist).value, TopCandidates(users, caller, num, dist);
      && |r| == |top|
      && (forall i :: 0 <= i < |r| ==> r[i] == Safe(top[i].user) && r[i].tags.Some?)
      && (forall i, j :: 0 <= i < j < |r| ==>
            dist(caller.tags.GetOr([]), r[i].tags.value) <= dist(caller.tags.GetOr([]), r[j].tags.value))
  {
    var top := TopCandidates(users, caller, num, dist);
    var r := MatchUsers(users, caller, num, dist).value;
    var ids := IdsOf(top);
    TopCandidatesFacts(users, caller, num, dist);
    RestoredAreTop(users, top, r);
    forall i | 0 <= i < |r| ensures r[i] == Safe(top[i].user) {
      var u := InLookup(users, ids, r[i]);
      SameIdSameUser(users, u, top[i].user);
    }
    forall i, j | 0 <= i < j < |r|
      ensures dist(caller.tags.GetOr([]), r[i].tags.value) <= dist(caller.tags.GetOr([]), r[j].tags.value)
    {
      assert Before(top[i], top[j]);
    }
  }

  /** In a ranked list, an element outside the first n is at least as far
      as each of the first n. */
  lemma PrefixNoFarther(sorted: seq<Candidate>, n: nat, x: Candidate)
    requires Ranked(sorted) && x in sorted && n <= |sorted|
    requires forall i :: 0 <= i < n ==> sorted[i] != x
    ensures forall i :: 0 <= i < n ==> sorted[i].distance <= x.distance
  {
    var j :| 0 <= j < |sorted| && sorted[j] == x;
    assert j >= n;
    forall i | 0 <= i < n ensures sorted[i].distance <= x.distance {
      assert Before(sorted[i], sorted[j]);
    }
  }

  /** Top-K: an eligible user left out of the ranked prefix is at least as
      far from the caller as every user kept. */
  lemma LeftOutAreNoCloser(users: seq<User>, caller: User, num: nat, dist: (seq<string>, seq<string>) -> nat, k: int)
    requires 0 <= k < |Eligibles(users, caller.id)|
    requires forall i :: 0 <= i < |TopCandidates(users, caller, num, dist)| ==> TopCandidates(users, caller, num, dist)[i].pos != k
    ensures var es := Eligibles(users, caller.id);
      forall i :: 0 <= i < |TopCandidates(users, caller, num, dist)| ==>
        TopCandidates(users, caller, num, dist)[i].distance <= dist(caller.tags.GetOr([]), es[k].tags.value)
  {
    var es := Eligibles(users, caller.id);
    var scored := Score(es, caller.tags.GetOr([]), dist);
    var sorted := SortByDistance(scored);
    var top := TopCandidates(users, caller, num, dist);
    SortRanked(scored);
    assert scored[k] in scored;
    assert forall i :: 0 <= i < |top| ==> sorted[i] == top[i];
    PrefixNoFarther(sorted, |top|, scored[k]);
  }

  /** The head of a ranked list comes before any other of its elements. */
  lemma HeadFirst(a: seq<Candidate>, x: Candidate)
    requires Ranked(a) && x in a
    ensures x == a[0] || Before(a[0], x)
  {
    var k :| 0 <= k < |a| && a[k] == x;
    if k > 0 {
      assert Before(a[0], a[k]);
    }
  }

  /** Two ranked lists of the same candidates start with the same one. */
  lemma HeadsAgree(a: seq<Candidate>, b: seq<Candidate>)
    requires Ranked(a) && Ranked(b) && multiset(a) == multiset(b) && |a| > 0
    ensures |b| > 0 && a[0] == b[0]
  {
    assert a[0] in multiset(b);
    assert b[0] in multiset(a);
    HeadFirst(a, b[0]);
    HeadFirst(b, a[0]);
  }

  /** The stable sort is determined by its input: two ranked lists with the
      same candidates are equal, so the result agrees with any stable sort
      by distance. */
  lemma {:induction false} RankedUnique(a: seq<Candidate>, b: seq<Candidate>)
    requires Ranked(a) && Ranked(b) && multiset(a) == multiset(b)
    ensures a == b
    decreases |a|
  {
    if |a| > 0 {
      HeadsAgree(a, b);
      assert a == [a[0]] + a[1..];
      assert b == [b[0]] + b[1..];
      assert multiset(a[1..]) == multiset(a) - multiset{a[0]};
      assert multiset(b[1..]) == multiset(b) - multiset{b[0]};
      RankedUnique(a[1..], b[1..]);
    } else {
      assert |multiset(b)| == 0;
    }
  }

  /** With distinct ids the batch's order does not matter: any permutation
      of it restores to the same list. */
  lemma RestoreOrderIgnoresBatchOrder(ids: seq<int>, b1: seq<User>, b2: seq<User>)
    requires UniqueIds(b1) && UniqueIds(b2) && multiset(b1) == multiset(b2)
    ensures RestoreOrder(ids, b1) == RestoreOrder(ids, b2)
  {
    assert forall x :: x in b1 <==> x in b2 by {
      forall x ensures x in b1 <==> x in b2 {
        assert x in b1 <==> x in multiset(b1);
        assert x in b2 <==> x in multiset(b2);
      }
    }
    forall id ensures FirstWithId(b1, id) == FirstWithId(b2, id) {
      var f1, f2 := FirstWithId(b1, id), FirstWithId(b2, id);
      if f1.Some? {
        assert f1.value in multiset(b2);
        SameIdSameUser(b2, f1.value, f2.value);
      }
    }
    RestoreOrderSameLookups(ids, b1, b2);
  }

  lemma {:induction false} RestoreOrderSameLookups(ids: seq<int>, b1: seq<User>, b2: seq<User>)
    requires forall id :: FirstWithId(b1, id) == FirstWithId(b2, id)
    ensures RestoreOrder(ids, b1) == RestoreOrder(ids, b2)
    decreases |ids|
  {
    if |ids| > 0 {
      RestoreOrderSameLookups(ids[1..], b1, b2);
    }
  }

  /** With this distance, when some eligible user's tags equal the caller's,
      the closest match found has distance zero. */
  lemma IdenticalTagsRankFirst(users: seq<User>, caller: User, num: nat, k: int)
    requires caller.tags.Some? && num >= 1
    requires 0 <= k < |Eligibles(users, caller.id)| && Eligibles(users, caller.id)[k].tags == caller.tags
    ensures |TopCandidates(users, caller, num, TagDistance.EditDistance)| > 0
    ensures TopCandidates(users, caller, num, TagDistance.EditDistance)[0].distance == 0
  {
    var es := Eligibles(users, caller.id);
    var top := TopCandidates(users, caller, num, TagDistance.EditDistance);
    TopCandidatesFacts(users, caller, num, TagDistance.EditDistance);
    TagDistance.EditDistanceSelf(caller.tags.value);
    if exists i :: 0 <= i < |top| && top[i].pos == k {
      var i :| 0 <= i < |top| && top[i].pos == k;
      if i > 0 {
        assert Before(top[0], top[i]);
      }
    } else {
      LeftOutAreNoCloser(users, caller, num, TagDistance.EditDistance, k);
    }
  }
}
