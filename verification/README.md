# Team and user services of a partner-finding backend, in Dafny

This project models the core of a small "find teammates" backend. Users
register, log in and tag themselves. They then form teams, join and leave
them, and ask for the users whose tags are closest to their own.

The team service works over two tables:
- the team table: name, description, member cap, status (PUBLIC, PRIVATE or
  SECRET), password, expiry and captain;
- the team_user membership table, one row per (team, user) pair with an
  auto-increment row id.

The model covers:
- creating, joining, quitting and dissolving a team, and updating it. A
  captain who quits hands the team to the holder of the second-lowest row
  id, and the last member to quit takes the team with them;
- the listing query with its filters;
- marking listed teams with "joined" and member counts;
- the user rules: registration and login validation, the redacted
  ("safety") copy, the tag search, profile updates and the admin test;
- the top-K tag-distance ranker.

Every operation is a pure function from a store to a `Result`. A failure
leaves the store as it was, which stands for the all-or-nothing transaction
around each service method. The invariant that each team's captain holds its
lowest-id row is proved to be kept by every operation.

Modules:
- `Common`: Option/Result, blank strings, the boxed-id comparison.
- `Membership`: the team_user queries and deletions and their algebra.
- `Teams`: create, join, quit, dissolve and update.
- `TeamInvariant`: the store invariant and the ownership quota, with their
  preservation.
- `TeamListing`: the listing filters and the joined/count marks.
- `Users`: the user rules.
- `Ranking`: the ranker.
- `TagDistance`: a Levenshtein distance over tag lists. It is an assumption,
  because the distance utility is not part of this model.
- `Scenarios`: concrete runs and cross-operation consequences.

The acting user and "now" are explicit parameters. The password digest and
the tag distance are function parameters.

## Model

| member | source | states |
|---|---|---|
| Common.Utf16Length | src/main/java/com/fdt/service/impl/TeamServiceImpl.java:80 | a string's Java length counts two units for each character outside the Basic Multilingual Plane and one for any other: it equals the character count exactly when every character is in that plane, and twice it exactly when none is |
| Teams.StatusOf | src/main/java/com/fdt/service/impl/TeamServiceImpl.java:89-93 | the stored values 0, 1 and 2 and only they name PUBLIC, PRIVATE and SECRET |
| Teams.DraftFault | src/main/java/com/fdt/service/impl/TeamServiceImpl.java:72-105 | no fault exactly when every creation rule holds, with name, description and password lengths counted in UTF-16 units; the cap fault exactly when the cap (null read as 0) lies outside 1..20; every fault is a parameter error |
| Teams.OwnedCountInsert | src/main/java/com/fdt/service/impl/TeamServiceImpl.java:108-110 | inserting a team under a new id raises its captain's owned count by one and nobody else's |
| Teams.AddTeam | src/main/java/com/fdt/service/impl/TeamServiceImpl.java:61-134 | creation succeeds exactly for a valid draft from a caller owning fewer than five teams; a valid draft over quota is refused with the quota fault; on success the team is stored under the next id with the caller as captain and the draft's name, description, cap, password and expiry, a null status stored as PUBLIC, the caller's membership row is appended, and no other team changes |
| Teams.JoinTeam | src/main/java/com/fdt/service/impl/TeamServiceImpl.java:300-376 | a join succeeds exactly when every join rule holds; "not found" exactly for a positive unknown id; every failure is a parameter or null error; on success one row is appended, the member count rises by one and stays within the cap, and the caller holds exactly one row |
| Teams.QuitTeam | src/main/java/com/fdt/service/impl/TeamServiceImpl.java:386-451 | a quit succeeds exactly for a positive id of an existing team the caller has a row in; every other case is one of the three refusals |
| Teams.CallerIsMember | src/main/java/com/fdt/service/impl/TeamServiceImpl.java:407-415 | a user with a row for a team is counted among its members |
| Teams.QuitEffect | src/main/java/com/fdt/service/impl/TeamServiceImpl.java:416-450 | a successful quit deletes exactly the caller's row of that team; the team disappears exactly when the caller was its only member; a quitting captain is replaced by the user of the team's second row; other teams are untouched |
| Teams.DeleteTeam | src/main/java/com/fdt/service/impl/TeamServiceImpl.java:461-484 | a dissolve succeeds exactly for the captain of an existing team with rows; an unknown id is "not found"; a non-captain is refused without authority; on success the team and all its rows are gone and every other team keeps its rows |
| Teams.DeleteTeamAsWritten | src/main/java/com/fdt/service/impl/TeamServiceImpl.java:472-474 | the dissolve as written succeeds exactly when the intended one does and the captain's id lies in -128..127 |
| Teams.CaptainRefusedAsWritten | src/main/java/com/fdt/service/impl/TeamServiceImpl.java:472-474 | the only member and captain of a team, user 200, is refused as "not the captain" by the code as written, and allowed by the intended rule |
| Teams.UpdateTeam | src/main/java/com/fdt/service/impl/TeamServiceImpl.java:260-291 | an update succeeds exactly for an existing team when the caller is its captain or an administrator and a switch to SECRET carries a non-blank password; anyone else is refused without authority; name, description, expiry, status and password take the request's value when it is non-null and keep the stored one otherwise; captain, cap, memberships and other teams are unchanged; a request with no non-null field counts as a successful update that changes nothing (admitted) |
| TeamInvariant.EmptyStoreInv | src/main/java/com/fdt/service/impl/TeamServiceImpl.java:116-133 | the empty store satisfies the invariant |
| TeamInvariant.NoRowsForUnknownTeam | src/main/java/com/fdt/service/impl/TeamServiceImpl.java:475-483 | under the no-orphan rule a team that does not exist has no rows and no pair counts |
| TeamInvariant.CaptainIsMember | src/main/java/com/fdt/service/impl/TeamServiceImpl.java:422-427 | under the invariant a team's captain holds exactly one row of that team |
| TeamInvariant.AddPreservesInv | src/main/java/com/fdt/service/impl/TeamServiceImpl.java:116-133 | creation keeps the store invariant: fresh ids, rows in id order, no orphan rows, captain holds the first row, no duplicate pair |
| TeamInvariant.JoinPreservesInv | src/main/java/com/fdt/service/impl/TeamServiceImpl.java:344-364 | joining keeps the store invariant |
| TeamInvariant.QuitKeepsCaptainFirst | src/main/java/com/fdt/service/impl/TeamServiceImpl.java:420-444 | after a quit every remaining team's captain still holds its lowest-id row, in particular a successor captain |
| TeamInvariant.QuitPreservesInv | src/main/java/com/fdt/service/impl/TeamServiceImpl.java:416-450 | quitting keeps the store invariant |
| TeamInvariant.DeletePreservesInv | src/main/java/com/fdt/service/impl/TeamServiceImpl.java:475-483 | under the invariant the captain's dissolve of an existing team succeeds and keeps the invariant |
| TeamInvariant.UpdatePreservesInv | src/main/java/com/fdt/service/impl/TeamServiceImpl.java:286-290 | updating keeps the store invariant |
| TeamInvariant.DeleteByCaptainSucceeds | src/main/java/com/fdt/service/impl/TeamServiceImpl.java:471-481 | under the invariant the empty-deletion system error cannot happen: a dissolve of an existing team succeeds exactly for its captain |
| TeamInvariant.AddKeepsOwnedQuota | src/main/java/com/fdt/service/impl/TeamServiceImpl.java:106-113 | creation never lets a user own more than five teams |
| TeamInvariant.JoinKeepsOwnedQuota | src/main/java/com/fdt/service/impl/TeamServiceImpl.java:359-364 | joining never changes who owns what |
| Membership.TeamRows | src/main/java/com/fdt/service/impl/TeamServiceImpl.java:353-355 | a team's rows are exactly the table's rows naming it, in id order when the table is |
| Membership.DropPair | src/main/java/com/fdt/service/impl/TeamServiceImpl.java:446-450 | the pair deletion removes exactly the rows of that pair and keeps id order |
| Membership.DropTeam | src/main/java/com/fdt/service/impl/TeamServiceImpl.java:475-478 | the team deletion removes exactly the rows of that team and keeps id order |
| Membership.TeamRowsLowestIds | src/main/java/com/fdt/service/impl/TeamServiceImpl.java:424-427 | in an id-ordered table the first two rows of a team are its two lowest ids, so they are what "order by id asc limit 2" returns |
| TeamListing.Like | src/main/java/com/fdt/service/impl/TeamServiceImpl.java:170 | for a pattern with no `%`, `_` or backslash, the LIKE test is plain substring search: it holds exactly when the pattern occurs in the text |
| TeamListing.ListTeams | src/main/java/com/fdt/service/impl/TeamServiceImpl.java:145-230 | the listing succeeds exactly when every query rule holds, with lengths in UTF-16 units; only a non-administrator filtering on PRIVATE is refused without authority; the listed teams are exactly the stored teams the query selects: id, id list, name, description, search text, cap, captain, status and expiry filters all hold for each listed team, and every selected team is listed |
| TeamListing.LikeSelf | src/main/java/com/fdt/service/impl/TeamServiceImpl.java:170 | a name without a backslash is found by itself, even when it contains `%` or `_` |
| TeamListing.PercentMatchesAll | src/main/java/com/fdt/service/impl/TeamServiceImpl.java:170 | `%` matches every text |
| TeamListing.LiteralPrefix | src/main/java/com/fdt/service/impl/TeamServiceImpl.java:170 | a literal pattern followed by `%` matches exactly the texts that begin with it |
| TeamListing.LeadingPercent | src/main/java/com/fdt/service/impl/TeamServiceImpl.java:170 | a leading `%` matches exactly when the rest of the pattern matches some suffix |
| TeamListing.LikeLiteralOccurs | src/main/java/com/fdt/service/impl/TeamServiceImpl.java:170 | for a literal pattern, `%pattern%` matches exactly the texts containing the pattern |
| TeamListing.UnescapedPrefixOfSelf | src/main/java/com/fdt/service/impl/TeamServiceImpl.java:170 | a pattern without a backslash, followed by `%`, matches every text that begins with the pattern itself |
| TeamListing.BackslashNameMissed | src/main/java/com/fdt/service/impl/TeamServiceImpl.java:170 | a team named by a single backslash is not found by its own name, because the backslash escapes the closing `%` |
| TeamListing.UnderscoreMatchesAnyName | src/main/java/com/fdt/service/impl/TeamServiceImpl.java:170 | the name filter `_` matches exactly the non-empty names, since `_` is a wildcard |
| TeamListing.LikeSuffix | src/main/java/com/fdt/service/impl/TeamServiceImpl.java:170 | a pattern found in a suffix is found in the whole text |
| TeamListing.EmptyQueryListsAllShown | src/main/java/com/fdt/service/impl/TeamServiceImpl.java:146-149 | the query with no field set lists every unexpired team, to anyone |
| TeamListing.NonAdminSeesPrivateTeams | src/main/java/com/fdt/service/impl/TeamServiceImpl.java:209-219 | a non-administrator without a status filter sees unexpired PRIVATE teams |
| TeamListing.AdminFlagOnlyGates | src/main/java/com/fdt/service/impl/TeamServiceImpl.java:213-219 | the administrator flag changes no listing that succeeds without it |
| TeamListing.UnknownStatusIgnored | src/main/java/com/fdt/service/impl/TeamServiceImpl.java:210-213 | a status value with no enum constant lists what the query without a status lists |
| TeamListing.FoundByOwnName | src/main/java/com/fdt/service/impl/TeamServiceImpl.java:164-171 | searching by a team's full name finds it when the name has no backslash; BackslashNameMissed shows that the condition is needed |
| TeamListing.NameFilterNarrows | src/main/java/com/fdt/service/impl/TeamServiceImpl.java:164-171 | adding a name filter only removes teams |
| TeamListing.ListedNotExpired | src/main/java/com/fdt/service/impl/TeamServiceImpl.java:221-226 | a listed team is never refused as expired by a join at the same moment |
| TeamListing.ExpiryBoundary | src/main/java/com/fdt/service/impl/TeamServiceImpl.java:221-226 | a team expiring exactly now is hidden from the listing yet still joinable |
| TeamListing.FlagJoinedTeams | src/main/java/com/fdt/service/impl/TeamServiceImpl.java:493-532 | one mark per listed id, in order; "joined" exactly when the viewer holds a row for the team; the count is the team's number of rows; without a login both stay unset |
| TeamListing.JoinedAmongPairs | src/main/java/com/fdt/service/impl/TeamServiceImpl.java:499-511 | a listed team is in the viewer's joined set exactly when the viewer has a row for it |
| TeamListing.RowsAmongTeamRows | src/main/java/com/fdt/service/impl/TeamServiceImpl.java:516-525 | grouping the listed teams' rows by team gives each listed team all of its rows |
| TeamListing.JoinThenFlag | src/main/java/com/fdt/service/impl/TeamServiceImpl.java:505-525 | after a join the team is marked joined with one more member |
| TeamListing.QuitThenFlag | src/main/java/com/fdt/service/impl/TeamServiceImpl.java:446-450 | after a quit the team is marked not joined |
| Users.RegistrationInputFault | src/main/java/com/fdt/service/impl/UserServiceImpl.java:68-96 | no fault exactly when the blank, length, planet-code, charset and confirmation rules all hold, with lengths counted in UTF-16 units; every fault is a parameter error |
| Users.Register | src/main/java/com/fdt/service/impl/UserServiceImpl.java:67-128 | registration succeeds exactly for valid input (lengths in UTF-16 units) with a free account and planet code; valid input is refused as a taken account before a taken planet code; on success exactly one non-admin user is appended with the salted digest, under the next id |
| Users.LoginMatches | src/main/java/com/fdt/service/impl/UserServiceImpl.java:164-168 | the login query selects exactly the users with that account and digest |
| Users.Login | src/main/java/com/fdt/service/impl/UserServiceImpl.java:140-182 | a successful login returns the redacted copy of a stored user with that account and the salted digest, and only for input passing the checks (lengths in UTF-16 units); input failing them is a parameter error; an unknown account never logs in |
| Users.RegisterThenLogin | src/main/java/com/fdt/service/impl/UserServiceImpl.java:116-172 | logging in right after registering returns the redacted copy of the inserted user |
| Users.LoginMatchesNone | src/main/java/com/fdt/service/impl/UserServiceImpl.java:164-168 | with no stored row for the account and digest the query selects nothing |
| Users.LoginMatchesSole | src/main/java/com/fdt/service/impl/UserServiceImpl.java:164-168 | with exactly one stored row for the account and digest the query selects exactly that row |
| Users.LoginMatchesTwo | src/main/java/com/fdt/service/impl/UserServiceImpl.java:164-168 | with two stored rows for the account and digest the query selects at least two |
| Users.LoginFindsSoleMatch | src/main/java/com/fdt/service/impl/UserServiceImpl.java:140-182 | valid input with exactly one stored row for the account and the salted digest logs in as that row, redacted, in every store |
| Users.LoginRefusesNoneOrTwo | src/main/java/com/fdt/service/impl/UserServiceImpl.java:164-172 | login fails when no stored row, or more than one, has the account and the salted digest |
| Users.Safe | src/main/java/com/fdt/service/impl/UserServiceImpl.java:195-208 | the redacted copy carries no password |
| Users.GetSafetyUser | src/main/java/com/fdt/service/impl/UserServiceImpl.java:191-209 | null is a parameter error; otherwise the copy agrees on every public column and has no password |
| Users.SafeForgetsHiddenColumns | src/main/java/com/fdt/service/impl/UserServiceImpl.java:195-208 | redaction is idempotent, and records differing only in password, update time and delete flag redact alike |
| Users.Tagged | src/main/java/com/fdt/service/impl/UserServiceImpl.java:233-248 | the filter keeps exactly the users whose tag set holds every requested tag |
| Users.TaggedSnoc | src/main/java/com/fdt/service/impl/UserServiceImpl.java:233-248 | appending a user appends it to the filter result exactly when it holds every tag |
| Users.TagSelectionKeep | src/main/java/com/fdt/service/impl/UserServiceImpl.java:233-248 | appending a user who holds every tag adds that user's position to an order-keeping selection |
| Users.TagSelectionSkip | src/main/java/com/fdt/service/impl/UserServiceImpl.java:233-248 | appending a user who lacks a tag leaves an order-keeping selection as it was |
| Users.TaggedAtIndices | src/main/java/com/fdt/service/impl/UserServiceImpl.java:233-248 | the filter result is the users at the computed store positions, which increase and are exactly the positions of users holding every tag |
| Users.TaggedInOrder | src/main/java/com/fdt/service/impl/UserServiceImpl.java:233-248 | the filter result is the users at increasing store positions, and those positions are exactly the ones whose user holds every tag: nothing invented, repeated or reordered |
| Users.TaggedConcat | src/main/java/com/fdt/service/impl/UserServiceImpl.java:233-248 | the filter keeps store order |
| Users.SafeAll | src/main/java/com/fdt/service/impl/UserServiceImpl.java:249 | each user of the list is replaced by its redacted copy, in place |
| Users.SearchUsersByTags | src/main/java/com/fdt/service/impl/UserServiceImpl.java:219-252 | an empty request is exactly the failing case; otherwise the result is exactly the redacted copies of the users that hold every tag, in store order (with TaggedInOrder); every result carries every requested tag and no password |
| Users.IsAdmin | src/main/java/com/fdt/service/impl/UserServiceImpl.java:370-374 | a user is an administrator exactly when non-null with the admin role |
| Users.UpdateById | src/main/java/com/fdt/service/impl/UserServiceImpl.java:326 | exactly the rows with the request's id receive the request's non-null columns, the creation and update times included; every other row is unchanged |
| Users.UpdateUser | src/main/java/com/fdt/service/impl/UserServiceImpl.java:309-327 | a body without an id fails as its unboxing does, with a system error; an update succeeds exactly for a positive existing id that is the caller's own or when the caller is an administrator; the three refusals carry the parameter, no-authority and null codes; on success only the target's rows change, each receiving every non-null column of the request body (times included), and one row is reported |
| Users.NonAdminTouchesOnlySelf | src/main/java/com/fdt/service/impl/UserServiceImpl.java:315-319 | a non-administrator's update changes no record but their own |
| Users.SelfPromotion | src/main/java/com/fdt/service/impl/UserServiceImpl.java:309-327 | an ordinary user may set the admin role on their own record |
| Users.CreateTimeRewritten | src/main/java/com/fdt/service/impl/UserServiceImpl.java:309-327 | a user who sends a creation time for their own id overwrites the stored one, and a time not sent is kept |
| Ranking.Eligibles | src/main/java/com/fdt/service/impl/UserServiceImpl.java:433-440 | the candidates are exactly the users with tags other than the caller |
| Ranking.EligiblesOne | src/main/java/com/fdt/service/impl/UserServiceImpl.java:433-440 | one user is a candidate list of itself when it has tags and is not the caller, and empty otherwise |
| Ranking.EligiblesConcat | src/main/java/com/fdt/service/impl/UserServiceImpl.java:433-440 | the candidate filter distributes over concatenation: store order is kept and each row gives at most one candidate (with EligiblesOne this fixes the list) |
| Ranking.EligiblesAsWritten | src/main/java/com/fdt/service/impl/UserServiceImpl.java:437 | under the code as written the caller is excluded only when their id lies in -128..127 |
| Ranking.CallerMatchedAsWritten | src/main/java/com/fdt/service/impl/UserServiceImpl.java:437 | a caller with id 200 is their own candidate as written and not under the intended rule |
| Ranking.Score | src/main/java/com/fdt/service/impl/UserServiceImpl.java:441-447 | each candidate is scored by the distance from the caller's tags to its own, keeping its place |
| Ranking.Insert | src/main/java/com/fdt/service/impl/UserServiceImpl.java:450-451 | insertion adds exactly one element and keeps every other |
| Ranking.InsertRanked | src/main/java/com/fdt/service/impl/UserServiceImpl.java:450-451 | inserting a later candidate into a ranked list keeps it ranked by distance, ties in original order |
| Ranking.SortByDistance | src/main/java/com/fdt/service/impl/UserServiceImpl.java:450-451 | the sort is a permutation |
| Ranking.SortRanked | src/main/java/com/fdt/service/impl/UserServiceImpl.java:450-451 | the sort ranks by distance and keeps ties in their original order |
| Ranking.RankedUnique | src/main/java/com/fdt/service/impl/UserServiceImpl.java:450-451 | two ranked permutations of the same candidates are equal, so any stable sort gives this order |
| Ranking.HeadFirst | src/main/java/com/fdt/service/impl/UserServiceImpl.java:450-451 | the head of a ranked list comes before each other element |
| Ranking.HeadsAgree | src/main/java/com/fdt/service/impl/UserServiceImpl.java:450-451 | two ranked permutations of the same candidates share their head |
| Ranking.Take | src/main/java/com/fdt/service/impl/UserServiceImpl.java:452 | the limit keeps the first min(num, length) elements |
| Ranking.TopCandidatesFacts | src/main/java/com/fdt/service/impl/UserServiceImpl.java:433-453 | the top list has min(num, candidates) entries, is ranked, and each entry is a candidate scored against the caller |
| Ranking.PrefixNoFarther | src/main/java/com/fdt/service/impl/UserServiceImpl.java:450-452 | in a ranked list each element of a prefix is no farther than any element outside it |
| Ranking.LeftOutAreNoCloser | src/main/java/com/fdt/service/impl/UserServiceImpl.java:450-453 | a candidate cut by the limit is at least as far as every one kept |
| Ranking.IdsOf | src/main/java/com/fdt/service/impl/UserServiceImpl.java:455-456 | the id list is the top list's ids, in order |
| Ranking.WithIds | src/main/java/com/fdt/service/impl/UserServiceImpl.java:458-459 | the batch query returns exactly the users whose id is in the list |
| Ranking.InLookup | src/main/java/com/fdt/service/impl/UserServiceImpl.java:458-462 | every fetched user is the redacted copy of a stored user whose id was asked for |
| Ranking.FirstWithId | src/main/java/com/fdt/service/impl/UserServiceImpl.java:466 | the lookup finds a batch user with the id exactly when one exists |
| Ranking.RestoreOrder | src/main/java/com/fdt/service/impl/UserServiceImpl.java:463-467 | restoring succeeds exactly when every id is in the batch, and then lists, in id-list order, a batch user with each id |
| Ranking.RestoreFindsAll | src/main/java/com/fdt/service/impl/UserServiceImpl.java:458-467 | every ranked id is found in the fetched batch |
| Ranking.RestoredAreTop | src/main/java/com/fdt/service/impl/UserServiceImpl.java:463-467 | the restored list has the top list's ids in order, without passwords |
| Ranking.SameIdSameUser | src/main/java/com/fdt/service/impl/UserServiceImpl.java:460-462 | with unique ids two users with one id are the same user |
| Ranking.RestoreOrderIgnoresBatchOrder | src/main/java/com/fdt/service/impl/UserServiceImpl.java:458-467 | the final order does not depend on the order the batch query returns rows in |
| Ranking.RestoreOrderSameLookups | src/main/java/com/fdt/service/impl/UserServiceImpl.java:464-467 | batches that answer every id lookup alike restore alike |
| Ranking.RestoreTop | src/main/java/com/fdt/service/impl/UserServiceImpl.java:449-468 | every ranked id is found in the fetched batch, and restoring gives min(num, candidates) redacted users, none the caller |
| Ranking.MatchUsers | src/main/java/com/fdt/service/impl/UserServiceImpl.java:417-469 | matching succeeds exactly for a positive limit, a caller with tags and at least one candidate; with a non-negative limit and nothing to rank, the failure is the empty id-list query; failures are system errors; the result has min(num, candidates) users, none the caller, none with a password |
| Ranking.MatchUsersRanked | src/main/java/com/fdt/service/impl/UserServiceImpl.java:449-468 | whenever there is something to rank the call succeeds, and the result is the redacted top list, element by element, closest first |
| Ranking.IdenticalTagsRankFirst | src/main/java/com/fdt/service/impl/UserServiceImpl.java:445 | with the edit distance, a candidate whose tags equal the caller's puts a distance-0 candidate first |
| TagDistance.EditStepAtMost | src/main/java/com/fdt/service/impl/UserServiceImpl.java:445 | the distance is at most each of the delete, insert and keep/substitute steps |
| TagDistance.EditStepAttained | src/main/java/com/fdt/service/impl/UserServiceImpl.java:445 | the distance equals one of those steps |
| TagDistance.EditDistanceSelf | src/main/java/com/fdt/service/impl/UserServiceImpl.java:445 | a tag list is at distance 0 from itself |
| TagDistance.EditDistanceZero | src/main/java/com/fdt/service/impl/UserServiceImpl.java:445 | distance 0 only between identical lists |
| TagDistance.EditDistanceSymmetric | src/main/java/com/fdt/service/impl/UserServiceImpl.java:445 | the distance does not depend on the argument order |
| TagDistance.EditDistanceUpper | src/main/java/com/fdt/service/impl/UserServiceImpl.java:445 | the distance is at most the longer length |
| TagDistance.EditDistanceLower | src/main/java/com/fdt/service/impl/UserServiceImpl.java:445 | the distance is at least the length difference |
| TagDistance.OneTagApart | src/test/java/com/fdt/service/MinDistanceTest.java:13-18 | the first and third tag lists of the distance test are one edit apart |
| TagDistance.SwapCostsTwo | src/test/java/com/fdt/service/MinDistanceTest.java:16-19 | swapping the first two tags costs at most two edits |
| Scenarios.SecondJoinAdmitted | src/main/java/com/fdt/service/impl/TeamServiceImpl.java:352-364 | a team with cap 2 and one member admits a second user |
| Scenarios.FullTeamRefusesThird | src/main/java/com/fdt/service/impl/TeamServiceImpl.java:352-358 | that team then refuses a third user as full |
| Scenarios.SecretTeamRefusesWrongPassword | src/main/java/com/fdt/service/impl/TeamServiceImpl.java:324-330 | a SECRET team refuses a wrong password |
| Scenarios.SecretTeamAdmitsPassword | src/main/java/com/fdt/service/impl/TeamServiceImpl.java:324-330 | a SECRET team admits its own password |
| Scenarios.SuccessionInOwnStore | src/main/java/com/fdt/service/impl/TeamServiceImpl.java:420-444 | when a store holds one team's rows with the captain's single row first, the captain's quit hands the team to the second row's user and leaves the other rows in order |
| Scenarios.CaptainSuccessionToSecond | src/main/java/com/fdt/service/impl/TeamServiceImpl.java:420-444 | when the captain of A, B, C quits, B becomes captain and B, C remain in order |
| Scenarios.DissolvedTeamIsGone | src/main/java/com/fdt/service/impl/TeamServiceImpl.java:310-314 | after a dissolve, joining the team fails as "not found" |
| Scenarios.RejoinGetsLaterRow | src/main/java/com/fdt/service/impl/TeamServiceImpl.java:359-364 | quitting and rejoining gives one row whose id is above every earlier row, so the user falls behind in succession |
| Scenarios.OwnedCountTransfer | src/main/java/com/fdt/service/impl/TeamServiceImpl.java:437-440 | handing a team to a new captain adds it to their owned count |
| Scenarios.SuccessionExceedsOwnedQuota | src/main/java/com/fdt/service/impl/TeamServiceImpl.java:420-444 | a user who owns five teams and holds another team's second row owns six after that team's captain quits |
| Scenarios.FourEmojiPasswordAccepted | src/main/java/com/fdt/service/impl/UserServiceImpl.java:78-80 | a password of four emoji is eight UTF-16 units long and passes every registration input rule |
| Scenarios.ThreeEmojiPlanetCodeRefused | src/main/java/com/fdt/service/impl/UserServiceImpl.java:83-85 | a planet code of three emoji is six UTF-16 units long and is refused as too long |
| Scenarios.ElevenEmojiNameRefused | src/main/java/com/fdt/service/impl/TeamServiceImpl.java:80-82 | a team name of eleven emoji is twenty-two UTF-16 units long and is refused |
| Scenarios.MatchedTopTwo | src/main/java/com/fdt/service/impl/UserServiceImpl.java:449-468 | with unique ids and a limit of two, the match result is the two top candidates, redacted, in rank order |
| Scenarios.TopTwoOfThree | src/main/java/com/fdt/service/impl/UserServiceImpl.java:449-468 | with candidates at distances 1, 3 and 0 and a limit of two, the result is the distance-0 then the distance-1 user, redacted |

## Left out

- Sessions, Redis caching, the distributed join lock, logging and the HTTP controllers are left out. The acting user and the clock are parameters. Each operation is one atomic step, which is what the lock and the transactions give.
- Tag JSON parsing is left out: a user's tags are an already parsed list, and a blank or null column is None.
- The MD5 digest is a function parameter (`hash`), applied to the salt followed by the password.
- The distance utility is not part of this model. `Ranking` takes any distance function. `TagDistance.EditDistance` is a Levenshtein distance over whole tags, assumed rather than read from the code.
- TagDistance.SwapCostsTwo: states an upper bound only (at most two), not the exact distance.
- The ranker's comparator subtracts two long distances and casts the difference to int. That cast can overflow only when two distances differ by 2^31 or more, which tag lists never do. The model compares distances directly.
- A database failure while saving, updating or deleting is left out. The model takes these writes to succeed whenever the rules allow them. The system error for a dissolve that deletes no rows is modelled, and is proved unreachable under the invariant.
- Login with two stored users matching one account and digest is a separate failure in the model. The source's single-row lookup would throw in that case, and the invariant that accounts are unique is not modelled.
- A caller without tags in the ranker is modelled as a failure whenever someone is a candidate. The distance utility would receive a null list there, and its behaviour on null is not part of this model.
- TeamListing.Like: characters are compared exactly. The column collation, which decides whether the database folds case or accents, is not part of this model, and neither is the database itself; the backslash escape is the default of MySQL.
- Teams.AddTeam: a draft without a status is stored with status 0 (PUBLIC). The insert leaves the null column out, so the table's default applies; the table definition is not part of this model, and 0 is the value the validation reads a null status as.
- Users.Register: the account and planet-code lookups compare strings exactly. The column collation, which decides whether MySQL's `eq` folds case, is not part of this model, so under a case-insensitive collation the source refuses an account the model accepts.
- Users.Register: the inserted user's role is stored as 0 (not an administrator). The insert leaves the null role column out, so the table's default applies; the table definition is not part of this model.
- Users.Login: the account and digest lookup compares strings exactly; the column collation is not part of this model, so a case-insensitive collation may log in an account spelt with other cases, which the model refuses.
- Users.UpdateUser: the logical-delete flag is not in the request model; it is taken to be the table's logical-delete column, which update-by-id never sets. A database-side automatic update of the update time is not part of this model: the stored time changes only when the request sends one. A request with no non-null column, which renders an update with an empty SET list, is modelled as a successful update that changes nothing. A body without an id fails where the source unboxes it, which throws an exception rather than a business error; the model reports it as a system error, as it does for the other uncaught exceptions.
- Teams.UpdateTeam: a request whose five fields are all null is modelled as a successful update that changes nothing. The source copies it into a team carrying only its id, so update-by-id would render an empty SET list, which the database rejects, unless the team class fills some column automatically. The team class is not part of this model.
- Users.Register, Users.Login, Users.SearchUsersByTags, Users.UpdateUser and Ranking.MatchUsers: the user store holds only live rows. With `isDelete` as the logical-delete column, MyBatis-Plus adds `isDelete = 0` to every query and update-by-id, so a removed user is neither counted, logged in, found, updated nor matched. That automatic condition is not modelled, and the lookups read every stored row.
- Ranking.MatchUsers: the failure when nothing is ranked assumes that MyBatis-Plus renders `in` over an empty list as an empty SQL list, which the database rejects. The library version is not part of this model.
- The listing's `in` filter with an empty id list is treated as "no filter", as the service does. The paging fields of the query are left out. The creator's user record attached to each listed team is left out.
- TeamQuery declares no idList or searchText field, yet listTeam reads both; the model follows listTeam.
- The value of UserContant.ADMIN_ROLE is not part of this model; it is taken as 1.
- The team update request class is not part of this model. The patch is taken to carry name, description, expiry, status and password. The update does not re-apply the creation rules.
- Captain succession goes by membership row id, not by join time. The two agree because ids are assigned in insertion order.
- Observations that follow from the code as written:
  - a captain handed a team by succession can own more than five teams (`Scenarios.SuccessionExceedsOwnedQuota`);
  - a user may grant themselves the admin role (`Users.SelfPromotion`);
  - a non-administrator listing without a status filter sees PRIVATE teams (`TeamListing.NonAdminSeesPrivateTeams`).
  These are modelled as written, not as bugs, because nothing in the code shows a different intent.

## Findings

| source | as written | input that shows it | evidently intended | confidence | as-written member | corrected member |
|---|---|---|---|---|---|---|
| src/main/java/com/fdt/service/impl/TeamServiceImpl.java:472 | the captain check compares two boxed `Long` ids with `!=`, which compares references; it holds for equal ids only inside the -128..127 boxing cache | the captain of team 1 with user id 200 asks to dissolve it: refused as "not the captain" | compare the id values, so the captain may always dissolve | not executed; medium (assumes the entity's id fields are `Long`, as the unboxing elsewhere suggests) | Teams.DeleteTeamAsWritten, exhibited by Teams.CaptainRefusedAsWritten | Teams.DeleteTeam, with TeamInvariant.DeleteByCaptainSucceeds |
| src/main/java/com/fdt/service/impl/UserServiceImpl.java:437 | the caller is skipped only when `user.getId() == loginUser.getId()`, a reference comparison of two boxed `Long` ids | a caller with id 200 and tags: they are among their own candidates | compare the id values, so the caller is never their own match | not executed; medium (same assumption) | Ranking.EligiblesAsWritten, exhibited by Ranking.CallerMatchedAsWritten | Ranking.Eligibles, used by Ranking.MatchUsers |
