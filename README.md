# Fakebook query library — a verified Dafny model

`StudentFakebookOracle` answers ten read-only questions about the Fakebook social-network
store: birth-month statistics (query 0), first-name statistics (1), users without friends
(2), users living away from their hometown (3), the most-tagged photos (4), match-making
pairs (5), friend suggestions through mutual friends (6), the states hosting the most
events (7), the oldest and youngest friend of a user (8) and potential siblings (9).

This project models each query over an in-memory copy of the store:

- **Tables.** `Schema.Database` holds one sequence of records per table, in storage order.
- **SQL statements.** Each becomes a function over those sequences:
  - WHERE is `Seqs.Filter`, a join is a filtered `Seqs.Product`, SELECT is `Seqs.MapSeq`.
  - DISTINCT, UNION and INTERSECT use `Seqs.Dedup`.
  - GROUP BY with COUNT(*) is `Seqs.GroupCounts`.
  - ORDER BY is a stable sort, `Ordering.SortByKey`, on an integer-list key compared lexicographically:
    - descending columns are negated;
    - strings are compared by character code (binary collation);
    - NULL sorts after every value.
  - FETCH FIRST n and ROWNUM <= n are `Ordering.Take`, with `Seqs.Cap`.
- **Result-set loops.** Each becomes a method with a `while` loop and invariants.
- **Statements whose order is left open.** For ties the ORDER BY does not break (queries 6, 7 and 8), and for query 9 (no ORDER BY), the engine's row sequence is a parameter. A ghost predicate describes every order the statement may return, and a function shows one such order exists.
- **Data-access failures.** They are an explicit input:
  - The sentinel queries (0, 1, 7, 8) take `storeFails` and then return the sentinel the code returns.
  - The list queries take `failAt: FailurePoint`, the row at which the store fails, and return the entries added before it (`Schema.RowsBeforeFailure`).

Four store invariants appear as hypotheses where a property needs them, never as
preconditions of a query:
- `UniqueUserIds`: User_ID is a key.
- `CanonicalFriends`: each friendship is stored once, smaller id first.
- `UniquePhotoAndAlbumIds`: Photo_ID and Album_ID are keys.
- `UniqueCityIds`: City_ID is a key.

Two behaviours of the code worth knowing:
- **Query 0, least popular month.** The code takes the last row of `ORDER BY Birthed DESC, Month_of_Birth ASC`. Among months tied for the fewest births, it therefore reports the largest month number, not the smallest.
- **Query 8, friend list.** The code collects friends through views AF1 and AF2 as written; see Findings.

## Model

| member | source | states |
|---|---|---|
| MonthOfBirth.BirthMonths | StudentFakebookOracle.java:44-46 | a month is listed exactly when some user has that non-NULL birth month |
| MonthOfBirth.BirthMonthsCount | StudentFakebookOracle.java:44-47 | each month occurs as often as users are born in it, and the column has one entry per user whose month is not NULL |
| MonthOfBirth.MonthGroups | StudentFakebookOracle.java:44-47 | each grouped row carries a month that occurs and exactly its number of users; no two rows share a month |
| MonthOfBirth.MonthRows | StudentFakebookOracle.java:43-48 | the grouped rows come back ordered by count descending, then month ascending |
| MonthOfBirth.GroupSizesAddUp | StudentFakebookOracle.java:44-47 | the group counts add up to the number of users with a known birth month |
| MonthOfBirth.FirstRowIsMostPopular | StudentFakebookOracle.java:48-55 | the first row's month has at least as many births as any other month |
| MonthOfBirth.LastRowIsLeastPopular | StudentFakebookOracle.java:48-58 | the last row's month has no more births than any month that occurs, and is the largest such month on a tie |
| MonthOfBirth.MonthRowsSummary | StudentFakebookOracle.java:43-61 | total, emptiness, most and least popular month, all together for the ordered rows |
| MonthOfBirth.UsersBornIn | StudentFakebookOracle.java:67-71 | exactly the users born in the month, ascending by id, strictly so under unique ids |
| MonthOfBirth.ScanMonthRows | StudentFakebookOracle.java:50-61 | the loop's total is the sum of the counts; most and least months are those of the first and last rows, 0 with no rows |
| MonthOfBirth.FindMonthOfBirthInfo | StudentFakebookOracle.java:35-101 | failure gives (-1,-1,-1); otherwise total is the number of users with a birth month, the months are most and least popular, and the user lists are those born in them |
| NameInfo.MaxLength | StudentFakebookOracle.java:134 | no first name is longer, and one reaches it when there are names |
| NameInfo.MinLength | StudentFakebookOracle.java:144 | no first name is shorter, and one reaches it when there are names |
| NameInfo.NamesOfLength | StudentFakebookOracle.java:132-135 | exactly the names of the given length, once each, in ascending order |
| NameInfo.LongNames | StudentFakebookOracle.java:131-140 | a name is listed exactly when it is a first name of maximal length; distinct and ascending |
| NameInfo.ShortNames | StudentFakebookOracle.java:141-150 | a name is listed exactly when it is a first name of minimal length; distinct and ascending |
| NameInfo.NameGroups | StudentFakebookOracle.java:153-155 | each distinct first name once, with exactly its number of users |
| NameInfo.NameCountRows | StudentFakebookOracle.java:152-156 | each distinct first name with its number of users, ordered by count descending, then name |
| NameInfo.ScanNameCounts | StudentFakebookOracle.java:157-165 | with no rows, no name and count 0; otherwise the count of the first row and the names of a leading run of rows |
| NameInfo.CommonPrefixIsMostCommon | StudentFakebookOracle.java:153-165 | the names collected are exactly those with the highest count, none is more frequent, in ascending order |
| NameInfo.FindNameInfo | StudentFakebookOracle.java:111-179 | failure gives the empty record; otherwise long and short names as above, common names exactly the most frequent with their count, empty exactly when there are no users, and with no users the fresh empty record with count 0 |
| LonelyUsers.LonelyRows | StudentFakebookOracle.java:202-209 | exactly the users in no Friends row, ascending by id |
| LonelyUsers.LonelyIffFriendless | StudentFakebookOracle.java:205-208 | a user is listed if and only if they are friends with nobody |
| Schema.CopyRows | StudentFakebookOracle.java:211-221 | the entries are exactly the rows before the failure point, all rows without failure |
| LonelyUsers.FindLonelyUsers | StudentFakebookOracle.java:188-228 | the entries are the rows before the failure point; without failure every user is listed exactly when friendless |
| AwayFromHome.AwayRows | StudentFakebookOracle.java:249-255 | exactly the users with some current city differing from some hometown, once each, ascending by id |
| AwayFromHome.AwayWhenCityDiffers | StudentFakebookOracle.java:252-254 | a current city differing from a hometown lists the user; a single current city equal to every hometown keeps the user out |
| AwayFromHome.FindUsersAwayFromHome | StudentFakebookOracle.java:235-273 | the entries are the rows before the failure point, all of them without failure |
| MostTagged.TagJoin | StudentFakebookOracle.java:300-303 | a photo appears in the join exactly when it has a tag and an album |
| MostTagged.TagCountIsTagRows | StudentFakebookOracle.java:300-304 | with Photo_ID a key of Photos and Album_ID a key of Albums, a tagged photo has exactly one join row per tag of it |
| MostTagged.RankPhotos | StudentFakebookOracle.java:300-305 | the grouped photos with their tag counts, ordered by count descending, then photo id |
| MostTagged.RankingOrder | StudentFakebookOracle.java:305 | an earlier photo has more tags, or as many and a smaller id |
| MostTagged.TopPhotos | StudentFakebookOracle.java:300-306 | at most num photos, each tagged, with its number of join rows (at least 1) as its count, in ranking order, none twice |
| MostTagged.NoOmittedPhotoOutranks | StudentFakebookOracle.java:305-306 | no photo left out has more tags than one kept, nor as many with a smaller id |
| MostTagged.TagRows | StudentFakebookOracle.java:322-325 | exactly the users tagged in the photo |
| MostTagged.TaggedUsers | StudentFakebookOracle.java:322-326 | exactly the users tagged in the photo, ascending by id |
| Schema.CollectRows | StudentFakebookOracle.java:311-342 | one entry per row before the failure point, each built from its row; all rows without failure |
| MostTagged.FindPhotosWithMostTags | StudentFakebookOracle.java:282-352 | the entries are the top photos, in order, up to the failure point |
| MatchMaker.SharedPhotoIds | StudentFakebookOracle.java:388-389 | exactly the photos in which both users are tagged, once each |
| MatchMaker.MatchRows | StudentFakebookOracle.java:381-392 | exactly the candidate pairs: same gender, known years within yearDiff, smaller id first, not friends, at least one shared photo |
| MatchMaker.RankedMatches | StudentFakebookOracle.java:381-393 | the same pairs, once each, ordered by shared photos descending, then both ids |
| MatchMaker.MatchRowFacts | StudentFakebookOracle.java:384-392 | a ranked pair is ordered by id, within the year gap, not friends, and counts its distinct shared photos, at least 1 |
| MatchMaker.TopMatches | StudentFakebookOracle.java:381-394 | at most num pairs, each a match, none twice, in ranking order |
| MatchMaker.NoOmittedMatchOutranks | StudentFakebookOracle.java:393-394 | no pair left out sorts before a pair kept: not more shared photos, nor as many with a smaller first id, nor as many and the same first id with a smaller second id |
| MatchMaker.SharedPhotos | StudentFakebookOracle.java:416-423 | for two different users, exactly the photos both are tagged in, once each, ascending by photo id |
| MatchMaker.FindMatches | StudentFakebookOracle.java:366-443 | the entries are the top pairs, in order, up to the failure point |
| SuggestFriends.NotFriends | StudentFakebookOracle.java:469-473 | exactly the user pairs, smaller id first, without that exact Friends row |
| SuggestFriends.MutualMatches | StudentFakebookOracle.java:474-480 | exactly the pairs of Friends rows the PairGroup join condition accepts |
| SuggestFriends.SuggestionGroups | StudentFakebookOracle.java:474-484 | each grouped pair with its COUNT(*), none twice |
| SuggestFriends.SomeSuggestionResult | StudentFakebookOracle.java:481-486 | some ordering and cut of the groups satisfies the statement's ORDER BY and ROWNUM |
| SuggestFriends.TopSuggestionsFacts | StudentFakebookOracle.java:482-486 | any admissible result has at most num rows, all groups, none twice, in order, and outranks every group left out |
| SuggestFriends.MutualFriendIds | StudentFakebookOracle.java:448-452 | reference definition: exactly the users who are friends of both, once each |
| SuggestFriends.MatchCountIsMutualFriendCount | StudentFakebookOracle.java:477-480 | with canonical friendships, the pair's join matches are as many as its mutual friends |
| SuggestFriends.NotFriendsDistinct | StudentFakebookOracle.java:469-473 | with unique ids view NotFriends holds no pair twice |
| SuggestFriends.NotFriendsOnce | StudentFakebookOracle.java:469-473 | with unique ids each pair occurs once in NotFriends |
| SuggestFriends.MatchGivesMutualFriend | StudentFakebookOracle.java:477-480 | with canonical friendships a join match yields a user who is friends with both |
| SuggestFriends.SuggestionIsNotFriendsPair | StudentFakebookOracle.java:469-473 | a suggested pair is ordered by id and not stored as friends in that order |
| SuggestFriends.SuggestionHasMutualFriend | StudentFakebookOracle.java:469-480 | with canonical friendships a suggested pair is not friends at all and has a mutual friend |
| SuggestFriends.SuggestionCountIsMutualFriends | StudentFakebookOracle.java:482-484 | with unique ids and canonical friendships, the mutuals count is the number of mutual friends |
| SuggestFriends.MatchMembersAreMutualFriends | StudentFakebookOracle.java:475-480 | with canonical friendships, the users a match row names in COMMON1 or COMMON2, other than the pair, are exactly the mutual friends |
| SuggestFriends.SharedFriends | StudentFakebookOracle.java:501-506 | the listed users are those in the pair's join rows other than the pair, once each, ascending by id |
| SuggestFriends.SharedFriendsAreMutualFriends | StudentFakebookOracle.java:501-506 | for a suggested pair, a user is listed exactly when they are a mutual friend |
| SuggestFriends.SharedFriendsOfPair | StudentFakebookOracle.java:501-506 | for any pair not stored as friends, with canonical friendships, the listed users are its mutual friends |
| SuggestFriends.FindSuggestions | StudentFakebookOracle.java:453-526 | the entries follow the statement's rows up to the failure point, at most num of them |
| EventStates.EventStateColumn | StudentFakebookOracle.java:548-550 | a state appears exactly when some event is held in one of its cities |
| EventStates.EventsInIsEventCount | StudentFakebookOracle.java:548-550 | with City_ID a key of Cities, the rows a state gets in the join are exactly the events held in its cities, one each |
| EventStates.SomeStateResult | StudentFakebookOracle.java:548-552 | some ordering of the groups by count descending exists |
| EventStates.StatesWithCount | StudentFakebookOracle.java:562-564 | a state is collected exactly when a row gives it that count |
| EventStates.ScanStates | StudentFakebookOracle.java:555-568 | no rows gives count -1 and no state; otherwise the first row's count and the states of rows with that count |
| EventStates.FirstRowHasMostEvents | StudentFakebookOracle.java:552-560 | no row has a larger count than the first |
| EventStates.MostEventsMeaning | StudentFakebookOracle.java:548-565 | the first count is at least 1, no state hosts more events, and a state is listed exactly when it hosts that many; none twice |
| EventStates.StatesWithCountDistinct | StudentFakebookOracle.java:562-564 | no state is collected twice |
| EventStates.FindEventStates | StudentFakebookOracle.java:534-576 | failure or no event gives count -1 and no state; otherwise the largest number of events and exactly the states hosting it |
| AgeInfo.AF1 | StudentFakebookOracle.java:599-602 | exactly the users stored after the user in a Friends row |
| AgeInfo.AF2 | StudentFakebookOracle.java:603-606 | as written: only the user's own id, when the user leads some Friends row |
| AgeInfo.AllFriendIds | StudentFakebookOracle.java:607-608 | as written: the union of both views, once each |
| AgeInfo.FriendIdsOf | StudentFakebookOracle.java:599-608 | intended: exactly the user's friends in either column, once each, never the user with canonical friendships |
| AgeInfo.AllFriendIdsAsWritten | StudentFakebookOracle.java:603-608 | with canonical friendships the views miss every friend with a smaller id and add the user whenever they have a friend with a larger id |
| AgeInfo.AsWrittenLosesFriend | StudentFakebookOracle.java:603-608 | with the single friendship (1, 2), user 2 gets no friend and user 1 gets themselves |
| AgeInfo.FriendRows | StudentFakebookOracle.java:612-614 | exactly the users whose id is in the friend list |
| AgeInfo.BirthKeyIsDateOrder | StudentFakebookOracle.java:615 | for fully known dates the sort order is calendar order |
| AgeInfo.SomeAgeRows | StudentFakebookOracle.java:612-615 | some ordering of the joined users by birth date exists |
| AgeInfo.OldestAndYoungest | StudentFakebookOracle.java:617-634 | no rows keeps the initial ids 99999999 and 999999999; otherwise the first row is the oldest and the last the youngest |
| AgeInfo.FirstOldestLastYoungest | StudentFakebookOracle.java:612-634 | the first row is born no later, and the last no earlier, than every user in the join |
| AgeInfo.FindAgeInfo | StudentFakebookOracle.java:585-648 | failure gives the ERROR pair; otherwise the oldest and youngest among the users the views as written select |
| AgeInfo.FindAgeInfoOfFriends | StudentFakebookOracle.java:585-648 | the same query over the intended friend list: the oldest and youngest of the user's real friends |
| Siblings.MatchTable | StudentFakebookOracle.java:671-680 | exactly the Friends rows whose users share a last name, known years less than ten apart and a hometown, once each |
| Siblings.MatchJoin | StudentFakebookOracle.java:682-684 | each match row joined with the two users its ids name |
| Siblings.JoinedIsSiblingPair | StudentFakebookOracle.java:671-684 | every returned pair is friends and meets both conditions |
| Siblings.SiblingPairIsJoined | StudentFakebookOracle.java:671-684 | every pair of friends meeting both conditions is returned |
| Siblings.SiblingJoinMembers | StudentFakebookOracle.java:671-684 | a pair is returned if and only if it is friends and meets both conditions |
| Siblings.SiblingJoinDistinct | StudentFakebookOracle.java:671-684 | with unique ids no pair is returned twice |
| Siblings.SiblingsShareName | StudentFakebookOracle.java:672-674 | with unique ids both users of a returned pair share the last name and have known birth years less than ten apart |
| Siblings.SameNameCloseUsers | StudentFakebookOracle.java:672-674 | with unique ids, when the first condition holds for the ids of two users, those two users share the last name and have known birth years less than ten apart |
| Siblings.SiblingsOrdered | StudentFakebookOracle.java:679-680 | with canonical friendships the first user of a returned pair has the smaller id |
| Siblings.FindPotentialSiblings | StudentFakebookOracle.java:658-704 | the entries are the rows before the failure point, each a sibling pair; without failure exactly the sibling pairs, once each under unique ids |

## Left out

- JDBC plumbing is not modelled: statement and result-set objects, their closing, and the try-with-resources blocks. A failure anywhere in a query is one `storeFails` / `failAt` input.
- The DROP VIEW statements of queries 6, 8 and 9 are not modelled, nor a view that already exists from an earlier failed run. Views are functions, recomputed per call.
- The `System.err` messages in the exception handlers are output only and are not modelled.
- Oracle's treatment of the empty string as NULL is not modelled: names are non-NULL strings.
- Collation is binary (character codes). Linguistic sorting settings of a session are not modelled.
- The result classes of the surrounding library (`FakebookArrayList`, `UserInfo`, …) are datatypes and sequences, so their printing is not modelled.
- Integer widths are not modelled. Ids, counts and years are unbounded, where the code reads `long` and `int` columns.
- MostTagged.FindPhotosWithMostTags, MatchMaker.FindMatches, SuggestFriends.FindSuggestions: the nested per-row statement is a function value. A failure inside it drops the partially built entry of that row, as the code does.
- SuggestFriends.FindSuggestions: the order of pairs tied on mutuals and user1 is left open, as the statement leaves it. `mutuals` is COUNT(*) over PairGroup, so it equals the mutual-friend count only under unique ids and canonical friendships (SuggestFriends.SuggestionCountIsMutualFriends).
- SuggestFriends.NotFriends: `NOT IN` tests the exact (user1, user2) orientation, as written. Under canonical friendships that is the same as not being friends.
- MostTagged.TagJoin: the rows of the join are enumerated tag by tag. The code leaves their order to the engine, and the grouped counts do not depend on it.
- EventStates.FindEventStates, AgeInfo.FindAgeInfo: the order among equal sort keys is left open. Which tied state or friend comes first is not determined.
- Siblings.FindPotentialSiblings: the statement has no ORDER BY, so the entries may come in any order.
- MatchMaker.MatchRows: a NULL gender or birth year excludes the user, as SQL comparison with NULL does.

## Findings

| source | as written | input that shows it | evidently intended | confidence | as-written member | corrected member |
|---|---|---|---|---|---|---|
| StudentFakebookOracle.java:603-606 | view AF2 selects `F2.user1_id` where `F2.user1_id = userID`, so it yields only the user's own id | Friends holds only (1, 2) and userID is 2: no friend is found though user 1 is a friend; with userID 1 the user is reported among their own friends | AF2 selects `F2.user1_id` where `F2.user2_id = userID`, so the friends stored before the user are included | high (not executed) | AgeInfo.AsWrittenLosesFriend | AgeInfo.FindAgeInfoOfFriends |
