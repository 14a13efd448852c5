# Ranking of users by total score

A Dafny model of the scoring and ranking subsystem whose behaviour the
model-class tests in `spec/sample2/model_class_spec.rb` pin down:

- `User#total_score` (module `Scores`): the sum of a user's score records, 0
  when the user has none. The `user_scores` table is a sequence of
  `UserScore(user, score)` records; users are integer ids.
- `RankOrderMaker#each_ranked_user` (module `RankOrderMaker`): hands every user
  with at least one score record, best total first, to the caller's block
  together with its rank. The block is modelled by the sequence of
  `(user, rank)` entries in the order of the calls (`EachRankedUser`). The
  tests' own block, `orders[user.id] = rank`, is the loop `CollectOrders`, and
  `RankOrders` puts the two together.
- `RanksUpdater#update_all` (module `RanksUpdater`): writes one `ranks` row
  `(user, rank, score)` per scored user into the rank table. The table is the
  class `Ranks.RankTable`, whose field `rows` is a sequence of rows, so "no
  duplicate rows" and "the count stays 3" are proved, not built in. A row that
  already exists for a user is overwritten in place, and a missing one is
  appended.

The ranking rule is standard competition ranking. A scored user's rank is one
more than the number of scored users with a strictly greater total
(`RankOrderMaker.RankOf`). Tied users share a rank and the next lower total
skips the tied places: totals 17, 6, 6, 3 give 1, 2, 2, 4. The tests cannot
tell this apart from dense ranking (1, 2, 2, 3), because no fixture has a
third total after a tie. That is why the properties proved are the tie law and
the fixtures, not the size of the skip. `EachRankedUser` computes ranks the way
a single pass over the sorted users does: on a tie it repeats the previous
rank, otherwise it uses one more than the number of users already handed out.
`NextRank` proves that this equals `RankOf`.

Module `Fixtures` restates each test's records and expected values as
lemmas. Its methods `TiedScenario`, `ScorelessUserScenario`,
`EmptyTableScenario` and `StaleRowsScenario` replay the examples against the
method contracts alone. `StaleRowsScenario` also calls `UpdateAll` a second
time and proves that the table is unchanged.

Files: `wrappers.dfy` (Option), `scores.dfy`, `rank_order_maker.dfy`,
`ranks.dfy`, `ranks_updater.dfy`, `fixtures.dfy`.

## Model

| member | source | states |
|---|---|---|
| Scores.TotalScore | spec/sample2/model_class_spec.rb:198-219 | `User#total_score`: the sum of the score values of `u`'s records, 0 when there are none |
| Scores.ScoredUsers | spec/sample2/model_class_spec.rb:62-73 | the users that own at least one score record; these are exactly the users that get ranked |
| RankOrderMaker.RankOf | spec/sample2/model_class_spec.rb:16-77 | competition rank: 1 plus the number of scored users whose total is strictly greater |
| RanksUpdater.FreshRow | spec/sample2/model_class_spec.rb:128-139 | the row `update_all` writes for a user: that user, its competition rank and its total score |
| RanksUpdater.Mirrors | spec/sample2/model_class_spec.rb:121-140 | the table has no duplicate rows, has a row for exactly the scored users, and each row is that user's fresh row |
| Fixtures.TiedScenario | spec/sample2/model_class_spec.rb:31-45 | from the contracts alone: with totals 15, 15, 33, `orders` has size 3, user3 maps to 1, and user1 and user2 map to 2 |
| Fixtures.ScorelessUserScenario | spec/sample2/model_class_spec.rb:66-77 | from the contracts alone: the scoreless user 4 is not in `orders`, which has size 3 and maps user3, user2, user1 to 1, 2, 3 |
| Fixtures.EmptyTableScenario | spec/sample2/model_class_spec.rb:143-161 | from the contracts alone: update_all on an empty table leaves 3 rows, user2 1/17, user1 2/6, user3 3/3 |
| Fixtures.StaleRowsScenario | spec/sample2/model_class_spec.rb:165-172 | from the contracts alone: update_all over stale rows of the same users leaves 3 rows with the fresh values, and a second call changes nothing |
| Scores.TotalScoreOfUnscored | spec/sample2/model_class_spec.rb:216-219 | a user that owns no score record has total 0 |
| Scores.TotalScoreAppend | spec/sample2/model_class_spec.rb:203-213 | the total over two parts of the score table is the sum of the totals over each part |
| Scores.TotalScoreAddRecord | spec/sample2/model_class_spec.rb:206-212 | creating a record adds its value to its owner's total and leaves every other user's total unchanged |
| Scores.TotalScoreRemove | spec/sample2/model_class_spec.rb:203-213 | removing one record takes exactly its value out of its owner's total |
| Scores.TotalScorePermutation | spec/sample2/model_class_spec.rb:203-213 | the total does not depend on the order in which the records were created |
| RankOrderMaker.RankOrder | spec/sample2/model_class_spec.rb:16-45 | for two scored users: equal totals if and only if equal ranks, and a strictly greater total if and only if a strictly smaller rank |
| RankOrderMaker.StrictlyBetter | spec/sample2/model_class_spec.rb:42-44 | a scored user with a strictly greater total than another user has a strictly smaller rank |
| RankOrderMaker.RankBounds | spec/sample2/model_class_spec.rb:66-77 | a scored user's rank lies between 1 and the number of scored users |
| RankOrderMaker.TopRankIsOne | spec/sample2/model_class_spec.rb:42 | a user with the greatest total has rank 1 |
| RankOrderMaker.TopExists | spec/sample2/model_class_spec.rb:31-45 | every non-empty set of users has a member with the greatest total, so there is always a next user to hand out |
| RankOrderMaker.DistinctTotalsRankOneToN | spec/sample2/model_class_spec.rb:48-77 | when no two scored users tie, the ranks handed out are exactly 1 to N |
| RankOrderMaker.NextRank | spec/sample2/model_class_spec.rb:16-45 | the single-pass rule (repeat the previous rank on a tie, else one more than the number handed out) gives the competition rank |
| RankOrderMaker.ProgressStep | spec/sample2/model_class_spec.rb:31-45 | handing out the top remaining user with its rank keeps the loop state: no repeats, descending totals, correct ranks |
| RankOrderMaker.EachRankedUser | spec/sample2/model_class_spec.rb:31-77 | the block is called once for every scored user and never for a user without scores, in descending order of total, each call with the user's competition rank |
| RankOrderMaker.CollectOrders | spec/sample2/model_class_spec.rb:32-39 | the tests' block fills `orders`: its keys are the users the block saw, and each maps to the rank of that user's last call |
| RankOrderMaker.RankOrders | spec/sample2/model_class_spec.rb:66-77 | after each_ranked_user with the tests' block, `orders` holds exactly the scored users (its size is their number), each with its rank |
| Ranks.FindBy | spec/sample2/model_class_spec.rb:149-160 | looking up a user's row finds a row of that user, and finds nothing exactly when the user has no row |
| Ranks.UniqueCount | spec/sample2/model_class_spec.rb:147 | on a table without duplicate users, the row count equals the number of users with a row |
| Ranks.Upserted | spec/sample2/model_class_spec.rb:165-172 | after writing a user's row, lookup of that user gives the new row, every other user's lookup is unchanged, the user set grows by that user only, and no duplicates appear |
| Ranks.UpsertedAppends | spec/sample2/model_class_spec.rb:143-147 | a user without a row gets a new row at the end |
| Ranks.UpsertedInPlace | spec/sample2/model_class_spec.rb:165-172 | writing the row of a user that already has one keeps the count and changes only that row, in its place |
| Ranks.UpsertedAt | spec/sample2/model_class_spec.rb:165-172 | overwriting the user's first row at its index is the upsert |
| Ranks.Kept | spec/sample2/model_class_spec.rb:125 | deleting the rows of other users keeps exactly the rows of the kept users, unchanged, and keeps the table free of duplicates |
| Ranks.RankTable.Count | spec/sample2/model_class_spec.rb:125 | `Rank.count` is the number of users with a row |
| Ranks.RankTable.IndexOf | spec/sample2/model_class_spec.rb:165-172 | finds the first row of a user, or reports that there is none |
| Ranks.RankTable.Upsert | spec/sample2/model_class_spec.rb:165-172 | the table afterwards is the upsert of the row into the old table, and has no duplicates |
| Ranks.RankTable.DeleteAllExcept | spec/sample2/model_class_spec.rb:125 | the table afterwards holds only the rows of the kept users |
| Ranks.RankTable.constructor | spec/sample2/model_class_spec.rb:166-170 | a table holding the given rows, such as the stale rows of the second update_all example |
| RanksUpdater.MirrorsCount | spec/sample2/model_class_spec.rb:125 | a table that mirrors the scores has exactly one row per scored user |
| RanksUpdater.UpsertedPresent | spec/sample2/model_class_spec.rb:165-172 | writing a row that the table already holds leaves the table exactly as it was |
| RanksUpdater.WrittenStep | spec/sample2/model_class_spec.rb:121-140 | writing the next ranked user's fresh row keeps every earlier ranked user's fresh row |
| RanksUpdater.WrittenMirrors | spec/sample2/model_class_spec.rb:121-140 | once every ranked user is written, deleting the other rows leaves a table that mirrors the scores |
| RanksUpdater.UpdateAll | spec/sample2/model_class_spec.rb:121-174 | afterwards each scored user has exactly one row with its rank and total and no other user has any, the count is the number of scored users whatever duplicate-free table it held before, and a table that already mirrored the scores is left unchanged |
| Fixtures.TotalScoreFixture | spec/sample2/model_class_spec.rb:202-219 | scores 4, 5, 6 total 15; no scores total 0 |
| Fixtures.TiedScoredUsers | spec/sample2/model_class_spec.rb:17-29 | the tied example's scored users are user1, user2, user3 |
| Fixtures.TiedFixture | spec/sample2/model_class_spec.rb:31-45 | totals 15, 15, 33 give user3 rank 1 and user1 and user2 rank 2 |
| Fixtures.DistinctScoredUsers | spec/sample2/model_class_spec.rb:49-64 | the scoreless-user example's scored users are the three users with scores |
| Fixtures.DistinctFixture | spec/sample2/model_class_spec.rb:66-77 | the fourth user without scores is not ranked; totals 15, 24, 33 give ranks 3, 2, 1 |
| Fixtures.UpdateScoredUsers | spec/sample2/model_class_spec.rb:107-119 | the update_all example's scored users are user1, user2, user3 |
| Fixtures.UpdateFixture | spec/sample2/model_class_spec.rb:121-160 | the rows written are user2 rank 1 score 17, user1 rank 2 score 6, user3 rank 3 score 3 |

## Left out

- Database, FactoryBot and ActiveRecord mechanics (`create`, id assignment, `Rank.all.order(:rank)`). Users are integer ids and the two tables are sequences of records. Reading the rows in rank order is replaced by a lookup per user, which says the same thing here because the three ranks differ.
- The debug printing inside the tests' block: it is output only.
- Tie-break order within a group of equal totals: no test fixes it. `EachRankedUser` hands out any remaining user with the greatest total, and only the ranks are specified.
- Gap size after a tie (competition or dense ranking): no test decides it. Competition ranking is the chosen definition.
- Deleting the rows of users without scores is not exercised by any example, since the stale-row example uses the same three users. `UpdateAll` deletes them so that the table always mirrors the current scores, and this is a modelling choice.
- RankTable.constructor / UpdateAll: a table with more than one row for a user is not modelled. The model keeps the table free of duplicates as an invariant (`Valid`), which every method preserves, since the updater is the only writer of the table.
- Transactions, atomicity across rows and persistence errors: these are storage-layer concerns, and the model has no failing storage.
- The movie, schedule and sheet controller tests of the other sample: HTTP and CRUD plumbing with no ranking logic.
