/**
 * The fixtures of the model-class tests, stated over the model: the score
 * records each example creates (user1, user2, user3 are users 1, 2, 3; the
 * extra user without scores is user 4) and the values each example expects.
 */
module Fixtures {
  import opened Wrappers
  import opened Scores
  import opened RankOrderMaker
  import opened Ranks
  import opened RanksUpdater

  /** user1 with scores 4, 5, 6. */
  function OneUser(): seq<UserScore>
  {
    [UserScore(1, 4), UserScore(1, 5), UserScore(1, 6)]
  }

  /** `total_score` sums the user's records, and is 0 when there are none. */
  lemma TotalScoreFixture()
    ensures TotalScore(OneUser(), 1) == 15
    ensures TotalScore([], 1) == 0
  {
  }

  /** Totals 15, 15, 33: two users tie below the third. */
  function TiedScores(): seq<UserScore>
  {
    [ UserScore(1, 4), UserScore(1, 5), UserScore(1, 6)
    , UserScore(2, 4), UserScore(2, 5), UserScore(2, 6)
    , UserScore(3, 10), UserScore(3, 11), UserScore(3, 12) ]
  }

  lemma TiedScoredUsers()
    ensures ScoredUsers(TiedScores()) == {1, 2, 3}
    ensures |ScoredUsers(TiedScores())| == 3
  {
    var s := TiedScores();
    assert s[0].user == 1 && s[3].user == 2 && s[6].user == 3;
  }

  lemma TiedFixture()
    ensures RankOf(TiedScores(), 3) == 1
    ensures RankOf(TiedScores(), 1) == 2
    ensures RankOf(TiedScores(), 2) == 2
  {
    var s := TiedScores();
    TiedScoredUsers();
    assert TotalScore(s, 1) == 15 && TotalScore(s, 2) == 15 && TotalScore(s, 3) == 33;
    assert Above(s, 3) == {};
    assert Above(s, 1) == {3} && Above(s, 2) == {3};
  }

  /** Totals 15, 24, 33, and a fourth user (user 4) without any score. */
  function DistinctScores(): seq<UserScore>
  {
    [ UserScore(1, 4), UserScore(1, 5), UserScore(1, 6)
    , UserScore(2, 7), UserScore(2, 8), UserScore(2, 9)
    , UserScore(3, 10), UserScore(3, 11), UserScore(3, 12) ]
  }

  lemma DistinctScoredUsers()
    ensures ScoredUsers(DistinctScores()) == {1, 2, 3}
    ensures |ScoredUsers(DistinctScores())| == 3
  {
    var s := DistinctScores();
    assert s[0].user == 1 && s[3].user == 2 && s[6].user == 3;
  }

  lemma DistinctFixture()
    ensures 4 !in ScoredUsers(DistinctScores())
    ensures RankOf(DistinctScores(), 3) == 1
    ensures RankOf(DistinctScores(), 2) == 2
    ensures RankOf(DistinctScores(), 1) == 3
  {
    var s := DistinctScores();
    DistinctScoredUsers();
    assert TotalScore(s, 1) == 15 && TotalScore(s, 2) == 24 && TotalScore(s, 3) == 33;
    assert Above(s, 3) == {};
    assert Above(s, 2) == {3};
    assert Above(s, 1) == {2, 3};
  }

  /** Totals 6, 17, 3: the fixture of the `update_all` examples. */
  function UpdateScores(): seq<UserScore>
  {
    [ UserScore(1, 3), UserScore(1, 2), UserScore(1, 1)
    , UserScore(2, 10), UserScore(2, 3), UserScore(2, 4)
    , UserScore(3, 1), UserScore(3, 1), UserScore(3, 1) ]
  }

  lemma UpdateScoredUsers()
    ensures ScoredUsers(UpdateScores()) == {1, 2, 3}
    ensures |ScoredUsers(UpdateScores())| == 3
  {
    var s := UpdateScores();
    assert s[0].user == 1 && s[3].user == 2 && s[6].user == 3;
  }

  lemma UpdateFixture()
    ensures FreshRow(UpdateScores(), 2) == Rank(2, 1, 17)
    ensures FreshRow(UpdateScores(), 1) == Rank(1, 2, 6)
    ensures FreshRow(UpdateScores(), 3) == Rank(3, 3, 3)
  {
    var s := UpdateScores();
    UpdateScoredUsers();
    assert TotalScore(s, 1) == 6 && TotalScore(s, 2) == 17 && TotalScore(s, 3) == 3;
    assert Above(s, 2) == {};
    assert Above(s, 1) == {2};
    assert Above(s, 3) == {1, 2};
  }

  /** The tied example: the block sees three users, user3 first, the others tied second. */
  method TiedScenario()
  {
    TiedScoredUsers();
    TiedFixture();
    var orders := RankOrders(TiedScores());
    assert |orders| == 3;
    assert orders[3] == 1 && orders[2] == 2 && orders[1] == 2;
  }

  /** The example with a user without scores: that user never reaches the block. */
  method ScorelessUserScenario()
  {
    DistinctScoredUsers();
    DistinctFixture();
    var orders := RankOrders(DistinctScores());
    assert |orders| == 3;
    assert 4 !in orders;
    assert orders[3] == 1 && orders[2] == 2 && orders[1] == 3;
  }

  /** `update_all` on an empty table creates the three rows. */
  method EmptyTableScenario()
  {
    var ranks := new RankTable([]);
    UpdateAll(ranks, UpdateScores());
    UpdateScoredUsers();
    UpdateFixture();
    assert ranks.Count() == 3;
    assert FindBy(ranks.rows, 2) == Some(Rank(2, 1, 17));
    assert FindBy(ranks.rows, 1) == Some(Rank(1, 2, 6));
    assert FindBy(ranks.rows, 3) == Some(Rank(3, 3, 3));
  }

  /** `update_all` over stale rows of the same users overwrites them; a second run changes nothing. */
  method StaleRowsScenario()
  {
    var stale := [Rank(1, 3, 10), Rank(2, 2, 20), Rank(3, 1, 31)];
    assert UniqueUsers(stale);
    var ranks := new RankTable(stale);
    UpdateAll(ranks, UpdateScores());
    UpdateScoredUsers();
    UpdateFixture();
    assert ranks.Count() == 3;
    assert FindBy(ranks.rows, 2) == Some(Rank(2, 1, 17));
    assert FindBy(ranks.rows, 1) == Some(Rank(1, 2, 6));
    assert FindBy(ranks.rows, 3) == Some(Rank(3, 3, 3));
    var once := ranks.rows;
    UpdateAll(ranks, UpdateScores());
    assert ranks.rows == once;
  }
}
