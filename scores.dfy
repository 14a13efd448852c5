/**
 * The score records of the ranking subsystem and a user's total score
 * (the `User#total_score` query). The `user_scores` table is a sequence of
 * records; each record belongs to exactly one user.
 */
module Scores {

  type UserId = int

  /** One row of the `user_scores` table. */
  datatype UserScore = UserScore(user: UserId, score: int)

  /** The users that own at least one score record. */
  function ScoredUsers(scores: seq<UserScore>): set<UserId>
  {
    set i | 0 <= i < |scores| :: scores[i].user
  }

  /**
   * The sum of the score values of every record that belongs to `u`;
   * a user without records has total 0 (not an error, not a missing value).
   */
  function TotalScore(scores: seq<UserScore>, u: UserId): int
  {
    if scores == [] then 0
    else
      (if scores[0].user == u then scores[0].score else 0) + TotalScore(scores[1..], u)
  }

  /** A user that owns no score record has total 0. */
  lemma {:induction false} TotalScoreOfUnscored(scores: seq<UserScore>, u: UserId)
    requires u !in ScoredUsers(scores)
    ensures TotalScore(scores, u) == 0
  {
    if scores != [] {
      assert scores[0].user != u;
      forall i | 0 <= i < |scores| - 1 ensures scores[1..][i].user != u {
        assert scores[1..][i] == scores[i + 1];
      }
      TotalScoreOfUnscored(scores[1..], u);
    }
  }

  /** Totals add up over a split of the table into two parts. */
  lemma {:induction false} TotalScoreAppend(a: seq<UserScore>, b: seq<UserScore>, u: UserId)
    ensures TotalScore(a + b, u) == TotalScore(a, u) + TotalScore(b, u)
  {
    if a == [] {
      assert a + b == b;
    } else {
      assert (a + b)[1..] == a[1..] + b;
      TotalScoreAppend(a[1..], b, u);
    }
  }

  /**
   * Creating one more score record adds its value to its owner's total and
   * leaves every other user's total as it was.
   */
  lemma TotalScoreAddRecord(scores: seq<UserScore>, r: UserScore, u: UserId)
    ensures TotalScore(scores + [r], u)
         == TotalScore(scores, u) + (if r.user == u then r.score else 0)
  {
    TotalScoreAppend(scores, [r], u);
    assert [r][1..] == [];
  }

  /** Removing the record at index `k` takes its value out of its owner's total. */
  lemma TotalScoreRemove(b: seq<UserScore>, k: nat, u: UserId)
    requires k < |b|
    ensures TotalScore(b, u)
         == (if b[k].user == u then b[k].score else 0) + TotalScore(b[..k] + b[k + 1..], u)
  {
    var tail := [b[k]] + b[k + 1..];
    assert b == b[..k] + tail;
    assert tail[1..] == b[k + 1..];
    TotalScoreAppend(b[..k], tail, u);
    TotalScoreAppend(b[..k], b[k + 1..], u);
  }

  lemma MultisetRemove<T>(s: seq<T>, k: nat)
    requires k < |s|
    ensures multiset(s[..k] + s[k + 1..]) == multiset(s) - multiset{s[k]}
  {
    assert s == s[..k] + [s[k]] + s[k + 1..];
  }

  /** The total does not depend on the order in which records were created. */
  lemma {:induction false} TotalScorePermutation(a: seq<UserScore>, b: seq<UserScore>, u: UserId)
    requires multiset(a) == multiset(b)
    ensures TotalScore(a, u) == TotalScore(b, u)
    decreases |a|
  {
    if a == [] {
      assert |b| == |multiset(b)| == 0;
    } else {
      var x := a[0];
      assert x in multiset(b);
      var k :| 0 <= k < |b| && b[k] == x;
      var rest := b[..k] + b[k + 1..];
      MultisetRemove(b, k);
      MultisetRemove(a, 0);
      assert a[..0] + a[1..] == a[1..];
      TotalScorePermutation(a[1..], rest, u);
      TotalScoreRemove(b, k, u);
    }
  }
}
