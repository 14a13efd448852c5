/**
 * `RanksUpdater#update_all`: recompute the ranking and write it into the
 * `ranks` table, one row per scored user, overwriting rows that already
 * exist instead of adding new ones.
 */
module RanksUpdater {
  import opened Wrappers
  import opened Scores
  import opened RankOrderMaker
  import opened Ranks

  /** The row `update_all` writes for user `u`. */
  function FreshRow(scores: seq<UserScore>, u: UserId): Rank
  {
    Rank(u, RankOf(scores, u), TotalScore(scores, u))
  }

  /**
   * The table mirrors the current scores: no duplicate rows, a row for
   * exactly the scored users, each holding the user's rank and total.
   */
  predicate Mirrors(rows: seq<Rank>, scores: seq<UserScore>)
  {
    && UniqueUsers(rows)
    && RowUsers(rows) == ScoredUsers(scores)
    && forall u :: u in ScoredUsers(scores) ==> FindBy(rows, u) == Some(FreshRow(scores, u))
  }

  /** A mirroring table has exactly one row per scored user. */
  lemma MirrorsCount(rows: seq<Rank>, scores: seq<UserScore>)
    requires Mirrors(rows, scores)
    ensures |rows| == |ScoredUsers(scores)|
  {
    UniqueCount(rows);
  }

  /** A row that the table already holds is left exactly where it is. */
  lemma {:induction false} UpsertedPresent(rows: seq<Rank>, row: Rank)
    requires FindBy(rows, row.user) == Some(row)
    ensures Upserted(rows, row) == rows
  {
    if rows[0].user != row.user {
      RowUsersCons(rows);
      UpsertedPresent(rows[1..], row);
    }
  }

  /**
   * The table part way through `update_all`: the first `k` ranked users have
   * their fresh row, and the table holds rows for exactly the users it held
   * before plus those.
   */
  predicate Written(rows: seq<Rank>, before: seq<Rank>, scores: seq<UserScore>, ranked: seq<Entry>, k: nat)
    requires k <= |ranked|
  {
    && UniqueUsers(rows)
    && RowUsers(rows) == RowUsers(before) + Users(ranked[..k])
    && forall i :: 0 <= i < k ==> FindBy(rows, ranked[i].user) == Some(FreshRow(scores, ranked[i].user))
  }

  /** Writing the fresh row of the next ranked user extends `Written` by one. */
  lemma WrittenStep(rows: seq<Rank>, before: seq<Rank>, scores: seq<UserScore>, ranked: seq<Entry>, k: nat)
    requires k < |ranked| && NoRepeats(ranked)
    requires ranked[k].rank == RankOf(scores, ranked[k].user)
    requires Written(rows, before, scores, ranked, k)
    ensures Written(Upserted(rows, FreshRow(scores, ranked[k].user)), before, scores, ranked, k + 1)
  {
    var e := ranked[k];
    assert ranked[..k + 1] == ranked[..k] + [e];
    UsersSnoc(ranked[..k], e);
    forall i | 0 <= i < k ensures ranked[i].user != e.user { }
  }

  /** Once every ranked user is written, deleting the other rows leaves a mirror. */
  lemma WrittenMirrors(rows: seq<Rank>, before: seq<Rank>, scores: seq<UserScore>, ranked: seq<Entry>)
    requires Users(ranked) == ScoredUsers(scores)
    requires Written(rows, before, scores, ranked, |ranked|)
    ensures Mirrors(Kept(rows, ScoredUsers(scores)), scores)
  {
    assert ranked[..|ranked|] == ranked;
    forall u | u in ScoredUsers(scores)
      ensures FindBy(rows, u) == Some(FreshRow(scores, u))
    {
      var i :| 0 <= i < |ranked| && ranked[i].user == u;
    }
  }

  /**
   * `update_all`: afterwards the table mirrors the scores and holds one row
   * per scored user, whatever rows it held before; rows of users without
   * scores are deleted. Run on a table that already mirrors the scores, it
   * changes nothing (running it twice is the same as running it once).
   */
  method UpdateAll(ranks: RankTable, scores: seq<UserScore>)
    requires ranks.Valid()
    modifies ranks
    ensures ranks.Valid()
    ensures Mirrors(ranks.rows, scores)
    ensures ranks.Count() == |ScoredUsers(scores)|
    ensures old(Mirrors(ranks.rows, scores)) ==> ranks.rows == old(ranks.rows)
  {
    var ranked := EachRankedUser(scores);
    ghost var before := ranks.rows;
    ghost var mirrored := Mirrors(before, scores);
    for k := 0 to |ranked|
      invariant ranks.Valid()
      invariant Written(ranks.rows, before, scores, ranked, k)
      invariant mirrored ==> ranks.rows == before
    {
      var e := ranked[k];
      var row := Rank(e.user, e.rank, TotalScore(scores, e.user));
      WrittenStep(ranks.rows, before, scores, ranked, k);
      if mirrored {
        assert e.user in Users(ranked);
        UpsertedPresent(ranks.rows, row);
      }
      ranks.Upsert(row);
    }
    WrittenMirrors(ranks.rows, before, scores, ranked);
    ranks.DeleteAllExcept(ScoredUsers(scores));
    MirrorsCount(ranks.rows, scores);
  }
}
