/**
 * `RankOrderMaker#each_ranked_user`: every user with at least one score
 * record, in descending order of total score, paired with its rank.
 *
 * The ranking rule is standard competition ranking: a user's rank is one
 * more than the number of scored users whose total is strictly greater, so
 * tied users share a rank and the next lower total skips the tied places
 * (totals 17, 6, 6, 3 give ranks 1, 2, 2, 4).
 */
module RankOrderMaker {
  import opened Scores

  /** One call of the caller's block: a ranked user and its rank. */
  datatype Entry = Entry(user: UserId, rank: nat)

  /** The scored users whose total is strictly greater than that of `u`. */
  function Above(scores: seq<UserScore>, u: UserId): set<UserId>
  {
    set v | v in ScoredUsers(scores) && TotalScore(scores, v) > TotalScore(scores, u)
  }

  /** Competition rank of `u`: 1 for the best total. */
  function RankOf(scores: seq<UserScore>, u: UserId): nat
  {
    1 + |Above(scores, u)|
  }

  /** The users an entry sequence names. */
  function Users(entries: seq<Entry>): set<UserId>
  {
    set i | 0 <= i < |entries| :: entries[i].user
  }

  lemma UsersSnoc(entries: seq<Entry>, e: Entry)
    ensures Users(entries + [e]) == Users(entries) + {e.user}
  {
    var next := entries + [e];
    forall v | v in Users(next) ensures v in Users(entries) + {e.user} {
      var i :| 0 <= i < |next| && next[i].user == v;
      if i < |entries| {
        assert entries[i].user == v;
      }
    }
    forall v | v in Users(entries) ensures v in Users(next) {
      var i :| 0 <= i < |entries| && entries[i].user == v;
      assert next[i].user == v;
    }
    assert next[|entries|].user == e.user;
  }

  /** Entry `i` is the last one in `entries` that names its user. */
  predicate LastFor(entries: seq<Entry>, i: nat)
    requires i < |entries|
  {
    forall j :: i < j < |entries| ==> entries[j].user != entries[i].user
  }

  /** No user is handed to the block twice. */
  predicate NoRepeats(entries: seq<Entry>)
  {
    forall i, j :: 0 <= i < j < |entries| ==> entries[i].user != entries[j].user
  }

  /** Entries come in descending order of total score. */
  predicate Descending(scores: seq<UserScore>, entries: seq<Entry>)
  {
    forall i, j :: 0 <= i < j < |entries| ==>
      TotalScore(scores, entries[j].user) <= TotalScore(scores, entries[i].user)
  }

  /** `u` has the greatest total among `pool`. */
  predicate IsTop(scores: seq<UserScore>, pool: set<UserId>, u: UserId)
  {
    u in pool && forall v :: v in pool ==> TotalScore(scores, v) <= TotalScore(scores, u)
  }

  /** No two scored users share a total. */
  predicate DistinctTotals(scores: seq<UserScore>)
  {
    forall u, v :: u in ScoredUsers(scores) && v in ScoredUsers(scores) && u != v ==>
      TotalScore(scores, u) != TotalScore(scores, v)
  }

  lemma SubsetCard<T>(a: set<T>, b: set<T>)
    requires a <= b
    ensures |a| <= |b|
  {
    assert b == a + (b - a);
  }

  /**
   * The tie law: equal totals give equal ranks, and a strictly greater total
   * gives a strictly better (smaller) rank; both directions hold.
   */
  lemma RankOrder(scores: seq<UserScore>, u: UserId, v: UserId)
    requires u in ScoredUsers(scores) && v in ScoredUsers(scores)
    ensures TotalScore(scores, u) == TotalScore(scores, v) <==> RankOf(scores, u) == RankOf(scores, v)
    ensures TotalScore(scores, u) > TotalScore(scores, v) <==> RankOf(scores, u) < RankOf(scores, v)
  {
    var tu, tv := TotalScore(scores, u), TotalScore(scores, v);
    if tu == tv {
      assert Above(scores, u) == Above(scores, v);
    } else if tu > tv {
      StrictlyBetter(scores, u, v);
    } else {
      StrictlyBetter(scores, v, u);
    }
  }

  lemma StrictlyBetter(scores: seq<UserScore>, u: UserId, v: UserId)
    requires u in ScoredUsers(scores)
    requires TotalScore(scores, u) > TotalScore(scores, v)
    ensures RankOf(scores, u) < RankOf(scores, v)
  {
    assert u in Above(scores, v) && u !in Above(scores, u);
    SubsetCard(Above(scores, u), Above(scores, v) - {u});
  }

  /** A scored user's rank lies between 1 and the number of scored users. */
  lemma RankBounds(scores: seq<UserScore>, u: UserId)
    requires u in ScoredUsers(scores)
    ensures 1 <= RankOf(scores, u) <= |ScoredUsers(scores)|
  {
    SubsetCard(Above(scores, u), ScoredUsers(scores) - {u});
  }

  /** A user with the greatest total is ranked first. */
  lemma TopRankIsOne(scores: seq<UserScore>, u: UserId)
    requires IsTop(scores, ScoredUsers(scores), u)
    ensures RankOf(scores, u) == 1
  {
    assert Above(scores, u) == {};
  }

  lemma Pick<T>(s: set<T>) returns (x: T)
    requires s != {}
    ensures x in s
  {
    x :| x in s;
  }

  /** Every non-empty set of users has one with the greatest total. */
  lemma {:induction false} TopExists(scores: seq<UserScore>, pool: set<UserId>)
    requires pool != {}
    ensures exists u :: IsTop(scores, pool, u)
    decreases pool
  {
    var x := Pick(pool);
    if pool != {x} {
      TopExists(scores, pool - {x});
      var y :| IsTop(scores, pool - {x}, y);
      if TotalScore(scores, x) <= TotalScore(scores, y) {
        assert IsTop(scores, pool, y);
      } else {
        assert IsTop(scores, pool, x);
      }
    } else {
      assert IsTop(scores, pool, x);
    }
  }

  /** The ranks a set of users receives. */
  function RanksOf(scores: seq<UserScore>, pool: set<UserId>): set<nat>
  {
    set u | u in pool :: RankOf(scores, u)
  }

  lemma {:induction false} RanksOfCard(scores: seq<UserScore>, pool: set<UserId>)
    requires DistinctTotals(scores) && pool <= ScoredUsers(scores)
    ensures |RanksOf(scores, pool)| == |pool|
    decreases pool
  {
    if pool != {} {
      var x := Pick(pool);
      var rest := pool - {x};
      RanksOfCard(scores, rest);
      assert RanksOf(scores, pool) == RanksOf(scores, rest) + {RankOf(scores, x)};
      forall y | y in rest ensures RankOf(scores, y) != RankOf(scores, x) {
        RankOrder(scores, x, y);
      }
    }
  }

  /** The integers 1 to `n`. */
  function OneTo(n: nat): set<nat>
  {
    if n == 0 then {} else OneTo(n - 1) + {n}
  }

  lemma {:induction false} OneToContents(n: nat)
    ensures |OneTo(n)| == n
    ensures forall k :: k in OneTo(n) <==> 1 <= k <= n
  {
    if n > 0 {
      OneToContents(n - 1);
    }
  }

  /** When no two scored users tie, the ranks handed out are exactly 1 to N. */
  lemma DistinctTotalsRankOneToN(scores: seq<UserScore>)
    requires DistinctTotals(scores)
    ensures RanksOf(scores, ScoredUsers(scores)) == OneTo(|ScoredUsers(scores)|)
  {
    var n := |ScoredUsers(scores)|;
    var ranks := RanksOf(scores, ScoredUsers(scores));
    OneToContents(n);
    forall r | r in ranks ensures r in OneTo(n) {
      var u :| u in ScoredUsers(scores) && RankOf(scores, u) == r;
      RankBounds(scores, u);
    }
    RanksOfCard(scores, ScoredUsers(scores));
    assert |OneTo(n) - ranks| == 0;
  }

  lemma {:induction false} NoRepeatsCard(entries: seq<Entry>)
    requires NoRepeats(entries)
    ensures |Users(entries)| == |entries|
  {
    if entries != [] {
      var init := entries[..|entries| - 1];
      var last := entries[|entries| - 1];
      NoRepeatsCard(init);
      assert entries == init + [last];
      assert Users(entries) == Users(init) + {last.user};
      assert last.user !in Users(init);
    }
  }

  /**
   * The rank of the next user out of the pool of users still to be handed
   * out: the rank of the previous entry on a tie, otherwise one more than
   * the number of entries already handed out.
   */
  lemma NextRank(scores: seq<UserScore>, entries: seq<Entry>, pool: set<UserId>, u: UserId)
    requires Progress(scores, entries, pool) && IsTop(scores, pool, u)
    ensures RankOf(scores, u)
         == if |entries| > 0 && TotalScore(scores, entries[|entries| - 1].user) == TotalScore(scores, u)
            then entries[|entries| - 1].rank
            else |entries| + 1
  {
    var n := |entries|;
    if n > 0 && TotalScore(scores, entries[n - 1].user) == TotalScore(scores, u) {
      assert entries[n - 1].user in Users(entries);
      RankOrder(scores, entries[n - 1].user, u);
    } else {
      forall v | v in Above(scores, u) ensures v in Users(entries) {
        assert v !in pool;
      }
      forall v | v in Users(entries) ensures v in Above(scores, u) {
        var i :| 0 <= i < n && entries[i].user == v;
        assert TotalScore(scores, u) <= TotalScore(scores, entries[n - 1].user);
        assert TotalScore(scores, entries[n - 1].user) <= TotalScore(scores, v);
      }
      assert Above(scores, u) == Users(entries);
      NoRepeatsCard(entries);
    }
  }

  /**
   * The state of `each_ranked_user` part way through: `pool` holds the scored
   * users not yet handed out, `entries` those already handed out, best first.
   */
  predicate Progress(scores: seq<UserScore>, entries: seq<Entry>, pool: set<UserId>)
  {
    && pool !! Users(entries)
    && pool + Users(entries) == ScoredUsers(scores)
    && NoRepeats(entries)
    && Descending(scores, entries)
    && (forall i, v :: 0 <= i < |entries| && v in pool ==>
          TotalScore(scores, v) <= TotalScore(scores, entries[i].user))
    && (forall i :: 0 <= i < |entries| ==> entries[i].rank == RankOf(scores, entries[i].user))
  }

  /** Handing out the top user of the pool with its rank keeps `Progress`. */
  lemma ProgressStep(scores: seq<UserScore>, entries: seq<Entry>, pool: set<UserId>, u: UserId)
    requires Progress(scores, entries, pool) && IsTop(scores, pool, u)
    ensures Progress(scores, entries + [Entry(u, RankOf(scores, u))], pool - {u})
  {
    var next := entries + [Entry(u, RankOf(scores, u))];
    UsersSnoc(entries, Entry(u, RankOf(scores, u)));
    forall i | 0 <= i < |entries| ensures entries[i].user != u {
      assert entries[i].user in Users(entries);
    }
  }

  /**
   * `each_ranked_user`: the (user, rank) pairs handed to the caller's block,
   * in the order of the calls. Every scored user appears once, nobody else
   * does, totals never increase along the sequence, and each rank is the
   * user's competition rank.
   */
  method EachRankedUser(scores: seq<UserScore>) returns (ranked: seq<Entry>)
    ensures Users(ranked) == ScoredUsers(scores)
    ensures NoRepeats(ranked)
    ensures Descending(scores, ranked)
    ensures forall i :: 0 <= i < |ranked| ==> ranked[i].rank == RankOf(scores, ranked[i].user)
    ensures |ranked| == |ScoredUsers(scores)|
  {
    var pool := ScoredUsers(scores);
    ranked := [];
    while pool != {}
      invariant Progress(scores, ranked, pool)
      decreases pool
    {
      TopExists(scores, pool);
      var u :| IsTop(scores, pool, u);
      var total := TotalScore(scores, u);
      var n := |ranked|;
      var rank := if n > 0 && TotalScore(scores, ranked[n - 1].user) == total
                  then ranked[n - 1].rank else n + 1;
      NextRank(scores, ranked, pool, u);
      ProgressStep(scores, ranked, pool, u);
      ranked := ranked + [Entry(u, rank)];
      pool := pool - {u};
    }
    NoRepeatsCard(ranked);
  }

  /**
   * The caller's block of the tests, `orders[user.id] = rank`, run once per
   * entry: a later entry for the same user overwrites an earlier one.
   */
  method CollectOrders(ranked: seq<Entry>) returns (orders: map<UserId, nat>)
    ensures orders.Keys == Users(ranked)
    ensures forall i :: 0 <= i < |ranked| && LastFor(ranked, i) ==> orders[ranked[i].user] == ranked[i].rank
  {
    orders := map[];
    for k := 0 to |ranked|
      invariant orders.Keys == Users(ranked[..k])
      invariant forall i :: 0 <= i < k && LastFor(ranked[..k], i) ==> orders[ranked[i].user] == ranked[i].rank
    {
      assert ranked[..k + 1] == ranked[..k] + [ranked[k]];
      UsersSnoc(ranked[..k], ranked[k]);
      orders := orders[ranked[k].user := ranked[k].rank];
    }
    assert ranked[..|ranked|] == ranked;
  }

  /**
   * `each_ranked_user` driving the tests' block: the block runs once per
   * ranked user, so `orders` holds exactly the scored users, each with its
   * competition rank.
   */
  method RankOrders(scores: seq<UserScore>) returns (orders: map<UserId, nat>)
    ensures orders.Keys == ScoredUsers(scores)
    ensures |orders| == |ScoredUsers(scores)|
    ensures forall u :: u in orders ==> orders[u] == RankOf(scores, u)
  {
    var ranked := EachRankedUser(scores);
    orders := CollectOrders(ranked);
    forall u | u in orders ensures orders[u] == RankOf(scores, u) {
      var i :| 0 <= i < |ranked| && ranked[i].user == u;
      assert LastFor(ranked, i);
    }
    assert orders.Keys == ScoredUsers(scores);
  }
}
