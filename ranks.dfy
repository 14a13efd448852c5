/**
 * The `ranks` table: one row per ranked user holding its rank and its total
 * score. Rows are kept in a sequence, as a table keeps them, so that "no
 * duplicate row for a user" and the row count are properties to prove rather
 * than facts of the representation.
 */
module Ranks {
  import opened Wrappers
  import opened Scores

  /** One row of the `ranks` table. */
  datatype Rank = Rank(user: UserId, rank: nat, score: int)

  /** The users that own a row. */
  function RowUsers(rows: seq<Rank>): set<UserId>
  {
    set i | 0 <= i < |rows| :: rows[i].user
  }

  /** No user owns two rows. */
  predicate UniqueUsers(rows: seq<Rank>)
  {
    forall i, j :: 0 <= i < j < |rows| ==> rows[i].user != rows[j].user
  }

  /** `Rank.find_by(user: u)`: the first row of `u`, if there is one. */
  function FindBy(rows: seq<Rank>, u: UserId): (found: Option<Rank>)
    ensures found.None? <==> u !in RowUsers(rows)
    ensures found.Some? ==> found.value.user == u && found.value in rows
  {
    if rows == [] then None
    else if rows[0].user == u then Some(rows[0])
    else
      assert RowUsers(rows) == {rows[0].user} + RowUsers(rows[1..]) by {
        RowUsersCons(rows);
      }
      FindBy(rows[1..], u)
  }

  lemma RowUsersCons(rows: seq<Rank>)
    requires rows != []
    ensures RowUsers(rows) == {rows[0].user} + RowUsers(rows[1..])
  {
    forall v | v in RowUsers(rows) ensures v in {rows[0].user} + RowUsers(rows[1..]) {
      var i :| 0 <= i < |rows| && rows[i].user == v;
      if i > 0 {
        assert rows[1..][i - 1] == rows[i];
      }
    }
    forall v | v in RowUsers(rows[1..]) ensures v in RowUsers(rows) {
      var i :| 0 <= i < |rows[1..]| && rows[1..][i].user == v;
      assert rows[i + 1] == rows[1..][i];
    }
  }

  lemma UniqueTail(rows: seq<Rank>)
    requires rows != [] && UniqueUsers(rows)
    ensures UniqueUsers(rows[1..]) && rows[0].user !in RowUsers(rows[1..])
  {
    forall i | 0 <= i < |rows| - 1 ensures rows[1..][i].user != rows[0].user {
      assert rows[1..][i] == rows[i + 1];
    }
  }

  /** With no duplicate users, the row count is the number of users with a row. */
  lemma {:induction false} UniqueCount(rows: seq<Rank>)
    requires UniqueUsers(rows)
    ensures |rows| == |RowUsers(rows)|
  {
    if rows != [] {
      RowUsersCons(rows);
      UniqueTail(rows);
      UniqueCount(rows[1..]);
    }
  }

  /**
   * The table after writing `row` for its user: the user's first row is
   * overwritten in place, or, if the user has none, the row is appended.
   */
  function Upserted(rows: seq<Rank>, row: Rank): (r: seq<Rank>)
    ensures FindBy(r, row.user) == Some(row)
    ensures forall v :: v != row.user ==> FindBy(r, v) == FindBy(rows, v)
    ensures RowUsers(r) == RowUsers(rows) + {row.user}
    ensures UniqueUsers(rows) ==> UniqueUsers(r)
  {
    if rows == [] then [row]
    else
      RowUsersCons(rows);
      if rows[0].user == row.user then
        var r := [row] + rows[1..];
        assert r[1..] == rows[1..];
        RowUsersCons(r);
        if UniqueUsers(rows) then UniqueTail(rows); r else r
      else
        var rest := Upserted(rows[1..], row);
        var r := [rows[0]] + rest;
        assert r[1..] == rest;
        RowUsersCons(r);
        if UniqueUsers(rows) then UniqueTail(rows); r else r
  }

  /** A user without a row gets a new row at the end of the table. */
  lemma {:induction false} UpsertedAppends(rows: seq<Rank>, row: Rank)
    requires row.user !in RowUsers(rows)
    ensures Upserted(rows, row) == rows + [row]
  {
    if rows != [] {
      RowUsersCons(rows);
      assert rows[0].user != row.user;
      UpsertedAppends(rows[1..], row);
      calc {
        Upserted(rows, row);
        [rows[0]] + Upserted(rows[1..], row);
        [rows[0]] + (rows[1..] + [row]);
        { assert rows == [rows[0]] + rows[1..]; }
        rows + [row];
      }
    }
  }

  /**
   * On a table without duplicate users, upserting the row of a user that
   * already has one changes that row only, in its place, so the count stays.
   */
  lemma UpsertedInPlace(rows: seq<Rank>, row: Rank)
    requires UniqueUsers(rows) && row.user in RowUsers(rows)
    ensures |Upserted(rows, row)| == |rows|
    ensures forall i :: 0 <= i < |rows| ==>
      Upserted(rows, row)[i] == if rows[i].user == row.user then row else rows[i]
  {
    var k :| 0 <= k < |rows| && rows[k].user == row.user;
    UpsertedAt(rows, row, k);
  }

  /** The rows whose users are in `keep`, in their order. */
  function Kept(rows: seq<Rank>, keep: set<UserId>): (r: seq<Rank>)
    ensures RowUsers(r) == RowUsers(rows) * keep
    ensures forall v :: v in keep ==> FindBy(r, v) == FindBy(rows, v)
    ensures UniqueUsers(rows) ==> UniqueUsers(r)
    ensures RowUsers(rows) <= keep ==> r == rows
  {
    if rows == [] then []
    else
      RowUsersCons(rows);
      var rest := Kept(rows[1..], keep);
      assert UniqueUsers(rows) ==> UniqueUsers(rows[1..]) by {
        if UniqueUsers(rows) { UniqueTail(rows); }
      }
      if rows[0].user in keep then
        var r := [rows[0]] + rest;
        assert r[1..] == rest;
        RowUsersCons(r);
        assert rows == [rows[0]] + rows[1..];
        r
      else
        rest
  }

  /** The `ranks` table, updated in place by the methods below. */
  class RankTable {
    var rows: seq<Rank>

    ghost predicate Valid()
      reads this
    {
      UniqueUsers(rows)
    }

    constructor (initial: seq<Rank>)
      requires UniqueUsers(initial)
      ensures Valid() && rows == initial
    {
      rows := initial;
    }

    /** `Rank.count`. */
    function Count(): (n: nat)
      reads this
      requires Valid()
      ensures n == |RowUsers(rows)|
    {
      UniqueCount(rows);
      |rows|
    }

    /** The position of the first row of `u`, scanning the table. */
    method IndexOf(u: UserId) returns (index: Option<nat>)
      ensures index.None? <==> u !in RowUsers(rows)
      ensures index.Some? ==> index.value < |rows| && rows[index.value].user == u
      ensures index.Some? ==> forall j :: 0 <= j < index.value ==> rows[j].user != u
    {
      var i := 0;
      while i < |rows|
        invariant i <= |rows|
        invariant forall j :: 0 <= j < i ==> rows[j].user != u
      {
        if rows[i].user == u {
          return Some(i);
        }
        i := i + 1;
      }
      return None;
    }

    /**
     * Write `row` for its user: overwrite that user's row in place, or create
     * a row when the user has none.
     */
    method Upsert(row: Rank)
      requires Valid()
      modifies this
      ensures Valid()
      ensures rows == Upserted(old(rows), row)
    {
      var index := IndexOf(row.user);
      match index {
        case Some(i) =>
          UpsertedAt(rows, row, i);
          rows := rows[i := row];
        case None =>
          UpsertedAppends(rows, row);
          rows := rows + [row];
      }
    }

    /** Delete every row whose user is not in `keep`. */
    method DeleteAllExcept(keep: set<UserId>)
      requires Valid()
      modifies this
      ensures Valid()
      ensures rows == Kept(old(rows), keep)
    {
      rows := Kept(rows, keep);
    }
  }

  /** Overwriting the first row of the user at index `i` is what `Upserted` does. */
  lemma {:induction false} UpsertedAt(rows: seq<Rank>, row: Rank, i: nat)
    requires i < |rows| && rows[i].user == row.user
    requires forall j :: 0 <= j < i ==> rows[j].user != row.user
    ensures Upserted(rows, row) == rows[i := row]
  {
    if i > 0 {
      UpsertedAt(rows[1..], row, i - 1);
      assert rows[1..][i - 1 := row] == rows[i := row][1..];
    }
  }
}
