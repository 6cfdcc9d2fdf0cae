/** The leaderboard: every player with the number of finds rows they own,
    most finds first. */
module Leaderboard {
  import opened QuestTypes
  import opened Registry

  datatype Standing = Standing(username: string, finds: nat)

  /** The number of finds rows that belong to this player (COUNT over the
      LEFT JOIN, so 0 for a player without finds). */
  function FindCount(finds: seq<Row>, mole: int): (n: nat)
    ensures n <= |finds|
    ensures n == 0 <==> forall r | r in finds :: r.moleId != mole
  {
    if finds == [] then 0
    else FindCount(finds[1..], mole) + (if finds[0].moleId == mole then 1 else 0)
  }

  /** One standing per player, in table order, before sorting. */
  function Tally(users: seq<User>, finds: seq<Row>): (tally: seq<Standing>)
    ensures |tally| == |users|
    ensures UniqueUsernames(users) ==> Distinct(tally)
  {
    seq(|users|, i requires 0 <= i < |users| => Standing(users[i].username, FindCount(finds, users[i].id)))
  }

  predicate NonIncreasing(board: seq<Standing>)
  {
    forall i, j | 0 <= i < j < |board| :: board[i].finds >= board[j].finds
  }

  /** Putting a standing with at least as many finds as everything below it on
      top keeps the board sorted. */
  lemma PrependKeepsOrder(top: Standing, board: seq<Standing>)
    requires NonIncreasing(board)
    requires AtMost(board, top.finds)
    ensures NonIncreasing([top] + board)
  {
    var r := [top] + board;
    forall i, j | 0 <= i < j < |r| ensures r[i].finds >= r[j].finds {
      if i > 0 {
        assert r[i] == board[i - 1] && r[j] == board[j - 1];
      }
    }
  }

  /** No standing of the board has more than `bound` finds. */
  predicate AtMost(board: seq<Standing>, bound: nat)
  {
    forall k | 0 <= k < |board| :: board[k].finds <= bound
  }

  /** Places e after every standing with at least as many finds. */
  function InsertByCount(board: seq<Standing>, e: Standing): (r: seq<Standing>)
    requires NonIncreasing(board)
    ensures NonIncreasing(r)
    ensures multiset(r) == multiset(board) + multiset{e}
    decreases |board|, 0
  {
    if board == [] then [e]
    else if board[0].finds >= e.finds then
      var rest := InsertByCount(board[1..], e);
      assert board == [board[0]] + board[1..];
      assert AtMost(board[1..], board[0].finds);
      InsertKeepsBound(board[1..], e, board[0].finds);
      PrependKeepsOrder(board[0], rest);
      [board[0]] + rest
    else
      assert AtMost(board, e.finds) by {
        forall k | 0 <= k < |board| ensures board[k].finds <= e.finds {
          assert board[0].finds >= board[k].finds;
        }
      }
      PrependKeepsOrder(e, board);
      [e] + board
  }

  /** Inserting a standing below a bound into a board below it stays below it. */
  lemma {:induction false} InsertKeepsBound(board: seq<Standing>, e: Standing, bound: nat)
    requires NonIncreasing(board)
    requires AtMost(board, bound) && e.finds <= bound
    ensures AtMost(InsertByCount(board, e), bound)
    decreases |board|, 1
  {
    if board != [] && board[0].finds >= e.finds {
      assert AtMost(board[1..], bound);
      InsertKeepsBound(board[1..], e, bound);
    }
  }

  /** ORDER BY the number of finds, descending. */
  function SortByCount(board: seq<Standing>): (r: seq<Standing>)
    ensures NonIncreasing(r)
    ensures multiset(r) == multiset(board)
  {
    if board == [] then []
    else
      var init := board[..|board| - 1];
      assert board == init + [board[|board| - 1]];
      InsertByCount(SortByCount(init), board[|board| - 1])
  }

  /** The leaderboard query. Grouping by username is grouping by player because
      usernames are unique in the users table. The order among equal counts is
      not specified by the query; the model keeps table order. */
  function GetLeaderboard(users: seq<User>, finds: seq<Row>): (board: seq<Standing>)
    requires UniqueUsernames(users)
    ensures NonIncreasing(board)
    ensures |board| == |users|
    ensures forall u | u in users :: Standing(u.username, FindCount(finds, u.id)) in board
    ensures forall e | e in board :: exists u :: u in users && e == Standing(u.username, FindCount(finds, u.id))
  {
    var tally := Tally(users, finds);
    var board := SortByCount(tally);
    assert |board| == |multiset(board)| == |multiset(tally)| == |tally|;
    forall u | u in users ensures Standing(u.username, FindCount(finds, u.id)) in board {
      var i :| 0 <= i < |users| && users[i] == u;
      assert tally[i] in multiset(tally);
    }
    forall e | e in board ensures exists u :: u in users && e == Standing(u.username, FindCount(finds, u.id)) {
      assert e in multiset(tally);
      var i :| 0 <= i < |tally| && tally[i] == e;
      assert users[i] in users;
    }
    board
  }

  lemma {:induction false} DistinctOccursOnce<T>(s: seq<T>, x: T)
    requires Distinct(s)
    requires x in s
    ensures multiset(s)[x] == 1
  {
    assert s == [s[0]] + s[1..];
    if s[0] == x {
      assert x !in s[1..];
    } else {
      DistinctOccursOnce(s[1..], x);
    }
  }

  /** Every player is listed exactly once, with the number of their finds rows. */
  lemma LeaderboardListsEachPlayerOnce(users: seq<User>, finds: seq<Row>, u: User)
    requires UniqueUsernames(users)
    requires u in users
    ensures multiset(GetLeaderboard(users, finds))[Standing(u.username, FindCount(finds, u.id))] == 1
    ensures forall e | e in GetLeaderboard(users, finds) && e.username == u.username :: e.finds == FindCount(finds, u.id)
  {
    var tally := Tally(users, finds);
    assert Distinct(tally);
    var i :| 0 <= i < |users| && users[i] == u;
    assert tally[i] == Standing(u.username, FindCount(finds, u.id));
    DistinctOccursOnce(tally, tally[i]);
    forall e | e in GetLeaderboard(users, finds) && e.username == u.username
      ensures e.finds == FindCount(finds, u.id)
    {
      var v :| v in users && e == Standing(v.username, FindCount(finds, v.id));
      var j :| 0 <= j < |users| && users[j] == v;
      assert i == j;
    }
  }
}
