/** Worked examples of the game's documented behaviour, checked against the
    contracts of the store and the pure functions. */
module Scenarios {
  import opened QuestTypes
  import opened Registry
  import opened SessionGate
  import opened Progress
  import opened UnlockEngine
  import opened Leaderboard
  import opened Quest

  /** A never-seen username registers and logs in; the same name with another
      password is then refused, and the store keeps one player. */
  method RegistrationScenario()
  {
    var store := new QuestStore([Location(1, 1, "Gate", "Where it starts", "GATE")]);
    var none := Session(Some("open sesame"), None, None);
    var first, s1 := store.LogIn(none, "newmole", "pw1");
    assert first.LoggedIn?;
    assert store.users == [User(1, "newmole", "pw1")];
    assert Authenticate(s1, store.users) == Admit;
    var second, s2 := store.LogIn(s1, "newmole", "wrong");
    assert second == WrongPassword && s2 == s1;
    assert store.users == [User(1, "newmole", "pw1")];
    var empty, s3 := store.LogIn(s1, "", "pw1");
    assert empty == EmptyField;
  }

  lemma ExampleCounts(finds: seq<Row>)
    requires finds == [Row(10, 1), Row(11, 1), Row(12, 1), Row(10, 3)]
    ensures FindCount(finds, 1) == 3 && FindCount(finds, 2) == 0 && FindCount(finds, 3) == 1
  {
    assert finds[1..] == [Row(11, 1), Row(12, 1), Row(10, 3)];
    assert finds[2..] == [Row(12, 1), Row(10, 3)];
    assert finds[3..] == [Row(10, 3)];
    assert finds[1..][1..] == finds[2..] && finds[2..][1..] == finds[3..];
    assert FindCount(finds[3..], 1) == 0 && FindCount(finds[3..], 2) == 0 && FindCount(finds[3..], 3) == 1;
    assert FindCount(finds[2..], 1) == 1 && FindCount(finds[2..], 2) == 0 && FindCount(finds[2..], 3) == 1;
    assert FindCount(finds[1..], 1) == 2 && FindCount(finds[1..], 2) == 0 && FindCount(finds[1..], 3) == 1;
  }

  /** Players with 3, 0 and 1 finds are ranked 3, 1, 0. */
  lemma LeaderboardExample(users: seq<User>, finds: seq<Row>)
    requires users == [User(1, "A", "a"), User(2, "B", "b"), User(3, "C", "c")]
    requires finds == [Row(10, 1), Row(11, 1), Row(12, 1), Row(10, 3)]
    ensures UniqueUsernames(users)
    ensures GetLeaderboard(users, finds) == [Standing("A", 3), Standing("C", 1), Standing("B", 0)]
  {
    ExampleCounts(finds);
    var board := GetLeaderboard(users, finds);
    var a, b, c := Standing("A", 3), Standing("B", 0), Standing("C", 1);
    assert users[0] in users && users[1] in users && users[2] in users;
    assert a in board && b in board && c in board;
    forall e | e in board ensures e == a || e == b || e == c {
      var u :| u in users && e == Standing(u.username, FindCount(finds, u.id));
    }
    ThreeDistinctCounts(board, a, c, b);
  }

  /** A sorted board of three entries holding three standings with distinct
      counts lists them by count. */
  lemma ThreeDistinctCounts(board: seq<Standing>, x: Standing, y: Standing, z: Standing)
    requires NonIncreasing(board) && |board| == 3
    requires x.finds > y.finds > z.finds
    requires x in board && y in board && z in board
    ensures board == [x, y, z]
  {
    var i :| 0 <= i < 3 && board[i] == x;
    var j :| 0 <= j < 3 && board[j] == y;
    var k :| 0 <= k < 3 && board[k] == z;
    assert i < j < k;
  }
}
