/** Rows of the four tables the game keeps, and the small wrappers used for
    optional values and for operations that can fail. */
module QuestTypes {

  datatype Option<+T> = None | Some(value: T)

  datatype Result<+T, +E> = Success(value: T) | Failure(error: E)

  /** A row of the locations table: static reference data, seeded once before play.
      The code is the secret a player must submit to record a find. */
  datatype Location = Location(id: int, level: int, name: string, clue: string, code: string)

  /** A row of the users table: one player ("mole"). Passwords are stored and
      compared in plain text. */
  datatype User = User(id: int, username: string, password: string)

  /** A row of the finds table or of the unlocked table: a (location, mole) pair. */
  datatype Row = Row(locationId: int, moleId: int)

  /** No element occurs twice in s. */
  predicate Distinct<T(==)>(s: seq<T>)
  {
    forall i, j | 0 <= i < j < |s| :: s[i] != s[j]
  }

  /** Appending an element that is not yet present keeps a sequence duplicate-free. */
  lemma DistinctSnoc<T>(s: seq<T>, x: T)
    requires Distinct(s) && x !in s
    ensures Distinct(s + [x])
  {
    var s' := s + [x];
    forall i, j | 0 <= i < j < |s'| ensures s'[i] != s'[j] {
      if j == |s| {
        assert s'[i] == s[i];
      }
    }
  }
}
