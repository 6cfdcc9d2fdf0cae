/** The game's shared store and the request handlers that change it: the
    progress view, login with auto-registration, and code submission with the
    unlock engine. */
module Quest {
  import opened QuestTypes
  import opened Registry
  import opened Progress
  import opened SessionGate
  import opened UnlockEngine

  datatype LoginOutcome =
    | EmptyField
    | WrongPassword
    | LoggedIn(locations: ProgressView)

  class QuestStore {
    /** The locations table, in id order; it is never changed at run time. */
    const catalog: seq<Location>
    /** The users table. */
    var users: seq<User>
    /** The finds table: one row per correct submission. */
    var finds: seq<Row>
    /** The unlocked table: locations above level 1 made visible to a player. */
    var unlocked: seq<Row>

    /** The store invariant. Locations have unique ids and positive levels;
        usernames and user ids are unique; an unlocked row is never repeated and
        always names a catalog location above level 1. The finds table has no
        such guarantee: a location can be found twice. */
    ghost predicate Valid()
      reads this
    {
      && IdOrdered(catalog)
      && (forall loc | loc in catalog :: loc.level >= 1)
      && UniqueUsernames(users)
      && UniqueIds(users)
      && UnlockedWellFormed(catalog, unlocked)
    }

    /** A store over a seeded catalog, before anyone has played. */
    constructor (catalog: seq<Location>)
      requires IdOrdered(catalog)
      requires forall loc | loc in catalog :: loc.level >= 1
      ensures Valid()
      ensures this.catalog == catalog && users == [] && finds == [] && unlocked == []
    {
      this.catalog := catalog;
      users, finds, unlocked := [], [], [];
    }

    /** The progress view of one player: the joined rows, appended one by one to
        the list of their level. */
    method GetLocations(mole: int) returns (locations: ProgressView)
      ensures locations == View(catalog, finds, unlocked, mole)
    {
      var rows := Join(catalog, finds, unlocked, mole);
      locations := map[];
      var i := 0;
      while i < |rows|
        invariant 0 <= i <= |rows|
        invariant locations == Group(rows[..i])
      {
        var r := rows[i];
        var entries := if r.level in locations then locations[r.level] else [];
        GroupSnoc(rows[..i], r);
        assert rows[..i + 1] == rows[..i] + [r];
        locations := locations[r.level := entries + [r.view]];
        i := i + 1;
      }
      assert rows[..i] == rows;
    }

    /** The login form handler (reached only past the passphrase guard). Empty
        fields are refused; an unseen username is registered with the given
        password; a known one must match its stored password. On success the
        session holds exactly the submitted credentials and the player's
        progress view is shown. */
    method LogIn(session: Session, username: string, password: string)
      returns (outcome: LoginOutcome, session': Session)
      requires Valid()
      modifies this
      ensures Valid()
      ensures finds == old(finds) && unlocked == old(unlocked)
      ensures username == "" || password == "" ==> outcome == EmptyField && users == old(users)
      ensures username != "" && password != "" && !Registered(old(users), username) ==>
                && users == old(users) + [User(NextUserId(old(users)), username, password)]
                && outcome.LoggedIn?
      ensures username != "" && password != "" && Registered(old(users), username) ==>
                && users == old(users)
                && (outcome.LoggedIn? <==> exists u :: u in old(users) && u.username == username && u.password == password)
                && (!outcome.LoggedIn? ==> outcome == WrongPassword)
      ensures !outcome.LoggedIn? ==> session' == session
      ensures outcome.LoggedIn? ==>
                && session' == session.(username := Some(username), password := Some(password))
                && Authenticate(session', users) == Admit
                && outcome.locations == View(catalog, finds, unlocked, GetMoleId(users, username).value)
    {
      if username == "" || password == "" {
        return EmptyField, session;
      }
      var existing := FindUser(users, username);
      if existing.None? {
        AddUser(username, password);
      } else if password != existing.value.password {
        return WrongPassword, session;
      }
      session' := session.(username := Some(username), password := Some(password));
      // index(): the credential guard admits the new session, then the view is shown
      assert Authenticate(session', users) == Admit;
      var mole := GetMoleId(users, username);
      var locations := GetLocations(mole.value);
      outcome := LoggedIn(locations);
    }

    /** The insertion of a new user: the database gives it the next id, and the
        store invariant is kept because the username was not registered. */
    method AddUser(username: string, password: string)
      requires Valid()
      requires !Registered(users, username)
      modifies this
      ensures Valid()
      ensures users == old(users) + [User(NextUserId(old(users)), username, password)]
      ensures finds == old(finds) && unlocked == old(unlocked)
      ensures FindUser(users, username) == Some(User(NextUserId(old(users)), username, password))
    {
      var u := User(NextUserId(users), username, password);
      InsertKeepsUnique(users, u);
      users := users + [u];
    }

    /** The code submission handler (reached only past both guards, so the
        player is registered): the steps of the unlock engine, run against the
        store. The player is looked up only once the code is known to be right. */
    method SubmitCode(username: string, locationId: int, code: string, threshold: nat)
      returns (result: Result<SubmitOutcome, SubmitError>)
      requires Valid()
      requires threshold > 0
      requires Registered(users, username)
      modifies this
      ensures Valid()
      ensures users == old(users)
      ensures Step(result, finds, unlocked) ==
              Submission(catalog, old(finds), old(unlocked), GetMoleId(users, username).value, locationId, code, threshold)
    {
      var found := FindLocation(catalog, locationId);
      if found.None? {
        return Failure(UnknownLocation);
      }
      var loc := found.value;
      if code != loc.code {
        return Success(Incorrect(locationId, loc.clue));
      }
      var mole := GetMoleId(users, username).value;
      finds := finds + [Row(locationId, mole)];

      var locations := GetLocations(mole);
      ViewListsLocation(catalog, finds, unlocked, mole, loc);
      result := UnlockAfterFind(locations, loc, threshold, mole);
      SubmissionKeepsUnlockedWellFormed(catalog, old(finds), old(unlocked), mole, locationId, code, threshold);
    }

    /** The second half of the code submission handler, once the find is
        recorded: count the level's finds in the recomputed view and, when an
        unlock is due, unlock the first locked location of the next level. */
    method UnlockAfterFind(locations: ProgressView, loc: Location, threshold: nat, mole: int)
      returns (result: Result<SubmitOutcome, SubmitError>)
      requires threshold > 0
      requires loc.level in locations
      modifies this
      ensures users == old(users) && finds == old(finds)
      ensures Step(result, finds, unlocked) == AfterFind(locations, loc, threshold, finds, old(unlocked), mole)
    {
      var numFound := CountFound(locations[loc.level]);
      var card := Card(loc.id, loc.name, loc.clue);
      var toUnlock: Option<LocationView> := None;
      if UnlockDue(numFound, threshold) && loc.level + 1 in locations {
        var locked := Candidates(locations[loc.level + 1]);
        if locked == [] {
          result := Failure(NoLockedLocation);
        } else {
          toUnlock := Some(locked[0]);
          unlocked := unlocked + [Row(locked[0].id, mole)];
          result := Success(Found(card, toUnlock, numFound));
        }
      } else {
        result := Success(Found(card, toUnlock, numFound));
      }
    }
  }
}
