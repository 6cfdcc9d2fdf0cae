/** The per-player progress view: every location of the catalog annotated with
    whether this player has found it and whether it is unlocked for them, grouped
    by level. The view is the result of one query (locations LEFT JOIN finds LEFT
    JOIN unlocked, scoped to one player) grouped into a level -> list map. */
module Progress {
  import opened QuestTypes

  /** One entry of the view: the location as the player sees it. */
  datatype LocationView = LocationView(id: int, name: string, clue: string, found: bool, unlocked: bool)

  /** One row of the join: the level column and the location it annotates. */
  datatype JoinRow = JoinRow(level: int, view: LocationView)

  type ProgressView = map<int, seq<LocationView>>

  /** The levels that occur in the catalog. */
  function CatalogLevels(catalog: seq<Location>): set<int>
  {
    set loc | loc in catalog :: loc.level
  }

  /** The flags one joined row carries for a location: found when a finds row
      for the pair exists, unlocked when an unlocked row exists or the location
      is on level 1. */
  function Annotate(loc: Location, finds: seq<Row>, unlocked: seq<Row>, mole: int): LocationView
  {
    LocationView(loc.id, loc.name, loc.clue,
                 Row(loc.id, mole) in finds,
                 Row(loc.id, mole) in unlocked || loc.level == 1)
  }

  /** How many rows the two LEFT JOINs produce for one location: each matching
      finds row is paired with each matching unlocked row, and a side without a
      match contributes a single row of NULLs. */
  function JoinMultiplicity(loc: Location, finds: seq<Row>, unlocked: seq<Row>, mole: int): (n: nat)
    ensures n >= 1
    ensures n == 1 <==> multiset(finds)[Row(loc.id, mole)] <= 1 && multiset(unlocked)[Row(loc.id, mole)] <= 1
  {
    var matchedFinds := multiset(finds)[Row(loc.id, mole)];
    var matchedUnlocks := multiset(unlocked)[Row(loc.id, mole)];
    var f: nat := if matchedFinds == 0 then 1 else matchedFinds;
    var u: nat := if matchedUnlocks == 0 then 1 else matchedUnlocks;
    assert f * u == f * (u - 1) + f;
    assert f * (u - 1) >= 0;
    assert f * u == 1 ==> f == 1 && u == 1 by {
      if f > 1 && u >= 1 { assert f * u == f * (u - 1) + f; }
    }
    f * u
  }

  /** n copies of x. */
  function Copies<T>(n: nat, x: T): (r: seq<T>)
    ensures |r| == n
  {
    if n == 0 then [] else Copies(n - 1, x) + [x]
  }

  lemma {:induction false} CopiesMember<T>(n: nat, x: T, y: T)
    ensures y in Copies(n, x) <==> n > 0 && y == x
  {
    if n > 0 {
      CopiesMember(n - 1, x, y);
    }
  }

  /** The joined rows for one player, location by location in catalog order. */
  function Join(catalog: seq<Location>, finds: seq<Row>, unlocked: seq<Row>, mole: int): (rows: seq<JoinRow>)
    ensures |rows| >= |catalog|
  {
    if catalog == [] then []
    else
      var loc := catalog[0];
      var row := JoinRow(loc.level, Annotate(loc, finds, unlocked, mole));
      Copies(JoinMultiplicity(loc, finds, unlocked, mole), row) + Join(catalog[1..], finds, unlocked, mole)
  }

  /** The entries that the grouping loop appends to the list of one level. */
  function EntriesAt(rows: seq<JoinRow>, level: int): seq<LocationView>
  {
    if rows == [] then []
    else
      var last := rows[|rows| - 1];
      EntriesAt(rows[..|rows| - 1], level) + (if last.level == level then [last.view] else [])
  }

  function RowLevels(rows: seq<JoinRow>): set<int>
  {
    set r | r in rows :: r.level
  }

  /** The map that the grouping loop builds: each row, in order, is appended
      to the list of its level, which is created empty the first time the
      level is met. */
  function Group(rows: seq<JoinRow>): ProgressView
  {
    if rows == [] then map[]
    else
      var g := Group(rows[..|rows| - 1]);
      var r := rows[|rows| - 1];
      g[r.level := (if r.level in g then g[r.level] else []) + [r.view]]
  }

  /** The keys of the grouping are the levels of the rows, and the list of a
      level holds that level's entries in row order. */
  lemma {:induction false} GroupAt(rows: seq<JoinRow>, level: int)
    ensures level in Group(rows) <==> level in RowLevels(rows)
    ensures level in Group(rows) ==> Group(rows)[level] == EntriesAt(rows, level)
  {
    if rows != [] {
      var init := rows[..|rows| - 1];
      GroupAt(init, level);
      assert rows == init + [rows[|rows| - 1]];
      assert RowLevels(rows) == RowLevels(init) + {rows[|rows| - 1].level};
      if level !in RowLevels(init) && EntriesAt(init, level) != [] {
        EntriesAtMember(init, level, EntriesAt(init, level)[0]);
      }
    }
  }

  /** Grouping creates no empty list: a level is a key only because some row
      carries it. */
  lemma GroupListsNonEmpty(rows: seq<JoinRow>, level: int)
    requires level in Group(rows)
    ensures Group(rows)[level] != []
  {
    GroupAt(rows, level);
    var r :| r in rows && r.level == level;
    EntriesAtMember(rows, level, r.view);
  }

  /** The progress view of one player over the current tables. Its keys are
      exactly the levels present in the catalog. */
  function View(catalog: seq<Location>, finds: seq<Row>, unlocked: seq<Row>, mole: int): ProgressView
  {
    Group(Join(catalog, finds, unlocked, mole))
  }

  /** The keys of the view are exactly the levels present in the catalog. */
  lemma ViewLevels(catalog: seq<Location>, finds: seq<Row>, unlocked: seq<Row>, mole: int)
    ensures View(catalog, finds, unlocked, mole).Keys == CatalogLevels(catalog)
  {
    JoinLevels(catalog, finds, unlocked, mole);
    forall level ensures level in View(catalog, finds, unlocked, mole) <==> level in CatalogLevels(catalog) {
      GroupAt(Join(catalog, finds, unlocked, mole), level);
    }
  }

  // ---------------------------------------------------------------------------
  // Grouping, one row at a time

  lemma {:induction false} EntriesAtMember(rows: seq<JoinRow>, level: int, v: LocationView)
    ensures v in EntriesAt(rows, level) <==> JoinRow(level, v) in rows
  {
    if rows != [] {
      var init := rows[..|rows| - 1];
      EntriesAtMember(init, level, v);
      assert rows == init + [rows[|rows| - 1]];
    }
  }

  /** Appending one joined row adds its entry to the end of its level's list
      (creating the list if the level is new) and leaves every other level alone. */
  lemma GroupSnoc(rows: seq<JoinRow>, r: JoinRow)
    ensures Group(rows + [r]) ==
            Group(rows)[r.level := (if r.level in Group(rows) then Group(rows)[r.level] else []) + [r.view]]
  {
    assert (rows + [r])[..|rows|] == rows;
  }

  // ---------------------------------------------------------------------------
  // What the view says

  /** A joined row exists for exactly the catalog locations, each with its own
      level and flags. */
  lemma {:induction false} JoinMember(catalog: seq<Location>, finds: seq<Row>, unlocked: seq<Row>, mole: int, r: JoinRow)
    ensures r in Join(catalog, finds, unlocked, mole) <==>
            exists loc :: loc in catalog && r == JoinRow(loc.level, Annotate(loc, finds, unlocked, mole))
  {
    if catalog != [] {
      var loc := catalog[0];
      var row := JoinRow(loc.level, Annotate(loc, finds, unlocked, mole));
      var copies := Copies(JoinMultiplicity(loc, finds, unlocked, mole), row);
      CopiesMember(JoinMultiplicity(loc, finds, unlocked, mole), row, r);
      JoinMember(catalog[1..], finds, unlocked, mole, r);
      assert catalog == [loc] + catalog[1..];
    }
  }

  /** The joined rows carry exactly the levels present in the catalog. */
  lemma JoinLevels(catalog: seq<Location>, finds: seq<Row>, unlocked: seq<Row>, mole: int)
    ensures RowLevels(Join(catalog, finds, unlocked, mole)) == CatalogLevels(catalog)
  {
    var rows := Join(catalog, finds, unlocked, mole);
    forall level | level in CatalogLevels(catalog) ensures level in RowLevels(rows) {
      var loc :| loc in catalog && loc.level == level;
      JoinMember(catalog, finds, unlocked, mole, JoinRow(loc.level, Annotate(loc, finds, unlocked, mole)));
    }
    forall level | level in RowLevels(rows) ensures level in CatalogLevels(catalog) {
      var r :| r in rows && r.level == level;
      JoinMember(catalog, finds, unlocked, mole, r);
    }
  }

  /** The level of every catalog location is a key of the view. */
  lemma ViewHasLevel(catalog: seq<Location>, finds: seq<Row>, unlocked: seq<Row>, mole: int, loc: Location)
    requires loc in catalog
    ensures loc.level in View(catalog, finds, unlocked, mole)
  {
    ViewListsLocation(catalog, finds, unlocked, mole, loc);
  }

  /** Every catalog location appears in the list of its level, annotated with
      its flags. */
  lemma ViewListsLocation(catalog: seq<Location>, finds: seq<Row>, unlocked: seq<Row>, mole: int, loc: Location)
    requires loc in catalog
    ensures loc.level in View(catalog, finds, unlocked, mole)
    ensures Annotate(loc, finds, unlocked, mole) in View(catalog, finds, unlocked, mole)[loc.level]
  {
    var v := Annotate(loc, finds, unlocked, mole);
    JoinMember(catalog, finds, unlocked, mole, JoinRow(loc.level, v));
    EntriesAtMember(Join(catalog, finds, unlocked, mole), loc.level, v);
    GroupAt(Join(catalog, finds, unlocked, mole), loc.level);
  }

  /** Every entry of the view is a catalog location of that level; it is marked
      found iff a finds row for (location, mole) exists, and unlocked iff the
      level is 1 or an unlocked row for (location, mole) exists. */
  lemma ViewFlags(catalog: seq<Location>, finds: seq<Row>, unlocked: seq<Row>, mole: int, level: int, v: LocationView)
    requires level in View(catalog, finds, unlocked, mole)
    requires v in View(catalog, finds, unlocked, mole)[level]
    ensures exists loc :: loc in catalog && loc.level == level && loc.id == v.id && loc.name == v.name && loc.clue == v.clue
    ensures v.found <==> Row(v.id, mole) in finds
    ensures v.unlocked <==> level == 1 || Row(v.id, mole) in unlocked
  {
    GroupAt(Join(catalog, finds, unlocked, mole), level);
    EntriesAtMember(Join(catalog, finds, unlocked, mole), level, v);
    JoinMember(catalog, finds, unlocked, mole, JoinRow(level, v));
  }

  // ---------------------------------------------------------------------------
  // Counting finds and choosing what to unlock

  /** The number of entries marked found. */
  function CountFound(views: seq<LocationView>): (n: nat)
    ensures n <= |views|
    ensures n == 0 <==> forall v | v in views :: !v.found
  {
    if views == [] then 0
    else CountFound(views[1..]) + (if views[0].found then 1 else 0)
  }

  /** The entries that are neither found nor unlocked, in their original order. */
  function Candidates(views: seq<LocationView>): (locked: seq<LocationView>)
    ensures |locked| <= |views|
  {
    if views == [] then []
    else (if !views[0].found && !views[0].unlocked then [views[0]] else []) + Candidates(views[1..])
  }

  /** The candidates are exactly the entries that are neither found nor unlocked. */
  lemma {:induction false} CandidatesMember(views: seq<LocationView>, v: LocationView)
    ensures v in Candidates(views) <==> v in views && !v.found && !v.unlocked
  {
    if views != [] {
      CandidatesMember(views[1..], v);
      assert views == [views[0]] + views[1..];
    }
  }

  /** The head of the candidate list is the first entry of the list that is
      neither found nor unlocked. */
  lemma {:induction false} FirstCandidate(views: seq<LocationView>)
    requires Candidates(views) != []
    ensures exists i :: 0 <= i < |views| && views[i] == Candidates(views)[0]
                        && forall j | 0 <= j < i :: views[j].found || views[j].unlocked
  {
    if views[0].found || views[0].unlocked {
      FirstCandidate(views[1..]);
      var i :| 0 <= i < |views[1..]| && views[1..][i] == Candidates(views[1..])[0]
                && forall j | 0 <= j < i :: views[1..][j].found || views[1..][j].unlocked;
      assert views[i + 1] == Candidates(views)[0];
    } else {
      assert views[0] == Candidates(views)[0];
    }
  }

  /** Once a finds row for a catalog location exists, the found count of that
      location's level is at least one: the count includes that find. */
  lemma CountIncludesFind(catalog: seq<Location>, finds: seq<Row>, unlocked: seq<Row>, mole: int, loc: Location)
    requires loc in catalog
    requires Row(loc.id, mole) in finds
    ensures loc.level in View(catalog, finds, unlocked, mole)
    ensures CountFound(View(catalog, finds, unlocked, mole)[loc.level]) >= 1
  {
    ViewListsLocation(catalog, finds, unlocked, mole, loc);
  }

  /** A candidate of a level is a catalog location of that level, above level 1,
      for which the player has neither a finds row nor an unlocked row. */
  lemma CandidateIsLocked(catalog: seq<Location>, finds: seq<Row>, unlocked: seq<Row>, mole: int, level: int, t: LocationView)
    requires level in View(catalog, finds, unlocked, mole)
    requires t in Candidates(View(catalog, finds, unlocked, mole)[level])
    ensures exists loc :: loc in catalog && loc.level == level && loc.id == t.id && loc.name == t.name && loc.clue == t.clue
    ensures level != 1
    ensures Row(t.id, mole) !in finds && Row(t.id, mole) !in unlocked
  {
    CandidatesMember(View(catalog, finds, unlocked, mole)[level], t);
    ViewFlags(catalog, finds, unlocked, mole, level, t);
  }

  // ---------------------------------------------------------------------------
  // The view follows catalog order

  /** A location the player can still be given: not on level 1, with neither a
      finds row nor an unlocked row for the player. */
  predicate Locked(loc: Location, finds: seq<Row>, unlocked: seq<Row>, mole: int)
  {
    loc.level != 1 && Row(loc.id, mole) !in finds && Row(loc.id, mole) !in unlocked
  }

  /** The locked locations of one level, in catalog order. */
  function LockedAt(catalog: seq<Location>, finds: seq<Row>, unlocked: seq<Row>, mole: int, level: int): seq<Location>
  {
    if catalog == [] then []
    else
      (if catalog[0].level == level && Locked(catalog[0], finds, unlocked, mole) then [catalog[0]] else [])
      + LockedAt(catalog[1..], finds, unlocked, mole, level)
  }

  /** The locked locations of a level are exactly its catalog locations that
      are locked. */
  lemma {:induction false} LockedAtMember(catalog: seq<Location>, finds: seq<Row>, unlocked: seq<Row>, mole: int, level: int, loc: Location)
    ensures loc in LockedAt(catalog, finds, unlocked, mole, level) <==>
            loc in catalog && loc.level == level && Locked(loc, finds, unlocked, mole)
  {
    if catalog != [] {
      LockedAtMember(catalog[1..], finds, unlocked, mole, level, loc);
      assert catalog == [catalog[0]] + catalog[1..];
    }
  }

  /** The locations of one level, in catalog order. */
  function AtLevel(catalog: seq<Location>, level: int): seq<Location>
  {
    if catalog == [] then []
    else (if catalog[0].level == level then [catalog[0]] else []) + AtLevel(catalog[1..], level)
  }

  function AnnotateAll(locs: seq<Location>, finds: seq<Row>, unlocked: seq<Row>, mole: int): seq<LocationView>
  {
    if locs == [] then [] else [Annotate(locs[0], finds, unlocked, mole)] + AnnotateAll(locs[1..], finds, unlocked, mole)
  }

  lemma {:induction false} EntriesAtAppend(a: seq<JoinRow>, b: seq<JoinRow>, level: int)
    ensures EntriesAt(a + b, level) == EntriesAt(a, level) + EntriesAt(b, level)
  {
    if b != [] {
      var b' := b[..|b| - 1];
      assert (a + b)[..|a + b| - 1] == a + b';
      EntriesAtAppend(a, b', level);
    } else {
      assert a + b == a;
    }
  }

  lemma {:induction false} EntriesAtCopies(n: nat, r: JoinRow, level: int)
    ensures EntriesAt(Copies(n, r), level) == if r.level == level then Copies(n, r.view) else []
  {
    if n > 0 {
      assert Copies(n, r)[..n - 1] == Copies(n - 1, r);
      EntriesAtCopies(n - 1, r, level);
    }
  }

  lemma {:induction false} CandidatesAppend(a: seq<LocationView>, b: seq<LocationView>)
    ensures Candidates(a + b) == Candidates(a) + Candidates(b)
  {
    if a != [] {
      var head := if !a[0].found && !a[0].unlocked then [a[0]] else [];
      assert (a + b)[0] == a[0];
      assert (a + b)[1..] == a[1..] + b;
      assert Candidates(a + b) == head + Candidates(a[1..] + b);
      CandidatesAppend(a[1..], b);
      assert Candidates(a) == head + Candidates(a[1..]);
      assert head + (Candidates(a[1..]) + Candidates(b)) == (head + Candidates(a[1..])) + Candidates(b);
    } else {
      assert a + b == b;
    }
  }

  lemma {:induction false} CountFoundAppend(a: seq<LocationView>, b: seq<LocationView>)
    ensures CountFound(a + b) == CountFound(a) + CountFound(b)
  {
    if a != [] {
      assert (a + b)[1..] == a[1..] + b;
      CountFoundAppend(a[1..], b);
    } else {
      assert a + b == b;
    }
  }

  /** The joined entries of one level, location by location: each location of
      that level contributes its join multiplicity of identical entries. */
  lemma {:induction false} EntriesOfJoin(catalog: seq<Location>, finds: seq<Row>, unlocked: seq<Row>, mole: int, level: int)
    requires catalog != []
    ensures var loc := catalog[0];
            EntriesAt(Join(catalog, finds, unlocked, mole), level) ==
              (if loc.level == level
               then Copies(JoinMultiplicity(loc, finds, unlocked, mole), Annotate(loc, finds, unlocked, mole))
               else [])
              + EntriesAt(Join(catalog[1..], finds, unlocked, mole), level)
  {
    var loc := catalog[0];
    var row := JoinRow(loc.level, Annotate(loc, finds, unlocked, mole));
    var copies := Copies(JoinMultiplicity(loc, finds, unlocked, mole), row);
    EntriesAtAppend(copies, Join(catalog[1..], finds, unlocked, mole), level);
    EntriesAtCopies(JoinMultiplicity(loc, finds, unlocked, mole), row, level);
  }

  /** The candidates of a level are the level's locked locations in catalog
      order, each exactly once: a locked location has no finds or unlocked row,
      so the join yields it once. */
  lemma {:induction false} CandidatesFollowCatalog(catalog: seq<Location>, finds: seq<Row>, unlocked: seq<Row>, mole: int, level: int)
    ensures Candidates(EntriesAt(Join(catalog, finds, unlocked, mole), level))
            == AnnotateAll(LockedAt(catalog, finds, unlocked, mole, level), finds, unlocked, mole)
  {
    if catalog != [] {
      var loc := catalog[0];
      var v := Annotate(loc, finds, unlocked, mole);
      var n := JoinMultiplicity(loc, finds, unlocked, mole);
      var mine := if loc.level == level then Copies(n, v) else [];
      EntriesOfJoin(catalog, finds, unlocked, mole, level);
      var restEntries := EntriesAt(Join(catalog[1..], finds, unlocked, mole), level);
      CandidatesAppend(mine, restEntries);
      CandidatesFollowCatalog(catalog[1..], finds, unlocked, mole, level);
      var rest := LockedAt(catalog[1..], finds, unlocked, mole, level);
      assert Candidates(EntriesAt(Join(catalog, finds, unlocked, mole), level))
          == Candidates(mine) + AnnotateAll(rest, finds, unlocked, mole);
      if loc.level == level && Locked(loc, finds, unlocked, mole) {
        assert n == 1;
        assert mine == [v];
        assert Candidates([v]) == [v] + Candidates([]);
        assert LockedAt(catalog, finds, unlocked, mole, level) == [loc] + rest;
        assert ([loc] + rest)[1..] == rest;
        assert AnnotateAll([loc] + rest, finds, unlocked, mole) == [v] + AnnotateAll(rest, finds, unlocked, mole);
      } else {
        if loc.level == level {
          CandidatesOfCopies(n, v);
        }
        assert Candidates(mine) == [];
        assert LockedAt(catalog, finds, unlocked, mole, level) == [] + rest;
        assert [] + rest == rest;
        assert [] + AnnotateAll(rest, finds, unlocked, mole) == AnnotateAll(rest, finds, unlocked, mole);
      }
    }
  }

  lemma {:induction false} CandidatesOfCopies(n: nat, v: LocationView)
    requires v.found || v.unlocked
    ensures Candidates(Copies(n, v)) == []
  {
    if n > 0 {
      CandidatesOfCopies(n - 1, v);
      CandidatesAppend(Copies(n - 1, v), [v]);
      assert [v][1..] == [];
      assert Copies(n - 1, v) + [] == Copies(n - 1, v);
    }
  }

  /** The next location the unlock engine picks: the candidates of a level in
      the view are exactly the locked locations of that level in catalog (id)
      order, so the first candidate is the first locked location of the level. */
  lemma ViewCandidates(catalog: seq<Location>, finds: seq<Row>, unlocked: seq<Row>, mole: int, level: int)
    requires level in View(catalog, finds, unlocked, mole)
    ensures Candidates(View(catalog, finds, unlocked, mole)[level])
            == AnnotateAll(LockedAt(catalog, finds, unlocked, mole, level), finds, unlocked, mole)
  {
    GroupAt(Join(catalog, finds, unlocked, mole), level);
    CandidatesFollowCatalog(catalog, finds, unlocked, mole, level);
  }

  // ---------------------------------------------------------------------------
  // Counting, with and without repeated rows

  /** Every (location, mole) pair of the catalog has at most one finds row and at
      most one unlocked row. The store keeps this for unlocked rows; for finds
      rows it holds only while no correct code has been submitted twice. */
  predicate SingleRows(catalog: seq<Location>, finds: seq<Row>, unlocked: seq<Row>, mole: int)
  {
    forall loc | loc in catalog ::
      multiset(finds)[Row(loc.id, mole)] <= 1 && multiset(unlocked)[Row(loc.id, mole)] <= 1
  }

  /** The locations of one level that the player has found, in catalog order. */
  function FoundAt(catalog: seq<Location>, finds: seq<Row>, mole: int, level: int): seq<Location>
  {
    if catalog == [] then []
    else
      (if catalog[0].level == level && Row(catalog[0].id, mole) in finds then [catalog[0]] else [])
      + FoundAt(catalog[1..], finds, mole, level)
  }

  lemma {:induction false} EntriesWithoutRepeats(catalog: seq<Location>, finds: seq<Row>, unlocked: seq<Row>, mole: int, level: int)
    requires SingleRows(catalog, finds, unlocked, mole)
    ensures EntriesAt(Join(catalog, finds, unlocked, mole), level)
            == AnnotateAll(AtLevel(catalog, level), finds, unlocked, mole)
    ensures CountFound(EntriesAt(Join(catalog, finds, unlocked, mole), level)) == |FoundAt(catalog, finds, mole, level)|
  {
    if catalog != [] {
      var loc := catalog[0];
      var v := Annotate(loc, finds, unlocked, mole);
      assert SingleRows(catalog[1..], finds, unlocked, mole);
      EntriesOfJoin(catalog, finds, unlocked, mole, level);
      EntriesWithoutRepeats(catalog[1..], finds, unlocked, mole, level);
      var restEntries := EntriesAt(Join(catalog[1..], finds, unlocked, mole), level);
      var rest := AtLevel(catalog[1..], level);
      CountFoundAppend(if loc.level == level then [v] else [], restEntries);
      if loc.level == level {
        assert JoinMultiplicity(loc, finds, unlocked, mole) == 1;
        assert Copies(1, v) == [v];
        assert AtLevel(catalog, level) == [loc] + rest;
        assert ([loc] + rest)[1..] == rest;
        assert AnnotateAll([loc] + rest, finds, unlocked, mole) == [v] + AnnotateAll(rest, finds, unlocked, mole);
        assert CountFound([v]) == (if v.found then 1 else 0) + CountFound([]);
      } else {
        assert AtLevel(catalog, level) == [] + rest;
        assert [] + rest == rest;
        assert [] + restEntries == restEntries;
      }
    }
  }

  /** While no pair has a repeated row, the view lists each location of a level
      exactly once, in catalog order, and the found count of a level is the
      number of its locations the player has found. */
  lemma ViewWithoutRepeats(catalog: seq<Location>, finds: seq<Row>, unlocked: seq<Row>, mole: int, level: int)
    requires SingleRows(catalog, finds, unlocked, mole)
    requires level in View(catalog, finds, unlocked, mole)
    ensures View(catalog, finds, unlocked, mole)[level] == AnnotateAll(AtLevel(catalog, level), finds, unlocked, mole)
    ensures CountFound(View(catalog, finds, unlocked, mole)[level]) == |FoundAt(catalog, finds, mole, level)|
  {
    GroupAt(Join(catalog, finds, unlocked, mole), level);
    EntriesWithoutRepeats(catalog, finds, unlocked, mole, level);
  }

  /** A correct code submitted twice leaves two finds rows for the pair; the
      join then lists the location twice and the level's found count counts it
      twice, although only one location of the level has been found. */
  lemma RepeatedFindCountsTwice()
    ensures var catalog := [Location(1, 1, "Gate", "Where it starts", "GATE")];
            var finds := [Row(1, 7), Row(1, 7)];
            && 1 in View(catalog, finds, [], 7)
            && CountFound(View(catalog, finds, [], 7)[1]) == 2
            && |FoundAt(catalog, finds, 7, 1)| == 1
  {
    var loc := Location(1, 1, "Gate", "Where it starts", "GATE");
    var catalog := [loc];
    var finds := [Row(1, 7), Row(1, 7)];
    var v := Annotate(loc, finds, [], 7);
    assert multiset(finds)[Row(1, 7)] == 2;
    assert JoinMultiplicity(loc, finds, [], 7) == 2;
    EntriesOfJoin(catalog, finds, [], 7, 1);
    assert Join(catalog[1..], finds, [], 7) == [];
    assert EntriesAt(Join(catalog, finds, [], 7), 1) == Copies(2, v) + [];
    assert Copies(2, v) == [v, v];
    ViewListsLocation(catalog, finds, [], 7, loc);
    GroupAt(Join(catalog, finds, [], 7), 1);
    assert CountFound([v, v]) == 2 by {
      assert [v, v][1..] == [v];
      assert [v][1..] == [];
    }
    assert FoundAt(catalog, finds, 7, 1) == [loc] + FoundAt([], finds, 7, 1);
  }
}
