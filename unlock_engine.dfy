/** The unlock engine as a transition on the finds and unlocked tables: what a
    code submission by one player does, stated as a function of the tables
    before it. The store's handler carries it out step by step. */
module UnlockEngine {
  import opened QuestTypes
  import opened Progress

  /** The card shown for a location that was just found. */
  datatype Card = Card(id: int, name: string, clue: string)

  /** What a code submission shows: the same card marked incorrect, or the found
      card with the location unlocked by this find (if any) and the new found
      count of the level. */
  datatype SubmitOutcome =
    | Incorrect(id: int, clue: string)
    | Found(location: Card, unlockedLocation: Option<LocationView>, count: nat)

  /** The two ways a submission aborts with an exception. */
  datatype SubmitError =
    | UnknownLocation   // no locations row has the submitted id
    | NoLockedLocation  // the unlock is due but the next level has no locked location left

  /** The outcome of a submission together with the two tables after it. */
  datatype Step = Step(result: Result<SubmitOutcome, SubmitError>, finds: seq<Row>, unlocked: seq<Row>)

  /** The catalog lists locations in strictly increasing id order. */
  predicate IdOrdered(catalog: seq<Location>)
  {
    forall i, j | 0 <= i < j < |catalog| :: catalog[i].id < catalog[j].id
  }

  /** The locations row with this id, if any. */
  function FindLocation(catalog: seq<Location>, id: int): (r: Option<Location>)
    ensures r.Some? ==> r.value in catalog && r.value.id == id
    ensures r.None? <==> forall loc | loc in catalog :: loc.id != id
  {
    if catalog == [] then None
    else if catalog[0].id == id then Some(catalog[0])
    else FindLocation(catalog[1..], id)
  }

  /** The unlock trigger: the level's found count is a multiple of the
      configured threshold, decided by repeated subtraction (UnlockDueIsRemainder
      relates it to the remainder the handler computes). */
  predicate UnlockDue(count: nat, threshold: nat)
    requires threshold > 0
    decreases count
  {
    if count < threshold then count == 0 else UnlockDue(count - threshold, threshold)
  }

  /** The trigger is the handler's remainder test. Count and threshold are
      non-negative and the threshold is positive, so Python's floored remainder
      and Dafny's Euclidean one agree. */
  lemma {:induction false} UnlockDueIsRemainder(count: nat, threshold: nat)
    requires threshold > 0
    ensures UnlockDue(count, threshold) <==> count % threshold == 0
    decreases count
  {
    if count >= threshold {
      UnlockDueIsRemainder(count - threshold, threshold);
      RemainderAfterSubtraction(count, threshold);
    }
  }

  lemma MulStep(t: int, k: int)
    ensures t * (k + 1) == t * k + t
  {
  }

  lemma MulMonotonic(t: nat, a: int, b: int)
    requires a <= b
    ensures t * a <= t * b
  {
    assert t * b - t * a == t * (b - a);
  }

  /** Taking the divisor away once leaves the remainder unchanged. */
  lemma RemainderAfterSubtraction(c: nat, t: nat)
    requires t > 0 && c >= t
    ensures (c - t) % t == c % t
  {
    var q, r := c / t, c % t;
    var q', r' := (c - t) / t, (c - t) % t;
    MulStep(t, q');
    assert c == t * (q' + 1) + r';
    assert c == t * q + r;
    if q' + 1 > q {
      MulStep(t, q);
      MulMonotonic(t, q + 1, q' + 1);
    } else if q' + 1 < q {
      MulStep(t, q' + 1);
      MulMonotonic(t, q' + 2, q);
    }
  }

  /** What happens once a correct code has been recorded: `view` is the
      player's progress view recomputed with the new find. The level's found
      count decides whether an unlock is due; if it is and the next level
      exists, the first location of that level that is neither found nor
      unlocked is unlocked, and if there is none the submission aborts. */
  function AfterFind(view: ProgressView, loc: Location, threshold: nat, finds: seq<Row>, unlocked: seq<Row>, mole: int): (s: Step)
    requires threshold > 0
    requires loc.level in view
    ensures s.finds == finds
    ensures s.result.Success? ==>
              && s.result.value.Found?
              && s.result.value.location == Card(loc.id, loc.name, loc.clue)
              && s.result.value.count == CountFound(view[loc.level])
    ensures s.result.Failure? ==> s.result.error == NoLockedLocation && s.unlocked == unlocked
  {
    var count := CountFound(view[loc.level]);
    var card := Card(loc.id, loc.name, loc.clue);
    if UnlockDue(count, threshold) && loc.level + 1 in view then
      var locked := Candidates(view[loc.level + 1]);
      if locked == [] then
        Step(Failure(NoLockedLocation), finds, unlocked)
      else
        Step(Success(Found(card, Some(locked[0]), count)), finds, unlocked + [Row(locked[0].id, mole)])
    else
      Step(Success(Found(card, None, count)), finds, unlocked)
  }

  /** A submission of `code` for location `locationId` by player `mole`, as a
      transition of the finds and unlocked tables (the lemmas from
      SubmissionRejects on state what it guarantees). */
  function Submission(catalog: seq<Location>, finds: seq<Row>, unlocked: seq<Row>, mole: int,
                      locationId: int, code: string, threshold: nat): (s: Step)
    requires threshold > 0
    ensures |finds| <= |s.finds| <= |finds| + 1 && |unlocked| <= |s.unlocked| <= |unlocked| + 1
    ensures s.result.Failure? || s.result.value.Incorrect? ==> s.unlocked == unlocked
  {
    match FindLocation(catalog, locationId)
    case None => Step(Failure(UnknownLocation), finds, unlocked)
    case Some(loc) =>
      if code != loc.code then
        Step(Success(Incorrect(locationId, loc.clue)), finds, unlocked)
      else
        var finds' := finds + [Row(locationId, mole)];
        ViewHasLevel(catalog, finds', unlocked, mole, loc);
        AfterFind(View(catalog, finds', unlocked, mole), loc, threshold, finds', unlocked, mole)
  }

  /** After a find, the only row that can be added to the unlocked table is
      the head of the next level's candidate list. */
  lemma AfterFindAddsFirstCandidate(view: ProgressView, loc: Location, threshold: nat,
                                    finds: seq<Row>, unlocked: seq<Row>, mole: int)
    requires threshold > 0
    requires loc.level in view
    ensures var s := AfterFind(view, loc, threshold, finds, unlocked, mole);
      && s.finds == finds
      && (s.unlocked != unlocked ==>
            && loc.level + 1 in view
            && Candidates(view[loc.level + 1]) != []
            && s.unlocked == unlocked + [Row(Candidates(view[loc.level + 1])[0].id, mole)])
  {
  }

  /** An unknown location id or a wrong code changes nothing; a wrong code
      shows the location's id and clue again. */
  lemma SubmissionRejects(catalog: seq<Location>, finds: seq<Row>, unlocked: seq<Row>, mole: int,
                          locationId: int, code: string, threshold: nat)
    requires threshold > 0
    requires FindLocation(catalog, locationId).None? || code != FindLocation(catalog, locationId).value.code
    ensures var s := Submission(catalog, finds, unlocked, mole, locationId, code, threshold);
      && s.finds == finds && s.unlocked == unlocked
      && (FindLocation(catalog, locationId).None? ==> s.result == Failure(UnknownLocation))
      && (FindLocation(catalog, locationId).Some? ==>
            s.result == Success(Incorrect(locationId, FindLocation(catalog, locationId).value.clue)))
  {
  }

  /** A correct code appends exactly one finds row, for the submitted location
      and player, and at most one unlocked row; an unlocked row, if any, is for
      a location of the next level that the player had neither found nor
      unlocked. When the submission aborts for lack of a locked location, the
      finds row stays: nothing rolls it back. */
  lemma SubmissionRecordsFind(catalog: seq<Location>, finds: seq<Row>, unlocked: seq<Row>, mole: int,
                              locationId: int, code: string, threshold: nat)
    requires threshold > 0
    requires FindLocation(catalog, locationId).Some? && code == FindLocation(catalog, locationId).value.code
    ensures var s := Submission(catalog, finds, unlocked, mole, locationId, code, threshold);
      && s.finds == finds + [Row(locationId, mole)]
      && (s.unlocked == unlocked ||
          exists loc :: && loc in catalog
                        && loc.level == FindLocation(catalog, locationId).value.level + 1
                        && s.unlocked == unlocked + [Row(loc.id, mole)]
                        && Row(loc.id, mole) !in unlocked && Row(loc.id, mole) !in s.finds)
  {
    var loc := FindLocation(catalog, locationId).value;
    var finds' := finds + [Row(locationId, mole)];
    var view := View(catalog, finds', unlocked, mole);
    ViewListsLocation(catalog, finds', unlocked, mole, loc);
    var s := AfterFind(view, loc, threshold, finds', unlocked, mole);
    assert Submission(catalog, finds, unlocked, mole, locationId, code, threshold) == s;
    AfterFindAddsFirstCandidate(view, loc, threshold, finds', unlocked, mole);
    if s.unlocked != unlocked {
      var first := Candidates(view[loc.level + 1])[0];
      CandidateIsLocked(catalog, finds', unlocked, mole, loc.level + 1, first);
      var target :| target in catalog && target.level == loc.level + 1 && target.id == first.id;
      assert s.unlocked == unlocked + [Row(target.id, mole)];
      assert Row(target.id, mole) !in unlocked && Row(target.id, mole) !in s.finds;
    }
  }

  /** A found card is the submitted location; its count includes the new find;
      it names an unlocked location exactly when an unlocked row was added. */
  lemma SubmissionFoundCard(catalog: seq<Location>, finds: seq<Row>, unlocked: seq<Row>, mole: int,
                            locationId: int, code: string, threshold: nat)
    requires threshold > 0
    ensures var s := Submission(catalog, finds, unlocked, mole, locationId, code, threshold);
      s.result.Success? && s.result.value.Found? ==>
        && FindLocation(catalog, locationId).Some?
        && s.result.value.location == Card(locationId, FindLocation(catalog, locationId).value.name,
                                           FindLocation(catalog, locationId).value.clue)
        && s.result.value.count >= 1
        && FindLocation(catalog, locationId).value.level in View(catalog, finds + [Row(locationId, mole)], unlocked, mole)
        && s.result.value.count == CountFound(View(catalog, finds + [Row(locationId, mole)], unlocked, mole)
                                                [FindLocation(catalog, locationId).value.level])
        && (s.result.value.unlockedLocation.None? <==> s.unlocked == unlocked)
  {
    match FindLocation(catalog, locationId)
    case None =>
    case Some(loc) =>
      if code == loc.code {
        var finds' := finds + [Row(locationId, mole)];
        CountIncludesFind(catalog, finds', unlocked, mole, loc);
        var view := View(catalog, finds', unlocked, mole);
        assert Submission(catalog, finds, unlocked, mole, locationId, code, threshold)
            == AfterFind(view, loc, threshold, finds', unlocked, mole);
        AfterFindShowsUnlock(view, loc, threshold, finds', unlocked, mole);
      }
  }

  /** A found card names an unlocked location exactly when an unlocked row was
      added. */
  lemma AfterFindShowsUnlock(view: ProgressView, loc: Location, threshold: nat,
                             finds: seq<Row>, unlocked: seq<Row>, mole: int)
    requires threshold > 0
    requires loc.level in view
    ensures var s := AfterFind(view, loc, threshold, finds, unlocked, mole);
      s.result.Success? ==> (s.result.value.unlockedLocation.None? <==> s.unlocked == unlocked)
  {
  }

  /** The unlocked table never holds a row twice, and each of its rows names a
      catalog location above level 1. */
  predicate UnlockedWellFormed(catalog: seq<Location>, unlocked: seq<Row>)
  {
    && Distinct(unlocked)
    && forall r | r in unlocked :: exists loc :: loc in catalog && loc.id == r.locationId && loc.level >= 2
  }

  /** A submission keeps the unlocked table well formed: an already unlocked
      location is never unlocked again. */
  lemma SubmissionKeepsUnlockedWellFormed(catalog: seq<Location>, finds: seq<Row>, unlocked: seq<Row>, mole: int,
                                          locationId: int, code: string, threshold: nat)
    requires threshold > 0
    requires forall loc | loc in catalog :: loc.level >= 1
    requires UnlockedWellFormed(catalog, unlocked)
    ensures UnlockedWellFormed(catalog, Submission(catalog, finds, unlocked, mole, locationId, code, threshold).unlocked)
  {
    var s := Submission(catalog, finds, unlocked, mole, locationId, code, threshold);
    if s.unlocked != unlocked {
      SubmissionRecordsFind(catalog, finds, unlocked, mole, locationId, code, threshold);
      var loc :| && loc in catalog
                 && loc.level == FindLocation(catalog, locationId).value.level + 1
                 && s.unlocked == unlocked + [Row(loc.id, mole)]
                 && Row(loc.id, mole) !in unlocked;
      DistinctSnoc(unlocked, Row(loc.id, mole));
    }
  }

  /** The unlock rule. After a correct code, let the count be the number of
      found entries of the submitted location's level in the view recomputed
      with the new find. An unlock is due when the count is a multiple of the
      threshold and the next level (level + 1, not the next level present)
      exists in the catalog. A due unlock picks the first locked location of the
      next level in catalog order and adds its unlocked row (UnlockRuleUnlocks,
      UnlockRuleTarget); when the next level has no locked location left, the
      submission aborts instead, which is what this lemma states. No unlock
      happens otherwise (UnlockRuleNotDue). */
  lemma UnlockRule(catalog: seq<Location>, finds: seq<Row>, unlocked: seq<Row>, mole: int,
                   locationId: int, code: string, threshold: nat)
    requires threshold > 0
    requires FindLocation(catalog, locationId).Some? && code == FindLocation(catalog, locationId).value.code
    ensures var loc := FindLocation(catalog, locationId).value;
      var finds' := finds + [Row(locationId, mole)];
      var view := View(catalog, finds', unlocked, mole);
      var s := Submission(catalog, finds, unlocked, mole, locationId, code, threshold);
      var locked := LockedAt(catalog, finds', unlocked, mole, loc.level + 1);
      && loc.level in view
      && var due := UnlockDue(CountFound(view[loc.level]), threshold) && loc.level + 1 in CatalogLevels(catalog);
      && (s.result == Failure(NoLockedLocation) <==> due && locked == [])
  {
    var loc := FindLocation(catalog, locationId).value;
    var finds' := finds + [Row(locationId, mole)];
    var view := View(catalog, finds', unlocked, mole);
    var locked := LockedAt(catalog, finds', unlocked, mole, loc.level + 1);
    SubmissionIsAfterFind(catalog, finds, unlocked, mole, locationId, code, threshold);
    AfterFindRule(view, loc, threshold, finds', unlocked, mole, locked, loc.level + 1 in CatalogLevels(catalog));
  }

  /** An unlocked row is added exactly when an unlock is due and the next
      level still has a locked location. */
  lemma UnlockRuleUnlocks(catalog: seq<Location>, finds: seq<Row>, unlocked: seq<Row>, mole: int,
                          locationId: int, code: string, threshold: nat)
    requires threshold > 0
    requires FindLocation(catalog, locationId).Some? && code == FindLocation(catalog, locationId).value.code
    ensures var loc := FindLocation(catalog, locationId).value;
      var finds' := finds + [Row(locationId, mole)];
      var view := View(catalog, finds', unlocked, mole);
      var s := Submission(catalog, finds, unlocked, mole, locationId, code, threshold);
      var locked := LockedAt(catalog, finds', unlocked, mole, loc.level + 1);
      && loc.level in view
      && var due := UnlockDue(CountFound(view[loc.level]), threshold) && loc.level + 1 in CatalogLevels(catalog);
      && (s.unlocked != unlocked <==> due && locked != [])
  {
    var loc := FindLocation(catalog, locationId).value;
    var finds' := finds + [Row(locationId, mole)];
    var view := View(catalog, finds', unlocked, mole);
    var locked := LockedAt(catalog, finds', unlocked, mole, loc.level + 1);
    SubmissionIsAfterFind(catalog, finds, unlocked, mole, locationId, code, threshold);
    AfterFindRule(view, loc, threshold, finds', unlocked, mole, locked, loc.level + 1 in CatalogLevels(catalog));
  }

  /** A due unlock with a locked location left adds the row of the first locked
      location of the next level and shows that location with the level's count. */
  lemma UnlockRuleTarget(catalog: seq<Location>, finds: seq<Row>, unlocked: seq<Row>, mole: int,
                         locationId: int, code: string, threshold: nat)
    requires threshold > 0
    requires FindLocation(catalog, locationId).Some? && code == FindLocation(catalog, locationId).value.code
    ensures var loc := FindLocation(catalog, locationId).value;
      var finds' := finds + [Row(locationId, mole)];
      var view := View(catalog, finds', unlocked, mole);
      var s := Submission(catalog, finds, unlocked, mole, locationId, code, threshold);
      var locked := LockedAt(catalog, finds', unlocked, mole, loc.level + 1);
      && loc.level in view
      && var due := UnlockDue(CountFound(view[loc.level]), threshold) && loc.level + 1 in CatalogLevels(catalog);
      && (due && locked != [] ==>
            && s.unlocked == unlocked + [Row(locked[0].id, mole)]
            && s.result == Success(Found(Card(loc.id, loc.name, loc.clue),
                                         Some(Annotate(locked[0], finds', unlocked, mole)),
                                         CountFound(view[loc.level]))))
  {
    var loc := FindLocation(catalog, locationId).value;
    var finds' := finds + [Row(locationId, mole)];
    var view := View(catalog, finds', unlocked, mole);
    var locked := LockedAt(catalog, finds', unlocked, mole, loc.level + 1);
    SubmissionIsAfterFind(catalog, finds, unlocked, mole, locationId, code, threshold);
    AfterFindRule(view, loc, threshold, finds', unlocked, mole, locked, loc.level + 1 in CatalogLevels(catalog));
  }

  /** When no unlock is due, the submission shows the found card with no
      unlocked location and the level's found count. */
  lemma UnlockRuleNotDue(catalog: seq<Location>, finds: seq<Row>, unlocked: seq<Row>, mole: int,
                         locationId: int, code: string, threshold: nat)
    requires threshold > 0
    requires FindLocation(catalog, locationId).Some? && code == FindLocation(catalog, locationId).value.code
    ensures var loc := FindLocation(catalog, locationId).value;
      var finds' := finds + [Row(locationId, mole)];
      var view := View(catalog, finds', unlocked, mole);
      var s := Submission(catalog, finds, unlocked, mole, locationId, code, threshold);
      && loc.level in view
      && var due := UnlockDue(CountFound(view[loc.level]), threshold) && loc.level + 1 in CatalogLevels(catalog);
      && (!due ==> s.result == Success(Found(Card(loc.id, loc.name, loc.clue), None, CountFound(view[loc.level]))))
  {
    var loc := FindLocation(catalog, locationId).value;
    var finds' := finds + [Row(locationId, mole)];
    var view := View(catalog, finds', unlocked, mole);
    var locked := LockedAt(catalog, finds', unlocked, mole, loc.level + 1);
    SubmissionIsAfterFind(catalog, finds, unlocked, mole, locationId, code, threshold);
    AfterFindRule(view, loc, threshold, finds', unlocked, mole, locked, loc.level + 1 in CatalogLevels(catalog));
  }

  /** A correct code is recorded and then handled by AfterFind on the view
      recomputed with the find; in that view the next level is present iff the
      catalog has it, and its candidates are its locked catalog locations. */
  lemma SubmissionIsAfterFind(catalog: seq<Location>, finds: seq<Row>, unlocked: seq<Row>, mole: int,
                              locationId: int, code: string, threshold: nat)
    requires threshold > 0
    requires FindLocation(catalog, locationId).Some? && code == FindLocation(catalog, locationId).value.code
    ensures var loc := FindLocation(catalog, locationId).value;
      var finds' := finds + [Row(locationId, mole)];
      var view := View(catalog, finds', unlocked, mole);
      && loc.level in view
      && Submission(catalog, finds, unlocked, mole, locationId, code, threshold)
         == AfterFind(view, loc, threshold, finds', unlocked, mole)
      && (loc.level + 1 in view <==> loc.level + 1 in CatalogLevels(catalog))
      && (loc.level + 1 in view ==>
            Candidates(view[loc.level + 1])
            == AnnotateAll(LockedAt(catalog, finds', unlocked, mole, loc.level + 1), finds', unlocked, mole))
  {
    var loc := FindLocation(catalog, locationId).value;
    SubmissionStep(catalog, finds, unlocked, mole, locationId, code, threshold);
    NextLevelInView(catalog, finds + [Row(locationId, mole)], unlocked, mole, loc.level);
  }

  /** A correct code is recorded and then handled by AfterFind on the view
      recomputed with the find. */
  lemma SubmissionStep(catalog: seq<Location>, finds: seq<Row>, unlocked: seq<Row>, mole: int,
                       locationId: int, code: string, threshold: nat)
    requires threshold > 0
    requires FindLocation(catalog, locationId).Some? && code == FindLocation(catalog, locationId).value.code
    ensures var loc := FindLocation(catalog, locationId).value;
      var finds' := finds + [Row(locationId, mole)];
      var view := View(catalog, finds', unlocked, mole);
      && loc.level in view
      && Submission(catalog, finds, unlocked, mole, locationId, code, threshold)
         == AfterFind(view, loc, threshold, finds', unlocked, mole)
  {
    var loc := FindLocation(catalog, locationId).value;
    ViewHasLevel(catalog, finds + [Row(locationId, mole)], unlocked, mole, loc);
  }

  /** In any view, the level above a given one is present iff the catalog has
      it, and its candidates are its locked catalog locations. */
  lemma NextLevelInView(catalog: seq<Location>, finds: seq<Row>, unlocked: seq<Row>, mole: int, level: int)
    ensures var view := View(catalog, finds, unlocked, mole);
      && (level + 1 in view <==> level + 1 in CatalogLevels(catalog))
      && (level + 1 in view ==>
            Candidates(view[level + 1]) == AnnotateAll(LockedAt(catalog, finds, unlocked, mole, level + 1), finds, unlocked, mole))
  {
    ViewLevels(catalog, finds, unlocked, mole);
    if level + 1 in View(catalog, finds, unlocked, mole) {
      ViewCandidates(catalog, finds, unlocked, mole, level + 1);
    }
  }

  /** The unlock rule on a given view whose candidates for the next level are
      the given locked locations. */
  lemma AfterFindRule(view: ProgressView, loc: Location, threshold: nat, finds: seq<Row>, unlocked: seq<Row>, mole: int,
                      locked: seq<Location>, nextExists: bool)
    requires threshold > 0
    requires loc.level in view
    requires loc.level + 1 in view <==> nextExists
    requires loc.level + 1 in view ==> Candidates(view[loc.level + 1]) == AnnotateAll(locked, finds, unlocked, mole)
    ensures var s := AfterFind(view, loc, threshold, finds, unlocked, mole);
      var due := UnlockDue(CountFound(view[loc.level]), threshold) && nextExists;
      && (s.result == Failure(NoLockedLocation) <==> due && locked == [])
      && (s.unlocked != unlocked <==> due && locked != [])
      && (due && locked != [] ==>
            && s.unlocked == unlocked + [Row(locked[0].id, mole)]
            && s.result == Success(Found(Card(loc.id, loc.name, loc.clue),
                                         Some(Annotate(locked[0], finds, unlocked, mole)),
                                         CountFound(view[loc.level]))))
      && (!due ==> s.result == Success(Found(Card(loc.id, loc.name, loc.clue), None, CountFound(view[loc.level]))))
  {
    if loc.level + 1 in view && locked != [] {
      assert AnnotateAll(locked, finds, unlocked, mole)[0] == Annotate(locked[0], finds, unlocked, mole);
    }
  }
}
