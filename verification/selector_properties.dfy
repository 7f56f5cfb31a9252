/** What `get_next_character` promises, stated over the returned character
    for every value of the random draws. */
module SelectorProperties {
  import opened Wrappers
  import opened Store
  import opened Ordering
  import opened Selector

  function Last(db: Db, user: UserId): Option<CharId> {
    LastShown(UserProgress(db, user))
  }

  function Top(db: Db, user: UserId): seq<Character> {
    ColdStartTop(db.catalog, RankPenalties(db, user))
  }

  function Window(db: Db, user: UserId): seq<Character> {
    MainTop(db.catalog, UserProgress(db, user), RankPenalties(db, user))
  }

  /** Two catalog rows with the same primary key are the same row. */
  lemma SameId(catalog: seq<Character>, a: Character, b: Character)
    requires UniqueIds(catalog) && a in catalog && b in catalog && a.id == b.id
    ensures a == b
  {
    var i :| 0 <= i < |catalog| && catalog[i] == a;
    var j :| 0 <= j < |catalog| && catalog[j] == b;
  }

  lemma TopInCatalog(catalog: seq<Character>, penalties: map<CharId, int>)
    ensures forall c :: c in ColdStartTop(catalog, penalties) ==> c in catalog
  {
    forall c | c in ColdStartTop(catalog, penalties) ensures c in catalog {
      assert c in multiset(ColdStartTop(catalog, penalties));
      assert c in multiset(Lowest(catalog, ColdStartPool));
    }
  }

  /** A catalog row found by an id taken from the window is a window row. */
  lemma ById(catalog: seq<Character>, top: seq<Character>, c: Character, ids: set<CharId>)
    requires UniqueIds(catalog)
    requires forall d :: d in top ==> d in catalog
    requires c in catalog && c.id in ids
    requires forall id :: id in ids ==> exists d :: d in top && d.id == id
    ensures c in top
  {
    var d :| d in top && d.id == c.id;
    SameId(catalog, c, d);
  }

  /** Every candidate of a pool is what some draw returns. */
  lemma DrawReachesEveryCandidate(plan: Plan, c: Character)
    requires plan.Draw? && c in plan.pool
    ensures exists draw: nat :: Pick(plan, draw) == Some(c)
  {
    var i :| 0 <= i < |plan.pool| && plan.pool[i] == c;
    assert i % |plan.pool| == i;
    assert Pick(plan, i) == Some(c);
  }

  /** The cold-start branch is taken while fewer than 20 characters are
      reviewed and the window still has a candidate other than the last
      shown one that is unreviewed or not yet known. */
  lemma ColdStartTaken(catalog: seq<Character>, progress: map<CharId, Progress>,
                       penalties: map<CharId, int>, last: Option<CharId>)
    requires |progress| < ColdStartThreshold
    requires exists c :: c in ColdStartTop(catalog, penalties) && !IsLast(last, c.id)
                         && (c.id !in progress || progress[c.id].familiarity < Know)
    ensures ColdStart(catalog, progress, penalties, last).Some?
  {
    var top := ColdStartTop(catalog, penalties);
    var c :| c in top && !IsLast(last, c.id) && (c.id !in progress || progress[c.id].familiarity < Know);
    if c.id !in progress {
      assert c.id in UnreviewedIds(top, progress, last);
    } else {
      assert c.id in WeakIds(top, progress, last);
    }
  }

  /** Every cold-start candidate is a window character other than the last
      shown one, and not one the user already knows. */
  lemma ColdStartInWindow(catalog: seq<Character>, progress: map<CharId, Progress>,
                          penalties: map<CharId, int>, last: Option<CharId>)
    requires UniqueIds(catalog)
    requires ColdStart(catalog, progress, penalties, last).Some?
    ensures forall r :: r in ColdStart(catalog, progress, penalties, last).value.pool ==>
              && r in ColdStartTop(catalog, penalties)
              && !IsLast(last, r.id)
              && (r.id in progress ==> progress[r.id].familiarity < Know)
  {
    var top := ColdStartTop(catalog, penalties);
    TopInCatalog(catalog, penalties);
    var cold := ColdStart(catalog, progress, penalties, last);
    forall r | r in cold.value.pool
      ensures r in top && !IsLast(last, r.id) && (r.id in progress ==> progress[r.id].familiarity < Know)
    {
      if cold.value.branch == ColdStartNew {
        ById(catalog, top, r, UnreviewedIds(top, progress, last));
      } else {
        ById(catalog, top, r, WeakIds(top, progress, last));
      }
    }
  }

  /** While the window has an unreviewed candidate other than the last
      shown one, only unreviewed characters are candidates. */
  lemma ColdStartPrefersUnreviewed(catalog: seq<Character>, progress: map<CharId, Progress>,
                                   penalties: map<CharId, int>, last: Option<CharId>)
    requires ColdStart(catalog, progress, penalties, last).Some?
    requires exists c :: c in ColdStartTop(catalog, penalties) && !IsLast(last, c.id) && c.id !in progress
    ensures forall r :: r in ColdStart(catalog, progress, penalties, last).value.pool ==> r.id !in progress
  {
    var top := ColdStartTop(catalog, penalties);
    var u :| u in top && !IsLast(last, u.id) && u.id !in progress;
    assert u.id in UnreviewedIds(top, progress, last);
  }

  /** The cold-start promises for the character actually returned. */
  lemma ColdStartChoice(db: Db, user: UserId, showKnown: bool, draw: nat)
    requires UniqueIds(db.catalog)
    requires |UserProgress(db, user)| < ColdStartThreshold
    requires exists c :: c in Top(db, user) && !IsLast(Last(db, user), c.id)
                         && (c.id !in UserProgress(db, user) || UserProgress(db, user)[c.id].familiarity < Know)
    ensures var r := NextCharacter(db, user, showKnown, draw);
            && r.Some?
            && r.value in Top(db, user)
            && !IsLast(Last(db, user), r.value.id)
            && (r.value.id in UserProgress(db, user) ==> UserProgress(db, user)[r.value.id].familiarity < Know)
    ensures (exists c :: c in Top(db, user) && !IsLast(Last(db, user), c.id) && c.id !in UserProgress(db, user))
            ==> NextCharacter(db, user, showKnown, draw).value.id !in UserProgress(db, user)
  {
    var progress := UserProgress(db, user);
    var penalties := RankPenalties(db, user);
    var last := Last(db, user);
    ColdStartTaken(db.catalog, progress, penalties, last);
    ColdStartInWindow(db.catalog, progress, penalties, last);
    if exists c :: c in Top(db, user) && !IsLast(last, c.id) && c.id !in progress {
      ColdStartPrefersUnreviewed(db.catalog, progress, penalties, last);
    }
    TopInCatalog(db.catalog, penalties);
    var c :| c in Top(db, user);
    assert db.catalog != [];
    var cold := ColdStart(db.catalog, progress, penalties, last);
    assert PlanFor(db, user, showKnown) == cold.value;
    assert NextCharacter(db, user, showKnown, draw) == Pick(cold.value, draw);
  }

  /** A user without any review gets one of the cold-start window's
      characters: the best 20 by `(rank + penalty, rank)` among the 200
      lowest ranks. */
  lemma NoProgressPicksFromWindow(db: Db, user: UserId, showKnown: bool, draw: nat)
    requires UniqueIds(db.catalog)
    requires db.catalog != []
    requires UserProgress(db, user) == map[]
    ensures NextCharacter(db, user, showKnown, draw).Some?
    ensures NextCharacter(db, user, showKnown, draw).value in Top(db, user)
  {
    NoProgressCandidate(db, user);
    ColdStartChoice(db, user, showKnown, draw);
  }

  /** Without progress records every window character is an unreviewed
      candidate, and the window is not empty. */
  lemma NoProgressCandidate(db: Db, user: UserId)
    requires db.catalog != []
    requires UserProgress(db, user) == map[]
    ensures |UserProgress(db, user)| < ColdStartThreshold
    ensures exists c :: c in Top(db, user) && !IsLast(Last(db, user), c.id)
                        && (c.id !in UserProgress(db, user) || UserProgress(db, user)[c.id].familiarity < Know)
  {
    var top := Top(db, user);
    TopNonEmpty(db.catalog, RankPenalties(db, user));
    assert top[0] in top && Last(db, user) == None;
  }

  /** A non-empty catalog has a non-empty cold-start window. */
  lemma TopNonEmpty(catalog: seq<Character>, penalties: map<CharId, int>)
    requires catalog != []
    ensures ColdStartTop(catalog, penalties) != []
  {
    var low := Lowest(catalog, ColdStartPool);
    assert |low| > 0;
    assert |Best(low, ColdStartWindow, penalties)| > 0;
  }

  /** Without penalties the cold-start window holds the lowest raw ranks:
      no character left out of it has a lower rank than one kept. */
  lemma WindowHasLowestRanks(catalog: seq<Character>)
    ensures forall x, y :: x in ColdStartTop(catalog, map[]) && y in multiset(catalog) - multiset(ColdStartTop(catalog, map[]))
                           ==> x.rank <= y.rank
  {
    var low := Lowest(catalog, ColdStartPool);
    var top := ColdStartTop(catalog, map[]);
    forall x, y | x in top && y in multiset(catalog) - multiset(top) ensures x.rank <= y.rank {
      assert x in multiset(low);
      if y in multiset(low) - multiset(top) {
        assert KeyLe(x, y, map[]);
      } else {
        assert y in multiset(catalog) - multiset(low);
      }
    }
  }

  /** The recall branch returns a known character, and the last shown one
      only when it is the user's only known character. */
  lemma RecallChoice(db: Db, user: UserId, showKnown: bool, draw: nat)
    requires PlanFor(db, user, showKnown).Draw? && PlanFor(db, user, showKnown).branch == KnownRecall
    ensures var r := NextCharacter(db, user, showKnown, draw).value;
            && showKnown
            && r.id in KnownIds(UserProgress(db, user))
            && (IsLast(Last(db, user), r.id) ==> KnownIds(UserProgress(db, user)) == {r.id})
  {
    var progress := UserProgress(db, user);
    var last := Last(db, user);
    var cold := ColdStart(db.catalog, progress, RankPenalties(db, user), last);
    var recall := Recall(db.catalog, progress, last, showKnown);
    assert cold.None?;
    assert recall.Some? && PlanFor(db, user, showKnown) == recall.value;
  }

  /** Once the cold start is over, a successful 10% draw with at least one
      known character always takes the recall branch. */
  lemma RecallTaken(db: Db, user: UserId, draw: nat)
    requires db.catalog != []
    requires |UserProgress(db, user)| >= ColdStartThreshold
    requires KnownIds(UserProgress(db, user)) != {}
    requires KnownIds(UserProgress(db, user)) <= CatalogIds(db.catalog)
    ensures PlanFor(db, user, true).Draw? && PlanFor(db, user, true).branch == KnownRecall
  {
    var progress := UserProgress(db, user);
    var last := Last(db, user);
    assert ColdStart(db.catalog, progress, RankPenalties(db, user), last).None?;
  }

  /** Past the cold-start and recall branches the result is never a known
      character: it comes from the main window, or, only when every
      character is known, it is the lowest-rank character. */
  lemma MainChoice(db: Db, user: UserId, showKnown: bool, draw: nat)
    requires PlanFor(db, user, showKnown).Draw?
    requires PlanFor(db, user, showKnown).branch == Main
    ensures var r := NextCharacter(db, user, showKnown, draw).value;
            && r in Window(db, user)
            && r.id !in KnownIds(UserProgress(db, user))
            && (IsLast(Last(db, user), r.id) ==> forall d :: d in Window(db, user) ==> IsLast(Last(db, user), d.id))
  {
    var progress := UserProgress(db, user);
    var penalties := RankPenalties(db, user);
    var last := Last(db, user);
    assert ColdStart(db.catalog, progress, penalties, last).None?;
    assert Recall(db.catalog, progress, last, showKnown).None?;
    assert PlanFor(db, user, showKnown) == MainOrExhaustion(db.catalog, progress, penalties, last);
  }

  /** Once the cold start is over and the recall branch is not drawn, the
      main branch is taken while some character is unknown. */
  lemma MainTaken(db: Db, user: UserId, showKnown: bool)
    requires |UserProgress(db, user)| >= ColdStartThreshold
    requires !showKnown || KnownIds(UserProgress(db, user)) == {}
    requires exists c :: c in db.catalog && c.id !in KnownIds(UserProgress(db, user))
    ensures PlanFor(db, user, showKnown).Draw? && PlanFor(db, user, showKnown).branch == Main
  {
    var progress := UserProgress(db, user);
    var penalties := RankPenalties(db, user);
    var last := Last(db, user);
    assert ColdStart(db.catalog, progress, penalties, last).None?;
    assert Recall(db.catalog, progress, last, showKnown).None?;
  }

  /** The main window holds at most 100 characters, none known, and its
      ordering promise: every kept character's `(rank + penalty, rank)` is at
      most that of every character of the 300 lowest-rank unknown ones left
      out, and those 300 have ranks at most those of the unknown characters
      beyond them. */
  lemma MainWindowShape(db: Db, user: UserId)
    ensures |Window(db, user)| <= MainWindow
    ensures forall c :: c in Window(db, user) ==> c in db.catalog && c.id !in KnownIds(UserProgress(db, user))
    ensures var pool := Lowest(NotKnown(db.catalog, UserProgress(db, user)), MainPool);
            forall x, y :: x in Window(db, user) && y in multiset(pool) - multiset(Window(db, user))
                           ==> KeyLe(x, y, RankPenalties(db, user))
    ensures var unknown := NotKnown(db.catalog, UserProgress(db, user));
            var pool := Lowest(unknown, MainPool);
            forall x, y :: x in pool && y in multiset(unknown) - multiset(pool) ==> x.rank <= y.rank
  {
    MainTopInCatalog(db.catalog, UserProgress(db, user), RankPenalties(db, user));
  }

  /** When every character is known and no earlier branch applies, the
      lowest-rank character is returned. */
  lemma ExhaustionChoice(db: Db, user: UserId, showKnown: bool, draw: nat)
    requires PlanFor(db, user, showKnown).Draw?
    requires PlanFor(db, user, showKnown).branch == Exhaustion
    ensures forall c :: c in db.catalog ==> c.id in KnownIds(UserProgress(db, user))
    ensures var r := NextCharacter(db, user, showKnown, draw).value;
            forall c :: c in db.catalog ==> r.rank <= c.rank
  {
    var progress := UserProgress(db, user);
    var penalties := RankPenalties(db, user);
    var last := Last(db, user);
    assert ColdStart(db.catalog, progress, penalties, last).None?;
    assert Recall(db.catalog, progress, last, showKnown).None?;
    assert PlanFor(db, user, showKnown) == MainOrExhaustion(db.catalog, progress, penalties, last);
  }

  /** Once the cold start is over and the recall branch is not drawn, a
      user who knows every character gets the exhaustion branch. */
  lemma ExhaustionTaken(db: Db, user: UserId)
    requires db.catalog != []
    requires |UserProgress(db, user)| >= ColdStartThreshold
    requires forall c :: c in db.catalog ==> c.id in KnownIds(UserProgress(db, user))
    ensures PlanFor(db, user, false).Draw? && PlanFor(db, user, false).branch == Exhaustion
  {
    var progress := UserProgress(db, user);
    var penalties := RankPenalties(db, user);
    var last := Last(db, user);
    assert ColdStart(db.catalog, progress, penalties, last).None?;
    assert Recall(db.catalog, progress, last, false).None?;
  }

  /** Without the 10% draw, a user past the cold start never gets a known
      character back while an unknown one exists. */
  lemma NoRecallNoKnown(db: Db, user: UserId, draw: nat)
    requires |UserProgress(db, user)| >= ColdStartThreshold
    requires exists c :: c in db.catalog && c.id !in KnownIds(UserProgress(db, user))
    ensures NextCharacter(db, user, false, draw).Some?
    ensures NextCharacter(db, user, false, draw).value.id !in KnownIds(UserProgress(db, user))
  {
    var progress := UserProgress(db, user);
    var penalties := RankPenalties(db, user);
    var last := Last(db, user);
    assert ColdStart(db.catalog, progress, penalties, last).None?;
    assert Recall(db.catalog, progress, last, false).None?;
    var plan := MainOrExhaustion(db.catalog, progress, penalties, last);
    assert PlanFor(db, user, false) == plan;
    assert plan.branch == Main;
    MainChoice(db, user, false, draw);
  }
}
