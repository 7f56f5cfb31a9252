/** `get_next_character`: which character a user reviews next.

    The selection rule is applied in order: an empty catalog yields nothing;
    a cold-start window while the user has reviewed fewer than 20
    characters; an occasional recall of a known character; the main window
    of the best 100 (by `(rank + penalty, rank)`) among the 300 lowest-rank
    characters the user does not know; and, when every character is known,
    the lowest-rank character. The last shown character is avoided whenever
    the branch has another candidate.

    The two random draws are parameters: `showKnown` is the outcome of
    `random.random() < 0.1`, and `draw` picks the pool element
    `pool[draw % |pool|]`, so every pool element is reachable
    (`DrawReachesEveryCandidate`). The source draws uniformly; weights are
    not modelled because the source has none. */
module Selector {
  import opened Wrappers
  import opened Store
  import opened Ordering
  import opened Collections

  /** The cold-start branch applies while fewer characters than this have
      been reviewed. */
  const ColdStartThreshold: nat := 20
  /** Size of the raw-rank pool the cold-start window is taken from. */
  const ColdStartPool: nat := 200
  /** Size of the cold-start window. */
  const ColdStartWindow: nat := 20
  /** Size of the raw-rank pool of unknown characters for the main branch. */
  const MainPool: nat := 300
  /** Size of the main window. */
  const MainWindow: nat := 100
  /** `limit` of the exhaustion query (only its first row is used). */
  const ExhaustionLimit: nat := 100

  datatype Branch = ColdStartNew | ColdStartReview | KnownRecall | Main | Exhaustion

  /** What the selector draws from: nothing (empty catalog), or a non-empty
      pool of candidates and the branch that produced it. */
  datatype Plan = NoCharacters | Draw(branch: Branch, pool: seq<Character>)

  // ---------------------------------------------------------------------
  // The user's state as the selector reads it
  // ---------------------------------------------------------------------

  /** The character of the user's most recently reviewed record
      (`ORDER BY last_reviewed DESC LIMIT 1`), or none without records.
      Records reviewed at the same instant are ordered by the database
      arbitrarily; the model takes the smallest id among them. */
  function LastShown(progress: map<CharId, Progress>): (r: Option<CharId>)
    ensures r.None? <==> progress == map[]
    ensures r.Some? ==> r.value in progress
    ensures r.Some? ==> forall id :: id in progress ==> progress[id].lastReviewed <= progress[r.value].lastReviewed
  {
    if progress == map[] then None
    else
      NonEmptyMap(progress);
      var someId :| someId in progress;
      var times := set id | id in progress :: progress[id].lastReviewed;
      assert progress[someId].lastReviewed in times;
      var latest := MaxOf(times);
      var atLatest := set id | id in progress && progress[id].lastReviewed == latest;
      var w :| w in progress && progress[w].lastReviewed == latest;
      assert w in atLatest;
      assert forall id :: id in progress ==> progress[id].lastReviewed in times;
      var chosen := MinOf(atLatest);
      assert progress[chosen].lastReviewed == latest;
      Some(chosen)
  }

  function KnownIds(progress: map<CharId, Progress>): (ids: set<CharId>)
    ensures forall id :: id in ids <==> id in progress && progress[id].familiarity == Know
  {
    set id | id in progress && progress[id].familiarity == Know
  }

  function CatalogIds(catalog: seq<Character>): set<CharId> {
    set c | c in catalog :: c.id
  }

  predicate IsLast(last: Option<CharId>, id: CharId) {
    last == Some(id)
  }

  // ---------------------------------------------------------------------
  // Queries
  // ---------------------------------------------------------------------

  /** `Character.query.filter(Character.id.in_(ids)).all()`. */
  function WithIds(catalog: seq<Character>, ids: set<CharId>): (r: seq<Character>)
    ensures forall c :: c in r <==> c in catalog && c.id in ids
  {
    if catalog == [] then []
    else
      var rest := WithIds(catalog[1..], ids);
      assert forall c :: c in catalog <==> c == catalog[0] || c in catalog[1..];
      if catalog[0].id in ids then [catalog[0]] + rest else rest
  }

  /** The characters the user has not marked known (`~id.in_(known)`). */
  function NotKnown(catalog: seq<Character>, progress: map<CharId, Progress>): (r: seq<Character>)
    ensures forall c :: c in r <==> c in catalog && c.id !in KnownIds(progress)
  {
    if catalog == [] then []
    else
      var rest := NotKnown(catalog[1..], progress);
      assert forall c :: c in catalog <==> c == catalog[0] || c in catalog[1..];
      if catalog[0].id !in KnownIds(progress) then [catalog[0]] + rest else rest
  }

  /** `[c for c in s if c.id != last_shown_id]`. */
  function WithoutLast(s: seq<Character>, last: Option<CharId>): (r: seq<Character>)
    ensures forall c :: c in r <==> c in s && !IsLast(last, c.id)
  {
    if s == [] then []
    else
      var rest := WithoutLast(s[1..], last);
      assert forall c :: c in s <==> c == s[0] || c in s[1..];
      if !IsLast(last, s[0].id) then [s[0]] + rest else rest
  }

  // ---------------------------------------------------------------------
  // Branches
  // ---------------------------------------------------------------------

  /** The cold-start window: the 200 lowest-rank characters re-sorted by
      `(rank + penalty, rank)`, best 20 kept. */
  function ColdStartTop(catalog: seq<Character>, penalties: map<CharId, int>): seq<Character> {
    Best(Lowest(catalog, ColdStartPool), ColdStartWindow, penalties)
  }

  /** Window members the user has never reviewed, other than the last shown. */
  function UnreviewedIds(top: seq<Character>, progress: map<CharId, Progress>, last: Option<CharId>): (ids: set<CharId>)
    ensures forall id :: id in ids <==> exists c :: c in top && c.id == id && id !in progress && !IsLast(last, id)
  {
    set c | c in top && c.id !in progress && !IsLast(last, c.id) :: c.id
  }

  /** Window members reviewed but not known, other than the last shown. */
  function WeakIds(top: seq<Character>, progress: map<CharId, Progress>, last: Option<CharId>): (ids: set<CharId>)
    ensures forall id :: id in ids <==> exists c :: c in top && c.id == id && id in progress && progress[id].familiarity < Know && !IsLast(last, id)
  {
    set c | c in top && c.id in progress && progress[c.id].familiarity < Know && !IsLast(last, c.id) :: c.id
  }

  /** Cold-start branch; `None` falls through to the later branches. */
  function ColdStart(catalog: seq<Character>, progress: map<CharId, Progress>, penalties: map<CharId, int>,
                     last: Option<CharId>): (r: Option<Plan>)
    ensures r.Some? ==> |progress| < ColdStartThreshold
    ensures r.Some? ==> r.value.Draw? && r.value.pool != []
    ensures r.Some? ==> r.value.branch == ColdStartNew || r.value.branch == ColdStartReview
    ensures r.Some? && r.value.branch == ColdStartNew ==>
      forall c :: c in r.value.pool <==> c in catalog && c.id in UnreviewedIds(ColdStartTop(catalog, penalties), progress, last)
    ensures r.Some? && r.value.branch == ColdStartReview ==>
      && UnreviewedIds(ColdStartTop(catalog, penalties), progress, last) == {}
      && forall c :: c in r.value.pool <==> c in catalog && c.id in WeakIds(ColdStartTop(catalog, penalties), progress, last)
    ensures r.None? && |progress| < ColdStartThreshold ==>
      && UnreviewedIds(ColdStartTop(catalog, penalties), progress, last) == {}
      && WeakIds(ColdStartTop(catalog, penalties), progress, last) == {}
  {
    if |progress| >= ColdStartThreshold then None
    else
      var top := ColdStartTop(catalog, penalties);
      assert forall c :: c in top ==> c in catalog by {
        forall c | c in top ensures c in catalog {
          assert c in multiset(top);
          assert c in multiset(Lowest(catalog, ColdStartPool));
        }
      }
      var unreviewed := UnreviewedIds(top, progress, last);
      var unseen := WithIds(catalog, unreviewed);
      if unreviewed != {} then
        var id :| id in unreviewed;
        assert unseen != [];
        Some(Draw(ColdStartNew, unseen))
      else
        var weak := WeakIds(top, progress, last);
        var review := WithIds(catalog, weak);
        if weak != {} then
          var id :| id in weak;
          assert review != [];
          Some(Draw(ColdStartReview, review))
        else None
  }

  /** Known-character recall (taken when the 10% draw succeeds); `None`
      falls through to the main branch. */
  function Recall(catalog: seq<Character>, progress: map<CharId, Progress>, last: Option<CharId>,
                  showKnown: bool): (r: Option<Plan>)
    ensures r.Some? ==> showKnown && r.value.Draw? && r.value.branch == KnownRecall && r.value.pool != []
    ensures r.Some? ==> forall c :: c in r.value.pool ==> c in catalog && c.id in KnownIds(progress)
    ensures r.Some? ==> forall c :: c in r.value.pool && IsLast(last, c.id) ==> KnownIds(progress) == {c.id}
    ensures r.None? && showKnown && KnownIds(progress) <= CatalogIds(catalog) ==> KnownIds(progress) == {}
  {
    var known := KnownIds(progress);
    if showKnown && known != {} then
      var others := if last.Some? then known - {last.value} else known;
      var available := if others == {} then known else others;
      var pool := WithIds(catalog, available);
      if pool != [] then Some(Draw(KnownRecall, pool)) else None
    else None
  }

  /** The main window: the 300 lowest-rank characters the user does not
      know, re-sorted by `(rank + penalty, rank)`, best 100 kept. */
  function MainTop(catalog: seq<Character>, progress: map<CharId, Progress>, penalties: map<CharId, int>): seq<Character> {
    Best(Lowest(NotKnown(catalog, progress), MainPool), MainWindow, penalties)
  }

  /** `available_next`: the candidates other than the last shown one, or
      all of them when the last shown one is the only candidate. */
  function AvoidLast(s: seq<Character>, last: Option<CharId>): (r: seq<Character>)
    requires s != []
    ensures r != [] && forall c :: c in r ==> c in s
    ensures forall c :: c in r && IsLast(last, c.id) ==> forall d :: d in s ==> IsLast(last, d.id)
  {
    var others := WithoutLast(s, last);
    if others == [] then s else others
  }

  /** The main branch, and the exhaustion fallback when it is empty. */
  function MainOrExhaustion(catalog: seq<Character>, progress: map<CharId, Progress>, penalties: map<CharId, int>,
                            last: Option<CharId>): (r: Plan)
    requires catalog != []
    ensures r.Draw? && r.pool != []
    ensures r.branch == Main || r.branch == Exhaustion
    ensures forall c :: c in r.pool ==> c in catalog
    ensures r.branch == Main ==> forall c :: c in r.pool ==> c in MainTop(catalog, progress, penalties)
    ensures r.branch == Main ==> forall c :: c in r.pool ==> c in catalog && c.id !in KnownIds(progress)
    ensures r.branch == Main ==> forall c :: c in r.pool && IsLast(last, c.id) ==>
                                   forall d :: d in MainTop(catalog, progress, penalties) ==> IsLast(last, d.id)
    ensures r.branch == Exhaustion <==> forall c :: c in catalog ==> c.id in KnownIds(progress)
    ensures r.branch == Exhaustion ==> |r.pool| == 1 && r.pool[0] in catalog
    ensures r.branch == Exhaustion ==> forall c :: c in catalog ==> r.pool[0].rank <= c.rank
  {
    var next := MainTop(catalog, progress, penalties);
    MainTopInCatalog(catalog, progress, penalties);
    if next != [] then
      Draw(Main, AvoidLast(next, last))
    else
      LowestFirst(catalog, ExhaustionLimit);
      var first := Lowest(catalog, ExhaustionLimit)[0];
      assert forall c :: c in [first] ==> c == first;
      Draw(Exhaustion, [first])
  }

  lemma MainTopInCatalog(catalog: seq<Character>, progress: map<CharId, Progress>, penalties: map<CharId, int>)
    ensures forall c :: c in MainTop(catalog, progress, penalties) ==> c in catalog && c.id !in KnownIds(progress)
    ensures MainTop(catalog, progress, penalties) == [] <==> NotKnown(catalog, progress) == []
    ensures MainTop(catalog, progress, penalties) == [] <==> forall c :: c in catalog ==> c.id in KnownIds(progress)
  {
    var notKnown := NotKnown(catalog, progress);
    var low := Lowest(notKnown, MainPool);
    var next := Best(low, MainWindow, penalties);
    forall c | c in next ensures c in catalog && c.id !in KnownIds(progress) {
      assert c in multiset(next);
      assert c in multiset(low);
      assert c in multiset(notKnown);
    }
    if notKnown != [] {
      assert notKnown[0] in notKnown;
    }
  }

  /** The first row of `ORDER BY rank LIMIT k` has the lowest rank. */
  lemma LowestFirst(s: seq<Character>, k: nat)
    requires s != [] && k > 0
    ensures Lowest(s, k) != [] && Lowest(s, k)[0] in s
    ensures forall c :: c in s ==> Lowest(s, k)[0].rank <= c.rank
  {
    var r := Lowest(s, k);
    assert r[0] in multiset(s);
    SortedHead(r);
    forall c | c in s && c !in r ensures r[0].rank <= c.rank {
      assert c in multiset(s) - multiset(r);
    }
  }

  /** The head of a sequence in raw-rank order has the least rank. */
  lemma SortedHead(r: seq<Character>)
    requires r != [] && SortedBy(r, map[])
    ensures forall c :: c in r ==> r[0].rank <= c.rank
  {
    forall c | c in r ensures r[0].rank <= c.rank {
      var i :| 0 <= i < |r| && r[i] == c;
      if i > 0 { assert KeyLe(r[0], r[i], map[]); }
    }
  }

  // ---------------------------------------------------------------------
  // The selector
  // ---------------------------------------------------------------------

  /** The branch and pool `get_next_character(user)` draws from. */
  function PlanFor(db: Db, user: UserId, showKnown: bool): (r: Plan)
    ensures r.NoCharacters? <==> db.catalog == []
    ensures r.Draw? ==> r.pool != [] && forall c :: c in r.pool ==> c in db.catalog
  {
    if db.catalog == [] then NoCharacters
    else
      var progress := UserProgress(db, user);
      var penalties := RankPenalties(db, user);
      var last := LastShown(progress);
      var cold := ColdStart(db.catalog, progress, penalties, last);
      if cold.Some? then
        assert forall c :: c in cold.value.pool ==> c in db.catalog;
        cold.value
      else
        var recall := Recall(db.catalog, progress, last, showKnown);
        if recall.Some? then recall.value
        else MainOrExhaustion(db.catalog, progress, penalties, last)
  }

  /** `random.choice(pool)` with the draw supplied. */
  function Pick(plan: Plan, draw: nat): (r: Option<Character>)
    requires plan.Draw? ==> plan.pool != []
    ensures r.None? <==> plan.NoCharacters?
    ensures r.Some? ==> r.value in plan.pool
  {
    match plan
    case NoCharacters => None
    case Draw(_, pool) => Some(pool[draw % |pool|])
  }

  /** `get_next_character(user)` with its random draws supplied. */
  function NextCharacter(db: Db, user: UserId, showKnown: bool, draw: nat): (r: Option<Character>)
    ensures r.None? <==> db.catalog == []
    ensures r.Some? ==> r.value in db.catalog
  {
    Pick(PlanFor(db, user, showKnown), draw)
  }
}
