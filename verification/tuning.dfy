/** The "show less often" action (`POST /api/character/demote`): each call
    adds a fixed step to the user's rank penalty for one character, which
    pushes it later in every ordering the selector makes. A store failure
    during the commit is the parameter `commitFails`; the rollback leaves
    the tables as they were. */
module Tuning {
  import opened Wrappers
  import opened Store

  datatype Response = BadRequest | NotFound | ServerError | Penalized(rankPenalty: int)

  /** The catalog entry with primary key `id`, if any. */
  function FindById(catalog: seq<Character>, id: CharId): (r: Option<Character>)
    ensures r.Some? ==> r.value in catalog && r.value.id == id
    ensures r.None? <==> !InCatalog(catalog, id)
  {
    if catalog == [] then None
    else if catalog[0].id == id then Some(catalog[0])
    else FindById(catalog[1..], id)
  }

  /** The user's current penalty for `id`, or 0 when no tuning row exists
      yet. */
  function CurrentPenalty(db: Db, user: UserId, id: CharId): int {
    if Key(user, id) in db.tuning then db.tuning[Key(user, id)] else 0
  }

  /** The demote route. A missing or zero id is rejected with 400, an id
      not in the catalog with 404 (and no tuning row is created); otherwise
      the penalty becomes its old value (0 if absent) plus `DemoteStep`. */
  function Demote(db: Db, user: UserId, charId: Option<int>, commitFails: bool): (r: (Response, Db))
    ensures r.0 == BadRequest <==> charId.None? || charId.value == 0
    ensures r.0 == NotFound <==> charId.Some? && charId.value != 0 && !InCatalog(db.catalog, charId.value)
    ensures r.0.Penalized? <==> charId.Some? && charId.value != 0 && InCatalog(db.catalog, charId.value) && !commitFails
    ensures !r.0.Penalized? ==> r.1 == db
    ensures r.1.catalog == db.catalog && r.1.progress == db.progress
    ensures r.0.Penalized? ==>
              && r.0.rankPenalty == CurrentPenalty(db, user, charId.value) + DemoteStep
              && r.1.tuning.Keys == db.tuning.Keys + {Key(user, charId.value)}
              && r.1.tuning[Key(user, charId.value)] == r.0.rankPenalty
              && forall k :: k in db.tuning && k != Key(user, charId.value) ==> r.1.tuning[k] == db.tuning[k]
  {
    if charId.None? || charId.value == 0 then (BadRequest, db)
    else if FindById(db.catalog, charId.value).None? then (NotFound, db)
    else if commitFails then (ServerError, db)
    else
      var id := charId.value;
      var p := CurrentPenalty(db, user, id) + DemoteStep;
      (Penalized(p), db.(tuning := db.tuning[Key(user, id) := p]))
  }

  /** Two successful demotes of the same character add exactly twice the
      step to its penalty. */
  lemma DemoteTwice(db: Db, user: UserId, id: CharId)
    requires id != 0 && InCatalog(db.catalog, id)
    ensures var once := Demote(db, user, Some(id), false);
            var twice := Demote(once.1, user, Some(id), false);
            && twice.0 == Penalized(CurrentPenalty(db, user, id) + 2 * DemoteStep)
            && CurrentPenalty(twice.1, user, id) == CurrentPenalty(db, user, id) + 100
  {
  }

  /** After a successful demote the character's effective rank for that
      user has risen by exactly the step, and every other character's
      effective rank, and every other user's penalties, are as before. */
  lemma DemoteRaisesEffectiveRank(db: Db, user: UserId, id: CharId, c: Character)
    requires id != 0 && InCatalog(db.catalog, id)
    ensures var after := Demote(db, user, Some(id), false).1;
            EffectiveRank(c, RankPenalties(after, user)) ==
              EffectiveRank(c, RankPenalties(db, user)) + (if c.id == id then DemoteStep else 0)
    ensures forall other :: other != user ==>
              RankPenalties(Demote(db, user, Some(id), false).1, other) == RankPenalties(db, other)
  {
    var after := Demote(db, user, Some(id), false).1;
    forall other | other != user
      ensures RankPenalties(after, other) == RankPenalties(db, other)
    {
      var a := RankPenalties(after, other);
      var b := RankPenalties(db, other);
      assert a.Keys == b.Keys;
    }
  }

  /** Penalties only grow: whatever the request, no user's penalty for any
      character goes down. */
  lemma DemoteNeverLowers(db: Db, user: UserId, charId: Option<int>, commitFails: bool, u: UserId, id: CharId)
    requires forall k :: k in db.tuning ==> db.tuning[k] >= 0
    ensures var after := Demote(db, user, charId, commitFails).1;
            && CurrentPenalty(after, u, id) >= CurrentPenalty(db, u, id)
            && forall k :: k in after.tuning ==> after.tuning[k] >= 0
  {
  }
}
