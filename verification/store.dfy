/** The persisted state of the trainer: the global character catalog and,
    per (user, character) pair, a review-progress record and a rank-tuning
    record. The database tables become immutable values; a transaction that
    commits produces a new `Db`, one that rolls back leaves the old one. */
module Store {
  import opened Text

  type CharId = int
  type UserId = int

  /** Familiarity verdicts a review can record. */
  const DontKnow: int := 0
  const Unsure: int := 1
  const Know: int := 2

  /** Amount one "show less often" action adds to a rank penalty. */
  const DemoteStep: int := 50

  /** A catalog entry: glyph, reading, gloss, corpus frequency and frequency
      rank (1 = most common). Never changed once loaded. */
  datatype Character = Character(
    id: CharId,
    hanzi: String,
    pinyin: String,
    meaning: String,
    frequency: int,
    rank: int)

  /** One user's progress on one character. `lastReviewed` is a reading of
      an integer clock. */
  datatype Progress = Progress(
    familiarity: int,
    lastReviewed: int,
    reviewCount: int,
    knowCount: int,
    unsureCount: int,
    dontKnowCount: int)

  /** The (user, character) pair that keys both per-user tables. */
  datatype Key = Key(user: UserId, charId: CharId)

  /** The three tables. `tuning` holds `rank_penalty` and is a map because
      the table has a (user, character) uniqueness constraint. The progress
      table has no such constraint: it is a map because every writer looks
      the pair up before inserting, which keeps the pair unique as long as
      requests do not interleave. */
  datatype Db = Db(
    catalog: seq<Character>,
    progress: map<Key, Progress>,
    tuning: map<Key, int>)

  /** Character ids are the table's primary key. */
  predicate UniqueIds(catalog: seq<Character>) {
    forall i, j :: 0 <= i < |catalog| && 0 <= j < |catalog| && catalog[i].id == catalog[j].id ==> i == j
  }

  predicate InCatalog(catalog: seq<Character>, id: CharId) {
    exists c :: c in catalog && c.id == id
  }

  /** The counter invariant every record written by reviews keeps: each
      review is counted exactly once, under its verdict. */
  predicate CountersAgree(p: Progress) {
    p.reviewCount == p.knowCount + p.unsureCount + p.dontKnowCount
  }

  predicate ValidFamiliarity(f: int) {
    f == DontKnow || f == Unsure || f == Know
  }

  /** One user's progress rows, keyed by character id (the
      `familiarity_dict` of the selector and the rows it orders by
      `last_reviewed`). */
  function UserProgress(db: Db, user: UserId): (m: map<CharId, Progress>)
    ensures forall id :: id in m <==> Key(user, id) in db.progress
    ensures forall id :: id in m ==> m[id] == db.progress[Key(user, id)]
  {
    var ids := set k | k in db.progress && k.user == user :: k.charId;
    map id | id in ids :: db.progress[Key(user, id)]
  }

  /** `get_rank_penalties(user_id)`: the user's tuning rows as a map from
      character id to rank penalty. */
  function RankPenalties(db: Db, user: UserId): (m: map<CharId, int>)
    ensures forall id :: id in m <==> Key(user, id) in db.tuning
    ensures forall id :: id in m ==> m[id] == db.tuning[Key(user, id)]
  {
    var ids := set k | k in db.tuning && k.user == user :: k.charId;
    map id | id in ids :: db.tuning[Key(user, id)]
  }

  /** `rank_penalties.get(id, 0)`. */
  function Penalty(penalties: map<CharId, int>, id: CharId): int {
    if id in penalties then penalties[id] else 0
  }

  /** Rank plus the user's penalty: used for ordering, never stored. */
  function EffectiveRank(c: Character, penalties: map<CharId, int>): int {
    c.rank + Penalty(penalties, c.id)
  }
}
