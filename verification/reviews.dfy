/** `update_progress` and the review route that calls it: the
    per-(user, character) progress record as a small state machine over
    review verdicts. A store failure during the commit is a parameter
    (`commitFails`); the transaction is then rolled back, which leaves the
    tables as they were. */
module Reviews {
  import opened Wrappers
  import opened Store

  function Bump(f: int, verdict: int): int {
    if f == verdict then 1 else 0
  }

  /** The record after one review with verdict `f` at time `now`: created
      with one review when absent, otherwise updated in place. */
  function Reviewed(prior: Option<Progress>, f: int, now: int): (p: Progress)
    ensures p.familiarity == f && p.lastReviewed == now
    ensures prior.None? ==> p.reviewCount == 1
    ensures prior.Some? ==> p.reviewCount == prior.value.reviewCount + 1
    ensures ValidFamiliarity(f) && (prior.None? || CountersAgree(prior.value)) ==> CountersAgree(p)
    ensures prior.None? && !ValidFamiliarity(f) ==> !CountersAgree(p)
  {
    match prior
    case None =>
      Progress(f, now, 1, Bump(f, Know), Bump(f, Unsure), Bump(f, DontKnow))
    case Some(p) =>
      p.(familiarity := f,
         lastReviewed := now,
         reviewCount := p.reviewCount + 1,
         knowCount := p.knowCount + Bump(f, Know),
         unsureCount := p.unsureCount + Bump(f, Unsure),
         dontKnowCount := p.dontKnowCount + Bump(f, DontKnow))
  }

  function Lookup(progress: map<Key, Progress>, k: Key): Option<Progress> {
    if k in progress then Some(progress[k]) else None
  }

  /** `update_progress(user, char, familiarity)`: `true` with the record
      written, or `false` with every table as it was. */
  function UpdateProgress(db: Db, user: UserId, charId: CharId, f: int, now: int, commitFails: bool): (r: (bool, Db))
    ensures r.0 <==> !commitFails
    ensures !r.0 ==> r.1 == db
    ensures r.1.catalog == db.catalog && r.1.tuning == db.tuning
    ensures r.0 ==> r.1.progress.Keys == db.progress.Keys + {Key(user, charId)}
    ensures r.0 ==> forall k :: k in db.progress && k != Key(user, charId) ==> r.1.progress[k] == db.progress[k]
    ensures r.0 ==> r.1.progress[Key(user, charId)] == Reviewed(Lookup(db.progress, Key(user, charId)), f, now)
  {
    if commitFails then (false, db)
    else
      var k := Key(user, charId);
      (true, db.(progress := db.progress[k := Reviewed(Lookup(db.progress, k), f, now)]))
  }

  /** A first review creates a record counting one review under its verdict
      and none under the other two. */
  lemma FirstReview(db: Db, user: UserId, charId: CharId, f: int, now: int)
    requires Key(user, charId) !in db.progress
    requires ValidFamiliarity(f)
    ensures var p := UpdateProgress(db, user, charId, f, now, false).1.progress[Key(user, charId)];
            && p.familiarity == f && p.reviewCount == 1
            && p.knowCount == (if f == Know then 1 else 0)
            && p.unsureCount == (if f == Unsure then 1 else 0)
            && p.dontKnowCount == (if f == DontKnow then 1 else 0)
  {
  }

  /** A later review adds one to the review count and to the verdict's
      counter and leaves the other two counters alone. */
  lemma LaterReview(db: Db, user: UserId, charId: CharId, f: int, now: int)
    requires Key(user, charId) in db.progress
    ensures var before := db.progress[Key(user, charId)];
            var p := UpdateProgress(db, user, charId, f, now, false).1.progress[Key(user, charId)];
            && p.familiarity == f && p.lastReviewed == now
            && p.reviewCount == before.reviewCount + 1
            && p.knowCount == before.knowCount + (if f == Know then 1 else 0)
            && p.unsureCount == before.unsureCount + (if f == Unsure then 1 else 0)
            && p.dontKnowCount == before.dontKnowCount + (if f == DontKnow then 1 else 0)
  {
  }

  // ---------------------------------------------------------------------
  // Review histories
  // ---------------------------------------------------------------------

  /** How many of the verdicts are `v`. */
  function CountOf(fs: seq<int>, v: int): nat {
    if fs == [] then 0 else CountOf(fs[..|fs| - 1], v) + Bump(fs[|fs| - 1], v)
  }

  /** The tables after reviewing one character with each verdict of `fs` in
      turn, the i-th at time `times[i]`, every commit succeeding. */
  function ReviewAll(db: Db, user: UserId, charId: CharId, fs: seq<int>, times: seq<int>): Db
    requires |times| == |fs|
  {
    if fs == [] then db
    else
      var before := ReviewAll(db, user, charId, fs[..|fs| - 1], times[..|fs| - 1]);
      UpdateProgress(before, user, charId, fs[|fs| - 1], times[|fs| - 1], false).1
  }

  /** After reviews `f1..fN` of a character never reviewed before: the
      review count is N, each counter is the number of verdicts equal to
      it, the familiarity and time are those of the last review, and the
      counters add up to the review count. No other record changes. */
  lemma {:induction false} History(db: Db, user: UserId, charId: CharId, fs: seq<int>, times: seq<int>)
    requires Key(user, charId) !in db.progress
    requires |times| == |fs| && fs != []
    requires forall i :: 0 <= i < |fs| ==> ValidFamiliarity(fs[i])
    ensures var after := ReviewAll(db, user, charId, fs, times);
            var p := after.progress[Key(user, charId)];
            && Key(user, charId) in after.progress
            && p.reviewCount == |fs|
            && p.knowCount == CountOf(fs, Know)
            && p.unsureCount == CountOf(fs, Unsure)
            && p.dontKnowCount == CountOf(fs, DontKnow)
            && p.familiarity == fs[|fs| - 1]
            && p.lastReviewed == times[|fs| - 1]
            && CountersAgree(p)
    ensures forall k :: k != Key(user, charId) ==>
              (k in ReviewAll(db, user, charId, fs, times).progress <==> k in db.progress)
    ensures forall k :: k != Key(user, charId) && k in db.progress ==>
              ReviewAll(db, user, charId, fs, times).progress[k] == db.progress[k]
  {
    var n := |fs|;
    var f := fs[n - 1];
    var before := ReviewAll(db, user, charId, fs[..n - 1], times[..n - 1]);
    if n == 1 {
      assert before == db;
      assert CountOf(fs, Know) == Bump(f, Know);
      assert CountOf(fs, Unsure) == Bump(f, Unsure);
      assert CountOf(fs, DontKnow) == Bump(f, DontKnow);
    } else {
      History(db, user, charId, fs[..n - 1], times[..n - 1]);
      assert fs[..n - 1][n - 2] == fs[n - 2];
    }
  }

  /** Every review with a verdict in {0, 1, 2} keeps the counter invariant
      of every record. */
  lemma ReviewKeepsCounters(db: Db, user: UserId, charId: CharId, f: int, now: int, commitFails: bool)
    requires forall k :: k in db.progress ==> CountersAgree(db.progress[k])
    requires ValidFamiliarity(f)
    ensures var after := UpdateProgress(db, user, charId, f, now, commitFails).1;
            forall k :: k in after.progress ==> CountersAgree(after.progress[k])
  {
  }

  /** `update_progress` does not check the verdict itself: a first review
      with a verdict outside {0, 1, 2} leaves a record whose counters do not
      add up to its review count. The review route's range check is what
      keeps the invariant. */
  lemma UncheckedVerdict(db: Db, user: UserId, charId: CharId, now: int)
    requires Key(user, charId) !in db.progress
    ensures !CountersAgree(UpdateProgress(db, user, charId, 3, now, false).1.progress[Key(user, charId)])
  {
  }

  // ---------------------------------------------------------------------
  // The review route (`POST /api/progress`)
  // ---------------------------------------------------------------------

  datatype Response = BadRequest | ServerError | Recorded

  /** The route's checks before calling `update_progress`: a missing or
      zero character id, a missing familiarity and one outside {0, 1, 2}
      are rejected with 400; a failed update is a 500. */
  function RecordReview(db: Db, user: UserId, charId: Option<int>, familiarity: Option<int>,
                        now: int, commitFails: bool): (r: (Response, Db))
    ensures r.0 == Recorded ==> charId.Some? && charId.value != 0 && familiarity.Some? && ValidFamiliarity(familiarity.value)
    ensures r.0 != Recorded ==> r.1 == db
    ensures r.0 == BadRequest <==> charId.None? || charId.value == 0 || familiarity.None? || !ValidFamiliarity(familiarity.value)
  {
    if charId.None? || charId.value == 0 then (BadRequest, db)
    else if familiarity.None? then (BadRequest, db)
    else if !ValidFamiliarity(familiarity.value) then (BadRequest, db)
    else
      var (ok, after) := UpdateProgress(db, user, charId.value, familiarity.value, now, commitFails);
      if ok then (Recorded, after) else (ServerError, db)
  }

  /** Whatever the request, the route keeps every record's counters adding
      up to its review count. */
  lemma RouteKeepsCounters(db: Db, user: UserId, charId: Option<int>, familiarity: Option<int>,
                           now: int, commitFails: bool)
    requires forall k :: k in db.progress ==> CountersAgree(db.progress[k])
    ensures var after := RecordReview(db, user, charId, familiarity, now, commitFails).1;
            forall k :: k in after.progress ==> CountersAgree(after.progress[k])
  {
    if RecordReview(db, user, charId, familiarity, now, commitFails).0 == Recorded {
      ReviewKeepsCounters(db, user, charId.value, familiarity.value, now, commitFails);
    }
  }
}
