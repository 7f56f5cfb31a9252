/** Bulk import (`POST /api/bulk-import`): marks every character of a pasted
    text as reviewed with one verdict. Whitespace, digits and ASCII
    punctuation are dropped, duplicates are removed, and each remaining
    character is looked up by its glyph and recorded through
    `update_progress`. The set of distinct characters is visited in an
    arbitrary order (Python iterates a `set`), which the method leaves
    unspecified; which commits fail is the parameter `failing`. */
module BulkImport {
  import opened Wrappers
  import opened Text
  import opened Store
  import opened Reviews
  import opened Collections

  /** Python's `string.punctuation`: the 32 ASCII punctuation characters. */
  const Punctuation: set<char> :=
    {'!', '"', '#', '$', '%', '&', '\'', '(', ')', '*', '+', ',', '-', '.', '/',
     ':', ';', '<', '=', '>', '?', '@', '[', '\\', ']', '^', '_', '`', '{', '|', '}', '~'}

  /** `str.isdigit()`, restricted to the ASCII and fullwidth decimal digits. */
  predicate IsDigit(c: char) {
    IsAsciiDigit(c) || ('０' <= c <= '９')
  }

  /** A character the import keeps: not whitespace, not a digit and not
      ASCII punctuation. CJK punctuation such as '，' is kept. */
  predicate Kept(c: char) {
    !IsSpace(c) && !IsDigit(c) && c !in Punctuation
  }

  /** The distinct characters of the text that the import keeps. */
  function KeptChars(text: String): set<char> {
    set c | c in text && Kept(c)
  }

  /** The verdict to record: the requested one when it is 0, 1 or 2,
      otherwise (missing or out of range) "know". */
  function NormalizeFamiliarity(f: Option<int>): (r: int)
    ensures ValidFamiliarity(r)
    ensures f.Some? && ValidFamiliarity(f.value) ==> r == f.value
    ensures (f.None? || !ValidFamiliarity(f.value)) ==> r == Know
  {
    if f.Some? && ValidFamiliarity(f.value) then f.value else Know
  }

  /** `Character.query.filter_by(hanzi=ch).first()`: the position of the
      first catalog entry whose glyph is exactly `ch`. */
  function FirstWithHanzi(catalog: seq<Character>, ch: char): (r: Option<nat>)
    ensures r.Some? ==> r.value < |catalog| && catalog[r.value].hanzi == [ch]
    ensures r.Some? ==> forall j :: 0 <= j < r.value ==> catalog[j].hanzi != [ch]
    ensures r.None? <==> forall j :: 0 <= j < |catalog| ==> catalog[j].hanzi != [ch]
  {
    if catalog == [] then None
    else if catalog[0].hanzi == [ch] then Some(0)
    else
      match FirstWithHanzi(catalog[1..], ch)
      case None => None
      case Some(i) => Some(i + 1)
  }

  /** The id the import records `ch` under (0 when it is not found, which
      is never used). */
  function ImportId(catalog: seq<Character>, ch: char): CharId {
    match FirstWithHanzi(catalog, ch)
    case None => 0
    case Some(i) => catalog[i].id
  }

  datatype Status = Imported | Failed | NotFound

  /** What happens to one kept character. */
  function Outcome(catalog: seq<Character>, ch: char, failing: set<char>): Status {
    if FirstWithHanzi(catalog, ch).None? then NotFound
    else if ch in failing then Failed
    else Imported
  }

  datatype Detail = Detail(ch: char, status: Status)

  datatype Report = Report(success: nat, failed: nat, notFound: nat, details: seq<Detail>)

  /** A request without a `characters` field is rejected with 400. */
  datatype Reply = NoCharacters | Done(report: Report)

  /** The characters of `cs` whose outcome is `s`. */
  function Among(catalog: seq<Character>, cs: set<char>, failing: set<char>, s: Status): set<char> {
    set c | c in cs && Outcome(catalog, c, failing) == s
  }

  /** The ids recorded for the characters of `cs` that were imported. */
  function IdsOf(catalog: seq<Character>, cs: set<char>, failing: set<char>): set<CharId> {
    set c | c in Among(catalog, cs, failing, Imported) :: ImportId(catalog, c)
  }

  function DetailChars(details: seq<Detail>): set<char> {
    set d | d in details :: d.ch
  }

  /** The state after recording the characters of `done` with verdict `f`:
      only the progress table changes; the new keys are exactly the
      user's records for imported characters; every other record is as it
      was; each imported character's record carries the verdict and time;
      and when ids are unique each imported character was reviewed exactly
      once. */
  ghost predicate Recorded(db: Db, user: UserId, done: set<char>, failing: set<char>, f: int, now: int, after: Db) {
    && after.catalog == db.catalog
    && after.tuning == db.tuning
    && NewKeys(db, user, IdsOf(db.catalog, done, failing), after.progress)
    && OthersKept(db, user, IdsOf(db.catalog, done, failing), after.progress)
    && VerdictsWritten(db, user, Among(db.catalog, done, failing, Imported), f, now, after.progress)
    && (UniqueIds(db.catalog) ==> ReviewedOnce(db, user, Among(db.catalog, done, failing, Imported), f, now, after.progress))
  }

  /** The keys after recording: the old ones and the user's keys for `ids`. */
  ghost predicate NewKeys(db: Db, user: UserId, ids: set<CharId>, progress: map<Key, Progress>) {
    forall k :: k in progress <==> k in db.progress || (k.user == user && k.charId in ids)
  }

  /** Every record outside the user's keys for `ids` is as it was. */
  ghost predicate OthersKept(db: Db, user: UserId, ids: set<CharId>, progress: map<Key, Progress>)
    requires NewKeys(db, user, ids, progress)
  {
    forall k :: k in db.progress && (k.user != user || k.charId !in ids) ==> progress[k] == db.progress[k]
  }

  /** Each imported character's record carries the verdict and the time. */
  ghost predicate VerdictsWritten(db: Db, user: UserId, imported: set<char>, f: int, now: int, progress: map<Key, Progress>) {
    forall c :: c in imported ==>
      && Key(user, ImportId(db.catalog, c)) in progress
      && progress[Key(user, ImportId(db.catalog, c))].familiarity == f
      && progress[Key(user, ImportId(db.catalog, c))].lastReviewed == now
  }

  /** Each imported character's record is its old record reviewed once. */
  ghost predicate ReviewedOnce(db: Db, user: UserId, imported: set<char>, f: int, now: int, progress: map<Key, Progress>) {
    forall c :: c in imported ==>
      && Key(user, ImportId(db.catalog, c)) in progress
      && progress[Key(user, ImportId(db.catalog, c))] ==
           Reviewed(Lookup(db.progress, Key(user, ImportId(db.catalog, c))), f, now)
  }

  /** Distinct glyphs found in a catalog with unique ids have distinct
      ids. */
  lemma ImportIdInjective(catalog: seq<Character>, a: char, b: char)
    requires UniqueIds(catalog)
    requires FirstWithHanzi(catalog, a).Some? && FirstWithHanzi(catalog, b).Some?
    requires a != b
    ensures ImportId(catalog, a) != ImportId(catalog, b)
  {
    var i := FirstWithHanzi(catalog, a).value;
    var j := FirstWithHanzi(catalog, b).value;
    assert catalog[i].hanzi[0] == a && catalog[j].hanzi[0] == b;
  }

  /** Recording one more imported character keeps `Recorded`. */
  lemma ImportStep(db: Db, user: UserId, done: set<char>, c: char, failing: set<char>, f: int, now: int, after: Db)
    requires c !in done && Outcome(db.catalog, c, failing) == Imported
    requires Recorded(db, user, done, failing, f, now, after)
    ensures Recorded(db, user, done + {c}, failing, f, now,
                     UpdateProgress(after, user, ImportId(db.catalog, c), f, now, false).1)
  {
    var id := ImportId(db.catalog, c);
    var next := UpdateProgress(after, user, id, f, now, false).1;
    var ids := IdsOf(db.catalog, done, failing);
    var imported := Among(db.catalog, done, failing, Imported);
    assert Among(db.catalog, done + {c}, failing, Imported) == imported + {c};
    assert IdsOf(db.catalog, done + {c}, failing) == ids + {id};
    KeysStep(db, user, ids, id, after.progress, next.progress);
    VerdictsStep(db, user, imported, c, f, now, after.progress, next.progress);
    if UniqueIds(db.catalog) {
      forall d | d in imported ensures ImportId(db.catalog, d) != id {
        ImportIdInjective(db.catalog, d, c);
      }
      assert id !in ids;
      OnceStep(db, user, ids, imported, c, f, now, after.progress, next.progress);
    }
  }

  /** Writing the user's record for `id` adds `id` to the recorded keys. */
  lemma KeysStep(db: Db, user: UserId, ids: set<CharId>, id: CharId, progress: map<Key, Progress>, next: map<Key, Progress>)
    requires NewKeys(db, user, ids, progress) && OthersKept(db, user, ids, progress)
    requires next.Keys == progress.Keys + {Key(user, id)}
    requires forall k :: k in progress && k != Key(user, id) ==> next[k] == progress[k]
    ensures NewKeys(db, user, ids + {id}, next) && OthersKept(db, user, ids + {id}, next)
  {
  }

  /** Writing the verdict for `c` keeps the verdicts already written. */
  lemma VerdictsStep(db: Db, user: UserId, imported: set<char>, c: char, f: int, now: int,
                     progress: map<Key, Progress>, next: map<Key, Progress>)
    requires VerdictsWritten(db, user, imported, f, now, progress)
    requires next.Keys == progress.Keys + {Key(user, ImportId(db.catalog, c))}
    requires forall k :: k in progress && k != Key(user, ImportId(db.catalog, c)) ==> next[k] == progress[k]
    requires next[Key(user, ImportId(db.catalog, c))].familiarity == f
    requires next[Key(user, ImportId(db.catalog, c))].lastReviewed == now
    ensures VerdictsWritten(db, user, imported + {c}, f, now, next)
  {
  }

  /** With unique ids, the record written for `c` is its first write. */
  lemma OnceStep(db: Db, user: UserId, ids: set<CharId>, imported: set<char>, c: char, f: int, now: int,
                 progress: map<Key, Progress>, next: map<Key, Progress>)
    requires NewKeys(db, user, ids, progress) && OthersKept(db, user, ids, progress)
    requires ReviewedOnce(db, user, imported, f, now, progress)
    requires ImportId(db.catalog, c) !in ids
    requires forall d :: d in imported ==> ImportId(db.catalog, d) != ImportId(db.catalog, c)
    requires next.Keys == progress.Keys + {Key(user, ImportId(db.catalog, c))}
    requires forall k :: k in progress && k != Key(user, ImportId(db.catalog, c)) ==> next[k] == progress[k]
    requires next[Key(user, ImportId(db.catalog, c))] ==
               Reviewed(Lookup(progress, Key(user, ImportId(db.catalog, c))), f, now)
    ensures ReviewedOnce(db, user, imported + {c}, f, now, next)
  {
    var key := Key(user, ImportId(db.catalog, c));
    assert Lookup(progress, key) == Lookup(db.progress, key);
  }

  /** A character whose lookup fails, or whose commit fails and is rolled
      back, leaves `Recorded` as it was. */
  lemma SkipStep(db: Db, user: UserId, done: set<char>, c: char, failing: set<char>, f: int, now: int, after: Db)
    requires c !in done && Outcome(db.catalog, c, failing) != Imported
    requires Recorded(db, user, done, failing, f, now, after)
    ensures Recorded(db, user, done + {c}, failing, f, now, after)
  {
    assert Among(db.catalog, done + {c}, failing, Imported) == Among(db.catalog, done, failing, Imported);
  }

  /** Adding `c` to the visited characters adds it to the group of its own
      outcome and to no other. */
  lemma CountStep(catalog: seq<Character>, done: set<char>, c: char, failing: set<char>)
    requires c !in done
    ensures forall s :: |Among(catalog, done + {c}, failing, s)| ==
              |Among(catalog, done, failing, s)| + (if s == Outcome(catalog, c, failing) then 1 else 0)
  {
    forall s ensures |Among(catalog, done + {c}, failing, s)| ==
                     |Among(catalog, done, failing, s)| + (if s == Outcome(catalog, c, failing) then 1 else 0)
    {
      if s == Outcome(catalog, c, failing) {
        assert Among(catalog, done + {c}, failing, s) == Among(catalog, done, failing, s) + {c};
      } else {
        assert Among(catalog, done + {c}, failing, s) == Among(catalog, done, failing, s);
      }
    }
  }

  lemma DetailCharsAppend(details: seq<Detail>, d: Detail)
    ensures DetailChars(details + [d]) == DetailChars(details) + {d.ch}
  {
    assert forall e :: e in details + [d] <==> e in details || e == d;
  }

  /** The bulk import route: a request without characters is rejected;
      otherwise the distinct kept characters of the text are recorded with
      the normalized verdict. */
  method Import(db: Db, user: UserId, characters: Option<String>, familiarity: Option<int>,
                now: int, failing: set<char>) returns (reply: Reply, after: Db)
    ensures characters.None? ==> reply == NoCharacters && after == db
    ensures characters.Some? ==> reply.Done?
    ensures characters.Some? ==>
              var kept := KeptChars(characters.value);
              && Reports(db.catalog, kept, failing, reply.report)
              && Recorded(db, user, kept, failing, NormalizeFamiliarity(familiarity), now, after)
  {
    if characters.None? {
      return NoCharacters, db;
    }
    var report;
    report, after := RecordAll(db, user, KeptChars(characters.value), NormalizeFamiliarity(familiarity), now, failing);
    return Done(report), after;
  }

  /** The report describes the visit of `kept` exactly: the three counters
      partition the characters by outcome, and the details list each
      character once with its outcome. */
  predicate Reports(catalog: seq<Character>, kept: set<char>, failing: set<char>, rep: Report) {
    && rep.success == |Among(catalog, kept, failing, Imported)|
    && rep.failed == |Among(catalog, kept, failing, Failed)|
    && rep.notFound == |Among(catalog, kept, failing, NotFound)|
    && rep.success + rep.failed + rep.notFound == |kept|
    && |rep.details| == |kept|
    && DetailChars(rep.details) == kept
    && (forall i :: 0 <= i < |rep.details| ==>
          rep.details[i].status == Outcome(catalog, rep.details[i].ch, failing))
  }

  /** The report with one more character counted under `status`. */
  function Tally(rep: Report, ch: char, status: Status): Report {
    match status
    case Imported => rep.(success := rep.success + 1, details := rep.details + [Detail(ch, status)])
    case Failed => rep.(failed := rep.failed + 1, details := rep.details + [Detail(ch, status)])
    case NotFound => rep.(notFound := rep.notFound + 1, details := rep.details + [Detail(ch, status)])
  }

  /** Counting one more character keeps the report exact. */
  lemma TallyStep(catalog: seq<Character>, done: set<char>, c: char, failing: set<char>, rep: Report)
    requires c !in done
    requires Reports(catalog, done, failing, rep)
    ensures Reports(catalog, done + {c}, failing, Tally(rep, c, Outcome(catalog, c, failing)))
  {
    var status := Outcome(catalog, c, failing);
    var next := Tally(rep, c, status);
    CountStep(catalog, done, c, failing);
    DetailCharsAppend(rep.details, Detail(c, status));
    assert next.details == rep.details + [Detail(c, status)];
    assert |done + {c}| == |done| + 1;
    DetailsStep(catalog, failing, rep.details, Detail(c, status));
  }

  lemma DetailsStep(catalog: seq<Character>, failing: set<char>, details: seq<Detail>, d: Detail)
    requires forall i :: 0 <= i < |details| ==> details[i].status == Outcome(catalog, details[i].ch, failing)
    requires d.status == Outcome(catalog, d.ch, failing)
    ensures var ds := details + [d];
            forall i :: 0 <= i < |ds| ==> ds[i].status == Outcome(catalog, ds[i].ch, failing)
  {
    var ds := details + [d];
    forall i | 0 <= i < |ds| ensures ds[i].status == Outcome(catalog, ds[i].ch, failing) {
      if i < |details| {
        assert ds[i] == details[i];
      }
    }
  }

  /** One visit of the loop: look `c` up, record it when found (a failed
      commit is rolled back), and count its outcome. */
  method Visit(db: Db, user: UserId, ghost done: set<char>, c: char, f: int, now: int, failing: set<char>,
               report: Report, after: Db) returns (report': Report, after': Db)
    requires c !in done
    requires Reports(db.catalog, done, failing, report)
    requires Recorded(db, user, done, failing, f, now, after)
    ensures Reports(db.catalog, done + {c}, failing, report')
    ensures Recorded(db, user, done + {c}, failing, f, now, after')
  {
    var status := Outcome(db.catalog, c, failing);
    TallyStep(db.catalog, done, c, failing, report);
    report' := Tally(report, c, status);
    if status == Imported {
      ImportStep(db, user, done, c, failing, f, now, after);
      var (_, next) := UpdateProgress(after, user, ImportId(db.catalog, c), f, now, false);
      after' := next;
    } else {
      SkipStep(db, user, done, c, failing, f, now, after);
      after' := after;
    }
  }

  /** Before the first visit nothing is counted and nothing recorded. */
  lemma Start(db: Db, user: UserId, f: int, now: int, failing: set<char>)
    ensures Reports(db.catalog, {}, failing, Report(0, 0, 0, []))
    ensures Recorded(db, user, {}, failing, f, now, db)
  {
    assert forall s :: Among(db.catalog, {}, failing, s) == {};
    assert IdsOf(db.catalog, {}, failing) == {};
  }

  /** The loop of the route: visits every character of `kept` once, in an
      unspecified order, and records the found ones with verdict `f`. */
  method RecordAll(db: Db, user: UserId, kept: set<char>, f: int, now: int, failing: set<char>)
    returns (report: Report, after: Db)
    ensures Reports(db.catalog, kept, failing, report)
    ensures Recorded(db, user, kept, failing, f, now, after)
  {
    var todo := kept;
    ghost var done: set<char> := {};
    report := Report(0, 0, 0, []);
    after := db;
    Start(db, user, f, now, failing);
    while todo != {}
      invariant done + todo == kept && done !! todo
      invariant Reports(db.catalog, done, failing, report)
      invariant Recorded(db, user, done, failing, f, now, after)
      decreases |todo|
    {
      ghost var some := NonEmptySet(todo);
      var c :| c in todo;
      report, after := Visit(db, user, done, c, f, now, failing, report, after);
      MoveOne(done, todo, kept, c);
      done := done + {c};
      todo := todo - {c};
    }
    assert done == kept;
  }
}
