/** Seeding the character catalog from the tab-separated frequency list
    (one character per line: rank, hanzi, frequency, cumulative frequency,
    pinyin, meaning). Two loaders read it: the one in the web application
    (run at start-up and from the seed route) and the stand-alone
    initialiser. Both load only into an empty catalog, and each line is
    parsed on its own, a bad line being skipped without affecting the
    others, with one exception: a frequency the initialiser reads as an
    infinite float aborts its whole load. The file's lines are a parameter (`None` when the file does not
    exist); new rows receive consecutive primary keys starting at
    `firstId`. */
module CatalogFile {
  import opened Wrappers
  import opened Text
  import opened Store

  /** A parsed line: the columns of a new catalog row. */
  datatype Entry = Entry(hanzi: String, pinyin: String, meaning: String, frequency: int, rank: int)

  /** Why a line contributes no row. */
  datatype LineError = TooFewFields | BadRank | BadFrequency | BlankPinyin

  // ---------------------------------------------------------------------
  // The web application's line parser
  // ---------------------------------------------------------------------

  /** The parse of a line already split into fields: rank and frequency
      must be integers, the pinyin is the first word of field 5 (an error
      when that field is blank), and the meaning is the rest of field 5
      followed by every later field, joined with single spaces and
      stripped. */
  function AppFields(parts: seq<String>): (r: Result<Entry, LineError>)
    ensures r.Err? && r.error == TooFewFields <==> |parts| < 5
    ensures r.Ok? ==> |parts| >= 5 && r.value.hanzi == parts[1]
    ensures r.Ok? ==> IsWord(r.value.pinyin) && Words(parts[4]) != [] && r.value.pinyin == Words(parts[4])[0]
    ensures r.Ok? ==> Trimmed(r.value.meaning)
    ensures r.Ok? ==>
              var tail := Join(Words(parts[4])[1..], " ");
              r.value.meaning == Strip(if |parts| > 5 then tail + " " + Join(parts[5..], " ") else tail)
    ensures r.Ok? ==> ParseInt(parts[0]) == Some(r.value.rank) && ParseInt(parts[2]) == Some(r.value.frequency)
    ensures r == Err(BadRank) <==> |parts| >= 5 && ParseInt(parts[0]).None?
    ensures r == Err(BadFrequency) <==> |parts| >= 5 && ParseInt(parts[0]).Some? && ParseInt(parts[2]).None?
    ensures r == Err(BlankPinyin) <==>
              |parts| >= 5 && ParseInt(parts[0]).Some? && ParseInt(parts[2]).Some? && Words(parts[4]) == []
  {
    if |parts| < 5 then Err(TooFewFields)
    else
      match ParseInt(parts[0])
      case None => Err(BadRank)
      case Some(rank) =>
        match ParseInt(parts[2])
        case None => Err(BadFrequency)
        case Some(frequency) =>
          var words := Words(parts[4]);
          if words == [] then Err(BlankPinyin)
          else
            var head := Join(words[1..], " ");
            var meaning := if |parts| > 5 then head + " " + Join(parts[5..], " ") else head;
            Ok(Entry(parts[1], words[0], Strip(meaning), frequency, rank))
  }

  /** `line.strip().split('\t')`, then the field parse. */
  function AppLine(line: String): Result<Entry, LineError> {
    AppFields(Split(Strip(line), '\t'))
  }

  /** The rows read from `lines`, in file order: each line is read on its
      own and contributes its row, or nothing. */
  function Collect(lines: seq<String>, read: String -> Option<Entry>): (es: seq<Entry>)
    ensures |es| <= |lines|
  {
    if lines == [] then []
    else
      (match read(lines[0]) case Some(e) => [e] case None => []) + Collect(lines[1..], read)
  }

  function AppEntry(line: String): Option<Entry> {
    match AppLine(line)
    case Ok(e) => Some(e)
    case Err(_) => None
  }

  /** The rows the application's loader adds for `lines`. */
  function AppLoad(lines: seq<String>): seq<Entry> {
    Collect(lines, AppEntry)
  }

  // ---------------------------------------------------------------------
  // The initialiser's line parser
  // ---------------------------------------------------------------------

  /** What the initialiser does with one line. */
  /** `Overflow` is a line whose frequency `int(float(...))` cannot
      convert because the float is infinite: the error is not one the
      initialiser's per-line handler catches. */
  datatype Outcome = Skipped | Rejected(why: LineError) | Overflow | Parsed(entry: Entry)

  /** Every field stripped. */
  function StripAll(parts: seq<String>): (r: seq<String>)
    ensures |r| == |parts| && forall k :: 0 <= k < |parts| ==> r[k] == Strip(parts[k])
  {
    seq(|parts|, k requires 0 <= k < |parts| => Strip(parts[k]))
  }

  /** Blank lines and the two summary lines of the list are skipped. */
  predicate IsMetadata(t: String) {
    t == [] || StartsWith(t, "Number of") || StartsWith(t, "Total number")
  }

  function LowerAscii(t: String): (r: String)
    ensures |r| == |t|
  {
    seq(|t|, k requires 0 <= k < |t| => if 'A' <= t[k] <= 'Z' then (t[k] as int + 32) as char else t[k])
  }

  /** The spellings `float()` reads as an infinity: "inf" or "infinity" in
      any case, after one optional sign. */
  predicate SpellsInfinity(t: String) {
    var u := if t != [] && (t[0] == '+' || t[0] == '-') then t[1..] else t;
    LowerAscii(u) == "inf" || LowerAscii(u) == "infinity"
  }

  /** The initialiser's parse of one line: skip the metadata lines; strip
      every tab-separated field; fewer than five fields is rejected; rank
      and frequency must be integers; the pinyin is the whole fifth field
      and the meaning the sixth, or empty when there is none. */
  function InitLine(line: String): (o: Outcome)
    ensures o.Skipped? <==> IsMetadata(Strip(line))
    ensures o.Rejected? && o.why == TooFewFields <==>
              !IsMetadata(Strip(line)) && |Split(Strip(line), '\t')| < 5
    ensures o.Parsed? ==>
              && Trimmed(o.entry.hanzi) && Trimmed(o.entry.pinyin) && Trimmed(o.entry.meaning)
              && var parts := Split(Strip(line), '\t');
                 && |parts| >= 5
                 && o.entry.pinyin == Strip(parts[4])
                 && o.entry.meaning == (if |parts| > 5 then Strip(parts[5]) else [])
                 && o.entry.hanzi == Strip(parts[1])
                 && ParseInt(Strip(parts[0])) == Some(o.entry.rank)
                 && ParseInt(Strip(parts[2])) == Some(o.entry.frequency)
    ensures var parts := Split(Strip(line), '\t');
            o.Rejected? <==>
              !IsMetadata(Strip(line))
              && (|parts| < 5 || ParseInt(Strip(parts[0])).None?
                  || (ParseInt(Strip(parts[2])).None? && !SpellsInfinity(Strip(parts[2]))))
    ensures var parts := Split(Strip(line), '\t');
            o.Overflow? <==>
              !IsMetadata(Strip(line)) && |parts| >= 5 && ParseInt(Strip(parts[0])).Some?
              && ParseInt(Strip(parts[2])).None? && SpellsInfinity(Strip(parts[2]))
  {
    var t := Strip(line);
    if IsMetadata(t) then Skipped
    else
      var parts := StripAll(Split(t, '\t'));
      if |parts| < 5 then Rejected(TooFewFields)
      else
        match ParseInt(parts[0])
        case None => Rejected(BadRank)
        case Some(rank) =>
          match ParseInt(parts[2])
          case None => if SpellsInfinity(parts[2]) then Overflow else Rejected(BadFrequency)
          case Some(frequency) =>
            Parsed(Entry(parts[1], parts[4], if |parts| > 5 then parts[5] else [], frequency, rank))
  }

  function InitEntry(line: String): Option<Entry> {
    match InitLine(line)
    case Parsed(e) => Some(e)
    case _ => None
  }

  /** The rows the initialiser collects from `lines`. */
  function InitLoad(lines: seq<String>): seq<Entry> {
    Collect(lines, InitEntry)
  }

  /** Some line's frequency overflows, which ends the read of the file
      and the whole initialisation. */
  predicate InitAborts(lines: seq<String>) {
    exists line :: line in lines && InitLine(line).Overflow?
  }

  // ---------------------------------------------------------------------
  // Seeding the catalog
  // ---------------------------------------------------------------------

  /** The new catalog rows, with consecutive primary keys from `firstId`. */
  function Assign(es: seq<Entry>, firstId: CharId): (cs: seq<Character>)
    ensures |cs| == |es|
    ensures forall k :: 0 <= k < |es| ==>
              cs[k] == Character(firstId + k, es[k].hanzi, es[k].pinyin, es[k].meaning, es[k].frequency, es[k].rank)
  {
    seq(|es|, k requires 0 <= k < |es| =>
      Character(firstId + k, es[k].hanzi, es[k].pinyin, es[k].meaning, es[k].frequency, es[k].rank))
  }

  /** `init_db`: nothing happens when the catalog already has characters,
      when the file is missing, when a frequency overflows, when no line
      parses, or when the final commit raises; otherwise every parsed line
      becomes a row. */
  function InitDb(catalog: seq<Character>, file: Option<seq<String>>, firstId: CharId, commitFails: bool): (r: seq<Character>)
    ensures |catalog| > 0 || file.None? ==> r == catalog
    ensures file.Some? && InitAborts(file.value) ==> r == catalog
    ensures commitFails ==> r == catalog
    ensures file.Some? && catalog == [] && !InitAborts(file.value) && !commitFails ==>
              r == Assign(InitLoad(file.value), firstId)
    ensures UniqueIds(catalog) ==> UniqueIds(r)
  {
    if |catalog| > 0 || file.None? || InitAborts(file.value) then catalog
    else
      var es := InitLoad(file.value);
      if es == [] || commitFails then catalog else Assign(es, firstId)
  }

  /** Running the initialiser a second time changes nothing. */
  lemma InitDbIdempotent(catalog: seq<Character>, file: Option<seq<String>>, firstId: CharId, commitFails: bool)
    ensures var once := InitDb(catalog, file, firstId, commitFails);
            InitDb(once, file, firstId, commitFails) == once
  {
  }

  /** The seed route's reply. */
  datatype SeedReply = AlreadyLoaded(count: nat) | FileMissing | ServerError | Loaded(count: nat)

  /** The application's loader (the seed route, and the same block at
      start-up): a non-empty catalog is left alone, a missing file is a
      404, and otherwise every line that parses is added and counted; a
      failed commit rolls back. */
  function Seed(catalog: seq<Character>, file: Option<seq<String>>, firstId: CharId, commitFails: bool): (r: (SeedReply, seq<Character>))
    ensures r.0.AlreadyLoaded? <==> |catalog| > 0
    ensures r.0.AlreadyLoaded? ==> r.0.count == |catalog|
    ensures r.0 == FileMissing <==> catalog == [] && file.None?
    ensures !r.0.Loaded? ==> r.1 == catalog
    ensures r.0.Loaded? <==> catalog == [] && file.Some? && !commitFails
    ensures r.0.Loaded? ==> r.1 == Assign(AppLoad(file.value), firstId) && r.0.count == |r.1|
  {
    if |catalog| > 0 then (AlreadyLoaded(|catalog|), catalog)
    else if file.None? then (FileMissing, catalog)
    else if commitFails then (ServerError, catalog)
    else
      var es := AppLoad(file.value);
      (Loaded(|es|), Assign(es, firstId))
  }

  // ---------------------------------------------------------------------
  // Properties of the loaders
  // ---------------------------------------------------------------------

  /** Lines are loaded independently: loading two parts of a file is
      loading each part. */
  lemma {:induction false} CollectAppend(a: seq<String>, b: seq<String>, read: String -> Option<Entry>)
    ensures Collect(a + b, read) == Collect(a, read) + Collect(b, read)
  {
    if a == [] {
      assert a + b == b;
    } else {
      assert (a + b)[0] == a[0] && (a + b)[1..] == a[1..] + b;
      CollectAppend(a[1..], b, read);
    }
  }

  /** A line that yields no row adds nothing, wherever it stands, and the
      lines around it load as they would without it. */
  lemma CollectSkips(a: seq<String>, line: String, b: seq<String>, read: String -> Option<Entry>)
    requires read(line).None?
    ensures Collect(a + [line] + b, read) == Collect(a, read) + Collect(b, read)
  {
    var one := [line];
    assert one[0] == line && one[1..] == [];
    assert Collect(one, read) == [];
    CollectAppend(a + one, b, read);
    CollectAppend(a, one, read);
    assert Collect(a, read) + [] == Collect(a, read);
  }

  /** The initialiser skips the summary lines and any line that fails to
      parse, and loads the rest; a line whose frequency overflows aborts
      the whole load instead. */
  lemma InitBadLine(a: seq<String>, line: String, b: seq<String>)
    requires !InitLine(line).Parsed?
    ensures InitLoad(a + [line] + b) == InitLoad(a) + InitLoad(b)
    ensures InitAborts(a + [line] + b) <==> InitLine(line).Overflow? || InitAborts(a) || InitAborts(b)
  {
    CollectSkips(a, line, b, InitEntry);
    var all := a + [line] + b;
    assert forall x :: x in all <==> x in a || x == line || x in b;
  }

  /** A tab-joined line of trimmed fields whose rank parses and whose
      frequency spells an infinity overflows. */
  lemma OverflowLine(parts: seq<String>)
    requires |parts| >= 5 && forall k :: 0 <= k < |parts| ==> '\t' !in parts[k] && Trimmed(parts[k])
    requires parts[0] != [] && IsAsciiDigit(parts[0][0]) && parts[|parts| - 1] != []
    requires ParseInt(parts[0]).Some? && ParseInt(parts[2]).None? && SpellsInfinity(parts[2])
    ensures InitLine(Join(parts, "\t")).Overflow?
  {
    var line := Join(parts, "\t");
    JoinFirst(parts, "\t");
    JoinLast(parts, "\t");
    StripTrimmed(line);
    SplitJoin(parts, '\t');
    StripTrimmed(parts[0]);
    StripTrimmed(parts[2]);
    NotMetadata(line);
  }

  /** The fields of a line whose frequency is "inf". */
  const InfFields: seq<String> := ["2", "\U{4E00}", "inf", "0", "yi1"]

  /** The fields of that line meet the premises of `OverflowLine`. */
  lemma InfFieldsShape()
    ensures var parts := InfFields;
            && |parts| >= 5 && (forall k :: 0 <= k < |parts| ==> '\t' !in parts[k] && Trimmed(parts[k]))
            && parts[0] != [] && IsAsciiDigit(parts[0][0]) && parts[|parts| - 1] != []
            && ParseInt(parts[0]).Some? && ParseInt(parts[2]).None? && SpellsInfinity(parts[2])
  {
    assert LowerAscii("inf") == "inf";
    StripTrimmed("inf");
    StripTrimmed("2");
  }

  /** A frequency of "inf" after a well-formed rank overflows. */
  lemma InfiniteFrequency()
    ensures InitLine(Join(InfFields, "\t")).Overflow?
  {
    InfFieldsShape();
    OverflowLine(InfFields);
  }

  /** Such a line ends the whole initialisation: the lines around it are
      not loaded either. */
  lemma InfiniteFrequencyAborts(catalog: seq<Character>, before: seq<String>, after: seq<String>,
                                firstId: CharId, commitFails: bool)
    ensures InitDb(catalog, Some(before + [Join(InfFields, "\t")] + after), firstId, commitFails) == catalog
  {
    var line := Join(InfFields, "\t");
    InfiniteFrequency();
    assert line in before + [line] + after;
  }

  /** The application's loader skips any line that fails to parse. */
  lemma AppBadLine(a: seq<String>, line: String, b: seq<String>)
    requires AppLine(line).Err?
    ensures AppLoad(a + [line] + b) == AppLoad(a) + AppLoad(b)
  {
    CollectSkips(a, line, b, AppEntry);
  }

  /** Freshly assigned keys are distinct. */
  lemma AssignUnique(es: seq<Entry>, firstId: CharId)
    ensures UniqueIds(Assign(es, firstId))
  {
  }

  // ---------------------------------------------------------------------
  // Writing a line and reading it back
  // ---------------------------------------------------------------------

  /** An entry the list format can carry: no field holds a tab, the
      pinyin is one word, and the meaning is non-empty text without
      surrounding whitespace. */
  predicate Writable(e: Entry, cumulative: String) {
    && '\t' !in e.hanzi && Trimmed(e.hanzi)
    && IsWord(e.pinyin)
    && e.meaning != [] && '\t' !in e.meaning && Trimmed(e.meaning)
    && '\t' !in cumulative && Trimmed(cumulative)
  }

  /** The six fields of an entry's line. */
  function Fields(e: Entry, cumulative: String): (parts: seq<String>)
    ensures |parts| == 6
  {
    [ShowInt(e.rank), e.hanzi, ShowInt(e.frequency), cumulative, e.pinyin, e.meaning]
  }

  /** The list line for an entry. */
  function Format(e: Entry, cumulative: String): String {
    Join(Fields(e, cumulative), "\t")
  }

  /** A rendered integer is a trimmed field without tabs that starts with
      a digit or a minus sign. */
  lemma ShowIntField(n: int)
    ensures ShowInt(n) != [] && Trimmed(ShowInt(n)) && '\t' !in ShowInt(n)
    ensures ShowInt(n)[0] == '-' || IsAsciiDigit(ShowInt(n)[0])
  {
    var s := ShowInt(n);
    if n < 0 {
      var d := ShowNat(-n);
      assert s == "-" + d;
      assert s[|s| - 1] == d[|d| - 1];
      assert forall k :: 0 < k < |s| ==> s[k] == d[k - 1];
    }
  }

  /** The line of a writable entry is already stripped and splits back
      into its six fields. */
  lemma FormatSplits(e: Entry, cumulative: String)
    requires Writable(e, cumulative)
    ensures Strip(Format(e, cumulative)) == Format(e, cumulative)
    ensures Split(Format(e, cumulative), '\t') == Fields(e, cumulative)
    ensures Format(e, cumulative)[0] == ShowInt(e.rank)[0]
  {
    var parts := Fields(e, cumulative);
    var line := Format(e, cumulative);
    ShowIntField(e.rank);
    ShowIntField(e.frequency);
    assert forall k :: 0 <= k < |e.pinyin| ==> e.pinyin[k] != '\t';
    assert '\t' !in e.pinyin;
    JoinFirst(parts, "\t");
    JoinLast(parts, "\t");
    StripTrimmed(line);
    SplitJoin(parts, '\t');
  }

  /** The meaning field of a six-field line, as the application
      assembles it. */
  lemma AppMeaning(pinyin: String, meaning: String)
    requires IsWord(pinyin) && Trimmed(meaning)
    ensures Words(pinyin) == [pinyin]
    ensures Strip(Join(Words(pinyin)[1..], " ") + " " + Join([meaning], " ")) == meaning
  {
    WordsOfWord(pinyin, []);
    assert pinyin + [] == pinyin;
    assert Join([pinyin][1..], " ") == [];
    assert [] + " " + meaning == " " + meaning;
    StripSpacePrefix(meaning);
  }

  /** The application's field parse gives a writable entry back. */
  lemma AppFieldsOf(e: Entry, cumulative: String)
    requires Writable(e, cumulative)
    ensures AppFields(Fields(e, cumulative)) == Ok(e)
  {
    var parts := Fields(e, cumulative);
    ParseShowInt(e.rank);
    ParseShowInt(e.frequency);
    AppMeaning(e.pinyin, e.meaning);
    assert parts[5..] == [e.meaning];
  }

  /** The application reads a written line back as the same entry. */
  lemma AppReadsFormat(e: Entry, cumulative: String)
    requires Writable(e, cumulative)
    ensures AppLine(Format(e, cumulative)) == Ok(e)
  {
    FormatSplits(e, cumulative);
    AppFieldsOf(e, cumulative);
  }

  /** A line starting with a digit or a minus sign is not a summary
      line. */
  lemma NotMetadata(line: String)
    requires line != [] && (line[0] == '-' || IsAsciiDigit(line[0]))
    ensures !IsMetadata(line)
  {
  }

  /** Stripping fields that are already stripped changes nothing. */
  lemma StripAllTrimmed(parts: seq<String>)
    requires forall k :: 0 <= k < |parts| ==> Trimmed(parts[k])
    ensures StripAll(parts) == parts
  {
    forall k | 0 <= k < |parts| ensures StripAll(parts)[k] == parts[k] {
      StripTrimmed(parts[k]);
    }
  }

  /** The fields of a writable entry are already stripped. */
  lemma FieldsTrimmed(e: Entry, cumulative: String)
    requires Writable(e, cumulative)
    ensures StripAll(Fields(e, cumulative)) == Fields(e, cumulative)
  {
    var parts := Fields(e, cumulative);
    ShowIntField(e.rank);
    ShowIntField(e.frequency);
    assert !IsSpace(e.pinyin[0]) && !IsSpace(e.pinyin[|e.pinyin| - 1]);
    assert forall k :: 0 <= k < 6 ==> Trimmed(parts[k]);
    StripAllTrimmed(parts);
  }

  /** The initialiser reads a written line back as the same entry. */
  lemma InitReadsFormat(e: Entry, cumulative: String)
    requires Writable(e, cumulative)
    ensures InitLine(Format(e, cumulative)) == Parsed(e)
  {
    var line := Format(e, cumulative);
    FormatSplits(e, cumulative);
    ShowIntField(e.rank);
    NotMetadata(line);
    FieldsTrimmed(e, cumulative);
    ParseShowInt(e.rank);
    ParseShowInt(e.frequency);
  }

  /** A list file holding one line per entry. */
  function FileOf(es: seq<Entry>, cumulative: String): (lines: seq<String>)
    ensures |lines| == |es| && forall k :: 0 <= k < |es| ==> lines[k] == Format(es[k], cumulative)
  {
    seq(|es|, k requires 0 <= k < |es| => Format(es[k], cumulative))
  }

  /** A file whose every line reads as a row loads exactly those rows. */
  lemma {:induction false} CollectAll(lines: seq<String>, read: String -> Option<Entry>, es: seq<Entry>)
    requires |lines| == |es| && forall k :: 0 <= k < |lines| ==> read(lines[k]) == Some(es[k])
    ensures Collect(lines, read) == es
  {
    if lines != [] {
      CollectAll(lines[1..], read, es[1..]);
      assert es == [es[0]] + es[1..];
    }
  }

  /** Both loaders read a written list back as the entries it was written
      from, in order. */
  lemma LoadsWhatWasWritten(es: seq<Entry>, cumulative: String)
    requires forall k :: 0 <= k < |es| ==> Writable(es[k], cumulative)
    ensures AppLoad(FileOf(es, cumulative)) == es
    ensures InitLoad(FileOf(es, cumulative)) == es
    ensures !InitAborts(FileOf(es, cumulative))
  {
    var lines := FileOf(es, cumulative);
    forall k | 0 <= k < |es| ensures AppEntry(lines[k]) == Some(es[k]) && InitEntry(lines[k]) == Some(es[k]) {
      AppReadsFormat(es[k], cumulative);
      InitReadsFormat(es[k], cumulative);
    }
    CollectAll(lines, AppEntry, es);
    CollectAll(lines, InitEntry, es);
  }
}
