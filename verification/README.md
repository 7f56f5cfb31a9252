# ChinChar review engine, in Dafny

ChinChar is a flashcard trainer for Chinese characters. A user is shown one
character at a time and answers "don't know", "unsure" or "know". This project
models the parts of the trainer that decide and record what happens, and
proves properties of them:

- **The selector** (`get_next_character`) picks the next character for a user.
  It applies its rules in order:
  - an empty catalog yields nothing;
  - while fewer than 20 characters have been reviewed, a cold-start window
    (the best 20 of the 200 lowest ranks) is used, unreviewed characters first;
  - a 10% recall of a known character;
  - the main window: the best 100 by `(rank + penalty, rank)` among the 300
    lowest-rank characters the user does not know;
  - when every character is known, the lowest-rank character.

  The last character shown is avoided whenever the branch has another
  candidate. Modules: `Selector`, `SelectorProperties`, `Ordering`.
- **Progress recording** (`update_progress` and `POST /api/progress`). Each
  (user, character) record counts reviews per verdict; a failed commit rolls
  back. Module `Reviews`.
- **Demotion** (`POST /api/character/demote`) adds 50 to a per-user rank
  penalty, which the selector adds to the rank when it orders candidates.
  Module `Tuning`.
- **Bulk import** (`POST /api/bulk-import`) marks every distinct kept
  character of a pasted text as reviewed and reports counters.
  Module `BulkImport`.
- **Pinyin formatting**:
  - the server's `_numbered_to_tonemarks` and `_is_chinese_token` (module
    `ToneMarks`);
  - the browser's `convertPinyinToToneMarks` (module `ClientToneMarks`);
  - the tone-mark table both share (module `Pinyin`).
- **The grammar-chunk parser**, which reads `CHUNK:` / `EXPLANATION:` replies
  into sentence/explanation pairs. Module `GrammarChunks`.
- **The catalog-file loaders**: the tab-separated `characters.txt` reader of
  the application (start-up and the seeding route) and of `init_db`. Module
  `CatalogFile`.

The database tables are immutable values (`Store.Db`): the catalog is a
sequence of `Character`, and the progress and tuning tables are maps keyed by
(user, character). A commit that succeeds yields a new `Db`; a rollback yields
the old one. Python's string operations (`strip`, `split`, `join`, `int`) are
modelled in `Text`.

Inputs the code takes from its environment are parameters:

| source behaviour | parameter |
|---|---|
| `random.random() < 0.1` | `showKnown: bool` |
| `random.choice(pool)` | `draw: nat`, which picks `pool[draw % |pool|]`; every candidate is reachable (`SelectorProperties.DrawReachesEveryCandidate`) |
| `datetime.utcnow()` | `now: int` |
| a commit that raises | `commitFails: bool`, or the set `failing` for bulk import |
| the presence and contents of `characters.txt` | `Option<seq<String>>` of its lines |
| autoincrement ids | `firstId`, `firstId + 1`, ... |

Where the code and its comments disagree, the model follows the code:
- The draw is uniform, as `random.choice` makes it; nothing weights it.
- The recall probability is the literal `0.1` of the code, not the docstring's
  "about 1 in 20".

## Model

| member | source | states |
|---|---|---|
| Selector.NextCharacter | models.py:80-183 | The selector returns nothing exactly when the catalog is empty; otherwise it returns a catalog character, whatever the user's state and the draws. |
| Selector.PlanFor | models.py:86-178 | The branch order yields "no characters" only for an empty catalog; every other plan is a non-empty pool of catalog characters. |
| Selector.LastShown | models.py:109-114 | The last shown character is absent exactly when the user has no progress record; otherwise it is a reviewed character whose review time is the latest. |
| Selector.ColdStart | models.py:116-137 | Taken only below 20 reviewed characters. The first pool is exactly the catalog rows of the window's unreviewed characters other than the last shown one. The second pool, used only when the first is empty, is the window's reviewed characters not yet known, other than the last shown one. Falling through means both are empty. |
| Selector.Recall | models.py:139-151 | Taken only when the 10% draw succeeds. The pool holds only known catalog characters, and holds the last shown one only when it is the only known character. If every known id is a catalog id, falling through with the draw succeeding means no character is known. |
| Selector.MainOrExhaustion | models.py:153-178 | The main pool lies in the best-100 window and holds no known character. It holds the last shown one only when the whole window is that character. The exhaustion branch is taken exactly when every catalog character is known, and returns a single character of lowest rank. |
| Store.RankPenalties | models.py:76-78 | The penalty map holds exactly the user's tuning rows, each with its stored penalty. |
| Store.UserProgress | models.py:94-97 | The familiarity map holds exactly the user's progress rows, each with its record. |
| Ordering.Sort | models.py:119 | The sorted list is ordered by `(rank + penalty, rank)` and is a permutation of its input. |
| Ordering.Best | models.py:165-166 | Keeping the first k after sorting keeps min(k, n) elements of the input, in key order, and every kept element's key is at most every dropped element's key. |
| Ordering.Lowest | models.py:161-163 | `ORDER BY rank LIMIT k` keeps min(k, n) elements of the input, in rank order, and every kept rank is at most every dropped rank. |
| Selector.LowestFirst | models.py:178 | The first row of the rank-ordered query is a catalog character with the lowest rank of all. |
| Selector.MainTopInCatalog | models.py:156-166 | The main window holds only catalog characters the user does not know, and is empty exactly when every character is known. |
| SelectorProperties.DrawReachesEveryCandidate | models.py:175 | Every member of a pool is returned by some draw. |
| SelectorProperties.ColdStartTaken | models.py:116-135 | Below 20 reviews, with a window character other than the last shown one that is unreviewed or not yet known, the cold-start branch is taken. |
| SelectorProperties.ColdStartInWindow | models.py:118-135 | Every cold-start candidate is a window character, is not the last shown one, and is not known. |
| SelectorProperties.ColdStartPrefersUnreviewed | models.py:123-128 | While the window has an unreviewed candidate other than the last shown one, only unreviewed characters are candidates. |
| SelectorProperties.ColdStartChoice | models.py:116-135 | For the character actually returned: it lies in the cold-start window, is not the last shown one and is not known. It is unreviewed whenever an unreviewed candidate exists. |
| SelectorProperties.NoProgressPicksFromWindow | models.py:117-128 | A user with no progress records gets one of the 20 window characters. |
| SelectorProperties.WindowHasLowestRanks | models.py:118-120 | Without penalties, no character left out of the cold-start window has a lower rank than one kept in it. |
| SelectorProperties.RecallChoice | models.py:142-151 | A recalled character is known. It is the last shown one only when it is the user's sole known character. |
| SelectorProperties.RecallTaken | models.py:139-151 | After the cold start, a successful 10% draw with a known character always takes the recall branch, provided every known id is a catalog id. A progress row for an id missing from the catalog can make the recall pool empty and fall through. |
| SelectorProperties.MainTaken | models.py:139-175 | After the cold start, when the 10% draw fails or nothing is known, and some character is unknown, the main branch is taken. |
| SelectorProperties.MainChoice | models.py:153-175 | A main-branch result lies in the window and is not known. It is the last shown character only if every window character is. |
| SelectorProperties.MainWindowShape | models.py:156-166 | The main window has at most 100 characters and none is known. Each kept key is at most every dropped key within the 300-character pool. The pool's ranks are at most those of the unknown characters beyond it. |
| SelectorProperties.ExhaustionChoice | models.py:177-178 | The exhaustion result occurs only when every character is known, and it has the lowest rank in the catalog. |
| SelectorProperties.ExhaustionTaken | models.py:153-178 | After the cold start, when the 10% draw fails and every catalog character is known, the exhaustion branch is taken. |
| SelectorProperties.NoRecallNoKnown | models.py:139-175 | After the cold start, when the 10% draw fails and an unknown character exists, the result is never a known character. |
| Reviews.Reviewed | models.py:199-232 | A review sets the verdict and the time. A new record counts one review; an old one gains one. Valid verdicts keep the counters summing to the review count. A new record with an invalid verdict breaks that sum. |
| Reviews.UpdateProgress | models.py:185-239 | The call succeeds exactly when the commit does. A failure leaves every table as it was. Success writes the (user, character) record and changes no other record or table. |
| Reviews.FirstReview | models.py:201-219 | A first review creates a record with review count 1, familiarity f, and a count of 1 under f only. |
| Reviews.LaterReview | models.py:220-232 | A later review sets the familiarity and time and adds one to the review count and to f's counter only. |
| Reviews.History | models.py:185-239 | After reviews f1..fN of a new character, the review count is N. Each counter is the number of verdicts equal to it. The familiarity and time are those of fN. Counters sum to the review count. Every other record is unchanged. |
| Reviews.ReviewKeepsCounters | models.py:197-235 | A review with a verdict in {0, 1, 2}, whether committed or rolled back, keeps every record's counters summing to its review count. |
| Reviews.UncheckedVerdict | models.py:212-217 | `update_progress` does not check the verdict: a first review with verdict 3 leaves counters that do not sum to the review count. |
| Reviews.RecordReview | app.py:566-614 | The route rejects with 400 exactly a missing or zero character id, a missing familiarity, or one outside {0, 1, 2}. It records only valid requests. Any response other than "recorded" leaves the tables unchanged. |
| Reviews.RouteKeepsCounters | app.py:584-609 | Whatever the request, the route keeps every record's counters summing to its review count. |
| Tuning.FindById | app.py:544-546 | The lookup by primary key finds a catalog row with that id, and finds none exactly when no row has it. |
| Tuning.Demote | app.py:531-564 | Responses: 400 exactly for a missing or zero id; 404 exactly for an unknown id; success exactly when the commit succeeds. Any response other than success leaves every table unchanged, so a 404 creates no row. Success sets the penalty to the old one (0 if absent) plus 50, touching no other row. |
| Tuning.DemoteTwice | app.py:548-560 | Two successful demotes add exactly 100 to the penalty. |
| Tuning.DemoteRaisesEffectiveRank | app.py:557 | After a demote, the character's effective rank for that user is 50 higher. Other characters' ranks and other users' penalties are unchanged. |
| Tuning.DemoteNeverLowers | app.py:548-560 | No request lowers any penalty, and penalties stay non-negative. |
| BulkImport.NormalizeFamiliarity | app.py:628-631 | The recorded verdict is the requested one when it is 0, 1 or 2, and "know" otherwise. |
| BulkImport.FirstWithHanzi | app.py:655 | The lookup finds the first catalog row whose glyph is the character, and finds none exactly when no row has that glyph. |
| BulkImport.Import | app.py:616-688 | A request without characters is rejected and changes nothing. Otherwise the report counts the distinct kept characters by outcome, and the counters sum to their number. Each character is listed once in the details. Found ones are recorded with the normalized verdict; nothing else changes. |
| BulkImport.RecordAll | app.py:653-679 | Visiting every distinct kept character once gives an exact report. Each found character is recorded once with verdict and time, failed commits are rolled back, and no other record changes. |
| BulkImport.Visit | app.py:653-679 | One character's visit extends both the report and the record set by exactly that character. |
| BulkImport.CountStep | app.py:657-679 | A visited character adds one to the counter of its own outcome and to no other. |
| ToneMarks.ConvertSyllableMarks | app.py:27-41 | Removing the marks gives back the lower-cased letters, and every mark is of the syllable's tone. Tones 0 and 5, and syllables without a vowel, come back lower-cased and unmarked. A syllable with a vowel gets a mark for tones 1-4. |
| ToneMarks.MarkPlacement | app.py:32-41 | For tones 1-4 the mark lands on every 'a'; failing that on every 'e'; failing that, when "ou" occurs, on every 'o'; otherwise on the last vowel. Every other letter is left lower-cased. |
| ToneMarks.LastToneVowel | app.py:37-40 | The backward scan finds a vowel with no vowel after it, and finds none exactly when the syllable has no vowel. |
| ToneMarks.SubstituteSyllable | app.py:43 | A letter run followed by a tone digit is replaced by its converted syllable, and the digit is consumed. |
| ToneMarks.SubstituteNoDigit | app.py:43 | Text in which no digit 0-5 directly follows a letter passes through unchanged, digits included. |
| ToneMarks.NoSyllablePassesThrough | app.py:42-43 | For such text the whole conversion only respells 'v' as 'ü'. |
| ToneMarks.ClockTimePassesThrough | app.py:42-43 | A clock time such as "12:30" comes back unchanged. |
| ToneMarks.SubstituteAppend | app.py:43 | Text that ends in a non-letter converts independently of what follows it. |
| ToneMarks.SubstituteSeparator | app.py:43 | A trailing character that is neither a letter nor a tone digit is copied unchanged. |
| ToneMarks.SpaceSeparated | app.py:42-43 | Text joined by a space converts piece by piece. |
| ToneMarks.ToneMarksSyllable | app.py:42-43 | One numbered syllable converts as its letters with 'v' read as 'ü'. |
| ToneMarks.BeijingExample | app.py:22 | The converter's own example "bei3 jing1" gives "běi jīng". |
| ToneMarks.ChineseTokenAppend | app.py:45-46 | A concatenation contains a CJK ideograph exactly when one of its parts does. |
| Pinyin.MarkedInverse | static/js/app.js:304-311 | The tone-mark table is one-to-one: a marked vowel determines its vowel and its tone. |
| ClientToneMarks.FinalSyllable | static/js/app.js:317-321 | A word matches exactly when it ends in a letter followed by a tone digit 1-5. The match is the maximal letter run before that digit. |
| ClientToneMarks.MarkIndex | static/js/app.js:325-345 | The marked vowel is a vowel of the priority list found in the syllable. There is none exactly when the syllable has no vowel of the list. |
| ClientToneMarks.FirstByPriority | static/js/app.js:337-345 | The first vowel of the priority order present in the syllable is chosen, at its first occurrence. |
| ClientToneMarks.MarkRule | static/js/app.js:329-346 | With "iu" the mark goes on the last 'u'. Otherwise, with "ui", it goes on the last 'i'. Otherwise it goes on the first occurrence of the first priority vowel present. |
| ClientToneMarks.ToneChar | static/js/app.js:304-311 | The replacement has the vowel's base ('v' read as 'ü') and the tone; tone 5 is unmarked. |
| ClientToneMarks.MarkSyllable | static/js/app.js:352-353 | Exactly the chosen position is replaced by the toned vowel; every other character is kept. |
| ClientToneMarks.ConvertWord | static/js/app.js:315-353 | A word without a plan is unchanged. Otherwise only the chosen vowel changes and the tone digit is dropped; the text before the syllable is kept. |
| ClientToneMarks.ConvertWordAsWritten | static/js/app.js:315-353 | As written: a word without a plan is returned unchanged. Otherwise the result is as long as the matched syllable, which is the word minus the text before the match and the digit. |
| ClientToneMarks.ConvertWordAsWrittenNoSpace | static/js/app.js:315-353 | The word converter as written introduces no space into a word without one. |
| ClientToneMarks.ConvertPinyinAsWrittenWordwise | static/js/app.js:301-354 | The formatter as written also works word by word. Splitting its output on spaces gives each input word converted as written, one for one. |
| ClientToneMarks.AsWrittenDropsPrefix | static/js/app.js:317-353 | The function as written returns only the marked final syllable, losing everything before it. |
| ClientToneMarks.AsWrittenAgreesOnSyllables | static/js/app.js:317-353 | When the match covers the whole word, the function as written and the corrected one agree. |
| ClientToneMarks.NiHaoCounterexample | static/js/app.js:317-353 | For "ni3hao3" the function as written gives "hǎo" and the corrected one gives "ni3hǎo". |
| ClientToneMarks.ConvertWordNoSpace | static/js/app.js:315-353 | Converting a word without spaces introduces none. |
| ClientToneMarks.ConvertPinyinWordwise | static/js/app.js:301-354 | For the corrected formatter: splitting the output on spaces gives the converted input words one for one, so the word count is kept. |
| GrammarChunks.Classify | app.py:1201-1215 | A line is blank exactly when it strips to nothing. It opens a chunk exactly when its stripped form starts with `CHUNK:`. It starts an explanation exactly when it does not and starts with `EXPLANATION:`. Otherwise it continues, with its stripped text. |
| GrammarChunks.Lex | app.py:1200-1201 | Lexing gives one classified line per newline-separated line of the reply. |
| GrammarChunks.Close | app.py:1205 | An emitted chunk has both parts stripped, and a missing explanation becomes the empty string. |
| GrammarChunks.StepPending | app.py:1202-1215 | One line keeps the parser consistent. It adds one pending chunk exactly for a `CHUNK:` line and never rewrites chunks already emitted. |
| GrammarChunks.RunPending | app.py:1200-1215 | Over any lines, the pending chunks grow by exactly the number of `CHUNK:` lines, and emitted chunks are only appended to. |
| GrammarChunks.ChunkCount | app.py:1200-1219 | The parser emits exactly one chunk per `CHUNK:` line. |
| GrammarChunks.Preamble | app.py:1200-1215 | Everything before the first `CHUNK:` line is discarded. |
| GrammarChunks.ChunkBlock | app.py:1202-1215 | A `CHUNK:` line closes the previous chunk. Its continuation lines are glued to it with no separator. |
| GrammarChunks.ExplanationBlock | app.py:1209-1213 | An `EXPLANATION:` line starts an explanation. Its continuation lines are joined with newlines. |
| GrammarChunks.NoExplanation | app.py:1217-1219 | A chunk without an `EXPLANATION:` line gets the empty explanation. |
| GrammarChunks.LaterExplanation | app.py:1209-1211 | A later `EXPLANATION:` line replaces an earlier one. |
| GrammarChunks.RoundTrip | app.py:1194-1219 | Writing chunks as `CHUNK:`/`EXPLANATION:` line pairs and parsing them back gives the same chunks. This holds for stripped, single-line sentences and explanations. |
| CatalogFile.AppFields | app.py:1448-1476 | A line with fewer than 5 fields is rejected, and only such lines get that error. An accepted line's rank and frequency parse, and its hanzi is field 2. Its pinyin is the first word of field 5. Its meaning is the rest of field 5 and the later fields, joined by spaces and stripped. A bad rank, then a bad frequency, then a blank field 5 are rejected, each with its own error, exactly when the earlier checks pass. |
| CatalogFile.AppReadsFormat | app.py:1448-1461 | The application's parser reads a written catalog line back as the entry it came from. |
| CatalogFile.AppBadLine | app.py:1449-1476 | A rejected line contributes nothing, and the lines around it still load in order. |
| CatalogFile.Seed | app.py:1339-1371 | The seeding route reports "already loaded" with the count exactly when the catalog is non-empty. It reports "file missing" exactly when the catalog is empty and there is no file. It loads exactly when the catalog is empty, the file exists and the commit succeeds. Otherwise the catalog is unchanged. |
| CatalogFile.InitLine | init_db.py:28-56 | Empty lines and those starting "Number of" or "Total number" are skipped, and only those. Any other line is rejected exactly when it has fewer than 5 fields, its rank does not parse, or its frequency neither parses nor spells an infinity. A frequency of "inf" or "infinity" (any case, optional sign) after a good rank is an overflow instead. A parsed entry has the trimmed hanzi, the parsed rank and frequency, the whole 5th field as pinyin, and the 6th field or the empty string as meaning. |
| CatalogFile.InitReadsFormat | init_db.py:30-52 | The `init_db` parser reads a written catalog line back as the entry it came from. |
| CatalogFile.InitBadLine | init_db.py:26-59 | A skipped or rejected line contributes nothing, and the lines around it still load in file order. The file aborts exactly when the line overflows or a line around it does. |
| CatalogFile.OverflowLine | init_db.py:42-53 | A well-formed line whose rank parses and whose frequency spells an infinity is an overflow, not a rejected line. |
| CatalogFile.InfiniteFrequencyAborts | init_db.py:46-59 | A line whose frequency is "inf" ends the whole initialisation: whatever lines surround it, the catalog is left as it was. |
| CatalogFile.InitDb | init_db.py:11-71 | A non-empty catalog, a missing file, an overflowing frequency anywhere in the file, or a failing commit leaves the catalog as it was. Otherwise an empty catalog gets the loaded entries with consecutive ids. Ids stay unique. |
| CatalogFile.InitDbIdempotent | init_db.py:12-14 | Running the initialiser twice gives the same catalog as running it once, whether or not the commit fails. |
| CatalogFile.AssignUnique | init_db.py:66-71 | Newly added rows get distinct ids. |
| CatalogFile.LoadsWhatWasWritten | init_db.py:28-68 | A file of written catalog lines is read back by both loaders as the same entries in the same order, and never aborts the initialiser. |
| Text.ParseShowInt | init_db.py:44 | Reading back an integer's decimal form gives the integer. |

## Left out

- Flask routing, login and OAuth, sessions, templates and the debug routes are
  request plumbing. Only the checks of the modelled routes are kept.
- SQL queries, commits and table creation are modelled by sequences and maps.
  A commit exception is a parameter, and a rollback means "tables unchanged".
- `get_next_character`'s exception fallback (a random character,
  models.py:180-183) is not modelled. The modelled code raises nothing once
  the tables are values.
- The random draws are parameters, not a model of the generator.
  `Selector.NextCharacter` states membership in the pool, not a probability.
- Rows of the progress table reviewed at the same instant are ordered
  arbitrarily by the database. `Selector.LastShown` takes the smallest id
  among them, and its contract holds for any choice.
- Rank ties in `ORDER BY rank` and key ties in the sort are broken by catalog
  order. The database promises no tie order. The kept-before-dropped
  properties of `Ordering.Best` and `Ordering.Lowest`,
  `SelectorProperties.WindowHasLowestRanks` and
  `SelectorProperties.MainWindowShape` hold for any tie order.
  `SelectorProperties.ColdStartChoice`,
  `SelectorProperties.NoProgressPicksFromWindow` and
  `SelectorProperties.MainChoice` state membership in the model's window. When
  ties straddle the cut at 20 of 200 or 100 of 300, that window depends on
  the catalog-order tie-break.
- The bulk import's lookup by glyph has no `ORDER BY` either, and the glyph
  column is not unique. `BulkImport.FirstWithHanzi` takes the first matching
  row in catalog order; with two rows of the same glyph the database may
  return the other one.
- Timestamps are an integer clock `now`. A bulk import uses one reading for
  the whole request.
- CatalogFile.InitLine / CatalogFile.AppFields: both loaders parse the
  frequency with `int(float(...))`; the model reads it as a decimal integer,
  exactly. So the model does not round a frequency above 2^53 to the nearest
  double ("9007199254740993" loads as 9007199254740993, not
  9007199254740992). It also does not overflow on an integer too large for a
  double (from about 1.8 × 10^308, a 309-digit number): the model parses that
  line, while in the source `init_db` aborts its whole load on it and the
  application's loader skips it. Float forms such as "1.5" or "1e3" are
  rejected as bad lines rather than truncated, and a float form that
  overflows, such as "1e999", is rejected rather than aborting `init_db`.
  `int()`'s underscores and non-ASCII digits are not accepted. Of the
  non-finite values, "inf" and "infinity" (any case, optional sign) are
  modelled exactly: they abort `init_db` and are skipped by the application's
  loader. A "nan" frequency raises `ValueError` and is rejected in both.
- `BulkImport.IsDigit` restricts `str.isdigit()` to the ASCII and fullwidth
  digits. Python also counts other characters, such as superscripts, circled
  digits and Arabic-Indic digits. The import drops those characters; the model
  keeps them and looks them up, so they are reported as not found unless the
  catalog holds them (app.py:646).
  `Text.IsSpace`, by contrast, lists every character `str.isspace()` accepts:
  the ASCII whitespace and separator controls, NEL, NBSP and the Unicode
  space separators.
- Bulk import with a non-string `characters` value (a list, say) is not
  modelled. The visiting order of Python's `set` is left unspecified.
- The JSON import and export routes are not part of this model. Detailed
  import can overwrite the counters, so the counter invariant covers only
  records written by reviews.
- The OpenAI calls, the jieba segmentation and the CC-CEDICT lookups are
  foreign services or libraries.
- Reading `characters.txt` is replaced by its list of lines. A read error in
  `init_db` is not modelled.
- The DOM and fetch code of static/js/app.js is not part of this model.
  jiebatest.py is a demo script with a copy of the server converter.
- Concurrent requests of one user, which can lose updates, are not modelled.
  The progress table has no (user, character) uniqueness constraint, so two
  interleaved first reviews can insert duplicate rows. The model's progress
  map cannot hold duplicates; only the tuning table's pairs are unique by
  declaration.

## Findings

| source | as written | input that shows it | evidently intended | confidence | as-written member | corrected member |
|---|---|---|---|---|---|---|
| static/js/app.js:317-353 | The word converter matches the final letter run and tone digit with a `$`-anchored pattern. It then returns only that syllable with its mark, so any text before the match is lost. | "ni3hao3" (numbered pinyin written without a space) gives "hǎo"; "ni3" disappears. | Keep the text before the matched syllable: "ni3hǎo". | medium, not executed | ClientToneMarks.NiHaoCounterexample | ClientToneMarks.ConvertWord |
