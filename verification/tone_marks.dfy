/** The server-side pinyin helpers of the text learner:
    `_numbered_to_tonemarks`, which rewrites numbered pinyin ("bei3 jing1")
    with tone diacritics ("běi jīng"), and `_is_chinese_token`. */
module ToneMarks {
  import opened Wrappers
  import opened Text
  import opened Pinyin
  import opened Collections

  /** The letter class `[a-züA-ZÜ]` of the syllable pattern. */
  predicate IsLetter(c: char) {
    ('a' <= c <= 'z') || ('A' <= c <= 'Z') || c == 'ü' || c == 'Ü'
  }

  /** The tone class `[0-5]` of the syllable pattern. */
  predicate IsToneDigit(c: char) {
    '0' <= c <= '5'
  }

  predicate AllLetters(s: String) {
    forall i :: 0 <= i < |s| ==> IsLetter(s[i])
  }

  /** `str.lower()` on the pattern's letters. */
  function Lower(c: char): char {
    if 'A' <= c <= 'Z' then (c as int + 32) as char
    else if c == 'Ü' then 'ü'
    else c
  }

  function LowerAll(s: String): (r: String)
    ensures |r| == |s| && forall i :: 0 <= i < |s| ==> r[i] == Lower(s[i])
  {
    seq(|s|, i requires 0 <= i < |s| => Lower(s[i]))
  }

  /** `s.replace(x, y)` for single characters. */
  function ReplaceChar(s: String, x: char, y: char): (r: String)
    ensures |r| == |s| && forall i :: 0 <= i < |s| ==> r[i] == (if s[i] == x then y else s[i])
  {
    seq(|s|, i requires 0 <= i < |s| => if s[i] == x then y else s[i])
  }

  lemma ReplaceCharAppend(a: String, b: String, x: char, y: char)
    ensures ReplaceChar(a + b, x, y) == ReplaceChar(a, x, y) + ReplaceChar(b, x, y)
  {
    assert forall i :: 0 <= i < |a + b| ==> (a + b)[i] == if i < |a| then a[i] else b[i - |a|];
  }

  /** The position of the last tone-bearing vowel of `s`. */
  function LastToneVowel(s: String): (r: Option<nat>)
    ensures r.Some? ==> r.value < |s| && IsToneVowel(s[r.value])
    ensures r.Some? ==> forall j :: r.value < j < |s| ==> !IsToneVowel(s[j])
    ensures r.None? ==> forall j :: 0 <= j < |s| ==> !IsToneVowel(s[j])
  {
    if s == [] then None
    else if IsToneVowel(s[|s| - 1]) then Some(|s| - 1)
    else LastToneVowel(s[..|s| - 1])
  }

  /** Lower-cased pattern letters are plain lower-case letters, which carry
      no tone. */
  lemma LowerLetters(letters: String)
    requires AllLetters(letters)
    ensures forall i :: 0 <= i < |letters| ==>
              && ToneOf(Lower(letters[i])) == 0
              && BaseOf(Lower(letters[i])) == Lower(letters[i])
  {
  }

  /** `r` is `syl` with some vowels marked for `tone`: removing the marks
      gives back `syl`, and every mark present is one of `tone`. */
  predicate MarksOnly(syl: String, r: String, tone: int) {
    && |r| == |syl|
    && (forall i :: 0 <= i < |r| ==> BaseOf(r[i]) == syl[i])
    && (forall i :: 0 <= i < |r| ==> ToneOf(r[i]) == 0 || ToneOf(r[i]) == tone)
  }

  /** Plain lower-case letters carry no tone. */
  predicate Plain(syl: String) {
    forall i :: 0 <= i < |syl| ==> ToneOf(syl[i]) == 0 && BaseOf(syl[i]) == syl[i]
  }

  /** Every occurrence of vowel `v` marked for `tone`. */
  function MarkEvery(syl: String, v: char, tone: int): (r: String)
    requires Plain(syl) && IsToneVowel(v) && 1 <= tone <= 4
    ensures MarksOnly(syl, r, tone)
    ensures v in syl ==> exists i :: 0 <= i < |r| && ToneOf(r[i]) == tone
  {
    MarkedInverse(v, tone);
    ReplaceChar(syl, v, Marked(v, tone))
  }

  /** The vowel at position `i` marked for `tone`. */
  function MarkOne(syl: String, i: nat, tone: int): (r: String)
    requires Plain(syl) && i < |syl| && IsToneVowel(syl[i]) && 1 <= tone <= 4
    ensures MarksOnly(syl, r, tone)
    ensures ToneOf(r[i]) == tone
    ensures forall j :: 0 <= j < |r| && j != i ==> r[j] == syl[j]
  {
    MarkedInverse(syl[i], tone);
    syl[..i] + [Marked(syl[i], tone)] + syl[i + 1..]
  }

  /** The syllable converter: the letters lower-cased, then for tones 1 to
      4 the mark goes on every 'a' if there is one, else on every 'e', else
      on every 'o' when the syllable contains "ou", else on the last vowel;
      tones 0 and 5, and syllables without a vowel, get no mark. */
  function ConvertSyllable(letters: String, tone: int): String
    requires AllLetters(letters) && 0 <= tone <= 5
  {
    var syl := LowerAll(letters);
    LowerLetters(letters);
    assert Plain(syl);
    if tone == 0 || tone == 5 then syl
    else if 'a' in syl then MarkEvery(syl, 'a', tone)
    else if 'e' in syl then MarkEvery(syl, 'e', tone)
    else if HasPair(syl, 'o', 'u') then
      assert 'o' in syl by {
        var k :| 0 <= k < |syl| - 1 && syl[k] == 'o' && syl[k + 1] == 'u';
        assert syl[k] in syl;
      }
      MarkEvery(syl, 'o', tone)
    else
      match LastToneVowel(syl)
      case None => syl
      case Some(i) => MarkOne(syl, i, tone)
  }

  /** Removing the marks of a converted syllable gives back the
      lower-cased letters; every mark is one of the syllable's tone; tones 0
      and 5, and syllables without a vowel, come back lower-cased and
      unmarked; and a syllable with a vowel gets a mark for tones 1 to 4. */
  lemma ConvertSyllableMarks(letters: String, tone: int)
    requires AllLetters(letters) && 0 <= tone <= 5
    ensures MarksOnly(LowerAll(letters), ConvertSyllable(letters, tone), tone)
    ensures tone == 0 || tone == 5 ==> ConvertSyllable(letters, tone) == LowerAll(letters)
    ensures (forall i :: 0 <= i < |letters| ==> !IsToneVowel(Lower(letters[i]))) ==>
              ConvertSyllable(letters, tone) == LowerAll(letters)
    ensures 1 <= tone <= 4 && (exists i :: 0 <= i < |letters| && IsToneVowel(Lower(letters[i]))) ==>
              exists i :: 0 <= i < |letters| && ToneOf(ConvertSyllable(letters, tone)[i]) == tone
  {
    var syl := LowerAll(letters);
    LowerLetters(letters);
    assert Plain(syl);
    if 1 <= tone <= 4 && 'a' !in syl && 'e' !in syl && HasPair(syl, 'o', 'u') {
      var k :| 0 <= k < |syl| - 1 && syl[k] == 'o' && syl[k + 1] == 'u';
      assert syl[k] in syl;
    }
  }

  /** Where a tone 1-4 mark lands, stated position by position over the
      lower-cased syllable. */
  predicate MarkedAt(syl: String, i: nat)
    requires i < |syl|
  {
    if 'a' in syl then syl[i] == 'a'
    else if 'e' in syl then syl[i] == 'e'
    else if HasPair(syl, 'o', 'u') then syl[i] == 'o'
    else IsToneVowel(syl[i]) && forall j :: i < j < |syl| ==> !IsToneVowel(syl[j])
  }

  /** For tones 1 to 4 the converter marks exactly the positions
      `MarkedAt` names and leaves every other letter lower-cased. */
  lemma MarkPlacement(letters: String, tone: int)
    requires AllLetters(letters) && 1 <= tone <= 4
    ensures var syl := LowerAll(letters);
            var r := ConvertSyllable(letters, tone);
            forall i :: 0 <= i < |r| ==>
              && (ToneOf(r[i]) == tone <==> MarkedAt(syl, i))
              && (!MarkedAt(syl, i) ==> r[i] == syl[i])
  {
    var syl := LowerAll(letters);
    var r := ConvertSyllable(letters, tone);
    LowerLetters(letters);
    if 'a' !in syl && 'e' !in syl && !HasPair(syl, 'o', 'u') {
      match LastToneVowel(syl)
      case None =>
      case Some(k) =>
        forall i | 0 <= i < |r| ensures (ToneOf(r[i]) == tone <==> MarkedAt(syl, i)) && (!MarkedAt(syl, i) ==> r[i] == syl[i]) {
          MarkedInverse(syl[k], tone);
          if i < k {
            assert r[i] == syl[i];
            assert !MarkedAt(syl, i) by { assert k > i && IsToneVowel(syl[k]); }
          } else if i > k {
            assert r[i] == syl[i];
          }
        }
    }
  }

  // ---------------------------------------------------------------------
  // The substitution over a whole text
  // ---------------------------------------------------------------------

  /** The length of the run of pattern letters that starts `s`. */
  function LetterRun(s: String): (n: nat)
    ensures n <= |s| && AllLetters(s[..n])
    ensures n < |s| ==> !IsLetter(s[n])
  {
    if s == [] || !IsLetter(s[0]) then 0
    else
      var m := LetterRun(s[1..]);
      assert s[..m + 1] == [s[0]] + s[1..][..m];
      m + 1
  }

  /** `_convert_syllable`, the callback `re.sub` applies to each match. A
      match always consists of letters and one tone digit; any other input
      is returned as it is. */
  function Syllable(letters: String, tone: int): String {
    if AllLetters(letters) && 0 <= tone <= 5 then ConvertSyllable(letters, tone) else letters
  }

  /** One step of `re.sub(r'([a-züA-ZÜ]+)([0-5])', convert, s)` at the
      start of `s`: a run of letters directly followed by a tone digit is
      replaced by `convert(letters, digit)` (the digit is consumed); any
      other first character is copied. The result is the output of the step
      and the number of characters it consumed. A run followed by anything
      else can never match, since the letter class and the digit class are
      disjoint. */
  function Head(s: String, convert: (String, int) -> String): (h: (String, nat))
    requires s != []
    ensures 0 < h.1 <= |s|
  {
    var n := LetterRun(s);
    if 0 < n < |s| && IsToneDigit(s[n]) then
      (convert(s[..n], s[n] as int - '0' as int), n + 1)
    else
      ([s[0]], 1)
  }

  /** The substitution over a whole text: the steps taken left to right. */
  function Substitute(s: String, convert: (String, int) -> String): String
    decreases |s|
  {
    if s == [] then []
    else
      var h := Head(s, convert);
      h.0 + Substitute(s[h.1..], convert)
  }

  /** `_numbered_to_tonemarks`: every 'v' becomes 'ü', then the syllable
      substitution runs. */
  function NumberedToToneMarks(s: String): String {
    Substitute(ReplaceChar(s, 'v', 'ü'), Syllable)
  }

  lemma LetterRunAll(a: String, b: String)
    requires AllLetters(a)
    requires b != [] && !IsLetter(b[0])
    ensures LetterRun(a + b) == |a|
  {
    var n := LetterRun(a + b);
    assert (a + b)[|a|] == b[0];
    assert forall i :: 0 <= i < |a| ==> (a + b)[i] == a[i];
  }

  /** When `a` ends in a non-letter, the letter run of `a + b` lies within
      `a`. */
  lemma LetterRunWithin(a: String, b: String)
    requires a != [] && !IsLetter(a[|a| - 1])
    ensures LetterRun(a + b) == LetterRun(a) < |a|
  {
    assert forall i :: 0 <= i < |a| ==> (a + b)[i] == a[i];
  }

  /** A letter run followed by its tone digit is one converted syllable. */
  lemma {:induction false} SubstituteSyllable(syl: String, d: char, convert: (String, int) -> String)
    requires syl != [] && AllLetters(syl) && IsToneDigit(d)
    ensures Substitute(syl + [d], convert) == convert(syl, d as int - '0' as int)
  {
    var s := syl + [d];
    LetterRunAll(syl, [d]);
    assert s[..|syl|] == syl;
    assert Head(s, convert) == (convert(syl, d as int - '0' as int), |s|);
    assert s[|s|..] == [];
  }

  /** A non-empty letter run ends in a letter. */
  lemma LastOfRun(s: String)
    requires 0 < LetterRun(s)
    ensures IsLetter(s[LetterRun(s) - 1])
  {
    var n := LetterRun(s);
    assert s[..n][n - 1] == s[n - 1];
  }

  /** No tone digit directly follows a letter: the pattern has nothing to
      match in `s`. */
  predicate NoNumberedSyllable(s: String) {
    forall i :: 0 < i < |s| && IsToneDigit(s[i]) ==> !IsLetter(s[i - 1])
  }

  lemma NoNumberedSyllableTail(s: String)
    requires s != [] && NoNumberedSyllable(s)
    ensures NoNumberedSyllable(s[1..])
  {
    var t := s[1..];
    assert forall i :: 0 < i < |t| ==> t[i] == s[i + 1] && t[i - 1] == s[i];
  }

  /** Text in which no tone digit follows a letter has no match and is
      copied unchanged, digits included ("12:30", "3 ren"). */
  lemma {:induction false} SubstituteNoDigit(s: String, convert: (String, int) -> String)
    requires NoNumberedSyllable(s)
    ensures Substitute(s, convert) == s
    decreases |s|
  {
    if s != [] {
      if 0 < LetterRun(s) {
        LastOfRun(s);
      }
      assert Head(s, convert) == ([s[0]], 1);
      NoNumberedSyllableTail(s);
      SubstituteNoDigit(s[1..], convert);
    }
  }

  /** The whole conversion of text without a numbered syllable only
      respells 'v' as 'ü'. */
  lemma NoSyllablePassesThrough(s: String)
    requires NoNumberedSyllable(s)
    ensures NumberedToToneMarks(s) == ReplaceChar(s, 'v', 'ü')
  {
    var r := ReplaceChar(s, 'v', 'ü');
    assert forall i :: 0 <= i < |s| ==> (IsLetter(r[i]) <==> IsLetter(s[i])) && (IsToneDigit(r[i]) <==> IsToneDigit(s[i]));
    SubstituteNoDigit(r, Syllable);
  }

  /** A clock time passes through. */
  lemma ClockTimePassesThrough()
    ensures NumberedToToneMarks("12:30") == "12:30"
  {
    var s := "12:30";
    assert NoNumberedSyllable(s);
    NoSyllablePassesThrough(s);
    assert ReplaceChar(s, 'v', 'ü') == s;
  }

  /** A step that starts inside `a` stays inside `a` when `a` ends in a
      non-letter. */
  lemma HeadAppend(a: String, b: String, convert: (String, int) -> String)
    requires a != [] && !IsLetter(a[|a| - 1])
    ensures Head(a + b, convert) == Head(a, convert)
  {
    var s := a + b;
    LetterRunWithin(a, b);
    var n := LetterRun(a);
    assert s[n] == a[n] && s[0] == a[0];
    assert s[..n] == a[..n];
  }

  /** Text that ends in a non-letter can be converted on its own: no match
      crosses its end. */
  lemma {:induction false} SubstituteAppend(a: String, b: String, convert: (String, int) -> String)
    requires a == [] || !IsLetter(a[|a| - 1])
    ensures Substitute(a + b, convert) == Substitute(a, convert) + Substitute(b, convert)
    decreases |a|
  {
    if a == [] {
      assert a + b == b;
    } else {
      var h := Head(a, convert);
      var rest := a[h.1..];
      HeadAppend(a, b, convert);
      DropAppend(a, b, h.1);
      SubstituteAppend(rest, b, convert);
      Associative(h.0, Substitute(rest, convert), Substitute(b, convert));
    }
  }

  /** A step at the start of `a` is the same step once a separator that is
      neither a letter nor a tone digit follows `a`. */
  lemma HeadSeparator(a: String, c: char, convert: (String, int) -> String)
    requires a != [] && !IsLetter(c) && !IsToneDigit(c)
    ensures Head(a + [c], convert) == Head(a, convert)
  {
    var s := a + [c];
    var n := LetterRun(s);
    assert forall i :: 0 <= i < |a| ==> s[i] == a[i];
    if n < |a| {
      assert LetterRun(a) == n;
      assert s[..n] == a[..n];
    } else {
      assert s[|a|] == c;
      assert s[..|a|] == a;
      assert LetterRun(a) == |a|;
    }
  }

  /** A trailing separator that is neither a letter nor a tone digit is
      copied and does not change how the text before it converts. */
  lemma {:induction false} SubstituteSeparator(a: String, c: char, convert: (String, int) -> String)
    requires !IsLetter(c) && !IsToneDigit(c)
    ensures Substitute(a + [c], convert) == Substitute(a, convert) + [c]
    decreases |a|
  {
    var s := a + [c];
    if a == [] {
      assert s == [c];
      SubstituteNoDigit(s, convert);
    } else {
      var h := Head(a, convert);
      HeadSeparator(a, c, convert);
      DropAppend(a, [c], h.1);
      SubstituteSeparator(a[h.1..], c, convert);
      Associative(h.0, Substitute(a[h.1..], convert), [c]);
    }
  }

  /** Space-separated text converts piece by piece. */
  lemma SpaceSeparated(a: String, b: String)
    ensures NumberedToToneMarks(a + " " + b) == NumberedToToneMarks(a) + " " + NumberedToToneMarks(b)
  {
    ReplaceCharAppend(a + " ", b, 'v', 'ü');
    ReplaceCharAppend(a, " ", 'v', 'ü');
    var ra := ReplaceChar(a, 'v', 'ü');
    var rb := ReplaceChar(b, 'v', 'ü');
    assert ReplaceChar(" ", 'v', 'ü') == " ";
    SubstituteAppend(ra + " ", rb, Syllable);
    SubstituteSeparator(ra, ' ', Syllable);
  }

  /** One numbered syllable converts with 'v' read as 'ü'. */
  lemma ToneMarksSyllable(syl: String, d: char)
    requires syl != [] && AllLetters(syl) && IsToneDigit(d)
    ensures var spelled := ReplaceChar(syl, 'v', 'ü');
            && AllLetters(spelled)
            && NumberedToToneMarks(syl + [d]) == ConvertSyllable(spelled, d as int - '0' as int)
  {
    var spelled := ReplaceChar(syl, 'v', 'ü');
    Respell(syl, d);
    SubstituteSyllable(spelled, d, Syllable);
    assert NumberedToToneMarks(syl + [d]) == Syllable(spelled, d as int - '0' as int);
  }

  /** Respelling 'v' as 'ü' keeps a syllable's letters and its tone digit. */
  lemma Respell(syl: String, d: char)
    requires AllLetters(syl) && IsToneDigit(d)
    ensures AllLetters(ReplaceChar(syl, 'v', 'ü'))
    ensures ReplaceChar(syl + [d], 'v', 'ü') == ReplaceChar(syl, 'v', 'ü') + [d]
  {
    ReplaceCharAppend(syl, [d], 'v', 'ü');
    assert ReplaceChar([d], 'v', 'ü') == [d];
  }

  /** No 'v' to respell. */
  lemma NoV(syl: String)
    requires forall i :: 0 <= i < |syl| ==> syl[i] != 'v'
    ensures ReplaceChar(syl, 'v', 'ü') == syl
  {
  }

  lemma ConvertBei(syl: String)
    requires syl == "bei"
    ensures ConvertSyllable(syl, 3) == "běi"
  {
    var low := LowerAll(syl);
    assert low == syl;
    assert 'a' !in low && 'e' in low;
    assert Marked('e', 3) == 'ě';
    assert ReplaceChar(low, 'e', 'ě') == "běi";
  }

  lemma ConvertJing(syl: String)
    requires syl == "jing"
    ensures ConvertSyllable(syl, 1) == "jīng"
  {
    var low := LowerAll(syl);
    assert low == syl;
    JingVowel(low);
    assert Marked('i', 1) == 'ī';
    assert MarkOne(low, 1, 1) == "jīng";
  }

  /** In "jing" only the 'i' can carry the mark. */
  lemma JingVowel(low: String)
    requires low == "jing"
    ensures 'a' !in low && 'e' !in low && !HasPair(low, 'o', 'u')
    ensures LastToneVowel(low) == Some(1)
  {
    assert IsToneVowel(low[1]);
    assert !IsToneVowel(low[0]) && !IsToneVowel(low[2]) && !IsToneVowel(low[3]);
  }

  lemma BeiExample(syl: String)
    requires syl == "bei"
    ensures NumberedToToneMarks(syl + "3") == "běi"
  {
    ToneMarksSyllable(syl, '3');
    NoV(syl);
    ConvertBei(syl);
  }

  lemma JingExample(syl: String)
    requires syl == "jing"
    ensures NumberedToToneMarks(syl + "1") == "jīng"
  {
    ToneMarksSyllable(syl, '1');
    NoV(syl);
    ConvertJing(syl);
  }

  /** The converter's own example: "bei3 jing1" reads "běi jīng". */
  lemma BeijingExample(text: String)
    requires text == "bei3 jing1"
    ensures NumberedToToneMarks(text) == "běi jīng"
  {
    var bei, jing := "bei", "jing";
    assert text == (bei + "3") + " " + (jing + "1");
    SpaceSeparated(bei + "3", jing + "1");
    BeiExample(bei);
    JingExample(jing);
  }

  // ---------------------------------------------------------------------
  // `_is_chinese_token`
  // ---------------------------------------------------------------------

  /** Some character of `s` lies in the CJK Unified Ideographs block
      U+4E00..U+9FFF. */
  predicate IsChineseToken(s: String) {
    exists i :: 0 <= i < |s| && '\U{4E00}' <= s[i] <= '\U{9FFF}'
  }

  /** A concatenation is a Chinese token exactly when one of its parts
      is. */
  lemma ChineseTokenAppend(a: String, b: String)
    ensures IsChineseToken(a + b) <==> IsChineseToken(a) || IsChineseToken(b)
  {
    var s := a + b;
    if IsChineseToken(s) {
      var i :| 0 <= i < |s| && '\U{4E00}' <= s[i] <= '\U{9FFF}';
      if i >= |a| {
        assert b[i - |a|] == s[i];
      }
    }
    if IsChineseToken(a) {
      var i :| 0 <= i < |a| && '\U{4E00}' <= a[i] <= '\U{9FFF}';
      assert s[i] == a[i];
      assert 0 <= i < |s| && '\U{4E00}' <= s[i] <= '\U{9FFF}';
    }
    if IsChineseToken(b) {
      var i :| 0 <= i < |b| && '\U{4E00}' <= b[i] <= '\U{9FFF}';
      assert s[|a| + i] == b[i];
      assert 0 <= |a| + i < |s| && '\U{4E00}' <= s[|a| + i] <= '\U{9FFF}';
    }
  }
}
