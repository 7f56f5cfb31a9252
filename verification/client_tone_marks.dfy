/** The browser-side pinyin formatter `convertPinyinToToneMarks`, which
    shows a card's numbered pinyin ("hao3") with a tone mark ("hǎo"). The
    input is split on single spaces and each word is converted on its own:
    a word ending in a letter run and a tone digit 1-5 gets one vowel of
    that run marked and loses the digit; any other word is kept.

    The code as written returns only the converted final syllable, so a
    word with text before that syllable loses the text ("ni3hao3" shows as
    "hǎo", "de5/di2" as "dí"). `ConvertWordAsWritten` models that;
    `ConvertWord` keeps the text before the syllable, and `ConvertPinyin`
    uses it. */
module ClientToneMarks {
  import opened Wrappers
  import opened Text
  import opened Pinyin

  /** The letter class `[a-zA-Zü]` of the word pattern. */
  predicate IsLetter(c: char) {
    ('a' <= c <= 'z') || ('A' <= c <= 'Z') || c == 'ü'
  }

  /** The tone class `[1-5]` of the word pattern. */
  predicate IsTone(c: char) {
    '1' <= c <= '5'
  }

  /** The length of the run of letters that ends `s`. */
  function TrailingLetters(s: String): (n: nat)
    ensures n <= |s|
    ensures forall i :: |s| - n <= i < |s| ==> IsLetter(s[i])
    ensures n < |s| ==> !IsLetter(s[|s| - n - 1])
  {
    if s == [] || !IsLetter(s[|s| - 1]) then 0
    else TrailingLetters(s[..|s| - 1]) + 1
  }

  /** The match of `/([a-zA-Zü]+)([1-5])$/`: where the syllable starts,
      the syllable, and the tone. */
  datatype Match = Match(start: nat, syllable: String, tone: int)

  /** `word.match(/([a-zA-Zü]+)([1-5])$/)`. The leftmost match is the one
      whose letters are the whole letter run before the final digit. */
  function FinalSyllable(w: String): (r: Option<Match>)
    ensures r.None? <==> |w| < 2 || !IsTone(w[|w| - 1]) || !IsLetter(w[|w| - 2])
    ensures r.Some? ==>
              && r.value.syllable != []
              && r.value.start + |r.value.syllable| + 1 == |w|
              && r.value.syllable == w[r.value.start..|w| - 1]
              && (forall i :: 0 <= i < |r.value.syllable| ==> IsLetter(r.value.syllable[i]))
              && (r.value.start > 0 ==> !IsLetter(w[r.value.start - 1]))
              && 1 <= r.value.tone <= 5
              && r.value.tone == w[|w| - 1] as int - '0' as int
  {
    if |w| < 2 || !IsTone(w[|w| - 1]) then None
    else
      var body := w[..|w| - 1];
      var n := TrailingLetters(body);
      if n == 0 then None
      else
        assert body[|body| - n..] == w[|body| - n..|w| - 1];
        Some(Match(|body| - n, body[|body| - n..], w[|w| - 1] as int - '0' as int))
  }

  /** The position of the last `c` in `s`. */
  function LastIndexOf(s: String, c: char): (i: nat)
    requires c in s
    ensures i < |s| && s[i] == c
    ensures forall j :: i < j < |s| ==> s[j] != c
  {
    if s[|s| - 1] == c then |s| - 1
    else
      assert c in s[..|s| - 1] by {
        var k :| 0 <= k < |s| && s[k] == c;
        assert s[..|s| - 1][k] == c;
      }
      LastIndexOf(s[..|s| - 1], c)
  }

  /** The vowel search order when neither "iu" nor "ui" occurs. */
  const Priority: String := "aoeiuüv"

  /** The first vowel of `order` that occurs in `syl` (as its position
      `k` in `order`) and its first position `i` in `syl`. */
  function FirstByPriority(syl: String, order: String): (r: Option<(nat, nat)>)
    ensures r.Some? ==> r.value.0 < |order| && r.value.1 < |syl| && syl[r.value.1] == order[r.value.0]
    ensures r.Some? ==> forall k :: 0 <= k < r.value.0 ==> order[k] !in syl
    ensures r.Some? ==> forall j :: 0 <= j < r.value.1 ==> syl[j] != order[r.value.0]
    ensures r.None? <==> forall k :: 0 <= k < |order| ==> order[k] !in syl
  {
    if order == [] then None
    else if order[0] in syl then
      var i := IndexOf(syl, order[0]);
      assert forall j :: 0 <= j < i ==> syl[..i][j] == syl[j];
      Some((0, i))
    else
      match FirstByPriority(syl, order[1..])
      case None => None
      case Some((k, i)) => Some((k + 1, i))
  }

  /** Which vowel of the syllable gets the mark, and where: the last 'u'
      when "iu" occurs, else the last 'i' when "ui" occurs, else the first
      occurrence of the first of a, o, e, i, u, ü, v that occurs. */
  function MarkIndex(syl: String): (r: Option<(char, nat)>)
    ensures r.Some? ==> r.value.1 < |syl| && syl[r.value.1] == r.value.0 && r.value.0 in Priority
    ensures r.None? <==> forall k :: 0 <= k < |Priority| ==> Priority[k] !in syl
  {
    if HasPair(syl, 'i', 'u') then
      assert 'u' in syl by {
        var k :| 0 <= k < |syl| - 1 && syl[k] == 'i' && syl[k + 1] == 'u';
        assert syl[k + 1] in syl;
      }
      assert Priority[4] == 'u';
      Some(('u', LastIndexOf(syl, 'u')))
    else if HasPair(syl, 'u', 'i') then
      assert 'i' in syl by {
        var k :| 0 <= k < |syl| - 1 && syl[k] == 'u' && syl[k + 1] == 'i';
        assert syl[k + 1] in syl;
      }
      assert Priority[3] == 'i';
      Some(('i', LastIndexOf(syl, 'i')))
    else
      match FirstByPriority(syl, Priority)
      case None => None
      case Some((k, i)) => Some((Priority[k], i))
  }

  /** The mark rule, stated against the search order: with "iu" the last
      'u' is marked, else with "ui" the last 'i'; otherwise the marked
      vowel is the first of the order present in the syllable, at its first
      position. */
  lemma MarkRule(syl: String)
    ensures HasPair(syl, 'i', 'u') ==>
              MarkIndex(syl).Some? && MarkIndex(syl).value.0 == 'u'
              && forall j :: MarkIndex(syl).value.1 < j < |syl| ==> syl[j] != 'u'
    ensures !HasPair(syl, 'i', 'u') && HasPair(syl, 'u', 'i') ==>
              MarkIndex(syl).Some? && MarkIndex(syl).value.0 == 'i'
              && forall j :: MarkIndex(syl).value.1 < j < |syl| ==> syl[j] != 'i'
    ensures !HasPair(syl, 'i', 'u') && !HasPair(syl, 'u', 'i') && MarkIndex(syl).Some? ==>
              var (v, i) := MarkIndex(syl).value;
              && (forall k :: 0 <= k < |Priority| && Priority[k] == v ==>
                    forall k' :: 0 <= k' < k ==> Priority[k'] !in syl)
              && (forall j :: 0 <= j < i ==> syl[j] != v)
  {
    if !HasPair(syl, 'i', 'u') && !HasPair(syl, 'u', 'i') && MarkIndex(syl).Some? {
      var (k, i) := FirstByPriority(syl, Priority).value;
      assert forall k1, k2 :: 0 <= k1 < k2 < |Priority| ==> Priority[k1] != Priority[k2];
    }
  }

  /** `toneMap[v][tone - 1]`: tones 1 to 4 give the marked vowel, tone 5
      the plain one; 'v' uses the row of 'ü'. */
  function ToneChar(v: char, tone: int): (c: char)
    requires v in Priority && 1 <= tone <= 5
    ensures BaseOf(c) == (if v == 'v' then 'ü' else v)
    ensures ToneOf(c) == (if tone == 5 then 0 else tone)
    ensures c != ' '
  {
    var vowel := if v == 'v' then 'ü' else v;
    if tone == 5 then vowel
    else
      MarkedInverse(vowel, tone);
      Marked(vowel, tone)
  }

  /** The converted syllable: its marked vowel replaced by `ToneChar`. */
  function MarkSyllable(syl: String, v: char, i: nat, tone: int): (r: String)
    requires i < |syl| && syl[i] == v && v in Priority && 1 <= tone <= 5
    ensures |r| == |syl| && r[i] == ToneChar(v, tone)
    ensures forall j :: 0 <= j < |r| && j != i ==> r[j] == syl[j]
  {
    syl[..i] + [ToneChar(v, tone)] + syl[i + 1..]
  }

  /** The word converter as written: the result is only the converted
      syllable, whatever preceded it in the word. A word without a final
      numbered syllable, or whose syllable has no vowel, is kept. */
  function ConvertWordAsWritten(w: String): (r: String)
    ensures MarkPlan(w).None? ==> r == w
    ensures MarkPlan(w).Some? ==> |r| == |FinalSyllable(w).value.syllable| == |w| - 1 - FinalSyllable(w).value.start
  {
    match FinalSyllable(w)
    case None => w
    case Some(m) =>
      match MarkIndex(m.syllable)
      case None => w
      case Some((v, i)) => MarkSyllable(m.syllable, v, i, m.tone)
  }

  /** Where the word gets its mark: the position in the word and the
      tone character written there; `None` when the word has no final
      numbered syllable or its syllable has no vowel. */
  function MarkPlan(w: String): (r: Option<(nat, char)>)
    ensures r.Some? ==> FinalSyllable(w).Some? && r.value.0 < |w| - 1
    ensures r.Some? ==> r.value.1 != ' '
  {
    match FinalSyllable(w)
    case None => None
    case Some(m) =>
      match MarkIndex(m.syllable)
      case None => None
      case Some((v, i)) =>
        Some((m.start + i, ToneChar(v, m.tone)))
  }

  /** `w` without its last character and with the character at `pos`
      replaced by `c`. */
  function Splice(w: String, pos: nat, c: char): (r: String)
    requires pos < |w| - 1
    ensures |r| == |w| - 1 && r[pos] == c
    ensures forall j :: 0 <= j < |r| && j != pos ==> r[j] == w[j]
  {
    w[..pos] + [c] + w[pos + 1..|w| - 1]
  }

  /** The word converter keeping the text before the syllable: exactly one
      vowel changes and the tone digit goes; a word without a final
      numbered syllable, or whose syllable has no vowel, is kept. */
  function ConvertWord(w: String): (r: String)
    ensures MarkPlan(w).None? ==> r == w
    ensures MarkPlan(w).Some? ==>
              && |r| == |w| - 1
              && r[MarkPlan(w).value.0] == MarkPlan(w).value.1
              && forall j :: 0 <= j < |r| && j != MarkPlan(w).value.0 ==> r[j] == w[j]
  {
    match MarkPlan(w)
    case None => w
    case Some((pos, c)) => Splice(w, pos, c)
  }

  /** Marking position `start + i` of a word whose syllable runs from
      `start` to the tone digit leaves, from `start` on, the marked
      syllable. */
  lemma SpliceSyllable(w: String, start: nat, syl: String, v: char, i: nat, tone: int)
    requires start + |syl| + 1 == |w| && syl == w[start..|w| - 1]
    requires i < |syl| && syl[i] == v && v in Priority && 1 <= tone <= 5
    ensures Splice(w, start + i, ToneChar(v, tone))[start..] == MarkSyllable(syl, v, i, tone)
  {
    var r := Splice(w, start + i, ToneChar(v, tone));
    var q := MarkSyllable(syl, v, i, tone);
    assert |r[start..]| == |q|;
    forall j | 0 <= j < |q| ensures r[start..][j] == q[j] {
      if j != i {
        assert q[j] == syl[j] == w[start + j];
      }
    }
  }

  /** The code as written returns the corrected result without the text
      before the syllable. */
  lemma AsWrittenDropsPrefix(w: String)
    requires MarkPlan(w).Some?
    ensures var start := FinalSyllable(w).value.start;
            && start <= |ConvertWord(w)|
            && ConvertWordAsWritten(w) == ConvertWord(w)[start..]
  {
    var m := FinalSyllable(w).value;
    var v, i := MarkIndex(m.syllable).value.0, MarkIndex(m.syllable).value.1;
    BothConverters(w);
    SpliceSyllable(w, m.start, m.syllable, v, i, m.tone);
  }

  /** With a mark to place, the corrected converter splices the word and
      the one as written marks the syllable alone. */
  lemma BothConverters(w: String)
    requires MarkPlan(w).Some?
    ensures var m := FinalSyllable(w).value;
            && MarkIndex(m.syllable).Some?
            && var v, i := MarkIndex(m.syllable).value.0, MarkIndex(m.syllable).value.1;
               && ConvertWord(w) == Splice(w, m.start + i, ToneChar(v, m.tone))
               && ConvertWordAsWritten(w) == MarkSyllable(m.syllable, v, i, m.tone)
  {
  }

  /** Where no text precedes the syllable, both converters agree. */
  lemma AsWrittenAgreesOnSyllables(w: String)
    requires FinalSyllable(w).Some? ==> FinalSyllable(w).value.start == 0
    ensures ConvertWordAsWritten(w) == ConvertWord(w)
  {
    if MarkPlan(w).Some? {
      AsWrittenDropsPrefix(w);
    }
  }

  lemma NiHaoMatch(w: String)
    requires w == "ni3hao3"
    ensures FinalSyllable(w) == Some(Match(3, "hao", 3))
  {
    var body := w[..6];
    assert IsLetter(body[3]) && IsLetter(body[4]) && IsLetter(body[5]) && !IsLetter(body[2]);
    assert TrailingLetters(body) == 3;
    assert body[3..] == "hao";
  }

  lemma HaoMark(syl: String)
    requires syl == "hao"
    ensures MarkIndex(syl) == Some(('a', 1))
    ensures MarkSyllable(syl, 'a', 1, 3) == "hǎo"
  {
    assert !HasPair(syl, 'i', 'u') && !HasPair(syl, 'u', 'i');
    assert 'a' in syl && syl[0] != 'a' && syl[1] == 'a';
    assert FirstByPriority(syl, Priority) == Some((0, 1));
    assert ToneChar('a', 3) == 'ǎ';
  }

  /** "ni3hao3": the code as written shows "hǎo"; keeping the prefix gives
      "ni3hǎo". */
  lemma NiHaoCounterexample(w: String)
    requires w == "ni3hao3"
    ensures ConvertWordAsWritten(w) == "hǎo"
    ensures ConvertWord(w) == "ni3hǎo"
  {
    NiHaoMatch(w);
    HaoMark("hao");
    assert w[..3] + "hǎo" == "ni3hǎo";
  }

  // ---------------------------------------------------------------------
  // Whole strings
  // ---------------------------------------------------------------------

  function MapWords(ws: seq<String>, convert: String -> String): (r: seq<String>)
    ensures |r| == |ws| && forall k :: 0 <= k < |ws| ==> r[k] == convert(ws[k])
  {
    seq(|ws|, k requires 0 <= k < |ws| => convert(ws[k]))
  }

  /** `convertPinyinToToneMarks` with the prefix-keeping word converter:
      the empty string stays empty; otherwise the words between single
      spaces are converted one by one and joined with single spaces. */
  function ConvertPinyin(pinyin: String): String {
    if pinyin == [] then []
    else Join(MapWords(Split(pinyin, ' '), ConvertWord), " ")
  }

  /** `convertPinyinToToneMarks` as written. */
  function ConvertPinyinAsWritten(pinyin: String): String {
    if pinyin == [] then []
    else Join(MapWords(Split(pinyin, ' '), ConvertWordAsWritten), " ")
  }

  /** Converting a word that holds no space introduces none. */
  lemma ConvertWordNoSpace(w: String)
    requires ' ' !in w
    ensures ' ' !in ConvertWord(w)
  {
    var r := ConvertWord(w);
    forall j | 0 <= j < |r| ensures r[j] != ' ' {
      if MarkPlan(w).None? || j != MarkPlan(w).value.0 {
        assert r[j] == w[j];
      }
    }
  }

  /** The converter as written introduces no space either. */
  lemma ConvertWordAsWrittenNoSpace(w: String)
    requires ' ' !in w
    ensures ' ' !in ConvertWordAsWritten(w)
  {
    if MarkPlan(w).Some? {
      var m := FinalSyllable(w).value;
      var v, i := MarkIndex(m.syllable).value.0, MarkIndex(m.syllable).value.1;
      BothConverters(w);
      var r := MarkSyllable(m.syllable, v, i, m.tone);
      forall j | 0 <= j < |r| ensures r[j] != ' ' {
        if j != i {
          assert IsLetter(m.syllable[j]);
        }
      }
    }
  }

  /** The formatter as written also works word by word: splitting its
      output on spaces gives the input words, each converted as written. */
  lemma ConvertPinyinAsWrittenWordwise(pinyin: String)
    requires pinyin != []
    ensures Split(ConvertPinyinAsWritten(pinyin), ' ') == MapWords(Split(pinyin, ' '), ConvertWordAsWritten)
  {
    var ws := Split(pinyin, ' ');
    var cs := MapWords(ws, ConvertWordAsWritten);
    forall k | 0 <= k < |cs| ensures ' ' !in cs[k] {
      ConvertWordAsWrittenNoSpace(ws[k]);
    }
    SplitJoin(cs, ' ');
  }

  /** The formatter works word by word: splitting its output on spaces
      gives the converted words of the input, one for one. */
  lemma ConvertPinyinWordwise(pinyin: String)
    requires pinyin != []
    ensures Split(ConvertPinyin(pinyin), ' ') == MapWords(Split(pinyin, ' '), ConvertWord)
  {
    var ws := Split(pinyin, ' ');
    var cs := MapWords(ws, ConvertWord);
    forall k | 0 <= k < |cs| ensures ' ' !in cs[k] {
      ConvertWordNoSpace(ws[k]);
    }
    SplitJoin(cs, ' ');
  }
}
