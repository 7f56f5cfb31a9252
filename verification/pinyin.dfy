/** The tone-mark table both pinyin converters share: each of the six
    vowels a, e, i, o, u, ü carries one of four diacritics for tones 1 to
    4. */
module Pinyin {

  /** The vowels that can carry a tone mark. */
  predicate IsToneVowel(c: char) {
    c == 'a' || c == 'e' || c == 'i' || c == 'o' || c == 'u' || c == 'ü'
  }

  /** The entry for `tone` of a four-entry row of the table. */
  function Row(tone: int, m1: char, m2: char, m3: char, m4: char): char
    requires 1 <= tone <= 4
  {
    if tone == 1 then m1 else if tone == 2 then m2 else if tone == 3 then m3 else m4
  }

  /** The vowel `v` with the diacritic of `tone`. */
  function Marked(v: char, tone: int): (m: char)
    requires IsToneVowel(v) && 1 <= tone <= 4
    ensures !IsToneVowel(m) && m > 'z'
  {
    if v == 'a' then Row(tone, 'ā', 'á', 'ǎ', 'à')
    else if v == 'e' then Row(tone, 'ē', 'é', 'ě', 'è')
    else if v == 'i' then Row(tone, 'ī', 'í', 'ǐ', 'ì')
    else if v == 'o' then Row(tone, 'ō', 'ó', 'ǒ', 'ò')
    else if v == 'u' then Row(tone, 'ū', 'ú', 'ǔ', 'ù')
    else Row(tone, 'ǖ', 'ǘ', 'ǚ', 'ǜ')
  }

  /** The tone a character's diacritic stands for, 0 for an unmarked
      character. */
  function ToneOf(c: char): (t: int)
    ensures 0 <= t <= 4
  {
    if c == 'ā' || c == 'ē' || c == 'ī' || c == 'ō' || c == 'ū' || c == 'ǖ' then 1
    else if c == 'á' || c == 'é' || c == 'í' || c == 'ó' || c == 'ú' || c == 'ǘ' then 2
    else if c == 'ǎ' || c == 'ě' || c == 'ǐ' || c == 'ǒ' || c == 'ǔ' || c == 'ǚ' then 3
    else if c == 'à' || c == 'è' || c == 'ì' || c == 'ò' || c == 'ù' || c == 'ǜ' then 4
    else 0
  }

  /** A character with its tone diacritic removed. */
  function BaseOf(c: char): char {
    if c == 'ā' || c == 'á' || c == 'ǎ' || c == 'à' then 'a'
    else if c == 'ē' || c == 'é' || c == 'ě' || c == 'è' then 'e'
    else if c == 'ī' || c == 'í' || c == 'ǐ' || c == 'ì' then 'i'
    else if c == 'ō' || c == 'ó' || c == 'ǒ' || c == 'ò' then 'o'
    else if c == 'ū' || c == 'ú' || c == 'ǔ' || c == 'ù' then 'u'
    else if c == 'ǖ' || c == 'ǘ' || c == 'ǚ' || c == 'ǜ' then 'ü'
    else c
  }

  /** The table is one-to-one: a marked vowel determines its vowel and its
      tone. */
  lemma MarkedInverse(v: char, tone: int)
    requires IsToneVowel(v) && 1 <= tone <= 4
    ensures BaseOf(Marked(v, tone)) == v
    ensures ToneOf(Marked(v, tone)) == tone
  {
  }

  /** Unmarked vowels and the letters around them carry no tone. */
  lemma UnmarkedLetters(c: char)
    requires IsToneVowel(c) || ('a' <= c <= 'z') || c == 'ü'
    ensures ToneOf(c) == 0 && BaseOf(c) == c
  {
  }
}
