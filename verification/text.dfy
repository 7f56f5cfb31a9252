/** String helpers with Python's `str` semantics: whitespace trimming,
    splitting on a separator, splitting into words, joining, and decimal
    integers. Strings are sequences of characters. */
module Text {
  import opened Wrappers

  type String = seq<char>

  /** Python's `str.isspace()` for one character: the ASCII whitespace and
      separator controls, NEL, NBSP and the Unicode space separators. */
  predicate IsSpace(c: char) {
    || c == ' ' || c == '\t' || c == '\n' || c == '\r'
    || c == '\U{000B}' || c == '\U{000C}'
    || ('\U{001C}' <= c <= '\U{001F}')
    || c == '\U{0085}' || c == '\U{00A0}' || c == '\U{1680}'
    || ('\U{2000}' <= c <= '\U{200A}')
    || c == '\U{2028}' || c == '\U{2029}' || c == '\U{202F}'
    || c == '\U{205F}' || c == '\U{3000}'
  }

  predicate IsAsciiDigit(c: char) {
    '0' <= c <= '9'
  }

  predicate NoSpace(s: String) {
    forall k :: 0 <= k < |s| ==> !IsSpace(s[k])
  }

  predicate AllSpace(s: String) {
    forall k :: 0 <= k < |s| ==> IsSpace(s[k])
  }

  /** Neither end of `s` is whitespace (vacuous for the empty string). */
  predicate Trimmed(s: String) {
    s == [] || (!IsSpace(s[0]) && !IsSpace(s[|s| - 1]))
  }

  predicate StartsWith(s: String, prefix: String) {
    |prefix| <= |s| && s[..|prefix|] == prefix
  }

  // ---------------------------------------------------------------------
  // Trimming (`str.lstrip()`, `str.rstrip()`, `str.strip()`)
  // ---------------------------------------------------------------------

  /** The number of whitespace characters at the start of `s`: what
      follows them is not whitespace, and all of them are
      (`LeadingSpacesAll`). */
  function LeadingSpaces(s: String): (n: nat)
    ensures n <= |s|
    ensures n == |s| || !IsSpace(s[n])
  {
    if |s| > 0 && IsSpace(s[0]) then 1 + LeadingSpaces(s[1..]) else 0
  }

  lemma {:induction false} LeadingSpacesAll(s: String)
    ensures AllSpace(s[..LeadingSpaces(s)])
    decreases |s|
  {
    if |s| > 0 && IsSpace(s[0]) {
      LeadingSpacesAll(s[1..]);
      var n := LeadingSpaces(s);
      assert s[..n] == [s[0]] + s[1..][..n - 1];
    }
  }

  /** The number of whitespace characters at the end of `s`: what precedes
      them is not whitespace, and all of them are (`TrailingSpacesAll`). */
  function TrailingSpaces(s: String): (n: nat)
    ensures n <= |s|
    ensures n == |s| || !IsSpace(s[|s| - n - 1])
  {
    if |s| > 0 && IsSpace(s[|s| - 1]) then 1 + TrailingSpaces(s[..|s| - 1]) else 0
  }

  lemma {:induction false} TrailingSpacesAll(s: String)
    ensures AllSpace(s[|s| - TrailingSpaces(s)..])
    decreases |s|
  {
    if |s| > 0 && IsSpace(s[|s| - 1]) {
      TrailingSpacesAll(s[..|s| - 1]);
      var n := TrailingSpaces(s);
      assert s[|s| - n..] == s[..|s| - 1][|s| - n..] + [s[|s| - 1]];
    }
  }

  /** `s.lstrip()`. */
  function TrimStart(s: String): String {
    s[LeadingSpaces(s)..]
  }

  /** `s.rstrip()`. */
  function TrimEnd(s: String): String {
    s[..|s| - TrailingSpaces(s)]
  }

  /** `s.strip()`: `s` without its leading and trailing whitespace. No
      character other than whitespace is lost (`StripKeepsText`), and the
      result is a slice of `s` with only whitespace around it
      (`StripIsSlice`). */
  function Strip(s: String): (r: String)
    ensures Trimmed(r)
    ensures |r| <= |s|
  {
    var i := LeadingSpaces(s);
    var t := s[i..];
    var r := t[..|t| - TrailingSpaces(t)];
    assert r != [] ==> r[0] == s[i];
    r
  }

  /** Whitespace around a text removes to nothing. */
  lemma RemoveSpacesPadded(a: String, m: String, b: String)
    requires AllSpace(a) && AllSpace(b)
    ensures RemoveSpaces(a + m + b) == RemoveSpaces(m)
  {
    RemoveSpacesAppend(a + m, b);
    RemoveSpacesAppend(a, m);
    RemoveSpacesAll(a);
    RemoveSpacesAll(b);
  }

  /** Cutting `i` elements from the front and then `j` from the back is
      the slice `s[i..|s| - j]`, and the cut-off back is `s[|s| - j..]`. */
  lemma CutBothEnds<T>(s: seq<T>, i: nat, j: nat)
    requires i + j <= |s|
    ensures s[i..][..|s| - i - j] == s[i..|s| - j]
    ensures s[i..][|s| - i - j..] == s[|s| - j..]
  {
  }

  /** A sequence is its three slices around `i` and `k`. */
  lemma ThreeParts<T>(s: seq<T>, i: nat, k: nat)
    requires i <= k <= |s|
    ensures s == s[..i] + s[i..k] + s[k..]
  {
  }

  /** Where the stripped text starts in `s`. */
  lemma StripStart(s: String) returns (i: nat)
    ensures i + |Strip(s)| <= |s| && Strip(s) == s[i..i + |Strip(s)|]
    ensures AllSpace(s[..i]) && AllSpace(s[i + |Strip(s)|..])
  {
    i := LeadingSpaces(s);
    var t := s[i..];
    var j := TrailingSpaces(t);
    LeadingSpacesAll(s);
    TrailingSpacesAll(t);
    CutBothEnds(s, i, j);
    assert Strip(s) == s[i..|s| - j];
    assert i + |Strip(s)| == |s| - j;
  }

  /** The stripped text is the slice `s[i..i + |Strip(s)|]`, and everything
      of `s` outside that slice is whitespace. */
  lemma StripIsSlice(s: String)
    ensures exists i :: 0 <= i <= i + |Strip(s)| <= |s| && Strip(s) == s[i..i + |Strip(s)|]
                        && AllSpace(s[..i]) && AllSpace(s[i + |Strip(s)|..])
  {
    var i := StripStart(s);
  }

  lemma StripKeepsText(s: String)
    ensures RemoveSpaces(Strip(s)) == RemoveSpaces(s)
  {
    var r := Strip(s);
    var i := StripStart(s);
    ThreeParts(s, i, i + |r|);
    RemoveSpacesPadded(s[..i], r, s[i + |r|..]);
  }

  /** Text that already has no whitespace at either end is left alone. */
  lemma {:induction false} StripTrimmed(s: String)
    requires Trimmed(s)
    ensures Strip(s) == s
  {
    if s != [] {
      assert LeadingSpaces(s) == 0;
      assert TrailingSpaces(s) == 0;
    }
  }

  /** A single space in front of trimmed text is stripped away. */
  lemma StripSpacePrefix(s: String)
    requires Trimmed(s)
    ensures Strip(" " + s) == s
  {
    var t := " " + s;
    assert t[1..] == s;
    if s != [] {
      assert LeadingSpaces(t) == 1 + LeadingSpaces(s);
      assert LeadingSpaces(s) == 0;
      StripTrimmed(s);
    } else {
      assert LeadingSpaces(t) == 1;
    }
  }

  /** Stripping twice is stripping once. */
  lemma StripIdempotent(s: String)
    ensures Strip(Strip(s)) == Strip(s)
  {
    StripTrimmed(Strip(s));
  }

  // ---------------------------------------------------------------------
  // Separators (`str.split(sep)` with a one-character separator, `join`)
  // ---------------------------------------------------------------------

  /** `sep.join(parts)`. */
  function Join(parts: seq<String>, sep: String): String {
    if |parts| == 0 then []
    else if |parts| == 1 then parts[0]
    else parts[0] + sep + Join(parts[1..], sep)
  }

  /** A join starts with the first part when that part is not empty. */
  lemma JoinFirst(parts: seq<String>, sep: String)
    requires |parts| >= 1 && parts[0] != []
    ensures Join(parts, sep) != [] && Join(parts, sep)[0] == parts[0][0]
  {
  }

  /** A join ends with the last part when that part is not empty. */
  lemma {:induction false} JoinLast(parts: seq<String>, sep: String)
    requires |parts| >= 1 && parts[|parts| - 1] != []
    ensures var j := Join(parts, sep); j != [] && j[|j| - 1] == parts[|parts| - 1][|parts[|parts| - 1]| - 1]
  {
    if |parts| > 1 {
      JoinLast(parts[1..], sep);
    }
  }

  /** The number of occurrences of `c` in `s`. */
  function Occurrences(s: String, c: char): nat {
    if s == [] then 0
    else (if s[0] == c then 1 else 0) + Occurrences(s[1..], c)
  }

  /** `x + y in s` for two characters. */
  predicate HasPair(s: String, x: char, y: char) {
    exists i :: 0 <= i < |s| - 1 && s[i] == x && s[i + 1] == y
  }

  /** The position of the first `c` in `s`. */
  function IndexOf(s: String, c: char): (i: nat)
    requires c in s
    ensures i < |s| && s[i] == c && c !in s[..i]
  {
    if s[0] == c then 0 else 1 + IndexOf(s[1..], c)
  }

  lemma OccurrencesAppend(a: String, b: String, c: char)
    ensures Occurrences(a + b, c) == Occurrences(a, c) + Occurrences(b, c)
  {
    if a == [] {
      assert a + b == b;
    } else {
      assert (a + b)[1..] == a[1..] + b;
      OccurrencesAppend(a[1..], b, c);
    }
  }

  /** The first separator of `a + [c] + b` is the one after `a` when `a`
      has none. */
  lemma {:induction false} IndexOfAfter(a: String, c: char, b: String)
    requires c !in a
    ensures IndexOf(a + [c] + b, c) == |a|
  {
    if a != [] {
      assert (a + [c] + b)[1..] == a[1..] + [c] + b;
      assert c !in a[1..];
      IndexOfAfter(a[1..], c, b);
    }
  }

  /** `s.split(sep)`: the maximal separator-free pieces of `s`, in order.
      There is always one more piece than separators, and joining the
      pieces with the separator gives back `s`. */
  function Split(s: String, sep: char): (r: seq<String>)
    ensures |r| == Occurrences(s, sep) + 1
    ensures forall k :: 0 <= k < |r| ==> sep !in r[k]
    ensures Join(r, [sep]) == s
    decreases |s|
  {
    if sep !in s then
      assert Occurrences(s, sep) == 0 by { NoOccurrences(s, sep); }
      [s]
    else
      var i := IndexOf(s, sep);
      var rest := Split(s[i + 1..], sep);
      assert s == s[..i] + [sep] + s[i + 1..];
      OccurrencesAppend(s[..i] + [sep], s[i + 1..], sep);
      OccurrencesAppend(s[..i], [sep], sep);
      NoOccurrences(s[..i], sep);
      [s[..i]] + rest
  }

  lemma NoOccurrences(s: String, c: char)
    requires c !in s
    ensures Occurrences(s, c) == 0
  {
    if s != [] {
      assert c !in s[1..];
      NoOccurrences(s[1..], c);
    }
  }

  /** Splitting undoes joining: pieces that do not contain the separator
      come back exactly. */
  lemma {:induction false} SplitJoin(parts: seq<String>, sep: char)
    requires |parts| >= 1
    requires forall k :: 0 <= k < |parts| ==> sep !in parts[k]
    ensures Split(Join(parts, [sep]), sep) == parts
  {
    if |parts| > 1 {
      var s := Join(parts, [sep]);
      var tail := Join(parts[1..], [sep]);
      assert s == parts[0] + [sep] + tail;
      assert sep in s by { assert s[|parts[0]|] == sep; }
      var i := IndexOf(s, sep);
      IndexOfAfter(parts[0], sep, tail);
      assert s[..i] == parts[0];
      assert s[i + 1..] == tail;
      SplitJoin(parts[1..], sep);
    }
  }

  // ---------------------------------------------------------------------
  // Words (`str.split()` with no argument)
  // ---------------------------------------------------------------------

  /** The characters of `s` that are not whitespace, in order. */
  function RemoveSpaces(s: String): String {
    if s == [] then []
    else (if IsSpace(s[0]) then [] else [s[0]]) + RemoveSpaces(s[1..])
  }

  lemma RemoveSpacesAppend(a: String, b: String)
    ensures RemoveSpaces(a + b) == RemoveSpaces(a) + RemoveSpaces(b)
  {
    if a == [] {
      assert a + b == b;
    } else {
      assert (a + b)[1..] == a[1..] + b;
      RemoveSpacesAppend(a[1..], b);
    }
  }

  lemma RemoveSpacesAll(s: String)
    requires AllSpace(s)
    ensures RemoveSpaces(s) == []
  {
  }

  lemma RemoveSpacesNone(s: String)
    requires NoSpace(s)
    ensures RemoveSpaces(s) == s
  {
  }

  /** The length of the longest whitespace-free prefix of `s`. */
  function WordLength(s: String): (n: nat)
    ensures n <= |s| && NoSpace(s[..n])
    ensures n == |s| || IsSpace(s[n])
  {
    if s == [] || IsSpace(s[0]) then 0
    else
      var n := 1 + WordLength(s[1..]);
      assert s[..n] == [s[0]] + s[1..][..n - 1];
      n
  }

  /** Concatenation of a sequence of strings. */
  function Concat(parts: seq<String>): String {
    if parts == [] then [] else parts[0] + Concat(parts[1..])
  }

  predicate IsWord(w: String) {
    w != [] && NoSpace(w)
  }

  /** `s.split()`: the maximal runs of non-whitespace characters of `s`, in
      order. Every word is non-empty and free of whitespace, and together
      they hold exactly the non-whitespace characters of `s`. */
  function Words(s: String): (r: seq<String>)
    ensures forall k :: 0 <= k < |r| ==> IsWord(r[k])
    ensures Concat(r) == RemoveSpaces(s)
    decreases |s|
  {
    if s == [] then []
    else if IsSpace(s[0]) then
      assert s == [s[0]] + s[1..];
      Words(s[1..])
    else
      var n := WordLength(s);
      assert s == s[..n] + s[n..];
      RemoveSpacesAppend(s[..n], s[n..]);
      RemoveSpacesNone(s[..n]);
      [s[..n]] + Words(s[n..])
  }

  /** A word followed by nothing or by whitespace is the first word. */
  lemma WordsOfWord(w: String, rest: String)
    requires IsWord(w)
    requires rest == [] || IsSpace(rest[0])
    ensures Words(w + rest) == [w] + Words(rest)
  {
    var s := w + rest;
    WordLengthOfWord(w, rest);
    assert s[..|w|] == w;
    assert s[|w|..] == rest;
  }

  lemma {:induction false} WordLengthOfWord(w: String, rest: String)
    requires NoSpace(w)
    requires rest == [] || IsSpace(rest[0])
    ensures WordLength(w + rest) == |w|
  {
    if w == [] {
      assert w + rest == rest;
    } else {
      assert (w + rest)[1..] == w[1..] + rest;
      WordLengthOfWord(w[1..], rest);
    }
  }

  /** Leading whitespace contributes no words. */
  lemma {:induction false} WordsOfSpace(sp: String, rest: String)
    requires AllSpace(sp)
    ensures Words(sp + rest) == Words(rest)
    decreases |sp|
  {
    if sp == [] {
      assert sp + rest == rest;
    } else {
      var s := sp + rest;
      assert s[1..] == sp[1..] + rest;
      WordsOfSpace(sp[1..], rest);
    }
  }

  /** Splitting into words undoes joining words with single spaces. */
  lemma {:induction false} WordsJoin(ws: seq<String>)
    requires forall k :: 0 <= k < |ws| ==> IsWord(ws[k])
    ensures Words(Join(ws, " ")) == ws
  {
    if |ws| == 0 {
    } else if |ws| == 1 {
      WordsOfWord(ws[0], []);
      assert ws[0] + [] == ws[0];
    } else {
      var tail := Join(ws[1..], " ");
      assert Join(ws, " ") == ws[0] + (" " + tail);
      WordsOfWord(ws[0], " " + tail);
      WordsOfSpace(" ", tail);
      WordsJoin(ws[1..]);
    }
  }

  // ---------------------------------------------------------------------
  // Decimal integers (`int(s)` and `str(n)`)
  // ---------------------------------------------------------------------

  predicate AllDigits(s: String) {
    forall k :: 0 <= k < |s| ==> IsAsciiDigit(s[k])
  }

  /** The value of a string of decimal digits, most significant first. */
  function DigitsValue(s: String): nat
    requires AllDigits(s)
  {
    if s == [] then 0
    else DigitsValue(s[..|s| - 1]) * 10 + (s[|s| - 1] as int - '0' as int)
  }

  /** `str(n)` for a natural number: no leading zeros, at least one digit. */
  function ShowNat(n: nat): (r: String)
    ensures r != [] && AllDigits(r)
    ensures |r| > 1 ==> r[0] != '0'
  {
    var d := ((n % 10) + '0' as int) as char;
    if n < 10 then [d] else ShowNat(n / 10) + [d]
  }

  /** `str(n)` for an integer. */
  function ShowInt(n: int): String {
    if n < 0 then "-" + ShowNat(-n) else ShowNat(n)
  }

  /** Python's `int(s)` on a decimal literal: surrounding whitespace is
      ignored, one optional sign, then at least one ASCII digit. Anything
      else is a `ValueError`, modelled as `None`. */
  function ParseInt(s: String): (r: Option<int>)
    ensures r.Some? ==> exists d :: d != [] && AllDigits(d) && (Strip(s) == d || Strip(s) == "+" + d || Strip(s) == "-" + d)
  {
    var t := Strip(s);
    if t != [] && (t[0] == '+' || t[0] == '-') then
      var d := t[1..];
      if d != [] && AllDigits(d) then
        assert t == [t[0]] + d;
        Some(if t[0] == '-' then -(DigitsValue(d) as int) else DigitsValue(d))
      else None
    else if t != [] && AllDigits(t) then Some(DigitsValue(t))
    else None
  }

  lemma {:induction false} DigitsValueShowNat(n: nat)
    ensures DigitsValue(ShowNat(n)) == n
  {
    var d := ((n % 10) + '0' as int) as char;
    if n >= 10 {
      var s := ShowNat(n);
      assert s == ShowNat(n / 10) + [d];
      assert s[..|s| - 1] == ShowNat(n / 10);
      DigitsValueShowNat(n / 10);
    }
  }

  /** Reading back what `ShowInt` printed gives the same integer. */
  lemma ParseShowInt(n: int)
    ensures ParseInt(ShowInt(n)) == Some(n)
  {
    var s := ShowInt(n);
    var m: nat := if n < 0 then -n else n;
    DigitsValueShowNat(m);
    StripTrimmed(s);
    if n < 0 {
      assert s[1..] == ShowNat(m);
    }
  }
}
