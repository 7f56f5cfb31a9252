/** The two orders the selector uses: raw rank (the database's
    `ORDER BY rank ASC`) and the per-user key `(rank + penalty, rank)`
    (Python's `list.sort(key=...)`). Both are modelled by one stable
    insertion sort on the key `(EffectiveRank, rank)`; with no penalties the
    key order is the raw-rank order (`KeyLeNoPenalty`). Ties the database
    leaves unordered are resolved by catalog position, and every property
    below holds whatever the tie-break. */
module Ordering {
  import opened Store

  /** `(rank + penalty, rank)` of `a` is lexicographically at most that of
      `b`. */
  predicate KeyLe(a: Character, b: Character, penalties: map<CharId, int>) {
    var ea := EffectiveRank(a, penalties);
    var eb := EffectiveRank(b, penalties);
    ea < eb || (ea == eb && a.rank <= b.rank)
  }

  /** Without penalties the key order is the raw-rank order. */
  lemma KeyLeNoPenalty(a: Character, b: Character)
    ensures KeyLe(a, b, map[]) <==> a.rank <= b.rank
  {
  }

  predicate SortedBy(s: seq<Character>, penalties: map<CharId, int>) {
    forall i, j :: 0 <= i < j < |s| ==> KeyLe(s[i], s[j], penalties)
  }

  lemma KeyLeTotal(a: Character, b: Character, penalties: map<CharId, int>)
    ensures KeyLe(a, b, penalties) || KeyLe(b, a, penalties)
  {
  }

  lemma KeyLeTransitive(a: Character, b: Character, c: Character, penalties: map<CharId, int>)
    requires KeyLe(a, b, penalties) && KeyLe(b, c, penalties)
    ensures KeyLe(a, c, penalties)
  {
  }

  lemma SortedCons(x: Character, s: seq<Character>, penalties: map<CharId, int>)
    requires SortedBy(s, penalties)
    requires forall y :: y in s ==> KeyLe(x, y, penalties)
    ensures SortedBy([x] + s, penalties)
  {
    var r := [x] + s;
    forall i, j | 0 <= i < j < |r| ensures KeyLe(r[i], r[j], penalties) {
      if i == 0 {
        assert r[j] == s[j - 1];
      } else {
        assert r[i] == s[i - 1] && r[j] == s[j - 1];
      }
    }
  }

  /** Places `c` in front of the first element it is not after. */
  function Insert(c: Character, s: seq<Character>, penalties: map<CharId, int>): (r: seq<Character>)
    requires SortedBy(s, penalties)
    ensures SortedBy(r, penalties)
    ensures multiset(r) == multiset(s) + multiset{c}
  {
    if s == [] then [c]
    else if KeyLe(c, s[0], penalties) then
      InsertFront(c, s, penalties);
      [c] + s
    else
      var rest := Insert(c, s[1..], penalties);
      InsertBehind(c, s, rest, penalties);
      [s[0]] + rest
  }

  lemma InsertFront(c: Character, s: seq<Character>, penalties: map<CharId, int>)
    requires SortedBy(s, penalties) && s != [] && KeyLe(c, s[0], penalties)
    ensures SortedBy([c] + s, penalties)
  {
    forall y | y in s ensures KeyLe(c, y, penalties) {
      var j :| 0 <= j < |s| && s[j] == y;
      if j > 0 {
        KeyLeTransitive(c, s[0], y, penalties);
      }
    }
    SortedCons(c, s, penalties);
  }

  lemma InsertBehind(c: Character, s: seq<Character>, rest: seq<Character>, penalties: map<CharId, int>)
    requires SortedBy(s, penalties) && s != [] && !KeyLe(c, s[0], penalties)
    requires SortedBy(rest, penalties)
    requires multiset(rest) == multiset(s[1..]) + multiset{c}
    ensures SortedBy([s[0]] + rest, penalties)
    ensures multiset([s[0]] + rest) == multiset(s) + multiset{c}
  {
    assert s == [s[0]] + s[1..];
    KeyLeTotal(c, s[0], penalties);
    forall y | y in rest ensures KeyLe(s[0], y, penalties) {
      assert y in multiset(rest);
      if y != c {
        assert y in multiset(s[1..]);
        var j :| 0 <= j < |s[1..]| && s[1..][j] == y;
        assert s[j + 1] == y;
      }
    }
    SortedCons(s[0], rest, penalties);
  }

  /** The elements of `s` in non-decreasing key order. */
  function Sort(s: seq<Character>, penalties: map<CharId, int>): (r: seq<Character>)
    ensures SortedBy(r, penalties)
    ensures multiset(r) == multiset(s)
  {
    if s == [] then []
    else
      assert s == [s[0]] + s[1..];
      Insert(s[0], Sort(s[1..], penalties), penalties)
  }

  function Min(a: int, b: int): int {
    if a <= b then a else b
  }

  /** `sorted(s, key=...)[:k]`: the `k` best elements of `s` by key. Every
      kept element's key is at most every dropped element's key. */
  function Best(s: seq<Character>, k: nat, penalties: map<CharId, int>): (r: seq<Character>)
    ensures |r| == Min(k, |s|)
    ensures multiset(r) <= multiset(s)
    ensures SortedBy(r, penalties)
    ensures forall x, y :: x in r && y in multiset(s) - multiset(r) ==> KeyLe(x, y, penalties)
  {
    var sorted := Sort(s, penalties);
    SortedPrefix(sorted, Min(k, |s|), penalties);
    sorted[..Min(k, |s|)]
  }

  /** A prefix of a sorted sequence is sorted, and each of its elements is
      at most each element left behind. */
  lemma SortedPrefix(sorted: seq<Character>, m: nat, penalties: map<CharId, int>)
    requires SortedBy(sorted, penalties) && m <= |sorted|
    ensures multiset(sorted[..m]) <= multiset(sorted)
    ensures SortedBy(sorted[..m], penalties)
    ensures forall x, y :: x in sorted[..m] && y in multiset(sorted) - multiset(sorted[..m]) ==> KeyLe(x, y, penalties)
  {
    assert sorted == sorted[..m] + sorted[m..];
    assert multiset(sorted) == multiset(sorted[..m]) + multiset(sorted[m..]);
    forall x, y | x in sorted[..m] && y in multiset(sorted) - multiset(sorted[..m])
      ensures KeyLe(x, y, penalties)
    {
      assert y in multiset(sorted[m..]);
      var i :| 0 <= i < m && sorted[i] == x;
      var j :| m <= j < |sorted| && sorted[j] == y;
    }
  }

  /** `ORDER BY rank ASC LIMIT k`: the `k` lowest-rank elements of `s`. */
  function Lowest(s: seq<Character>, k: nat): (r: seq<Character>)
    ensures |r| == Min(k, |s|)
    ensures multiset(r) <= multiset(s)
    ensures forall x, y :: x in r && y in multiset(s) - multiset(r) ==> x.rank <= y.rank
    ensures SortedBy(r, map[])
  {
    var r := Best(s, k, map[]);
    assert forall x, y :: KeyLe(x, y, map[]) ==> x.rank <= y.rank;
    r
  }
}
