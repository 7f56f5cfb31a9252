/** Facts about finite sets and maps the other modules rely on. */
module Collections {

  /** A non-empty sequence is its front followed by its last element. */
  lemma LastElement<T>(s: seq<T>)
    requires s != []
    ensures s == s[..|s| - 1] + [s[|s| - 1]]
  {
  }

  /** Dropping a prefix of the first part of a concatenation. */
  lemma DropAppend<T>(a: seq<T>, b: seq<T>, k: nat)
    requires k <= |a|
    ensures (a + b)[k..] == a[k..] + b
  {
  }

  /** Concatenation is associative. */
  lemma Associative<T>(x: seq<T>, y: seq<T>, z: seq<T>)
    ensures x + (y + z) == (x + y) + z
  {
  }

  /** A non-empty set has an element. */
  lemma NonEmptySet<T>(s: set<T>) returns (x: T)
    requires s != {}
    ensures x in s
  {
    assert (forall y :: y !in s) ==> s == {};
    x :| x in s;
  }

  /** Moving `x` from the unvisited part of a split of `whole` to the
      visited part is still a split of `whole`. */
  lemma MoveOne<T>(done: set<T>, todo: set<T>, whole: set<T>, x: T)
    requires done + todo == whole && done !! todo && x in todo
    ensures (done + {x}) + (todo - {x}) == whole && (done + {x}) !! (todo - {x})
  {
  }

  lemma NonEmptyMap<V>(m: map<int, V>)
    requires m != map[]
    ensures exists k :: k in m
  {
    assert (forall k :: k !in m) ==> m == map[];
  }

  lemma MaxExists(s: set<int>)
    requires s != {}
    ensures exists m :: m in s && forall x :: x in s ==> x <= m
    decreases |s|
  {
    var x := NonEmptySet(s);
    if s == {x} {
      assert forall y :: y in s ==> y <= x;
    } else {
      var rest := s - {x};
      MaxExists(rest);
      var m :| m in rest && forall y :: y in rest ==> y <= m;
      var top := if x > m then x else m;
      assert forall y :: y in s ==> y == x || y in rest;
      assert top in s && forall y :: y in s ==> y <= top;
    }
  }

  /** The largest element of a non-empty finite set of integers. */
  function MaxOf(s: set<int>): (m: int)
    requires s != {}
    ensures m in s && forall x :: x in s ==> x <= m
  {
    MaxExists(s);
    var m :| m in s && forall x :: x in s ==> x <= m;
    m
  }

  /** The smallest element of a non-empty finite set of integers. */
  function MinOf(s: set<int>): (m: int)
    requires s != {}
    ensures m in s && forall x :: x in s ==> m <= x
  {
    var negated := set x | x in s :: -x;
    assert exists y :: y in s by {
      var y := NonEmptySet(s);
    }
    var y :| y in s;
    assert -y in negated;
    var n := MaxOf(negated);
    assert forall x :: x in s ==> -x in negated;
    -n
  }
}
