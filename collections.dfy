/** Small facts about sequences used as ordered lists of ids. */
module Collections {

  function Elems<T>(s: seq<T>): set<T> {
    set x | x in s
  }

  predicate NoDup<T(==)>(s: seq<T>) {
    forall i, j :: 0 <= i < j < |s| ==> s[i] != s[j]
  }

  /** Appending a new element keeps a list free of repeats. */
  lemma NoDupSnoc<T>(s: seq<T>, x: T)
    requires NoDup(s) && x !in s
    ensures NoDup(s + [x]) && Elems(s + [x]) == Elems(s) + {x}
  {
  }

  /**
    Regrouping a concatenation. The verifier knows this fact, but asserting it inline on long
    sequence terms costs far more than calling it as a lemma.
  */
  lemma ConcatAssoc<T>(a: seq<T>, b: seq<T>, c: seq<T>)
    ensures (a + b) + c == a + (b + c)
  {
  }

  /** `s` without the elements of `drop`, order kept (a `retain`). */
  function Without<T(==,!new)>(s: seq<T>, drop: set<T>): (r: seq<T>)
    ensures forall x :: x in r <==> x in s && x !in drop
    ensures NoDup(s) ==> NoDup(r)
    ensures |r| <= |s|
  {
    if s == [] then []
    else if s[0] in drop then Without(s[1..], drop)
    else [s[0]] + Without(s[1..], drop)
  }

  lemma {:induction false} WithoutTwice<T(!new)>(s: seq<T>, a: set<T>, b: set<T>)
    ensures Without(Without(s, a), b) == Without(s, a + b)
  {
    if s != [] {
      WithoutTwice(s[1..], a, b);
      if s[0] !in a {
        assert ([s[0]] + Without(s[1..], a))[1..] == Without(s[1..], a);
      }
    }
  }

  lemma {:induction false} WithoutNothing<T(!new)>(s: seq<T>, drop: set<T>)
    requires forall x :: x in s ==> x !in drop
    ensures Without(s, drop) == s
  {
    if s != [] {
      WithoutNothing(s[1..], drop);
      assert s == [s[0]] + s[1..];
    }
  }
}
