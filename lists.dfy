/** Sequences used as the .NET List<T> values the keyboard keeps. */
module Lists {

  /** No element occurs twice. */
  predicate NoDup<T(==)>(xs: seq<T>) {
    forall i, j :: 0 <= i < j < |xs| ==> xs[i] != xs[j]
  }

  /** List<T>.Remove: drops the first occurrence of x; a list without x is returned as it is. */
  function Remove<T(==)>(xs: seq<T>, x: T): seq<T> {
    if xs == [] then []
    else if xs[0] == x then xs[1..]
    else [xs[0]] + Remove(xs[1..], x)
  }

  /** Removing an element that is not there changes nothing. */
  lemma {:induction false} RemoveAbsent<T>(xs: seq<T>, x: T)
    requires x !in xs
    ensures Remove(xs, x) == xs
  {
    if xs != [] {
      RemoveAbsent(xs[1..], x);
    }
  }

  /** In a list without duplicates, Remove takes out exactly x: the only occurrence goes,
      every other element stays, and the list stays duplicate-free and one shorter. */
  lemma {:induction false} RemoveExactly<T>(xs: seq<T>, x: T)
    requires NoDup(xs)
    ensures NoDup(Remove(xs, x))
    ensures forall y :: y in Remove(xs, x) <==> y in xs && y != x
    ensures |Remove(xs, x)| == if x in xs then |xs| - 1 else |xs|
  {
    if xs != [] {
      assert NoDup(xs[1..]);
      RemoveExactly(xs[1..], x);
      if xs[0] != x {
        var r := Remove(xs[1..], x);
        assert Remove(xs, x) == [xs[0]] + r;
        assert xs[0] !in xs[1..];
        forall i, j | 0 <= i < j < |[xs[0]] + r|
          ensures ([xs[0]] + r)[i] != ([xs[0]] + r)[j]
        {
          if i == 0 {
            assert ([xs[0]] + r)[j] == r[j - 1];
          }
        }
      } else {
        assert xs == [x] + xs[1..];
      }
    }
  }

  /** Removing an element that was appended after a prefix not containing it gives back the
      prefix followed by the rest: the occurrence removed is the appended one. */
  lemma {:induction false} RemoveAfterPrefix<T>(xs: seq<T>, x: T, ys: seq<T>)
    requires x !in xs
    ensures Remove(xs + [x] + ys, x) == xs + ys
  {
    if xs == [] {
      assert [x] + ys == xs + [x] + ys;
    } else {
      assert (xs + [x] + ys)[1..] == xs[1..] + [x] + ys;
      RemoveAfterPrefix(xs[1..], x, ys);
      assert xs + ys == [xs[0]] + (xs[1..] + ys);
    }
  }

  /** Appending an element not yet present keeps a list duplicate-free. */
  lemma AppendFresh<T>(xs: seq<T>, x: T)
    requires NoDup(xs) && x !in xs
    ensures NoDup(xs + [x])
  {
  }
}
