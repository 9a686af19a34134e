/** Order-preserving de-duplication of sequences, as built by spreading a
    JavaScript `Set` that was filled from a list: each value is kept at its
    first occurrence. */
module Sequences {

  /** The elements of `xs` that are not in `seen`, each kept once, at its
      first occurrence in `xs`, in the order of `xs`. */
  function Distinct<T(==)>(xs: seq<T>, seen: seq<T>): (r: seq<T>)
    ensures |r| <= |xs|
    ensures forall i :: 0 <= i < |r| ==> r[i] in xs && r[i] !in seen
    ensures forall i :: 0 <= i < |xs| && xs[i] !in seen ==> xs[i] in r
    ensures forall i, j :: 0 <= i < j < |r| ==> r[i] != r[j]
  {
    if xs == [] then []
    else if xs[0] in seen then Distinct(xs[1..], seen)
    else [xs[0]] + Distinct(xs[1..], seen + [xs[0]])
  }

  /** Nothing is kept when every element was already seen. */
  lemma {:induction false} DistinctAllSeen<T>(xs: seq<T>, seen: seq<T>)
    requires forall i :: 0 <= i < |xs| ==> xs[i] in seen
    ensures Distinct(xs, seen) == []
  {
    if xs != [] {
      DistinctAllSeen(xs[1..], seen);
    }
  }

  /** Position of the first occurrence of `x` in `xs`. */
  function IndexOf<T(==)>(xs: seq<T>, x: T): (i: nat)
    requires x in xs
    ensures i < |xs| && xs[i] == x
    ensures forall j :: 0 <= j < i ==> xs[j] != x
  {
    if xs[0] == x then 0 else 1 + IndexOf(xs[1..], x)
  }

  /** Every element of `r` occurs in `xs`, and `r` lists them in the order
      in which they first occur in `xs`. */
  predicate InFirstOccurrenceOrder<T(==)>(r: seq<T>, xs: seq<T>)
  {
    && (forall i :: 0 <= i < |r| ==> r[i] in xs)
    && (forall i, j :: 0 <= i < j < |r| ==> IndexOf(xs, r[i]) < IndexOf(xs, r[j]))
  }

  /** Adding one element at the end of the input adds it at the end of the
      output, unless it was seen or already occurs. */
  lemma {:induction false} DistinctSnoc<T>(xs: seq<T>, x: T, seen: seq<T>)
    ensures Distinct(xs + [x], seen)
         == Distinct(xs, seen) + (if x in seen || x in xs then [] else [x])
  {
    if xs == [] {
      assert [] + [x] == [x];
    } else {
      assert (xs + [x])[0] == xs[0];
      assert (xs + [x])[1..] == xs[1..] + [x];
      assert x in xs <==> x == xs[0] || x in xs[1..];
      if xs[0] in seen {
        DistinctSnoc(xs[1..], x, seen);
      } else {
        DistinctSnoc(xs[1..], x, seen + [xs[0]]);
      }
    }
  }

  /** The output lists its values in the order of their first occurrence in
      the input. */
  lemma {:induction false} DistinctKeepsFirstOccurrenceOrder<T>(xs: seq<T>, seen: seq<T>)
    ensures InFirstOccurrenceOrder(Distinct(xs, seen), xs)
  {
    var r := Distinct(xs, seen);
    forall i, j | 0 <= i < j < |r|
      ensures IndexOf(xs, r[i]) < IndexOf(xs, r[j])
    {
      DistinctOrderAt(xs, seen, i, j);
    }
  }

  lemma {:induction false} DistinctOrderAt<T>(xs: seq<T>, seen: seq<T>, i: nat, j: nat)
    requires i < j < |Distinct(xs, seen)|
    ensures IndexOf(xs, Distinct(xs, seen)[i]) < IndexOf(xs, Distinct(xs, seen)[j])
    decreases |xs|, 2
  {
    if xs[0] in seen {
      DistinctOrderSkip(xs, seen, i, j);
    } else {
      DistinctOrderKeep(xs, seen, i, j);
    }
  }

  /** The order step when the head was already seen and is dropped. */
  lemma {:induction false} DistinctOrderSkip<T>(xs: seq<T>, seen: seq<T>, i: nat, j: nat)
    requires i < j < |Distinct(xs, seen)| && xs[0] in seen
    ensures IndexOf(xs, Distinct(xs, seen)[i]) < IndexOf(xs, Distinct(xs, seen)[j])
    decreases |xs|, 0
  {
    var r := Distinct(xs, seen);
    var t := xs[1..];
    assert r == Distinct(t, seen);
    IndexOfTail(xs, r[j]);
    IndexOfTail(xs, r[i]);
    DistinctOrderAt(t, seen, i, j);
  }

  /** The order step when the head is kept as the first output value. */
  lemma {:induction false} DistinctOrderKeep<T>(xs: seq<T>, seen: seq<T>, i: nat, j: nat)
    requires i < j < |Distinct(xs, seen)| && xs[0] !in seen
    ensures IndexOf(xs, Distinct(xs, seen)[i]) < IndexOf(xs, Distinct(xs, seen)[j])
    decreases |xs|, 1
  {
    if i == 0 {
      KeptAfterHead(xs, seen, j);
      HeadKeptFirst(xs, seen);
    } else {
      DistinctOrderKeepLater(xs, seen, i, j);
    }
  }

  /** Two output values after a kept head keep their order from the tail. */
  lemma {:induction false} DistinctOrderKeepLater<T>(xs: seq<T>, seen: seq<T>, i: nat, j: nat)
    requires 0 < i < j < |Distinct(xs, seen)| && xs[0] !in seen
    ensures IndexOf(xs, Distinct(xs, seen)[i]) < IndexOf(xs, Distinct(xs, seen)[j])
    decreases |xs|, 0
  {
    KeptAfterHead(xs, seen, i);
    KeptAfterHead(xs, seen, j);
    DistinctOrderAt(xs[1..], seen + [xs[0]], i - 1, j - 1);
  }

  /** A kept head is the first output value, at input position 0. */
  lemma HeadKeptFirst<T>(xs: seq<T>, seen: seq<T>)
    requires 0 < |xs| && xs[0] !in seen
    ensures 0 < |Distinct(xs, seen)| && Distinct(xs, seen)[0] == xs[0]
    ensures IndexOf(xs, xs[0]) == 0
  {
  }

  /** When the head is kept, every later output value comes from the tail,
      one place further on in the input. */
  lemma KeptAfterHead<T>(xs: seq<T>, seen: seq<T>, j: nat)
    requires 0 < j < |Distinct(xs, seen)| && xs[0] !in seen
    ensures var rest := Distinct(xs[1..], seen + [xs[0]]);
      && j - 1 < |rest|
      && Distinct(xs, seen)[j] == rest[j - 1]
      && IndexOf(xs, rest[j - 1]) == 1 + IndexOf(xs[1..], rest[j - 1])
  {
    var rest := Distinct(xs[1..], seen + [xs[0]]);
    var b := rest[j - 1];
    assert b != xs[0];
    IndexOfTail(xs, b);
  }

  /** Past the head, positions in a sequence are one more than in its tail. */
  lemma IndexOfTail<T>(xs: seq<T>, y: T)
    requires |xs| > 0 && y in xs[1..] && y != xs[0]
    ensures IndexOf(xs, y) == 1 + IndexOf(xs[1..], y)
  {
  }
}
