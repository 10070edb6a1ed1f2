/** The array operations the handlers of main.js use (`filter`, a loop that
    pushes what each element yields, `[...new Set(xs)]`), over `seq`. */
module JsArray {

  /** `xs.filter(keep)`. */
  function Filter<T>(keep: T -> bool, xs: seq<T>): (r: seq<T>)
    ensures |r| <= |xs|
    ensures forall x <- r :: keep(x) && x in xs
  {
    if xs == [] then []
    else (if keep(xs[0]) then [xs[0]] else []) + Filter(keep, xs[1..])
  }

  /** What a loop collects when it pushes, for each element in turn, the
      values `each` gives for it. */
  function Collect<T, U>(each: T -> seq<U>, xs: seq<T>): seq<U> {
    if xs == [] then [] else each(xs[0]) + Collect(each, xs[1..])
  }

  /** Filtering works element by element, in order. */
  lemma {:induction false} FilterConcat<T>(keep: T -> bool, a: seq<T>, b: seq<T>)
    ensures Filter(keep, a + b) == Filter(keep, a) + Filter(keep, b)
  {
    if a == [] {
      assert a + b == b;
    } else {
      assert (a + b)[1..] == a[1..] + b;
      FilterConcat(keep, a[1..], b);
    }
  }

  /** Filtering keeps an element exactly when it passes the test. */
  lemma FilterOne<T>(keep: T -> bool, x: T)
    ensures Filter(keep, [x]) == if keep(x) then [x] else []
  {
    assert [x][1..] == [];
  }

  /** Every element that passes the test is kept. */
  lemma {:induction false} FilterComplete<T>(keep: T -> bool, xs: seq<T>, x: T)
    requires x in xs && keep(x)
    ensures x in Filter(keep, xs)
  {
    if xs[0] != x {
      FilterComplete(keep, xs[1..], x);
    }
  }

  /** Collecting works element by element, in order. */
  lemma {:induction false} CollectConcat<T, U>(each: T -> seq<U>, a: seq<T>, b: seq<T>)
    ensures Collect(each, a + b) == Collect(each, a) + Collect(each, b)
  {
    if a == [] {
      assert a + b == b;
    } else {
      assert (a + b)[1..] == a[1..] + b;
      CollectConcat(each, a[1..], b);
    }
  }

  /** A single element yields what it yields. */
  lemma CollectOne<T, U>(each: T -> seq<U>, x: T)
    ensures Collect(each, [x]) == each(x)
  {
    assert [x][1..] == [];
  }

  /** One more element adds what it yields at the end. */
  lemma CollectSnoc<T, U>(each: T -> seq<U>, xs: seq<T>, i: nat)
    requires i < |xs|
    ensures Collect(each, xs[..i + 1]) == Collect(each, xs[..i]) + each(xs[i])
  {
    CollectConcat(each, xs[..i], [xs[i]]);
    assert xs[..i + 1] == xs[..i] + [xs[i]];
    assert [xs[i]][1..] == [];
  }

  /** Every collected value is yielded by some element. */
  lemma {:induction false} CollectOrigin<T, U>(each: T -> seq<U>, xs: seq<T>, u: U)
    requires u in Collect(each, xs)
    ensures exists x :: x in xs && u in each(x)
  {
    if u in each(xs[0]) {
      assert xs[0] in xs;
    } else {
      CollectOrigin(each, xs[1..], u);
      var x :| x in xs[1..] && u in each(x);
      assert x in xs;
    }
  }

  /** Everything an element yields is collected. */
  lemma {:induction false} CollectComplete<T, U>(each: T -> seq<U>, xs: seq<T>, x: T, u: U)
    requires x in xs && u in each(x)
    ensures u in Collect(each, xs)
  {
    if xs[0] != x {
      CollectComplete(each, xs[1..], x, u);
    }
  }

  // ---------------------------------------------------------------------
  // [...new Set(xs)]

  /** Index of the first occurrence of `x` in `xs`. */
  function FirstIndex<T(==)>(xs: seq<T>, x: T): (i: nat)
    requires x in xs
    ensures i < |xs| && xs[i] == x
    ensures forall k :: 0 <= k < i ==> xs[k] != x
  {
    if xs[0] == x then 0 else 1 + FirstIndex(xs[1..], x)
  }

  /** The elements of `xs` not in `seen`, each once, in the order a `Set`
      built by inserting the elements of `xs` one by one after those of
      `seen` lists them. */
  function UniqueFrom<T(==)>(xs: seq<T>, seen: set<T>): seq<T> {
    if xs == [] then []
    else if xs[0] in seen then UniqueFrom(xs[1..], seen)
    else [xs[0]] + UniqueFrom(xs[1..], seen + {xs[0]})
  }

  /** `[...new Set(xs)]`. */
  function Unique<T(==)>(xs: seq<T>): seq<T> {
    UniqueFrom(xs, {})
  }

  lemma {:induction false} UniqueFromElements<T>(xs: seq<T>, seen: set<T>)
    ensures forall x <- UniqueFrom(xs, seen) :: x in xs && x !in seen
    ensures forall x <- xs :: x !in seen ==> x in UniqueFrom(xs, seen)
  {
    if xs != [] {
      UniqueFromElements(xs[1..], seen + {xs[0]});
      UniqueFromElements(xs[1..], seen);
      assert xs == [xs[0]] + xs[1..];
    }
  }

  /** Every element of `r` occurs in `xs`, and the elements of `r` come in
      the order of their first occurrences in `xs`. */
  predicate InFirstOccurrenceOrder<T(==)>(xs: seq<T>, r: seq<T>) {
    forall i, j :: 0 <= i < j < |r| ==>
      r[i] in xs && r[j] in xs && FirstIndex(xs, r[i]) < FirstIndex(xs, r[j])
  }

  lemma {:induction false} UniqueFromOrder<T>(xs: seq<T>, seen: set<T>)
    ensures InFirstOccurrenceOrder(xs, UniqueFrom(xs, seen))
  {
    if xs != [] {
      var seen' := if xs[0] in seen then seen else seen + {xs[0]};
      UniqueFromOrder(xs[1..], seen');
      UniqueFromElements(xs[1..], seen');
      assert xs[0] in seen';
      forall y <- UniqueFrom(xs[1..], seen') ensures y in xs[1..] && y != xs[0] {
      }
      OrderCons(xs, UniqueFrom(xs[1..], seen'), xs[0] !in seen);
    }
  }

  /** Putting the head of `xs` in front of a list ordered by first
      occurrence in the tail of `xs`, or leaving it out, gives a list
      ordered by first occurrence in `xs`. */
  lemma OrderCons<T>(xs: seq<T>, rest: seq<T>, keepHead: bool)
    requires xs != []
    requires forall y <- rest :: y in xs[1..] && y != xs[0]
    requires InFirstOccurrenceOrder(xs[1..], rest)
    ensures InFirstOccurrenceOrder(xs, if keepHead then [xs[0]] + rest else rest)
  {
    forall y <- rest ensures y in xs && FirstIndex(xs, y) == 1 + FirstIndex(xs[1..], y) {
      FirstIndexTail(xs, y);
    }
    if keepHead {
      var r := [xs[0]] + rest;
      forall i, j | 0 <= i < j < |r|
        ensures r[i] in xs && r[j] in xs && FirstIndex(xs, r[i]) < FirstIndex(xs, r[j])
      {
        assert r[j] == rest[j - 1] && rest[j - 1] in rest;
        if i > 0 {
          assert r[i] == rest[i - 1] && rest[i - 1] in rest;
        }
      }
    } else {
      forall i, j | 0 <= i < j < |rest|
        ensures rest[i] in xs && rest[j] in xs && FirstIndex(xs, rest[i]) < FirstIndex(xs, rest[j])
      {
        assert rest[i] in rest && rest[j] in rest;
      }
    }
  }

  lemma FirstIndexTail<T>(xs: seq<T>, y: T)
    requires xs != [] && y in xs[1..] && y != xs[0]
    ensures y in xs && FirstIndex(xs, y) == 1 + FirstIndex(xs[1..], y)
  {
  }

  /** The result lists the elements in the order of their first occurrence
      in `xs`, and therefore holds no element twice. */
  lemma UniqueOrder<T>(xs: seq<T>)
    ensures var r := Unique(xs);
      && (forall x :: x in r <==> x in xs)
      && InFirstOccurrenceOrder(xs, r)
      && (forall i, j :: 0 <= i < j < |r| ==> r[i] != r[j])
  {
    UniqueFromElements(xs, {});
    UniqueFromOrder(xs, {});
    var r := Unique(xs);
    forall i, j | 0 <= i < j < |r| ensures r[i] != r[j] {
      assert FirstIndex(xs, r[i]) < FirstIndex(xs, r[j]);
    }
  }

  /** A sequence without repeated elements is left as it is. */
  lemma {:induction false} UniqueOfDistinct<T>(xs: seq<T>, seen: set<T>)
    requires forall i, j :: 0 <= i < j < |xs| ==> xs[i] != xs[j]
    requires forall x <- xs :: x !in seen
    ensures UniqueFrom(xs, seen) == xs
  {
    if xs != [] {
      forall x <- xs[1..] ensures x !in seen + {xs[0]} {
        var k :| 0 <= k < |xs[1..]| && xs[1..][k] == x;
        assert xs[k + 1] == x;
      }
      UniqueOfDistinct(xs[1..], seen + {xs[0]});
    }
  }

  /** Removing duplicates twice is removing them once. */
  lemma UniqueIdempotent<T>(xs: seq<T>)
    ensures Unique(Unique(xs)) == Unique(xs)
  {
    UniqueOrder(xs);
    UniqueOfDistinct(Unique(xs), {});
  }
}
