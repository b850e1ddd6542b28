/** Flattening, and Python's stable `sorted`. */
module Lists {

  ghost function SetOf<T>(xs: seq<T>): set<T> {
    set x | x in xs
  }

  // ----- Flattening -----

  function Flatten<T>(parts: seq<seq<T>>): seq<T> {
    if parts == [] then [] else Flatten(parts[..|parts| - 1]) + parts[|parts| - 1]
  }

  lemma FlattenSnoc<T>(parts: seq<seq<T>>, part: seq<T>)
    ensures Flatten(parts + [part]) == Flatten(parts) + part
  {
    assert (parts + [part])[..|parts|] == parts;
  }

  lemma Assoc<T>(xs: seq<T>, ys: seq<T>, zs: seq<T>)
    ensures (xs + ys) + zs == xs + (ys + zs)
  {
  }

  lemma {:induction false} FlattenAppend<T>(xs: seq<seq<T>>, ys: seq<seq<T>>)
    ensures Flatten(xs + ys) == Flatten(xs) + Flatten(ys)
  {
    if ys == [] {
      assert xs + ys == xs;
    } else {
      var front, last := ys[..|ys| - 1], ys[|ys| - 1];
      assert (xs + ys)[..|xs + ys| - 1] == xs + front;
      FlattenAppend(xs, front);
      Assoc(Flatten(xs), Flatten(front), last);
    }
  }

  lemma FlattenTwo<T>(parts: seq<seq<T>>, n: nat)
    requires n <= |parts|
    ensures Flatten(parts) == Flatten(parts[..n]) + Flatten(parts[n..])
  {
    assert parts == parts[..n] + parts[n..];
    FlattenAppend(parts[..n], parts[n..]);
  }

  lemma FlattenThree<T>(parts: seq<seq<T>>, lo: nat, hi: nat)
    requires lo <= hi <= |parts|
    ensures Flatten(parts)
            == Flatten(parts[..lo]) + Flatten(parts[lo..hi]) + Flatten(parts[hi..])
  {
    FlattenTwo(parts, hi);
    FlattenTwo(parts[..hi], lo);
    assert parts[..hi][..lo] == parts[..lo] && parts[..hi][lo..] == parts[lo..hi];
  }

  lemma FlattenAround<T>(parts: seq<seq<T>>, k: nat)
    requires k < |parts|
    ensures Flatten(parts) == Flatten(parts[..k]) + parts[k] + Flatten(parts[k + 1..])
  {
    FlattenTwo(parts, k + 1);
    assert Flatten(parts[..k + 1]) == Flatten(parts[..k]) + parts[k] by {
      assert parts[..k + 1][..k] == parts[..k];
    }
  }

  lemma FlattenPrefix<T>(parts: seq<seq<T>>, a: nat, b: nat)
    requires a < b <= |parts|
    ensures |Flatten(parts[..a])| + |parts[a]| <= |Flatten(parts[..b])|
  {
    FlattenAround(parts[..b], a);
    assert parts[..b][..a] == parts[..a];
  }

  lemma {:induction false} FlattenEmpties<T>(parts: seq<seq<T>>)
    requires forall i | 0 <= i < |parts| :: parts[i] == []
    ensures Flatten(parts) == []
  {
    if parts != [] {
      FlattenEmpties(parts[..|parts| - 1]);
    }
  }

  /** One full part followed by empty ones. */
  lemma FlattenHead<T>(parts: seq<seq<T>>)
    requires parts != [] && forall i | 0 < i < |parts| :: parts[i] == []
    ensures Flatten(parts) == parts[0]
  {
    FlattenTwo(parts, 1);
    FlattenEmpties(parts[1..]);
    assert parts[..1] == [] + [parts[0]];
    FlattenSnoc([], parts[0]);
  }

  /** A slice assignment, seen on the list before and after it. */
  lemma SliceAssign<T>(xs: seq<T>, lo: nat, hi: nat, middle: seq<T>,
                       tail: seq<T>, before: seq<T>)
    requires lo <= hi <= |xs| && before == xs[..hi] + tail
    ensures hi <= |before|
    ensures xs[..lo] + middle + tail == before[..lo] + middle + before[hi..]
  {
    assert before[..lo] == xs[..lo];
    assert before[hi..] == tail;
  }

  lemma {:induction false} FlattenSingles<T>(parts: seq<seq<T>>, xs: seq<T>)
    requires |parts| == |xs| && forall i | 0 <= i < |xs| :: parts[i] == [xs[i]]
    ensures Flatten(parts) == xs
  {
    if xs != [] {
      var n := |xs| - 1;
      FlattenSingles(parts[..n], xs[..n]);
      assert xs == xs[..n] + [xs[n]];
    }
  }

  lemma {:induction false} PartOf<T>(parts: seq<seq<T>>, x: T) returns (b: nat)
    requires x in Flatten(parts)
    ensures b < |parts| && x in parts[b]
  {
    var last := |parts| - 1;
    if x in parts[last] {
      b := last;
    } else {
      b := PartOf(parts[..last], x);
    }
  }

  lemma {:induction false} InFlatten<T>(parts: seq<seq<T>>, a: nat, x: T)
    requires a < |parts| && x in parts[a]
    ensures x in Flatten(parts)
  {
    var last := |parts| - 1;
    if a < last {
      InFlatten(parts[..last], a, x);
    }
  }

  // ----- Sorting -----

  ghost predicate Total<T(!new)>(leq: (T, T) -> bool) {
    forall x, y :: leq(x, y) || leq(y, x)
  }

  ghost predicate Transitive<T(!new)>(leq: (T, T) -> bool) {
    forall x, y, z :: leq(x, y) && leq(y, z) ==> leq(x, z)
  }

  ghost predicate SortedBy<T>(leq: (T, T) -> bool, xs: seq<T>) {
    forall i, j | 0 <= i < j < |xs| :: leq(xs[i], xs[j])
  }

  /** In front of the first element that `x` may precede, so equals keep their order. */
  function Insert<T>(leq: (T, T) -> bool, x: T, xs: seq<T>): seq<T> {
    if xs == [] || leq(x, xs[0]) then [x] + xs
    else [xs[0]] + Insert(leq, x, xs[1..])
  }

  function Sort<T>(leq: (T, T) -> bool, xs: seq<T>): seq<T> {
    if xs == [] then [] else Insert(leq, xs[0], Sort(leq, xs[1..]))
  }

  lemma {:induction false} InsertKeeps<T>(leq: (T, T) -> bool, x: T, xs: seq<T>)
    ensures multiset(Insert(leq, x, xs)) == multiset{x} + multiset(xs)
  {
    if xs != [] && !leq(x, xs[0]) {
      assert xs == [xs[0]] + xs[1..];
      InsertKeeps(leq, x, xs[1..]);
    }
  }

  lemma SortedCons<T>(leq: (T, T) -> bool, x: T, xs: seq<T>)
    requires SortedBy(leq, xs) && forall y | y in xs :: leq(x, y)
    ensures SortedBy(leq, [x] + xs)
  {
  }

  lemma {:induction false} InsertSorted<T(!new)>(leq: (T, T) -> bool, x: T, xs: seq<T>)
    requires Total(leq) && Transitive(leq) && SortedBy(leq, xs)
    ensures SortedBy(leq, Insert(leq, x, xs))
  {
    if xs == [] || leq(x, xs[0]) {
      SortedCons(leq, x, xs);
    } else {
      var r := Insert(leq, x, xs[1..]);
      InsertSorted(leq, x, xs[1..]);
      InsertKeeps(leq, x, xs[1..]);
      forall y | y in r ensures leq(xs[0], y) {
        assert y in multiset(r);
      }
      SortedCons(leq, xs[0], r);
    }
  }

  /** A sorted list with the same elements. */
  lemma {:induction false} Sorts<T(!new)>(leq: (T, T) -> bool, xs: seq<T>)
    requires Total(leq) && Transitive(leq)
    ensures SortedBy(leq, Sort(leq, xs))
    ensures multiset(Sort(leq, xs)) == multiset(xs)
  {
    if xs != [] {
      assert xs == [xs[0]] + xs[1..];
      Sorts(leq, xs[1..]);
      InsertSorted(leq, xs[0], Sort(leq, xs[1..]));
      InsertKeeps(leq, xs[0], Sort(leq, xs[1..]));
    }
  }

  lemma TwoPlaces<T>(xs: seq<T>, p: nat, q: nat)
    requires p < q < |xs|
    ensures xs[p] == xs[q] ==> multiset(xs)[xs[p]] >= 2
  {
    assert xs == xs[..p] + [xs[p]] + xs[p + 1..q] + [xs[q]] + xs[q + 1..];
  }
}
