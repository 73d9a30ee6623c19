/** The numbers that a list of Golomb-Rice codes stands for, and looking numbers up in one
    pass over them. */
module GcsValues {
  import opened Wrappers
  import opened GcsModel

  // ----- running sums

  /** A sum of 64-bit numbers wraps. */
  function Add64(a: nat, b: nat): nat {
    (a + b) % M64
  }

  function ReadValues(bits: seq<bool>, n: nat, p: nat, start: nat): (values: seq<nat>)
    requires SkipCodes(bits, n, p).Some?
    ensures |values| == n
  {
    if n == 0 then [] else
    var value := Add64(start, CodeValue(bits, p));
    [value] + ReadValues(bits[CodeLength(bits, p)..], n - 1, p, value)
  }

  function Sums(ds: seq<nat>, start: nat): (values: seq<nat>)
    ensures |values| == |ds|
  {
    if ds == [] then [] else [start + ds[0]] + Sums(ds[1..], start + ds[0])
  }

  lemma NoWrap(a: nat, b: nat)
    requires a + b < M64
    ensures Add64(a, b) == a + b
  {
  }

  /** One code more at the front. */
  lemma ReadFirst(bits: seq<bool>, rest: seq<bool>, n: nat, p: nat, start: nat, d: nat)
    requires CodeLength(bits, p) <= |bits| && CodeValue(bits, p) == d && bits[CodeLength(bits, p)..] == rest
    requires n > 0 && SkipCodes(rest, n - 1, p).Some?
    ensures SkipCodes(bits, n, p).Some?
    ensures ReadValues(bits, n, p, start) == [Add64(start, d)] + ReadValues(rest, n - 1, p, Add64(start, d))
  {
    assert SkipCodes(bits, n, p) == SkipCodes(rest, n - 1, p);
  }

  lemma ReadCode(ds: seq<nat>, p: nat, start: nat, tail: seq<bool>)
    requires ds != [] && ds[0] < M64 && start + ds[0] < M64
    requires SkipCodes(Codes(ds[1..], p) + tail, |ds| - 1, p).Some?
    ensures SkipCodes(Codes(ds, p) + tail, |ds|, p).Some?
    ensures ReadValues(Codes(ds, p) + tail, |ds|, p, start) ==
      [start + ds[0]] + ReadValues(Codes(ds[1..], p) + tail, |ds| - 1, p, start + ds[0])
  {
    FirstCode(ds, p, tail);
    NoWrap(start, ds[0]);
    ReadFirst(Codes(ds, p) + tail, Codes(ds[1..], p) + tail, |ds|, p, start, ds[0]);
  }

  lemma SumsBelow(ds: seq<nat>, start: nat)
    requires ds != [] && AllBelow(ds, M64) && AllBelow(Sums(ds, start), M64)
    ensures ds[0] < M64 && start + ds[0] < M64
    ensures AllBelow(ds[1..], M64) && AllBelow(Sums(ds[1..], start + ds[0]), M64)
  {
    var sums := Sums(ds, start);
    assert sums[0] == start + ds[0];
    assert Sums(ds[1..], start + ds[0]) == sums[1..];
  }

  /** Where no sum wraps, codes stand for the sums of their numbers. */
  lemma {:induction false} ReadSums(ds: seq<nat>, p: nat, start: nat, tail: seq<bool>)
    requires AllBelow(ds, M64) && AllBelow(Sums(ds, start), M64)
    ensures SkipCodes(Codes(ds, p) + tail, |ds|, p).Some?
    ensures ReadValues(Codes(ds, p) + tail, |ds|, p, start) == Sums(ds, start)
  {
    if ds != [] {
      SumsBelow(ds, start);
      ReadSums(ds[1..], p, start + ds[0], tail);
      ReadCode(ds, p, start, tail);
    }
  }

  /** Sorted values are the sums of their differences. */
  lemma {:induction false} SumsOfDifferences(values: seq<nat>, i: nat)
    requires Sorted(values) && i <= |values|
    ensures Sums(Differences(values)[i..], Before(values, i)) == values[i..]
    decreases |values| - i
  {
    if i < |values| {
      var ds := Differences(values);
      SumsOfDifferences(values, i + 1);
      assert ds[i..][0] == ds[i] && ds[i..][1..] == ds[i + 1..];
      assert values[i..] == [values[i]] + values[i + 1..];
    }
  }

  /** The codes of the differences stand for the values. */
  lemma ReadDifferences(values: seq<nat>, p: nat, tail: seq<bool>)
    requires Sorted(values) && AllBelow(values, M64)
    ensures var bits := Codes(Differences(values), p) + tail;
      && SkipCodes(bits, |values|, p).Some?
      && ReadValues(bits, |values|, p, 0) == values
  {
    var ds := Differences(values);
    SumsOfDifferences(values, 0);
    assert ds[0..] == ds && values[0..] == values;
    forall i | 0 <= i < |ds| ensures ds[i] < M64 {
      assert Before(values, i) + ds[i] == values[i];
    }
    ReadSums(ds, p, 0, tail);
  }

  // ----- looking numbers up

  /** No value before it is larger. In a sorted list every value is a peak. */
  ghost predicate IsPeak(values: seq<nat>, i: nat)
    requires i < |values|
  {
    forall a :: 0 <= a < i ==> values[a] <= values[i]
  }

  /** What a single pass over values and sorted queries can find. */
  ghost predicate Reaches(values: seq<nat>, queries: seq<nat>) {
    exists i :: 0 <= i < |values| && IsPeak(values, i) && values[i] in queries
  }

  ghost predicate Meets(values: seq<nat>, queries: seq<nat>) {
    exists x :: x in values && x in queries
  }

  /** In a sorted list that is every common number. */
  lemma ReachesSorted(values: seq<nat>, queries: seq<nat>)
    requires Sorted(values)
    ensures Reaches(values, queries) <==> Meets(values, queries)
  {
    if Reaches(values, queries) {
      var i :| 0 <= i < |values| && IsPeak(values, i) && values[i] in queries;
      assert values[i] in values;
    }
    if Meets(values, queries) {
      var x :| x in values && x in queries;
      var i :| 0 <= i < |values| && values[i] == x;
      assert IsPeak(values, i);
    }
  }

  /** Out of order, as the wrap-around of a running sum can leave it, a number can be missed. */
  lemma NotReached()
    ensures Meets([5, 3], [3]) && !Reaches([5, 3], [3])
  {
    assert 3 in [5, 3] && 3 in [3];
    assert [5, 3][0] > [5, 3][1];
  }
}
