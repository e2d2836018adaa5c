/**
 * Integer helpers shared by the Autopart model: sums of group sizes,
 * powers of two and the integer ceiling of a base-2 logarithm, the
 * descending sort used by the group-size code, and distinct sequences.
 */
module Numbers {

  datatype Option<T> = None | Some(value: T)

  /** Sum of a sequence of naturals, peeling off the last element. */
  function Sum(s: seq<nat>): nat
  {
    if s == [] then 0 else Sum(s[..|s| - 1]) + s[|s| - 1]
  }

  lemma {:induction false} SumConcat(a: seq<nat>, b: seq<nat>)
    ensures Sum(a + b) == Sum(a) + Sum(b)
    decreases |b|
  {
    if b == [] {
      assert a + b == a;
    } else {
      assert (a + b)[..|a + b| - 1] == a + b[..|b| - 1];
      SumConcat(a, b[..|b| - 1]);
    }
  }

  /** A sum of positive terms is at least the number of terms. */
  lemma {:induction false} SumOfPositives(s: seq<nat>)
    requires forall i :: 0 <= i < |s| ==> s[i] >= 1
    ensures Sum(s) >= |s|
  {
    if s != [] {
      SumOfPositives(s[..|s| - 1]);
    }
  }

  function Pow2(b: nat): (p: nat)
    ensures p >= 1
  {
    if b == 0 then 1 else 2 * Pow2(b - 1)
  }

  /**
   * ceil(log2(x)) for a positive integer x, computed exactly: the least
   * number of bits b with 2^b >= x.
   */
  function CeilLog2(x: nat): (b: nat)
    requires x >= 1
    ensures Pow2(b) >= x
    ensures b == 0 || Pow2(b - 1) < x
    decreases x
  {
    if x == 1 then 0 else 1 + CeilLog2((x + 1) / 2)
  }

  /** Only x = 1 needs zero bits. */
  lemma CeilLog2IsZeroOnlyAtOne(x: nat)
    requires x >= 1
    ensures CeilLog2(x) == 0 <==> x == 1
  {
    if x > 1 {
      assert Pow2(CeilLog2(x)) >= x;
    }
  }

  predicate Descending(s: seq<nat>)
  {
    forall i, j :: 0 <= i < j < |s| ==> s[i] >= s[j]
  }

  function Insert(x: nat, s: seq<nat>): (r: seq<nat>)
    requires Descending(s)
    ensures Descending(r)
    ensures multiset(r) == multiset(s) + multiset{x}
    ensures |r| == |s| + 1
  {
    if s == [] then [x]
    else if x >= s[0] then [x] + s
    else
      var rest := Insert(x, s[1..]);
      assert s == [s[0]] + s[1..];
      HeadDominates(s[0], rest, multiset(s[1..]) + multiset{x});
      [s[0]] + rest
  }

  lemma HeadDominates(h: nat, rest: seq<nat>, m: multiset<nat>)
    requires Descending(rest) && multiset(rest) == m
    requires forall y :: y in m ==> y <= h
    ensures Descending([h] + rest)
  {
    forall j | 0 <= j < |rest| ensures rest[j] <= h {
      assert rest[j] in multiset(rest);
    }
  }

  /** Python's sorted(..., reverse=True) on a list of naturals. */
  function SortDescending(s: seq<nat>): (r: seq<nat>)
    ensures Descending(r)
    ensures multiset(r) == multiset(s)
    ensures |r| == |s|
  {
    if s == [] then []
    else
      assert s == [s[0]] + s[1..];
      Insert(s[0], SortDescending(s[1..]))
  }

  predicate Distinct(q: seq<int>)
  {
    forall i, j :: 0 <= i < j < |q| ==> q[i] != q[j]
  }

  function Elements(q: seq<int>): set<int>
  {
    set x | x in q
  }

  /** A sequence without repetitions has as many elements as its set. */
  lemma {:induction false} DistinctElements(q: seq<int>)
    requires Distinct(q)
    ensures |Elements(q)| == |q|
  {
    if q != [] {
      var init := q[..|q| - 1];
      assert Distinct(init);
      DistinctElements(init);
      assert q == init + [q[|q| - 1]];
      assert Elements(q) == Elements(init) + {q[|q| - 1]};
      assert q[|q| - 1] !in Elements(init);
    }
  }

  /** The node identifiers 0..n-1. */
  function Range(n: nat): (r: set<int>)
    ensures forall v :: v in r <==> 0 <= v < n
  {
    if n == 0 then {} else Range(n - 1) + {n - 1}
  }

  lemma {:induction false} RangeSize(n: nat)
    ensures |Range(n)| == n
  {
    if n > 0 {
      RangeSize(n - 1);
    }
  }
}
