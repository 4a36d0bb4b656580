/** The abstract behaviour of CustomLinkedList, stated on the sequence of
    values the chain spells from head to tail. Every method of the class is
    specified by one of these functions, and the lemmas here say what the
    functions mean. */
module ListSpec {
  import opened Shorts

  /** The sequence without its element at position i. */
  function Without<T>(s: seq<T>, i: int): (r: seq<T>)
    requires 0 <= i < |s|
    ensures |r| == |s| - 1
    ensures forall j :: 0 <= j < |r| ==> r[j] == if j < i then s[j] else s[j + 1]
  {
    s[..i] + s[i + 1..]
  }

  // ---------------------------------------------------------------------
  // Insertion after the first element
  // ---------------------------------------------------------------------

  /** The contents after AddAfterFirst(v): an empty list becomes [v];
      otherwise v becomes the second element and the head stays first. */
  function InsertAfterFirst(s: seq<int16>, v: int16): (r: seq<int16>)
    ensures |r| == |s| + 1
    ensures r[0] == (if s == [] then v else s[0])
    ensures s != [] ==> r[1] == v && r[2..] == s[1..]
  {
    if s == [] then [v] else [s[0], v] + s[1..]
  }

  /** The contents of a list that starts empty and receives AddAfterFirst(x)
      for each x of xs, in order. */
  function InsertAll(xs: seq<int16>): (r: seq<int16>)
    ensures |r| == |xs|
  {
    if xs == [] then []
    else InsertAfterFirst(InsertAll(xs[..|xs| - 1]), xs[|xs| - 1])
  }

  /** Reference definition of the reverse of a sequence. */
  function Reversed(s: seq<int16>): seq<int16>
  {
    if s == [] then [] else [s[|s| - 1]] + Reversed(s[..|s| - 1])
  }

  /** Reversed puts position k at position |s| - 1 - k. */
  lemma {:induction false} ReversedAt(s: seq<int16>)
    ensures |Reversed(s)| == |s|
    ensures forall k :: 0 <= k < |s| ==> Reversed(s)[k] == s[|s| - 1 - k]
  {
    if s != [] {
      var p := s[..|s| - 1];
      ReversedAt(p);
      var r := Reversed(s);
      var rp := Reversed(p);
      assert r == [s[|s| - 1]] + rp;
      forall k | 0 <= k < |s|
        ensures r[k] == s[|s| - 1 - k]
      {
        if k > 0 {
          assert r[k] == rp[k - 1] == p[|p| - 1 - (k - 1)];
        }
      }
    }
  }

  /** Inserting a sequence of values one by one after the head leaves the
      first value in front and the others in reverse order of insertion. */
  lemma {:induction false} InsertAllOrder(xs: seq<int16>)
    ensures InsertAll(xs) == if xs == [] then [] else [xs[0]] + Reversed(xs[1..])
  {
    if |xs| == 1 {
      assert xs[..0] == [] && xs[1..] == [];
    } else if |xs| > 1 {
      var p := xs[..|xs| - 1];
      var x := xs[|xs| - 1];
      var rest := Reversed(p[1..]);
      assert InsertAll(xs) == [xs[0], x] + rest by {
        InsertAllOrder(p);
        assert ([p[0]] + rest)[1..] == rest;
      }
      assert Reversed(xs[1..]) == [x] + rest by {
        assert xs[1..][..|xs| - 2] == p[1..];
      }
    }
  }

  /** AddAfterFirst adds exactly one occurrence of the value. */
  lemma InsertAfterFirstMultiset(s: seq<int16>, v: int16)
    ensures multiset(InsertAfterFirst(s, v)) == multiset(s) + multiset{v}
  {
    if s != [] {
      assert s == [s[0]] + s[1..];
    }
  }

  /** Building a list by insertions loses and invents no value. */
  lemma {:induction false} InsertAllMultiset(xs: seq<int16>)
    ensures multiset(InsertAll(xs)) == multiset(xs)
  {
    if xs != [] {
      var p := xs[..|xs| - 1];
      var x := xs[|xs| - 1];
      InsertAllMultiset(p);
      InsertAfterFirstMultiset(InsertAll(p), x);
      assert xs == p + [x];
    }
  }

  // ---------------------------------------------------------------------
  // The average, as an exact fraction
  // ---------------------------------------------------------------------

  /** The mathematical sum of the values (the `double` accumulator of
      CalculateAverage adds 16-bit values exactly). */
  function Sum(s: seq<int16>): int
  {
    if s == [] then 0 else Sum(s[..|s| - 1]) + s[|s| - 1] as int
  }

  /** The sum of n 16-bit values lies between n times the least and n times
      the greatest 16-bit value. */
  lemma {:induction false} SumBounds(s: seq<int16>)
    ensures -0x8000 * |s| <= Sum(s) <= 0x7FFF * |s|
  {
    if s != [] {
      SumBounds(s[..|s| - 1]);
    }
  }

  /** A fraction num / den with den > 0. */
  datatype Ratio = Ratio(num: int, den: int)

  /** The value CalculateAverage returns, as a fraction: the sum over the
      count, and 0 (that is, 0 / 1) for the empty list. */
  function Average(s: seq<int16>): (a: Ratio)
    ensures a.den > 0
    ensures a.den == |s| || (s == [] && a.num == 0)
  {
    if s == [] then Ratio(0, 1) else Ratio(Sum(s), |s|)
  }

  /** The arithmetic mean as a real number, 0 for the empty list. */
  ghost function Mean(s: seq<int16>): (m: real)
    ensures -0x8000 as real <= m <= 0x7FFF as real
  {
    if s == [] then 0.0
    else
      SumBounds(s);
      QuotientBounds(Sum(s) as real, |s| as real, -0x8000 as real, 0x7FFF as real);
      Sum(s) as real / |s| as real
  }

  /** A quotient lies within the bounds its numerator has relative to the
      denominator. */
  lemma QuotientBounds(t: real, n: real, lo: real, hi: real)
    requires n > 0.0 && lo * n <= t <= hi * n
    ensures lo <= t / n <= hi
  {
    var m := t / n;
    assert m * n == t;
    assert (hi - m) * n == hi * n - t;
    assert (m - lo) * n == t - lo * n;
  }

  /** Which side of the average a query keeps. */
  datatype Side = Above | Below

  /** `v > average` (Above) or `v < average` (Below), decided exactly by
      cross-multiplication. */
  predicate OnSide(v: int16, side: Side, a: Ratio)
  {
    match side
    case Above => v as int * a.den > a.num
    case Below => v as int * a.den < a.num
  }

  /** The integer comparison decides the same as comparing with the real
      mean, empty list included. */
  lemma OnSideMatchesMean(v: int16, s: seq<int16>)
    ensures OnSide(v, Above, Average(s)) <==> v as real > Mean(s)
    ensures OnSide(v, Below, Average(s)) <==> (v as real) < Mean(s)
  {
    if s != [] {
      var n, t := |s| as real, Sum(s) as real;
      CompareQuotient(v as real, t, n);
      assert (v as int * |s|) as real == v as real * n;
    }
  }

  /** Comparing with a quotient is comparing the scaled value with the
      numerator. */
  lemma CompareQuotient(v: real, t: real, n: real)
    requires n > 0.0
    ensures v > t / n <==> v * n > t
    ensures v < t / n <==> v * n < t
  {
    var m := t / n;
    assert m * n == t;
    assert (v - m) * n == v * n - t;
  }

  /** The values on one side of the average, in scan order. */
  function Select(s: seq<int16>, side: Side, a: Ratio): seq<int16>
  {
    if s == [] then []
    else Select(s[..|s| - 1], side, a) + (if OnSide(s[|s| - 1], side, a) then [s[|s| - 1]] else [])
  }

  /** Select keeps every value on the chosen side, as often as it occurs,
      and nothing else. */
  lemma {:induction false} SelectExactly(s: seq<int16>, side: Side, a: Ratio)
    ensures forall v :: multiset(Select(s, side, a))[v] == if OnSide(v, side, a) then multiset(s)[v] else 0
  {
    if s != [] {
      var p := s[..|s| - 1];
      SelectExactly(p, side, a);
      assert s == p + [s[|s| - 1]];
    }
  }

  /** One more scanned value extends the selection by that value or by
      nothing. */
  lemma SelectStep(s: seq<int16>, i: nat, side: Side, a: Ratio)
    requires i < |s|
    ensures Select(s[..i + 1], side, a) == Select(s[..i], side, a) + (if OnSide(s[i], side, a) then [s[i]] else [])
  {
    assert s[..i + 1][..i] == s[..i];
  }

  lemma SumSnoc(q: seq<int16>, v: int16)
    ensures Sum(q + [v]) == Sum(q) + v as int
  {
    assert (q + [v])[..|q|] == q;
  }

  lemma InsertAllSnoc(q: seq<int16>, v: int16)
    ensures InsertAll(q + [v]) == InsertAfterFirst(InsertAll(q), v)
  {
    assert (q + [v])[..|q|] == q;
  }

  /** The contents of the list GetLessThanAverage builds: the values below
      the average, each inserted after the head in scan order. */
  function BelowAverageList(s: seq<int16>): (r: seq<int16>)
    ensures |r| == |Select(s, Below, Average(s))|
  {
    InsertAll(Select(s, Below, Average(s)))
  }

  /** The sub-list holds exactly the values strictly below the average, with
      their multiplicities; the first of them comes first and the rest follow
      in reverse scan order. */
  lemma BelowAverageListIs(s: seq<int16>)
    ensures forall v :: multiset(BelowAverageList(s))[v] == if OnSide(v, Below, Average(s)) then multiset(s)[v] else 0
    ensures var q := Select(s, Below, Average(s));
            BelowAverageList(s) == if q == [] then [] else [q[0]] + Reversed(q[1..])
  {
    SelectExactly(s, Below, Average(s));
    InsertAllMultiset(Select(s, Below, Average(s)));
    InsertAllOrder(Select(s, Below, Average(s)));
  }

  /** What SumGreaterThanAverage returns: the `short` (wrapped) sum of the
      values strictly above the average. */
  function SumAboveAverage(s: seq<int16>): (r: int16)
    ensures s == [] ==> r == 0
    ensures var t := Sum(Select(s, Above, Average(s)));
            -0x8000 <= t < 0x8000 ==> r as int == t
  {
    Wrap16(Sum(Select(s, Above, Average(s))))
  }

  // ---------------------------------------------------------------------
  // Trimming after the maximum
  // ---------------------------------------------------------------------

  /** The position of the first occurrence of the maximum. */
  function FirstMaxIndex(s: seq<int16>): (k: nat)
    requires s != []
    ensures k < |s|
    ensures forall j :: 0 <= j < |s| ==> s[j] <= s[k]
    ensures forall j :: 0 <= j < k ==> s[j] < s[k]
  {
    if |s| == 1 then 0
    else
      var k := FirstMaxIndex(s[..|s| - 1]);
      if s[|s| - 1] > s[k] then |s| - 1 else k
  }

  /** Scanning one more value moves the first maximum only to a strictly
      greater value. */
  lemma FirstMaxIndexStep(s: seq<int16>, i: nat)
    requires 1 <= i < |s|
    ensures FirstMaxIndex(s[..i + 1]) == if s[i] > s[FirstMaxIndex(s[..i])] then i else FirstMaxIndex(s[..i])
  {
    assert s[..i + 1][..i] == s[..i];
  }

  /** The contents after RemoveAfterMax: unchanged with fewer than two
      values, otherwise cut right after the first maximum. */
  function TrimAfterMax(s: seq<int16>): (r: seq<int16>)
    ensures r <= s
    ensures |r| == 0 <==> |s| == 0
    ensures r != [] ==> forall j :: 0 <= j < |s| ==> s[j] <= r[|r| - 1]
    ensures r != [] ==> forall j :: 0 <= j < |r| - 1 ==> r[j] < r[|r| - 1]
  {
    if |s| <= 1 then s else s[..FirstMaxIndex(s) + 1]
  }

  /** Trimming twice is trimming once. */
  lemma TrimAfterMaxIdempotent(s: seq<int16>)
    ensures TrimAfterMax(TrimAfterMax(s)) == TrimAfterMax(s)
  {
    var r := TrimAfterMax(s);
    if |r| > 1 {
      var k := FirstMaxIndex(r);
      assert k == |r| - 1;
    }
  }
}
