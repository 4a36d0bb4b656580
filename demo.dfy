/** The demonstration program's sequence of calls on one list, with the
    results the model predicts for each step. Console output is not
    modelled; each printed list is returned as its sequence of values. */
module Demo {
  import opened Shorts
  import opened ListSpec
  import opened Lists

  /** The values the demonstration inserts, in call order. */
  const Inserted: seq<int16> := [10, 20, 60, 40, 50]

  /** Inserting 10, 20, 60, 40, 50 after the head gives 10, 50, 40, 60, 20:
      the first value stays in front. */
  lemma {:induction false} InitialChain()
    ensures InsertAll(Inserted) == [10, 50, 40, 60, 20]
  {
    assert InsertAll([10]) == [10] by {
      assert [10][..0] == [];
    }
    assert InsertAll([10, 20]) == [10, 20] by {
      assert [10, 20][..1] == [10];
    }
    assert InsertAll([10, 20, 60]) == [10, 60, 20] by {
      assert [10, 20, 60][..2] == [10, 20];
    }
    assert InsertAll([10, 20, 60, 40]) == [10, 40, 60, 20] by {
      assert [10, 20, 60, 40][..3] == [10, 20, 60];
    }
    assert Inserted[..4] == [10, 20, 60, 40];
  }

  /** On that chain the average is 180 / 5 = 36: 50, 40 and 60 lie above it
      and sum to 150; 10 and 20 lie below it and come out as 10, 20. */
  lemma {:induction false} ChainQueries(s: seq<int16>)
    requires s == [10, 50, 40, 60, 20]
    ensures Average(s) == Ratio(180, 5)
    ensures SumAboveAverage(s) == 150
    ensures BelowAverageList(s) == [10, 20]
  {
    var p1, p2, p3, p4 := [10], [10, 50], [10, 50, 40], [10, 50, 40, 60];
    assert p1[..0] == [] && p2[..1] == p1 && p3[..2] == p2 && p4[..3] == p3 && s[..4] == p4;
    assert Sum(s) == 180 by {
      assert Sum(p1) == 10;
      assert Sum(p2) == 60;
      assert Sum(p3) == 100;
      assert Sum(p4) == 160;
    }
    var a := Ratio(180, 5);
    assert Select(s, Above, a) == [50, 40, 60] by {
      assert Select(p1, Above, a) == [];
      assert Select(p2, Above, a) == [50];
      assert Select(p3, Above, a) == [50, 40];
      assert Select(p4, Above, a) == [50, 40, 60];
    }
    assert Sum([50, 40, 60]) == 150 by {
      assert [50, 40, 60][..2] == [50, 40] && [50, 40][..1] == [50] && [50][..0] == [];
    }
    assert Select(s, Below, a) == [10, 20] by {
      assert Select(p1, Below, a) == [10];
      assert Select(p2, Below, a) == [10];
      assert Select(p3, Below, a) == [10];
      assert Select(p4, Below, a) == [10];
    }
    assert InsertAll([10, 20]) == [10, 20] by {
      assert [10, 20][..1] == [10] && [10][..0] == [];
    }
  }

  /** The first maximum of the chain is 60, at position 3, so trimming keeps
      10, 50, 40, 60; removing position 1 then leaves 10, 40, 60. */
  lemma {:induction false} TrimAndRemove(s: seq<int16>)
    requires s == [10, 50, 40, 60, 20]
    ensures TrimAfterMax(s) == [10, 50, 40, 60]
    ensures Without(TrimAfterMax(s), 1) == [10, 40, 60]
  {
    assert s[..1] == [10] && s[..2] == [10, 50] && s[..3] == [10, 50, 40] && s[..4] == [10, 50, 40, 60];
    assert FirstMaxIndex(s) == 3;
  }

  /** The list the demonstration builds: AddAfterFirst of 10, 20, 60, 40
      and 50 on a new list. */
  method BuildList() returns (list: CustomLinkedList)
    ensures list.Valid() && fresh(list.Repr)
    ensures list.Contents == InsertAll(Inserted) == [10, 50, 40, 60, 20]
  {
    list := new CustomLinkedList();
    list.AddAfterFirst(10);
    assert list.Valid() && fresh(list.Repr) && list.Contents == [10];
    list.AddAfterFirst(20);
    assert list.Valid() && fresh(list.Repr) && list.Contents == [10, 20];
    list.AddAfterFirst(60);
    assert list.Valid() && fresh(list.Repr) && list.Contents == [10, 60, 20];
    list.AddAfterFirst(40);
    assert list.Valid() && fresh(list.Repr) && list.Contents == [10, 40, 60, 20];
    list.AddAfterFirst(50);
    InitialChain();
  }

  /** The three queries on the built list: the first value above 25, the
      sum above the average, and the list of the values below it. */
  method Queries(list: CustomLinkedList) returns (firstGreater: Option<int16>, sumAbove: int16, below: seq<int16>)
    requires list.Valid() && list.Contents == [10, 50, 40, 60, 20]
    ensures firstGreater == Some(50)
    ensures sumAbove == 150
    ensures below == [10, 20]
  {
    ChainQueries(list.Contents);
    firstGreater := list.FirstGreaterThan(25);
    assert list.Contents[0] == 10 && list.Contents[1] == 50;
    if firstGreater.Some? {
      ghost var i :| 0 <= i < |list.Contents| && list.Contents[i] == firstGreater.value && 25 < firstGreater.value &&
               forall j :: 0 <= j < i ==> list.Contents[j] <= 25;
      assert i == 1;
    }
    sumAbove := list.SumGreaterThanAverage();
    var lessThanAverage := list.GetLessThanAverage();
    below := lessThanAverage.GetEnumerator();
  }

  /** Reading every position through the indexer, from 0 up to Count,
      yields the contents in order. */
  method ReadAll(list: CustomLinkedList) returns (values: seq<int16>)
    requires list.Valid()
    ensures values == list.Contents
  {
    values := [];
    for i := 0 to list.Count()
      invariant values == list.Contents[..i]
    {
      var item := list.Item(i);
      values := values + [item.value];
    }
    assert list.Contents[..list.Count()] == list.Contents;
  }

  /** The demonstration's two updates on the built list, with what it prints
      after each. */
  method Updates(list: CustomLinkedList) returns (trimmed: seq<int16>, trimmedCount: int, indexed: seq<int16>,
                                                  afterRemove: seq<int16>)
    requires list.Valid() && list.Contents == [10, 50, 40, 60, 20]
    modifies list.Repr
    ensures trimmed == [10, 50, 40, 60] && trimmedCount == 4
    ensures indexed == trimmed
    ensures afterRemove == [10, 40, 60]
  {
    TrimAndRemove(list.Contents);
    list.RemoveAfterMax();
    trimmed := list.GetEnumerator();
    trimmedCount := list.Count();
    indexed := ReadAll(list);
    var removed := list.RemoveAt(1);
    afterRemove := list.GetEnumerator();
  }

  /** The demonstration program's calls, in order, on one list. */
  method ProgramScenario() returns (initial: seq<int16>, firstGreater: Option<int16>, sumAbove: int16,
                                    below: seq<int16>, trimmed: seq<int16>, trimmedCount: int,
                                    indexed: seq<int16>, afterRemove: seq<int16>)
    ensures initial == [10, 50, 40, 60, 20]
    ensures firstGreater == Some(50) && sumAbove == 150 && below == [10, 20]
    ensures trimmed == [10, 50, 40, 60] && trimmedCount == 4 && indexed == trimmed
    ensures afterRemove == [10, 40, 60]
  {
    var list := BuildList();
    initial := list.GetEnumerator();
    firstGreater, sumAbove, below := Queries(list);
    trimmed, trimmedCount, indexed, afterRemove := Updates(list);
  }
}
