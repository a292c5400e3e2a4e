/** `FastaSampler.set_validation_years`: which north years are sampled for training and which for validation. */
module Years {
  import opened PyText

  predicate StrictlyIncreasing(s: seq<int>) {
    forall i, j :: 0 <= i < j < |s| ==> s[i] < s[j]
  }

  /** A set that is not empty has a member to pick. */
  lemma NonEmptyHasMember(s: set<int>)
    ensures s == {} || exists x :: x in s
  {
    if forall x :: x !in s {
      assert s == {};
    }
  }

  lemma {:induction false} MinExists(s: set<int>)
    requires s != {}
    ensures exists m :: m in s && forall y :: y in s ==> m <= y
    decreases |s|
  {
    NonEmptyHasMember(s);
    var x :| x in s;
    if y :| y in s && y != x {
      MinExists(s - {x});
      var m :| m in s - {x} && forall y :: y in s - {x} ==> m <= y;
      var least := if x < m then x else m;
      forall y | y in s
        ensures least <= y
      {
        if y != x {
          assert y in s - {x};
        }
      }
    } else {
      assert forall y :: y in s ==> x <= y;
    }
  }

  /** `l = list(years); l.sort()`: the years in ascending order, each once. */
  function SortedList(s: set<int>): (r: seq<int>)
    ensures StrictlyIncreasing(r)
    ensures forall y :: y in r <==> y in s
    ensures |r| == |s|
    decreases |s|
  {
    if s == {} then []
    else
      MinExists(s);
      var m :| m in s && forall y :: y in s ==> m <= y;
      var rest := SortedList(s - {m});
      PrependLeast(m, rest, s);
      [m] + rest
  }

  lemma PrependLeast(m: int, rest: seq<int>, s: set<int>)
    requires m in s && forall y :: y in s ==> m <= y
    requires StrictlyIncreasing(rest) && (forall y :: y in rest <==> y in s - {m}) && |rest| == |s - {m}|
    ensures StrictlyIncreasing([m] + rest)
    ensures forall y :: y in [m] + rest <==> y in s
    ensures |[m] + rest| == |s|
  {
    forall i, j | 0 <= i < j < |[m] + rest|
      ensures ([m] + rest)[i] < ([m] + rest)[j]
    {
      if i > 0 {
        assert ([m] + rest)[i] == rest[i - 1];
      }
      assert ([m] + rest)[j] == rest[j - 1];
      assert rest[j - 1] in s - {m};
    }
  }

  /** The training and the validation years, as the two fields hold them afterwards. */
  datatype YearPartition = YearPartition(train: seq<int>, validation: seq<int>)

  /**
   * `train = sorted(all - validation)[1:]` and `validation = sorted(all - train)[:-1]`:
   * a year trains iff it is not listed for validation and an earlier such year exists;
   * a year validates iff it is listed and a later listed year exists.
   */
  function PartitionYears(allYears: set<int>, validation: set<int>): (p: YearPartition)
    ensures |p.train| == if |allYears - validation| == 0 then 0 else |allYears - validation| - 1
    ensures |p.validation| == if |allYears * validation| == 0 then 0 else |allYears * validation| - 1
  {
    var trainSet := allYears - validation;
    var train := SortedList(trainSet);
    var valid := SortedList(allYears - trainSet);
    YearPartition(PySlice(train, 1, |train|), PySlice(valid, 0, -1))
  }

  /**
   * `train_years`: ascending, and a year trains iff it is not listed for validation
   * and an earlier unlisted year exists.
   */
  lemma TrainYears(allYears: set<int>, validation: set<int>)
    ensures StrictlyIncreasing(PartitionYears(allYears, validation).train)
    ensures forall y :: y in PartitionYears(allYears, validation).train <==>
              y in allYears && y !in validation && exists z :: z in allYears && z !in validation && z < y
  {
    var train := SortedList(allYears - validation);
    var p := PySlice(train, 1, |train|);
    DropFirstOfSorted(train);
    assert PartitionYears(allYears, validation).train == p;
    forall y
      ensures y in p <==> y in allYears && y !in validation && exists z :: z in allYears && z !in validation && z < y
    {
      assert y in p <==> y in train && exists z :: z in train && z < y;
      if y in allYears && y !in validation && exists z :: z in allYears && z !in validation && z < y {
        var z :| z in allYears && z !in validation && z < y;
        assert z in train;
      }
    }
  }

  /**
   * `validation_years`: ascending, and a year validates iff it is a north year listed
   * for validation and a later such year exists.
   */
  lemma ValidationYears(allYears: set<int>, validation: set<int>)
    ensures StrictlyIncreasing(PartitionYears(allYears, validation).validation)
    ensures forall y :: y in PartitionYears(allYears, validation).validation <==>
              y in allYears && y in validation && exists z :: z in allYears && z in validation && y < z
  {
    var valid := SortedList(allYears - (allYears - validation));
    var p := PySlice(valid, 0, -1);
    DropLastOfSorted(valid);
    assert PartitionYears(allYears, validation).validation == p;
    forall y
      ensures y in p <==> y in allYears && y in validation && exists z :: z in allYears && z in validation && y < z
    {
      assert y in p <==> y in valid && exists z :: z in valid && y < z;
      if y in allYears && y in validation && exists z :: z in allYears && z in validation && y < z {
        var z :| z in allYears && z in validation && y < z;
        assert z in valid;
      }
    }
  }

  /** `r[1:]` of an ascending list: the elements that have a smaller one before them. */
  lemma DropFirstOfSorted(r: seq<int>)
    requires StrictlyIncreasing(r)
    ensures StrictlyIncreasing(PySlice(r, 1, |r|))
    ensures forall y :: y in PySlice(r, 1, |r|) <==> y in r && exists z :: z in r && z < y
  {
    if r != [] {
      assert PySlice(r, 1, |r|) == r[1..];
      forall y | y in r && exists z :: z in r && z < y
        ensures y in r[1..]
      {
        var z :| z in r && z < y;
        var i :| 0 <= i < |r| && r[i] == y;
        assert r[1..][i - 1] == y;
      }
      forall y | y in r[1..]
        ensures exists z :: z in r && z < y
      {
        var i :| 0 <= i < |r[1..]| && r[1..][i] == y;
        assert r[0] < r[i + 1];
        assert r[0] in r;
      }
    }
  }

  /** `r[:-1]` of an ascending list: the elements that have a larger one after them. */
  lemma DropLastOfSorted(r: seq<int>)
    requires StrictlyIncreasing(r)
    ensures StrictlyIncreasing(PySlice(r, 0, -1))
    ensures forall y :: y in PySlice(r, 0, -1) <==> y in r && exists z :: z in r && y < z
  {
    if r != [] {
      var n := |r|;
      assert PySlice(r, 0, -1) == r[..n - 1];
      forall y | y in r && exists z :: z in r && y < z
        ensures y in r[..n - 1]
      {
        var z :| z in r && y < z;
        var i :| 0 <= i < n && r[i] == y;
        assert r[..n - 1][i] == y;
      }
      var prefix := r[..n - 1];
      forall y | y in prefix
        ensures exists z :: z in r && y < z
      {
        var i :| 0 <= i < n - 1 && prefix[i] == y;
        assert r[i] < r[n - 1];
        assert r[n - 1] in r;
      }
    }
  }

  /**
   * The year partition: disjoint, inside the north years, validation inside the
   * requested list, and neither the earliest north year trains nor the latest validates.
   */
  lemma {:induction false} PartitionSeparatesYears(allYears: set<int>, validation: set<int>)
    ensures var p := PartitionYears(allYears, validation);
      && (forall y :: y in p.train ==> y !in p.validation)
      && (forall y :: y in p.train ==> y in allYears)
      && (forall y :: y in p.validation ==> y in allYears && y in validation)
      && (forall y :: y in allYears && (forall z :: z in allYears ==> y <= z) ==> y !in p.train)
      && (forall y :: y in allYears && (forall z :: z in allYears ==> z <= y) ==> y !in p.validation)
  {
    TrainYears(allYears, validation);
    ValidationYears(allYears, validation);
  }
}
