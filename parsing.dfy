/**
 * `FastaSampler.__parse_fasta_to_list`: filter the records of one corpus, bucket the
 * survivors by year, and collect the characters their sequences use.
 */
module Parsing {
  import opened Wrappers
  import opened Errors
  import opened PyText
  import opened Records

  /** The default `specified_len`, the only length `handle_files` ever asks for. */
  const SpecifiedLen: int := 566

  /** What the parse returns: `data`, the joined alphabet, and the two counts it prints. */
  datatype ParsedCorpus = ParsedCorpus(data: map<int, seq<Record>>, alphabet: string, numMissing: nat, numTooLong: nat)

  // ---------------------------------------------------------------------------
  // What a parse of `raws` means, record by record, in input order
  // ---------------------------------------------------------------------------

  /** The exception of the first record that raises, which ends the parse. */
  function FirstError(raws: seq<RawRecord>, specifiedLen: int): Option<Error>
    decreases |raws|
  {
    if raws == [] then None
    else match FirstError(raws[..|raws| - 1], specifiedLen)
      case Some(e) => Some(e)
      case None =>
        var v := Classify(raws[|raws| - 1], specifiedLen);
        if v.Raises? then Some(v.error) else None
  }

  /** The accepted records, in input order. */
  function AcceptedRecords(raws: seq<RawRecord>, specifiedLen: int): seq<Record>
    decreases |raws|
  {
    if raws == [] then []
    else
      var v := Classify(raws[|raws| - 1], specifiedLen);
      AcceptedRecords(raws[..|raws| - 1], specifiedLen) + (if v.Accepted? then [v.record] else [])
  }

  /** How many records are skipped for a non-integer month or day (`num_missing`). */
  function CountMissing(raws: seq<RawRecord>, specifiedLen: int): nat
    decreases |raws|
  {
    if raws == [] then 0
    else CountMissing(raws[..|raws| - 1], specifiedLen) + (if Classify(raws[|raws| - 1], specifiedLen).MissingDate? then 1 else 0)
  }

  /** How many records are skipped for their length (`num_too_long`). */
  function CountTooLong(raws: seq<RawRecord>, specifiedLen: int): nat
    decreases |raws|
  {
    if raws == [] then 0
    else CountTooLong(raws[..|raws| - 1], specifiedLen) + (if Classify(raws[|raws| - 1], specifiedLen).BadLength? then 1 else 0)
  }

  /** `data`: each record appended, in order, to the list of its year, a list opened on first use. */
  function BucketByYear(recs: seq<Record>): (m: map<int, seq<Record>>)
    ensures forall y :: y in m ==> |m[y]| > 0 && forall k :: 0 <= k < |m[y]| ==> m[y][k].year == y
    decreases |recs|
  {
    if recs == [] then map[]
    else
      var m := BucketByYear(recs[..|recs| - 1]);
      var r := recs[|recs| - 1];
      m[r.year := (if r.year in m then m[r.year] else []) + [r]]
  }

  /** The records of one year, in order: the reference definition of a bucket. */
  function OfYear(recs: seq<Record>, year: int): seq<Record>
    decreases |recs|
  {
    if recs == [] then []
    else OfYear(recs[..|recs| - 1], year) + (if recs[|recs| - 1].year == year then [recs[|recs| - 1]] else [])
  }

  /** `seqs`: every character of every stored sequence. */
  function CharsOf(recs: seq<Record>): (chars: set<char>)
    ensures forall c :: c in chars <==> exists k :: 0 <= k < |recs| && c in recs[k].sequence
    decreases |recs|
  {
    if recs == [] then {}
    else
      var prev := CharsOf(recs[..|recs| - 1]);
      assert forall k :: 0 <= k < |recs| - 1 ==> recs[..|recs| - 1][k] == recs[k];
      prev + CharSet(recs[|recs| - 1].sequence)
  }

  /** `set(s)` for a string. */
  function CharSet(s: string): (chars: set<char>)
    ensures forall c :: c in chars <==> c in s
  {
    set i | 0 <= i < |s| :: s[i]
  }

  /** The shape every bucket map the parse builds has: non-empty lists, records of the key's year and of the given length. */
  ghost predicate WellFormedBuckets(data: map<int, seq<Record>>, specifiedLen: int) {
    forall y :: y in data ==>
      && |data[y]| > 0
      && forall k :: 0 <= k < |data[y]| ==> data[y][k].year == y && |data[y][k].sequence| == specifiedLen
  }

  // ---------------------------------------------------------------------------
  // Properties of the parse
  // ---------------------------------------------------------------------------

  /** Once a prefix has raised, the whole parse raises that exception. */
  lemma {:induction false} FirstErrorOfPrefix(raws: seq<RawRecord>, specifiedLen: int, i: nat)
    requires i <= |raws|
    requires FirstError(raws[..i], specifiedLen).Some?
    ensures FirstError(raws, specifiedLen) == FirstError(raws[..i], specifiedLen)
    decreases |raws| - i
  {
    if i < |raws| {
      var init := raws[..|raws| - 1];
      assert init[..i] == raws[..i];
      FirstErrorOfPrefix(init, specifiedLen, i);
    } else {
      assert raws[..i] == raws;
    }
  }

  /** Every stored record has exactly the specified sequence length. */
  lemma {:induction false} AcceptedHaveSpecifiedLength(raws: seq<RawRecord>, specifiedLen: int)
    ensures forall k :: 0 <= k < |AcceptedRecords(raws, specifiedLen)| ==>
              |AcceptedRecords(raws, specifiedLen)[k].sequence| == specifiedLen
    decreases |raws|
  {
    if raws != [] {
      AcceptedHaveSpecifiedLength(raws[..|raws| - 1], specifiedLen);
    }
  }

  /** Without an exception, each record is accepted, counted missing or counted too long, exactly once. */
  lemma {:induction false} CountsPartitionInput(raws: seq<RawRecord>, specifiedLen: int)
    requires FirstError(raws, specifiedLen).None?
    ensures |AcceptedRecords(raws, specifiedLen)| + CountMissing(raws, specifiedLen) + CountTooLong(raws, specifiedLen) == |raws|
    decreases |raws|
  {
    if raws != [] {
      CountsPartitionInput(raws[..|raws| - 1], specifiedLen);
    }
  }

  /** The bucket map has a key for each year that occurs, and holds under it that year's records in input order. */
  lemma {:induction false} BucketByYearIsOfYear(recs: seq<Record>)
    ensures forall y :: y in BucketByYear(recs) <==> exists k :: 0 <= k < |recs| && recs[k].year == y
    ensures forall y :: y in BucketByYear(recs) ==> BucketByYear(recs)[y] == OfYear(recs, y)
    decreases |recs|
  {
    if recs != [] {
      var init := recs[..|recs| - 1];
      BucketByYearIsOfYear(init);
      assert forall k :: 0 <= k < |init| ==> init[k] == recs[k];
      forall y | y !in BucketByYear(init)
        ensures OfYear(init, y) == []
      {
        OfYearAbsent(init, y);
      }
    }
  }

  lemma {:induction false} OfYearAbsent(recs: seq<Record>, year: int)
    requires forall k :: 0 <= k < |recs| ==> recs[k].year != year
    ensures OfYear(recs, year) == []
    decreases |recs|
  {
    if recs != [] {
      OfYearAbsent(recs[..|recs| - 1], year);
    }
  }

  lemma {:induction false} OfYearProperties(recs: seq<Record>, year: int)
    ensures forall k :: 0 <= k < |OfYear(recs, year)| ==> OfYear(recs, year)[k].year == year
    ensures forall k :: 0 <= k < |OfYear(recs, year)| ==> OfYear(recs, year)[k] in recs
    decreases |recs|
  {
    if recs != [] {
      OfYearProperties(recs[..|recs| - 1], year);
    }
  }

  /** The buckets of a parse are well formed: every stored record sits under its own year and has the specified length. */
  lemma ParsedBucketsWellFormed(raws: seq<RawRecord>, specifiedLen: int)
    ensures WellFormedBuckets(BucketByYear(AcceptedRecords(raws, specifiedLen)), specifiedLen)
  {
    var recs := AcceptedRecords(raws, specifiedLen);
    var data: map<int, seq<Record>> := BucketByYear(recs);
    BucketByYearIsOfYear(recs);
    AcceptedHaveSpecifiedLength(raws, specifiedLen);
    forall y: int | y in data
      ensures |data[y]| > 0
      ensures forall k :: 0 <= k < |data[y]| ==> data[y][k].year == y && |data[y][k].sequence| == specifiedLen
    {
      OfYearProperties(recs, y);
      var k :| 0 <= k < |recs| && recs[k].year == y;
      OfYearHas(recs, y, k);
    }
  }

  lemma {:induction false} OfYearHas(recs: seq<Record>, year: int, k: nat)
    requires k < |recs| && recs[k].year == year
    ensures |OfYear(recs, year)| > 0
    decreases |recs|
  {
    if k < |recs| - 1 {
      OfYearHas(recs[..|recs| - 1], year, k);
    }
  }

  /** How each meaning function grows by one record. */
  lemma PrefixStep(raws: seq<RawRecord>, specifiedLen: int, i: nat)
    requires i < |raws|
    ensures var pre, v := raws[..i], Classify(raws[i], specifiedLen);
      && FirstError(raws[..i + 1], specifiedLen) == (if FirstError(pre, specifiedLen).Some? then FirstError(pre, specifiedLen)
                                                    else if v.Raises? then Some(v.error) else None)
      && AcceptedRecords(raws[..i + 1], specifiedLen) == AcceptedRecords(pre, specifiedLen) + (if v.Accepted? then [v.record] else [])
      && CountMissing(raws[..i + 1], specifiedLen) == CountMissing(pre, specifiedLen) + (if v.MissingDate? then 1 else 0)
      && CountTooLong(raws[..i + 1], specifiedLen) == CountTooLong(pre, specifiedLen) + (if v.BadLength? then 1 else 0)
  {
    assert raws[..i + 1][..i] == raws[..i];
  }

  /** Appending one record to the bucket map. */
  lemma BucketStep(recs: seq<Record>, r: Record)
    ensures var m := BucketByYear(recs);
      BucketByYear(recs + [r]) == m[r.year := (if r.year in m then m[r.year] else []) + [r]]
    ensures CharsOf(recs + [r]) == CharsOf(recs) + CharSet(r.sequence)
  {
    assert (recs + [r])[..|recs|] == recs;
  }

  // ---------------------------------------------------------------------------
  // The loop
  // ---------------------------------------------------------------------------

  /**
   * `__parse_fasta_to_list(some_fasta, specified_len)` over the records the reader
   * yields: the first exception ends it, otherwise the buckets, alphabet and counts.
   */
  method ParseFastaToList(raws: seq<RawRecord>, specifiedLen: int) returns (r: Result<ParsedCorpus, Error>)
    ensures r.Failure? <==> FirstError(raws, specifiedLen).Some?
    ensures r.Failure? ==> r.error == FirstError(raws, specifiedLen).value
    ensures r.Success? ==> r.value.data == BucketByYear(AcceptedRecords(raws, specifiedLen))
    ensures r.Success? ==> r.value.numMissing == CountMissing(raws, specifiedLen)
    ensures r.Success? ==> r.value.numTooLong == CountTooLong(raws, specifiedLen)
    ensures r.Success? ==> forall c :: c in r.value.alphabet <==> c in CharsOf(AcceptedRecords(raws, specifiedLen))
    ensures r.Success? ==> Distinct(r.value.alphabet)
  {
    var data: map<int, seq<Record>> := map[];
    var numMissing: nat := 0;
    var numTooLong: nat := 0;
    var seqs: set<char> := {};
    assert raws[..0] == [];
    for i := 0 to |raws|
      invariant FirstError(raws[..i], specifiedLen).None?
      invariant data == BucketByYear(AcceptedRecords(raws[..i], specifiedLen))
      invariant numMissing == CountMissing(raws[..i], specifiedLen)
      invariant numTooLong == CountTooLong(raws[..i], specifiedLen)
      invariant seqs == CharsOf(AcceptedRecords(raws[..i], specifiedLen))
    {
      PrefixStep(raws, specifiedLen, i);
      var v := Classify(raws[i], specifiedLen);
      if v.Raises? {
        FirstErrorOfPrefix(raws, specifiedLen, i + 1);
        return Failure(v.error);
      } else if v.MissingDate? {
        assert AcceptedRecords(raws[..i + 1], specifiedLen) == AcceptedRecords(raws[..i], specifiedLen);
        numMissing := numMissing + 1;
      } else if v.BadLength? {
        assert AcceptedRecords(raws[..i + 1], specifiedLen) == AcceptedRecords(raws[..i], specifiedLen);
        numTooLong := numTooLong + 1;
      } else {
        var rec := v.record;
        ghost var accepted := AcceptedRecords(raws[..i], specifiedLen);
        assert AcceptedRecords(raws[..i + 1], specifiedLen) == accepted + [rec];
        BucketStep(accepted, rec);
        seqs := seqs + CharSet(rec.sequence);
        // `if year not in data.keys(): data[year] = []`, then `data[year].append(template)`
        var bucket := if rec.year in data then data[rec.year] else [];
        data := data[rec.year := bucket + [rec]];
      }
    }
    assert raws[..|raws|] == raws;
    var alphabet := JoinSet(seqs);
    r := Success(ParsedCorpus(data, alphabet, numMissing, numTooLong));
  }
}
