/**
 * `FastaSampler`: holds the north and south corpora bucketed by year, the vocabulary
 * and its inverse, and the training and validation years; generates composite
 * winter > summer > winter samples and the windows cut from them.
 */
module Sampler {
  import opened Wrappers
  import opened Errors
  import opened PyText
  import opened Records
  import opened Parsing
  import opened Vocab
  import opened Years
  import opened Sampling

  /** What `generate_N_sample_per_year` returns: the composite strings, or their ids when `to_num`. */
  datatype Samples = Text(texts: seq<string>) | Tokens(tokens: seq<seq<int>>)

  function SampleCount(s: Samples): nat {
    match s
    case Text(texts) => |texts|
    case Tokens(tokens) => |tokens|
  }

  /** The two counts each corpus parse prints. */
  datatype ParseReport = ParseReport(northMissing: nat, northTooLong: nat, southMissing: nat, southTooLong: nat)

  /** Every character of every stored sequence has an id. */
  ghost predicate Covers(vocab: map<char, int>, data: map<int, seq<Record>>) {
    forall y, k, c :: y in data && 0 <= k < |data[y]| && c in data[y][k].sequence ==> c in vocab
  }

  /** The length of a composite made of specified-length sequences. */
  function CompositeLength(full: bool): nat {
    if full then 3 * SpecifiedLen + 4 else 2 * SpecifiedLen + 3
  }

  /** `max(self.north.keys())`, or nothing when there are no north years. */
  function LargestYear(years: set<int>): (m: MaxYear)
    ensures m.NoYears? <==> years == {}
    ensures m.MaxIs? ==> m.year in years && forall y :: y in years ==> y <= m.year
  {
    if years == {} then NoYears
    else
      var l := SortedList(years);
      var last := l[|l| - 1];
      assert forall y :: y in years ==> y <= last by {
        forall y | y in years
          ensures y <= last
        {
          var i :| 0 <= i < |l| && l[i] == y;
          assert i == |l| - 1 || l[i] < l[|l| - 1];
        }
      }
      MaxIs(last)
  }

  /** The four presence checks at the top of `generate_N_sample_per_year`. */
  predicate YearsPresent(year: int, north: map<int, seq<Record>>, south: map<int, seq<Record>>) {
    year in north && year in south && year + 1 in north && year - 1 in north
  }

  /** `to_num`: the ids of every composite, or the composites themselves. */
  function Render(vocab: map<char, int>, texts: seq<string>, toNum: bool): (r: Result<Samples, Error>)
    ensures r.Success? ==> SampleCount(r.value) == |texts| && (r.value.Tokens? <==> toNum)
    ensures r.Success? <==> !toNum || forall k :: 0 <= k < |texts| ==> Encode(vocab, texts[k]).Success?
    ensures r.Success? && !toNum ==> r.value.texts == texts
  {
    if toNum then
      match EncodeAll(vocab, texts)
      case Failure(e) => Failure(e)
      case Success(tokens) => Success(Tokens(tokens))
    else Success(Text(texts))
  }

  /** What `generate_N_sample_per_year` returns for the given corpora, vocabulary and draws. */
  function SamplesPerYear(n: int, year: int, full: bool, toNum: bool, pattern: seq<string>,
                          north: map<int, seq<Record>>, south: map<int, seq<Record>>,
                          sym: Symbols, vocab: map<char, int>, rng: seq<nat>): (d: Drawn<Samples>)
    ensures |d.1| <= |rng|
    ensures d.0.Success? ==> YearsPresent(year, north, south) && |pattern| <= 3
    ensures d.0.Success? ==> (d.0.value.Tokens? <==> toNum)
    ensures !YearsPresent(year, north, south) ==> d.1 == rng && d.0.Failure? && d.0.error.YearNotPresent?
  {
    if !YearsPresent(year, north, south) then (Failure(YearNotPresent(year, LargestYear(north.Keys))), rng)
    else if |pattern| > 3 then (Failure(PatternTooLong), rng)
    else
      var (parts, rest) := PartsFrom(n, pattern, 0, year, None, north, south, rng);
      match parts
      case Failure(e) => (Failure(e), rest)
      case Success(allSeqs) =>
        match Compose(sym, allSeqs, n, full)
        case Failure(e) => (Failure(e), rest)
        case Success(texts) => (Render(vocab, texts, toNum), rest)
  }

  // ---------------------------------------------------------------------------
  // What the sampled parts look like
  // ---------------------------------------------------------------------------

  /** A sampled part: `N` sequences (none for `N <= 0`), each of the specified length and all in the vocabulary. */
  ghost predicate Shaped(xs: seq<string>, n: int, vocab: map<char, int>) {
    && |xs| == Max(n, 0)
    && forall j :: 0 <= j < |xs| ==> |xs[j]| == SpecifiedLen && forall c :: c in xs[j] ==> c in vocab
  }

  /** A pool whose records all have the specified length and characters in the vocabulary. */
  ghost predicate GoodPool(pool: seq<Record>, vocab: map<char, int>) {
    forall k :: 0 <= k < |pool| ==> |pool[k].sequence| == SpecifiedLen && forall c :: c in pool[k].sequence ==> c in vocab
  }

  lemma BucketIsGoodPool(data: map<int, seq<Record>>, y: int, vocab: map<char, int>)
    requires WellFormedBuckets(data, SpecifiedLen) && Covers(vocab, data) && y in data
    ensures GoodPool(data[y], vocab) && |data[y]| > 0
  {
  }

  lemma SampleFromShaped(n: int, year: int, pool: seq<Record>, upper: int, lower: int, rng: seq<nat>, vocab: map<char, int>)
    requires GoodPool(pool, vocab)
    ensures var r := SampleFrom(n, year, pool, upper, lower, rng).0;
            r.Success? ==> Shaped(r.value, n, vocab)
  {
    if n > 0 && |pool| > 0 {
      SampleFromMeaning(n, year, pool, upper, lower, rng);
    }
  }

  /** Every part the pattern loop produces is shaped, whatever the pattern and the draws. */
  lemma {:induction false} PartsFromShaped(n: int, pattern: seq<string>, i: nat, currentYear: int, prev: Option<seq<string>>,
                                           north: map<int, seq<Record>>, south: map<int, seq<Record>>, rng: seq<nat>,
                                           vocab: map<char, int>)
    requires i <= |pattern|
    requires WellFormedBuckets(north, SpecifiedLen) && WellFormedBuckets(south, SpecifiedLen)
    requires Covers(vocab, north) && Covers(vocab, south)
    requires prev.Some? ==> Shaped(prev.value, n, vocab)
    ensures var r := PartsFrom(n, pattern, i, currentYear, prev, north, south, rng).0;
            r.Success? ==> |r.value| == |pattern| - i && forall k :: 0 <= k < |r.value| ==> Shaped(r.value[k], n, vocab)
    decreases |pattern| - i
  {
    if i < |pattern| {
      var year := NextYear(pattern, i, currentYear);
      var tag := pattern[i];
      var (part, rest) := SeasonPart(n, tag, year, prev, north, south, rng);
      if IsTag(tag, "w") && year in north && year - 1 in north {
        BucketIsGoodPool(north, year, vocab);
        BucketIsGoodPool(north, year - 1, vocab);
        SampleFromShaped(n, year, north[year] + north[year - 1], WinterUpper, WinterLower, rng, vocab);
      } else if !IsTag(tag, "w") && IsTag(tag, "s") && year in south {
        BucketIsGoodPool(south, year, vocab);
        SampleFromShaped(n, year, south[year], SummerUpper, SummerLower, rng, vocab);
      }
      if part.Success? {
        PartsFromShaped(n, pattern, i + 1, year, Some(part.value), north, south, rest, vocab);
        var later := PartsFrom(n, pattern, i + 1, year, Some(part.value), north, south, rest).0;
        if later.Success? {
          var all := [part.value] + later.value;
          forall k | 0 <= k < |all|
            ensures Shaped(all[k], n, vocab)
          {
            if k > 0 {
              assert all[k] == later.value[k - 1];
            }
          }
        }
      }
    }
  }

  /** Shaped parts always compose and encode: `N` composites of the fixed length. */
  lemma ComposeShaped(sym: Symbols, parts: seq<seq<string>>, n: int, full: bool, vocab: map<char, int>)
    requires |parts| >= (if full then 3 else 2)
    requires forall k :: 0 <= k < |parts| ==> Shaped(parts[k], n, vocab)
    requires forall c :: c in Controls(sym) ==> c in vocab
    ensures Compose(sym, parts, n, full).Success?
    ensures var texts := Compose(sym, parts, n, full).value;
            && |texts| == Max(n, 0)
            && (forall i :: 0 <= i < |texts| ==> |texts[i]| == CompositeLength(full))
            && EncodeAll(vocab, texts).Success?
  {
    if n > 0 {
      ComposeEntries(sym, parts, n, full);
      var texts := Compose(sym, parts, n, full).value;
      assert sym.start in Controls(sym) && sym.delim0 in Controls(sym) && sym.delim1 in Controls(sym) && sym.end in Controls(sym);
      forall i | 0 <= i < n
        ensures |texts[i]| == CompositeLength(full) && Encode(vocab, texts[i]).Success?
      {
        var a, b := parts[0][i], parts[1][i];
        if full {
          FullCompositeLayout(sym, a, b, parts[2][i], SpecifiedLen);
        } else {
          PrimingCompositeLayout(sym, a, b, SpecifiedLen);
        }
        forall j | 0 <= j < |texts[i]|
          ensures texts[i][j] in vocab
        {
          assert texts[i][j] in texts[i];
        }
      }
    }
  }

  /**
   * Whatever the pattern and the draws, a per-year sample is `N` composites of the
   * fixed length, rendered as asked; a missing character id is impossible.
   */
  lemma SamplesPerYearShape(n: int, year: int, full: bool, toNum: bool, pattern: seq<string>,
                            north: map<int, seq<Record>>, south: map<int, seq<Record>>,
                            sym: Symbols, vocab: map<char, int>, rng: seq<nat>)
    requires WellFormedBuckets(north, SpecifiedLen) && WellFormedBuckets(south, SpecifiedLen)
    requires Covers(vocab, north) && Covers(vocab, south)
    requires forall c :: c in Controls(sym) ==> c in vocab
    ensures var r := SamplesPerYear(n, year, full, toNum, pattern, north, south, sym, vocab, rng).0;
            && (r.Success? ==> SampleCount(r.value) == Max(n, 0) && (r.value.Tokens? <==> toNum))
            && (r.Success? && r.value.Tokens? ==> forall i :: 0 <= i < |r.value.tokens| ==> |r.value.tokens[i]| == CompositeLength(full))
            && (r.Success? && r.value.Text? ==> forall i :: 0 <= i < |r.value.texts| ==> |r.value.texts[i]| == CompositeLength(full))
            && (r.Failure? ==> r.error.YearNotPresent? || r.error == PatternTooLong || r.error.MissingYear? ||
                               r.error == NoSeasonTag || r.error == MissingPart || r.error == OutOfDraws)
  {
    if YearsPresent(year, north, south) && |pattern| <= 3 {
      var (parts, rest) := PartsFrom(n, pattern, 0, year, None, north, south, rng);
      PartsFromShaped(n, pattern, 0, year, None, north, south, rng, vocab);
      PartsFromErrors(n, pattern, 0, year, None, north, south, rng);
      if parts.Success? && |parts.value| >= (if full then 3 else 2) {
        ComposeShaped(sym, parts.value, n, full, vocab);
      }
    }
  }

  /** The pattern loop fails only on a missing year, an untagged first entry, or running out of draws. */
  lemma {:induction false} PartsFromErrors(n: int, pattern: seq<string>, i: nat, currentYear: int, prev: Option<seq<string>>,
                                           north: map<int, seq<Record>>, south: map<int, seq<Record>>, rng: seq<nat>)
    requires i <= |pattern|
    requires WellFormedBuckets(north, SpecifiedLen) && WellFormedBuckets(south, SpecifiedLen)
    ensures var r := PartsFrom(n, pattern, i, currentYear, prev, north, south, rng).0;
            r.Failure? ==> r.error.MissingYear? || r.error == NoSeasonTag || r.error == OutOfDraws
    decreases |pattern| - i
  {
    if i < |pattern| {
      var year := NextYear(pattern, i, currentYear);
      var tag := pattern[i];
      var (part, rest) := SeasonPart(n, tag, year, prev, north, south, rng);
      if IsTag(tag, "w") && year in north && year - 1 in north {
        if n > 0 {
          SampleFromMeaning(n, year, north[year] + north[year - 1], WinterUpper, WinterLower, rng);
        }
      } else if !IsTag(tag, "w") && IsTag(tag, "s") && year in south {
        if n > 0 {
          SampleFromMeaning(n, year, south[year], SummerUpper, SummerLower, rng);
        }
      }
      if part.Success? {
        PartsFromErrors(n, pattern, i + 1, year, Some(part.value), north, south, rest);
      }
    }
  }

  /** With the default pattern and the years present, a per-year sample can only fail by running out of draws. */
  lemma DefaultPatternOnlyRunsOut(n: int, year: int, full: bool, toNum: bool,
                                  north: map<int, seq<Record>>, south: map<int, seq<Record>>,
                                  sym: Symbols, vocab: map<char, int>, rng: seq<nat>)
    requires WellFormedBuckets(north, SpecifiedLen) && WellFormedBuckets(south, SpecifiedLen)
    requires Covers(vocab, north) && Covers(vocab, south)
    requires forall c :: c in Controls(sym) ==> c in vocab
    requires YearsPresent(year, north, south)
    ensures var r := SamplesPerYear(n, year, full, toNum, DefaultPattern, north, south, sym, vocab, rng).0;
            r.Failure? ==> r.error == OutOfDraws
  {
    var (parts, rest) := PartsFrom(n, DefaultPattern, 0, year, None, north, south, rng);
    if n > 0 {
      DefaultPatternSamples(n, year, north, south, rng);
      PartsFromShaped(n, DefaultPattern, 0, year, None, north, south, rng, vocab);
      if parts.Success? {
        ComposeShaped(sym, parts.value, n, full, vocab);
      }
    }
  }

  /** `x` is the sequence of a record of `pool` that passes the season test. */
  ghost predicate SampledFrom(x: string, pool: seq<Record>, year: int, upper: int, lower: int) {
    exists j :: 0 <= j < |pool| && InSeason(pool[j], year, upper, lower) && pool[j].sequence == x
  }

  /**
   * `tokens` are the ids of a training composite for pivot `year`: a north winter
   * sequence of `year - 1`/`year`, a south sequence of `year` taken with the reused
   * winter test, and a north winter sequence of `year`/`year + 1`.
   */
  ghost predicate SeasonalComposite(tokens: seq<int>, year: int, north: map<int, seq<Record>>, south: map<int, seq<Record>>,
                                    sym: Symbols, vocab: map<char, int>) {
    && YearsPresent(year, north, south)
    && exists a, b, c ::
         && SampledFrom(a, north[year] + north[year - 1], year, WinterUpper, WinterLower)
         && SampledFrom(b, south[year], year, SummerUpper, SummerLower)
         && SampledFrom(c, north[year + 1] + north[year], year + 1, WinterUpper, WinterLower)
         && Encode(vocab, FullComposite(sym, a, b, c)) == Success(tokens)
  }

  /** Every entry of a default-pattern training sample for `year` is a seasonal composite of `year`. */
  lemma SamplesPerYearComposites(n: int, year: int, north: map<int, seq<Record>>, south: map<int, seq<Record>>,
                                 sym: Symbols, vocab: map<char, int>, rng: seq<nat>)
    requires WellFormedBuckets(north, SpecifiedLen) && WellFormedBuckets(south, SpecifiedLen)
    ensures var r := SamplesPerYear(n, year, true, true, DefaultPattern, north, south, sym, vocab, rng).0;
            r.Success? ==> r.value.Tokens? && forall i :: 0 <= i < |r.value.tokens| ==>
              SeasonalComposite(r.value.tokens[i], year, north, south, sym, vocab)
  {
    var r := SamplesPerYear(n, year, true, true, DefaultPattern, north, south, sym, vocab, rng).0;
    if r.Success? && n > 0 {
      DefaultPatternSamples(n, year, north, south, rng);
      var parts := PartsFrom(n, DefaultPattern, 0, year, None, north, south, rng).0.value;
      ComposeEntries(sym, parts, n, true);
      var texts := Compose(sym, parts, n, true).value;
      var tokens := r.value.tokens;
      assert EncodeAll(vocab, texts) == Success(tokens);
      forall i | 0 <= i < |tokens|
        ensures SeasonalComposite(tokens[i], year, north, south, sym, vocab)
      {
        var a, b, c := parts[0][i], parts[1][i], parts[2][i];
        assert SampledFrom(a, north[year] + north[year - 1], year, WinterUpper, WinterLower);
        assert SampledFrom(b, south[year], year, SummerUpper, SummerLower);
        assert SampledFrom(c, north[year + 1] + north[year], year + 1, WinterUpper, WinterLower);
        assert Encode(vocab, FullComposite(sym, a, b, c)) == Success(tokens[i]);
      }
    }
  }

  /**
   * What holds of the sampler's data between calls: both corpora bucketed as a parse
   * leaves them, the vocabulary built from `alphabet` and holding every stored
   * character, and the inverse dictionary of that vocabulary.
   */
  ghost predicate Consistent(getIdx: string -> map<char, int>, sym: Symbols,
                             north: map<int, seq<Record>>, south: map<int, seq<Record>>,
                             vocab: map<char, int>, inverse: map<int, char>, alphabet: string)
  {
    && IsEnumerator(getIdx)
    && WellFormedBuckets(north, SpecifiedLen) && WellFormedBuckets(south, SpecifiedLen)
    && vocab == Vocabulary(alphabet, sym, getIdx)
    && Covers(vocab, north) && Covers(vocab, south)
    && IsInverse(inverse, vocab)
  }

  /** After both parses and the vocabulary, the sampler's data is consistent. */
  lemma HandledConsistent(northRaw: seq<RawRecord>, southRaw: seq<RawRecord>, sym: Symbols,
                          getIdx: string -> map<char, int>, alphabet: string, inverse: map<int, char>)
    requires IsEnumerator(getIdx)
    requires forall c :: c in alphabet <==>
               c in CharsOf(AcceptedRecords(northRaw, SpecifiedLen)) || c in CharsOf(AcceptedRecords(southRaw, SpecifiedLen))
    requires IsInverse(inverse, Vocabulary(alphabet, sym, getIdx))
    ensures Consistent(getIdx, sym, BucketByYear(AcceptedRecords(northRaw, SpecifiedLen)),
                       BucketByYear(AcceptedRecords(southRaw, SpecifiedLen)), Vocabulary(alphabet, sym, getIdx), inverse, alphabet)
  {
    var vocab := Vocabulary(alphabet, sym, getIdx);
    ParsedBucketsWellFormed(northRaw, SpecifiedLen);
    ParsedBucketsWellFormed(southRaw, SpecifiedLen);
    ParsedCovered(northRaw, vocab);
    ParsedCovered(southRaw, vocab);
  }

  /** The vocabulary of an alphabet made of two character sets has exactly those, the controls and the pad. */
  lemma VocabularyKeys(alphabet: string, sym: Symbols, getIdx: string -> map<char, int>, a: set<char>, b: set<char>)
    requires IsEnumerator(getIdx)
    requires forall c :: c in alphabet <==> c in a || c in b
    ensures forall c :: c in Vocabulary(alphabet, sym, getIdx) <==> c in a || c in b || c in Controls(sym) || c == sym.pad
  {
  }

  /** The records a parse keeps are covered by any vocabulary holding the characters it collected. */
  lemma ParsedCovered(raws: seq<RawRecord>, vocab: map<char, int>)
    requires forall c :: c in CharsOf(AcceptedRecords(raws, SpecifiedLen)) ==> c in vocab
    ensures Covers(vocab, BucketByYear(AcceptedRecords(raws, SpecifiedLen)))
  {
    var acc := AcceptedRecords(raws, SpecifiedLen);
    var data: map<int, seq<Record>> := BucketByYear(acc);
    BucketByYearIsOfYear(acc);
    forall y: int, k: int, c: char | y in data && 0 <= k < |data[y]| && c in data[y][k].sequence
      ensures c in vocab
    {
      OfYearProperties(acc, y);
      var r := data[y][k];
      assert r in acc;
      var i :| 0 <= i < |acc| && acc[i] == r;
      assert c in acc[i].sequence;
    }
  }

  // ---------------------------------------------------------------------------
  // The class
  // ---------------------------------------------------------------------------

  class FastaSampler {
    /** `start`, `end`, `delim0`, `delim1`, `pad_char`. */
    const symbols: Symbols
    /** `helper.get_idx`, which the model takes as a parameter. */
    const getIdx: string -> map<char, int>

    var north: map<int, seq<Record>>
    var south: map<int, seq<Record>>
    var vocabulary: map<char, int>
    var inverseVocabulary: map<int, char>
    var trainYears: Option<seq<int>>
    var validationYears: Option<seq<int>>
    /** The alphabet the vocabulary was last built from. */
    ghost var alphabet: string

    ghost predicate Valid()
      reads this
    {
      && Consistent(getIdx, symbols, north, south, vocabulary, inverseVocabulary, alphabet)
      && trainYears.Some? == validationYears.Some?
    }

    /** The attributes `__init__` sets before it reads the files: no years, no records yet. */
    constructor(symbols: Symbols, getIdx: string -> map<char, int>)
      requires IsEnumerator(getIdx)
      ensures Valid()
      ensures this.symbols == symbols && this.getIdx == getIdx
      ensures north == map[] && south == map[]
      ensures trainYears == None && validationYears == None
    {
      var v := Vocabulary("", symbols, getIdx);
      var inverse := InvertPadded(getIdx("" + Controls(symbols)), symbols.pad);
      this.symbols := symbols;
      this.getIdx := getIdx;
      north := map[];
      south := map[];
      alphabet := "";
      vocabulary := v;
      inverseVocabulary := inverse;
      trainYears := None;
      validationYears := None;
    }

    /** `__generate_vocabulary`: ids for the alphabet and the control symbols, pad 0, and the inverse. */
    method GenerateVocabulary(alphabet: string)
      requires IsEnumerator(getIdx)
      modifies this
      ensures vocabulary == Vocabulary(alphabet, symbols, getIdx)
      ensures IsInverse(inverseVocabulary, vocabulary)
      ensures symbols.pad !in alphabet + Controls(symbols) ==> 0 in inverseVocabulary && inverseVocabulary[0] == symbols.pad
      ensures this.alphabet == alphabet
      ensures north == old(north) && south == old(south)
      ensures trainYears == old(trainYears) && validationYears == old(validationYears)
    {
      vocabulary := Vocabulary(alphabet, symbols, getIdx);
      inverseVocabulary := InvertPadded(getIdx(alphabet + Controls(symbols)), symbols.pad);
      this.alphabet := alphabet;
    }

    /**
     * `handle_files`: parse the north corpus, then the south corpus, then build the
     * vocabulary from the characters both use. An exception in the south parse leaves
     * the new north data in place.
     */
    method HandleFiles(northRaw: seq<RawRecord>, southRaw: seq<RawRecord>) returns (r: Result<ParseReport, Error>)
      requires Valid()
      modifies this
      ensures r.Success? <==> FirstError(northRaw, SpecifiedLen).None? && FirstError(southRaw, SpecifiedLen).None?
      ensures FirstError(northRaw, SpecifiedLen).Some? ==>
                r == Failure(FirstError(northRaw, SpecifiedLen).value) && north == old(north)
      ensures FirstError(northRaw, SpecifiedLen).None? ==> north == BucketByYear(AcceptedRecords(northRaw, SpecifiedLen))
      ensures FirstError(northRaw, SpecifiedLen).None? && FirstError(southRaw, SpecifiedLen).Some? ==>
                r == Failure(FirstError(southRaw, SpecifiedLen).value)
      ensures r.Failure? ==> south == old(south) && vocabulary == old(vocabulary) && inverseVocabulary == old(inverseVocabulary)
      ensures r.Success? ==> south == BucketByYear(AcceptedRecords(southRaw, SpecifiedLen))
      ensures r.Success? ==> forall c :: c in vocabulary <==>
                c in CharsOf(AcceptedRecords(northRaw, SpecifiedLen)) || c in CharsOf(AcceptedRecords(southRaw, SpecifiedLen)) ||
                c in Controls(symbols) || c == symbols.pad
      ensures r.Success? ==> r.value == ParseReport(CountMissing(northRaw, SpecifiedLen), CountTooLong(northRaw, SpecifiedLen),
                                                    CountMissing(southRaw, SpecifiedLen), CountTooLong(southRaw, SpecifiedLen))
      ensures r.Success? && symbols.pad !in Controls(symbols) && symbols.pad !in CharsOf(AcceptedRecords(northRaw, SpecifiedLen)) &&
              symbols.pad !in CharsOf(AcceptedRecords(southRaw, SpecifiedLen)) ==>
                0 in inverseVocabulary && inverseVocabulary[0] == symbols.pad
      ensures r.Success? ==> Valid()
      ensures trainYears == old(trainYears) && validationYears == old(validationYears)
    {
      var n: Result<ParsedCorpus, Error> := ParseFastaToList(northRaw, SpecifiedLen);
      if n.Failure? {
        return Failure(n.error);
      }
      north := n.value.data;
      var s: Result<ParsedCorpus, Error> := ParseFastaToList(southRaw, SpecifiedLen);
      if s.Failure? {
        return Failure(s.error);
      }
      south := s.value.data;
      var vocabTemp := JoinSet(CharSet(n.value.alphabet) + CharSet(s.value.alphabet));
      ghost var northChars := CharsOf(AcceptedRecords(northRaw, SpecifiedLen));
      ghost var southChars := CharsOf(AcceptedRecords(southRaw, SpecifiedLen));
      assert forall c :: c in vocabTemp <==> c in northChars || c in southChars;
      GenerateVocabulary(vocabTemp);
      VocabularyKeys(vocabTemp, symbols, getIdx, northChars, southChars);
      HandledConsistent(northRaw, southRaw, symbols, getIdx, vocabTemp, inverseVocabulary);
      r := Success(ParseReport(n.value.numMissing, n.value.numTooLong, s.value.numMissing, s.value.numTooLong));
    }

    /** `set_validation_years`: the north years split into training and validation lists. */
    method SetValidationYears(validation: seq<int>)
      requires Valid()
      modifies this
      ensures Valid()
      ensures var p := PartitionYears(north.Keys, set y | y in validation);
              trainYears == Some(p.train) && validationYears == Some(p.validation)
      ensures north == old(north) && south == old(south)
      ensures vocabulary == old(vocabulary) && inverseVocabulary == old(inverseVocabulary)
    {
      var p := PartitionYears(north.Keys, set y | y in validation);
      trainYears := Some(p.train);
      validationYears := Some(p.validation);
    }

    /**
     * `generate_N_sample_per_year`: check the years and the pattern, sample one part
     * per pattern entry, lay the parts out as composites, and encode them when asked.
     */
    method GenerateNSamplePerYear(n: int, year: int, full: bool, toNum: bool, pattern: seq<string>, rng: seq<nat>)
      returns (r: Result<Samples, Error>, rest: seq<nat>)
      requires Valid()
      ensures (r, rest) == SamplesPerYear(n, year, full, toNum, pattern, north, south, symbols, vocabulary, rng)
      ensures |rest| <= |rng|
      ensures r.Success? ==> SampleCount(r.value) == Max(n, 0) && (r.value.Tokens? <==> toNum)
      ensures r.Success? && r.value.Tokens? ==> forall i :: 0 <= i < |r.value.tokens| ==> |r.value.tokens[i]| == CompositeLength(full)
      ensures YearsPresent(year, north, south) && pattern == DefaultPattern && r.Failure? ==> r.error == OutOfDraws
    {
      SamplesPerYearShape(n, year, full, toNum, pattern, north, south, symbols, vocabulary, rng);
      if YearsPresent(year, north, south) {
        DefaultPatternOnlyRunsOut(n, year, full, toNum, north, south, symbols, vocabulary, rng);
      }
      if year !in north.Keys || year !in south.Keys || year + 1 !in north.Keys || year - 1 !in north.Keys {
        return Failure(YearNotPresent(year, LargestYear(north.Keys))), rng;
      }
      if |pattern| > 3 {
        return Failure(PatternTooLong), rng;
      }
      var allSeqs: Result<seq<seq<string>>, Error>;
      allSeqs, rest := SamplePattern(n, year, pattern, north, south, rng);
      if allSeqs.Failure? {
        return Failure(allSeqs.error), rest;
      }
      var toReturn := Compose(symbols, allSeqs.value, n, full);
      if toReturn.Failure? {
        return Failure(toReturn.error), rest;
      }
      if toNum {
        var encoded := EncodeAll(vocabulary, toReturn.value);
        if encoded.Failure? {
          return Failure(encoded.error), rest;
        }
        r := Success(Tokens(encoded.value));
      } else {
        r := Success(Text(toReturn.value));
      }
    }

    /** `year` is in the list `group` names: `train` or `validation`, in any case. */
    ghost predicate InGroup(group: string, year: int)
      reads this
    {
      || (Lower(group) == "train" && trainYears.Some? && year in trainYears.value)
      || (Lower(group) == "validation" && validationYears.Some? && year in validationYears.value)
    }

    /**
     * The `while len(output) < N` loop of `generate_N_random_samples_and_targets`: draw
     * a batch size and a year of the group, and append that many training composites
     * of the year. The ghost result names the pivot year of each composite.
     */
    method DrawComposites(n: int, group: string, rng: seq<nat>)
      returns (r: Result<seq<seq<int>>, Error>, rest: seq<nat>, ghost pivots: seq<int>)
      requires Valid() && trainYears.Some?
      ensures n <= 0 ==> r == Success([]) && rest == rng
      ensures r.Success? ==> |r.value| == Max(n, 0) && |pivots| == |r.value|
      ensures r.Success? ==> forall i :: 0 <= i < |r.value| ==>
                |r.value[i]| == CompositeLength(true) && InGroup(group, pivots[i]) &&
                SeasonalComposite(r.value[i], pivots[i], north, south, symbols, vocabulary)
      ensures r.Failure? ==> r.error == UnknownGroup(group) || r.error == EmptyRange ||
                             r.error.YearNotPresent? || r.error == OutOfDraws
    {
      var output: seq<seq<int>> := [];
      pivots := [];
      rest := rng;
      while |output| < n
        invariant |output| <= Max(n, 0) && |pivots| == |output|
        invariant n <= 0 ==> rest == rng
        invariant forall i :: 0 <= i < |output| ==>
                    |output[i]| == CompositeLength(true) && InGroup(group, pivots[i]) &&
                    SeasonalComposite(output[i], pivots[i], north, south, symbols, vocabulary)
        decreases |rest|
      {
        var d := RandInt(n - |output| + 1, rest);
        if d.Failure? {
          return Failure(d.error), rest, pivots;
        }
        var numSamples := d.value.0;
        rest := d.value.1;
        var years: seq<int>;
        if Lower(group) == "train" {
          years := trainYears.value;
        } else if Lower(group) == "validation" {
          years := validationYears.value;
        } else {
          return Failure(UnknownGroup(group)), rest, pivots;
        }
        var e := RandInt(|years|, rest);
        if e.Failure? {
          return Failure(e.error), rest, pivots;
        }
        var year := years[e.value.0];
        assert InGroup(group, year);
        rest := e.value.1;
        ghost var drawsBefore := rest;
        var batch: Result<Samples, Error>;
        batch, rest := GenerateNSamplePerYear(numSamples, year, true, true, DefaultPattern, rest);
        if batch.Failure? {
          return Failure(batch.error), rest, pivots;
        }
        SamplesPerYearComposites(numSamples, year, north, south, symbols, vocabulary, drawsBefore);
        var tokens := batch.value.tokens;
        ghost var before := output;
        output := output + tokens;
        pivots := pivots + seq(|tokens|, _ => year);
        assert forall i :: |before| <= i < |output| ==> output[i] == tokens[i - |before|] && pivots[i] == year;
      }
      r := Success(output);
    }

    /**
     * `generate_N_random_samples_and_targets`: the drawn composites, and, when
     * `slice_len` is given, an input window and the target window one id further cut
     * from each. The ghost results name what was drawn: the composites, the pivot year
     * of each, and the window offsets.
     */
    method GenerateNRandomSamplesAndTargets(n: int, group: string, sliceLen: Option<int>, rng: seq<nat>)
      returns (r: Result<(seq<seq<int>>, seq<seq<int>>), Error>, rest: seq<nat>,
               ghost composites: seq<seq<int>>, ghost pivots: seq<int>, ghost offsets: seq<int>)
      requires Valid()
      ensures trainYears.None? ==> r == Failure(YearsNotSet)
      ensures trainYears.Some? && n <= 0 ==> r == Success(([], [])) && rest == rng
      ensures r.Success? ==> |r.value.0| == Max(n, 0) && |r.value.1| == Max(n, 0)
      ensures r.Success? ==> |composites| == Max(n, 0) && |pivots| == |composites|
      ensures r.Success? ==> forall i :: 0 <= i < |composites| ==>
                InGroup(group, pivots[i]) && SeasonalComposite(composites[i], pivots[i], north, south, symbols, vocabulary)
      ensures r.Success? && sliceLen.None? ==>
                r.value == (composites, composites) && forall i :: 0 <= i < |composites| ==> |composites[i]| == CompositeLength(true)
      ensures r.Success? && sliceLen.Some? ==> |offsets| == |composites| && forall i :: 0 <= i < |composites| ==>
                CutAt(composites[i], sliceLen.value, 0, offsets[i], r.value.0[i], r.value.1[i])
      ensures r.Success? && sliceLen.Some? && sliceLen.value >= 0 ==>
                forall i :: 0 <= i < |r.value.0| ==> |r.value.0[i]| == sliceLen.value && |r.value.1[i]| == sliceLen.value
      ensures r.Success? && sliceLen.Some? && sliceLen.value > 0 ==>
                forall i :: 0 <= i < |r.value.0| ==> r.value.1[i][..sliceLen.value - 1] == r.value.0[i][1..]
      ensures r.Failure? ==> r.error == YearsNotSet || r.error == UnknownGroup(group) || r.error == EmptyRange ||
                             r.error.YearNotPresent? || r.error == OutOfDraws
    {
      composites, pivots, offsets := [], [], [];
      if trainYears.None? {
        return Failure(YearsNotSet), rng, composites, pivots, offsets;
      }
      var output: Result<seq<seq<int>>, Error>;
      output, rest, pivots := DrawComposites(n, group, rng);
      if output.Failure? {
        return Failure(output.error), rest, composites, pivots, offsets;
      }
      composites := output.value;
      assert vocabulary[symbols.pad] == 0;
      match sliceLen {
        case None =>
          r := Success((output.value, output.value));
        case Some(width) =>
          var cut: Result<(seq<seq<int>>, seq<seq<int>>), Error>;
          cut, rest, offsets := SliceSamples(output.value, width, vocabulary[symbols.pad], rest);
          if cut.Failure? {
            return Failure(cut.error), rest, composites, pivots, offsets;
          }
          r := Success(cut.value);
      }
    }
  }

  /** `FastaSampler(north_fasta, south_fasta, ...)`: the attributes, then `handle_files`, then no years. */
  method NewFastaSampler(northRaw: seq<RawRecord>, southRaw: seq<RawRecord>, symbols: Symbols, getIdx: string -> map<char, int>)
    returns (r: Result<FastaSampler, Error>)
    requires IsEnumerator(getIdx)
    ensures r.Success? <==> FirstError(northRaw, SpecifiedLen).None? && FirstError(southRaw, SpecifiedLen).None?
    ensures r.Failure? ==> r.error == (if FirstError(northRaw, SpecifiedLen).Some? then FirstError(northRaw, SpecifiedLen).value
                                       else FirstError(southRaw, SpecifiedLen).value)
    ensures r.Success? ==> fresh(r.value) && r.value.Valid()
    ensures r.Success? ==> r.value.north == BucketByYear(AcceptedRecords(northRaw, SpecifiedLen))
    ensures r.Success? ==> r.value.south == BucketByYear(AcceptedRecords(southRaw, SpecifiedLen))
    ensures r.Success? ==> r.value.trainYears == None && r.value.validationYears == None
    ensures r.Success? ==> r.value.symbols == symbols && r.value.vocabulary[symbols.pad] == 0
  {
    var sampler := new FastaSampler(symbols, getIdx);
    var handled := sampler.HandleFiles(northRaw, southRaw);
    if handled.Failure? {
      return Failure(handled.error);
    }
    r := Success(sampler);
  }
}
