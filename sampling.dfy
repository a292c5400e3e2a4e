/**
 * The random sampling of `FastaSampler`: `np.random.randint`, `__get_winter_sample`,
 * the season pattern of `generate_N_sample_per_year`, the composite strings it
 * builds, and the windows `generate_N_random_samples_and_targets` cuts from them.
 *
 * Randomness is a caller-supplied list of draws: `np.random.randint(k)` takes the
 * next draw `d` and yields `d % k`. Where the source would loop until its random
 * choices succeed, running out of draws ends the model's loop with OutOfDraws.
 */
module Sampling {
  import opened Wrappers
  import opened Errors
  import opened PyText
  import opened Records
  import opened Parsing
  import opened Vocab

  // ---------------------------------------------------------------------------
  // np.random.randint(k)
  // ---------------------------------------------------------------------------

  /** `np.random.randint(k)`: a value in `[0, k)` and the draws left; ValueError when `k <= 0`. */
  function RandInt(k: int, rng: seq<nat>): (r: Result<(nat, seq<nat>), Error>)
    ensures r.Success? <==> k > 0 && |rng| > 0
    ensures r.Success? ==> r.value.0 < k && r.value.1 == rng[1..]
    ensures r.Failure? ==> r.error == (if k <= 0 then EmptyRange else OutOfDraws)
  {
    if k <= 0 then Failure(EmptyRange)
    else if rng == [] then Failure(OutOfDraws)
    else Success((rng[0] % k, rng[1..]))
  }

  // ---------------------------------------------------------------------------
  // __get_winter_sample
  // ---------------------------------------------------------------------------

  /** The season test of `__get_winter_sample`: this year up to `upper`, or last year from `lower`. */
  predicate InSeason(r: Record, year: int, upper: int, lower: int)
    ensures InSeason(r, year, upper, lower) ==> year - 1 <= r.year <= year
  {
    (r.year == year && r.month <= upper) || (r.year == year - 1 && r.month >= lower)
  }

  /** `w_upper`, `w_lower`, `s_upper`, `s_lower` of `generate_N_sample_per_year`. */
  const WinterUpper: int := 5
  const WinterLower: int := 10
  const SummerUpper: int := 10
  const SummerLower: int := 5

  /** The outcome of a sampling step together with the draws it leaves. */
  type Drawn<T> = (Result<T, Error>, seq<nat>)

  /** Puts `xs` in front of a successful list; a failure passes through. */
  function Prepend<T>(xs: seq<T>, d: Drawn<seq<T>>): Drawn<seq<T>> {
    (match d.0
     case Success(v) => Success(xs + v)
     case Failure(e) => Failure(e),
     d.1)
  }

  lemma PrependNothing<T>(d: Drawn<seq<T>>)
    ensures Prepend([], d) == d
  {
    if d.0.Success? {
      assert [] + d.0.value == d.0.value;
    }
  }

  lemma PrependTwice<T>(xs: seq<T>, ys: seq<T>, d: Drawn<seq<T>>)
    ensures Prepend(xs, Prepend(ys, d)) == Prepend(xs + ys, d)
  {
    if d.0.Success? {
      assert xs + (ys + d.0.value) == (xs + ys) + d.0.value;
    }
  }

  /**
   * What `__get_winter_sample(N, year, possibles, upper, lower)` returns, one draw at
   * a time: a draw picks `possibles[d % len(possibles)]`, kept when in season.
   */
  function SampleFrom(n: int, year: int, pool: seq<Record>, upper: int, lower: int, rng: seq<nat>): (d: Drawn<seq<string>>)
    ensures |d.1| <= |rng|
    ensures d.0.Success? ==> |d.0.value| == if n <= 0 then 0 else n
    ensures d.0.Failure? ==> d.0.error == (if |pool| == 0 then EmptyRange else OutOfDraws)
    decreases |rng|
  {
    if n <= 0 then (Success([]), rng)
    else match RandInt(|pool|, rng)
      case Failure(e) => (Failure(e), rng)
      case Success((ind, rest)) =>
        if InSeason(pool[ind], year, upper, lower) then
          Prepend([pool[ind].sequence], SampleFrom(n - 1, year, pool, upper, lower, rest))
        else SampleFrom(n, year, pool, upper, lower, rest)
  }

  /** Reference definition: the sequences the draws pick that are in season, in draw order. */
  function SeasonHits(pool: seq<Record>, year: int, upper: int, lower: int, rng: seq<nat>): seq<string>
    requires |pool| > 0
    decreases |rng|
  {
    if rng == [] then []
    else
      var rec := pool[rng[0] % |pool|];
      (if InSeason(rec, year, upper, lower) then [rec.sequence] else []) + SeasonHits(pool, year, upper, lower, rng[1..])
  }

  /**
   * The sample is the first `n` in-season picks, and it is complete exactly when the
   * draws hold that many; the only way it fails on a non-empty pool is running out.
   */
  lemma {:induction false} SampleFromHits(n: int, year: int, pool: seq<Record>, upper: int, lower: int, rng: seq<nat>)
    requires n > 0 && |pool| > 0
    ensures var hits := SeasonHits(pool, year, upper, lower, rng);
            var r := SampleFrom(n, year, pool, upper, lower, rng).0;
            && (r.Success? <==> |hits| >= n)
            && (r.Success? ==> r.value == hits[..n])
            && (r.Failure? ==> r.error == OutOfDraws)
    decreases |rng|
  {
    if rng != [] {
      var rest := rng[1..];
      var rec := pool[rng[0] % |pool|];
      if InSeason(rec, year, upper, lower) {
        if n > 1 {
          SampleFromHits(n - 1, year, pool, upper, lower, rest);
        }
      } else {
        SampleFromHits(n, year, pool, upper, lower, rest);
      }
    }
  }

  /** Every in-season pick is the sequence of an in-season record of the pool. */
  lemma {:induction false} SeasonHitsFromPool(pool: seq<Record>, year: int, upper: int, lower: int, rng: seq<nat>)
    requires |pool| > 0
    ensures FromSeason(SeasonHits(pool, year, upper, lower, rng), pool, year, upper, lower)
    decreases |rng|
  {
    if rng != [] {
      SeasonHitsFromPool(pool, year, upper, lower, rng[1..]);
      var j := rng[0] % |pool|;
      var hits := SeasonHits(pool, year, upper, lower, rng);
      var tail := SeasonHits(pool, year, upper, lower, rng[1..]);
      if InSeason(pool[j], year, upper, lower) {
        assert hits == [pool[j].sequence] + tail;
        forall k | 0 <= k < |hits|
          ensures exists i :: 0 <= i < |pool| && InSeason(pool[i], year, upper, lower) && pool[i].sequence == hits[k]
        {
          if k == 0 {
            assert pool[j].sequence == hits[0];
          } else {
            assert hits[k] == tail[k - 1];
          }
        }
      } else {
        assert hits == tail;
      }
    }
  }

  /** `__get_winter_sample`: draw until `N` in-season sequences are collected. */
  method WinterSample(n: int, year: int, pool: seq<Record>, upper: int, lower: int, rng: seq<nat>)
    returns (r: Result<seq<string>, Error>, rest: seq<nat>)
    ensures (r, rest) == SampleFrom(n, year, pool, upper, lower, rng)
    ensures |rest| <= |rng|
  {
    var winterSeq: seq<string> := [];
    rest := rng;
    PrependNothing(SampleFrom(n, year, pool, upper, lower, rng));
    while |winterSeq| < n
      invariant SampleFrom(n, year, pool, upper, lower, rng) ==
                Prepend(winterSeq, SampleFrom(n - |winterSeq|, year, pool, upper, lower, rest))
      invariant |rest| <= |rng|
      decreases |rest|
    {
      var d := RandInt(|pool|, rest);
      if d.Failure? {
        return Failure(d.error), rest;
      }
      var ind := d.value.0;
      var sample := pool[ind];
      ghost var before := rest;
      rest := d.value.1;
      if InSeason(sample, year, upper, lower) {
        ghost var later := SampleFrom(n - |winterSeq| - 1, year, pool, upper, lower, rest);
        assert SampleFrom(n - |winterSeq|, year, pool, upper, lower, before) == Prepend([sample.sequence], later);
        PrependTwice(winterSeq, [sample.sequence], later);
        winterSeq := winterSeq + [sample.sequence];
      }
    }
    assert winterSeq + [] == winterSeq;
    r := Success(winterSeq);
  }

  /**
   * The summer call reuses the winter test with `s_upper = 10`, `s_lower = 5` on the
   * south records of the year itself: it keeps every month up to October, not only
   * May to October.
   */
  lemma SummerKeepsMonthsUpToOctober(south: map<int, seq<Record>>, year: int, r: Record)
    requires WellFormedBuckets(south, SpecifiedLen)
    requires year in south && r in south[year]
    ensures InSeason(r, year, SummerUpper, SummerLower) <==> r.month <= 10
  {
  }

  // ---------------------------------------------------------------------------
  // The season pattern of generate_N_sample_per_year
  // ---------------------------------------------------------------------------

  /** `p.lower() == t`. */
  predicate IsTag(p: string, t: string) {
    Lower(p) == t
  }

  /** The default `pattern=['W', 'S', 'W']`. */
  const DefaultPattern: seq<string> := ["W", "S", "W"]

  /** `current_year` at entry `i`: one more than before, except at the first entry and at an `s` after a `w`. */
  function NextYear(pattern: seq<string>, i: nat, currentYear: int): (y: int)
    requires i < |pattern|
    ensures currentYear <= y <= currentYear + 1
    ensures i == 0 ==> y == currentYear
    ensures y == currentYear ==> i == 0 || IsTag(pattern[i], "s")
  {
    if i != 0 && !(IsTag(pattern[i], "s") && IsTag(pattern[i - 1], "w")) then currentYear + 1
    else currentYear
  }

  /**
   * One entry of the pattern loop: a `w` samples the north records of this and the
   * previous year, an `s` the south records of this year; any other entry repeats the
   * previous `exs`, which does not exist at the first entry.
   */
  function SeasonPart(n: int, tag: string, currentYear: int, prev: Option<seq<string>>,
                      north: map<int, seq<Record>>, south: map<int, seq<Record>>, rng: seq<nat>): (d: Drawn<seq<string>>)
    ensures |d.1| <= |rng|
    ensures d.0.Success? && IsTag(tag, "w") ==> currentYear in north && currentYear - 1 in north
    ensures d.0.Success? && !IsTag(tag, "w") && IsTag(tag, "s") ==> currentYear in south
    ensures d.0.Success? && (IsTag(tag, "w") || IsTag(tag, "s")) ==> |d.0.value| == if n <= 0 then 0 else n
    ensures !IsTag(tag, "w") && !IsTag(tag, "s") ==> d.1 == rng && (d.0.Success? <==> prev.Some?)
    ensures !IsTag(tag, "w") && !IsTag(tag, "s") && d.0.Success? ==> prev == Some(d.0.value)
  {
    if IsTag(tag, "w") then
      if currentYear !in north then (Failure(MissingYear(currentYear)), rng)
      else if currentYear - 1 !in north then (Failure(MissingYear(currentYear - 1)), rng)
      else SampleFrom(n, currentYear, north[currentYear] + north[currentYear - 1], WinterUpper, WinterLower, rng)
    else if IsTag(tag, "s") then
      if currentYear !in south then (Failure(MissingYear(currentYear)), rng)
      else SampleFrom(n, currentYear, south[currentYear], SummerUpper, SummerLower, rng)
    else match prev
      case None => (Failure(NoSeasonTag), rng)
      case Some(exs) => (Success(exs), rng)
  }

  /** The `all_seqs` the pattern loop builds from entry `i` on, one list per entry. */
  function PartsFrom(n: int, pattern: seq<string>, i: nat, currentYear: int, prev: Option<seq<string>>,
                     north: map<int, seq<Record>>, south: map<int, seq<Record>>, rng: seq<nat>): (d: Drawn<seq<seq<string>>>)
    requires i <= |pattern|
    ensures |d.1| <= |rng|
    ensures d.0.Success? ==> |d.0.value| == |pattern| - i
    decreases |pattern| - i
  {
    if i == |pattern| then (Success([]), rng)
    else
      var year := NextYear(pattern, i, currentYear);
      var (part, rest) := SeasonPart(n, pattern[i], year, prev, north, south, rng);
      match part
      case Failure(e) => (Failure(e), rest)
      case Success(exs) => Prepend([exs], PartsFrom(n, pattern, i + 1, year, Some(exs), north, south, rest))
  }

  /** The `for i, p in enumerate(pattern)` loop of `generate_N_sample_per_year`. */
  method SamplePattern(n: int, year: int, pattern: seq<string>,
                       north: map<int, seq<Record>>, south: map<int, seq<Record>>, rng: seq<nat>)
    returns (r: Result<seq<seq<string>>, Error>, rest: seq<nat>)
    ensures (r, rest) == PartsFrom(n, pattern, 0, year, None, north, south, rng)
    ensures |rest| <= |rng|
  {
    var allSeqs: seq<seq<string>> := [];
    var currentYear := year;
    var exs: Option<seq<string>> := None;
    rest := rng;
    PrependNothing(PartsFrom(n, pattern, 0, year, None, north, south, rng));
    for i := 0 to |pattern|
      invariant PartsFrom(n, pattern, 0, year, None, north, south, rng) ==
                Prepend(allSeqs, PartsFrom(n, pattern, i, currentYear, exs, north, south, rest))
      invariant |rest| <= |rng|
    {
      var p := pattern[i];
      ghost var before := rest;
      currentYear := NextYear(pattern, i, currentYear);
      var part: Result<seq<string>, Error>;
      if IsTag(p, "w") {
        if currentYear !in north {
          return Failure(MissingYear(currentYear)), rest;
        }
        if currentYear - 1 !in north {
          return Failure(MissingYear(currentYear - 1)), rest;
        }
        var possibleWinters := north[currentYear] + north[currentYear - 1];
        part, rest := WinterSample(n, currentYear, possibleWinters, WinterUpper, WinterLower, rest);
      } else if IsTag(p, "s") {
        if currentYear !in south {
          return Failure(MissingYear(currentYear)), rest;
        }
        var possibleSummers := south[currentYear];
        part, rest := WinterSample(n, currentYear, possibleSummers, SummerUpper, SummerLower, rest);
      } else if exs.None? {
        return Failure(NoSeasonTag), rest;
      } else {
        part := Success(exs.value);
      }
      assert (part, rest) == SeasonPart(n, p, currentYear, exs, north, south, before);
      if part.Failure? {
        return Failure(part.error), rest;
      }
      ghost var later := PartsFrom(n, pattern, i + 1, currentYear, Some(part.value), north, south, rest);
      PrependTwice(allSeqs, [part.value], later);
      exs := Some(part.value);
      allSeqs := allSeqs + [part.value];
    }
    assert allSeqs + [] == allSeqs;
    r := Success(allSeqs);
  }

  /** The records a default-pattern sample may take its three parts from, with their season. */
  ghost predicate DefaultParts(parts: seq<seq<string>>, n: int, year: int,
                               north: map<int, seq<Record>>, south: map<int, seq<Record>>)
    requires year in north && year - 1 in north && year + 1 in north && year in south
  {
    && |parts| == 3
    && (forall k :: 0 <= k < 3 ==> |parts[k]| == n)
    && FromSeason(parts[0], north[year] + north[year - 1], year, WinterUpper, WinterLower)
    && FromSeason(parts[1], south[year], year, SummerUpper, SummerLower)
    && FromSeason(parts[2], north[year + 1] + north[year], year + 1, WinterUpper, WinterLower)
  }

  /** Each sequence is that of an in-season record of the pool. */
  ghost predicate FromSeason(xs: seq<string>, pool: seq<Record>, year: int, upper: int, lower: int) {
    forall k :: 0 <= k < |xs| ==>
      exists j :: 0 <= j < |pool| && InSeason(pool[j], year, upper, lower) && pool[j].sequence == xs[k]
  }

  /** One sampled part on a non-empty pool: `n` in-season sequences, or out of draws. */
  lemma SampleFromMeaning(n: int, year: int, pool: seq<Record>, upper: int, lower: int, rng: seq<nat>)
    requires n > 0 && |pool| > 0
    ensures var r := SampleFrom(n, year, pool, upper, lower, rng).0;
            && (r.Failure? ==> r.error == OutOfDraws)
            && (r.Success? ==> |r.value| == n && FromSeason(r.value, pool, year, upper, lower))
  {
    SampleFromHits(n, year, pool, upper, lower, rng);
    SeasonHitsFromPool(pool, year, upper, lower, rng);
    var r := SampleFrom(n, year, pool, upper, lower, rng).0;
    if r.Success? {
      var hits := SeasonHits(pool, year, upper, lower, rng);
      forall k | 0 <= k < |r.value|
        ensures exists j :: 0 <= j < |pool| && InSeason(pool[j], year, upper, lower) && pool[j].sequence == r.value[k]
      {
        assert r.value[k] == hits[k];
      }
    }
  }

  /**
   * The default pattern samples the winter ending in `year` from the north, the summer
   * of `year` from the south, and the winter ending in `year + 1` from the north; once
   * the years are present it can only fail by running out of draws.
   */
  lemma DefaultPatternSamples(n: int, year: int, north: map<int, seq<Record>>, south: map<int, seq<Record>>, rng: seq<nat>)
    requires WellFormedBuckets(north, SpecifiedLen) && WellFormedBuckets(south, SpecifiedLen)
    requires year in north && year - 1 in north && year + 1 in north && year in south
    requires n > 0
    ensures var r := PartsFrom(n, DefaultPattern, 0, year, None, north, south, rng).0;
            && (r.Failure? ==> r.error == OutOfDraws)
            && (r.Success? ==> DefaultParts(r.value, n, year, north, south))
  {
    var p := DefaultPattern;
    assert IsTag(p[0], "w") && IsTag(p[1], "s") && IsTag(p[2], "w");
    assert !IsTag(p[0], "s") && !IsTag(p[2], "s");
    var pool0 := north[year] + north[year - 1];
    var pool1 := south[year];
    var pool2 := north[year + 1] + north[year];
    assert |north[year]| > 0 && |south[year]| > 0 && |north[year + 1]| > 0;
    var (a, rest0) := SampleFrom(n, year, pool0, WinterUpper, WinterLower, rng);
    SampleFromMeaning(n, year, pool0, WinterUpper, WinterLower, rng);
    assert NextYear(p, 0, year) == year;
    assert SeasonPart(n, p[0], year, None, north, south, rng) == (a, rest0);
    if a.Success? {
      var (b, rest1) := SampleFrom(n, year, pool1, SummerUpper, SummerLower, rest0);
      SampleFromMeaning(n, year, pool1, SummerUpper, SummerLower, rest0);
      assert NextYear(p, 1, year) == year;
      assert SeasonPart(n, p[1], year, Some(a.value), north, south, rest0) == (b, rest1);
      if b.Success? {
        var (c, rest2) := SampleFrom(n, year + 1, pool2, WinterUpper, WinterLower, rest1);
        SampleFromMeaning(n, year + 1, pool2, WinterUpper, WinterLower, rest1);
        assert NextYear(p, 2, year) == year + 1;
        assert SeasonPart(n, p[2], year + 1, Some(b.value), north, south, rest1) == (c, rest2);
        var r := PartsFrom(n, p, 0, year, None, north, south, rng).0;
        if c.Success? {
          assert PartsFrom(n, p, 3, year + 1, Some(c.value), north, south, rest2) == (Success([]), rest2);
          assert [c.value] + [] == [c.value];
          assert [b.value] + [c.value] == [b.value, c.value];
          assert [a.value] + [b.value, c.value] == [a.value, b.value, c.value];
          assert PartsFrom(n, p, 2, year, Some(b.value), north, south, rest1) == (Success([c.value]), rest2);
          assert PartsFrom(n, p, 1, year, Some(a.value), north, south, rest0) == (Success([b.value, c.value]), rest2);
          assert r == Success([a.value, b.value, c.value]);
        } else {
          assert PartsFrom(n, p, 2, year, Some(b.value), north, south, rest1).0 == Failure(c.error);
        }
      }
    }
  }

  // ---------------------------------------------------------------------------
  // The composite strings
  // ---------------------------------------------------------------------------

  /** `start + w0 + delim0 + s + delim1 + w1 + end`, the training layout. */
  function FullComposite(sym: Symbols, a: string, b: string, c: string): string {
    [sym.start] + a + [sym.delim0] + b + [sym.delim1] + c + [sym.end]
  }

  /** `start + w0 + delim0 + s + delim1`, the priming layout. */
  function PrimingComposite(sym: Symbols, a: string, b: string): string {
    [sym.start] + a + [sym.delim0] + b + [sym.delim1]
  }

  /** The composite for the `i`th draw of each part. */
  function Composite(sym: Symbols, parts: seq<seq<string>>, i: nat, full: bool): string
    requires |parts| >= (if full then 3 else 2)
    requires forall k :: 0 <= k < (if full then 3 else 2) ==> i < |parts[k]|
  {
    if full then FullComposite(sym, parts[0][i], parts[1][i], parts[2][i])
    else PrimingComposite(sym, parts[0][i], parts[1][i])
  }

  /** The list comprehension over `range(N)`; `all_seqs[k][i]` that does not exist raises IndexError. */
  function Compose(sym: Symbols, parts: seq<seq<string>>, n: int, full: bool): (r: Result<seq<string>, Error>)
    ensures r.Failure? ==> r.error == MissingPart
    ensures r.Success? ==> |r.value| == (if n <= 0 then 0 else n)
    ensures r.Success? && n > 0 ==> |parts| >= (if full then 3 else 2)
  {
    var needed := if full then 3 else 2;
    if n <= 0 then Success([])
    else if |parts| < needed || exists k :: 0 <= k < needed && |parts[k]| < n then Failure(MissingPart)
    else Success(seq(n, i requires 0 <= i < n => Composite(sym, parts, i, full)))
  }

  /** Composites of whole parts: the i-th composite is made of the i-th entries. */
  lemma ComposeEntries(sym: Symbols, parts: seq<seq<string>>, n: int, full: bool)
    requires n > 0 && |parts| >= (if full then 3 else 2)
    requires forall k :: 0 <= k < |parts| ==> |parts[k]| == n
    ensures Compose(sym, parts, n, full).Success?
    ensures forall i :: 0 <= i < n ==>
      Compose(sym, parts, n, full).value[i] ==
        if full then FullComposite(sym, parts[0][i], parts[1][i], parts[2][i])
        else PrimingComposite(sym, parts[0][i], parts[1][i])
  {
  }

  /**
   * A training composite of three sequences of length `len` has length `3 * len + 4`,
   * its markers at fixed places, and gives its three parts back.
   */
  lemma FullCompositeLayout(sym: Symbols, a: string, b: string, c: string, len: nat)
    requires |a| == len && |b| == len && |c| == len
    ensures var s := FullComposite(sym, a, b, c);
            && |s| == 3 * len + 4
            && s[0] == sym.start && s[len + 1] == sym.delim0 && s[2 * len + 2] == sym.delim1 && s[3 * len + 3] == sym.end
            && s[1..len + 1] == a && s[len + 2..2 * len + 2] == b && s[2 * len + 3..3 * len + 3] == c
  {
    var s := FullComposite(sym, a, b, c);
    assert s == [sym.start] + a + [sym.delim0] + b + [sym.delim1] + c + [sym.end];
    assert s[1..len + 1] == a;
    assert s[len + 2..2 * len + 2] == b;
    assert s[2 * len + 3..3 * len + 3] == c;
  }

  /** A priming composite of two sequences of length `len` has length `2 * len + 3` and gives its parts back. */
  lemma PrimingCompositeLayout(sym: Symbols, a: string, b: string, len: nat)
    requires |a| == len && |b| == len
    ensures var s := PrimingComposite(sym, a, b);
            && |s| == 2 * len + 3
            && s[0] == sym.start && s[len + 1] == sym.delim0 && s[2 * len + 2] == sym.delim1
            && s[1..len + 1] == a && s[len + 2..2 * len + 2] == b
  {
    var s := PrimingComposite(sym, a, b);
    assert s[1..len + 1] == a;
    assert s[len + 2..2 * len + 2] == b;
  }

  // ---------------------------------------------------------------------------
  // The windows of generate_N_random_samples_and_targets
  // ---------------------------------------------------------------------------

  /** `x += [pad] * (width - len(x))` when `x` is shorter than `width`. */
  function PadRight(x: seq<int>, width: int, pad: int): seq<int> {
    if |x| < width then x + seq(width - |x|, _ => pad) else x
  }

  /** `sample[index: index + width]`, padded to `width`. */
  function Window(sample: seq<int>, index: int, width: int, pad: int): (w: seq<int>)
    ensures |w| >= width
    ensures 0 <= index && 0 <= width && index + width <= |sample| ==> w == sample[index..index + width]
  {
    PadRight(PySlice(sample, index, index + width), width, pad)
  }

  function Max(a: int, b: int): int {
    if a < b then b else a
  }

  /** A window has exactly `width` ids: the sample's from `index` on, then padding. */
  lemma WindowContents(sample: seq<int>, index: int, width: int, pad: int)
    requires 0 <= index && 0 <= width
    ensures var w := Window(sample, index, width, pad);
            && |w| == width
            && forall j :: 0 <= j < width ==> w[j] == if index + j < |sample| then sample[index + j] else pad
  {
    PySliceWindow(sample, index, width);
  }

  /** The target window is the input window moved one id to the right. */
  lemma TargetShiftsInput(sample: seq<int>, index: int, width: int, pad: int)
    requires 0 <= index && 0 <= width
    requires 0 < width
    ensures Window(sample, index + 1, width, pad)[..width - 1] == Window(sample, index, width, pad)[1..]
  {
    WindowContents(sample, index, width, pad);
    WindowContents(sample, index + 1, width, pad);
  }

  /** Every index the source can draw leaves the input window unpadded when the sample is longer than the window. */
  lemma DrawnWindowUnpadded(sample: seq<int>, index: int, width: int, pad: int)
    requires 0 <= width < |sample| && 0 <= index < Max(1, |sample| - width)
    ensures Window(sample, index, width, pad) == sample[index..index + width]
    ensures Window(sample, index + 1, width, pad) == sample[index + 1..index + width + 1]
  {
    PySliceWindow(sample, index, width);
    PySliceWindow(sample, index + 1, width);
  }

  /** `index` is a draw of the windowing loop, and `input` and `target` are what it cuts from `sample`. */
  predicate CutAt(sample: seq<int>, width: int, pad: int, index: int, input: seq<int>, target: seq<int>) {
    && 0 <= index < Max(1, |sample| - width)
    && input == Window(sample, index, width, pad)
    && target == Window(sample, index + 1, width, pad)
  }

  /** The windowing loop: one draw per sample, `index = randint(max(1, len(sample) - slice_len))`. */
  method SliceSamples(samples: seq<seq<int>>, width: int, pad: int, rng: seq<nat>)
    returns (r: Result<(seq<seq<int>>, seq<seq<int>>), Error>, rest: seq<nat>, ghost indices: seq<int>)
    ensures r.Success? <==> |rng| >= |samples|
    ensures r.Failure? ==> r.error == OutOfDraws
    ensures r.Success? ==> rest == rng[|samples|..]
    ensures r.Success? ==> |r.value.0| == |samples| && |r.value.1| == |samples|
    ensures r.Success? ==> |indices| == |samples| && forall i :: 0 <= i < |samples| ==>
              CutAt(samples[i], width, pad, indices[i], r.value.0[i], r.value.1[i])
    ensures r.Success? && width >= 0 ==>
              forall i :: 0 <= i < |samples| ==> |r.value.0[i]| == width && |r.value.1[i]| == width
    ensures r.Success? && width > 0 ==>
              forall i :: 0 <= i < |samples| ==> r.value.1[i][..width - 1] == r.value.0[i][1..]
  {
    var output: seq<seq<int>> := [];
    var targets: seq<seq<int>> := [];
    indices := [];
    rest := rng;
    for i := 0 to |samples|
      invariant i <= |rng| && rest == rng[i..]
      invariant |output| == i && |targets| == i && |indices| == i
      invariant forall k :: 0 <= k < i ==> CutAt(samples[k], width, pad, indices[k], output[k], targets[k])
    {
      var sample := samples[i];
      var d := RandInt(Max(1, |sample| - width), rest);
      if d.Failure? {
        return Failure(d.error), rest, indices;
      }
      var index := d.value.0;
      rest := d.value.1;
      var sliced := PadRight(PySlice(sample, index, index + width), width, pad);
      var target := PadRight(PySlice(sample, index + 1, index + width + 1), width, pad);
      output := output + [sliced];
      targets := targets + [target];
      indices := indices + [index];
    }
    r := Success((output, targets));
    forall i | 0 <= i < |samples| && width >= 0
      ensures |output[i]| == width && |targets[i]| == width
      ensures width > 0 ==> targets[i][..width - 1] == output[i][1..]
    {
      WindowContents(samples[i], indices[i], width, pad);
      WindowContents(samples[i], indices[i] + 1, width, pad);
      if width > 0 {
        TargetShiftsInput(samples[i], indices[i], width, pad);
      }
    }
  }
}
