# FastaSampler, modelled in Dafny

The `FastaSampler` class (`deprecated/fasta_sampler.py`) prepares influenza haemagglutinin
sequences for training a sequence model. It reads two FASTA corpora, one from the northern
and one from the southern hemisphere. For each record it reads the date from the
description and skips the record when the month or day is not an integer. It then skips a
record whose sequence length is not 566. Only after both checks does it read the location
from the strain name, so a record of the wrong length is counted even when its strain name
has no location. The surviving records go into per-year buckets.

The sampler also builds a character vocabulary: the corpus alphabet plus the control
characters start, end, delim0 and delim1, with the pad character forced to id 0. It splits
the north years into training and validation years. It then draws composite examples:

- a winter sample around the pivot year, from the north;
- a "summer" sample from the south;
- a second winter sample a year later.

These are joined as `start + W + delim0 + S + delim1 + W + end`. They can be encoded as
token ids and cut into fixed-length input/target windows shifted by one position, for
teacher-forced training.

The project is organised as follows:

- `wrappers.dfy` defines `Option` and `Result`.
- `errors.dfy` defines the exceptions the source can raise, as an `Error` datatype.
- `pytext.dfy` models the Python string and list operations the source relies on:
  - `str.split` and `str.join`;
  - `int()` and `str()` on integers;
  - ASCII `lower()`;
  - slicing with negative and out-of-range bounds;
  - `''.join(list(set(...)))`.
- `records.dfy` holds the per-record decision of `__parse_fasta_to_list`.
- `parsing.dfy` holds the whole parse, as a loop proved against reference functions.
- `vocabulary.dfy` holds `__generate_vocabulary` and the `to_num` encoding.
- `years.dfy` holds `set_validation_years`.
- `sampling.dfy` holds:
  - the random draws;
  - the winter sampling loop;
  - the season pattern loop;
  - the composites;
  - the slicing into windows.
- `fasta_sampler.dfy` holds the `FastaSampler` class with its fields `north`, `south`,
  `vocabulary`, `inverseVocabulary`, `trainYears` and `validationYears`, and its methods.

Randomness is an explicit parameter. Every `np.random.randint(k)` consumes the next number
`d` of a caller-supplied list `rng` and yields `d % k`. The source's unbounded rejection
loops end with the error `OutOfDraws` when the list is used up. Only by running out of
draws can they fail where the source would loop forever. `helper.get_idx` is a
caller-supplied function `getIdx`, assumed to give each character of its argument a
distinct id.

The source's summer sampler `__get_summer_sample` is never called. The pattern loop samples
a summer part with `__get_winter_sample` and the bounds `(10, 5)`. Over the pool
`south[cy]`, that accepts the records of the pivot year with month ≤ 10, not the months 5
to 10 that the name suggests. The model keeps the code's behaviour and states it in
`Sampling.SummerKeepsMonthsUpToOctober`.

## Model

| member | source | states |
|---|---|---|
| PyText.Split | deprecated/fasta_sampler.py:61-64 | `split` always yields at least one field, and no field contains the separator |
| PyText.SplitJoin | deprecated/fasta_sampler.py:61-64 | splitting a joined list gives the list back when no field holds the separator |
| PyText.JoinSplit | deprecated/fasta_sampler.py:61-64 | joining the fields of a split gives the original string back |
| PyText.ParseIntToString | deprecated/fasta_sampler.py:65-68 | `int(str(n)) == n` for every integer; `str(n)` holds only digits and a minus sign |
| PyText.ParseIntRejects | deprecated/fasta_sampler.py:65-68 | a token with a character other than a digit, sign or underscore raises ValueError in `int()` |
| PyText.ParseInt | deprecated/fasta_sampler.py:65-68 | `int(token)` of the date fields: a token that parses ends in a digit, and a negative value comes only from a leading minus sign |
| PyText.SliceBound | deprecated/fasta_sampler.py:106-108 | a Python slice bound is clamped into `[0, len]`, and an in-range bound is kept |
| PyText.PySliceWindow | deprecated/fasta_sampler.py:128-129 | `s[i:i+w]` is the `w` elements from `i`, or what exists of them past the end |
| PyText.PySlice | deprecated/fasta_sampler.py:106-108 | a slice (also the windows of lines 128-129) is the contiguous run of elements between the two resolved bounds, empty when they cross |
| PyText.Lower | deprecated/fasta_sampler.py:118-120 | `lower()` (also of the pattern tags at lines 189-196) keeps the length, leaves no upper-case ASCII letter, and changes no other character |
| PyText.JoinSet | deprecated/fasta_sampler.py:30 | `''.join(list(set(...)))` holds each character of the set exactly once, in an order left open |
| Records.Classify | deprecated/fasta_sampler.py:60-86 | an accepted record keeps the raw id and a sequence of exactly the specified length; a length rejection means the length differs |
| Records.NoDateTokenRaises | deprecated/fasta_sampler.py:61-63 | a description of fewer than two tokens has no date token, and the parse raises |
| Records.NonIntegerYearRaises | deprecated/fasta_sampler.py:63-65 | a non-integer year is read outside the `try`, so the parse raises with that token |
| Records.NonIntegerMonthIsMissing | deprecated/fasta_sampler.py:66-71 | after an integer year, a non-integer month is counted as missing data whatever the sequence length, so before the length check |
| Records.NonIntegerDayIsMissing | deprecated/fasta_sampler.py:66-71 | a non-integer day after an integer month is counted as missing data whatever the sequence length |
| Records.ShortDateRaises | deprecated/fasta_sampler.py:66-71 | after an integer year, a date without a month field, or after an integer month a date without a day field, raises the IndexError the `except ValueError` does not catch |
| Records.IntegerDateIsJudgedByLength | deprecated/fasta_sampler.py:66-86 | with an integer date, a wrong length is counted before the location is read; otherwise the record is stored with exactly the parsed id, year, month, day, location and sequence, or the parse raises when there is no location |
| Records.ClassifyDescription | deprecated/fasta_sampler.py:60-86 | a description rendered from a date and a strain is read back into exactly that year, month, day and location, or rejected for length |
| Parsing.CharsOf | deprecated/fasta_sampler.py:79 | a character is in the alphabet iff it occurs in some stored sequence |
| Parsing.FirstErrorOfPrefix | deprecated/fasta_sampler.py:51-65 | an uncaught exception in one record ends the whole parse with that exception |
| Parsing.AcceptedHaveSpecifiedLength | deprecated/fasta_sampler.py:73-75 | every stored record has exactly the specified sequence length |
| Parsing.CountsPartitionInput | deprecated/fasta_sampler.py:66-75 | stored plus missing-date plus bad-length records make up the whole input |
| Parsing.BucketByYearIsOfYear | deprecated/fasta_sampler.py:89-92 | a year is a key iff some stored record has it, and its list is that year's records in input order |
| Parsing.BucketByYear | deprecated/fasta_sampler.py:89-92 | every year bucket is non-empty and holds only records of its year |
| Parsing.OfYearProperties | deprecated/fasta_sampler.py:89-92 | a year's list holds only records of that year drawn from the input |
| Parsing.ParsedBucketsWellFormed | deprecated/fasta_sampler.py:73-92 | every bucket is non-empty and holds records of its own year with the specified length |
| Parsing.ParseFastaToList | deprecated/fasta_sampler.py:43-96 | the parse loop returns the first exception, or the year buckets, both counts and the alphabet, each character once |
| Vocab.Vocabulary | deprecated/fasta_sampler.py:33-40 | the pad id is 0, keys are the alphabet, the four controls and pad, and two keys share an id only when one of them is pad and the id is 0 |
| Vocab.InvertVocabulary | deprecated/fasta_sampler.py:41 | the inverse has exactly the ids in use as keys, each mapped to a character with that id |
| Vocab.InvertPadded | deprecated/fasta_sampler.py:40-41 | the inverse of the padded vocabulary; when pad is new it is appended last, so `inverse[0]` is pad |
| Vocab.InverseRecovers | deprecated/fasta_sampler.py:41 | a character whose id no other character shares is decoded back to itself |
| Vocab.VocabularyDecodes | deprecated/fasta_sampler.py:33-41 | every vocabulary character with a non-zero id is decoded back to itself |
| Vocab.Encode | deprecated/fasta_sampler.py:214 | encoding succeeds iff every character has an id, and then maps each position to its id; a KeyError names the first character without an id |
| Vocab.DecodeEncode | deprecated/fasta_sampler.py:213-214 | decoding the encoding of a string whose ids are unshared gives the string back |
| Vocab.EncodeAll | deprecated/fasta_sampler.py:213-214 | a list encodes iff each entry does, and then entry by entry |
| Years.SortedList | deprecated/fasta_sampler.py:105-107 | `sort()` of a set's list is strictly increasing and has exactly the set's members |
| Years.PartitionYears | deprecated/fasta_sampler.py:99-108 | dropping the first of the sorted training years and the last of the sorted validation years leaves one fewer of each, or none |
| Years.TrainYears | deprecated/fasta_sampler.py:99-106 | training years ascend, and a year trains iff it is a north year not listed for validation with an earlier such year |
| Years.ValidationYears | deprecated/fasta_sampler.py:99-108 | validation years ascend, and a year validates iff it is a listed north year with a later listed north year |
| Years.DropFirstOfSorted | deprecated/fasta_sampler.py:106 | `[1:]` of an ascending list keeps exactly the elements with a smaller one before them |
| Years.DropLastOfSorted | deprecated/fasta_sampler.py:108 | `[:-1]` of an ascending list keeps exactly the elements with a larger one after them |
| Years.PartitionSeparatesYears | deprecated/fasta_sampler.py:98-108 | training and validation years are disjoint north years; the earliest never trains and the latest never validates |
| Sampling.RandInt | deprecated/fasta_sampler.py:117-127 | a draw below `k` consumes one number; `randint(k)` with `k <= 0` raises |
| Sampling.InSeason | deprecated/fasta_sampler.py:147-148 | the winter test accepts only records of the pivot year or the year before |
| Sampling.SampleFrom | deprecated/fasta_sampler.py:142-150 | the winter loop returns `N` sequences (none for `N <= 0`), uses no more draws than given, and fails only by an empty pool or running out of draws |
| Sampling.SampleFromHits | deprecated/fasta_sampler.py:142-150 | for `N > 0` on a non-empty pool, the winter loop returns the first `N` in-season draws, and fails only by running out of draws |
| Sampling.SeasonHitsFromPool | deprecated/fasta_sampler.py:145-149 | every kept sequence is the sequence of a pool record inside the season window |
| Sampling.SampleFromMeaning | deprecated/fasta_sampler.py:142-150 | a winter sample has `N` sequences, each from a pool record in the season window |
| Sampling.WinterSample | deprecated/fasta_sampler.py:142-150 | the sampling loop computes the specification function and uses up no more draws than given |
| Sampling.SummerKeepsMonthsUpToOctober | deprecated/fasta_sampler.py:180-200 | a summer draw accepts a south record of the pivot year iff its month is at most 10 |
| Sampling.NextYear | deprecated/fasta_sampler.py:189-190 | `current_year` stays or grows by one; it stays at the first entry, and later only at an `s` entry |
| Sampling.SeasonPart | deprecated/fasta_sampler.py:191-201 | a `w` entry succeeds only with this and the previous north year present, an `s` entry only with this south year present, each with `N` sequences; any other entry reuses the previous `exs`, and fails only when there is none |
| Sampling.PartsFrom | deprecated/fasta_sampler.py:188-201 | the pattern loop appends one list per pattern entry and uses no more draws than given |
| Sampling.SamplePattern | deprecated/fasta_sampler.py:186-201 | the pattern loop computes the specification function, stepping years and checking years as the source does |
| Sampling.DefaultPatternSamples | deprecated/fasta_sampler.py:170-201 | with the years present, `W S W` gives winter Y-1/Y, summer Y and winter Y/Y+1 parts of `N` each, or runs out of draws |
| Sampling.Compose | deprecated/fasta_sampler.py:205-211 | composing fails only on a missing part, and otherwise gives `N` composites |
| Sampling.ComposeEntries | deprecated/fasta_sampler.py:205-211 | the composite `i` is built from the `i`-th sequence of each part |
| Sampling.FullCompositeLayout | deprecated/fasta_sampler.py:206-208 | a full composite has length `3L+4`, with the markers at fixed positions and the parts between them |
| Sampling.PrimingCompositeLayout | deprecated/fasta_sampler.py:210-211 | a priming composite has length `2L+3`, with start, delim0 and delim1 at fixed positions and the two parts between them |
| Sampling.WindowContents | deprecated/fasta_sampler.py:128-133 | a padded window has the slice length and holds the sample from the offset, then pad ids |
| Sampling.TargetShiftsInput | deprecated/fasta_sampler.py:128-129 | the target window is the input window shifted by one position |
| Sampling.DrawnWindowUnpadded | deprecated/fasta_sampler.py:127-129 | a window starting at a drawn offset within a long sample needs no padding |
| Sampling.SliceSamples | deprecated/fasta_sampler.py:124-135 | slicing consumes one draw per sample, or runs out, and each pair is the windows at a valid offset |
| Sampling.Window | deprecated/fasta_sampler.py:128-133 | a padded window is at least `slice_len` long, and a window inside the sample is exactly its slice, without padding |
| Sampler.LargestYear | deprecated/fasta_sampler.py:175 | `max(self.north.keys())` is a north year no smaller than any other |
| Sampler.Render | deprecated/fasta_sampler.py:213-214 | the result keeps the number of composites; with `to_num` it is token lists and succeeds iff every composite encodes, otherwise it is the composites themselves |
| Sampler.SamplesPerYear | deprecated/fasta_sampler.py:172-216 | a per-year sample exists only when the pivot year, the year before and the year after are present and the pattern has at most three entries; a missing year raises before any draw; tokens iff `to_num` |
| Sampler.SamplesPerYearShape | deprecated/fasta_sampler.py:165-216 | a per-year sample is `N` composites of length 1702 (full) or 1135, tokens iff `to_num`, failing only on the listed errors |
| Sampler.SamplesPerYearComposites | deprecated/fasta_sampler.py:165-214 | every entry of a default-pattern training sample for year Y encodes `start + W + delim0 + S + delim1 + W + end`, built from an in-season winter sequence of Y-1/Y, a south sequence of Y that passes the reused test, and a winter sequence of Y/Y+1 |
| Sampler.PartsFromShaped | deprecated/fasta_sampler.py:187-201 | every part the pattern loop produces has `N` sequences of the specified length, all with ids |
| Sampler.PartsFromErrors | deprecated/fasta_sampler.py:187-201 | the pattern loop fails only on a missing year, a first entry with no season tag, or running out of draws |
| Sampler.ComposeShaped | deprecated/fasta_sampler.py:205-214 | composites of well-shaped parts have the fixed length and always encode |
| Sampler.DefaultPatternOnlyRunsOut | deprecated/fasta_sampler.py:170-214 | with the default pattern and the years present, a per-year sample can only fail by running out of draws |
| Sampler.ParsedCovered | deprecated/fasta_sampler.py:79-92 | every character of every stored sequence is in the parse's alphabet |
| Sampler.HandledConsistent | deprecated/fasta_sampler.py:27-41 | after both parses and the vocabulary, the buckets are well formed and every stored character has an id |
| Sampler.VocabularyKeys | deprecated/fasta_sampler.py:30-38 | the vocabulary keys are the two corpora's characters, the four controls and pad |
| Sampler.FastaSampler.constructor | deprecated/fasta_sampler.py:16-25 | a new sampler keeps its symbols and has no training or validation years |
| Sampler.FastaSampler.GenerateVocabulary | deprecated/fasta_sampler.py:33-41 | sets the vocabulary and its inverse and changes nothing else; a pad outside the alphabet and controls is what id 0 decodes to |
| Sampler.FastaSampler.HandleFiles | deprecated/fasta_sampler.py:27-31 | both corpora are parsed and bucketed, the counts are reported, the vocabulary covers both alphabets, and id 0 decodes to a pad used nowhere else; a parse exception leaves the later fields untouched |
| Sampler.FastaSampler.SetValidationYears | deprecated/fasta_sampler.py:98-108 | sets both year lists to the partition of the north years and changes nothing else |
| Sampler.FastaSampler.GenerateNSamplePerYear | deprecated/fasta_sampler.py:165-216 | returns `N` composites of the fixed length, tokens iff `to_num`; with the default pattern and the pivot year, the year before and the year after present, it fails only by running out of draws |
| Sampler.FastaSampler.DrawComposites | deprecated/fasta_sampler.py:116-122 | the batch loop gives exactly `N` composites, each a seasonal composite of a pivot year drawn from the group's list, so for `N > 0` only `train` or `validation` (any case) succeeds |
| Sampler.FastaSampler.GenerateNRandomSamplesAndTargets | deprecated/fasta_sampler.py:110-139 | unsliced, inputs and targets are both the drawn composites; sliced, each pair is the input window and the window one id further, cut at an offset in `[0, max(1, len-L))` from its composite and padded with id 0; `N <= 0` gives two empty lists |
| Sampler.NewFastaSampler | deprecated/fasta_sampler.py:16-31 | a sampler is built iff both corpora parse, with the parsed buckets, pad id 0 and no years set |

## Left out

- Reading the FASTA files (`SeqIO.parse(open(...))`) is left out: the parse takes each record's id, description and sequence as values.
- The two `print` calls are left out: their counts are returned in `ParseReport` instead.
- `helper.py` is not part of this model. `get_idx` is a parameter, assumed (`Vocab.IsEnumerator`) to give a distinct id to each character of its argument.
- The distribution of `np.random.randint` is left out. The model only reads draws as numbers from a list. It never relies on them being uniform or independent.
- The source's rejection loops (the batch loop and the winter loop) can run forever on an unlucky or impossible pool. In the model they end with `OutOfDraws` when the draws run out.
- `__get_summer_sample` is left out. Nothing calls it; the summer part uses `__get_winter_sample`, as modelled.
- `get_AA_counts_by_position`, `get_AA_counts_dataframe` and `get_freq_sequence` are not modelled. They are pandas and Counter statistics outside the sampling core.
- Sampler.FastaSampler.GenerateNRandomSamplesAndTargets: the source overwrites `output[i]` in place and returns the same list object twice. The model builds new sequences, so aliasing between inputs and targets is not captured.
- Sampler.FastaSampler.GenerateNRandomSamplesAndTargets: `N` is taken to be an integer; a float `N` is not modelled.
- Sampler.FastaSampler.HandleFiles: when the south parse raises, the source has already replaced `north`. The model states that new `north` and the unchanged remaining fields, but does not promise `Valid()` for the half-updated object.
- Sampler.FastaSampler.HandleFiles requires `Valid()`. In the source, `__init__` calls it before `train_years` exists. The model's constructor sets both year fields to `None` first, with empty buckets and the vocabulary of the empty alphabet.
- Sampler.LargestYear: with no north years, Python's `max` raises its own ValueError while the message for a missing year is built. The model reports this as `YearNotPresent` with `NoYears`.
- PyText.ParseInt: `int()` is modelled on ASCII digits, a sign and single underscores. Surrounding whitespace and non-ASCII digits are not accepted.
- PyText.Lower: `lower()` is modelled on ASCII letters only.
- The control symbols are single characters. Multi-character strings for `start`, `end`, `delim0`, `delim1` or `pad_char` are not modelled.
- The order of set iteration, and the key order of the dict `get_idx` returns, are left open. In `''.join(list(set(...)))` and the inverse dictionary, the model proves what holds for every such order. The pad entry's place is modelled: appended last when new, so `inverse_vocabulary[0]` is the pad character. When pad is also an alphabet or control character, its place stays open.
- `main_v2.py` and the rest of the repository (the model, training loop and plots) are not part of this model.
