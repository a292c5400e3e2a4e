/** The exceptions that the sampler raises (or that the model reports), one constructor per raise site. */
module Errors {

  datatype Error =
    /** `desc_split[-2]`: the description has fewer than two space-separated tokens (IndexError). */
    | NoDateToken
    /** `int(date_split[0])`: the year is not an integer; this ValueError is not caught. */
    | BadYear(token: string)
    /** `date_split[1]` or `date_split[2]`: the date has too few `/` fields; IndexError is not caught. */
    | NoDateField
    /** `desc_split[1].split('/')[1]`: the strain token holds no `/` (IndexError). */
    | NoLocation
    /** `generate_N_random_samples_and_targets` before `set_validation_years` (ValueError). */
    | YearsNotSet
    /** a group other than train or validation leaves `year` unbound (UnboundLocalError). */
    | UnknownGroup(group: string)
    /** the pivot year or a neighbour is missing (ValueError naming the year and the largest north
        year; `maxYear` is None when the north corpus is empty and `max` itself raises). */
    | YearNotPresent(year: int, maxYear: MaxYear)
    /** a pattern longer than three (ValueError). */
    | PatternTooLong
    /** `self.north[y]` or `self.south[y]` for a year without records (KeyError). */
    | MissingYear(year: int)
    /** a first pattern entry that is neither `w` nor `s` leaves `exs` unbound (UnboundLocalError). */
    | NoSeasonTag
    /** `all_seqs[k]` for a pattern too short for the composite (IndexError). */
    | MissingPart
    /** `self.vocabulary[c]` for a character that has no id (KeyError). */
    | NotInVocabulary(c: char)
    /** `np.random.randint(k)` with `k <= 0` (ValueError). */
    | EmptyRange
    /** the caller-supplied random draws ran out before the source's loop would have finished. */
    | OutOfDraws

  /** The largest north year reported in YearNotPresent, when there is one. */
  datatype MaxYear = NoYears | MaxIs(year: int)
}
