/**
 * One FASTA record of the corpus and how the sampler reads its description
 * (`FastaSampler.__parse_fasta_to_list`, the body of its loop).
 */
module Records {
  import opened Wrappers
  import opened Errors
  import opened PyText

  /** What the record reader hands over: `f.id`, `f.description` and `str(f.seq)`. */
  datatype RawRecord = RawRecord(id: string, description: string, sequence: string)

  /** A stored sample: the dictionary `template` with its six keys. */
  datatype Record = Record(id: string, year: int, month: int, day: int, location: string, sequence: string)

  /** What happens to one raw record. */
  datatype Verdict =
    | Accepted(record: Record)
    /** month or day is not an integer: counted in `num_missing`, skipped */
    | MissingDate
    /** the sequence has the wrong length: counted in `num_too_long`, skipped */
    | BadLength
    /** an exception that ends the whole parse */
    | Raises(error: Error)

  /** The space-separated tokens of the description. */
  function DescriptionTokens(raw: RawRecord): seq<string> {
    Split(raw.description, ' ')
  }

  /**
   * The record's fate, in the order the source evaluates it: the date token, the
   * year (uncaught), month and day (ValueError caught), the length, then the location.
   */
  function Classify(raw: RawRecord, specifiedLen: int): (v: Verdict)
    ensures v.Accepted? ==> v.record.sequence == raw.sequence && |raw.sequence| == specifiedLen
    ensures v.Accepted? ==> v.record.id == raw.id
    ensures v.BadLength? ==> |raw.sequence| != specifiedLen
  {
    var tokens := DescriptionTokens(raw);
    if |tokens| < 2 then Raises(NoDateToken)
    else
      var dateParts := Split(tokens[|tokens| - 2], '/');
      match ParseInt(dateParts[0])
      case None => Raises(BadYear(dateParts[0]))
      case Some(year) =>
        if |dateParts| < 2 then Raises(NoDateField)
        else match ParseInt(dateParts[1])
        case None => MissingDate
        case Some(month) =>
          if |dateParts| < 3 then Raises(NoDateField)
          else match ParseInt(dateParts[2])
          case None => MissingDate
          case Some(day) =>
            if |raw.sequence| != specifiedLen then BadLength
            else
              var strain := Split(tokens[1], '/');
              if |strain| < 2 then Raises(NoLocation)
              else Accepted(Record(raw.id, year, month, day, strain[1], raw.sequence))
  }

  /** The `/`-separated fields of the date token, the second-to-last token of the description. */
  function DateFields(raw: RawRecord): seq<string>
    requires |DescriptionTokens(raw)| >= 2
  {
    Split(DescriptionTokens(raw)[|DescriptionTokens(raw)| - 2], '/')
  }

  /** A description of fewer than two tokens has no date token, and the parse raises. */
  lemma NoDateTokenRaises(raw: RawRecord, specifiedLen: int)
    requires |DescriptionTokens(raw)| < 2
    ensures Classify(raw, specifiedLen) == Raises(NoDateToken)
  {
  }

  /** A year that is not an integer is outside the `try`, so the whole parse raises. */
  lemma NonIntegerYearRaises(raw: RawRecord, specifiedLen: int)
    requires |DescriptionTokens(raw)| >= 2
    requires ParseInt(DateFields(raw)[0]).None?
    ensures Classify(raw, specifiedLen) == Raises(BadYear(DateFields(raw)[0]))
  {
  }

  /** A non-integer month is counted as missing data, whatever the sequence length. */
  lemma NonIntegerMonthIsMissing(raw: RawRecord, specifiedLen: int)
    requires |DescriptionTokens(raw)| >= 2
    requires ParseInt(DateFields(raw)[0]).Some?
    requires |DateFields(raw)| >= 2 && ParseInt(DateFields(raw)[1]).None?
    ensures Classify(raw, specifiedLen) == MissingDate
  {
  }

  /** A non-integer day after an integer month is counted as missing data, whatever the sequence length. */
  lemma NonIntegerDayIsMissing(raw: RawRecord, specifiedLen: int)
    requires |DescriptionTokens(raw)| >= 2
    requires ParseInt(DateFields(raw)[0]).Some?
    requires |DateFields(raw)| >= 3 && ParseInt(DateFields(raw)[1]).Some? && ParseInt(DateFields(raw)[2]).None?
    ensures Classify(raw, specifiedLen) == MissingDate
  {
  }

  /** A date with fewer than three fields raises the IndexError the `try` does not catch. */
  lemma ShortDateRaises(raw: RawRecord, specifiedLen: int)
    requires |DescriptionTokens(raw)| >= 2
    requires ParseInt(DateFields(raw)[0]).Some?
    requires |DateFields(raw)| < 2 || (ParseInt(DateFields(raw)[1]).Some? && |DateFields(raw)| < 3)
    ensures Classify(raw, specifiedLen) == Raises(NoDateField)
  {
  }

  /**
   * With an integer year, month and day, the length decides: a wrong length is counted,
   * and only then is the location read, which raises when the strain token has no `/`;
   * otherwise the record is stored with exactly the parsed fields.
   */
  lemma IntegerDateIsJudgedByLength(raw: RawRecord, specifiedLen: int)
    requires |DescriptionTokens(raw)| >= 2
    requires |DateFields(raw)| >= 3
    requires ParseInt(DateFields(raw)[0]).Some? && ParseInt(DateFields(raw)[1]).Some? && ParseInt(DateFields(raw)[2]).Some?
    ensures var strain := Split(DescriptionTokens(raw)[1], '/');
            Classify(raw, specifiedLen) ==
              if |raw.sequence| != specifiedLen then BadLength
              else if |strain| < 2 then Raises(NoLocation)
              else Accepted(Record(raw.id, ParseInt(DateFields(raw)[0]).value, ParseInt(DateFields(raw)[1]).value,
                                   ParseInt(DateFields(raw)[2]).value, strain[1], raw.sequence))
  {
  }

  /**
   * The description layout of the corpus files: identifier, strain name
   * (`type/location/...`), date `year/month/day`, and one trailing field.
   */
  function Description(name: string, strain: seq<string>, year: int, month: int, day: int, last: string): string
    requires |strain| >= 2
  {
    Join([name, Join(strain, '/'), Join([IntToString(year), IntToString(month), IntToString(day)], '/'), last], ' ')
  }

  predicate NoSpace(s: string) {
    ' ' !in s
  }

  lemma IntToStringHasNoSeparator(n: int)
    ensures ' ' !in IntToString(n) && '/' !in IntToString(n)
  {
    ParseIntToString(n);
  }

  lemma {:induction false} JoinKeepsOut(parts: seq<string>, sep: char, c: char)
    requires |parts| >= 1 && c != sep
    requires forall i :: 0 <= i < |parts| ==> c !in parts[i]
    ensures c !in Join(parts, sep)
    decreases |parts|
  {
    if |parts| > 1 {
      JoinKeepsOut(parts[1..], sep, c);
    }
  }

  /**
   * Every well-formed description is read back: a record whose description is
   * rendered from its fields is accepted with exactly those fields when its
   * sequence has the specified length, and counted as too long otherwise.
   */
  lemma ClassifyDescription(id: string, name: string, strain: seq<string>, year: int, month: int, day: int,
                            last: string, sequence: string, specifiedLen: int)
    requires |strain| >= 2
    requires NoSpace(name) && NoSpace(last)
    requires forall i :: 0 <= i < |strain| ==> NoSpace(strain[i]) && '/' !in strain[i]
    ensures var raw := RawRecord(id, Description(name, strain, year, month, day, last), sequence);
            Classify(raw, specifiedLen) ==
              if |sequence| == specifiedLen then Accepted(Record(id, year, month, day, strain[1], sequence))
              else BadLength
  {
    var raw := RawRecord(id, Description(name, strain, year, month, day, last), sequence);
    var date := [IntToString(year), IntToString(month), IntToString(day)];
    IntToStringHasNoSeparator(year);
    IntToStringHasNoSeparator(month);
    IntToStringHasNoSeparator(day);
    JoinKeepsOut(strain, '/', ' ');
    JoinKeepsOut(date, '/', ' ');
    var tokens := [name, Join(strain, '/'), Join(date, '/'), last];
    SplitJoin(tokens, ' ');
    assert DescriptionTokens(raw) == tokens;
    SplitJoin(date, '/');
    SplitJoin(strain, '/');
    ParseIntToString(year);
    ParseIntToString(month);
    ParseIntToString(day);
  }
}
