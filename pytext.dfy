/**
 * The Python built-ins the sampler relies on, stated over `string` and `seq`:
 * `str.split(sep)` with a one-character separator, `int(token)`, `str.lower()`,
 * list slicing `s[i:j]`, and `''.join(list(some_set))`.
 */
module PyText {
  import opened Wrappers

  // ---------------------------------------------------------------------------
  // str.split(sep)
  // ---------------------------------------------------------------------------

  /** `s.split(sep)`: the fields between separators, empty fields kept, always at least one. */
  function Split(s: string, sep: char): (parts: seq<string>)
    ensures |parts| >= 1
    ensures forall i :: 0 <= i < |parts| ==> sep !in parts[i]
    decreases |s|
  {
    if s == [] then [""]
    else
      var rest := Split(s[1..], sep);
      if s[0] == sep then [""] + rest
      else [[s[0]] + rest[0]] + rest[1..]
  }

  /** `sep.join(parts)`: the reference rendering that Split reads back. */
  function Join(parts: seq<string>, sep: char): string
    requires |parts| >= 1
    decreases |parts|
  {
    if |parts| == 1 then parts[0] else parts[0] + [sep] + Join(parts[1..], sep)
  }

  lemma {:induction false} SplitNoSeparator(p: string, sep: char)
    requires sep !in p
    ensures Split(p, sep) == [p]
    decreases |p|
  {
    if p != [] {
      SplitNoSeparator(p[1..], sep);
      assert [p[0]] + p[1..] == p;
    }
  }

  lemma {:induction false} SplitAtSeparator(p: string, t: string, sep: char)
    requires sep !in p
    ensures Split(p + [sep] + t, sep) == [p] + Split(t, sep)
    decreases |p|
  {
    var s := p + [sep] + t;
    if p == [] {
      assert s[1..] == t;
    } else {
      assert s[1..] == p[1..] + [sep] + t;
      SplitAtSeparator(p[1..], t, sep);
      assert [p[0]] + p[1..] == p;
    }
  }

  /** Splitting a joined list gives the list back when no field holds the separator. */
  lemma {:induction false} SplitJoin(parts: seq<string>, sep: char)
    requires |parts| >= 1
    requires forall i :: 0 <= i < |parts| ==> sep !in parts[i]
    ensures Split(Join(parts, sep), sep) == parts
    decreases |parts|
  {
    if |parts| == 1 {
      SplitNoSeparator(parts[0], sep);
    } else {
      SplitJoin(parts[1..], sep);
      SplitAtSeparator(parts[0], Join(parts[1..], sep), sep);
      assert [parts[0]] + parts[1..] == parts;
    }
  }

  /** Joining the fields of a split gives the string back. */
  lemma {:induction false} JoinSplit(s: string, sep: char)
    ensures Join(Split(s, sep), sep) == s
    decreases |s|
  {
    if s != [] {
      var rest := Split(s[1..], sep);
      JoinSplit(s[1..], sep);
      if s[0] == sep {
        assert ([""] + rest)[1..] == rest;
      } else if |rest| == 1 {
        assert Join(Split(s, sep), sep) == [s[0]] + rest[0];
      } else {
        var parts := [[s[0]] + rest[0]] + rest[1..];
        assert parts[1..] == rest[1..];
        assert Join(rest, sep) == rest[0] + [sep] + Join(rest[1..], sep);
      }
    }
  }

  // ---------------------------------------------------------------------------
  // int(token)
  // ---------------------------------------------------------------------------

  predicate IsDigit(c: char) {
    '0' <= c <= '9'
  }

  /** Decimal digits, where a single underscore may stand between two digits, as `int()` allows. */
  predicate IsDigitRun(s: string) {
    && |s| > 0
    && IsDigit(s[0])
    && forall i | 0 <= i < |s| :: IsDigit(s[i]) || (s[i] == '_' && i + 1 < |s| && IsDigit(s[i + 1]))
  }

  /** The number a digit run denotes; underscores are skipped. */
  function DigitRunValue(s: string): nat
    decreases |s|
  {
    if s == [] then 0
    else
      var last := s[|s| - 1];
      if IsDigit(last) then 10 * DigitRunValue(s[..|s| - 1]) + (last as int - '0' as int)
      else DigitRunValue(s[..|s| - 1])
  }

  /** `int(token)`: an optional sign then a digit run; None where Python raises ValueError. */
  function ParseInt(s: string): (r: Option<int>)
    ensures r.Some? ==> |s| > 0 && IsDigit(s[|s| - 1])
    ensures r.Some? && r.value < 0 ==> s[0] == '-'
  {
    if |s| > 0 && (s[0] == '+' || s[0] == '-') then
      var magnitude: int := DigitRunValue(s[1..]);
      if IsDigitRun(s[1..]) then Some(if s[0] == '-' then -magnitude else magnitude)
      else None
    else if IsDigitRun(s) then Some(DigitRunValue(s))
    else None
  }

  function DigitChar(d: nat): char
    requires d < 10
  {
    ('0' as int + d) as char
  }

  function NatToString(n: nat): (s: string)
    decreases n
  {
    if n < 10 then [DigitChar(n)] else NatToString(n / 10) + [DigitChar(n % 10)]
  }

  /** `str(n)`: the decimal rendering that ParseInt reads back. */
  function IntToString(n: int): string {
    if n < 0 then "-" + NatToString(-n) else NatToString(n)
  }

  lemma {:induction false} NatToStringDigits(n: nat)
    ensures |NatToString(n)| > 0
    ensures forall i :: 0 <= i < |NatToString(n)| ==> IsDigit(NatToString(n)[i])
    ensures DigitRunValue(NatToString(n)) == n
    decreases n
  {
    var s := NatToString(n);
    if n >= 10 {
      NatToStringDigits(n / 10);
      assert s[..|s| - 1] == NatToString(n / 10);
    }
  }

  /** Every integer survives rendering and re-parsing. */
  lemma ParseIntToString(n: int)
    ensures ParseInt(IntToString(n)) == Some(n)
    ensures forall i :: 0 <= i < |IntToString(n)| ==> IsDigit(IntToString(n)[i]) || IntToString(n)[i] == '-'
  {
    var s := IntToString(n);
    if n < 0 {
      var body := NatToString(-n);
      NatToStringDigits(-n);
      assert s == "-" + body;
      assert s[1..] == body;
      DigitsAreRun(body);
      assert s[0] == '-';
      var magnitude: int := DigitRunValue(body);
      assert ParseInt(s) == Some(-magnitude);
    } else {
      NatToStringDigits(n);
      DigitsAreRun(s);
      assert s[0] != '+' && s[0] != '-';
      assert ParseInt(s) == Some(DigitRunValue(s));
    }
  }

  lemma DigitsAreRun(s: string)
    requires |s| > 0 && forall i :: 0 <= i < |s| ==> IsDigit(s[i])
    ensures IsDigitRun(s)
  {
  }

  /** A token that holds a character other than a digit, a sign or an underscore is not an integer. */
  lemma ParseIntRejects(s: string, k: int)
    requires 0 <= k < |s|
    requires !IsDigit(s[k]) && s[k] != '_' && s[k] != '+' && s[k] != '-'
    ensures ParseInt(s) == None
  {
    if |s| > 0 && (s[0] == '+' || s[0] == '-') {
      var body := s[1..];
      assert body[k - 1] == s[k];
    }
  }

  // ---------------------------------------------------------------------------
  // str.lower()
  // ---------------------------------------------------------------------------

  function LowerChar(c: char): char {
    if 'A' <= c <= 'Z' then (c as int + 32) as char else c
  }

  /** `s.lower()` on ASCII letters. */
  function Lower(s: string): (r: string)
    ensures |r| == |s|
    ensures forall i :: 0 <= i < |s| ==> r[i] == LowerChar(s[i])
    ensures forall i :: 0 <= i < |r| ==> !('A' <= r[i] <= 'Z')
    ensures forall i :: 0 <= i < |s| && !('A' <= s[i] <= 'Z') ==> r[i] == s[i]
  {
    seq(|s|, i requires 0 <= i < |s| => LowerChar(s[i]))
  }

  // ---------------------------------------------------------------------------
  // s[i:j]
  // ---------------------------------------------------------------------------

  /** A slice bound as Python resolves it: negative counts from the end, then clamp to [0, n]. */
  function SliceBound(x: int, n: nat): (b: nat)
    ensures b <= n
    ensures 0 <= x <= n ==> b == x
    ensures x > n ==> b == n
  {
    if x < 0 then (if x + n < 0 then 0 else x + n)
    else if x > n then n
    else x
  }

  /** `s[i:j]` with step one. */
  function PySlice<T>(s: seq<T>, i: int, j: int): (r: seq<T>)
    ensures |r| == if SliceBound(i, |s|) < SliceBound(j, |s|) then SliceBound(j, |s|) - SliceBound(i, |s|) else 0
    ensures forall k :: 0 <= k < |r| ==> r[k] == s[SliceBound(i, |s|) + k]
  {
    var lo := SliceBound(i, |s|);
    var hi := SliceBound(j, |s|);
    if lo < hi then s[lo..hi] else []
  }

  /** From a non-negative start and a non-negative width, a slice is the elements that exist there. */
  lemma PySliceWindow<T>(s: seq<T>, i: int, width: int)
    requires 0 <= i && 0 <= width
    ensures PySlice(s, i, i + width) == if i + width <= |s| then s[i..i + width] else if i <= |s| then s[i..] else []
  {
  }

  // ---------------------------------------------------------------------------
  // ''.join(list(some_set))
  // ---------------------------------------------------------------------------

  predicate Distinct<T(==)>(s: seq<T>) {
    forall i, j :: 0 <= i < j < |s| ==> s[i] != s[j]
  }

  /** `''.join(list(chars))`: each character of the set once, in an order the model leaves open. */
  method JoinSet(chars: set<char>) returns (r: string)
    ensures forall c :: c in r <==> c in chars
    ensures Distinct(r)
    ensures |r| == |chars|
  {
    r := [];
    var rest := chars;
    while rest != {}
      invariant forall c :: c in chars <==> c in r || c in rest
      invariant forall c :: c in r ==> c !in rest
      invariant Distinct(r)
      invariant |r| + |rest| == |chars|
      decreases |rest|
    {
      var c :| c in rest;
      r := r + [c];
      rest := rest - {c};
    }
  }
}
