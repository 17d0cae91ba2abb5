/**
 * The text of a metrics report: how a count is written to a stream, and the
 * six lines that dump_metrics writes for one metric. Each line is one element
 * of a sequence; std::endl ends it.
 */
module Report {

  datatype Option<T> = None | Some(value: T)

  predicate IsDigit(c: char)
  {
    '0' <= c <= '9'
  }

  predicate AllDigits(s: string)
  {
    forall i :: 0 <= i < |s| ==> IsDigit(s[i])
  }

  function DigitChar(d: nat): (c: char)
    requires d < 10
    ensures IsDigit(c) && c as int - '0' as int == d
  {
    ('0' as int + d) as char
  }

  /** The decimal digits of n, most significant first, without leading zeros. */
  function Decimal(n: nat): (s: string)
    ensures s != [] && AllDigits(s)
    ensures |s| > 1 ==> s[0] != '0'
  {
    if n < 10 then [DigitChar(n)] else Decimal(n / 10) + [DigitChar(n % 10)]
  }

  /** The number a string of decimal digits denotes. */
  function DecimalValue(s: string): nat
    requires AllDigits(s)
  {
    if s == [] then 0
    else DecimalValue(s[..|s| - 1]) * 10 + (s[|s| - 1] as int - '0' as int)
  }

  lemma {:induction false} DecimalRoundTrip(n: nat)
    ensures DecimalValue(Decimal(n)) == n
  {
    if n >= 10 {
      DecimalRoundTrip(n / 10);
      var s := Decimal(n);
      assert s[..|s| - 1] == Decimal(n / 10);
    }
  }

  /** An integer written to a std::ostream: a minus sign for negatives, then the digits. */
  function IntString(i: int): (s: string)
    ensures s != [] && (s[0] == '-') == (i < 0)
    ensures 0 <= i ==> AllDigits(s)
    ensures i < 0 ==> |s| > 1 && AllDigits(s[1..])
  {
    if i < 0 then "-" + Decimal(-i) else Decimal(i)
  }

  /** Reads back an integer written by IntString; None for any other text. */
  function ParseInt(s: string): (r: Option<int>)
    ensures r.Some? ==> s != []
  {
    if s == [] then None
    else if s[0] == '-' && |s| > 1 && AllDigits(s[1..]) then Some(0 - DecimalValue(s[1..]))
    else if AllDigits(s) then Some(DecimalValue(s))
    else None
  }

  lemma {:induction false} IntRoundTrip(i: int)
    ensures ParseInt(IntString(i)) == Some(i)
  {
    if i < 0 {
      DecimalRoundTrip(-i);
      assert IntString(i)[1..] == Decimal(-i);
    } else {
      DecimalRoundTrip(i);
    }
  }

  /** The prefix of a statistics line: a tab, the title and ": ". */
  function FieldPrefix(title: string): string
  {
    "\t" + title + ": "
  }

  /** One statistics line: the prefix, the value and the unit suffix. */
  function Field(title: string, value: int, suffix: string): (line: string)
    ensures |FieldPrefix(title)| + |suffix| < |line|
    ensures line[..|FieldPrefix(title)|] == FieldPrefix(title) && line[0] == '\t'
    ensures line[|line| - |suffix|..] == suffix
  {
    FieldPrefix(title) + IntString(value) + suffix
  }

  /** Reads the value back out of a statistics line with the given title and suffix. */
  function ParseField(line: string, title: string, suffix: string): Option<int>
  {
    var prefix := FieldPrefix(title);
    if |prefix| + |suffix| <= |line|
      && line[..|prefix|] == prefix
      && line[|line| - |suffix|..] == suffix
    then ParseInt(line[|prefix|..|line| - |suffix|])
    else None
  }

  /** A statistics line gives back exactly the value written into it. */
  lemma FieldRoundTrip(title: string, value: int, suffix: string)
    ensures ParseField(Field(title, value, suffix), title, suffix) == Some(value)
  {
    var prefix, digits := FieldPrefix(title), IntString(value);
    var line := Field(title, value, suffix);
    assert line[..|prefix|] == prefix;
    assert line[|line| - |suffix|..] == suffix;
    assert line[|prefix|..|line| - |suffix|] == digits;
    IntRoundTrip(value);
  }

  /**
   * The report of one metric: a header naming it, the entry count without a
   * suffix, then total, average, minimum and maximum, each with the suffix.
   */
  function Block(name: string, entered: nat, total: int, average: int, min: int, max: int, suffix: string): (lines: seq<string>)
    ensures |lines| == 6 && lines[0] == name + " metrics:"
  {
    [ name + " metrics:",
      Field("Entered", entered, ""),
      Field("Total", total, suffix),
      Field("Average", average, suffix),
      Field("Min", min, suffix),
      Field("Max", max, suffix) ]
  }

  /** Every statistic can be read back, exactly, from its line of the report. */
  lemma BlockRoundTrip(name: string, entered: nat, total: int, average: int, min: int, max: int, suffix: string)
    ensures var lines := Block(name, entered, total, average, min, max, suffix);
      && ParseField(lines[1], "Entered", "") == Some(entered)
      && ParseField(lines[2], "Total", suffix) == Some(total)
      && ParseField(lines[3], "Average", suffix) == Some(average)
      && ParseField(lines[4], "Min", suffix) == Some(min)
      && ParseField(lines[5], "Max", suffix) == Some(max)
  {
    var lines := Block(name, entered, total, average, min, max, suffix);
    assert lines[1] == Field("Entered", entered, "");
    assert lines[2] == Field("Total", total, suffix);
    assert lines[3] == Field("Average", average, suffix);
    assert lines[4] == Field("Min", min, suffix);
    assert lines[5] == Field("Max", max, suffix);
    FieldRoundTrip("Entered", entered, "");
    FieldRoundTrip("Total", total, suffix);
    FieldRoundTrip("Average", average, suffix);
    FieldRoundTrip("Min", min, suffix);
    FieldRoundTrip("Max", max, suffix);
  }
}
