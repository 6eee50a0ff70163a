/**
 * The date-string helpers: splitting a date into year, month and day text
 * for a given field order, and guessing the order from the text itself.
 */
module DateParsing {
  import opened Wrappers
  import opened Strings

  /** The three fields of a date, as text. */
  datatype DateComponents = DateComponents(year: string, month: string, day: string)

  function YearInt(c: DateComponents): Option<int> { ParseInt(c.year) }
  function MonthInt(c: DateComponents): Option<int> { ParseInt(c.month) }
  function DayInt(c: DateComponents): Option<int> { ParseInt(c.day) }

  datatype DateFormat = YearMonthDay | MonthDayYear | DayMonthYear | YearOnly

  /** `CaseIterable.allCases`. */
  const AllFormats := [YearMonthDay, MonthDayYear, DayMonthYear, YearOnly]

  /** `description`: the field pattern of a format. */
  function FormatDescription(f: DateFormat): string
  {
    match f
    case YearMonthDay => "YYYY-MM-DD"
    case MonthDayYear => "MM-DD-YYYY"
    case DayMonthYear => "DD-MM-YYYY"
    case YearOnly => "YYYY"
  }

  /** `allCases` lists every format once, and the formats have distinct descriptions. */
  lemma AllFormatsDescribed(f: DateFormat, g: DateFormat)
    ensures f in AllFormats
    ensures forall i, j | 0 <= i < j < |AllFormats| :: AllFormats[i] != AllFormats[j]
    ensures FormatDescription(f) == FormatDescription(g) <==> f == g
  {
    if f != g {
      assert FormatDescription(f) != FormatDescription(g) by {
        var a, b := FormatDescription(f), FormatDescription(g);
        if |a| == |b| {
          assert a[0] != b[0];
        }
      }
    }
  }

  /** `/` when the text contains one, `-` otherwise. */
  function Separator(s: string): char
  {
    if '/' in s then '/' else '-'
  }

  /** The non-empty pieces between separators. */
  function DateParts(s: string): seq<string>
  {
    Split(s, Separator(s))
  }

  /** `parseDateComponents(format:)`. */
  function ParseDateComponents(s: string, format: DateFormat): Option<DateComponents>
  {
    var parts := DateParts(s);
    match format
    case YearMonthDay =>
      if |parts| != 3 then None else Some(DateComponents(year := parts[0], month := parts[1], day := parts[2]))
    case MonthDayYear =>
      if |parts| != 3 then None else Some(DateComponents(year := parts[2], month := parts[0], day := parts[1]))
    case DayMonthYear =>
      if |parts| != 3 then None else Some(DateComponents(year := parts[2], month := parts[1], day := parts[0]))
    case YearOnly =>
      var yearString := if |parts| == 1 then parts[0] else s;
      if |yearString| != 4 then None else Some(DateComponents(year := yearString, month := "01", day := "01"))
  }

  /** A successful parse tagged with the format that produced it. */
  function Detected(c: Option<DateComponents>, format: DateFormat): Option<(DateComponents, DateFormat)>
  {
    if c.Some? then Some((c.value, format)) else None
  }

  /**
   * `parseDateComponentsAutoDetect()`: the first of these attempts that
   * succeeds, in order: a four-character integer alone is a year; with three
   * parts, a four-character first part means year-month-day; otherwise a
   * four-character last part means day-month-year when the first part is an
   * integer above 12 and month-day-year when it is not.
   */
  function ParseDateComponentsAutoDetect(s: string): (r: Option<(DateComponents, DateFormat)>)
    ensures r.Some? ==> ParseDateComponents(s, r.value.1) == Some(r.value.0)
  {
    var parts := DateParts(s);
    var yearOnly :=
      if |parts| == 1 && |s| == 4 && ParseInt(s).Some?
      then Detected(ParseDateComponents(s, YearOnly), YearOnly)
      else None;
    OrElse(yearOnly,
      if |parts| != 3 then None
      else OrElse(
        if |parts[0]| == 4 then Detected(ParseDateComponents(s, YearMonthDay), YearMonthDay) else None,
        if |parts[2]| == 4 then
          OrElse(
            if ParseInt(parts[0]).Some? && ParseInt(parts[0]).value > 12
            then Detected(ParseDateComponents(s, DayMonthYear), DayMonthYear)
            else None,
            Detected(ParseDateComponents(s, MonthDayYear), MonthDayYear))
        else None))
  }

  /** `dateYear`. */
  function DateYear(s: string): Option<string>
  {
    var d := ParseDateComponentsAutoDetect(s);
    if d.Some? then Some(d.value.0.year) else None
  }

  /** `dateMonth`. */
  function DateMonth(s: string): Option<string>
  {
    var d := ParseDateComponentsAutoDetect(s);
    if d.Some? then Some(d.value.0.month) else None
  }

  /** `dateDay`. */
  function DateDay(s: string): Option<string>
  {
    var d := ParseDateComponentsAutoDetect(s);
    if d.Some? then Some(d.value.0.day) else None
  }

  // ---------------------------------------------------------------------
  // Writing a date out, as the reference the parser is checked against
  // ---------------------------------------------------------------------

  /** The text of a date in the given field order with the given separator. */
  function FormatDate(c: DateComponents, format: DateFormat, sep: char): string
  {
    match format
    case YearMonthDay => c.year + [sep] + c.month + [sep] + c.day
    case MonthDayYear => c.month + [sep] + c.day + [sep] + c.year
    case DayMonthYear => c.day + [sep] + c.month + [sep] + c.year
    case YearOnly => c.year
  }

  /** A field that survives splitting: non-empty and free of both separators. */
  predicate PlainField(f: string)
  {
    f != [] && '/' !in f && '-' !in f
  }

  /** Components the given format can carry: plain fields, and for a bare year, four characters and January 1st. */
  predicate Representable(c: DateComponents, format: DateFormat)
  {
    && PlainField(c.year) && PlainField(c.month) && PlainField(c.day)
    && (format == YearOnly ==> |c.year| == 4 && c.month == "01" && c.day == "01")
  }

  /** Splitting a written-out date with plain fields recovers its fields, in the order written. */
  lemma {:induction false} FormattedParts(c: DateComponents, format: DateFormat, sep: char)
    requires sep == '/' || sep == '-'
    requires Representable(c, format)
    ensures Separator(FormatDate(c, format, sep)) == if format == YearOnly then '-' else sep
    ensures format == YearMonthDay ==> DateParts(FormatDate(c, format, sep)) == [c.year, c.month, c.day]
    ensures format == MonthDayYear ==> DateParts(FormatDate(c, format, sep)) == [c.month, c.day, c.year]
    ensures format == DayMonthYear ==> DateParts(FormatDate(c, format, sep)) == [c.day, c.month, c.year]
    ensures format == YearOnly ==> DateParts(FormatDate(c, format, sep)) == [c.year]
  {
    var s := FormatDate(c, format, sep);
    match format
    case YearOnly =>
      SplitWithoutSeparator(c.year, '-');
    case YearMonthDay =>
      assert s[|c.year|] == sep;
      SplitThree(c.year, c.month, c.day, sep);
    case MonthDayYear =>
      assert s[|c.month|] == sep;
      SplitThree(c.month, c.day, c.year, sep);
    case DayMonthYear =>
      assert s[|c.day|] == sep;
      SplitThree(c.day, c.month, c.year, sep);
  }

  /** Parsing a written-out date in its own format gives back its fields, with either separator. */
  lemma ParseFormatted(c: DateComponents, format: DateFormat, sep: char)
    requires sep == '/' || sep == '-'
    requires Representable(c, format)
    ensures ParseDateComponents(FormatDate(c, format, sep), format) == Some(c)
  {
    FormattedParts(c, format, sep);
  }

  /** The three-field formats need exactly three parts; a bare year is four characters, on January 1st. */
  lemma ParseShape(s: string, format: DateFormat)
    ensures format != YearOnly ==> (ParseDateComponents(s, format).Some? <==> |DateParts(s)| == 3)
    ensures format == YearOnly && ParseDateComponents(s, format).Some? ==>
      var c := ParseDateComponents(s, format).value;
      |c.year| == 4 && c.month == "01" && c.day == "01"
  {
  }

  // ---------------------------------------------------------------------
  // Properties of auto-detection
  // ---------------------------------------------------------------------

  /** Text that `Int(_)` accepts holds no `/`. */
  lemma ParsedIntHasNoSlash(s: string)
    requires ParseInt(s).Some?
    ensures '/' !in s
  {
    forall i | 1 <= i < |s| ensures s[i] != '/' {
      assert s[i] == s[1..][i - 1];
    }
  }

  /**
   * Year-only detection happens exactly for a four-character integer text
   * with no `-` in it (a leading minus sign splits away), and then the year
   * is the whole text, on January 1st.
   */
  lemma AutoDetectYearOnly(s: string)
    ensures var d := ParseDateComponentsAutoDetect(s);
            (d.Some? && d.value.1 == YearOnly) <==> (|s| == 4 && ParseInt(s).Some? && '-' !in s)
    ensures var d := ParseDateComponentsAutoDetect(s);
            d.Some? && d.value.1 == YearOnly ==> d.value.0 == DateComponents(s, "01", "01")
  {
    var parts := DateParts(s);
    if |s| == 4 && ParseInt(s).Some? {
      ParsedIntHasNoSlash(s);
      assert Separator(s) == '-';
      if '-' !in s {
        SplitWithoutSeparator(s, '-');
      } else if |parts| == 1 {
        SplitLength(s, '-');
        assert Concat(parts) == parts[0] + Concat([]);
        assert |parts[0]| < 4;
      }
    }
  }

  /** With three parts, the detected format and the placement of the fields. */
  lemma AutoDetectThreeParts(s: string)
    requires |DateParts(s)| == 3
    ensures var p := DateParts(s);
            ParseDateComponentsAutoDetect(s) ==
              if |p[0]| == 4 then Some((DateComponents(p[0], p[1], p[2]), YearMonthDay))
              else if |p[2]| == 4 then
                if ParseInt(p[0]).Some? && ParseInt(p[0]).value > 12
                then Some((DateComponents(p[2], p[1], p[0]), DayMonthYear))
                else Some((DateComponents(p[2], p[0], p[1]), MonthDayYear))
              else None
  {
  }

  /** Any other number of parts is rejected, and a single part yields a bare year or nothing. */
  lemma AutoDetectOtherCounts(s: string)
    ensures |DateParts(s)| != 1 && |DateParts(s)| != 3 ==> ParseDateComponentsAutoDetect(s).None?
    ensures |DateParts(s)| == 1 && ParseDateComponentsAutoDetect(s).Some? ==>
              ParseDateComponentsAutoDetect(s).value.1 == YearOnly
  {
  }

  /** Dates the heuristic can recognise in the given format. */
  predicate Detectable(c: DateComponents, format: DateFormat)
  {
    && Representable(c, format)
    && match format
       case YearOnly => ParseInt(c.year).Some?
       case YearMonthDay => |c.year| == 4
       case DayMonthYear => |c.day| != 4 && |c.year| == 4 && ParseInt(c.day).Some? && ParseInt(c.day).value > 12
       case MonthDayYear => |c.month| != 4 && |c.year| == 4 && !(ParseInt(c.month).Some? && ParseInt(c.month).value > 12)
  }

  /** A written-out date the heuristic can recognise is detected in its own format, with its own fields. */
  lemma AutoDetectFormatted(c: DateComponents, format: DateFormat, sep: char)
    requires sep == '/' || sep == '-'
    requires Detectable(c, format)
    ensures ParseDateComponentsAutoDetect(FormatDate(c, format, sep)) == Some((c, format))
  {
    var s := FormatDate(c, format, sep);
    FormattedParts(c, format, sep);
    if format == YearOnly {
      AutoDetectYearOnly(s);
    } else {
      AutoDetectThreeParts(s);
    }
  }

  /** `dateYear`, `dateMonth` and `dateDay` of such a date are its own fields. */
  lemma DateFieldsOfFormatted(c: DateComponents, format: DateFormat, sep: char)
    requires sep == '/' || sep == '-'
    requires Detectable(c, format)
    ensures var s := FormatDate(c, format, sep);
            DateYear(s) == Some(c.year) && DateMonth(s) == Some(c.month) && DateDay(s) == Some(c.day)
  {
    AutoDetectFormatted(c, format, sep);
  }

  /** The three accessors agree with auto-detection: all present together or all nil. */
  lemma DateFieldsTogether(s: string)
    ensures DateYear(s).Some? <==> ParseDateComponentsAutoDetect(s).Some?
    ensures DateYear(s).Some? == DateMonth(s).Some? == DateDay(s).Some?
  {
  }
}
