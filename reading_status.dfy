/** The reading-list categories, their stored raw values and their display titles. */
module ReadingStatuses {
  import opened Wrappers

  datatype ReadingStatus = ToRead | CurrentlyReading | Read | DidNotFinish

  /** `allCases`, in declaration order. */
  const AllCases: seq<ReadingStatus> := [ToRead, CurrentlyReading, Read, DidNotFinish]

  /** The raw `String` value stored in the database. */
  function RawValue(s: ReadingStatus): string
  {
    match s
    case ToRead => "to_read"
    case CurrentlyReading => "currently_reading"
    case Read => "read"
    case DidNotFinish => "did_not_finish"
  }

  /** `ReadingStatus(rawValue:)`, the decoding used by `Codable`: the case with that raw value, if any. */
  function FromRawValue(raw: string): (r: Option<ReadingStatus>)
    ensures r.Some? ==> RawValue(r.value) == raw
  {
    if raw == "to_read" then Some(ToRead)
    else if raw == "currently_reading" then Some(CurrentlyReading)
    else if raw == "read" then Some(Read)
    else if raw == "did_not_finish" then Some(DidNotFinish)
    else None
  }

  /** `displayTitle`: the label shown in the interface. */
  function DisplayTitle(s: ReadingStatus): string
  {
    match s
    case ToRead => "To Read"
    case CurrentlyReading => "Currently Reading"
    case Read => "Read"
    case DidNotFinish => "Did Not Finish"
  }

  /** Decoding an encoded status gives it back. */
  lemma RawValueRoundTrip(s: ReadingStatus)
    ensures FromRawValue(RawValue(s)) == Some(s)
  {
    match s {
      case ToRead =>
      case CurrentlyReading =>
        assert RawValue(s)[0] != 't';
      case Read =>
        assert RawValue(s)[0] == 'r' && |RawValue(s)| == 4;
      case DidNotFinish =>
        assert RawValue(s)[0] == 'd';
    }
  }

  /** Exactly the four raw values decode. */
  lemma FromRawValueOnlyRawValues(raw: string)
    ensures FromRawValue(raw).Some? <==> exists t :: RawValue(t) == raw
  {
    if exists t :: RawValue(t) == raw {
      var t :| RawValue(t) == raw;
      RawValueRoundTrip(t);
    }
  }

  /** Every status appears in `allCases` exactly once. */
  lemma AllCasesOnceEach(s: ReadingStatus)
    ensures s in AllCases
    ensures forall i, j | 0 <= i < j < |AllCases| :: AllCases[i] != AllCases[j]
  {
  }

  /** Each status has its own display title, so the label identifies the status. */
  lemma DisplayTitleInjective(s: ReadingStatus, t: ReadingStatus)
    ensures DisplayTitle(s) == DisplayTitle(t) <==> s == t
  {
    if s != t {
      assert DisplayTitle(s)[0] != DisplayTitle(t)[0];
    }
  }
}
