/**
 * The stored reading-list record, its reading progress, and the insert and
 * update payloads sent to the database.
 */
module UserBooks {
  import opened Wrappers
  import opened Books
  import opened ReadingStatuses

  datatype Uuid = Uuid(bytes: seq<bv8>)

  /** A `Date`; the model only carries it. */
  datatype Date = Date(secondsSinceReferenceDate: real)

  datatype UserBook = UserBook(
    id: Uuid,
    userId: Uuid,
    bookId: string,
    status: ReadingStatus,
    title: string,
    authors: Option<seq<string>>,
    coverUrl: Option<string>,
    pageCount: Option<int>,
    provider: string,
    createdAt: Date,
    updatedAt: Date,
    currentPage: Option<int>,
    rating: Option<int>,
    notes: Option<string>,
    startedAt: Option<Date>,
    finishedAt: Option<Date>)

  /** Where `c / t` lies relative to 0 and 1, for a positive `t`. */
  lemma FractionBounds(c: real, t: real)
    requires t > 0.0
    ensures c <= t ==> c / t <= 1.0
    ensures c >= t ==> c / t >= 1.0
    ensures c < 0.0 ==> c / t < 0.0
    ensures c >= 0.0 ==> c / t >= 0.0
  {
    var q := c / t;
    assert q * t == c;
    assert (q - 1.0) * t == c - t;
    if q > 1.0 { assert (q - 1.0) * t > 0.0; }
    if q < 1.0 { assert (1.0 - q) * t > 0.0; }
    if q < 0.0 { assert -q * t > 0.0; }
    if q > 0.0 { assert q * t > 0.0; }
  }

  /**
   * `progressPercentage`: the fraction of pages read, capped at 1, and 0
   * without a positive page count or a current page. There is no lower cap.
   */
  function ProgressPercentage(b: UserBook): (r: real)
    ensures r <= 1.0
    ensures b.pageCount.None? || b.pageCount.value <= 0 || b.currentPage.None? ==> r == 0.0
    ensures b.pageCount.Some? && b.pageCount.value > 0 && b.currentPage.Some? ==>
              var total, current := b.pageCount.value, b.currentPage.value;
              && (current <= total ==> r == current as real / total as real)
              && (current >= total ==> r == 1.0)
              && (current >= 0 ==> r >= 0.0)
              && (current < 0 ==> r < 0.0)
  {
    if b.pageCount.None? || b.pageCount.value <= 0 || b.currentPage.None? then 0.0
    else
      var total, current := b.pageCount.value as real, b.currentPage.value as real;
      var fraction := current / total;
      FractionBounds(current, total);
      if fraction <= 1.0 then fraction else 1.0
  }

  /** The insert payload built from a search result's details. */
  datatype InsertUserBook = InsertUserBook(
    userId: Uuid,
    bookId: string,
    status: ReadingStatus,
    title: string,
    authors: Option<seq<string>>,
    coverUrl: Option<string>,
    pageCount: Option<int>,
    provider: string)

  /** `InsertUserBook.init(userId:bookDetails:status:)`. */
  function NewInsertUserBook(userId: Uuid, details: BookDetails, status: ReadingStatus): InsertUserBook
  {
    InsertUserBook(
      userId := userId,
      bookId := details.id,
      status := status,
      title := details.title,
      authors := details.authors,
      coverUrl := if details.imageLinks.Some? then BestAvailable(details.imageLinks.value) else None,
      pageCount := details.pageCount,
      provider := ProviderRawValue(details.provider))
  }

  /**
   * The payload keeps the book's identity and the caller's choices, and its
   * cover is the largest image present, absent only when there is none.
   */
  lemma InsertUserBookFromDetails(userId: Uuid, details: BookDetails, status: ReadingStatus)
    ensures var r := NewInsertUserBook(userId, details, status);
            && r.userId == userId && r.status == status
            && r.bookId == details.id && r.title == details.title
            && r.authors == details.authors && r.pageCount == details.pageCount
    ensures var r := NewInsertUserBook(userId, details, status);
            && (r.coverUrl.None? <==> details.imageLinks.None? || details.imageLinks.value == BookImageLinks(None, None, None, None))
            && (details.imageLinks.Some? && details.imageLinks.value.large.Some? ==> r.coverUrl == details.imageLinks.value.large)
  {
  }

  /**
   * The stored provider is the enum's raw value ("Google Books" or "Open
   * Library"), not the case name, and it still tells the providers apart.
   */
  lemma InsertUserBookProvider(userId: Uuid, details: BookDetails, other: BookDetails, status: ReadingStatus)
    ensures var p := NewInsertUserBook(userId, details, status).provider;
            && (p == "Google Books" || p == "Open Library")
            && p != "googleBooks" && p != "openLibrary"
    ensures (NewInsertUserBook(userId, details, status).provider == NewInsertUserBook(userId, other, status).provider)
              <==> (details.provider == other.provider)
  {
    ProviderRawValueInjective(details.provider, other.provider);
  }

  /** The status-update payload; its timestamp is not modelled. */
  datatype UpdateUserBookStatus = UpdateUserBookStatus(status: ReadingStatus)

  /** The progress-update payload; its timestamp is not modelled. */
  datatype UpdateUserBookProgress = UpdateUserBookProgress(currentPage: int)

  /** The status sent in an update is the one given, and it survives its raw-value encoding. */
  lemma StatusUpdateCarriesStatus(status: ReadingStatus)
    ensures FromRawValue(RawValue(UpdateUserBookStatus(status).status)) == Some(status)
  {
    RawValueRoundTrip(status);
  }
}
