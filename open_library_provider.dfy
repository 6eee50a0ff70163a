/**
 * The Open Library provider: a keyless search whose documents are mapped
 * into `Book` summaries and canonical `BookDetails`, with cover URLs built
 * from the numeric cover id.
 */
module OpenLibraryProvider {
  import opened Wrappers
  import opened Strings
  import opened Sequences
  import opened Books
  import opened SearchProvider
  import opened OpenLibraryResponse

  const SearchBaseURL := "https://openlibrary.org/search.json"
  const CoverBaseURL := "https://covers.openlibrary.org/b/id"
  const ResultLimit := "20"
  const MaxCategories := 5
  const UnknownAuthor := "Unknown Author"

  /** `"\(coverBaseURL)/\(coverId)-<size>.jpg"`. */
  function CoverUrl(coverId: int, size: char): (r: string)
    ensures |r| > |CoverBaseURL| + 6
    ensures r[..|CoverBaseURL| + 1] == CoverBaseURL + "/"
    ensures r[|r| - 6..] == "-" + [size] + ".jpg"
  {
    CoverBaseURL + "/" + IntToString(coverId) + "-" + [size] + ".jpg"
  }

  /** A cover URL names exactly one cover id and one size. */
  lemma CoverUrlInjective(a: int, s: char, b: int, t: char)
    requires CoverUrl(a, s) == CoverUrl(b, t)
    ensures a == b && s == t
  {
    var u := CoverUrl(a, s);
    var p := |CoverBaseURL + "/"|;
    var da, db := IntToString(a), IntToString(b);
    assert |u| == p + |da| + 6 == p + |db| + 6;
    assert u[p..p + |da|] == da by {
      assert u == (CoverBaseURL + "/") + da + ("-" + [s] + ".jpg");
    }
    assert u[p..p + |db|] == db by {
      assert u == (CoverBaseURL + "/") + db + ("-" + [t] + ".jpg");
    }
    IntToStringInjective(a, b);
    assert u[|u| - 5] == s && u[|u| - 5] == t;
  }

  /** The image links of a doc: `-S` for thumbnail and small, `-M` for medium, `-L` for large. */
  function CoverImageLinks(coverI: Option<int>): (r: Option<BookImageLinks>)
    ensures r.Some? <==> coverI.Some?
  {
    match coverI
    case None => None
    case Some(id) => Some(BookImageLinks(
      thumbnail := Some(CoverUrl(id, 'S')),
      small := Some(CoverUrl(id, 'S')),
      medium := Some(CoverUrl(id, 'M')),
      large := Some(CoverUrl(id, 'L'))))
  }

  /** The four tiers share the cover id: thumbnail and small are the same `-S` image, medium `-M` and large `-L`, three distinct URLs. */
  lemma CoverImageLinksTiers(id: int)
    ensures var l := CoverImageLinks(Some(id)).value;
            && l.thumbnail == l.small == Some(CoverUrl(id, 'S'))
            && l.medium == Some(CoverUrl(id, 'M'))
            && l.large == Some(CoverUrl(id, 'L'))
            && l.small != l.medium && l.medium != l.large && l.small != l.large
  {
    if CoverUrl(id, 'S') == CoverUrl(id, 'M') { CoverUrlInjective(id, 'S', id, 'M'); }
    if CoverUrl(id, 'M') == CoverUrl(id, 'L') { CoverUrlInjective(id, 'M', id, 'L'); }
    if CoverUrl(id, 'S') == CoverUrl(id, 'L') { CoverUrlInjective(id, 'S', id, 'L'); }
  }

  /** `subject?.prefix(5)`: at most five subjects, in source order. */
  function Categories(subject: Option<seq<string>>): (r: Option<seq<string>>)
    ensures r.Some? <==> subject.Some?
    ensures r.Some? ==> |r.value| == if |subject.value| < MaxCategories then |subject.value| else MaxCategories
    ensures r.Some? ==> r.value <= subject.value
  {
    match subject
    case None => None
    case Some(s) => Some(if |s| <= MaxCategories then s else s[..MaxCategories])
  }

  /** `first_publish_year.map { String($0) }`. */
  function PublishedDate(year: Option<int>): (r: Option<string>)
    ensures r.Some? <==> year.Some?
  {
    match year
    case None => None
    case Some(y) => Some(IntToString(y))
  }

  /** The rendered year reads back as the year: no month or day is invented. */
  lemma PublishedDateReadsBack(y: int)
    requires IntMin <= y <= IntMax
    ensures ParseInt(PublishedDate(Some(y)).value) == Some(y)
  {
    ParseIntToString(y);
  }

  /** `mapDocToBookDetails`. */
  function DocDetails(doc: Doc): (d: BookDetails)
    ensures d.id == WorkId(doc) && d.title == doc.title && d.provider == OpenLibrary
    ensures d.description.None?
    ensures d.authors == doc.authorName
    ensures d.publisher == FirstOf(doc.publisher)
  {
    BookDetails(
      id := WorkId(doc),
      title := doc.title,
      authors := doc.authorName,
      publisher := FirstOf(doc.publisher),
      publishedDate := PublishedDate(doc.firstPublishYear),
      description := None,
      pageCount := doc.numberOfPagesMedian,
      averageRating := doc.ratingsAverage,
      ratingsCount := doc.ratingsCount,
      categories := Categories(doc.subject),
      imageLinks := CoverImageLinks(doc.coverI),
      isbn10 := Isbn10(doc),
      isbn13 := Isbn13(doc),
      provider := OpenLibrary)
  }

  /** The `compactMap` closure of `search`; it never returns nil. */
  function MapDoc(doc: Doc): (r: Option<BookSearchResult>)
    ensures r.Some?
    ensures ResultId(r.value) == r.value.details.id == WorkId(doc)
    ensures r.value.book.title == r.value.details.title == doc.title
    ensures r.value.book.author == GetOr(FirstOf(doc.authorName), UnknownAuthor)
  {
    var coverURL := if doc.coverI.Some? then Some(CoverUrl(doc.coverI.value, 'M')) else None;
    var book := Book(
      id := WorkId(doc),
      title := doc.title,
      author := GetOr(FirstOf(doc.authorName), UnknownAuthor),
      cover := coverURL);
    Some(BookSearchResult(book, DocDetails(doc)))
  }

  /** The summary's cover is the medium tier of the detail record, and both are absent without `cover_i`. */
  lemma BookCoverIsMediumTier(doc: Doc)
    ensures var r := MapDoc(doc).value;
            && (doc.coverI.None? ==> r.book.cover.None? && r.details.imageLinks.None?)
            && (doc.coverI.Some? ==> r.book.cover == r.details.imageLinks.value.medium)
  {
  }

  /** The cover stored for a saved book is the large `-L` image. */
  lemma BestAvailableIsLarge(doc: Doc)
    requires doc.coverI.Some?
    ensures BestAvailable(DocDetails(doc).imageLinks.value) == Some(CoverUrl(doc.coverI.value, 'L'))
  {
  }

  /** Eight subjects become the first five, in order. */
  lemma CategoriesTruncate(subject: seq<string>)
    requires |subject| == 8
    ensures Categories(Some(subject)) == Some([subject[0], subject[1], subject[2], subject[3], subject[4]])
  {
    assert subject[..MaxCategories] == [subject[0], subject[1], subject[2], subject[3], subject[4]];
  }

  /** The remaining fields of the detail record, each from its doc field through the rules above. */
  lemma DocDetailsFields(doc: Doc)
    ensures var d := DocDetails(doc);
            && d.pageCount == doc.numberOfPagesMedian
            && d.averageRating == doc.ratingsAverage
            && d.ratingsCount == doc.ratingsCount
            && (d.categories.Some? <==> doc.subject.Some?)
            && (d.categories.Some? ==>
                  && d.categories.value <= doc.subject.value
                  && |d.categories.value| == if |doc.subject.value| < MaxCategories then |doc.subject.value| else MaxCategories)
            && (d.publishedDate.Some? <==> doc.firstPublishYear.Some?)
            && (doc.firstPublishYear.Some? && IntMin <= doc.firstPublishYear.value <= IntMax ==>
                  ParseInt(d.publishedDate.value) == doc.firstPublishYear)
            && (d.imageLinks.Some? <==> doc.coverI.Some?)
            && (doc.coverI.Some? ==> d.imageLinks.value.large == Some(CoverUrl(doc.coverI.value, 'L')))
            && d.isbn10 == Isbn10(doc) && d.isbn13 == Isbn13(doc)
            && (d.isbn10.Some? ==> |d.isbn10.value| == 10)
            && (d.isbn13.Some? ==> |d.isbn13.value| == 13)
  {
    if doc.firstPublishYear.Some? && IntMin <= doc.firstPublishYear.value <= IntMax {
      PublishedDateReadsBack(doc.firstPublishYear.value);
    }
  }

  /** The results of a non-empty decoded response: one per doc, in order. */
  function MapDocs(docs: seq<Doc>): (r: seq<BookSearchResult>)
    ensures |r| == |docs|
  {
    CompactMapTotal(docs, MapDoc);
    CompactMap(docs, MapDoc)
  }

  /** Nothing is dropped: result `i` is the mapping of doc `i`. */
  lemma MapDocsOnePerDoc(docs: seq<Doc>)
    ensures |MapDocs(docs)| == |docs|
    ensures forall i | 0 <= i < |docs| :: MapDocs(docs)[i] == MapDoc(docs[i]).value
  {
    CompactMapTotal(docs, MapDoc);
  }

  /** The request: the parsed search endpoint with `q` and a fixed `limit` of 20. */
  function RequestComponents(base: UrlComponents, query: string): (c: UrlComponents)
    ensures c.queryItems == [QueryItem("q", query), QueryItem("limit", ResultLimit)]
    ensures c.scheme == base.scheme && c.host == base.host && c.path == base.path
  {
    base.(queryItems := [QueryItem("q", query), QueryItem("limit", ResultLimit)])
  }

  /**
   * `search(query:)`, with the effects and the decoder as inputs: URL
   * parsing and building, the fetch, decoding, then the empty-docs check.
   * Unlike the Google Books provider, a successful search is never empty.
   */
  function Search(query: string, transport: Transport, decode: Bytes -> DecodeOutcome<Response>)
    : (r: Result<seq<BookSearchResult>, BookSearchError>)
    ensures r.Success? ==> r.value != []
  {
    match transport.parse(SearchBaseURL)
    case None => Failure(InvalidURL)
    case Some(base) =>
      match transport.resolve(RequestComponents(base, query))
      case None => Failure(InvalidURL)
      case Some(url) =>
        match transport.fetch(url)
        case TransportFailure(c) => Failure(NetworkError(c))
        case Fetched(data) =>
          match decode(data)
          case DecodeFailure(c) => Failure(DecodingError(c))
          case Decoded(response) =>
            if response.docs == [] then Failure(NoResults)
            else (MapDocsOnePerDoc(response.docs); Success(MapDocs(response.docs)))
  }

  /** Failures before a response is decoded, in pipeline order. */
  lemma SearchFailsEarly(query: string, transport: Transport, decode: Bytes -> DecodeOutcome<Response>)
    ensures transport.parse(SearchBaseURL).None? ==> Search(query, transport, decode) == Failure(InvalidURL)
    ensures transport.parse(SearchBaseURL).Some? ==>
      var request := RequestComponents(transport.parse(SearchBaseURL).value, query);
      && (transport.resolve(request).None? ==> Search(query, transport, decode) == Failure(InvalidURL))
      && (transport.resolve(request).Some? ==>
            var fetched := transport.fetch(transport.resolve(request).value);
            && (fetched.TransportFailure? ==> Search(query, transport, decode) == Failure(NetworkError(fetched.cause)))
            && (fetched.Fetched? && decode(fetched.data).DecodeFailure? ==>
                  Search(query, transport, decode) == Failure(DecodingError(decode(fetched.data).cause))))
  {
  }

  /** Once a response is decoded: no docs is an error, otherwise one result per doc. */
  lemma SearchDecoded(query: string, transport: Transport, decode: Bytes -> DecodeOutcome<Response>,
                      base: UrlComponents, url: Url, data: Bytes, response: Response)
    requires transport.parse(SearchBaseURL) == Some(base)
    requires transport.resolve(RequestComponents(base, query)) == Some(url)
    requires transport.fetch(url) == Fetched(data)
    requires decode(data) == Decoded(response)
    ensures response.docs == [] ==> Search(query, transport, decode) == Failure(NoResults)
    ensures response.docs != [] ==>
      && Search(query, transport, decode).Success?
      && |Search(query, transport, decode).value| == |response.docs|
      && forall i | 0 <= i < |response.docs| ::
           Search(query, transport, decode).value[i] == MapDoc(response.docs[i]).value
  {
    MapDocsOnePerDoc(response.docs);
  }
}
