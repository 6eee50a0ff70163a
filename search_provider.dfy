/**
 * The contract shared by the catalog providers: the search result pairing,
 * the closed error set with its user-facing messages, and the effects a
 * search goes through (URL building, the HTTP fetch, JSON decoding), which
 * the model receives as inputs rather than performing.
 */
module SearchProvider {
  import opened Wrappers
  import opened Books

  /** A `Book` summary and its `BookDetails`, made from the same source record. */
  datatype BookSearchResult = BookSearchResult(book: Book, details: BookDetails)

  /** `Identifiable.id`: the summary's id. */
  function ResultId(r: BookSearchResult): string
  {
    r.book.id
  }

  /** An underlying Swift `Error`, seen only through its `localizedDescription`. */
  datatype Cause = Cause(localizedDescription: string)

  /** `BookSearchError`. */
  datatype BookSearchError =
    | InvalidURL
    | NetworkError(cause: Cause)
    | DecodingError(cause: Cause)
    | NoResults
    | ApiKeyMissing

  /** `errorDescription`: every case has a message. */
  function ErrorDescription(e: BookSearchError): (r: Option<string>)
    ensures r.Some?
    ensures e.NetworkError? ==> r.value == "Network error: " + e.cause.localizedDescription
    ensures e.DecodingError? ==> r.value == "Failed to parse response: " + e.cause.localizedDescription
  {
    match e
    case InvalidURL => Some("Invalid URL configuration")
    case NetworkError(c) => Some("Network error: " + c.localizedDescription)
    case DecodingError(c) => Some("Failed to parse response: " + c.localizedDescription)
    case NoResults => Some("No results found")
    case ApiKeyMissing => Some("API key is missing")
  }

  /** The fixed messages of the cases that carry no cause, told apart from each other and from the wrapped ones. */
  lemma FixedErrorMessages(c: Cause)
    ensures ErrorDescription(NoResults) == Some("No results found")
    ensures ErrorDescription(ApiKeyMissing) == Some("API key is missing")
    ensures ErrorDescription(InvalidURL) == Some("Invalid URL configuration")
    ensures ErrorDescription(NetworkError(c)) != ErrorDescription(DecodingError(c))
    ensures forall e | e in [NoResults, ApiKeyMissing, InvalidURL] ::
              ErrorDescription(e) != ErrorDescription(NetworkError(c))
              && ErrorDescription(e) != ErrorDescription(DecodingError(c))
  {
    assert ErrorDescription(NetworkError(c)).value[1] == 'e';
    assert ErrorDescription(NoResults).value[1] == 'o';
    assert ErrorDescription(NetworkError(c)).value[0] == 'N';
    assert ErrorDescription(DecodingError(c)).value[0] == 'F';
  }

  // ---------------------------------------------------------------------
  // The effects a search goes through
  // ---------------------------------------------------------------------

  type Bytes = seq<bv8>
  type Url = string

  /** One `URLQueryItem`. */
  datatype QueryItem = QueryItem(name: string, value: string)

  /** The parts of a `URLComponents` value that the providers set. */
  datatype UrlComponents = UrlComponents(scheme: string, host: string, path: string, queryItems: seq<QueryItem>)

  /** The outcome of `URLSession.shared.data(from:)`: the body, or the transport error. */
  datatype FetchOutcome = Fetched(data: Bytes) | TransportFailure(cause: Cause)

  /** The outcome of `JSONDecoder().decode`: the decoded schema value, or the parse error. */
  datatype DecodeOutcome<R> = Decoded(response: R) | DecodeFailure(cause: Cause)

  /**
   * The foreign calls a search makes: `URLComponents(string:)`,
   * `URLComponents.url` and the HTTP fetch, each as a function of its input.
   */
  datatype Transport = Transport(
    parse: string -> Option<UrlComponents>,
    resolve: UrlComponents -> Option<Url>,
    fetch: Url -> FetchOutcome)
}
