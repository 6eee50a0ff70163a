/**
 * The Google Books provider: the keyed search pipeline and the mapping of a
 * decoded volume into a `Book` summary and a canonical `BookDetails`.
 */
module GoogleBooksProvider {
  import opened Wrappers
  import opened Strings
  import opened Sequences
  import opened Books
  import opened SearchProvider
  import G = GoogleBooksResponse

  const Scheme := "https"
  const Host := "www.googleapis.com"
  const Path := "/books/v1/volumes"

  /** The display-effect parameter the API appends to cover URLs. */
  const EdgeCurl := "&edge=curl"
  const UnknownAuthor := "Unknown Author"
  const UnknownTitle := "Unknown"
  const Isbn10Type := "ISBN_10"
  const Isbn13Type := "ISBN_13"

  // ---------------------------------------------------------------------
  // Image links
  // ---------------------------------------------------------------------

  /** `url?.replacingOccurrences(of: "&edge=curl", with: "")`. */
  function CleanUrl(url: Option<string>): (r: Option<string>)
    ensures r.Some? <==> url.Some?
    ensures r.Some? ==> |r.value| <= |url.value|
  {
    if url.Some? then (ReplaceAllShrinks(url.value, EdgeCurl); Some(ReplaceAll(url.value, EdgeCurl, ""))) else None
  }

  /** A URL without the parameter is kept as it is. */
  lemma CleanUrlKeepsPlainUrl(url: string)
    requires !Contains(url, EdgeCurl)
    ensures CleanUrl(Some(url)) == Some(url)
  {
    ReplaceAllAbsent(url, EdgeCurl, "");
  }

  /** The parameter is cut out wherever it first appears, and the text around it is kept. */
  lemma CleanUrlCutsParameter(before: string, after: string)
    requires forall i: nat | i < |before| :: !OccursAt(before + EdgeCurl + after, EdgeCurl, i)
    ensures CleanUrl(Some(before + EdgeCurl + after)) == Some(before + ReplaceAll(after, EdgeCurl, ""))
  {
    var rest := ReplaceAll(after, EdgeCurl, "");
    ReplaceAllFirst(before, EdgeCurl, after, "");
    assert before + "" + rest == before + rest;
    assert ReplaceAll(before + EdgeCurl + after, EdgeCurl, "") == before + rest;
  }

  /** No `&edge=curl` starts within the first six characters of `"&edge=&edge=curlcurl"`. */
  lemma NoEarlyParameter()
    ensures forall i: nat | i < 6 :: !OccursAt("&edge=&edge=curlcurl", EdgeCurl, i)
  {
    var s := "&edge=&edge=curlcurl";
    forall i: nat | i < 6 ensures !OccursAt(s, EdgeCurl, i) {
      assert s[i + 6] != EdgeCurl[6];
    }
  }

  /**
   * Removal is a single left-to-right pass, so it is not idempotent: a
   * parameter that the first pass splices together survives it.
   */
  lemma CleanUrlNotIdempotent()
    ensures CleanUrl(Some("&edge=&edge=curlcurl")) == Some("&edge=curl")
    ensures CleanUrl(CleanUrl(Some("&edge=&edge=curlcurl"))) == Some("")
  {
    assert "&edge=&edge=curlcurl" == "&edge=" + EdgeCurl + "curl";
    NoEarlyParameter();
    CleanUrlCutsParameter("&edge=", "curl");
    assert ReplaceAll("curl", EdgeCurl, "") == "curl";
    assert "&edge=" + "curl" == EdgeCurl;
    ReplaceAllFirst("", EdgeCurl, "", "");
    assert "" + EdgeCurl + "" == EdgeCurl;
  }

  /** The mapped image links: thumbnail falls back to smallThumbnail, large to extraLarge; every URL cleaned. */
  function MapImageLinks(links: Option<G.ImageLinks>): (r: Option<BookImageLinks>)
    ensures r.Some? <==> links.Some?
  {
    match links
    case None => None
    case Some(l) =>
      Some(BookImageLinks(
        thumbnail := CleanUrl(OrElse(l.thumbnail, l.smallThumbnail)),
        small := CleanUrl(l.small),
        medium := CleanUrl(l.medium),
        large := CleanUrl(OrElse(l.large, l.extraLarge))))
  }

  /** Each tier of a mapped record: which source fields feed it, and when it is absent. */
  lemma MapImageLinksTiers(l: G.ImageLinks)
    ensures var r := MapImageLinks(Some(l)).value;
            && r.thumbnail == CleanUrl(if l.thumbnail.Some? then l.thumbnail else l.smallThumbnail)
            && r.small == CleanUrl(l.small)
            && r.medium == CleanUrl(l.medium)
            && r.large == CleanUrl(if l.large.Some? then l.large else l.extraLarge)
            && (r.thumbnail.None? <==> l.thumbnail.None? && l.smallThumbnail.None?)
            && (r.small.None? <==> l.small.None?)
            && (r.medium.None? <==> l.medium.None?)
            && (r.large.None? <==> l.large.None? && l.extraLarge.None?)
  {
  }

  /** The best cover of a mapped record follows the source tiers from the largest down. */
  lemma BestAvailableOfMappedLinks(l: G.ImageLinks)
    ensures BestAvailable(MapImageLinks(Some(l)).value)
         == CleanUrl(OrElse(l.large, OrElse(l.extraLarge, OrElse(l.medium,
              OrElse(l.small, OrElse(l.thumbnail, l.smallThumbnail))))))
  {
  }

  // ---------------------------------------------------------------------
  // ISBN extraction
  // ---------------------------------------------------------------------

  /** The identifier of the last entry of type `t`, or nil when there is none. */
  function LastIdentifier(ids: seq<G.IndustryIdentifier>, t: string): (r: Option<string>)
    ensures r.Some? ==> exists k | 0 <= k < |ids| :: ids[k].idType == Some(t) && ids[k].identifier == r
  {
    if ids == [] then None
    else if ids[|ids| - 1].idType == Some(t) then ids[|ids| - 1].identifier
    else
      var r := LastIdentifier(ids[..|ids| - 1], t);
      assert forall k | 0 <= k < |ids| - 1 :: ids[..|ids| - 1][k] == ids[k];
      r
  }

  /** `LastIdentifier` over the optional `industryIdentifiers` array. */
  function IdentifierOfType(ids: Option<seq<G.IndustryIdentifier>>, t: string): Option<string>
  {
    if ids.Some? then LastIdentifier(ids.value, t) else None
  }

  /** The entry of type `t` with no later entry of that type decides the result, nil identifier included. */
  lemma {:induction false} LastIdentifierIsLast(ids: seq<G.IndustryIdentifier>, t: string, k: nat)
    requires k < |ids| && ids[k].idType == Some(t)
    requires forall j | k < j < |ids| :: ids[j].idType != Some(t)
    ensures LastIdentifier(ids, t) == ids[k].identifier
  {
    if k < |ids| - 1 {
      LastIdentifierIsLast(ids[..|ids| - 1], t, k);
    }
  }

  /** Without an entry of type `t` the result is nil. */
  lemma {:induction false} LastIdentifierAbsent(ids: seq<G.IndustryIdentifier>, t: string)
    requires forall j | 0 <= j < |ids| :: ids[j].idType != Some(t)
    ensures LastIdentifier(ids, t) == None
  {
    if ids != [] {
      LastIdentifierAbsent(ids[..|ids| - 1], t);
    }
  }

  /** Two ISBN-10 entries: the second one wins, and a later nil identifier overwrites the first. */
  lemma LaterIsbnWins(a: string, b: string)
    ensures LastIdentifier([G.IndustryIdentifier(Some(Isbn10Type), Some(a)),
                            G.IndustryIdentifier(Some(Isbn10Type), Some(b))], Isbn10Type) == Some(b)
    ensures LastIdentifier([G.IndustryIdentifier(Some(Isbn10Type), Some(a)),
                            G.IndustryIdentifier(Some(Isbn10Type), None)], Isbn10Type) == None
  {
  }

  /** The identifier loop of `mapVolumeToBookDetails`: each matching entry overwrites the previous one. */
  method ExtractIsbns(identifiers: Option<seq<G.IndustryIdentifier>>) returns (isbn10: Option<string>, isbn13: Option<string>)
    ensures isbn10 == IdentifierOfType(identifiers, Isbn10Type)
    ensures isbn13 == IdentifierOfType(identifiers, Isbn13Type)
  {
    isbn10, isbn13 := None, None;
    if identifiers.Some? {
      var ids := identifiers.value;
      for i := 0 to |ids|
        invariant isbn10 == LastIdentifier(ids[..i], Isbn10Type)
        invariant isbn13 == LastIdentifier(ids[..i], Isbn13Type)
      {
        assert ids[..i + 1][..i] == ids[..i];
        if ids[i].idType == Some(Isbn10Type) {
          isbn10 := ids[i].identifier;
        } else if ids[i].idType == Some(Isbn13Type) {
          isbn13 := ids[i].identifier;
        }
      }
      assert ids[..|ids|] == ids;
    }
  }

  // ---------------------------------------------------------------------
  // Volume mapping
  // ---------------------------------------------------------------------

  /** The `BookDetails` that `mapVolumeToBookDetails` builds for a volume. */
  function VolumeDetails(volume: G.Volume): (d: BookDetails)
    ensures d.id == volume.id && d.provider == GoogleBooks
    ensures volume.volumeInfo.title.Some? ==> d.title == volume.volumeInfo.title.value
  {
    var info := volume.volumeInfo;
    BookDetails(
      id := volume.id,
      title := GetOr(info.title, UnknownTitle),
      authors := info.authors,
      publisher := info.publisher,
      publishedDate := info.publishedDate,
      description := info.description,
      pageCount := info.pageCount,
      averageRating := info.averageRating,
      ratingsCount := info.ratingsCount,
      categories := info.categories,
      imageLinks := MapImageLinks(info.imageLinks),
      isbn10 := IdentifierOfType(info.industryIdentifiers, Isbn10Type),
      isbn13 := IdentifierOfType(info.industryIdentifiers, Isbn13Type),
      provider := GoogleBooks)
  }

  /** `mapVolumeToBookDetails`. */
  method MapVolumeToBookDetails(volume: G.Volume) returns (details: BookDetails)
    ensures details == VolumeDetails(volume)
  {
    var info := volume.volumeInfo;
    var isbn10, isbn13 := ExtractIsbns(info.industryIdentifiers);
    var imageLinks: Option<BookImageLinks> := None;
    if info.imageLinks.Some? {
      var links := info.imageLinks.value;
      imageLinks := Some(BookImageLinks(
        thumbnail := CleanUrl(OrElse(links.thumbnail, links.smallThumbnail)),
        small := CleanUrl(links.small),
        medium := CleanUrl(links.medium),
        large := CleanUrl(OrElse(links.large, links.extraLarge))));
    }
    details := BookDetails(
      id := volume.id,
      title := GetOr(info.title, UnknownTitle),
      authors := info.authors,
      publisher := info.publisher,
      publishedDate := info.publishedDate,
      description := info.description,
      pageCount := info.pageCount,
      averageRating := info.averageRating,
      ratingsCount := info.ratingsCount,
      categories := info.categories,
      imageLinks := imageLinks,
      isbn10 := isbn10,
      isbn13 := isbn13,
      provider := GoogleBooks);
  }

  /** The `compactMap` closure of `search`: nil for a volume without a title. */
  function MapVolume(volume: G.Volume): (r: Option<BookSearchResult>)
    ensures r.Some? <==> volume.volumeInfo.title.Some?
    ensures r.Some? ==> ResultId(r.value) == r.value.details.id == volume.id
    ensures r.Some? ==> r.value.book.title == r.value.details.title == volume.volumeInfo.title.value
    ensures r.Some? ==> r.value.details.provider == GoogleBooks
  {
    var info := volume.volumeInfo;
    match info.title
    case None => None
    case Some(title) =>
      var coverLink := CleanUrl(if info.imageLinks.Some? then info.imageLinks.value.thumbnail else None);
      var book := Book(
        id := volume.id,
        title := title,
        author := GetOr(FirstOf(info.authors), UnknownAuthor),
        cover := coverLink);
      Some(BookSearchResult(book, VolumeDetails(volume)))
  }

  /** The summary's author is the first listed author, or the placeholder when there is none. */
  lemma BookAuthor(volume: G.Volume)
    requires volume.volumeInfo.title.Some?
    ensures var authors := volume.volumeInfo.authors;
            MapVolume(volume).value.book.author
              == if authors.Some? && authors.value != [] then authors.value[0] else UnknownAuthor
  {
  }

  /**
   * The summary's cover comes from `thumbnail` only, while the detail
   * record's thumbnail tier falls back to `smallThumbnail`.
   */
  lemma BookCoverFromThumbnailOnly(volume: G.Volume)
    requires volume.volumeInfo.title.Some? && volume.volumeInfo.imageLinks.Some?
    ensures var l := volume.volumeInfo.imageLinks.value;
            var r := MapVolume(volume).value;
            && r.book.cover == CleanUrl(l.thumbnail)
            && (l.thumbnail.Some? ==> r.book.cover == r.details.imageLinks.value.thumbnail)
            && (l.thumbnail.None? && l.smallThumbnail.Some? ==>
                  r.book.cover.None? && r.details.imageLinks.value.thumbnail.Some?)
  {
  }

  /** Every source field without a mapping rule is copied unchanged. */
  lemma DetailsCopyFields(volume: G.Volume)
    ensures var d := VolumeDetails(volume);
            var info := volume.volumeInfo;
            && d.authors == info.authors && d.publisher == info.publisher
            && d.publishedDate == info.publishedDate && d.description == info.description
            && d.pageCount == info.pageCount && d.averageRating == info.averageRating
            && d.ratingsCount == info.ratingsCount && d.categories == info.categories
  {
  }

  /** The results of a decoded response: one per titled volume, in order. */
  function MapItems(items: seq<G.Volume>): (r: seq<BookSearchResult>)
    ensures |r| <= |items|
  {
    CompactMap(items, MapVolume)
  }

  /** Results of consecutive runs of volumes follow each other. */
  lemma MapItemsAppend(xs: seq<G.Volume>, ys: seq<G.Volume>)
    ensures MapItems(xs + ys) == MapItems(xs) + MapItems(ys)
  {
    CompactMapAppend(xs, ys, MapVolume);
  }

  /** A single volume yields its result when it has a title, and nothing otherwise. */
  lemma MapItemsSingle(volume: G.Volume)
    ensures MapItems([volume]) == if volume.volumeInfo.title.Some? then [MapVolume(volume).value] else []
  {
    CompactMapSingle(volume, MapVolume);
  }

  /** When every volume has a title nothing is dropped; an empty `items` gives no results and no error. */
  lemma MapItemsAllTitled(items: seq<G.Volume>)
    requires forall i | 0 <= i < |items| :: items[i].volumeInfo.title.Some?
    ensures |MapItems(items)| == |items|
    ensures forall i | 0 <= i < |items| :: MapItems(items)[i] == MapVolume(items[i]).value
  {
    CompactMapTotal(items, MapVolume);
  }

  /** Every result comes from a titled volume with the same id and title; the "Unknown" title never shows. */
  lemma MapItemsFromTitled(items: seq<G.Volume>, k: nat)
    requires k < |MapItems(items)|
    ensures var r := MapItems(items)[k];
            && r.details.title == r.book.title
            && exists i | 0 <= i < |items| ::
                 items[i].volumeInfo.title == Some(r.book.title) && items[i].id == r.book.id
  {
    CompactMapFrom(items, MapVolume, k);
  }

  // ---------------------------------------------------------------------
  // search(query:)
  // ---------------------------------------------------------------------

  /** The request: fixed scheme, host and path with `q` and `key` query items. */
  function RequestComponents(query: string, apiKey: string): (c: UrlComponents)
    ensures c.queryItems == [QueryItem("q", query), QueryItem("key", apiKey)]
  {
    UrlComponents(Scheme, Host, Path, [QueryItem("q", query), QueryItem("key", apiKey)])
  }

  /**
   * `search(query:)`, with the configured key, the effects and the decoder as
   * inputs. The key is checked before anything else, so a missing key fails
   * whatever the network would have done; then the URL, the fetch and the
   * decoding are tried in that order, and a decoded response is mapped
   * without a no-results check.
   */
  method Search(query: string, apiKey: Option<string>, transport: Transport, decode: Bytes -> DecodeOutcome<G.Response>)
    returns (r: Result<seq<BookSearchResult>, BookSearchError>)
    ensures r.Failure? ==> r.error != NoResults
    ensures apiKey.None? || apiKey.value == "" ==> r == Failure(ApiKeyMissing)
    ensures apiKey.Some? && apiKey.value != "" ==>
      match transport.resolve(RequestComponents(query, apiKey.value))
      case None => r == Failure(InvalidURL)
      case Some(url) =>
        match transport.fetch(url)
        case TransportFailure(c) => r == Failure(NetworkError(c))
        case Fetched(data) =>
          match decode(data)
          case DecodeFailure(c) => r == Failure(DecodingError(c))
          case Decoded(response) => r == Success(MapItems(response.items))
  {
    if apiKey.None? || apiKey.value == "" {
      return Failure(ApiKeyMissing);
    }
    var key := apiKey.value;

    var components := UrlComponents("", "", "", []);
    components := components.(scheme := Scheme);
    components := components.(host := Host);
    components := components.(path := Path);
    components := components.(queryItems := [QueryItem("q", query), QueryItem("key", key)]);

    var url := transport.resolve(components);
    if url.None? {
      return Failure(InvalidURL);
    }

    var fetched := transport.fetch(url.value);
    if fetched.TransportFailure? {
      return Failure(NetworkError(fetched.cause));
    }

    var decoded := decode(fetched.data);
    if decoded.DecodeFailure? {
      return Failure(DecodingError(decoded.cause));
    }

    return Success(MapItems(decoded.response.items));
  }
}
