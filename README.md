# BetterReads book-search core in Dafny

BetterReads is an iOS reading-list app. Users search two online catalogs,
Google Books and Open Library, save books to lists and record their reading
progress. This project models the part of the app that holds its logic:

- the provider-agnostic book model (`Book`, `BookDetails`, `BookImageLinks`
  and its `bestAvailable` cover choice) and the search error set with its
  messages;
- the two search providers. Each runs a request pipeline and maps the
  decoded JSON into `BookSearchResult`s:
  - Google Books needs an API key, drops untitled volumes, cleans
    `&edge=curl` from cover URLs, applies image-tier fallbacks and runs an
    ISBN loop;
  - Open Library needs no key, rejects an empty result list, builds cover
    URLs from a numeric id, truncates subjects to five and picks ISBNs by
    length;
- the date-string parser, with its fixed formats and its auto-detection
  heuristic;
- the persistence payloads: `InsertUserBook` built from `BookDetails`, the
  status update, and the reading-progress fraction of a saved book;
- the `ReadingStatus` raw-value codec;
- navigation: routes and their tab icons, `BookDetails` equality by id, and
  the `Router` stack.

Modules follow the Swift files:

| module | models |
|---|---|
| `Books` | `BookDetails.swift` and `Book` |
| `SearchProvider` | `BookSearchProvider.swift` and the effect boundary |
| `GoogleBooksResponse`, `OpenLibraryResponse` | the decoded JSON shapes |
| `GoogleBooksProvider`, `OpenLibraryProvider` | the providers |
| `DateParsing` | `String+Extensions.swift` |
| `UserBooks` | `UserBook.swift` |
| `ReadingStatuses` | `ReadingStatus.swift` |
| `Navigation` | `Router.swift` |
| `Wrappers`, `Sequences`, `Strings` | the Swift and Foundation operations the code relies on |

The Swift and Foundation operations are modelled as follows:

- `??`, `first` and `compactMap` are modelled as written.
- `replacingOccurrences(of:with:)` is one leftmost, non-overlapping pass.
- `split(separator:)` omits empty pieces.
- `Int(String)` accepts an optional sign and ASCII digits within the 64-bit
  range.
- `String(Int)` is decimal text.

Side effects are inputs. A `Transport` value supplies URL parsing, URL
building and the HTTP fetch, each as a function. A decoder function supplies
the JSON decoding outcome. The Google Books API key is a parameter. Each
search is stated against these inputs, so the order in which its errors
arise is part of its contract. Google Books `search` is a guard-by-guard
method. Open Library `search` is a straight-line function. The ISBN loop is
a method proved against a last-wins specification function. `Router` is a
class whose `path` field the methods update.

Two details of the Google Books mapping:

- The ISBN loop overwrites on each match, so the last `ISBN_10`/`ISBN_13`
  entry wins, nil included (`LaterIsbnWins`).
- Removing `&edge=curl` is a single left-to-right pass and is not idempotent:
  `"&edge=&edge=curlcurl"` becomes `"&edge=curl"` (`CleanUrlNotIdempotent`).

Three further details of the code:

- A successful Google Books search may be empty. Only Open Library reports
  `noResults`.
- The stored `provider` string is the enum's raw value ("Google Books" or
  "Open Library"), not the case name. The field comment at
  `BetterReads/Supabase/UserBook.swift:20` says otherwise.
- `progressPercentage` caps the fraction at 1 but has no lower cap, so a
  negative current page gives a negative fraction.

## Model

| member | source | states |
|---|---|---|
| Books.ProviderRawValue | BetterReads/Search/BookDetails.swift:29-32 | `BookProvider.rawValue`: "Google Books" or "Open Library"; `ProviderRawValueInjective` states that it identifies the provider |
| Books.BestAvailable | BetterReads/Search/BookDetails.swift:43-45 | the cover is `large`, else `medium`, else `small`, else `thumbnail`; it is nil exactly when all four tiers are nil; otherwise it is one of the four fields, never new text |
| Books.ProviderRawValueInjective | BetterReads/Search/BookDetails.swift:29-32 | the raw values "Google Books" and "Open Library" differ, so equal raw values mean equal providers (both directions) |
| SearchProvider.ResultId | BetterReads/Search/BookSearchProvider.swift:25 | `BookSearchResult.id`, the summary's id; `MapVolume` and `MapDoc` state that it equals the details' id and the source id |
| SearchProvider.ErrorDescription | BetterReads/Search/BookSearchProvider.swift:36-49 | every error has a message; network and decoding errors prefix "Network error: " and "Failed to parse response: " to the cause's description |
| SearchProvider.FixedErrorMessages | BetterReads/Search/BookSearchProvider.swift:38-47 | `noResults`, `apiKeyMissing` and `invalidURL` have their fixed texts; a network error and a decoding error with the same cause read differently, and neither reads like a fixed message |
| OpenLibraryResponse.WorkId | BetterReads/Models/OpenLibraryResponse.swift:52-54 | `workId`, every `/works/` deleted from the key; the id is never longer than the key; the `WorkId…` lemmas below fix its text |
| Strings.ReplaceAll | BetterReads/Models/OpenLibraryResponse.swift:53 | `replacingOccurrences(of:with:)`, one leftmost non-overlapping pass; `ReplaceAllAbsent` and `ReplaceAllFirst` characterise it |
| OpenLibraryResponse.WorkIdOfWorkKey | BetterReads/Models/OpenLibraryResponse.swift:52-54 | a key `/works/<id>` gives `<id>` when `<id>` holds no further `/works/` |
| OpenLibraryResponse.WorkIdExample | BetterReads/Models/OpenLibraryResponse.swift:18-54 | the key "/works/OL45804W" from the doc comment of `key` gives "OL45804W" |
| OpenLibraryResponse.WorkIdDeletesInnerOccurrence | BetterReads/Models/OpenLibraryResponse.swift:53 | `/works/` is deleted wherever it occurs, not only as a prefix ("x/works/y" gives "xy") |
| OpenLibraryResponse.WorkIdPlainKey | BetterReads/Models/OpenLibraryResponse.swift:53 | a key without `/works/` is returned unchanged |
| OpenLibraryResponse.FirstWithLength | BetterReads/Models/OpenLibraryResponse.swift:57-64 | a value is found exactly when some element has the length; the value is that element and no earlier element has the length |
| OpenLibraryResponse.Isbn10 | BetterReads/Models/OpenLibraryResponse.swift:57-59 | `isbn10`: a present value is an element of `isbn` with 10 characters; it is nil exactly when `isbn` is nil or has no such element |
| OpenLibraryResponse.Isbn13 | BetterReads/Models/OpenLibraryResponse.swift:62-64 | `isbn13`: a present value is an element of `isbn` with 13 characters; it is nil exactly when `isbn` is nil or has no such element |
| OpenLibraryResponse.IsbnsWithoutList | BetterReads/Models/OpenLibraryResponse.swift:57-64 | with no `isbn` array both `isbn10` and `isbn13` are nil |
| OpenLibraryResponse.IsbnByLengthOnly | BetterReads/Models/OpenLibraryResponse.swift:57-64 | selection checks length only: "ABCDEFGHIJ" is an ISBN-10, and a 12-character entry is neither kind |
| GoogleBooksProvider.CleanUrl | BetterReads/Search/Providers/GoogleBooksProvider.swift:95-97 | a URL stays present exactly when given, and cleaning never lengthens it |
| GoogleBooksProvider.CleanUrlKeepsPlainUrl | BetterReads/Search/Providers/GoogleBooksProvider.swift:95-97 | a URL without `&edge=curl` is unchanged |
| GoogleBooksProvider.CleanUrlCutsParameter | BetterReads/Search/Providers/GoogleBooksProvider.swift:95-97 | the first `&edge=curl` is cut out, the text before it is kept, and the rest is cleaned the same way |
| GoogleBooksProvider.CleanUrlNotIdempotent | BetterReads/Search/Providers/GoogleBooksProvider.swift:58-59 | cleaning twice differs from cleaning once: "&edge=&edge=curlcurl" becomes "&edge=curl", then "" |
| GoogleBooksProvider.MapImageLinks | BetterReads/Search/Providers/GoogleBooksProvider.swift:92-105 | the details carry image links exactly when the volume has them |
| GoogleBooksProvider.MapImageLinksTiers | BetterReads/Search/Providers/GoogleBooksProvider.swift:99-104 | thumbnail is the cleaned `thumbnail ?? smallThumbnail`, small and medium the cleaned same field, large the cleaned `large ?? extraLarge`; each tier is nil exactly when its source fields are |
| GoogleBooksProvider.BestAvailableOfMappedLinks | BetterReads/Search/Providers/GoogleBooksProvider.swift:99-104 | the saved cover of a Google record is the cleaned first present of large, extraLarge, medium, small, thumbnail, smallThumbnail |
| GoogleBooksProvider.LastIdentifier | BetterReads/Search/Providers/GoogleBooksProvider.swift:79-89 | the last-wins reference for the ISBN loop: a present value is the identifier of some entry of the type |
| GoogleBooksProvider.IdentifierOfType | BetterReads/Search/Providers/GoogleBooksProvider.swift:81 | `LastIdentifier` over the optional `industryIdentifiers`, nil when the array is nil; `ExtractIsbns` is proved equal to it |
| GoogleBooksProvider.LastIdentifierIsLast | BetterReads/Search/Providers/GoogleBooksProvider.swift:79-89 | the identifier of the last entry of the type is the result, nil included |
| GoogleBooksProvider.LastIdentifierAbsent | BetterReads/Search/Providers/GoogleBooksProvider.swift:79-89 | with no entry of the type the result is nil |
| GoogleBooksProvider.LaterIsbnWins | BetterReads/Search/Providers/GoogleBooksProvider.swift:82-88 | of two ISBN_10 entries the second wins; a later nil identifier erases the first |
| GoogleBooksProvider.ExtractIsbns | BetterReads/Search/Providers/GoogleBooksProvider.swift:79-89 | the loop yields, for ISBN_10 and ISBN_13, the identifier of the last entry of that type; other types are ignored |
| GoogleBooksProvider.VolumeDetails | BetterReads/Search/Providers/GoogleBooksProvider.swift:107-122 | the details keep the volume id and its title when present, and name Google Books as provider |
| GoogleBooksProvider.MapVolumeToBookDetails | BetterReads/Search/Providers/GoogleBooksProvider.swift:75-123 | the step-by-step construction equals the specification `VolumeDetails` |
| GoogleBooksProvider.MapVolume | BetterReads/Search/Providers/GoogleBooksProvider.swift:53-71 | a volume gives a result exactly when it has a title; result id (`BookSearchResult.id`), details id and volume id agree; the summary and details share the source title; the provider is Google Books |
| GoogleBooksProvider.BookAuthor | BetterReads/Search/Providers/GoogleBooksProvider.swift:64 | the author is the first listed, or "Unknown Author" when the list is missing or empty |
| GoogleBooksProvider.BookCoverFromThumbnailOnly | BetterReads/Search/Providers/GoogleBooksProvider.swift:58-59 | the summary cover is the cleaned `thumbnail` with no `smallThumbnail` fallback, unlike the details' thumbnail tier |
| GoogleBooksProvider.DetailsCopyFields | BetterReads/Search/Providers/GoogleBooksProvider.swift:107-122 | authors, publisher, date, description, page count, rating, rating count and categories are copied unchanged |
| GoogleBooksProvider.MapItems | BetterReads/Search/Providers/GoogleBooksProvider.swift:53-71 | the `compactMap` over `items`: never more results than volumes; the `MapItems…` lemmas below fix which and in what order |
| GoogleBooksProvider.MapItemsAppend | BetterReads/Search/Providers/GoogleBooksProvider.swift:53-71 | results keep source order: the results of two runs of volumes are concatenated |
| GoogleBooksProvider.MapItemsSingle | BetterReads/Search/Providers/GoogleBooksProvider.swift:53-56 | a single volume contributes its result when titled and nothing otherwise |
| GoogleBooksProvider.MapItemsAllTitled | BetterReads/Search/Providers/GoogleBooksProvider.swift:53-71 | with every volume titled nothing is dropped and result `i` maps volume `i`; empty `items` gives an empty list, not an error |
| GoogleBooksProvider.MapItemsFromTitled | BetterReads/Search/Providers/GoogleBooksProvider.swift:53-71 | every result comes from a titled volume with the same id and title, so the "Unknown" title never reaches a result |
| GoogleBooksProvider.RequestComponents | BetterReads/Search/Providers/GoogleBooksProvider.swift:25-32 | the request carries the query items `q` and `key`, in that order |
| GoogleBooksProvider.Search | BetterReads/Search/Providers/GoogleBooksProvider.swift:20-72 | it never fails with `noResults`; a missing or empty key fails with `apiKeyMissing` before any effect; otherwise URL building, fetch and decode failures give `invalidURL`, `networkError` and `decodingError` in that order; a decoded response gives the mapped titled volumes |
| OpenLibraryProvider.CoverUrl | BetterReads/Search/Providers/OpenLibraryProvider.swift:75-78 | the interpolated cover URL: the cover base and `/`, the id, then `-<size>.jpg` |
| Strings.IntToString | BetterReads/Search/Providers/OpenLibraryProvider.swift:83 | `String(Int)` / interpolation of an `Int`: non-empty decimal text; `ParseIntToString` and `IntToStringInjective` are its partners |
| OpenLibraryProvider.CoverUrlInjective | BetterReads/Search/Providers/OpenLibraryProvider.swift:72-80 | a cover URL determines its cover id and size letter |
| OpenLibraryProvider.CoverImageLinksTiers | BetterReads/Search/Providers/OpenLibraryProvider.swift:72-80 | thumbnail and small are the same `-S` image, medium `-M`, large `-L`, all on the same cover id, and the three URLs differ |
| OpenLibraryProvider.CoverImageLinks | BetterReads/Search/Providers/OpenLibraryProvider.swift:72-80 | image links exist exactly when `cover_i` does |
| OpenLibraryProvider.Categories | BetterReads/Search/Providers/OpenLibraryProvider.swift:95 | categories exist exactly when subjects do, number min(5, subjects) and are a prefix of the subjects |
| OpenLibraryProvider.PublishedDate | BetterReads/Search/Providers/OpenLibraryProvider.swift:83 | a published date exists exactly when a first-publish year does |
| OpenLibraryProvider.PublishedDateReadsBack | BetterReads/Search/Providers/OpenLibraryProvider.swift:83 | the date text parses back to the year |
| OpenLibraryProvider.DocDetails | BetterReads/Search/Providers/OpenLibraryProvider.swift:70-101 | the details carry the work id, the doc title, the raw author list, the first publisher and no description, and name Open Library as provider |
| OpenLibraryProvider.DocDetailsFields | BetterReads/Search/Providers/OpenLibraryProvider.swift:83-98 | page count, rating and rating count are copied; categories are the first min(5, n) subjects; the published date reads back as the year; image links exist exactly with `cover_i`, with the `-L` image as large; the ISBNs are the doc's `isbn10`/`isbn13`, of length 10 and 13 |
| OpenLibraryProvider.MapDoc | BetterReads/Search/Providers/OpenLibraryProvider.swift:51-66 | every doc gives a result; result id, details id and work id agree; both titles are the doc title; the author is the first author name or "Unknown Author" |
| OpenLibraryProvider.BookCoverIsMediumTier | BetterReads/Search/Providers/OpenLibraryProvider.swift:52-80 | the summary cover is the `-M` medium tier of the details, and both are absent without `cover_i` |
| OpenLibraryProvider.BestAvailableIsLarge | BetterReads/Search/Providers/OpenLibraryProvider.swift:72-80 | the saved cover of an Open Library record is its `-L` image |
| OpenLibraryProvider.CategoriesTruncate | BetterReads/Search/Providers/OpenLibraryProvider.swift:95 | eight subjects become the first five, in order |
| OpenLibraryProvider.MapDocs | BetterReads/Search/Providers/OpenLibraryProvider.swift:51-66 | the `compactMap` over `docs`: exactly one result per doc |
| OpenLibraryProvider.MapDocsOnePerDoc | BetterReads/Search/Providers/OpenLibraryProvider.swift:51-66 | nothing is dropped: result `i` maps doc `i` |
| OpenLibraryProvider.RequestComponents | BetterReads/Search/Providers/OpenLibraryProvider.swift:19-26 | the request keeps the parsed endpoint and carries `q` and `limit=20` |
| OpenLibraryProvider.Search | BetterReads/Search/Providers/OpenLibraryProvider.swift:18-67 | a successful search is never empty |
| OpenLibraryProvider.SearchFailsEarly | BetterReads/Search/Providers/OpenLibraryProvider.swift:18-45 | URL parsing or building fails with `invalidURL`, the fetch with `networkError`, decoding with `decodingError`, checked in that order |
| OpenLibraryProvider.SearchDecoded | BetterReads/Search/Providers/OpenLibraryProvider.swift:47-66 | a decoded response with no docs fails with `noResults`; otherwise the results are one per doc, in order |
| DateParsing.FormatDescription | BetterReads/Util/String+Extensions.swift:24-31 | `DateFormat.description`, the display text of a format; see `AllFormatsDescribed` |
| DateParsing.AllFormatsDescribed | BetterReads/Util/String+Extensions.swift:18-31 | `allCases` (the `AllFormats` constant) lists each of the four formats once, and distinct formats have distinct descriptions (both directions) |
| Strings.Split | BetterReads/Util/String+Extensions.swift:40 | `split(separator:)` with empty pieces omitted; `PiecesWithoutSeparator` and `PiecesAroundSeparator` determine the pieces, and `SplitWithoutSeparator`, `SplitThree` and `SplitLength` state its behaviour on separator-free and three-field text |
| Strings.ParseInt | BetterReads/Util/String+Extensions.swift:69 | `Int(String)`: a present value comes from an optional sign and ASCII digits and lies in the 64-bit range; `ParseIntToString` is its round trip |
| DateParsing.ParseDateComponents | BetterReads/Util/String+Extensions.swift:38-60 | `parseDateComponents(format:)`; `ParseShape` and `ParseFormatted` state its part count, field placement and round trip |
| DateParsing.ParseDateComponentsAutoDetect | BetterReads/Util/String+Extensions.swift:64-99 | `parseDateComponentsAutoDetect()`: a detected result is exactly the parse in the detected format; the `AutoDetect…` lemmas state which format is chosen |
| DateParsing.DateYear | BetterReads/Util/String+Extensions.swift:102-104 | `dateYear`, the year of the auto-detected components; see `DateFieldsOfFormatted` and `DateFieldsTogether` |
| DateParsing.DateMonth | BetterReads/Util/String+Extensions.swift:107-109 | `dateMonth`, the month of the auto-detected components; see `DateFieldsOfFormatted` and `DateFieldsTogether` |
| DateParsing.DateDay | BetterReads/Util/String+Extensions.swift:112-114 | `dateDay`, the day of the auto-detected components; see `DateFieldsOfFormatted` and `DateFieldsTogether` |
| DateParsing.FormattedParts | BetterReads/Util/String+Extensions.swift:39-40 | the separator is `/` when present, else `-`; a date written with plain fields splits back into those fields |
| DateParsing.ParseFormatted | BetterReads/Util/String+Extensions.swift:38-60 | parsing a written-out date in its own format returns its fields, with either separator (round trip) |
| DateParsing.ParseShape | BetterReads/Util/String+Extensions.swift:42-59 | the three-field formats succeed exactly with three parts; a bare year has four characters and month and day "01" |
| DateParsing.AutoDetectYearOnly | BetterReads/Util/String+Extensions.swift:68-73 | year-only detection happens exactly for a four-character integer text without `-`, giving that year on January 1st |
| DateParsing.AutoDetectThreeParts | BetterReads/Util/String+Extensions.swift:75-98 | with three parts: a four-character first part is year-month-day; else a four-character last part is day-month-year when the first part is an integer above 12, month-day-year otherwise; else nothing |
| DateParsing.AutoDetectOtherCounts | BetterReads/Util/String+Extensions.swift:75-98 | part counts other than 1 and 3 detect nothing, and one part can only be a bare year |
| DateParsing.AutoDetectFormatted | BetterReads/Util/String+Extensions.swift:64-99 | a written-out date the heuristic can recognise is detected in its own format with its own fields |
| DateParsing.DateFieldsOfFormatted | BetterReads/Util/String+Extensions.swift:101-114 | `dateYear`, `dateMonth` and `dateDay` of such a date are its fields |
| DateParsing.DateFieldsTogether | BetterReads/Util/String+Extensions.swift:101-114 | the three accessors are present exactly when auto-detection succeeds |
| UserBooks.ProgressPercentage | BetterReads/Supabase/UserBook.swift:50-53 | 0 without a positive page count or a current page; never above 1; current/total when current ≤ total; 1 from the last page on; non-negative exactly for a non-negative current page |
| UserBooks.NewInsertUserBook | BetterReads/Supabase/UserBook.swift:81-90 | `InsertUserBook.init(userId:bookDetails:status:)`; `InsertUserBookFromDetails` and `InsertUserBookProvider` state what it copies and derives |
| UserBooks.InsertUserBookFromDetails | BetterReads/Supabase/UserBook.swift:81-90 | the payload copies user, status, id, title, authors and page count; its cover is nil exactly when there are no links or all tiers are nil, and is `large` when present |
| UserBooks.InsertUserBookProvider | BetterReads/Supabase/UserBook.swift:89 | the stored provider is "Google Books" or "Open Library", never the case name, and it tells the providers apart (both directions) |
| UserBooks.StatusUpdateCarriesStatus | BetterReads/Supabase/UserBook.swift:103-106 | the status update carries the given status, and it decodes back from its raw value |
| ReadingStatuses.RawValue | BetterReads/Models/ReadingStatus.swift:11-14 | the stored raw values; `RawValueRoundTrip` and `FromRawValueOnlyRawValues` state the codec |
| ReadingStatuses.DisplayTitle | BetterReads/Models/ReadingStatus.swift:16-23 | `displayTitle`; `DisplayTitleInjective` states that the titles are distinct |
| ReadingStatuses.FromRawValue | BetterReads/Models/ReadingStatus.swift:10-14 | a decoded status has exactly the raw text it was decoded from |
| ReadingStatuses.RawValueRoundTrip | BetterReads/Models/ReadingStatus.swift:10-14 | decoding an encoded status returns it |
| ReadingStatuses.FromRawValueOnlyRawValues | BetterReads/Models/ReadingStatus.swift:10-14 | exactly the four raw values decode |
| ReadingStatuses.AllCasesOnceEach | BetterReads/Models/ReadingStatus.swift:10-14 | `allCases` lists every status, each once |
| ReadingStatuses.DisplayTitleInjective | BetterReads/Models/ReadingStatus.swift:16-23 | the four display titles are distinct |
| Navigation.Icon | BetterReads/Navigation/Router.swift:18-29 | `Route.icon`; `SelectedIconIsFilled` and `TabIconsDistinct` state its table |
| Navigation.SelectedIcon | BetterReads/Navigation/Router.swift:31-42 | `Route.selectedIcon`; `SelectedIconIsFilled` relates it to `icon` |
| Navigation.SelectedIconIsFilled | BetterReads/Navigation/Router.swift:18-42 | only book details and authentication have an empty icon; a tab's selected icon is its icon plus ".fill"; the others have none |
| Navigation.TabIconsDistinct | BetterReads/Navigation/Router.swift:18-29 | the three tab icons differ |
| Navigation.SameBook | BetterReads/Navigation/Router.swift:68-70 | `BookDetails ==`, comparing ids only; `SameBookIsEquivalence` states its laws |
| Navigation.HashKey | BetterReads/Navigation/Router.swift:72-74 | `hash(into:)`, which feeds only the id; `SameBookIsEquivalence` states its agreement with `==` |
| Navigation.SameRoute | BetterReads/Navigation/Router.swift:11-16 | the synthesized `Route ==`; `SameRouteIsEquivalence` states its laws |
| Navigation.SameBookIsEquivalence | BetterReads/Navigation/Router.swift:67-74 | equality by id is an equivalence, and equal books hash alike (both directions) |
| Navigation.SameRouteIsEquivalence | BetterReads/Navigation/Router.swift:11-16 | route equality is an equivalence; two book routes are equal exactly when their ids are; other routes compare structurally |
| Navigation.SameRouteAcrossProviders | BetterReads/Navigation/Router.swift:67-70 | records that differ in provider but share an id are the same destination |
| Navigation.Popped | BetterReads/Navigation/Router.swift:55-58 | popping removes the last entry and keeps the prefix; the empty stack stays empty |
| Navigation.PopUndoesNavigate | BetterReads/Navigation/Router.swift:51-58 | navigating then popping restores the previous stack |
| Navigation.Router.constructor | BetterReads/Navigation/Router.swift:49 | a new router has an empty stack |
| Navigation.Router.Navigate | BetterReads/Navigation/Router.swift:51-53 | the route is appended and the earlier entries are kept |
| Navigation.Router.Pop | BetterReads/Navigation/Router.swift:55-58 | the stack becomes `Popped` of the old stack, so nothing changes at the root |
| Navigation.Router.PopToRoot | BetterReads/Navigation/Router.swift:60-62 | the stack is emptied |

## Left out

- The `BookSearchProvider` protocol's dynamic dispatch: each provider's `search` is modelled directly.
- `URLSession`, `JSONDecoder`, `URLComponents` and the `Bundle` lookup of the API key are foreign code. Their outcomes are parameters: the `Transport` functions, the decoder function and the optional key.
- The `async` execution of `search`: it is modelled as one synchronous computation.
- GoogleBooksProvider.Search: it does not model `URLComponents(string:)`, because the Google request is built from empty components. URL building is the `resolve` input.
- UserBooks.ProgressPercentage: it is computed over exact reals. The rounding of the `Double` division is not modelled.
- `averageRating` is an opaque copied value (`real`), with no floating-point behaviour.
- Swift `String.count` counts grapheme clusters. Here a string is a sequence of characters, so lengths are character counts.
- `String.contains` and `replacingOccurrences` have no locale or comparison options in the model. `Int(String)` accepts ASCII digits with an optional sign only.
- The `Date()` timestamps of `UpdateUserBookStatus` and `UpdateUserBookProgress` read the clock. Only the status and page fields are modelled.
- `UserBook`'s coding keys and JSON field names are not modelled. They are serialisation only.
- `@Observable`, `@MainActor` and SwiftUI's `NavigationPath` are modelled as a class holding a sequence of routes. The type erasure of `NavigationPath` is not modelled.
- Route equality is structural in the model, except for book routes (`SameRoute`). Swift's synthesized `Hashable` for `Route` is not modelled beyond that.
- `DateFormat.description` is modelled as `FormatDescription`, with no property stated beyond the distinctness in `AllFormatsDescribed`; the `DateComponents` integer accessors `yearInt`, `monthInt` and `dayInt` are unused integer conversions, modelled as `ParseInt` with no property stated.
- `DataController.swift` (the legacy network client), `ListType.swift`, the views, view models, view controllers, `LibraryService`, authentication and Supabase clients are not part of this model. They are presentation, backend SDK calls and concurrency.
