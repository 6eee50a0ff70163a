/**
 * The canonical, provider-agnostic book model: the `Book` summary shown in
 * lists and the `BookDetails` record with its image links and provider tag.
 */
module Books {
  import opened Wrappers

  /** The minimal summary used for list rows. */
  datatype Book = Book(id: string, title: string, author: string, cover: Option<string>)

  /** The catalog that produced a record. */
  datatype BookProvider = GoogleBooks | OpenLibrary

  /** The enum's raw `String` value. */
  function ProviderRawValue(p: BookProvider): string
  {
    match p
    case GoogleBooks => "Google Books"
    case OpenLibrary => "Open Library"
  }

  /** Four optional cover URLs, smallest tier first. */
  datatype BookImageLinks = BookImageLinks(
    thumbnail: Option<string>,
    small: Option<string>,
    medium: Option<string>,
    large: Option<string>)

  /** `bestAvailable`: the largest tier present, or nil when every tier is absent. */
  function BestAvailable(links: BookImageLinks): (r: Option<string>)
    ensures links.large.Some? ==> r == links.large
    ensures links.large.None? && links.medium.Some? ==> r == links.medium
    ensures links.large.None? && links.medium.None? && links.small.Some? ==> r == links.small
    ensures links.large.None? && links.medium.None? && links.small.None? ==> r == links.thumbnail
    ensures r.None? <==> links.large.None? && links.medium.None? && links.small.None? && links.thumbnail.None?
    ensures r.Some? ==> r in {links.large, links.medium, links.small, links.thumbnail}
  {
    OrElse(links.large, OrElse(links.medium, OrElse(links.small, links.thumbnail)))
  }

  /** The canonical detail record. `averageRating` is carried as an opaque copied value. */
  datatype BookDetails = BookDetails(
    id: string,
    title: string,
    authors: Option<seq<string>>,
    publisher: Option<string>,
    publishedDate: Option<string>,
    description: Option<string>,
    pageCount: Option<int>,
    averageRating: Option<real>,
    ratingsCount: Option<int>,
    categories: Option<seq<string>>,
    imageLinks: Option<BookImageLinks>,
    isbn10: Option<string>,
    isbn13: Option<string>,
    provider: BookProvider)

  /** The two providers have distinct raw values, so the raw value identifies the provider. */
  lemma ProviderRawValueInjective(p: BookProvider, q: BookProvider)
    ensures ProviderRawValue(p) == ProviderRawValue(q) <==> p == q
  {
    if p != q {
      assert ProviderRawValue(p)[0] != ProviderRawValue(q)[0];
    }
  }
}
