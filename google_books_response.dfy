/** The decoded JSON shape of a Google Books volume search. */
module GoogleBooksResponse {
  import opened Wrappers

  datatype Response = Response(kind: string, items: seq<Volume>)

  datatype Volume = Volume(kind: string, id: string, etag: string, selfLink: string, volumeInfo: VolumeInfo)

  datatype VolumeInfo = VolumeInfo(
    title: Option<string>,
    authors: Option<seq<string>>,
    publisher: Option<string>,
    publishedDate: Option<string>,
    description: Option<string>,
    industryIdentifiers: Option<seq<IndustryIdentifier>>,
    pageCount: Option<int>,
    dimensions: Option<Dimensions>,
    printType: Option<string>,
    categories: Option<seq<string>>,
    mainCategory: Option<string>,
    averageRating: Option<real>,
    ratingsCount: Option<int>,
    contentVersion: Option<string>,
    imageLinks: Option<ImageLinks>)

  /** One entry of `industryIdentifiers`; the JSON key `type` is `idType` here. */
  datatype IndustryIdentifier = IndustryIdentifier(idType: Option<string>, identifier: Option<string>)

  datatype Dimensions = Dimensions(height: Option<string>, width: Option<string>, thickness: Option<string>)

  datatype ImageLinks = ImageLinks(
    smallThumbnail: Option<string>,
    thumbnail: Option<string>,
    small: Option<string>,
    medium: Option<string>,
    large: Option<string>,
    extraLarge: Option<string>)
}
