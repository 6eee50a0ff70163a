/**
 * The decoded JSON shape of an Open Library search, with the derived work id
 * and ISBN accessors of a result document. JSON keys such as `author_name`
 * are written in camel case here.
 */
module OpenLibraryResponse {
  import opened Wrappers
  import opened Strings

  datatype Response = Response(numFound: int, start: int, docs: seq<Doc>)

  datatype Doc = Doc(
    key: string,
    title: string,
    authorName: Option<seq<string>>,
    firstPublishYear: Option<int>,
    numberOfPagesMedian: Option<int>,
    coverI: Option<int>,
    isbn: Option<seq<string>>,
    publisher: Option<seq<string>>,
    subject: Option<seq<string>>,
    ratingsAverage: Option<real>,
    ratingsCount: Option<int>)

  const WorksPrefix := "/works/"

  /** `workId`: the key with every `/works/` deleted. */
  function WorkId(doc: Doc): (r: string)
    ensures |r| <= |doc.key|
  {
    ReplaceAllShrinks(doc.key, WorksPrefix);
    ReplaceAll(doc.key, WorksPrefix, "")
  }

  /** A key of the documented form `/works/<id>` gives `<id>`. */
  lemma WorkIdOfWorkKey(doc: Doc, id: string)
    requires doc.key == WorksPrefix + id
    requires !Contains(id, WorksPrefix)
    ensures WorkId(doc) == id
  {
    ReplaceAllFirst([], WorksPrefix, id, "");
    assert [] + WorksPrefix + id == doc.key;
    ReplaceAllAbsent(id, WorksPrefix, "");
  }

  /** The example key given in the doc comment of `key`. */
  lemma WorkIdExample(doc: Doc)
    requires doc.key == "/works/OL45804W"
    ensures WorkId(doc) == "OL45804W"
  {
    var id := "OL45804W";
    forall i: nat | i <= |id| ensures !OccursAt(id, WorksPrefix, i) {
      if i + |WorksPrefix| <= |id| {
        assert id[i] != WorksPrefix[0];
      }
    }
    WorkIdOfWorkKey(doc, id);
  }

  /** Deletion is not limited to a leading prefix. */
  lemma WorkIdDeletesInnerOccurrence(doc: Doc)
    requires doc.key == "x/works/y"
    ensures WorkId(doc) == "xy"
  {
    assert doc.key == "x" + WorksPrefix + "y";
    assert !OccursAt(doc.key, WorksPrefix, 0) by {
      assert doc.key[0] != WorksPrefix[0];
    }
    ReplaceAllFirst("x", WorksPrefix, "y", "");
  }

  /** A key without `/works/` is its own id. */
  lemma WorkIdPlainKey(doc: Doc)
    requires !Contains(doc.key, WorksPrefix)
    ensures WorkId(doc) == doc.key
  {
    ReplaceAllAbsent(doc.key, WorksPrefix, "");
  }

  /** `xs.first { $0.count == n }`: selection by length alone, with no check of the characters. */
  function FirstWithLength(xs: seq<string>, n: nat): (r: Option<string>)
    ensures r.Some? <==> exists k | 0 <= k < |xs| :: |xs[k]| == n
    ensures r.Some? ==> exists k | 0 <= k < |xs| ::
              xs[k] == r.value && |xs[k]| == n && forall j | 0 <= j < k :: |xs[j]| != n
  {
    if xs == [] then None
    else if |xs[0]| == n then Some(xs[0])
    else
      var r := FirstWithLength(xs[1..], n);
      assert forall k | 1 <= k < |xs| :: xs[k] == xs[1..][k - 1];
      r
  }

  /** `isbn10`: the first ISBN of exactly 10 characters. */
  function Isbn10(doc: Doc): (r: Option<string>)
    ensures r.Some? ==> doc.isbn.Some? && r.value in doc.isbn.value && |r.value| == 10
    ensures r.None? <==> doc.isbn.None? || forall k | 0 <= k < |doc.isbn.value| :: |doc.isbn.value[k]| != 10
  {
    if doc.isbn.Some? then FirstWithLength(doc.isbn.value, 10) else None
  }

  /** `isbn13`: the first ISBN of exactly 13 characters. */
  function Isbn13(doc: Doc): (r: Option<string>)
    ensures r.Some? ==> doc.isbn.Some? && r.value in doc.isbn.value && |r.value| == 13
    ensures r.None? <==> doc.isbn.None? || forall k | 0 <= k < |doc.isbn.value| :: |doc.isbn.value[k]| != 13
  {
    if doc.isbn.Some? then FirstWithLength(doc.isbn.value, 13) else None
  }

  /** Both accessors are nil when the doc has no ISBN list. */
  lemma IsbnsWithoutList(doc: Doc)
    requires doc.isbn.None?
    ensures Isbn10(doc).None? && Isbn13(doc).None?
  {
  }

  /** Any ten-character string qualifies, whatever its characters; a 12-digit string qualifies for neither. */
  lemma IsbnByLengthOnly(doc: Doc)
    requires doc.isbn == Some(["978014044913", "ABCDEFGHIJ"])
    ensures Isbn10(doc) == Some("ABCDEFGHIJ")
    ensures Isbn13(doc) == None
  {
    var xs := doc.isbn.value;
    assert |xs[0]| == 12 && |xs[1]| == 10;
    assert FirstWithLength(xs[1..], 10) == Some("ABCDEFGHIJ");
  }
}
