/**
 * Navigation: the app's destinations with their tab-bar icons, the
 * `Hashable` identity of a book destination, and the router holding the
 * navigation stack.
 */
module Navigation {
  import opened Books

  datatype Route =
    | Home
    | Search
    | BookDetailsRoute(details: BookDetails)
    | Profile
    | Authentication

  /** `icon`: only the three tab destinations have one. */
  function Icon(r: Route): string
  {
    match r
    case Home => "books.vertical"
    case Search => "magnifyingglass.circle"
    case Profile => "person"
    case BookDetailsRoute(_) => ""
    case Authentication => ""
  }

  /** `selectedIcon`. */
  function SelectedIcon(r: Route): string
  {
    match r
    case Home => "books.vertical.fill"
    case Search => "magnifyingglass.circle.fill"
    case Profile => "person.fill"
    case BookDetailsRoute(_) => ""
    case Authentication => ""
  }

  /** A tab's selected icon is the filled variant of its icon; the other destinations have neither. */
  lemma SelectedIconIsFilled(r: Route)
    ensures Icon(r) == "" <==> r.BookDetailsRoute? || r.Authentication?
    ensures Icon(r) != "" ==> SelectedIcon(r) == Icon(r) + ".fill"
    ensures Icon(r) == "" ==> SelectedIcon(r) == ""
  {
  }

  /** The three tabs have distinct icons. */
  lemma TabIconsDistinct()
    ensures Icon(Home) != Icon(Search) && Icon(Search) != Icon(Profile) && Icon(Home) != Icon(Profile)
  {
    assert Icon(Home)[0] == 'b' && Icon(Search)[0] == 'm' && Icon(Profile)[0] == 'p';
  }

  /** `BookDetails.==`: two detail records are the same book when their ids agree. */
  predicate SameBook(a: BookDetails, b: BookDetails)
  {
    a.id == b.id
  }

  /** `BookDetails.hash(into:)`: only the id is fed to the hasher. */
  function HashKey(d: BookDetails): string
  {
    d.id
  }

  /** The synthesized `Route.==`, which compares book destinations with `SameBook`. */
  predicate SameRoute(a: Route, b: Route)
  {
    match (a, b)
    case (BookDetailsRoute(x), BookDetailsRoute(y)) => SameBook(x, y)
    case _ => a == b
  }

  /** `SameBook` is an equivalence, and equal books hash alike, as `Hashable` requires. */
  lemma SameBookIsEquivalence(a: BookDetails, b: BookDetails, c: BookDetails)
    ensures SameBook(a, a)
    ensures SameBook(a, b) ==> SameBook(b, a)
    ensures SameBook(a, b) && SameBook(b, c) ==> SameBook(a, c)
    ensures SameBook(a, b) <==> HashKey(a) == HashKey(b)
  {
  }

  /** Route equality is an equivalence too, and it ignores every field of a book but its id. */
  lemma SameRouteIsEquivalence(a: Route, b: Route, c: Route)
    ensures SameRoute(a, a)
    ensures SameRoute(a, b) ==> SameRoute(b, a)
    ensures SameRoute(a, b) && SameRoute(b, c) ==> SameRoute(a, c)
    ensures a.BookDetailsRoute? && b.BookDetailsRoute? ==> (SameRoute(a, b) <==> a.details.id == b.details.id)
    ensures SameRoute(a, b) && !a.BookDetailsRoute? ==> a == b
  {
  }

  /** The same work found through the two catalogs, by id, is one destination. */
  lemma SameRouteAcrossProviders(a: BookDetails, b: BookDetails)
    requires a.id == b.id && a.provider == GoogleBooks && b.provider == OpenLibrary
    ensures a != b
    ensures SameRoute(BookDetailsRoute(a), BookDetailsRoute(b))
  {
  }

  /** The stack after `pop()`: the last entry removed, or unchanged when empty. */
  function Popped(path: seq<Route>): (r: seq<Route>)
    ensures path == [] ==> r == []
    ensures path != [] ==> |r| == |path| - 1 && r == path[..|path| - 1]
  {
    if path == [] then [] else path[..|path| - 1]
  }

  /** Popping undoes navigating. */
  lemma PopUndoesNavigate(path: seq<Route>, route: Route)
    ensures Popped(path + [route]) == path
  {
    assert (path + [route])[..|path|] == path;
  }

  /** `Router`: the navigation stack, root first. */
  class Router {
    var path: seq<Route>

    constructor()
      ensures path == []
    {
      path := [];
    }

    /** `navigate(to:)`: pushes the destination. */
    method Navigate(route: Route)
      modifies this
      ensures path == old(path) + [route]
    {
      path := path + [route];
    }

    /** `pop()`: removes the top destination; nothing happens at the root. */
    method Pop()
      modifies this
      ensures path == Popped(old(path))
    {
      if path == [] {
        return;
      }
      path := path[..|path| - 1];
    }

    /** `popToRoot()`: clears the stack. */
    method PopToRoot()
      modifies this
      ensures path == []
    {
      path := [];
    }
  }
}
