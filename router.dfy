/** Hash routing: renderSection's switch and setActiveNav's highlighting. */
module Router {

  /** The four views the main content region can show. */
  datatype View = Home | Feedback | About | Auth

  /** The route hash of each view. */
  function HashOf(v: View): (h: string)
    ensures h != "" && h[0] == '#'
  {
    match v
    case Home => "#home"
    case Feedback => "#feedback"
    case About => "#about"
    case Auth => "#auth"
  }

  /** renderSection's switch: '#home', '' and every unrecognised hash fall to home. */
  function ViewFor(hash: string): (v: View)
    ensures v != Home ==> hash == HashOf(v)
  {
    if hash == "#feedback" then Feedback
    else if hash == "#about" then About
    else if hash == "#auth" then Auth
    else Home
  }

  /** `hash || '#home'`: the href that setActiveNav highlights. */
  function ActiveHref(hash: string): (h: string)
    ensures h != ""
  {
    if hash == "" then "#home" else hash
  }

  /** A hash that one of the four views answers to. */
  predicate IsRouteHash(h: string) {
    h == "#home" || h == "#feedback" || h == "#about" || h == "#auth"
  }

  /** Each view's hash routes back to that view. */
  lemma ViewForHashOf(v: View)
    ensures ViewFor(HashOf(v)) == v
  {
  }

  /** A hash is rendered as its own view exactly when it is a route hash; anything else
      (the empty hash included) renders home, and the highlighted href then names the view
      shown only for '' and '#home'. */
  lemma HashOfViewFor(hash: string)
    ensures HashOf(ViewFor(hash)) == hash <==> IsRouteHash(hash)
    ensures !IsRouteHash(hash) ==> ViewFor(hash) == Home
    ensures HashOf(ViewFor(hash)) == ActiveHref(hash) <==> (hash == "" || IsRouteHash(hash))
  {
  }

  /** setActiveNav: the link at position i is marked active exactly when its href equals
      the given hash. */
  method SetActiveNav(hrefs: seq<string>, active: array<bool>, hash: string)
    requires active.Length == |hrefs|
    modifies active
    ensures forall i | 0 <= i < |hrefs| :: active[i] == (hrefs[i] == hash)
  {
    var i := 0;
    while i < active.Length
      invariant 0 <= i <= active.Length
      invariant forall j | 0 <= j < i :: active[j] == (hrefs[j] == hash)
    {
      active[i] := hrefs[i] == hash;
      i := i + 1;
    }
  }

  /** renderSection: chooses the view to render and highlights `hash || '#home'`. */
  method RenderSection(hrefs: seq<string>, active: array<bool>, hash: string) returns (v: View)
    requires active.Length == |hrefs|
    modifies active
    ensures v == ViewFor(hash)
    ensures forall i | 0 <= i < |hrefs| :: active[i] == (hrefs[i] == ActiveHref(hash))
  {
    v := ViewFor(hash);
    SetActiveNav(hrefs, active, ActiveHref(hash));
  }

  /** When every nav link points at a route hash, a highlighted link always points at the
      view being shown, and an unrecognised hash shows home with no link highlighted. */
  lemma HighlightAgreesWithView(hrefs: seq<string>, hash: string, i: nat)
    requires forall j | 0 <= j < |hrefs| :: IsRouteHash(hrefs[j])
    requires i < |hrefs|
    ensures hrefs[i] == ActiveHref(hash) ==> ViewFor(hrefs[i]) == ViewFor(hash)
    ensures hash != "" && !IsRouteHash(hash) ==> ViewFor(hash) == Home && hrefs[i] != ActiveHref(hash)
  {
  }
}
