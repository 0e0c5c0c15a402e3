/**
 * Keyword classification: categories are tried in order and the first one
 * with a keyword occurring in the text decides the label.
 */
module Keywords {
  import opened Wrappers
  import opened Text

  datatype Category = Category(name: string, keywords: seq<string>)

  /** Some keyword of category `c` occurs in `content`. */
  predicate Hits(c: Category, content: string) {
    AnyIn(c.keywords, content)
  }

  /** Index of the first category that hits, if any. */
  function FirstHit(cats: seq<Category>, content: string): (r: Option<nat>)
    ensures r.Some? ==> r.value < |cats| && Hits(cats[r.value], content)
    ensures r.Some? ==> forall j :: 0 <= j < r.value ==> !Hits(cats[j], content)
    ensures r.None? ==> forall j :: 0 <= j < |cats| ==> !Hits(cats[j], content)
    decreases |cats|
  {
    if cats == [] then None
    else if Hits(cats[0], content) then Some(0)
    else
      var r := FirstHit(cats[1..], content);
      assert forall j :: 1 <= j < |cats| ==> cats[j] == cats[1..][j - 1];
      if r.Some? then Some(r.value + 1) else None
  }

  /** The label of the first category that hits, or `default`. */
  function Classify(cats: seq<Category>, content: string, default: string): string {
    match FirstHit(cats, content)
    case Some(i) => cats[i].name
    case None => default
  }
}
