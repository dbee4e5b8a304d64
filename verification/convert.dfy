/** `convert_route_to_async` as a whole: the seven substitutions in the order
    the script applies them, each to the full result of the previous one. */
module Convert {
  import opened Text
  import opened Rewrite
  import FieldRename

  /** The converted route text. It never contains `result.changes` (the last
      rule removes every one and nothing runs after it), and text in which
      none of the rules' triggers occurs comes back unchanged. */
  function ConvertRouteToAsync(route: string): (r: string)
    ensures !Occurs(r, FieldRename.Changes)
    ensures (forall rule: Rule :: !Occurs(route, Trigger(rule))) ==> r == route
  {
    var handlers := Substitute(ArrowHandler, route);
    var functions := Substitute(KeywordHandler, handlers);
    var gets := Substitute(PrepareGet, functions);
    var alls := Substitute(PrepareAll, gets);
    var bound := Substitute(BoundRunCall, alls);
    var runs := Substitute(InlineRunCall, bound);
    FieldRename.NoChangesLeft(runs);
    Substitute(ChangesField, runs)
  }
}
