/** The few facts about multiplication and floor division the report needs. */
module Arithmetic {
  lemma OneMore(a: int, b: int)
    ensures (a + 1) * b == a * b + b
  {
  }

  lemma OneMoreFits(n: int, b: int, room: int)
    requires n * b <= room
    ensures (n + 1) * b <= room + b
  {
    OneMore(n, b);
  }

  /** Floor division brackets the dividend between two multiples. */
  lemma FloorDivision(a: nat, b: nat)
    requires 0 < b
    ensures 0 <= a / b
    ensures (a / b) * b <= a < (a / b + 1) * b
  {
    assert a == (a / b) * b + a % b;
  }


  /** A quotient bracketed like `converted*100//total` is a percentage, and
      it is 100 exactly when everything is converted. */
  lemma PercentBound(converted: nat, total: nat, p: int)
    requires 0 < total && converted <= total && 0 <= p
    requires p * total <= converted * 100 < (p + 1) * total
    ensures p <= 100
    ensures p == 100 <==> converted == total
  {
    if p > 100 {
      Monotone(101, p, total);
    }
    if converted == total && p < 100 {
      Monotone(p + 1, 100, total);
    }
  }

  lemma Monotone(a: int, b: int, c: nat)
    requires a <= b
    ensures a * c <= b * c
  {
    assert b * c == a * c + (b - a) * c;
  }
}

/** The progress report of the conversion script. Two patterns are counted
    in the server file: a route's verb call, its first argument and comma,
    then `(req, res`, or `async (req, res`, further along the comma's line.
    The report gives both counts, their difference and the percentage.
    Matches are counted with the semantics of Python's `re.findall`:
    leftmost matches, non-overlapping. */
module Progress {
  import opened Text
  import Arithmetic

  /** What the lazy `.*?` of the total pattern looks for. */
  const RouteMarker: string := "(req, res"
  /** What the lazy `.*?` of the async pattern looks for. */
  const AsyncMarker: string := "async (req, res"

  /* ---------------------------------------------------------------------- */
  /* One match of `app\.(get|post|put|delete)\([^,]+,.*?<marker>`           */
  /* ---------------------------------------------------------------------- */

  /** The four openings of a route declaration. */
  predicate VerbOpen(p: string) {
    p == "app.get(" || p == "app.post(" || p == "app.put(" || p == "app.delete("
  }

  /** `app.get(`, `app.post(`, `app.put(` or `app.delete(` at position `i`:
      the position just after the opening parenthesis. */
  function VerbCall(s: string, i: nat): (r: Option<nat>)
    requires i <= |s|
    ensures r.Some? ==> i + 8 <= r.value <= |s| && VerbOpen(s[i..r.value])
  {
    var t := s[i..];
    if StartsWith(t, "app.get(") then Some(i + 8)
    else if StartsWith(t, "app.post(") then Some(i + 9)
    else if StartsWith(t, "app.put(") then Some(i + 8)
    else if StartsWith(t, "app.delete(") then Some(i + 11)
    else None
  }

  /** Conversely, an opening at `i` is found, and it is the only one there:
      the four openings differ before any of them ends. */
  lemma VerbCallAt(s: string, i: nat, open: nat)
    requires i <= open <= |s| && VerbOpen(s[i..open])
    ensures VerbCall(s, i) == Some(open)
  {
    var t := s[i..];
    var p := s[i..open];
    assert t[..open - i] == p;
    if p != "app.get(" {
      assert t[4] == p[4];
      CharDiffers(t, "app.get(", 4);
    }
    if p == "app.put(" || p == "app.delete(" {
      assert t[5] == p[5];
      CharDiffers(t, "app.post(", 5);
    }
    if p == "app.delete(" {
      assert t[5] == p[5];
      CharDiffers(t, "app.put(", 5);
    }
  }

  /** Only the leading `a` of a verb call is an `a`, and none of it is a
      comma. */
  lemma VerbCallShape(s: string, i: nat)
    requires i <= |s| && VerbCall(s, i).Some?
    ensures s[i] == 'a'
    ensures forall x :: i < x < VerbCall(s, i).value ==> s[x] != 'a' && s[x] != ','
  {
    var v := VerbCall(s, i).value;
    var call := s[i..v];
    assert VerbOpen(call);
    assert forall x :: i <= x < v ==> s[x] == call[x - i];
  }

  /** The first comma at or after `a`: where the greedy `[^,]+` stops (it
      cannot stop earlier, as `,` must follow it). */
  function FirstComma(s: string, a: nat): (r: Option<nat>)
    requires a <= |s|
    ensures r.Some? ==> a <= r.value < |s|
    decreases |s| - a
  {
    if a == |s| then None
    else if s[a] == ',' then Some(a)
    else FirstComma(s, a + 1)
  }

  /** The comma found is a comma and there is none before it; where none is
      found there is none at all. */
  lemma {:induction false} FirstCommaIsFirst(s: string, a: nat)
    requires a <= |s|
    ensures FirstComma(s, a).Some? ==>
              var c := FirstComma(s, a).value;
              s[c] == ',' && forall x :: a <= x < c ==> s[x] != ','
    ensures FirstComma(s, a).None? ==> forall x :: a <= x < |s| ==> s[x] != ','
    decreases |s| - a
  {
    if a < |s| && s[a] != ',' {
      FirstCommaIsFirst(s, a + 1);
    }
  }

  /** A comma with none before it is the one the search finds. */
  lemma {:induction false} FirstCommaAt(s: string, a: nat, c: nat)
    requires a <= c < |s| && s[c] == ','
    requires forall x :: a <= x < c ==> s[x] != ','
    ensures FirstComma(s, a) == Some(c)
    decreases c - a
  {
    if a < c {
      FirstCommaAt(s, a + 1, c);
    }
  }

  /** The lazy `.*?` followed by the marker `m`, from position `k`: the
      nearest occurrence of `m` that no line break separates from `k`. */
  function FindMarker(s: string, k: nat, m: string): (r: Option<nat>)
    requires k <= |s|
    ensures r.Some? ==> k <= r.value <= |s| - |m|
    decreases |s| - k
  {
    if StartsWith(s[k..], m) then Some(k)
    else if k < |s| && s[k] != '\n' then FindMarker(s, k + 1, m)
    else None
  }

  /** What the lazy search finds is an occurrence of the marker, with no line
      break and no earlier occurrence between `k` and it. */
  lemma {:induction false} FindMarkerFound(s: string, k: nat, m: string)
    requires k <= |s| && FindMarker(s, k, m).Some?
    ensures var j := FindMarker(s, k, m).value;
              && StartsWith(s[j..], m)
              && (forall x :: k <= x < j ==> s[x] != '\n')
              && (forall x :: k <= x < j ==> !StartsWith(s[x..], m))
    decreases |s| - k
  {
    if !StartsWith(s[k..], m) {
      FindMarkerFound(s, k + 1, m);
    }
  }

  /** No occurrence at or after `k` comes before what the lazy search finds. */
  lemma FindMarkerLeftmost(s: string, k: nat, j: nat, m: string)
    requires k <= j <= |s| && StartsWith(s[j..], m)
    requires FindMarker(s, k, m).Some?
    ensures FindMarker(s, k, m).value <= j
  {
    FindMarkerFound(s, k, m);
  }

  /** Where the lazy search can reach an occurrence, it finds one at or
      before it. */
  lemma {:induction false} FindMarkerReaches(s: string, k: nat, j: nat, m: string)
    requires k <= j <= |s|
    requires StartsWith(s[j..], m)
    requires forall x :: k <= x < j ==> s[x] != '\n'
    ensures FindMarker(s, k, m).Some? && FindMarker(s, k, m).value <= j
    decreases j - k
  {
    if k < j && !StartsWith(s[k..], m) {
      FindMarkerReaches(s, k + 1, j, m);
    }
  }

  /** An occurrence with no line break and no occurrence before it is the one
      the lazy search finds. */
  lemma FindMarkerAt(s: string, k: nat, j: nat, m: string)
    requires k <= j <= |s| && StartsWith(s[j..], m)
    requires forall x :: k <= x < j ==> s[x] != '\n' && !StartsWith(s[x..], m)
    ensures FindMarker(s, k, m) == Some(j)
  {
    FindMarkerReaches(s, k, j, m);
    FindMarkerFound(s, k, m);
  }

  /** The lazy search fails when it reaches a line break or the end of the
      text without passing an occurrence. */
  lemma {:induction false} FindMarkerStops(s: string, k: nat, j: nat, m: string)
    requires k <= j <= |s| && (j == |s| || s[j] == '\n')
    requires forall x :: k <= x <= j ==> !StartsWith(s[x..], m)
    ensures FindMarker(s, k, m).None?
    decreases j - k
  {
    if k < j && s[k] != '\n' {
      FindMarkerStops(s, k + 1, j, m);
    }
  }

  /** After the verb call and the comma, a lazy search that reaches a line
      break or the end of the text first leaves no match. */
  lemma StopsBeforeMarker(s: string, i: nat, open: nat, comma: nat, j: nat, m: string)
    requires i <= |s| && VerbCall(s, i) == Some(open) && FirstComma(s, open) == Some(comma) && open < comma
    requires comma + 1 <= j <= |s| && (j == |s| || s[j] == '\n')
    requires forall x :: comma + 1 <= x <= j ==> !StartsWith(s[x..], m)
    ensures RouteAt(s, i, m).None?
  {
    FindMarkerStops(s, comma + 1, j, m);
  }

  /** Where the parts of one route match lie: just after the verb call's
      parenthesis, the comma, the marker, and just after the marker. */
  datatype Span = Span(open: nat, comma: nat, marker: nat, end: nat)

  /** The route pattern ending in `m` tried at position `i`. The verb call,
      at least one character that is not a comma, the comma and the marker
      make a match at least `10 + |m|` characters long. */
  function RouteAt(s: string, i: nat, m: string): (r: Option<Span>)
    requires i <= |s|
    ensures r.Some? ==> i + 10 + |m| <= r.value.end <= |s|
  {
    var open := VerbCall(s, i);
    if open.None? then None
    else
      var comma := FirstComma(s, open.value);
      if comma.None? || comma.value == open.value then None
      else
        var marker := FindMarker(s, comma.value + 1, m);
        if marker.None? then None
        else Some(Span(open.value, comma.value, marker.value, marker.value + |m|))
  }

  /** The steps of a match, as the search functions return them. */
  lemma RouteSteps(s: string, i: nat, m: string)
    requires i <= |s| && RouteAt(s, i, m).Some?
    ensures var span := RouteAt(s, i, m).value;
              && VerbCall(s, i) == Some(span.open)
              && FirstComma(s, span.open) == Some(span.comma)
              && span.open < span.comma
              && FindMarker(s, span.comma + 1, m) == Some(span.marker)
              && span.end == span.marker + |m|
  {
    var open :| VerbCall(s, i) == Some(open);
    var comma :| FirstComma(s, open) == Some(comma);
    var marker :| FindMarker(s, comma + 1, m) == Some(marker);
  }

  /** Steps that succeed make a match. */
  lemma StepsMakeRoute(s: string, i: nat, m: string, open: nat, comma: nat, marker: nat)
    requires i <= |s|
    requires VerbCall(s, i) == Some(open) && FirstComma(s, open) == Some(comma) && open < comma
    requires FindMarker(s, comma + 1, m) == Some(marker)
    ensures RouteAt(s, i, m).Some?
  {
    assert FirstComma(s, VerbCall(s, i).value) == Some(comma);
  }

  /** What a match at `i` consists of: one of the four verb openings, a
      non-empty text up to the first comma after it, then the nearest
      occurrence of the marker that no line break separates from the comma. */
  predicate RouteShape(s: string, i: nat, m: string, span: Span) {
    && i <= span.open < span.comma < |s|
    && VerbOpen(s[i..span.open])
    && s[span.comma] == ','
    && (forall x :: span.open <= x < span.comma ==> s[x] != ',')
    && span.comma < span.marker <= |s|
    && StartsWith(s[span.marker..], m)
    && (forall x :: span.comma < x < span.marker ==> s[x] != '\n' && !StartsWith(s[x..], m))
    && span.end == span.marker + |m|
  }

  /** A match has that shape. */
  lemma RouteParts(s: string, i: nat, m: string)
    requires i <= |s| && RouteAt(s, i, m).Some?
    ensures RouteShape(s, i, m, RouteAt(s, i, m).value)
  {
    var span := RouteAt(s, i, m).value;
    RouteSteps(s, i, m);
    FirstCommaIsFirst(s, span.open);
    FindMarkerFound(s, span.comma + 1, m);
  }

  /** And text of that shape is exactly what the pattern matches at `i`. */
  lemma RouteFromParts(s: string, i: nat, m: string, span: Span)
    requires RouteShape(s, i, m, span)
    ensures RouteAt(s, i, m) == Some(span)
  {
    VerbCallAt(s, i, span.open);
    FirstCommaAt(s, span.open, span.comma);
    FindMarkerAt(s, span.comma + 1, span.marker, m);
  }

  /** `len(re.findall(...))` from position `i` on: where the pattern matches,
      count it and resume after the match; elsewhere move on one character.
      Matches do not overlap, and each one is at least `10 + |m|` characters
      long, so that many characters are used up per counted route. */
  function CountFrom(s: string, i: nat, m: string): (n: nat)
    requires i <= |s|
    ensures n * (10 + |m|) <= |s| - i
    decreases |s| - i
  {
    if i == |s| then 0
    else
      match RouteAt(s, i, m)
      case Some(span) =>
        Arithmetic.OneMoreFits(CountFrom(s, span.end, m), 10 + |m|, |s| - span.end);
        Arithmetic.OneMore(CountFrom(s, span.end, m), 10 + |m|);
        1 + CountFrom(s, span.end, m)
      case None => CountFrom(s, i + 1, m)
  }

  /** A count that is not zero has a match behind it. */
  lemma {:induction false} CountedRouteExists(s: string, i: nat, m: string)
    requires i <= |s| && CountFrom(s, i, m) > 0
    ensures exists j :: i <= j < |s| && RouteAt(s, j, m).Some?
    decreases |s| - i
  {
    if RouteAt(s, i, m).None? {
      CountedRouteExists(s, i + 1, m);
    }
  }

  /** Positions where the pattern does not match add nothing to the count. */
  lemma {:induction false} CountSkips(s: string, i: nat, j: nat, m: string)
    requires i <= j <= |s|
    requires forall x :: i <= x < j ==> RouteAt(s, x, m).None?
    ensures CountFrom(s, i, m) == CountFrom(s, j, m)
    decreases j - i
  {
    if i < j {
      CountSkips(s, i + 1, j, m);
    }
  }

  /** Where the pattern matches somewhere at or after `i`, the count is not zero. */
  lemma {:induction false} CountFindsRoute(s: string, i: nat, j: nat, m: string)
    requires i <= j < |s| && RouteAt(s, j, m).Some?
    ensures CountFrom(s, i, m) > 0
    decreases j - i
  {
    if RouteAt(s, i, m).None? {
      CountFindsRoute(s, i + 1, j, m);
    }
  }

  /** The count is zero exactly when the pattern matches nowhere. */
  lemma CountPositive(s: string, i: nat, m: string)
    requires i <= |s|
    ensures CountFrom(s, i, m) > 0 <==> exists j :: i <= j < |s| && RouteAt(s, j, m).Some?
  {
    if exists j :: i <= j < |s| && RouteAt(s, j, m).Some? {
      var j :| i <= j < |s| && RouteAt(s, j, m).Some?;
      CountFindsRoute(s, i, j, m);
    }
    if CountFrom(s, i, m) > 0 {
      CountedRouteExists(s, i, m);
    }
  }

  /** `all_routes`: the matches of the route pattern ending in `(req, res`.
      A match takes at least 19 characters. */
  function TotalRoutes(content: string): (n: nat)
    ensures n * 19 <= |content|
    ensures n > 0 <==> exists j :: 0 <= j < |content| && RouteAt(content, j, RouteMarker).Some?
  {
    CountPositive(content, 0, RouteMarker);
    CountFrom(content, 0, RouteMarker)
  }

  /** `async_routes`: the matches of the route pattern ending in
      `async (req, res`. A match takes at least 25 characters. */
  function AsyncRoutes(content: string): (n: nat)
    ensures n * 25 <= |content|
    ensures n > 0 <==> exists j :: 0 <= j < |content| && RouteAt(content, j, AsyncMarker).Some?
  {
    CountPositive(content, 0, AsyncMarker);
    CountFrom(content, 0, AsyncMarker)
  }

  /* ---------------------------------------------------------------------- */
  /* Every async match lies inside a route match                            */
  /* ---------------------------------------------------------------------- */

  /** `outer` ends with `inner`, and what comes before it has no line
      break: wherever `outer` occurs, the lazy `.*?` can reach `inner`. */
  predicate Embeds(outer: string, inner: string) {
    && |inner| <= |outer|
    && outer[|outer| - |inner|..] == inner
    && forall x :: 0 <= x < |outer| - |inner| ==> outer[x] != '\n'
  }

  lemma AsyncMarkerEmbedsRouteMarker()
    ensures Embeds(AsyncMarker, RouteMarker)
  {
  }

  /** Where `outer` occurs, `inner` occurs at its end, with no line break
      in between. */
  lemma {:induction false} InnerOccurrence(s: string, k: nat, outer: string, inner: string)
    requires Embeds(outer, inner)
    requires k <= |s| && StartsWith(s[k..], outer)
    ensures var d := |outer| - |inner|;
              && k + d <= |s| && StartsWith(s[k + d..], inner)
              && forall x :: k <= x < k + d ==> s[x] != '\n'
  {
    var d := |outer| - |inner|;
    assert s[k + d..][..|inner|] == s[k..][..|outer|][d..] == outer[d..];
    forall x | k <= x < k + d
      ensures s[x] != '\n'
    {
      assert s[x] == s[k..][..|outer|][x - k] == outer[x - k];
    }
  }

  /** Where the lazy search can reach an occurrence of `outer`, it finds
      `inner` no later than the end of that occurrence's prefix. */
  lemma {:induction false} ReachesInner(s: string, k: nat, j: nat, outer: string, inner: string)
    requires Embeds(outer, inner)
    requires k <= j <= |s| && StartsWith(s[j..], outer)
    requires forall x :: k <= x < j ==> s[x] != '\n'
    ensures FindMarker(s, k, inner).Some?
    ensures FindMarker(s, k, inner).value <= j + |outer| - |inner|
  {
    InnerOccurrence(s, j, outer, inner);
    FindMarkerReaches(s, k, j + |outer| - |inner|, inner);
  }

  /** A route the pattern ending in `outer` matches at `i` is matched by the
      pattern ending in `inner` at `i` as well. */
  lemma OuterIsInner(s: string, i: nat, outer: string, inner: string)
    requires Embeds(outer, inner)
    requires i <= |s|
    requires RouteAt(s, i, outer).Some?
    ensures RouteAt(s, i, inner).Some?
  {
    var span := RouteAt(s, i, outer).value;
    RouteSteps(s, i, outer);
    FindMarkerFound(s, span.comma + 1, outer);
    ReachesInner(s, span.comma + 1, span.marker, outer, inner);
    var found := FindMarker(s, span.comma + 1, inner).value;
    StepsMakeRoute(s, i, inner, span.open, span.comma, found);
  }

  /** Of two matches starting at `p <= q`, the first one's comma comes no
      later: only the leading character of a verb call is an `a`, so the
      second call starts at `p` or after the first one's parenthesis. */
  lemma CommaOrder(s: string, p: nat, q: nat, m: string, n: string)
    requires p <= q <= |s|
    requires RouteAt(s, p, m).Some? && RouteAt(s, q, n).Some?
    ensures RouteAt(s, p, m).value.comma <= RouteAt(s, q, n).value.comma
  {
    var first := RouteAt(s, p, m).value;
    var later := RouteAt(s, q, n).value;
    RouteSteps(s, p, m);
    RouteSteps(s, q, n);
    VerbCallShape(s, p);
    VerbCallShape(s, q);
    assert q == p || q >= first.open;
    FirstCommaIsFirst(s, first.open);
    FirstCommaIsFirst(s, later.open);
  }

  /** A match of the `inner` pattern at `p` ends no later than a match of the
      `outer` pattern at any `q` at or after `p`: its comma comes no later,
      and the `inner` at the end of `outer` bounds its lazy search. */
  lemma InnerEndsFirst(s: string, p: nat, q: nat, outer: string, inner: string)
    requires Embeds(outer, inner)
    requires p <= q <= |s|
    requires RouteAt(s, p, inner).Some? && RouteAt(s, q, outer).Some?
    ensures RouteAt(s, p, inner).value.end <= RouteAt(s, q, outer).value.end
  {
    var first := RouteAt(s, p, inner).value;
    var later := RouteAt(s, q, outer).value;
    CommaOrder(s, p, q, inner, outer);
    RouteSteps(s, p, inner);
    RouteSteps(s, q, outer);
    FindMarkerFound(s, later.comma + 1, outer);
    var j := later.marker + |outer| - |inner|;
    InnerOccurrence(s, later.marker, outer, inner);
    assert first.comma + 1 <= j && StartsWith(s[j..], inner);
    FindMarkerLeftmost(s, first.comma + 1, j, inner);
  }

  /** From positions `p <= q`, the scan for `outer` finds no more routes than
      the scan for `inner`. */
  lemma {:induction false} CountDominates(s: string, p: nat, q: nat, outer: string, inner: string)
    requires Embeds(outer, inner)
    requires p <= q <= |s|
    ensures CountFrom(s, q, outer) <= CountFrom(s, p, inner)
    decreases 2 * |s| - p - q
  {
    if q == |s| {
      assert CountFrom(s, q, outer) == 0;
    } else {
      match RouteAt(s, q, outer)
      case None =>
        assert CountFrom(s, q, outer) == CountFrom(s, q + 1, outer);
        CountDominates(s, p, q + 1, outer, inner);
      case Some(later) =>
        assert CountFrom(s, q, outer) == 1 + CountFrom(s, later.end, outer);
        match RouteAt(s, p, inner)
        case None =>
          if p == q {
            OuterIsInner(s, q, outer, inner);
          } else {
            assert CountFrom(s, p, inner) == CountFrom(s, p + 1, inner);
            CountDominates(s, p + 1, q, outer, inner);
          }
        case Some(first) =>
          assert CountFrom(s, p, inner) == 1 + CountFrom(s, first.end, inner);
          if first.end <= q {
            CountDominates(s, first.end, q, outer, inner);
          } else {
            InnerEndsFirst(s, p, q, outer, inner);
            CountDominates(s, first.end, later.end, outer, inner);
          }
    }
  }

  /** The async pattern never counts more matches than the route pattern. */
  lemma AsyncAtMostTotal(content: string)
    ensures AsyncRoutes(content) <= TotalRoutes(content)
  {
    AsyncMarkerEmbedsRouteMarker();
    CountDominates(content, 0, 0, AsyncMarker, RouteMarker);
  }

  /* ---------------------------------------------------------------------- */
  /* The report                                                             */
  /* ---------------------------------------------------------------------- */

  /** The percentage `async_routes*100//all_routes`, or the division by zero
      the script runs into when the route pattern matches nowhere. */
  datatype Percentage = Percent(value: int) | ZeroDivision

  datatype Report = Report(total: nat, converted: nat, remaining: int, progress: Percentage)

  /** The figures the script prints for a server file. */
  function ProgressReport(content: string): (r: Report)
    ensures r.total == TotalRoutes(content) && r.converted == AsyncRoutes(content)
    ensures r.remaining == r.total - r.converted && 0 <= r.remaining <= r.total
    ensures r.progress.ZeroDivision? <==> r.total == 0
    ensures r.progress.Percent? ==>
              0 <= r.progress.value <= 100
              && r.progress.value * r.total <= r.converted * 100 < (r.progress.value + 1) * r.total
    ensures r.progress.Percent? ==> (r.progress.value == 100 <==> r.converted == r.total)
  {
    var total := TotalRoutes(content);
    var converted := AsyncRoutes(content);
    AsyncAtMostTotal(content);
    Report(total, converted, total - converted,
           if total == 0 then ZeroDivision else Percent(FloorPercent(converted, total)))
  }

  /** Python's `converted*100//total` for `0 <= converted <= total`, `total > 0`. */
  function FloorPercent(converted: nat, total: nat): (p: int)
    requires 0 < total && converted <= total
    ensures 0 <= p <= 100
    ensures p * total <= converted * 100 < (p + 1) * total
    ensures p == 100 <==> converted == total
  {
    var p := converted * 100 / total;
    Arithmetic.FloorDivision(converted * 100, total);
    Arithmetic.PercentBound(converted, total, p);
    p
  }

}
