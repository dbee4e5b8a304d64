/** Server files written as a list of route declarations, one to a line, and
    what the progress report counts in them: every declaration once for the
    total, and the declarations whose handler is written `async` for the
    converted count. */
module RouteFile {
  import opened Text
  import opened Progress

  /* ---------------------------------------------------------------------- */
  /* The scan from a position sees only the text from there on              */
  /* ---------------------------------------------------------------------- */

  function ShiftPos(r: Option<nat>, d: nat): Option<nat> {
    if r.Some? then Some(r.value + d) else None
  }

  function ShiftSpan(r: Option<Span>, d: nat): Option<Span> {
    if r.Some? then Some(Span(r.value.open + d, r.value.comma + d, r.value.marker + d, r.value.end + d)) else None
  }

  lemma VerbCallSuffix(s: string, k: nat, i: nat)
    requires k + i <= |s|
    ensures VerbCall(s, k + i) == ShiftPos(VerbCall(s[k..], i), k)
  {
    assert s[k..][i..] == s[k + i..];
  }

  lemma {:induction false} FirstCommaSuffix(s: string, k: nat, a: nat)
    requires k + a <= |s|
    ensures FirstComma(s, k + a) == ShiftPos(FirstComma(s[k..], a), k)
    decreases |s| - k - a
  {
    if k + a < |s| {
      assert s[k..][a] == s[k + a];
      if s[k + a] != ',' {
        FirstCommaSuffix(s, k, a + 1);
      }
    }
  }

  lemma {:induction false} FindMarkerSuffix(s: string, k: nat, j: nat, m: string)
    requires k + j <= |s|
    ensures FindMarker(s, k + j, m) == ShiftPos(FindMarker(s[k..], j, m), k)
    decreases |s| - k - j
  {
    assert s[k..][j..] == s[k + j..];
    if k + j < |s| {
      assert s[k..][j] == s[k + j];
      if !StartsWith(s[k + j..], m) && s[k + j] != '\n' {
        FindMarkerSuffix(s, k, j + 1, m);
      }
    }
  }

  /** A match in a suffix is the match in the whole text, moved along. */
  lemma RouteSuffix(s: string, k: nat, i: nat, m: string)
    requires k + i <= |s|
    ensures RouteAt(s, k + i, m) == ShiftSpan(RouteAt(s[k..], i, m), k)
  {
    VerbCallSuffix(s, k, i);
    if VerbCall(s[k..], i).Some? {
      RouteSuffixOpen(s, k, i, m, VerbCall(s[k..], i).value);
    }
  }

  /** The match once both openings are known to correspond. */
  lemma RouteSuffixOpen(s: string, k: nat, i: nat, m: string, open: nat)
    requires k + i <= |s|
    requires VerbCall(s[k..], i) == Some(open) && VerbCall(s, k + i) == Some(open + k)
    ensures RouteAt(s, k + i, m) == ShiftSpan(RouteAt(s[k..], i, m), k)
  {
    FirstCommaSuffix(s, k, open);
    if FirstComma(s[k..], open).Some? && FirstComma(s[k..], open).value != open {
      RouteSuffixComma(s, k, i, m, open, FirstComma(s[k..], open).value);
    }
  }

  /** The match once both commas are known to correspond. */
  lemma RouteSuffixComma(s: string, k: nat, i: nat, m: string, open: nat, comma: nat)
    requires k + i <= |s|
    requires VerbCall(s[k..], i) == Some(open) && VerbCall(s, k + i) == Some(open + k)
    requires FirstComma(s[k..], open) == Some(comma) && FirstComma(s, open + k) == Some(comma + k)
    requires open < comma
    ensures RouteAt(s, k + i, m) == ShiftSpan(RouteAt(s[k..], i, m), k)
  {
    FindMarkerSuffix(s, k, comma + 1, m);
  }

  /** The count from a position does not depend on the text before it. */
  lemma {:induction false} CountSuffix(s: string, k: nat, i: nat, m: string)
    requires k + i <= |s|
    ensures CountFrom(s, k + i, m) == CountFrom(s[k..], i, m)
    decreases |s| - k - i
  {
    if k + i < |s| {
      var r := RouteAt(s[k..], i, m);
      RouteSuffix(s, k, i, m);
      if r.Some? {
        CountSuffix(s, k, r.value.end, m);
      } else {
        CountSuffix(s, k, i + 1, m);
      }
    }
  }

  /* ---------------------------------------------------------------------- */
  /* One declaration                                                        */
  /* ---------------------------------------------------------------------- */

  /** A route declaration as the counting patterns see it: the verb call's
      opening, the path argument, its comma, the blanks before the handler,
      the handler's `(req, res` or `async (req, res`, and the rest of the
      declaration. */
  datatype Decl = Decl(open: string, path: string, gap: string, isAsync: bool, body: string)

  function HandlerOpening(d: Decl): string {
    if d.isAsync then AsyncMarker else RouteMarker
  }

  function DeclText(d: Decl): string {
    d.open + (d.path + ("," + (d.gap + (HandlerOpening(d) + d.body))))
  }

  /** A declaration whose handler follows the path on the same line with only
      blanks in between, and which holds no other route opening and, unless
      its handler is `async`, no `async (req, res` either. */
  predicate ValidDecl(d: Decl) {
    && VerbOpen(d.open)
    && |d.path| > 0 && ',' !in d.path && !Occurs(d.path, "app.")
    && AllIn(d.gap, Space) && '\n' !in d.gap
    && !Occurs(d.body, "app.")
    && (!d.isAsync ==> !Occurs(d.body, AsyncMarker))
  }

  predicate EndsLine(s: string) {
    |s| > 0 && s[|s| - 1] == '\n'
  }

  function CommaPos(d: Decl): nat {
    |d.open| + |d.path|
  }

  function HandlerPos(d: Decl): nat {
    CommaPos(d) + 1 + |d.gap|
  }

  function BodyPos(d: Decl): nat {
    HandlerPos(d) + |HandlerOpening(d)|
  }

  /** Where the parts of `a + (b + ("," + (g + r)))` lie. */
  lemma Layout(a: string, b: string, g: string, r: string)
    ensures (a + (b + ("," + (g + r))))[..|a|] == a
    ensures forall x :: |a| <= x < |a| + |b| ==> (a + (b + ("," + (g + r))))[x] == b[x - |a|]
    ensures (a + (b + ("," + (g + r))))[|a| + |b|] == ','
    ensures forall x :: |a| + |b| < x < |a| + |b| + 1 + |g| ==> (a + (b + ("," + (g + r))))[x] == g[x - |a| - |b| - 1]
    ensures (a + (b + ("," + (g + r))))[|a| + |b| + 1 + |g|..] == r
  {
  }

  lemma DeclAssoc(d: Decl, t: string)
    ensures DeclText(d) + t == d.open + (d.path + ("," + (d.gap + (HandlerOpening(d) + (d.body + t)))))
    ensures |DeclText(d)| == BodyPos(d) + |d.body|
  {
  }

  /** Where the parts of a declaration lie in it, whatever follows it. */
  lemma DeclLayout(d: Decl, t: string)
    ensures |DeclText(d)| == BodyPos(d) + |d.body|
    ensures (DeclText(d) + t)[..|d.open|] == d.open
    ensures forall x :: |d.open| <= x < CommaPos(d) ==> (DeclText(d) + t)[x] == d.path[x - |d.open|]
    ensures (DeclText(d) + t)[CommaPos(d)] == ','
    ensures forall x :: CommaPos(d) < x < HandlerPos(d) ==> (DeclText(d) + t)[x] == d.gap[x - CommaPos(d) - 1]
    ensures (DeclText(d) + t)[HandlerPos(d)..] == HandlerOpening(d) + (d.body + t)
    ensures (DeclText(d) + t)[BodyPos(d)..] == d.body + t
  {
    var r := HandlerOpening(d) + (d.body + t);
    DeclAssoc(d, t);
    Layout(d.open, d.path, d.gap, r);
  }

  /** The handler opening and the body of a declaration, whatever follows it. */
  lemma DeclHandlerAt(d: Decl, t: string)
    ensures |DeclText(d)| == BodyPos(d) + |d.body|
    ensures (DeclText(d) + t)[HandlerPos(d)..] == HandlerOpening(d) + (d.body + t)
  {
    DeclLayout(d, t);
  }

  /** Every verb call starts with `app.`. */
  lemma OpeningStartsApp(s: string, x: nat)
    requires x <= |s|
    ensures VerbCall(s, x).Some? ==> StartsWith(s[x..], "app.")
  {
    if VerbCall(s, x).Some? {
      var v := VerbCall(s, x).value;
      assert s[x..][..4] == s[x..v][..4];
    }
  }

  /** From the comma on, a declaration holds no `app.`. */
  lemma AfterPathNoOpening(d: Decl)
    requires ValidDecl(d)
    ensures !Occurs("," + (d.gap + (HandlerOpening(d) + d.body)), "app.")
  {
    var handler := HandlerOpening(d);
    MissingChar(handler, "app.", 1);
    JoinNoOccur(handler, d.body, "app.");
    assert forall i :: 0 <= i < |d.gap| ==> IsSpace(d.gap[i]);
    assert 'a' !in d.gap;
    MissingChar(d.gap, "app.", 0);
    JoinNoOccur(d.gap, handler + d.body, "app.");
    MissingChar(",", "app.", 0);
    JoinNoOccur(",", d.gap + (handler + d.body), "app.");
  }

  /** After its first character a declaration holds no `app.`. */
  lemma DeclTailNoOpening(d: Decl)
    requires ValidDecl(d)
    ensures !Occurs(DeclText(d)[1..], "app.")
  {
    var after := "," + (d.gap + (HandlerOpening(d) + d.body));
    AfterPathNoOpening(d);
    JoinNoOccur(d.path, after, "app.");
    var verb := d.open[1..];
    VerbTail(d.open);
    MissingChar(verb, "app.", 0);
    JoinNoOccur(verb, d.path + after, "app.");
    assert DeclText(d)[1..] == verb + (d.path + after);
  }

  /** Only the first character of a verb call's opening is an `a`. */
  lemma VerbTail(open: string)
    requires VerbOpen(open)
    ensures |open| > 0 && 'a' !in open[1..]
  {
  }

  /** Nothing matches inside a declaration after its first character, when
      it ends its line or the text. */
  lemma NoRouteInside(d: Decl, t: string, m: string)
    requires ValidDecl(d) && (t == [] || EndsLine(d.body))
    ensures forall x :: 1 <= x < |DeclText(d)| ==> RouteAt(DeclText(d) + t, x, m).None?
  {
    var text := DeclText(d);
    var s := text + t;
    DeclTailNoOpening(d);
    if t != [] {
      DeclLayout(d, t);
      assert text[1..][|text| - 2] == s[BodyPos(d)..][|d.body| - 1];
      NoStartIn(text[1..], t, "app.");
    }
    forall x | 1 <= x < |text|
      ensures RouteAt(s, x, m).None?
    {
      OpeningStartsApp(s, x);
      if t == [] {
        assert s[x..] == text[1..][x - 1..];
      } else {
        assert s[x..] == (text[1..] + t)[x - 1..];
      }
    }
  }

  /** The blanks before the handler, and the `async ` of an async handler,
      are neither a line break nor the start of a marker. */
  lemma BeforeHandler(d: Decl, t: string, m: string, x: nat)
    requires ValidDecl(d) && (m == RouteMarker || m == AsyncMarker)
    requires || CommaPos(d) < x < HandlerPos(d)
             || (d.isAsync && m == RouteMarker && HandlerPos(d) <= x < HandlerPos(d) + 6)
    ensures x < |DeclText(d) + t|
    ensures (DeclText(d) + t)[x] != '\n' && !StartsWith((DeclText(d) + t)[x..], m)
  {
    var s := DeclText(d) + t;
    DeclLayout(d, t);
    assert m[0] == '(' || m[0] == 'a';
    if x < HandlerPos(d) {
      assert IsSpace(d.gap[x - CommaPos(d) - 1]);
      assert d.gap[x - CommaPos(d) - 1] in d.gap;
    } else {
      assert s[x] == s[HandlerPos(d)..][x - HandlerPos(d)] == "async "[x - HandlerPos(d)];
    }
    assert s[x..][0] == s[x];
    FirstCharDiffers(s[x..], m);
  }

  /** A declaration opens with a verb call, and its path runs to the first
      comma after it. */
  lemma DeclHead(d: Decl, t: string)
    requires ValidDecl(d)
    ensures |d.open| < CommaPos(d) < |DeclText(d) + t|
    ensures VerbOpen((DeclText(d) + t)[0..|d.open|])
    ensures (DeclText(d) + t)[CommaPos(d)] == ','
    ensures forall x :: |d.open| <= x < CommaPos(d) ==> (DeclText(d) + t)[x] != ','
  {
    var s := DeclText(d) + t;
    DeclLayout(d, t);
    assert s[0..|d.open|] == d.open;
    forall x | |d.open| <= x < CommaPos(d)
      ensures s[x] != ','
    {
      assert d.path[x - |d.open|] in d.path;
    }
  }

  /** The verb call and the path's comma of a declaration are what the
      first two steps of a match find. */
  lemma DeclOpening(d: Decl, t: string)
    requires ValidDecl(d)
    ensures VerbCall(DeclText(d) + t, 0) == Some(|d.open|)
    ensures FirstComma(DeclText(d) + t, |d.open|) == Some(CommaPos(d))
  {
    DeclHead(d, t);
    VerbCallAt(DeclText(d) + t, 0, |d.open|);
    FirstCommaAt(DeclText(d) + t, |d.open|, CommaPos(d));
  }

  /** Where the marker of a matching declaration starts. */
  lemma MarkerAfterGap(d: Decl, t: string, m: string)
    requires ValidDecl(d) && (m == RouteMarker || (m == AsyncMarker && d.isAsync))
    ensures CommaPos(d) < BodyPos(d) - |m| <= |DeclText(d) + t|
    ensures StartsWith((DeclText(d) + t)[BodyPos(d) - |m|..], m)
  {
    var s := DeclText(d) + t;
    DeclHandlerAt(d, t);
    if d.isAsync && m == RouteMarker {
      assert AsyncMarker == "async " + RouteMarker;
      assert s[BodyPos(d) - |m|..] == s[HandlerPos(d)..][6..];
    }
    StartsWithPrefix(m, d.body + t);
  }

  /** Between the comma and the marker there is neither a line end nor
      an earlier marker. */
  lemma GapHasNoMarker(d: Decl, t: string, m: string)
    requires ValidDecl(d) && (m == RouteMarker || (m == AsyncMarker && d.isAsync))
    requires BodyPos(d) - |m| <= |DeclText(d) + t|
    ensures forall x :: CommaPos(d) + 1 <= x < BodyPos(d) - |m| ==>
              (DeclText(d) + t)[x] != '\n' && !StartsWith((DeclText(d) + t)[x..], m)
  {
    forall x | CommaPos(d) + 1 <= x < BodyPos(d) - |m|
      ensures (DeclText(d) + t)[x] != '\n' && !StartsWith((DeclText(d) + t)[x..], m)
    {
      BeforeHandler(d, t, m, x);
    }
  }

  /** A declaration is matched, from its opening to the end of the marker,
      when the marker is `(req, res` or its handler is `async`. */
  lemma DeclMatch(d: Decl, t: string, m: string)
    requires ValidDecl(d) && (m == RouteMarker || (m == AsyncMarker && d.isAsync))
    ensures RouteAt(DeclText(d) + t, 0, m) == Some(Span(|d.open|, CommaPos(d), BodyPos(d) - |m|, BodyPos(d)))
  {
    DeclHead(d, t);
    MarkerAfterGap(d, t, m);
    GapHasNoMarker(d, t, m);
    RouteFromParts(DeclText(d) + t, 0, m, Span(|d.open|, CommaPos(d), BodyPos(d) - |m|, BodyPos(d)));
  }

  /** Where the lazy search of the async pattern stops in a declaration: the
      line break that ends it, or the end of the text. */
  function SearchEnd(d: Decl, t: string): nat {
    if t == [] then |DeclText(d)| else |DeclText(d)| - 1
  }

  /** In a declaration whose handler is not `async`, no `async (req, res`
      starts between the comma and the end of its line. */
  lemma NoAsyncAfterComma(d: Decl, t: string, x: nat)
    requires ValidDecl(d) && !d.isAsync && (t == [] || EndsLine(d.body))
    requires CommaPos(d) < x <= SearchEnd(d, t)
    ensures x <= |DeclText(d) + t| && !StartsWith((DeclText(d) + t)[x..], AsyncMarker)
  {
    var s := DeclText(d) + t;
    var b := BodyPos(d);
    DeclLayout(d, t);
    if x < HandlerPos(d) {
      BeforeHandler(d, t, AsyncMarker, x);
    } else if x < b {
      assert s[x] == s[HandlerPos(d)..][x - HandlerPos(d)] == RouteMarker[x - HandlerPos(d)];
      assert s[x..][0] == s[x];
      FirstCharDiffers(s[x..], AsyncMarker);
    } else if t == [] {
      assert s[x..] == d.body[x - b..];
    } else {
      NoStartIn(d.body, t, AsyncMarker);
      assert s[x..] == (d.body + t)[x - b..];
    }
  }

  /** Between the comma and the end of its line, a declaration whose handler
      is not `async` holds no `async (req, res`. */
  lemma NoAsyncBeforeLineEnd(d: Decl, t: string)
    requires ValidDecl(d) && !d.isAsync && (t == [] || EndsLine(d.body))
    ensures SearchEnd(d, t) <= |DeclText(d) + t|
    ensures forall x :: CommaPos(d) + 1 <= x <= SearchEnd(d, t) ==> !StartsWith((DeclText(d) + t)[x..], AsyncMarker)
  {
    forall x | CommaPos(d) + 1 <= x <= SearchEnd(d, t)
      ensures !StartsWith((DeclText(d) + t)[x..], AsyncMarker)
    {
      NoAsyncAfterComma(d, t, x);
    }
  }

  /** A declaration whose handler is not `async` is not matched by the async
      pattern: its lazy search meets the end of the line first. */
  lemma DeclNoAsyncMatch(d: Decl, t: string)
    requires ValidDecl(d) && !d.isAsync && (t == [] || EndsLine(d.body))
    ensures RouteAt(DeclText(d) + t, 0, AsyncMarker).None?
  {
    DeclOpening(d, t);
    NoAsyncBeforeLineEnd(d, t);
    if t != [] {
      LineEnd(d, t);
    }
    StopsBeforeMarker(DeclText(d) + t, 0, |d.open|, CommaPos(d), SearchEnd(d, t), AsyncMarker);
  }

  /** A declaration that ends its line ends with a line break. */
  lemma LineEnd(d: Decl, t: string)
    requires EndsLine(d.body)
    ensures (DeclText(d) + t)[|DeclText(d)| - 1] == '\n'
  {
    DeclAssoc(d, t);
    assert (DeclText(d) + t)[|DeclText(d)| - 1] == DeclText(d)[|DeclText(d)| - 1];
    assert DeclText(d) == d.open + (d.path + ("," + (d.gap + (HandlerOpening(d) + d.body))));
  }

  /** A declaration adds one to the count of the total pattern, and one to
      the count of the async pattern exactly when its handler is `async`. */
  lemma DeclCount(d: Decl, t: string, m: string)
    requires ValidDecl(d) && (t == [] || EndsLine(d.body))
    requires m == RouteMarker || m == AsyncMarker
    ensures CountFrom(DeclText(d) + t, 0, m) == (if m == RouteMarker || d.isAsync then 1 else 0) + CountFrom(t, 0, m)
  {
    var text := DeclText(d);
    var s := text + t;
    DeclAssoc(d, t);
    NoRouteInside(d, t, m);
    if m == RouteMarker || d.isAsync {
      DeclMatch(d, t, m);
      CountPastPrefix(s, |text|, BodyPos(d), m);
    } else {
      DeclNoAsyncMatch(d, t);
      CountPastPrefix(s, |text|, 1, m);
    }
    assert s[|text|..] == t;
  }

  /** A text whose first `n` characters hold at most a match at their
      start, ending at `first`, counts that match and then what follows. */
  lemma CountPastPrefix(s: string, n: nat, first: nat, m: string)
    requires 0 < first <= n <= |s|
    requires RouteAt(s, 0, m).Some? ==> RouteAt(s, 0, m).value.end == first
    requires RouteAt(s, 0, m).None? ==> first == 1
    requires forall x :: 1 <= x < n ==> RouteAt(s, x, m).None?
    ensures CountFrom(s, 0, m) == (if RouteAt(s, 0, m).Some? then 1 else 0) + CountFrom(s[n..], 0, m)
  {
    CountSkips(s, first, n, m);
    CountSuffix(s, n, 0, m);
    if RouteAt(s, 0, m).Some? {
      assert CountFrom(s, 0, m) == 1 + CountFrom(s, first, m);
    } else {
      assert CountFrom(s, 0, m) == CountFrom(s, 1, m);
    }
  }

  /* ---------------------------------------------------------------------- */
  /* A file of declarations                                                 */
  /* ---------------------------------------------------------------------- */

  function FileText(ds: seq<Decl>): string {
    if |ds| == 0 then [] else DeclText(ds[0]) + FileText(ds[1..])
  }

  /** Declarations that each end their line, except perhaps the last. */
  predicate ValidFile(ds: seq<Decl>) {
    forall k :: 0 <= k < |ds| ==> ValidDecl(ds[k]) && (k + 1 < |ds| ==> EndsLine(ds[k].body))
  }

  function AsyncCount(ds: seq<Decl>): (n: nat)
    ensures n <= |ds|
  {
    if |ds| == 0 then 0 else (if ds[0].isAsync then 1 else 0) + AsyncCount(ds[1..])
  }

  /** The total pattern matches each declaration once, and the async pattern
      each declaration with an `async` handler once. */
  lemma {:induction false} FileCounts(ds: seq<Decl>, m: string)
    requires ValidFile(ds) && (m == RouteMarker || m == AsyncMarker)
    ensures CountFrom(FileText(ds), 0, m) == if m == RouteMarker then |ds| else AsyncCount(ds)
    decreases |ds|
  {
    if |ds| > 0 {
      assert ValidDecl(ds[0]);
      assert ValidFile(ds[1..]) by {
        forall k | 0 <= k < |ds| - 1
          ensures ValidDecl(ds[1..][k]) && (k + 1 < |ds| - 1 ==> EndsLine(ds[1..][k].body))
        {
          assert ds[1..][k] == ds[k + 1];
        }
      }
      if |ds| == 1 {
        assert FileText(ds[1..]) == [];
      } else {
        assert EndsLine(ds[0].body);
      }
      DeclCount(ds[0], FileText(ds[1..]), m);
      FileCounts(ds[1..], m);
    }
  }

  /** The report on a file of `N` declarations, `K` of them `async`: `N`
      routes, `K` converted, `N - K` remaining and `K*100//N` percent. */
  lemma FileReport(ds: seq<Decl>)
    requires ValidFile(ds)
    ensures TotalRoutes(FileText(ds)) == |ds|
    ensures AsyncRoutes(FileText(ds)) == AsyncCount(ds)
    ensures ProgressReport(FileText(ds)) ==
              Report(|ds|, AsyncCount(ds), |ds| - AsyncCount(ds),
                     if |ds| == 0 then ZeroDivision else Percent(FloorPercent(AsyncCount(ds), |ds|)))
  {
    FileCounts(ds, RouteMarker);
    FileCounts(ds, AsyncMarker);
  }

  /** Set-up code before the first declaration, such as the imports, adds
      nothing to either count when it holds no `app.` and ends its line. */
  lemma HeaderSkipped(h: string, t: string, m: string)
    requires !Occurs(h, "app.") && (h == [] || h[|h| - 1] == '\n')
    ensures CountFrom(h + t, 0, m) == CountFrom(t, 0, m)
  {
    var s := h + t;
    NoStartIn(h, t, "app.");
    forall x | 0 <= x < |h|
      ensures RouteAt(s, x, m).None?
    {
      OpeningStartsApp(s, x);
    }
    CountSkips(s, 0, |h|, m);
    CountSuffix(s, |h|, 0, m);
    assert s[|h|..] == t;
  }

  /** The report on a server file: set-up code, then `N` declarations, `K`
      of them `async`. */
  lemma ServerFileReport(h: string, ds: seq<Decl>)
    requires ValidFile(ds) && !Occurs(h, "app.") && (h == [] || h[|h| - 1] == '\n')
    ensures TotalRoutes(h + FileText(ds)) == |ds|
    ensures AsyncRoutes(h + FileText(ds)) == AsyncCount(ds)
    ensures ProgressReport(h + FileText(ds)) ==
              Report(|ds|, AsyncCount(ds), |ds| - AsyncCount(ds),
                     if |ds| == 0 then ZeroDivision else Percent(FloorPercent(AsyncCount(ds), |ds|)))
  {
    HeaderSkipped(h, FileText(ds), RouteMarker);
    HeaderSkipped(h, FileText(ds), AsyncMarker);
    FileReport(ds);
  }

  /* ---------------------------------------------------------------------- */
  /* A one-route file before and after conversion                           */
  /* ---------------------------------------------------------------------- */

  /** The file is written in two pieces below only because the verifier
      compares string literals of that length character by character. */
  const LoneTail: string := "db.prepare('SELECT 1').get() })"
  const LoneBody: string := ") => { " + LoneTail

  function LoneRoute(isAsync: bool): Decl {
    Decl("app.get(", "'/x'", " ", isAsync, LoneBody)
  }

  lemma LoneBodyNoOpening()
    ensures !Occurs(LoneBody, "app.")
  {
    MissingChar(") => { ", "app.", 0);
    MissingChar("db.prep", "app.", 0);
    MissingChar("are('SELECT 1').get() })", "app.", 1);
    assert LoneTail == "db.prep" + "are('SELECT 1').get() })";
    JoinNoOccur("db.prep", "are('SELECT 1').get() })", "app.");
    JoinNoOccur(") => { ", LoneTail, "app.");
  }

  lemma LoneBodyNotAsync()
    ensures !Occurs(LoneBody, AsyncMarker)
  {
    MissingChar(") => { ", AsyncMarker, 2);
    MissingChar(LoneTail, AsyncMarker, 2);
    JoinNoOccur(") => { ", LoneTail, AsyncMarker);
  }

  lemma LoneRouteValid(isAsync: bool)
    ensures ValidDecl(LoneRoute(isAsync))
  {
    MissingChar("'/x'", "app.", 0);
    LoneBodyNoOpening();
    LoneBodyNotAsync();
  }

  lemma SingleFile(d: Decl)
    ensures FileText([d]) == DeclText(d)
  {
    assert [d][1..] == [];
  }

  lemma PlainRouteLiteral()
    ensures DeclText(LoneRoute(false)) == "app.get('/x', (req, res) => { " + LoneTail
  {
    assert "app.get(" + ("'/x'" + ("," + (" " + ("(req, res" + ") => { "))))
        == "app.get('/x', (req, res) => { ";
  }

  lemma AsyncRouteLiteral()
    ensures DeclText(LoneRoute(true)) == "app.get('/x', async (req, res) => { " + LoneTail
  {
    assert "app.get(" + ("'/x'" + ("," + (" " + ("async (req, res" + ") => { "))))
        == "app.get('/x', async (req, res) => { ";
  }

  /** A server file with one route whose handler is not yet `async`. */
  lemma PlainRouteReport()
    ensures ProgressReport("app.get('/x', (req, res) => { " + "db.prepare('SELECT 1').get() })")
            == Report(1, 0, 1, Percent(0))
  {
    LoneRouteValid(false);
    SingleFile(LoneRoute(false));
    PlainRouteLiteral();
    FileReport([LoneRoute(false)]);
  }

  /** The same file once its handler is `async`. */
  lemma AsyncRouteReport()
    ensures ProgressReport("app.get('/x', async (req, res) => { " + "db.prepare('SELECT 1').get() })")
            == Report(1, 1, 0, Percent(100))
  {
    LoneRouteValid(true);
    SingleFile(LoneRoute(true));
    AsyncRouteLiteral();
    FileReport([LoneRoute(true)]);
  }
}
