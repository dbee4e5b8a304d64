/** `convert_route_to_async`: seven ordered substitutions, each applied to the
    whole result of the previous one with the semantics of Python's `re.sub`
    (leftmost matches, non-overlapping, scanning on after each replacement). */
module Rewrite {
  import opened Text
  import opened Rules

  /** The seven substitutions, named after what they rewrite. */
  datatype Rule =
    | ArrowHandler     // `(req, res) =>`            ~> `async (req, res) =>`
    | KeywordHandler   // `function (req, res)`      ~> `async function (req, res)`
    | PrepareGet       // `db.prepare(X).get(Y)`     ~> `await db.getOne(X, [Y])`
    | PrepareAll       // `db.prepare(X).all(Y)`     ~> `await db.getAll(X, [Y])`
    | BoundRunCall     // `const s = db.prepare(X); s.run(Y)` ~> `await db.run(X, [Y])`
    | InlineRunCall    // `db.prepare(X).run(Y)`     ~> `await db.run(X, [Y])`
    | ChangesField     // `result.changes`           ~> `result.rowCount`

  /** A literal every match of the rule starts with. */
  function Trigger(rule: Rule): (t: string)
    ensures |t| > 0
  {
    match rule
    case ArrowHandler => "(req, res"
    case KeywordHandler => "function"
    case PrepareGet => "db.prepare("
    case PrepareAll => "db.prepare("
    case BoundRunCall => "const"
    case InlineRunCall => "db.prepare("
    case ChangesField => "result.changes"
  }

  /** One match: the replacement text and the input after the match. */
  datatype Hit = Hit(replacement: string, rest: string)

  /** The asynchronous client call the database rules produce, from its
      opening (`await db.getOne(`, `await db.getAll(` or `await db.run(`) and
      the two captured texts. */
  function AwaitCall(open: string, stmt: string, args: string): string {
    open + stmt + ", [" + args + "])"
  }

  lemma HandlerStartsWithTrigger(h: Handler)
    requires ValidHandler(h)
    ensures StartsWith(ArrowText(h), "(req, res")
  {
    var s := ArrowText(h);
    if h.params == "req, res" {
      assert s == "(req, res" + (")" + (h.gap + ("=>" + h.rest)));
    } else {
      assert s == "(req, res" + (", next)" + (h.gap + ("=>" + h.rest)));
    }
    StartsWithPrefix("(req, res", s[9..]);
    assert s == "(req, res" + s[9..];
  }

  /** Tries the rule's pattern at the front of `s`. */
  function MatchAt(rule: Rule, s: string): (r: Option<Hit>)
    ensures r.Some? ==> StartsWith(s, Trigger(rule)) && |r.value.rest| < |s|
  {
    match rule
    case ArrowHandler =>
      (match ArrowMatch(s)
       case None => None
       case Some(h) =>
         HandlerStartsWithTrigger(h);
         Some(Hit("async (" + h.params + ") =>", h.rest)))
    case KeywordHandler =>
      (match KeywordMatch(s)
       case None => None
       case Some(h) =>
         StartsWithPrefix("function", h.gap + ("(" + h.params + ")" + h.rest));
         Some(Hit("async function (" + h.params + ")", h.rest)))
    case PrepareGet => CallHit(s, "get", "await db.getOne(")
    case PrepareAll => CallHit(s, "all", "await db.getAll(")
    case BoundRunCall =>
      (match BoundRun(s)
       case None => None
       case Some(b) =>
         StartsWithPrefix("const", b.gap1 + (b.name + (b.gap2 + ("=" + BoundStatementText(b.gap3, b.stmt, b.gap4, b.name, b.args, b.rest)))));
         Some(Hit(AwaitCall("await db.run(", b.stmt, b.args), b.rest)))
    case InlineRunCall => CallHit(s, "run", "await db.run(")
    case ChangesField =>
      (match Expect(s, "result.changes")
       case None => None
       case Some(rest) => Some(Hit("result.rowCount", rest)))
  }

  /** `db.prepare(X).<verb>(Y)` at the front of `s`, replaced by the awaited helper call. */
  function CallHit(s: string, verb: string, open: string): (r: Option<Hit>)
    ensures r.Some? ==> StartsWith(s, "db.prepare(") && |r.value.rest| < |s|
  {
    match PreparedCall(s, verb)
    case None => None
    case Some(c) =>
      StartsWithPrefix("db.prepare(", c.stmt + (")" + (("." + verb + "(") + ArgumentsText(c.args, c.rest))));
      assert CallText(c, verb) == "db.prepare(" + (c.stmt + (")" + (("." + verb + "(") + ArgumentsText(c.args, c.rest))));
      Some(Hit(AwaitCall(open, c.stmt, c.args), c.rest))
  }

  /** `re.sub` with one rule: the leftmost match is replaced and the scan
      resumes after it; where nothing matches, one character is copied.  Text
      without the rule's trigger is returned unchanged. */
  function Substitute(rule: Rule, s: string): (r: string)
    ensures !Occurs(s, Trigger(rule)) ==> r == s
    decreases |s|
  {
    if |s| == 0 then []
    else
      match MatchAt(rule, s)
      case Some(hit) =>
        assert s[0..] == s;
        hit.replacement + Substitute(rule, hit.rest)
      case None =>
        OccursInSuffix(s, 1, Trigger(rule));
        assert s == [s[0]] + s[1..];
        [s[0]] + Substitute(rule, s[1..])
  }

  /* ---------------------------------------------------------------------- */
  /* What each rule does to the text it matches                             */
  /* ---------------------------------------------------------------------- */

  /** Text before the first character of the rule's trigger is copied
      unchanged, and the scan continues after it. */
  lemma CopiesUntriggered(rule: Rule, a: string, b: string)
    requires Trigger(rule)[0] !in a
    ensures Substitute(rule, a + b) == a + Substitute(rule, b)
  {
    UntriggeredUnmatched(rule, a, b);
    CopiesUnmatched(rule, a, b);
  }

  /** The rule matches nowhere in text without its trigger's first character. */
  lemma UntriggeredUnmatched(rule: Rule, a: string, b: string)
    requires Trigger(rule)[0] !in a
    ensures Unmatched(rule, a, b)
  {
    forall i | 0 <= i < |a|
      ensures MatchAt(rule, (a + b)[i..]).None?
    {
      assert (a + b)[i..][0] == a[i];
      FirstCharDiffers((a + b)[i..], Trigger(rule));
    }
  }


  /** One step of the scan at a position where the rule does not match. */
  lemma CopiesOne(rule: Rule, s: string)
    requires |s| > 0 && MatchAt(rule, s).None?
    ensures Substitute(rule, s) == [s[0]] + Substitute(rule, s[1..])
  {
  }

  lemma CopiesFirst(rule: Rule, a: string, b: string)
    requires |a| > 0 && MatchAt(rule, a + b).None?
    ensures Substitute(rule, a + b) == [a[0]] + Substitute(rule, a[1..] + b)
  {
    CopiesOne(rule, a + b);
    assert (a + b)[1..] == a[1..] + b;
  }

  /** The rule matches at no position of `a`, looking on into `b`. */
  predicate Unmatched(rule: Rule, a: string, b: string) {
    forall i :: 0 <= i < |a| ==> MatchAt(rule, (a + b)[i..]).None?
  }

  /** Dropping the first position of an unmatched stretch leaves an
      unmatched stretch. */
  lemma UnmatchedTail(rule: Rule, a: string, b: string)
    requires |a| > 0 && Unmatched(rule, a, b)
    ensures MatchAt(rule, a + b).None? && Unmatched(rule, a[1..], b)
  {
    var s := a + b;
    assert s[0..] == s;
    forall i | 0 <= i < |a[1..]|
      ensures MatchAt(rule, (a[1..] + b)[i..]).None?
    {
      assert (a[1..] + b)[i..] == s[i + 1..];
    }
  }

  /** A stretch at none of whose positions the rule matches is copied
      through verbatim, and the scan continues after it. */
  lemma {:induction false} CopiesUnmatched(rule: Rule, a: string, b: string)
    requires Unmatched(rule, a, b)
    ensures Substitute(rule, a + b) == a + Substitute(rule, b)
    decreases |a|
  {
    if |a| > 0 {
      UnmatchedTail(rule, a, b);
      CopiesFirst(rule, a, b);
      CopiesUnmatched(rule, a[1..], b);
      ConsAppend(a, Substitute(rule, b));
    } else {
      assert a + b == b;
    }
  }

  /** Text at none of whose positions the rule matches is returned unchanged. */
  lemma UnmatchedUnchanged(rule: Rule, s: string)
    requires forall i :: 0 <= i < |s| ==> MatchAt(rule, s[i..]).None?
    ensures Substitute(rule, s) == s
  {
    assert s + [] == s;
    CopiesUnmatched(rule, s, []);
  }

  /** A stretch where the rule fails at the first position, and which holds
      no other start of the trigger, is unmatched. */
  lemma UnmatchedAfterFailure(rule: Rule, a: string, b: string)
    requires |a| > 0 && MatchAt(rule, a + b).None?
    requires !Occurs(a[1..], Trigger(rule)) && a[|a| - 1] !in Trigger(rule)
    ensures Unmatched(rule, a, b)
  {
    var s := a + b;
    NoStartIn(a[1..], b, Trigger(rule));
    forall i | 0 <= i < |a|
      ensures MatchAt(rule, s[i..]).None?
    {
      if i == 0 {
        assert s[i..] == s;
      } else {
        assert s[i..] == (a[1..] + b)[i - 1..];
      }
    }
  }

  /** Such a stretch is copied through verbatim. */
  lemma SkipsFailedMatch(rule: Rule, a: string, b: string)
    requires |a| > 0 && MatchAt(rule, a + b).None?
    requires !Occurs(a[1..], Trigger(rule)) && a[|a| - 1] !in Trigger(rule)
    ensures Substitute(rule, a + b) == a + Substitute(rule, b)
  {
    UnmatchedAfterFailure(rule, a, b);
    CopiesUnmatched(rule, a, b);
  }

  /** A stretch holding no start of the trigger, not even one running on past
      its end, is unmatched. */
  lemma TriggerFreeUnmatched(rule: Rule, a: string, b: string)
    requires !Occurs(a, Trigger(rule)) && (|a| == 0 || a[|a| - 1] !in Trigger(rule))
    ensures Unmatched(rule, a, b)
  {
    NoStartIn(a, b, Trigger(rule));
  }

  /** Such a stretch is copied through verbatim. */
  lemma CopiesTriggerFree(rule: Rule, a: string, b: string)
    requires !Occurs(a, Trigger(rule)) && (|a| == 0 || a[|a| - 1] !in Trigger(rule))
    ensures Substitute(rule, a + b) == a + Substitute(rule, b)
  {
    TriggerFreeUnmatched(rule, a, b);
    CopiesUnmatched(rule, a, b);
  }

  /** One step of the scan at a position where the rule matches. */
  lemma ReplacesAt(rule: Rule, s: string)
    requires MatchAt(rule, s).Some?
    ensures Substitute(rule, s) == MatchAt(rule, s).value.replacement + Substitute(rule, MatchAt(rule, s).value.rest)
  {
  }

  /** Rule 1 matches a whole handler and replaces it by `async (<params>) =>`. */
  lemma ArrowHit(h: Handler)
    requires ValidHandler(h)
    ensures MatchAt(ArrowHandler, ArrowText(h)) == Some(Hit("async (" + h.params + ") =>", h.rest))
  {
    ArrowParses(h);
  }

  /** Rule 2 matches `function (<params>)` and replaces it by `async function (<params>)`. */
  lemma KeywordHit(h: Handler)
    requires ValidHandler(h)
    ensures MatchAt(KeywordHandler, KeywordText(h)) == Some(Hit("async function (" + h.params + ")", h.rest))
  {
    KeywordParses(h);
  }

  /** Rule 3 matches the whole prepared `.get` call. */
  lemma GetHit(c: Call)
    requires ValidCall(c)
    ensures MatchAt(PrepareGet, CallText(c, "get")) == Some(Hit(AwaitCall("await db.getOne(", c.stmt, c.args), c.rest))
  {
    PreparedCallParses(c, "get");
  }

  /** Rule 4 matches the whole prepared `.all` call. */
  lemma AllHit(c: Call)
    requires ValidCall(c)
    ensures MatchAt(PrepareAll, CallText(c, "all")) == Some(Hit(AwaitCall("await db.getAll(", c.stmt, c.args), c.rest))
  {
    PreparedCallParses(c, "all");
  }

  /** Rule 5 matches the binding and the call on it together. */
  lemma BoundRunHit(b: Binding)
    requires ValidBinding(b)
    ensures MatchAt(BoundRunCall, BindingText(b)) == Some(Hit(AwaitCall("await db.run(", b.stmt, b.args), b.rest))
  {
    BoundRunParses(b);
  }

  /** Rule 6 matches the whole prepared `.run` call. */
  lemma InlineRunHit(c: Call)
    requires ValidCall(c)
    ensures MatchAt(InlineRunCall, CallText(c, "run")) == Some(Hit(AwaitCall("await db.run(", c.stmt, c.args), c.rest))
  {
    PreparedCallParses(c, "run");
  }

  /** Rule 1: `(req, res)` or `(req, res, next)`, any whitespace, then `=>`,
      becomes `async (<params>) =>`; the scan resumes after the `=>`. */
  lemma ArrowRewrite(a: string, h: Handler)
    requires ValidHandler(h) && Unmatched(ArrowHandler, a, ArrowText(h))
    ensures Substitute(ArrowHandler, a + ArrowText(h))
            == a + ("async (" + h.params + ") =>" + Substitute(ArrowHandler, h.rest))
  {
    CopiesUnmatched(ArrowHandler, a, ArrowText(h));
    ArrowHit(h);
    ReplacesAt(ArrowHandler, ArrowText(h));
  }


  /** Rule 2: `function`, any whitespace, then the parameter list, becomes
      `async function (<params>)`. */
  lemma KeywordRewrite(a: string, h: Handler)
    requires ValidHandler(h) && Unmatched(KeywordHandler, a, KeywordText(h))
    ensures Substitute(KeywordHandler, a + KeywordText(h))
            == a + ("async function (" + h.params + ")" + Substitute(KeywordHandler, h.rest))
  {
    CopiesUnmatched(KeywordHandler, a, KeywordText(h));
    KeywordHit(h);
    ReplacesAt(KeywordHandler, KeywordText(h));
  }


  /** Rule 3: `db.prepare(X).get(Y)` becomes `await db.getOne(X, [Y])`. */
  lemma GetRewrite(a: string, c: Call)
    requires ValidCall(c) && Unmatched(PrepareGet, a, CallText(c, "get"))
    ensures Substitute(PrepareGet, a + CallText(c, "get"))
            == a + ("await db.getOne(" + c.stmt + ", [" + c.args + "])" + Substitute(PrepareGet, c.rest))
  {
    CopiesUnmatched(PrepareGet, a, CallText(c, "get"));
    GetHit(c);
    ReplacesAt(PrepareGet, CallText(c, "get"));
  }


  /** Rule 4: `db.prepare(X).all(Y)` becomes `await db.getAll(X, [Y])`. */
  lemma AllRewrite(a: string, c: Call)
    requires ValidCall(c) && Unmatched(PrepareAll, a, CallText(c, "all"))
    ensures Substitute(PrepareAll, a + CallText(c, "all"))
            == a + ("await db.getAll(" + c.stmt + ", [" + c.args + "])" + Substitute(PrepareAll, c.rest))
  {
    CopiesUnmatched(PrepareAll, a, CallText(c, "all"));
    AllHit(c);
    ReplacesAt(PrepareAll, CallText(c, "all"));
  }


  /** Rule 5: `const s = db.prepare(X); s.run(Y)` collapses to
      `await db.run(X, [Y])`; the binding `s` is dropped. */
  lemma BoundRunRewrite(a: string, b: Binding)
    requires ValidBinding(b) && Unmatched(BoundRunCall, a, BindingText(b))
    ensures Substitute(BoundRunCall, a + BindingText(b))
            == a + ("await db.run(" + b.stmt + ", [" + b.args + "])" + Substitute(BoundRunCall, b.rest))
  {
    CopiesUnmatched(BoundRunCall, a, BindingText(b));
    BoundRunHit(b);
    ReplacesAt(BoundRunCall, BindingText(b));
  }


  /** Rule 6: `db.prepare(X).run(Y)` becomes `await db.run(X, [Y])`. */
  lemma InlineRunRewrite(a: string, c: Call)
    requires ValidCall(c) && Unmatched(InlineRunCall, a, CallText(c, "run"))
    ensures Substitute(InlineRunCall, a + CallText(c, "run"))
            == a + ("await db.run(" + c.stmt + ", [" + c.args + "])" + Substitute(InlineRunCall, c.rest))
  {
    CopiesUnmatched(InlineRunCall, a, CallText(c, "run"));
    InlineRunHit(c);
    ReplacesAt(InlineRunCall, CallText(c, "run"));
  }


  /* ---------------------------------------------------------------------- */
  /* The handler rules do not look for an existing `async`                  */
  /* ---------------------------------------------------------------------- */

  /** A handler already marked `async` is matched again and gains a second
      `async`. */
  lemma ArrowMarksAgain(h: Handler)
    requires ValidHandler(h)
    ensures Substitute(ArrowHandler, "async " + ArrowText(h))
            == "async " + ("async (" + h.params + ") =>" + Substitute(ArrowHandler, h.rest))
  {
    UntriggeredUnmatched(ArrowHandler, "async ", ArrowText(h));
    ArrowRewrite("async ", h);
  }

  lemma KeywordMarksAgain(h: Handler)
    requires ValidHandler(h)
    ensures Substitute(KeywordHandler, "async " + KeywordText(h))
            == "async " + ("async function (" + h.params + ")" + Substitute(KeywordHandler, h.rest))
  {
    UntriggeredUnmatched(KeywordHandler, "async ", KeywordText(h));
    KeywordRewrite("async ", h);
  }

  /** The concrete handler texts below, assembled from their parts. Each is
      stated on its own because the verifier compares literals character by
      character. */
  lemma ArrowLiteral()
    ensures ArrowText(Handler("req, res", " ", "")) == "(req, res) =>"
  {
  }

  lemma ArrowReplacementLiteral()
    ensures "async (" + "req, res" + ") =>" + "" == "async (req, res) =>"
    ensures "async " + "(req, res) =>" == "async (req, res) =>"
  {
  }

  lemma ArrowMarkedLiteral()
    ensures "async " + ("async (" + "req, res" + ") =>" + "") == "async async (req, res) =>"
  {
  }

  lemma KeywordLiteral()
    ensures KeywordText(Handler("req, res", " ", "")) == "function (req, res)"
  {
  }

  lemma KeywordReplacementLiteral()
    ensures "async function (" + "req, res" + ")" + "" == "async function (req, res)"
    ensures "async " + "function (req, res)" == "async function (req, res)"
  {
  }

  lemma KeywordMarkedLiteral()
    ensures "async " + ("async function (" + "req, res" + ")" + "") == "async async function (req, res)"
  {
  }

  /** Hence neither handler rule is idempotent. */
  lemma ArrowNotIdempotent()
    ensures Substitute(ArrowHandler, "(req, res) =>") == "async (req, res) =>"
    ensures Substitute(ArrowHandler, "async (req, res) =>") == "async async (req, res) =>"
  {
    var h := Handler("req, res", " ", "");
    ArrowLiteral();
    ArrowReplacementLiteral();
    ArrowMarkedLiteral();
    assert [] + ArrowText(h) == ArrowText(h);
    ArrowRewrite([], h);
    ArrowMarksAgain(h);
  }

  lemma KeywordNotIdempotent()
    ensures Substitute(KeywordHandler, "function (req, res)") == "async function (req, res)"
    ensures Substitute(KeywordHandler, "async function (req, res)") == "async async function (req, res)"
  {
    var h := Handler("req, res", " ", "");
    KeywordLiteral();
    KeywordReplacementLiteral();
    KeywordMarkedLiteral();
    assert [] + KeywordText(h) == KeywordText(h);
    KeywordRewrite([], h);
    KeywordMarksAgain(h);
  }

  /* ---------------------------------------------------------------------- */
  /* A handler inside a route registration                                  */
  /* ---------------------------------------------------------------------- */

  /** The route registration below, assembled from its parts. */
  lemma RouteLiteral()
    ensures "app.get('/x', (req, res) => 1)"
            == "app.get('/x'" + (", " + ArrowText(Handler("req, res", " ", " 1)")))
  {
  }

  lemma RouteMarkedLiteral()
    ensures "app.get('/x', async (req, res) => 1)"
            == "app.get('/x'" + (", " + ("async (" + "req, res" + ") =>" + " 1)"))
  {
  }

  /** The registration's own `(` is not followed by `req, res`, so only the
      handler is rewritten. */
  lemma RouteHandlerMarked()
    ensures Substitute(ArrowHandler, "app.get('/x', (req, res) => 1)")
            == "app.get('/x', async (req, res) => 1)"
  {
    var h := Handler("req, res", " ", " 1)");
    RouteLiteral();
    RouteMarkedLiteral();
    RouteOpeningCopied(ArrowText(h));
    LoneHandlerMarked();
  }

  /** `app.get('/x', ` holds no start of rule 1's trigger. */
  lemma RouteOpeningCopied(t: string)
    ensures Substitute(ArrowHandler, "app.get('/x'" + (", " + t)) == "app.get('/x'" + (", " + Substitute(ArrowHandler, t))
  {
    MissingChar("app.get('/x'", "(req, res", 1);
    CopiesTriggerFree(ArrowHandler, "app.get('/x'", ", " + t);
    CopiesUntriggered(ArrowHandler, ", ", t);
  }

  lemma LoneHandlerMarked()
    ensures Substitute(ArrowHandler, ArrowText(Handler("req, res", " ", " 1)")))
            == "async (" + "req, res" + ") =>" + " 1)"
  {
    MissingChar(" 1)", "(req, res", 0);
    LastHandlerMarked(Handler("req, res", " ", " 1)"));
  }

  /** A handler with no further trigger after it gains its `async` and the
      rest is copied. */
  lemma LastHandlerMarked(h: Handler)
    requires ValidHandler(h) && !Occurs(h.rest, "(req, res")
    ensures Substitute(ArrowHandler, ArrowText(h)) == "async (" + h.params + ") =>" + h.rest
  {
    ArrowHit(h);
    ReplacesAt(ArrowHandler, ArrowText(h));
  }

  /* ---------------------------------------------------------------------- */
  /* A binding whose next call is on another identifier                     */
  /* ---------------------------------------------------------------------- */

  /** `<name>.run(` cannot start `<other>.run(` for another identifier. */
  lemma RunTargetMismatch(name: string, other: string, tail: string)
    requires |name| > 0 && AllIn(name, Word) && |other| > 0 && AllIn(other, Word)
    requires name != other
    ensures !StartsWith((other + ".run(") + tail, name + ".run(")
  {
    var s := (other + ".run(") + tail;
    var p := name + ".run(";
    if |name| < |other| {
      assert s[|name|] != p[|name|];
    } else if |name| > |other| {
      assert s[|other|] != p[|other|];
    } else {
      var j :| 0 <= j < |name| && name[j] != other[j];
      assert s[j] != p[j];
    }
  }

  /** After `=`, a statement followed by `;` and a call on another identifier
      does not match the rest of rule 5's pattern. */
  lemma {:induction false} BoundStatementNeedsSameName(
    gap3: string, stmt: string, gap4: string, name: string, other: string, args: string, rest: string)
    requires AllIn(gap3, Space) && |stmt| > 0 && AllIn(stmt, NotCloseParen) && AllIn(gap4, Space)
    requires |name| > 0 && AllIn(name, Word) && |other| > 0 && AllIn(other, Word) && other != name
    ensures BoundStatement(BoundStatementText(gap3, stmt, gap4, other, args, rest), name) == None
  {
    var call := ArgumentsText(args, rest);
    var afterSemi := gap4 + ((other + ".run(") + call);
    TakeRunSplit(gap3, StatementText(stmt, ";" + afterSemi), Space);
    StatementParses(stmt, ";" + afterSemi);
    ExpectPrefix(";", afterSemi);
    assert ((other + ".run(") + call)[0] == other[0];
    TakeRunSplit(gap4, (other + ".run(") + call, Space);
    RunTargetMismatch(name, other, call);
  }

  /** `const s = db.prepare(X); t.run(Y)` with `t` not `s`: the back-reference
      fails, so rule 5 does not match at `const`. */
  lemma {:induction false} OtherTargetNotBound(b: Binding, other: string)
    requires ValidBinding(b)
    requires |other| > 0 && AllIn(other, Word) && other != b.name
    ensures MatchAt(BoundRunCall,
              "const" + (b.gap1 + (b.name + (b.gap2 + ("=" +
                BoundStatementText(b.gap3, b.stmt, b.gap4, other, b.args, b.rest))))))
            == None
  {
    var tail := BoundStatementText(b.gap3, b.stmt, b.gap4, other, b.args, b.rest);
    var afterName := b.gap2 + ("=" + tail);
    var afterGap1 := b.name + afterName;
    ExpectPrefix("const", b.gap1 + afterGap1);
    assert afterGap1[0] == b.name[0];
    TakeRunSplit(b.gap1, afterGap1, Space);
    if |b.gap2| > 0 {
      assert afterName[0] == b.gap2[0];
    }
    TakeRunSplit(b.name, afterName, Word);
    TakeRunSplit(b.gap2, "=" + tail, Space);
    ExpectPrefix("=", tail);
    BoundStatementNeedsSameName(b.gap3, b.stmt, b.gap4, b.name, other, b.args, b.rest);
  }

  /** A statement followed by `;` is not followed by `.run(`, so rule 6 does
      not match at its `db.prepare(` either. */
  lemma {:induction false} SemicolonStopsInlineRun(stmt: string, tail: string)
    requires |stmt| > 0 && AllIn(stmt, NotCloseParen)
    ensures MatchAt(InlineRunCall, StatementText(stmt, ";" + tail)) == None
  {
    StatementParses(stmt, ";" + tail);
    assert (";" + tail)[0] == ';';
    assert !StartsWith(";" + tail, "." + "run" + "(");
  }
}
