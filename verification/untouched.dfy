/** What the substitutions leave alone.  Text that starts like a rule's target
    but does not complete its pattern is copied through verbatim, and the scan
    resumes after it; the lemmas here say so for the near misses a route file
    holds: a prepared call with another verb, a handler without `=>`, and a
    statement binding whose `.run(` is on another identifier. */
module Untouched {
  import opened Text
  import opened Rules
  import opened Rewrite

  /* ---------------------------------------------------------------------- */
  /* Rules 3, 4 and 6 and a prepared call with another verb                 */
  /* ---------------------------------------------------------------------- */

  /** The three rules that rewrite `db.prepare(X).<verb>(Y)`. */
  predicate IsCallRule(rule: Rule) {
    rule.PrepareGet? || rule.PrepareAll? || rule.InlineRunCall?
  }

  /** The method name each of them expects after the statement. */
  function Verb(rule: Rule): string
    requires IsCallRule(rule)
  {
    match rule
    case PrepareGet => "get"
    case PrepareAll => "all"
    case InlineRunCall => "run"
  }

  lemma CallRuleMisses(rule: Rule, s: string)
    requires IsCallRule(rule) && PreparedCall(s, Verb(rule)).None?
    ensures MatchAt(rule, s).None?
  {
  }

  /** Eleven characters, a text without `)`, the closing `)`, then anything
      but `.<verb>(`: the prepared-call pattern fails here, whether or not the
      eleven characters spell `db.prepare(`. */
  lemma StatementFails(x: string, u: string, tail: string, verb: string)
    requires |x| == 11 && AllIn(u, NotCloseParen) && !StartsWith(tail, "." + verb + "(")
    ensures PreparedCall(x + u + ")" + tail, verb).None?
  {
    var s := x + u + ")" + tail;
    if x == "db.prepare(" {
      if |u| > 0 {
        StatementParses(u, tail);
      } else {
        assert s == "db.prepare(" + (")" + tail);
        ExpectPrefix("db.prepare(", ")" + tail);
        TakeRunSplit("", ")" + tail, NotCloseParen);
        assert "" + (")" + tail) == ")" + tail;
      }
    } else {
      assert s[..11] == x;
    }
  }

  /** The prepared-call pattern fails at position `i` of a statement that is
      followed by anything but `.<verb>(`: the statement text runs up to its
      closing `)`, so every attempt inside it stops at that same `)`. */
  lemma StatementFailsAt(stmt: string, tail: string, verb: string, i: nat)
    requires AllIn(stmt, NotCloseParen) && !StartsWith(tail, "." + verb + "(")
    requires i < |stmt| + 12
    ensures PreparedCall(StatementText(stmt, tail)[i..], verb).None?
  {
    var a := "db.prepare(" + stmt + ")";
    var s := a + tail;
    if i <= |stmt| {
      var x := a[i..i + 11];
      assert a[i + 11..] == stmt[i..] + ")";
      assert a[i..] == x + a[i + 11..];
      assert s[i..] == x + stmt[i..] + ")" + tail;
      StatementFails(x, stmt[i..], tail, verb);
    } else {
      var k := |stmt| + 11 - i;
      assert s[i..][k] == ')';
      assert "db.prepare("[k] in "db.prepare(";
      CharDiffers(s[i..], "db.prepare(", k);
    }
  }

  /** Hence the rule matches nowhere inside such a statement. */
  lemma StatementUnmatched(rule: Rule, stmt: string, tail: string)
    requires IsCallRule(rule) && AllIn(stmt, NotCloseParen)
    requires !StartsWith(tail, "." + Verb(rule) + "(")
    ensures Unmatched(rule, "db.prepare(" + stmt + ")", tail)
  {
    var a := "db.prepare(" + stmt + ")";
    forall i | 0 <= i < |a|
      ensures MatchAt(rule, (a + tail)[i..]).None?
    {
      StatementFailsAt(stmt, tail, Verb(rule), i);
      CallRuleMisses(rule, (a + tail)[i..]);
    }
  }

  /** A prepared statement not followed by the rule's `.<verb>(` is copied
      through whole, whatever the statement text holds, and the scan resumes
      after its closing `)`. */
  lemma StatementCopied(rule: Rule, stmt: string, tail: string)
    requires IsCallRule(rule) && AllIn(stmt, NotCloseParen)
    requires !StartsWith(tail, "." + Verb(rule) + "(")
    ensures Substitute(rule, StatementText(stmt, tail)) == "db.prepare(" + stmt + ")" + Substitute(rule, tail)
  {
    StatementUnmatched(rule, stmt, tail);
    CopiesUnmatched(rule, "db.prepare(" + stmt + ")", tail);
  }

  /** The three verbs differ in their first letter. */
  lemma OtherOpening(verb: string, other: string, tail: string)
    requires verb in {"get", "all", "run"} && other in {"get", "all", "run"} && verb != other
    ensures !StartsWith(("." + verb + "(") + tail, "." + other + "(")
  {
    var s := ("." + verb + "(") + tail;
    assert s[1] == verb[0];
    CharDiffers(s, "." + other + "(", 1);
  }

  /** Each of rules 3, 4 and 6 leaves the prepared calls of the other two
      verbs alone: `db.prepare(X).<verb>(` is copied and only the argument
      text and what follows are scanned on. */
  lemma OtherVerbCopied(rule: Rule, c: Call, verb: string)
    requires IsCallRule(rule) && ValidCall(c)
    requires verb in {"get", "all", "run"} && verb != Verb(rule)
    ensures Substitute(rule, CallText(c, verb))
            == StatementText(c.stmt, ("." + verb + "(") + Substitute(rule, ArgumentsText(c.args, c.rest)))
  {
    var tail := ArgumentsText(c.args, c.rest);
    OtherOpening(verb, Verb(rule), tail);
    StatementCopied(rule, c.stmt, ("." + verb + "(") + tail);
    OpeningCopied(rule, verb, tail);
  }

  /** The opening `.<verb>(` holds no `d` and is copied. */
  lemma OpeningCopied(rule: Rule, verb: string, tail: string)
    requires IsCallRule(rule) && verb in {"get", "all", "run"}
    ensures Substitute(rule, ("." + verb + "(") + tail) == ("." + verb + "(") + Substitute(rule, tail)
  {
    assert Trigger(rule) == "db.prepare(";
    CopiesUntriggered(rule, "." + verb + "(", tail);
  }

  /* ---------------------------------------------------------------------- */
  /* Rules 1 and 2 and the other kind of handler                            */
  /* ---------------------------------------------------------------------- */

  /** The parameter list of a handler not followed by `=>` does not match rule 1. */
  lemma ParamsWithoutArrowFail(h: Handler)
    requires ValidHandler(h) && !StartsWith(TakeRun(h.rest, Space).1, "=>")
    ensures MatchAt(ArrowHandler, "(" + h.params + ")" + h.rest).None?
  {
    ParamListParses(h.params, h.rest);
  }

  /** No other `(` follows inside a parameter list, and it ends in `)`. */
  lemma ParamsHoldOneParen(p: string)
    requires IsHandlerParams(p)
    ensures !Occurs(("(" + p + ")")[1..], "(req, res")
    ensures ("(" + p + ")")[|"(" + p + ")"| - 1] !in "(req, res"
  {
    assert ("(" + p + ")")[1..] == p + ")";
    assert '(' !in p + ")";
    MissingChar(p + ")", "(req, res", 0);
  }

  /** ... so it is copied. */
  lemma ParamsWithoutArrowCopied(h: Handler)
    requires ValidHandler(h) && !StartsWith(TakeRun(h.rest, Space).1, "=>")
    ensures Substitute(ArrowHandler, "(" + h.params + ")" + h.rest)
            == "(" + h.params + ")" + Substitute(ArrowHandler, h.rest)
  {
    ParamsWithoutArrowFail(h);
    ParamsHoldOneParen(h.params);
    SkipsFailedMatch(ArrowHandler, "(" + h.params + ")", h.rest);
  }

  /** `function` and whitespace hold no `(`. */
  lemma KeywordHeadHoldsNoParen(h: Handler)
    requires ValidHandler(h)
    ensures '(' !in "function" + h.gap
  {
    assert !InClass('(', Space);
  }

  /** Rule 1 leaves `function (req, res)` alone when no `=>` follows it: only
      what comes after the parameter list is scanned on. */
  lemma ArrowSkipsKeywordHandler(h: Handler)
    requires ValidHandler(h) && !StartsWith(TakeRun(h.rest, Space).1, "=>")
    ensures Substitute(ArrowHandler, KeywordText(h))
            == ("function" + h.gap) + ("(" + h.params + ")" + Substitute(ArrowHandler, h.rest))
  {
    KeywordHeadHoldsNoParen(h);
    KeywordTextSplits(h);
    CopiesUntriggered(ArrowHandler, "function" + h.gap, "(" + h.params + ")" + h.rest);
    ParamsWithoutArrowCopied(h);
  }

  lemma KeywordTextSplits(h: Handler)
    ensures KeywordText(h) == ("function" + h.gap) + ("(" + h.params + ")" + h.rest)
  {
  }

  /** An arrow handler up to its `=>` holds no `f`. */
  lemma ArrowHeadHoldsNoF(h: Handler)
    requires ValidHandler(h)
    ensures 'f' !in "(" + h.params + ")" + (h.gap + "=>")
  {
    assert !InClass('f', Space);
  }

  /** Rule 2 leaves an arrow handler alone: only what follows its `=>` is
      scanned on. */
  lemma KeywordSkipsArrowHandler(h: Handler)
    requires ValidHandler(h)
    ensures Substitute(KeywordHandler, ArrowText(h))
            == ("(" + h.params + ")" + (h.gap + "=>")) + Substitute(KeywordHandler, h.rest)
  {
    ArrowHeadHoldsNoF(h);
    ArrowTextSplits(h);
    CopiesUntriggered(KeywordHandler, "(" + h.params + ")" + (h.gap + "=>"), h.rest);
  }

  lemma ArrowTextSplits(h: Handler)
    ensures ArrowText(h) == ("(" + h.params + ")" + (h.gap + "=>")) + h.rest
  {
  }

  /* ---------------------------------------------------------------------- */
  /* Rules 5 and 6 and a binding whose `.run(` is on another identifier     */
  /* ---------------------------------------------------------------------- */

  /** `const s = db.prepare(X); t.run(Y)` followed by the rest: the text of
      rule 5's pattern with the back-reference broken. */
  function OtherBindingText(b: Binding, other: string): string {
    "const" + (b.gap1 + (b.name + (b.gap2 + ("=" + BoundStatementText(b.gap3, b.stmt, b.gap4, other, b.args, b.rest)))))
  }

  /** Its part up to the statement: `const s = `. */
  function BindingHead(b: Binding): string {
    "const" + (b.gap1 + (b.name + (b.gap2 + ("=" + b.gap3))))
  }

  /** Its part from the statement to the closing `)` of the call: `db.prepare(X); t.run(Y)`. */
  function OtherRun(b: Binding, other: string): string {
    StatementText(b.stmt, ";" + (b.gap4 + ((other + ".run(") + (b.args + ")"))))
  }

  lemma OtherBindingSplits(b: Binding, other: string)
    ensures OtherBindingText(b, other) == BindingHead(b) + (OtherRun(b, other) + b.rest)
  {
    var call := (other + ".run(") + (b.args + ")");
    assert (b.args + ")") + b.rest == ArgumentsText(b.args, b.rest);
    assert (";" + (b.gap4 + call)) + b.rest == ";" + (b.gap4 + ((other + ".run(") + ArgumentsText(b.args, b.rest)));
  }

  /** Rule 5 leaves such a text alone, up to its rest, when no other `const`
      starts inside it. */
  lemma BoundRunSkipsOtherTarget(b: Binding, other: string)
    requires ValidBinding(b) && |other| > 0 && AllIn(other, Word) && other != b.name
    requires !Occurs((BindingHead(b) + OtherRun(b, other))[1..], "const")
    ensures Substitute(BoundRunCall, OtherBindingText(b, other))
            == BindingHead(b) + OtherRun(b, other) + Substitute(BoundRunCall, b.rest)
  {
    var a := BindingHead(b) + OtherRun(b, other);
    OtherBindingSplits(b, other);
    assert a + b.rest == OtherBindingText(b, other);
    OtherTargetNotBound(b, other);
    assert a[|a| - 1] == ')';
    SkipsFailedMatch(BoundRunCall, a, b.rest);
  }

  /** The head `const s = ` holds no `.`, so no `db.prepare(`. */
  lemma HeadHasNoStatement(b: Binding)
    requires ValidBinding(b)
    ensures !Occurs(BindingHead(b), "db.prepare(")
    ensures BindingHead(b)[|BindingHead(b)| - 1] !in "db.prepare("
  {
    var h := BindingHead(b);
    assert !InClass('.', Space) && !InClass('.', Word);
    assert '.' !in b.gap1 && '.' !in b.name && '.' !in b.gap2 && '.' !in b.gap3;
    MissingChar(h, "db.prepare(", 2);
    if |b.gap3| > 0 {
      assert h[|h| - 1] == b.gap3[|b.gap3| - 1];
      assert InClass(h[|h| - 1], Space);
    }
  }

  /** Rule 6 does not match at the statement: `;` follows it, not `.run(`. */
  lemma OtherRunFails(b: Binding, other: string)
    requires ValidBinding(b)
    ensures MatchAt(InlineRunCall, OtherRun(b, other) + b.rest).None?
  {
    var tail := ";" + (b.gap4 + ((other + ".run(") + (b.args + ")")));
    FirstCharDiffers(tail + b.rest, ".run(");
    StatementFails("db.prepare(", b.stmt, tail + b.rest, "run");
    assert OtherRun(b, other) + b.rest == "db.prepare(" + b.stmt + ")" + (tail + b.rest);
    CallRuleMisses(InlineRunCall, OtherRun(b, other) + b.rest);
  }

  /** So the statement and the call after it are copied. */
  lemma OtherRunCopied(b: Binding, other: string)
    requires ValidBinding(b)
    requires !Occurs(OtherRun(b, other)[1..], "db.prepare(")
    ensures Substitute(InlineRunCall, OtherRun(b, other) + b.rest)
            == OtherRun(b, other) + Substitute(InlineRunCall, b.rest)
  {
    var a := OtherRun(b, other);
    OtherRunFails(b, other);
    assert a[|a| - 1] == ')';
    SkipsFailedMatch(InlineRunCall, a, b.rest);
  }

  /** Rule 6 leaves the whole text alone, whatever the identifier: the `;`
      after the statement is not `.run(`.  The statement and argument texts
      are taken to hold no further `db.prepare(`. */
  lemma InlineRunSkipsBinding(b: Binding, other: string)
    requires ValidBinding(b)
    requires !Occurs(OtherRun(b, other)[1..], "db.prepare(")
    ensures Substitute(InlineRunCall, OtherBindingText(b, other))
            == BindingHead(b) + OtherRun(b, other) + Substitute(InlineRunCall, b.rest)
  {
    OtherBindingSplits(b, other);
    HeadHasNoStatement(b);
    CopiesTriggerFree(InlineRunCall, BindingHead(b), OtherRun(b, other) + b.rest);
    OtherRunCopied(b, other);
  }
}
