/** The patterns of the route converter, one parser per pattern.  Each parser
    looks at the input from the position where a match is attempted and either
    fails or returns the captured groups together with the text after the
    match.  Every greedy part of the patterns stops at a character the next
    part of the pattern cannot accept, so the backtracking engine has only one
    way to match and the parsers need no backtracking.  Each parser comes with
    a printer (`...Text`): a parse always re-prints to its input, and printing a
    well-formed capture parses back to it. */
module Rules {
  import opened Text

  /* ---------------------------------------------------------------------- */
  /* Handler parameter lists: `(req, res)` or `(req, res, next)`            */
  /* ---------------------------------------------------------------------- */

  predicate IsHandlerParams(p: string) {
    p == "req, res" || p == "req, res, next"
  }

  /** `\((req, res(?:, next)?)\)`: the optional `, next` is tried first, and
      the two alternatives differ at their tenth character, so at most one of
      them matches. */
  function ParamList(s: string): (r: Option<(string, string)>)
    ensures r.Some? ==> IsHandlerParams(r.value.0) && s == "(" + r.value.0 + ")" + r.value.1
  {
    match Expect(s, "(req, res, next)")
    case Some(rest) =>
      assert "(req, res, next)" == "(" + "req, res, next" + ")";
      Some(("req, res, next", rest))
    case None =>
      match Expect(s, "(req, res)")
      case Some(rest) =>
        assert "(req, res)" == "(" + "req, res" + ")";
        Some(("req, res", rest))
      case None => None
  }

  lemma ParamListParses(p: string, rest: string)
    requires IsHandlerParams(p)
    ensures ParamList("(" + p + ")" + rest) == Some((p, rest))
  {
    var s := "(" + p + ")" + rest;
    if p == "req, res" {
      assert s == "(req, res)" + rest;
      ExpectPrefix("(req, res)", rest);
      assert s[9] == ')';
    } else {
      assert s == "(req, res, next)" + rest;
      ExpectPrefix("(req, res, next)", rest);
    }
  }

  /* ---------------------------------------------------------------------- */
  /* Rules 1 and 2: handler declarations                                    */
  /* ---------------------------------------------------------------------- */

  /** A matched handler: its parameter list, the whitespace the pattern
      skipped, and the text after the match. */
  datatype Handler = Handler(params: string, gap: string, rest: string)

  predicate ValidHandler(h: Handler) {
    IsHandlerParams(h.params) && AllIn(h.gap, Space)
  }

  /** The text `\((req, res(?:, next)?)\)\s*=>` matches, followed by the rest. */
  function ArrowText(h: Handler): string {
    "(" + h.params + ")" + (h.gap + ("=>" + h.rest))
  }

  /** The text `function\s*\((req, res(?:, next)?)\)` matches, followed by the rest. */
  function KeywordText(h: Handler): string {
    "function" + (h.gap + ("(" + h.params + ")" + h.rest))
  }

  /** Matches `\((req, res(?:, next)?)\)\s*=>` at the front of `s`. */
  function ArrowMatch(s: string): (r: Option<Handler>)
    ensures r.Some? ==> ValidHandler(r.value) && ArrowText(r.value) == s
  {
    match ParamList(s)
    case None => None
    case Some((params, afterParams)) =>
      var (gap, afterGap) := TakeRun(afterParams, Space);
      match Expect(afterGap, "=>")
      case None => None
      case Some(rest) => Some(Handler(params, gap, rest))
  }

  lemma {:induction false} ArrowParses(h: Handler)
    requires ValidHandler(h)
    ensures ArrowMatch(ArrowText(h)) == Some(h)
  {
    ParamListParses(h.params, h.gap + ("=>" + h.rest));
    TakeRunSplit(h.gap, "=>" + h.rest, Space);
    ExpectPrefix("=>", h.rest);
  }

  /** Matches `function\s*\((req, res(?:, next)?)\)` at the front of `s`. */
  function KeywordMatch(s: string): (r: Option<Handler>)
    ensures r.Some? ==> ValidHandler(r.value) && KeywordText(r.value) == s
  {
    match Expect(s, "function")
    case None => None
    case Some(afterKeyword) =>
      var (gap, afterGap) := TakeRun(afterKeyword, Space);
      match ParamList(afterGap)
      case None => None
      case Some((params, rest)) => Some(Handler(params, gap, rest))
  }

  lemma {:induction false} KeywordParses(h: Handler)
    requires ValidHandler(h)
    ensures KeywordMatch(KeywordText(h)) == Some(h)
  {
    var afterGap := "(" + h.params + ")" + h.rest;
    ExpectPrefix("function", h.gap + afterGap);
    TakeRunSplit(h.gap, afterGap, Space);
    ParamListParses(h.params, h.rest);
  }

  /* ---------------------------------------------------------------------- */
  /* Rules 3, 4 and 6: `db.prepare(X).get(Y)`, `.all(Y)`, `.run(Y)`          */
  /* ---------------------------------------------------------------------- */

  /** The text `db\.prepare\(([^)]+)\)` matches, followed by the rest. */
  function StatementText(stmt: string, rest: string): string {
    "db.prepare(" + stmt + ")" + rest
  }

  /** Matches `db\.prepare\(([^)]+)\)` at the front of `s`: the statement text
      runs up to the first `)` and must not be empty. */
  function Statement(s: string): (r: Option<(string, string)>)
    ensures r.Some? ==> |r.value.0| > 0 && AllIn(r.value.0, NotCloseParen)
                        && s == StatementText(r.value.0, r.value.1)
  {
    match Expect(s, "db.prepare(")
    case None => None
    case Some(afterOpen) =>
      var (stmt, afterStmt) := TakeRun(afterOpen, NotCloseParen);
      if |stmt| == 0 then None
      else
        match Expect(afterStmt, ")")
        case None => None
        case Some(rest) => Some((stmt, rest))
  }

  lemma {:induction false} StatementParses(stmt: string, rest: string)
    requires |stmt| > 0 && AllIn(stmt, NotCloseParen)
    ensures Statement(StatementText(stmt, rest)) == Some((stmt, rest))
  {
    assert StatementText(stmt, rest) == "db.prepare(" + (stmt + (")" + rest));
    ExpectPrefix("db.prepare(", stmt + (")" + rest));
    TakeRunSplit(stmt, ")" + rest, NotCloseParen);
    ExpectPrefix(")", rest);
  }

  /** The text `([^)]*)\)` matches, followed by the rest. */
  function ArgumentsText(args: string, rest: string): string {
    args + (")" + rest)
  }

  /** Matches `([^)]*)\)`, the argument text after an opening parenthesis:
      everything up to the first `)`, which is consumed. */
  function Arguments(s: string): (r: Option<(string, string)>)
    ensures r.Some? ==> AllIn(r.value.0, NotCloseParen) && s == ArgumentsText(r.value.0, r.value.1)
  {
    var (args, afterArgs) := TakeRun(s, NotCloseParen);
    match Expect(afterArgs, ")")
    case None => None
    case Some(rest) => Some((args, rest))
  }

  lemma {:induction false} ArgumentsParse(args: string, rest: string)
    requires AllIn(args, NotCloseParen)
    ensures Arguments(ArgumentsText(args, rest)) == Some((args, rest))
  {
    TakeRunSplit(args, ")" + rest, NotCloseParen);
    ExpectPrefix(")", rest);
  }

  /** A matched prepared-statement call: the statement and argument texts
      (the two captured groups) and the text after the match. */
  datatype Call = Call(stmt: string, args: string, rest: string)

  predicate ValidCall(c: Call) {
    |c.stmt| > 0 && AllIn(c.stmt, NotCloseParen) && AllIn(c.args, NotCloseParen)
  }

  /** The text `db\.prepare\(([^)]+)\)\.<verb>\(([^)]*)\)` matches, followed by the rest. */
  function CallText(c: Call, verb: string): string {
    StatementText(c.stmt, ("." + verb + "(") + ArgumentsText(c.args, c.rest))
  }

  /** Matches `db\.prepare\(([^)]+)\)\.<verb>\(([^)]*)\)` at the front of `s`. */
  function PreparedCall(s: string, verb: string): (r: Option<Call>)
    ensures r.Some? ==> ValidCall(r.value) && CallText(r.value, verb) == s
  {
    match Statement(s)
    case None => None
    case Some((stmt, afterStmt)) =>
      match Expect(afterStmt, "." + verb + "(")
      case None => None
      case Some(afterOpen) =>
        match Arguments(afterOpen)
        case None => None
        case Some((args, rest)) => Some(Call(stmt, args, rest))
  }

  lemma {:induction false} PreparedCallParses(c: Call, verb: string)
    requires ValidCall(c)
    ensures PreparedCall(CallText(c, verb), verb) == Some(c)
  {
    var tail := ArgumentsText(c.args, c.rest);
    StatementParses(c.stmt, ("." + verb + "(") + tail);
    ExpectPrefix("." + verb + "(", tail);
    ArgumentsParse(c.args, c.rest);
  }

  /* ---------------------------------------------------------------------- */
  /* Rule 5: `const s = db.prepare(X); s.run(Y)`                            */
  /* ---------------------------------------------------------------------- */

  /** A matched two-statement mutation: the whitespace runs, the statement
      binding's name, the statement and argument texts, and the text after
      the match. */
  datatype Binding = Binding(
    gap1: string, name: string, gap2: string, gap3: string,
    stmt: string, gap4: string, args: string, rest: string)

  predicate ValidBinding(b: Binding) {
    && |b.gap1| > 0 && AllIn(b.gap1, Space)
    && |b.name| > 0 && AllIn(b.name, Word)
    && AllIn(b.gap2, Space) && AllIn(b.gap3, Space)
    && |b.stmt| > 0 && AllIn(b.stmt, NotCloseParen)
    && AllIn(b.gap4, Space)
    && AllIn(b.args, NotCloseParen)
  }

  /** The text `\s*db\.prepare\(([^)]+)\);\s*<name>\.run\(([^)]*)\)` matches,
      followed by the rest: everything after the `=` of the binding. */
  function BoundStatementText(gap3: string, stmt: string, gap4: string, name: string, args: string, rest: string): string {
    gap3 + StatementText(stmt, ";" + (gap4 + ((name + ".run(") + ArgumentsText(args, rest))))
  }

  /** The text `const\s+(\w+)\s*=\s*db\.prepare\(([^)]+)\);\s*\1\.run\(([^)]*)\)`
      matches, followed by the rest; the binding's name appears twice. */
  function BindingText(b: Binding): string {
    "const" + (b.gap1 + (b.name + (b.gap2 + ("=" + BoundStatementText(b.gap3, b.stmt, b.gap4, b.name, b.args, b.rest)))))
  }

  /** Matches the part after `=`: `\s*db\.prepare\(([^)]+)\);\s*\1\.run\(([^)]*)\)`,
      where the back-reference `\1` is the literal `name`. */
  function BoundStatement(s: string, name: string): (r: Option<(string, string, string, string, string)>)
    ensures r.Some? ==>
      var (gap3, stmt, gap4, args, rest) := r.value;
      && AllIn(gap3, Space) && |stmt| > 0 && AllIn(stmt, NotCloseParen)
      && AllIn(gap4, Space) && AllIn(args, NotCloseParen)
      && s == BoundStatementText(gap3, stmt, gap4, name, args, rest)
  {
    var (gap3, afterGap3) := TakeRun(s, Space);
    match Statement(afterGap3)
    case None => None
    case Some((stmt, afterStmt)) =>
      match Expect(afterStmt, ";")
      case None => None
      case Some(afterSemi) =>
        var (gap4, afterGap4) := TakeRun(afterSemi, Space);
        match Expect(afterGap4, name + ".run(")
        case None => None
        case Some(afterOpen) =>
          match Arguments(afterOpen)
          case None => None
          case Some((args, rest)) => Some((gap3, stmt, gap4, args, rest))
  }

  lemma {:induction false} BoundStatementParses(gap3: string, stmt: string, gap4: string, name: string, args: string, rest: string)
    requires AllIn(gap3, Space) && |stmt| > 0 && AllIn(stmt, NotCloseParen)
    requires AllIn(gap4, Space) && |name| > 0 && AllIn(name, Word) && AllIn(args, NotCloseParen)
    ensures BoundStatement(BoundStatementText(gap3, stmt, gap4, name, args, rest), name)
            == Some((gap3, stmt, gap4, args, rest))
  {
    var call := ArgumentsText(args, rest);
    var afterSemi := gap4 + ((name + ".run(") + call);
    TakeRunSplit(gap3, StatementText(stmt, ";" + afterSemi), Space);
    StatementParses(stmt, ";" + afterSemi);
    ExpectPrefix(";", afterSemi);
    assert ((name + ".run(") + call)[0] == name[0];
    TakeRunSplit(gap4, (name + ".run(") + call, Space);
    ExpectPrefix(name + ".run(", call);
    ArgumentsParse(args, rest);
  }

  /** Matches `const\s+(\w+)\s*=\s*db\.prepare\(([^)]+)\);\s*\1\.run\(([^)]*)\)`
      at the front of `s`; the back-reference `\1` must repeat the name. */
  function BoundRun(s: string): (r: Option<Binding>)
    ensures r.Some? ==> ValidBinding(r.value) && BindingText(r.value) == s
  {
    match Expect(s, "const")
    case None => None
    case Some(afterKeyword) =>
      var (gap1, afterGap1) := TakeRun(afterKeyword, Space);
      var (name, afterName) := TakeRun(afterGap1, Word);
      var (gap2, afterGap2) := TakeRun(afterName, Space);
      if |gap1| == 0 || |name| == 0 then None
      else
        match Expect(afterGap2, "=")
        case None => None
        case Some(afterEq) =>
          match BoundStatement(afterEq, name)
          case None => None
          case Some((gap3, stmt, gap4, args, rest)) =>
            Some(Binding(gap1, name, gap2, gap3, stmt, gap4, args, rest))
  }

  lemma {:induction false} BoundRunParses(b: Binding)
    requires ValidBinding(b)
    ensures BoundRun(BindingText(b)) == Some(b)
  {
    var tail := BoundStatementText(b.gap3, b.stmt, b.gap4, b.name, b.args, b.rest);
    var afterName := b.gap2 + ("=" + tail);
    var afterGap1 := b.name + afterName;
    ExpectPrefix("const", b.gap1 + afterGap1);
    assert afterGap1[0] == b.name[0];
    TakeRunSplit(b.gap1, afterGap1, Space);
    if |b.gap2| > 0 {
      assert afterName[0] == b.gap2[0];
    }
    TakeRunSplit(b.name, afterName, Word);
    TakeRunSplit(b.gap2, "=" + tail, Space);
    ExpectPrefix("=", tail);
    BoundStatementParses(b.gap3, b.stmt, b.gap4, b.name, b.args, b.rest);
  }
}
