/** Character-level building blocks shared by the rewrite rules and the route
    counter: prefix tests, the character classes of Python's `re` module that
    the patterns use, and the greedy run `k*` of a class. */
module Text {

  datatype Option<+T> = None | Some(value: T)

  /** `p` is a prefix of `s`. */
  predicate StartsWith(s: string, p: string) {
    |p| <= |s| && s[..|p|] == p
  }

  /** `p` occurs somewhere in `s`. */
  predicate Occurs(s: string, p: string) {
    exists i :: 0 <= i <= |s| && StartsWith(s[i..], p)
  }

  /** An occurrence in a suffix is an occurrence in the whole text. */
  lemma OccursInSuffix(s: string, k: nat, p: string)
    requires k <= |s|
    ensures Occurs(s[k..], p) ==> Occurs(s, p)
  {
    if Occurs(s[k..], p) {
      var i :| 0 <= i <= |s[k..]| && StartsWith(s[k..][i..], p);
      assert s[k..][i..] == s[k + i..];
    }
  }

  /** Consumes the literal `p` at the front of `s` and returns what follows it. */
  function Expect(s: string, p: string): (r: Option<string>)
    ensures r.Some? <==> StartsWith(s, p)
    ensures r.Some? ==> s == p + r.value
  {
    if StartsWith(s, p) then Some(s[|p|..]) else None
  }

  lemma ExpectPrefix(p: string, rest: string)
    ensures Expect(p + rest, p) == Some(rest)
  {
    assert (p + rest)[..|p|] == p;
    assert (p + rest)[|p|..] == rest;
  }

  lemma StartsWithPrefix(p: string, rest: string)
    ensures StartsWith(p + rest, p)
  {
    assert (p + rest)[..|p|] == p;
  }

  /** Splitting off the first character and appending reassociate. */
  lemma ConsAppend(a: string, t: string)
    requires |a| > 0
    ensures [a[0]] + (a[1..] + t) == a + t
  {
    assert a == [a[0]] + a[1..];
  }

  /** A text does not start with a literal whose first character differs. */
  lemma FirstCharDiffers(s: string, p: string)
    requires |s| > 0 && |p| > 0 && s[0] != p[0]
    ensures !StartsWith(s, p)
  {
    if |p| <= |s| {
      assert s[..|p|][0] == s[0];
    }
  }

  /** A text does not start with a literal it differs from at some position. */
  lemma CharDiffers(s: string, p: string, k: nat)
    requires k < |s| && k < |p| && s[k] != p[k]
    ensures !StartsWith(s, p)
  {
    if |p| <= |s| {
      assert s[..|p|][k] == s[k];
    }
  }

  /** A text missing one of the characters of `t` holds no occurrence of it. */
  lemma MissingChar(x: string, t: string, k: nat)
    requires k < |t| && t[k] !in x
    ensures !Occurs(x, t)
  {
    forall i | 0 <= i <= |x|
      ensures !StartsWith(x[i..], t)
    {
      if |t| <= |x[i..]| {
        assert x[i..][..|t|][k] == x[i + k];
      }
    }
  }

  /** No occurrence of `t` starts inside `a`, even one running on into `b`,
      when `a` holds none and its last character is not part of `t`. */
  lemma NoStartIn(a: string, b: string, t: string)
    requires |t| > 0 && !Occurs(a, t)
    requires |a| == 0 || a[|a| - 1] !in t
    ensures forall i :: 0 <= i < |a| ==> !StartsWith((a + b)[i..], t)
  {
    forall i | 0 <= i < |a|
      ensures !StartsWith((a + b)[i..], t)
    {
      if i + |t| <= |a| {
        assert !StartsWith(a[i..], t);
        assert (a + b)[i..][..|t|] == a[i..][..|t|];
      } else if i + |t| <= |a + b| {
        var j := |a| - 1 - i;
        assert (a + b)[i..][..|t|][j] == a[|a| - 1];
        assert t[j] in t;
      }
    }
  }

  /** Two texts without an occurrence join into one without: an occurrence
      across the seam would need the last character of `x`, the first of
      `y`, or the first of `t` where one of them is ruled out. */
  lemma JoinNoOccur(x: string, y: string, t: string)
    requires |t| > 0 && !Occurs(x, t) && !Occurs(y, t)
    requires || (|x| > 0 && x[|x| - 1] !in t)
             || (|y| > 0 && y[0] !in t)
             || t[0] !in x
    ensures !Occurs(x + y, t)
  {
    forall i | 0 <= i <= |x + y|
      ensures !StartsWith((x + y)[i..], t)
    {
      if |x| <= i {
        assert (x + y)[i..] == y[i - |x|..];
      } else if i + |t| <= |x| {
        assert !StartsWith(x[i..], t);
        assert (x + y)[i..][..|t|] == x[i..][..|t|];
      } else if i + |t| <= |x + y| {
        if |x| > 0 && x[|x| - 1] !in t {
          CharDiffers((x + y)[i..], t, |x| - 1 - i);
        } else if |y| > 0 && y[0] !in t {
          CharDiffers((x + y)[i..], t, |x| - i);
        } else {
          CharDiffers((x + y)[i..], t, 0);
        }
      }
    }
  }

  /** The classes used by the patterns: `\s`, `\w`, `[^)]` and `[^,]`. */
  datatype CharClass = Space | Word | NotCloseParen | NotComma

  /** Python's `\s` on `str` patterns: the characters for which `str.isspace`
      holds. */
  predicate IsSpace(c: char) {
    || c == ' '
    || '\t' <= c <= '\r'
    || '\U{1C}' <= c <= '\U{1F}'
    || c == '\U{85}'
    || c == '\U{A0}'
    || c == '\U{1680}'
    || '\U{2000}' <= c <= '\U{200A}'
    || c == '\U{2028}'
    || c == '\U{2029}'
    || c == '\U{202F}'
    || c == '\U{205F}'
    || c == '\U{3000}'
  }

  /** The ASCII part of Python's `\w`: letters, digits and the underscore. */
  predicate IsWordChar(c: char) {
    'a' <= c <= 'z' || 'A' <= c <= 'Z' || '0' <= c <= '9' || c == '_'
  }

  predicate InClass(c: char, k: CharClass) {
    match k
    case Space => IsSpace(c)
    case Word => IsWordChar(c)
    case NotCloseParen => c != ')'
    case NotComma => c != ','
  }

  predicate AllIn(s: string, k: CharClass) {
    forall i :: 0 <= i < |s| ==> InClass(s[i], k)
  }

  /** Splits `s` into its longest prefix drawn from `k` and the rest: the
      greedy `k*` of a regular expression. */
  function TakeRun(s: string, k: CharClass): (r: (string, string))
    ensures s == r.0 + r.1
    ensures AllIn(r.0, k)
    ensures |r.1| > 0 ==> !InClass(r.1[0], k)
  {
    if |s| > 0 && InClass(s[0], k) then
      var (run, rest) := TakeRun(s[1..], k);
      ([s[0]] + run, rest)
    else
      ([], s)
  }

  /** A greedy run stops exactly where the class stops, so the split of
      `run + rest` is `run` itself whenever `rest` does not continue the run. */
  lemma {:induction false} TakeRunSplit(run: string, rest: string, k: CharClass)
    requires AllIn(run, k)
    requires |rest| > 0 ==> !InClass(rest[0], k)
    ensures TakeRun(run + rest, k) == (run, rest)
    decreases |run|
  {
    if |run| > 0 {
      var s := run + rest;
      assert s[0] == run[0];
      assert s[1..] == run[1..] + rest;
      TakeRunSplit(run[1..], rest, k);
      assert [run[0]] + run[1..] == run;
    } else {
      assert run + rest == rest;
    }
  }
}
