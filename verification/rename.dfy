/** Rule 7, the field rename `result.changes` ~> `result.rowCount`: what it
    does to the length of the text, that it leaves no `result.changes`
    behind, and that it changes nothing else (undoing it restores the input). */
module FieldRename {
  import opened Text
  import opened Rewrite

  const Changes: string := "result.changes"
  const RowCount: string := "result.rowCount"

  /** Python's `str.count`: non-overlapping occurrences of `p`, scanned from
      the left. */
  function Count(s: string, p: string): nat
    requires |p| > 0
    decreases |s|
  {
    if |s| == 0 then 0
    else if StartsWith(s, p) then 1 + Count(s[|p|..], p)
    else Count(s[1..], p)
  }

  /** The rename written out on its own, as a left-to-right scan. */
  function Rename(s: string): string
    decreases |s|
  {
    if |s| == 0 then []
    else if StartsWith(s, Changes) then RowCount + Rename(s[|Changes|..])
    else [s[0]] + Rename(s[1..])
  }

  /** The rule matches exactly where `result.changes` starts. */
  lemma RenameAt(s: string)
    ensures MatchAt(ChangesField, s).Some? <==> StartsWith(s, Changes)
    ensures MatchAt(ChangesField, s).Some? ==>
              MatchAt(ChangesField, s) == Some(Hit(RowCount, s[|Changes|..]))
  {
  }

  /** Rule 7 under `re.sub` is exactly the plain rename. */
  lemma {:induction false} SubstituteIsRename(s: string)
    ensures Substitute(ChangesField, s) == Rename(s)
    decreases |s|
  {
    if |s| > 0 {
      RenameAt(s);
      if StartsWith(s, Changes) {
        SubstituteIsRename(s[|Changes|..]);
      } else {
        SubstituteIsRename(s[1..]);
      }
    }
  }

  /* ---------------------------------------------------------------------- */
  /* Spelling facts about the two field names                               */
  /* ---------------------------------------------------------------------- */

  lemma Lengths()
    ensures |Changes| == 14 && |RowCount| == 15 && RowCount[0] == 'r'
  {
  }

  /** `result.` followed by `rowCount`, neither part after the first letter
      holding an `r`. */
  lemma RowCountParts()
    ensures RowCount[1..7] == "esult." && RowCount[7..] == "rowCount"
    ensures 'r' !in "esult." && "rowCount"[0] == 'r' && "rowCount"[1..] == "owCount" && 'r' !in "owCount"
  {
  }

  lemma ChangesParts()
    ensures Changes[1..] == "esult.changes" && 'r' !in "esult.changes"
  {
  }

  /** Where `result.changes` could start inside `result.rowCount`. */
  lemma RowCountInterior()
    ensures Changes[0] == 'r' && Changes[1] == 'e' && Changes[7] == 'c'
    ensures RowCount[1] == 'e' && RowCount[7] == 'r' && RowCount[8] == 'o'
    ensures forall j :: 0 < j < 15 && j != 7 ==> RowCount[j] != 'r'
  {
  }

  /* ---------------------------------------------------------------------- */
  /* Length                                                                 */
  /* ---------------------------------------------------------------------- */

  lemma {:induction false} RenamedLength(s: string)
    ensures |Rename(s)| == |s| + Count(s, Changes)
    decreases |s|
  {
    if |s| > 0 {
      if StartsWith(s, Changes) {
        RenamedLength(s[|Changes|..]);
      } else {
        RenamedLength(s[1..]);
      }
    }
  }

  /** Each rename adds one character: the output is as long as the input plus
      the number of occurrences. */
  lemma {:induction false} RenameLength(s: string)
    ensures |Substitute(ChangesField, s)| == |s| + Count(s, Changes)
  {
    SubstituteIsRename(s);
    RenamedLength(s);
  }

  /* ---------------------------------------------------------------------- */
  /* No `result.changes` is left                                            */
  /* ---------------------------------------------------------------------- */

  /** The renamed text begins with an `r`; so if the output begins with a
      text containing no `r`, no rename happened there and the input begins
      with the same text. */
  lemma {:induction false} PrefixWithoutR(u: string, w: string)
    requires 'r' !in w
    requires StartsWith(Rename(u), w)
    ensures StartsWith(u, w)
    decreases |w|
  {
    if |w| > 0 {
      var out := Rename(u);
      Lengths();
      assert out[0] == w[0];
      assert !StartsWith(u, Changes);
      var tail := Rename(u[1..]);
      assert out == [u[0]] + tail;
      assert StartsWith(tail, w[1..]) by {
        assert tail[..|w| - 1] == out[1..|w|] == w[1..];
      }
      assert 'r' !in w[1..] by {
        assert forall i :: 0 <= i < |w[1..]| ==> w[1..][i] == w[i + 1];
      }
      PrefixWithoutR(u[1..], w[1..]);
      assert u[..|w|] == [u[0]] + u[1..][..|w| - 1];
    }
  }

  /** The output never begins with `result.changes`. */
  lemma NeverStartsWithChanges(u: string)
    ensures !StartsWith(Rename(u), Changes)
  {
    var out := Rename(u);
    Lengths();
    if |u| > 0 {
      if StartsWith(u, Changes) {
        RowCountInterior();
        assert out[7] == RowCount[7];
      } else if StartsWith(out, Changes) {
        var tail := Rename(u[1..]);
        assert out == [u[0]] + tail;
        ChangesParts();
        assert StartsWith(tail, "esult.changes") by {
          assert tail[..13] == out[1..14] == Changes[1..];
        }
        PrefixWithoutR(u[1..], "esult.changes");
      }
    }
  }

  /** No `result.changes` starts inside an inserted `result.rowCount`. */
  lemma NoChangesInsideRowCount(tail: string, j: nat)
    requires 0 < j < |RowCount|
    ensures !StartsWith((RowCount + tail)[j..], Changes)
  {
    var out := RowCount + tail;
    Lengths();
    RowCountInterior();
    assert out[j] == RowCount[j];
    if j == 7 {
      assert out[j + 1] == RowCount[8];
    }
  }

  lemma {:induction false} RenamedHasNoChanges(s: string)
    ensures !Occurs(Rename(s), Changes)
    decreases |s|
  {
    var out := Rename(s);
    if |s| == 0 {
      assert out == [];
    } else {
      Lengths();
      var renamed := StartsWith(s, Changes);
      var piece := if renamed then RowCount else [s[0]];
      var rest := if renamed then s[|Changes|..] else s[1..];
      var tail := Rename(rest);
      assert out == piece + tail;
      RenamedHasNoChanges(rest);
      forall j | 0 <= j <= |out|
        ensures !StartsWith(out[j..], Changes)
      {
        if j == 0 {
          NeverStartsWithChanges(s);
          assert out[j..] == out;
        } else if j < |piece| {
          NoChangesInsideRowCount(tail, j);
        } else {
          assert out[j..] == tail[j - |piece|..];
        }
      }
    }
  }

  /** No `result.changes` is left anywhere in the output. */
  lemma NoChangesLeft(s: string)
    ensures !Occurs(Substitute(ChangesField, s), Changes)
  {
    SubstituteIsRename(s);
    RenamedHasNoChanges(s);
  }

  /* ---------------------------------------------------------------------- */
  /* Nothing else changes: renaming back restores the input                 */
  /* ---------------------------------------------------------------------- */

  /** The reverse rename, `result.rowCount` ~> `result.changes`. */
  function RestoreChanges(s: string): (r: string)
    decreases |s|
  {
    if |s| == 0 then []
    else if StartsWith(s, RowCount) then Changes + RestoreChanges(s[|RowCount|..])
    else [s[0]] + RestoreChanges(s[1..])
  }

  /** Where the output begins with `rowCount`, so does the input: the
      renamed text begins with `re`, and the rest has no `r`. */
  lemma RowCountSuffixKept(v: string)
    requires StartsWith(Rename(v), "rowCount")
    ensures StartsWith(v, "rowCount")
  {
    var sv := Rename(v);
    Lengths();
    RowCountInterior();
    RowCountParts();
    assert |v| > 0;
    assert !StartsWith(v, Changes);
    var t2 := Rename(v[1..]);
    assert sv == [v[0]] + t2;
    assert v[0] == 'r' by { assert sv[0] == "rowCount"[0]; }
    assert StartsWith(t2, "owCount") by {
      assert t2[..7] == sv[1..8] == "rowCount"[1..];
    }
    PrefixWithoutR(v[1..], "owCount");
    assert v[..8] == [v[0]] + v[1..][..7];
  }

  /** A text without `r` is copied unchanged. */
  lemma {:induction false} CopiesWithoutR(a: string, b: string)
    requires 'r' !in a
    ensures Rename(a + b) == a + Rename(b)
    decreases |a|
  {
    if |a| > 0 {
      Lengths();
      var s := a + b;
      assert s[0] == a[0];
      assert !StartsWith(s, Changes);
      assert s[1..] == a[1..] + b;
      assert 'r' !in a[1..] by {
        assert forall i :: 0 <= i < |a[1..]| ==> a[1..][i] == a[i + 1];
      }
      CopiesWithoutR(a[1..], b);
      assert a == [a[0]] + a[1..];
    } else {
      assert a + b == b;
    }
  }

  /** The rename does not assemble a new `result.rowCount` out of untouched
      characters: where the output begins with one, the input began with
      `result.rowCount` or `result.changes`. */
  lemma NoNewRowCount(u: string)
    ensures StartsWith(Rename(u), RowCount) ==>
              StartsWith(u, RowCount) || StartsWith(u, Changes)
  {
    var out := Rename(u);
    if StartsWith(out, RowCount) && !StartsWith(u, Changes) {
      Lengths();
      RowCountParts();
      var u1 := u[1..];
      var t1 := Rename(u1);
      assert out == [u[0]] + t1;
      assert u[0] == 'r' by { assert out[0] == RowCount[0]; }
      assert StartsWith(t1, "esult.") by {
        assert t1[..6] == out[1..7] == RowCount[1..7];
      }
      PrefixWithoutR(u1, "esult.");
      var v := u1[6..];
      assert u1 == "esult." + v;
      CopiesWithoutR("esult.", v);
      var sv := Rename(v);
      assert StartsWith(sv, "rowCount") by {
        assert sv[..8] == out[7..15] == RowCount[7..];
      }
      RowCountSuffixKept(v);
      assert u[..15] == RowCount by {
        assert u[..15] == [u[0]] + u1[..6] + v[..8];
      }
    }
  }

  lemma {:induction false} RenamedRoundTrip(s: string)
    requires !Occurs(s, RowCount)
    ensures RestoreChanges(Rename(s)) == s
    decreases |s|
  {
    var out := Rename(s);
    if |s| > 0 {
      Lengths();
      if StartsWith(s, Changes) {
        var rest := s[|Changes|..];
        OccursInSuffix(s, |Changes|, RowCount);
        RenamedRoundTrip(rest);
        assert out == RowCount + Rename(rest);
        ExpectPrefix(RowCount, Rename(rest));
        assert s == Changes + rest;
      } else {
        OccursInSuffix(s, 1, RowCount);
        RenamedRoundTrip(s[1..]);
        NoNewRowCount(s);
        assert s[0..] == s;
        assert out == [s[0]] + Rename(s[1..]);
        assert out[1..] == Rename(s[1..]);
        assert s == [s[0]] + s[1..];
      }
    }
  }

  /** On input without `result.rowCount`, undoing the rename gives the input
      back: every character the rule did not rename is kept as it was. */
  lemma RenameRoundTrip(s: string)
    requires !Occurs(s, RowCount)
    ensures RestoreChanges(Substitute(ChangesField, s)) == s
  {
    SubstituteIsRename(s);
    RenamedRoundTrip(s);
  }
}
