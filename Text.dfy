/** Literal (non-regular-expression) search and replace on strings, as done by
    `Matcher.replaceAll` on a `Pattern.LITERAL` pattern and by
    `String.replace(CharSequence, CharSequence)`: matches are found from left
    to right and never overlap; after a match the scan resumes right after it. */
module Text {

  /** Replaces every left-to-right, non-overlapping occurrence of `pat` in `s`
      by `rep`. Both Java call sites use a non-empty pattern. */
  function ReplaceAll(s: string, pat: string, rep: string): string
    requires |pat| > 0
    decreases |s|
  {
    if s == [] then []
    else if pat <= s then rep + ReplaceAll(s[|pat|..], pat, rep)
    else [s[0]] + ReplaceAll(s[1..], pat, rep)
  }

  /** The number of occurrences that ReplaceAll replaces. */
  function MatchCount(s: string, pat: string): nat
    requires |pat| > 0
    decreases |s|
  {
    if s == [] then 0
    else if pat <= s then 1 + MatchCount(s[|pat|..], pat)
    else MatchCount(s[1..], pat)
  }

  /** `pat` occurs in `s` starting at index `i`. */
  predicate OccursAt(s: string, pat: string, i: nat)
  {
    i + |pat| <= |s| && s[i..i + |pat|] == pat
  }

  predicate Occurs(s: string, pat: string)
  {
    exists i: nat | i <= |s| :: OccursAt(s, pat, i)
  }

  /** `idx` picks out the characters of `r` from `s`, in order: `r` is what is
      left of `s` after deleting some characters, the rest keeping their order. */
  predicate Embedding(idx: seq<nat>, r: string, s: string)
  {
    && |idx| == |r|
    && (forall k :: 0 <= k < |idx| ==> idx[k] < |s| && s[idx[k]] == r[k])
    && (forall k, l :: 0 <= k < l < |idx| ==> idx[k] < idx[l])
  }

  function Shift(idx: seq<nat>, n: nat): (r: seq<nat>)
    ensures |r| == |idx|
    ensures forall k :: 0 <= k < |idx| ==> r[k] == idx[k] + n
  {
    seq(|idx|, k requires 0 <= k < |idx| => idx[k] + n)
  }

  lemma OccursInTail(s: string, pat: string, i: nat)
    requires s != [] && OccursAt(s[1..], pat, i)
    ensures OccursAt(s, pat, i + 1)
  {
    assert s[i + 1..i + 1 + |pat|] == s[1..][i..i + |pat|];
  }

  /** A match is found exactly where the pattern occurs at the front. */
  lemma OccursAtFront(s: string, pat: string)
    ensures OccursAt(s, pat, 0) <==> pat <= s
  {
    if pat <= s {
      assert s[0..|pat|] == pat;
    }
  }

  /** Without an occurrence in `s` there is none at its front nor in its tail. */
  lemma NoOccurrenceInTail(s: string, pat: string)
    requires s != [] && !Occurs(s, pat)
    ensures !(pat <= s) && !Occurs(s[1..], pat)
  {
    OccursAtFront(s, pat);
    assert !OccursAt(s, pat, 0);
    forall i: nat | OccursAt(s[1..], pat, i)
      ensures false
    {
      OccursInTail(s, pat, i);
    }
  }

  /** Without an occurrence of the pattern the text comes back unchanged. */
  lemma {:induction false} ReplaceAllWithoutOccurrence(s: string, pat: string, rep: string)
    requires |pat| > 0
    requires !Occurs(s, pat)
    ensures ReplaceAll(s, pat, rep) == s
    decreases |s|
  {
    if s != [] {
      NoOccurrenceInTail(s, pat);
      ReplaceAllWithoutOccurrence(s[1..], pat, rep);
      assert ReplaceAll(s, pat, rep) == [s[0]] + s[1..];
    }
  }

  /** Some occurrence is replaced exactly when the pattern occurs at all. */
  lemma {:induction false} MatchCountPositive(s: string, pat: string)
    requires |pat| > 0
    ensures MatchCount(s, pat) > 0 <==> Occurs(s, pat)
    decreases |s|
  {
    if s != [] {
      OccursAtFront(s, pat);
      if pat <= s {
        assert OccursAt(s, pat, 0);
      } else {
        MatchCountPositive(s[1..], pat);
        if Occurs(s, pat) {
          var i: nat :| OccursAt(s, pat, i);
          assert i > 0;
          var j: nat := i - 1;
          assert OccursAt(s, pat, i);
          assert s[1..][j..j + |pat|] == s[i..i + |pat|];
          assert OccursAt(s[1..], pat, j);
        }
        if Occurs(s[1..], pat) {
          var i: nat :| OccursAt(s[1..], pat, i);
          OccursInTail(s, pat, i);
        }
      }
    }
  }

  /** Each replacement changes the length by |rep| - |pat|. */
  lemma {:induction false} ReplaceAllLength(s: string, pat: string, rep: string)
    requires |pat| > 0
    ensures |ReplaceAll(s, pat, rep)| == |s| + MatchCount(s, pat) * (|rep| - |pat|)
    decreases |s|
  {
    if s != [] {
      if pat <= s {
        ReplaceAllLength(s[|pat|..], pat, rep);
        MultiplySucc(MatchCount(s[|pat|..], pat), |rep| - |pat|);
      } else {
        ReplaceAllLength(s[1..], pat, rep);
      }
    }
  }

  lemma MultiplySucc(k: int, d: int)
    ensures (k + 1) * d == k * d + d
  {
  }

  /** Deleting the occurrences shortens the text by |pat| per occurrence. */
  lemma RemovalLength(s: string, pat: string)
    requires |pat| > 0
    ensures |ReplaceAll(s, pat, [])| == |s| - MatchCount(s, pat) * |pat|
  {
    ReplaceAllLength(s, pat, []);
    var n := MatchCount(s, pat);
    assert n * (0 - |pat|) == -(n * |pat|);
  }

  /** An embedding into a suffix of `s` is an embedding into `s`. */
  lemma EmbeddingInSuffix(idx: seq<nat>, r: string, s: string, n: nat)
    requires n <= |s| && Embedding(idx, r, s[n..])
    ensures Embedding(Shift(idx, n), r, s)
  {
    forall k | 0 <= k < |idx| ensures s[idx[k] + n] == r[k] {
      assert s[idx[k] + n] == s[n..][idx[k]];
    }
  }

  /** The indices of `[s[0]] + r` in `s`, given those of `r` in `s[1..]`. */
  function KeepFirst(idx: seq<nat>): (r: seq<nat>)
    ensures |r| == |idx| + 1 && r[0] == 0
    ensures forall k :: 0 < k < |r| ==> r[k] == idx[k - 1] + 1
  {
    seq(|idx| + 1, k requires 0 <= k <= |idx| => if k == 0 then 0 else idx[k - 1] + 1)
  }

  /** Keeping the first character extends an embedding into the rest. */
  lemma EmbeddingKeepsFirst(idx: seq<nat>, r: string, s: string)
    requires s != [] && Embedding(idx, r, s[1..])
    ensures Embedding(KeepFirst(idx), [s[0]] + r, s)
  {
    var full, text := KeepFirst(idx), [s[0]] + r;
    forall k | 0 < k < |full| ensures s[full[k]] == text[k] {
      assert s[full[k]] == s[1..][idx[k - 1]];
    }
  }

  /** Deleting the occurrences keeps the remaining characters in their order. */
  lemma {:induction false} RemovalKeepsOrder(s: string, pat: string) returns (idx: seq<nat>)
    requires |pat| > 0
    ensures Embedding(idx, ReplaceAll(s, pat, []), s)
    decreases |s|
  {
    if s == [] {
      idx := [];
    } else if pat <= s {
      var rest := RemovalKeepsOrder(s[|pat|..], pat);
      assert ReplaceAll(s, pat, []) == ReplaceAll(s[|pat|..], pat, []);
      EmbeddingInSuffix(rest, ReplaceAll(s[|pat|..], pat, []), s, |pat|);
      idx := Shift(rest, |pat|);
    } else {
      var rest := RemovalKeepsOrder(s[1..], pat);
      assert ReplaceAll(s, pat, []) == [s[0]] + ReplaceAll(s[1..], pat, []);
      EmbeddingKeepsFirst(rest, ReplaceAll(s[1..], pat, []), s);
      idx := KeepFirst(rest);
    }
  }

  /** Deleting occurrences can join two fragments into a new occurrence, so the
      result of a removal may still contain the pattern. */
  lemma RemovalCanCreateOccurrence()
    ensures ReplaceAll("tt..", "t.", "") == "t."
    ensures Occurs(ReplaceAll("tt..", "t.", ""), "t.")
  {
    var s := "tt..";
    assert !("t." <= s) by { assert s[1] != "t."[1]; }
    assert "t." <= s[1..];
    assert !("t." <= s[1..][2..]);
    assert ReplaceAll(s[1..][2..][1..], "t.", "") == [];
    assert ReplaceAll(s[1..][2..], "t.", "") == ".";
    assert ReplaceAll(s, "t.", "") == "t.";
    assert OccursAt("t.", "t.", 0);
  }
}
