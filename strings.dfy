/**
 * The string operations the query normaliser relies on, with the semantics
 * of Python's `str`: `lower()` (restricted to ASCII letters), the `in`
 * substring test, and `replace(old, new)`, which substitutes every
 * non-overlapping occurrence scanning from the left.  `Split` and `Join`
 * are the reference definitions `replace` is proved against.
 */
module Strings {

  /** Lower-cases one ASCII letter; every other character is kept. */
  function LowerChar(c: char): char
  {
    if 'A' <= c <= 'Z' then (c as int + 32) as char else c
  }

  /** `s.lower()`: the same characters, each lower-cased in place. */
  function Lower(s: string): (r: string)
    ensures |r| == |s|
    ensures forall i :: 0 <= i < |s| ==> r[i] == LowerChar(s[i])
  {
    if s == [] then [] else [LowerChar(s[0])] + Lower(s[1..])
  }

  predicate IsPrefix(p: string, s: string)
  {
    |p| <= |s| && s[..|p|] == p
  }

  /** `pat in s`, scanning the start positions of `s` from the left. */
  predicate Contains(s: string, pat: string)
    decreases |s|
  {
    IsPrefix(pat, s) || (|s| > 0 && Contains(s[1..], pat))
  }

  /** `pat` occurs in `s` starting at index `i`. */
  ghost predicate OccursAt(s: string, pat: string, i: int)
  {
    0 <= i && i + |pat| <= |s| && s[i..i + |pat|] == pat
  }

  /** `s.replace(pat, rep)` for a non-empty `pat`. */
  function ReplaceAll(s: string, pat: string, rep: string): string
    requires |pat| > 0
    decreases |s|
  {
    if IsPrefix(pat, s) then rep + ReplaceAll(s[|pat|..], pat, rep)
    else if s == [] then []
    else [s[0]] + ReplaceAll(s[1..], pat, rep)
  }

  /** `s.split(pat)`: the text before, between and after the occurrences of `pat`. */
  function Split(s: string, pat: string): (pieces: seq<string>)
    requires |pat| > 0
    ensures |pieces| >= 1
    decreases |s|
  {
    if IsPrefix(pat, s) then [[]] + Split(s[|pat|..], pat)
    else if s == [] then [[]]
    else
      var rest := Split(s[1..], pat);
      [[s[0]] + rest[0]] + rest[1..]
  }

  /** `sep.join(pieces)`. */
  function Join(pieces: seq<string>, sep: string): string
    requires |pieces| >= 1
    decreases |pieces|
  {
    if |pieces| == 1 then pieces[0] else pieces[0] + sep + Join(pieces[1..], sep)
  }

  // ---------------------------------------------------------------------
  // Lemmas

  /** An occurrence at index `i` is found by the left-to-right scan. */
  lemma {:induction false} OccursAtContains(s: string, pat: string, i: int)
    requires OccursAt(s, pat, i)
    ensures Contains(s, pat)
    decreases i
  {
    if i == 0 {
      assert s[..|pat|] == pat;
    } else {
      assert s[1..][i - 1..i - 1 + |pat|] == s[i..i + |pat|];
      OccursAtContains(s[1..], pat, i - 1);
    }
  }

  /** What the scan finds is an occurrence at some index. */
  lemma {:induction false} ContainsOccurs(s: string, pat: string) returns (i: int)
    requires Contains(s, pat)
    ensures OccursAt(s, pat, i)
    decreases |s|
  {
    if IsPrefix(pat, s) {
      i := 0;
    } else {
      var j := ContainsOccurs(s[1..], pat);
      assert s[1..][j..j + |pat|] == s[j + 1..j + 1 + |pat|];
      i := j + 1;
    }
  }

  /** The recursive `Contains` agrees with "there is an index where `pat` occurs". */
  lemma ContainsIffOccurs(s: string, pat: string)
    ensures Contains(s, pat) <==> exists i :: OccursAt(s, pat, i)
  {
    if Contains(s, pat) {
      var i := ContainsOccurs(s, pat);
    }
    if exists i :: OccursAt(s, pat, i) {
      var i :| OccursAt(s, pat, i);
      OccursAtContains(s, pat, i);
    }
  }

  lemma JoinConsHead(c: char, pieces: seq<string>, sep: string)
    requires |pieces| >= 1
    ensures Join([[c] + pieces[0]] + pieces[1..], sep) == [c] + Join(pieces, sep)
  {
    var ps := [[c] + pieces[0]] + pieces[1..];
    if |pieces| > 1 {
      assert ps[1..] == pieces[1..];
    }
  }

  lemma {:induction false} JoinStartsWithFirst(pieces: seq<string>, sep: string)
    requires |pieces| >= 1
    ensures pieces[0] <= Join(pieces, sep)
  {
  }

  /** `Split` at a match: an empty first piece, then the pieces of the rest. */
  lemma SplitAtMatch(s: string, pat: string)
    requires |pat| > 0 && IsPrefix(pat, s)
    ensures Split(s, pat) == [[]] + Split(s[|pat|..], pat)
    ensures s == pat + s[|pat|..]
  {
  }

  /** `Split` away from a match: the first character joins the first piece. */
  lemma SplitAtOther(s: string, pat: string)
    requires |pat| > 0 && !IsPrefix(pat, s) && s != []
    ensures var rest := Split(s[1..], pat);
            Split(s, pat) == [[s[0]] + rest[0]] + rest[1..]
    ensures s == [s[0]] + s[1..]
  {
  }

  lemma JoinEmptyHead(rest: seq<string>, sep: string)
    requires |rest| >= 1
    ensures Join([[]] + rest, sep) == sep + Join(rest, sep)
  {
    var pieces := [[]] + rest;
    assert pieces[0] == [] && pieces[1..] == rest;
  }

  /** Joining the pieces back with the pattern gives the original text:
      nothing outside the occurrences is lost or reordered. */
  lemma {:induction false} SplitJoin(s: string, pat: string)
    requires |pat| > 0
    ensures Join(Split(s, pat), pat) == s
    decreases |s|
  {
    if IsPrefix(pat, s) {
      SplitAtMatch(s, pat);
      SplitJoin(s[|pat|..], pat);
      JoinEmptyHead(Split(s[|pat|..], pat), pat);
    } else if s != [] {
      SplitAtOther(s, pat);
      SplitJoin(s[1..], pat);
      JoinConsHead(s[0], Split(s[1..], pat), pat);
    }
  }

  /** `replace` puts `rep` exactly where `split` cuts the text. */
  lemma {:induction false} ReplaceIsJoinOfSplit(s: string, pat: string, rep: string)
    requires |pat| > 0
    ensures ReplaceAll(s, pat, rep) == Join(Split(s, pat), rep)
    decreases |s|
  {
    if IsPrefix(pat, s) {
      SplitAtMatch(s, pat);
      ReplaceIsJoinOfSplit(s[|pat|..], pat, rep);
      JoinEmptyHead(Split(s[|pat|..], pat), rep);
    } else if s != [] {
      SplitAtOther(s, pat);
      ReplaceIsJoinOfSplit(s[1..], pat, rep);
      JoinConsHead(s[0], Split(s[1..], pat), rep);
    }
  }

  lemma PrefixOfPrefix(pat: string, p: string, s: string)
    requires p <= s
    ensures IsPrefix(pat, p) ==> IsPrefix(pat, s)
  {
    if |pat| <= |p| {
      assert s[..|pat|] == p[..|pat|];
    }
  }

  /** No piece of the split contains the pattern: every occurrence was cut out. */
  lemma {:induction false} SplitPiecesAvoid(s: string, pat: string)
    requires |pat| > 0
    ensures forall k :: 0 <= k < |Split(s, pat)| ==> !Contains(Split(s, pat)[k], pat)
    decreases |s|
  {
    var pieces := Split(s, pat);
    if IsPrefix(pat, s) {
      SplitPiecesAvoid(s[|pat|..], pat);
      var rest := Split(s[|pat|..], pat);
      forall k | 0 <= k < |pieces| ensures !Contains(pieces[k], pat) {
        if k == 0 {
          assert pieces[0] == [];
        } else {
          assert pieces[k] == rest[k - 1];
        }
      }
    } else if s == [] {
    } else {
      SplitPiecesAvoid(s[1..], pat);
      var rest := Split(s[1..], pat);
      forall k | 0 <= k < |pieces| ensures !Contains(pieces[k], pat) {
        if k == 0 {
          var head := [s[0]] + rest[0];
          assert pieces[0] == head;
          assert head[1..] == rest[0];
          SplitJoin(s[1..], pat);
          JoinStartsWithFirst(rest, pat);
          assert head <= s;
          PrefixOfPrefix(pat, head, s);
        } else {
          assert pieces[k] == rest[k];
        }
      }
    }
  }

  /** An occurrence in `s[1..]` is an occurrence in `s`, one index further on. */
  lemma OccursAtTail(s: string, pat: string, j: int)
    requires |s| > 0 && j >= 0
    ensures OccursAt(s[1..], pat, j) <==> OccursAt(s, pat, j + 1)
  {
    if j + |pat| <= |s| - 1 {
      assert s[1..][j..j + |pat|] == s[j + 1..j + 1 + |pat|];
    }
  }

  /** The first piece of the split is the text before the LEFTMOST occurrence:
      the pattern occurs right after it and nowhere that starts inside it.
      With `SplitRestAfterFirst` this pins the pieces down also for patterns
      that overlap themselves. */
  lemma {:induction false} SplitFirstPieceLeftmost(s: string, pat: string)
    requires |pat| > 0 && Contains(s, pat)
    ensures OccursAt(s, pat, |Split(s, pat)[0]|)
    ensures forall j :: 0 <= j < |Split(s, pat)[0]| ==> !OccursAt(s, pat, j)
    decreases |s|
  {
    if IsPrefix(pat, s) {
      SplitAtMatch(s, pat);
      assert s[0..|pat|] == pat;
    } else {
      SplitFirstPieceLeftmost(s[1..], pat);
      SplitAtOther(s, pat);
      LeftmostStep(s, pat, |Split(s[1..], pat)[0]|);
    }
  }

  /** After the first piece and the occurrence that ends it, the remaining
      pieces are the split of the rest of the text. */
  lemma {:induction false} SplitRestAfterFirst(s: string, pat: string)
    requires |pat| > 0 && Contains(s, pat)
    ensures |Split(s, pat)[0]| + |pat| <= |s|
    ensures Split(s, pat)[1..] == Split(s[|Split(s, pat)[0]| + |pat|..], pat)
    decreases |s|
  {
    if IsPrefix(pat, s) {
      SplitAtMatch(s, pat);
    } else {
      SplitRestAfterFirst(s[1..], pat);
      SplitAtOther(s, pat);
      var k := |Split(s[1..], pat)[0]| + |pat|;
      assert s[1..][k..] == s[k + 1..];
    }
  }

  /** A leftmost occurrence at `k` in `s[1..]` is a leftmost occurrence at
      `k + 1` in `s` when `s` does not start with the pattern. */
  lemma LeftmostStep(s: string, pat: string, k: int)
    requires s != [] && !IsPrefix(pat, s) && k >= 0
    requires OccursAt(s[1..], pat, k)
    requires forall j :: 0 <= j < k ==> !OccursAt(s[1..], pat, j)
    ensures OccursAt(s, pat, k + 1)
    ensures forall j :: 0 <= j < k + 1 ==> !OccursAt(s, pat, j)
  {
    OccursAtTail(s, pat, k);
    forall j | 0 <= j < k + 1 ensures !OccursAt(s, pat, j) {
      if j > 0 {
        OccursAtTail(s, pat, j - 1);
      }
    }
  }

  /** The text splits into a single piece exactly when the pattern does not occur. */
  lemma SplitSingleIffAbsent(s: string, pat: string)
    requires |pat| > 0
    ensures Split(s, pat) == [s] <==> !Contains(s, pat)
  {
    SplitPiecesAvoid(s, pat);
    SplitJoin(s, pat);
    var pieces := Split(s, pat);
    if |pieces| > 1 {
      // s == pieces[0] + pat + ..., so pat occurs at |pieces[0]|
      var tail := Join(pieces[1..], pat);
      assert s == pieces[0] + pat + tail;
      assert s[|pieces[0]|..|pieces[0]| + |pat|] == pat;
      OccursAtContains(s, pat, |pieces[0]|);
    }
  }

  /** `replace` leaves a text in which the pattern does not occur unchanged. */
  lemma ReplaceAbsent(s: string, pat: string, rep: string)
    requires |pat| > 0 && !Contains(s, pat)
    ensures ReplaceAll(s, pat, rep) == s
  {
    SplitSingleIffAbsent(s, pat);
    ReplaceIsJoinOfSplit(s, pat, rep);
  }

  /** A longer replacement lengthens the text exactly when the pattern occurs. */
  lemma {:induction false} ReplaceGrows(s: string, pat: string, rep: string)
    requires 0 < |pat| < |rep|
    ensures |ReplaceAll(s, pat, rep)| >= |s|
    ensures |ReplaceAll(s, pat, rep)| > |s| <==> Contains(s, pat)
    decreases |s|
  {
    if IsPrefix(pat, s) {
      ReplaceGrows(s[|pat|..], pat, rep);
    } else if s != [] {
      ReplaceGrows(s[1..], pat, rep);
    }
  }

  /** A text whose characters cannot start the pattern is copied through by `replace`. */
  lemma {:induction false} ReplaceAllSkip(a: string, b: string, pat: string, rep: string)
    requires |pat| > 0
    requires forall i :: 0 <= i < |a| ==> a[i] != pat[0]
    ensures ReplaceAll(a + b, pat, rep) == a + ReplaceAll(b, pat, rep)
    decreases |a|
  {
    if a != [] {
      var s := a + b;
      assert s[0] == a[0];
      assert s[1..] == a[1..] + b;
      ReplaceAllSkip(a[1..], b, pat, rep);
      assert a == [a[0]] + a[1..];
    } else {
      assert a + b == b;
    }
  }

  /** A pattern whose first character never appears in `s` does not occur in it. */
  lemma {:induction false} FirstCharAbsent(s: string, pat: string)
    requires |pat| > 0
    requires forall i :: 0 <= i < |s| ==> s[i] != pat[0]
    ensures !Contains(s, pat)
    decreases |s|
  {
    if s != [] {
      if |pat| <= |s| {
        assert s[..|pat|][0] != pat[0];
      }
      FirstCharAbsent(s[1..], pat);
    }
  }

  /** A text with no upper-case ASCII letter is its own lower-case form. */
  lemma LowerOfLowercase(s: string)
    requires forall i :: 0 <= i < |s| ==> !('A' <= s[i] <= 'Z')
    ensures Lower(s) == s
  {
  }

  /** Lower-casing twice is lower-casing once. */
  lemma LowerIdempotent(s: string)
    ensures Lower(Lower(s)) == Lower(s)
  {
  }

  /** A lower-case pattern that occurs in `s` is still found in `s.lower()`. */
  lemma {:induction false} LowerKeepsLowercaseMatch(s: string, pat: string)
    requires Lower(pat) == pat && Contains(s, pat)
    ensures Contains(Lower(s), pat)
    decreases |s|
  {
    if IsPrefix(pat, s) {
      assert Lower(s)[..|pat|] == Lower(s[..|pat|]);
    } else {
      LowerKeepsLowercaseMatch(s[1..], pat);
      assert Lower(s)[1..] == Lower(s[1..]);
    }
  }
}
