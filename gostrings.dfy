/** The functions of Go's `strings` package that the configuration core calls:
    `HasPrefix`, `Split` (with a one-character separator) and `ReplaceAll`. */
module GoStrings {

  predicate HasPrefix(s: string, prefix: string) {
    |prefix| <= |s| && s[..|prefix|] == prefix
  }

  /** `t` occurs in `s` starting at index `i`. */
  predicate OccursAt(s: string, t: string, i: nat) {
    i + |t| <= |s| && s[i..i + |t|] == t
  }

  predicate Occurs(s: string, t: string) {
    exists i: nat | i <= |s| :: OccursAt(s, t, i)
  }

  /** Number of occurrences of the character `c` in `s`. */
  function Count(s: string, c: char): nat {
    if s == [] then 0 else (if s[0] == c then 1 else 0) + Count(s[1..], c)
  }

  /** Joins the pieces with `sep` between consecutive pieces (the inverse of `Split`). */
  function Join(pieces: seq<string>, sep: char): string
    requires |pieces| >= 1
  {
    if |pieces| == 1 then pieces[0] else pieces[0] + [sep] + Join(pieces[1..], sep)
  }

  /** `strings.Split(s, string(sep))`: the maximal pieces of `s` between
      occurrences of `sep`; there is always one more piece than separators. */
  function Split(s: string, sep: char): (r: seq<string>)
    ensures |r| == 1 + Count(s, sep)
    ensures forall k | 0 <= k < |r| :: sep !in r[k]
    ensures Join(r, sep) == s
  {
    if s == [] then [""]
    else
      var rest := Split(s[1..], sep);
      if s[0] == sep then
        [""] + rest
      else
        assert s == [s[0]] + s[1..];
        [[s[0]] + rest[0]] + rest[1..]
  }

  /** A piece before the first separator splits off on its own. */
  lemma {:induction false} SplitAfterPiece(a: string, sep: char, t: string)
    requires sep !in a
    ensures Split(a + [sep] + t, sep) == [a] + Split(t, sep)
  {
    if a == [] {
      assert a + [sep] + t == [sep] + t;
      assert ([sep] + t)[1..] == t;
    } else {
      var s := a + [sep] + t;
      assert s[0] == a[0] && s[1..] == a[1..] + [sep] + t;
      SplitAfterPiece(a[1..], sep, t);
      assert [a[0]] + a[1..] == a;
    }
  }

  /** `strings.Split(s, sep)[1]` is the text between the first and the second
      separator (or the end of `s`). */
  lemma SecondField(a: string, b: string, sep: char, rest: seq<char>)
    requires sep !in a && sep !in b
    ensures |Split(a + [sep] + b, sep)| >= 2 && Split(a + [sep] + b, sep)[1] == b
    ensures |Split(a + [sep] + b + [sep] + rest, sep)| >= 2
    ensures Split(a + [sep] + b + [sep] + rest, sep)[1] == b
  {
    SplitAfterPiece(a, sep, b);
    assert Split(b, sep) == [b] by {
      var r := Split(b, sep);
      NoSepCount(b, sep);
      assert |r| == 1;
    }
    assert a + [sep] + b + [sep] + rest == a + [sep] + (b + [sep] + rest);
    SplitAfterPiece(a, sep, b + [sep] + rest);
    SplitAfterPiece(b, sep, rest);
  }

  lemma {:induction false} NoSepCount(s: string, c: char)
    requires c !in s
    ensures Count(s, c) == 0
  {
    if s != [] {
      assert s[0] != c;
      assert forall k | 0 <= k < |s[1..]| :: s[1..][k] == s[k + 1];
      NoSepCount(s[1..], c);
    }
  }

  /** `strings.ReplaceAll(s, pat, rep)` for a non-empty `pat`: scanning from
      the left, every non-overlapping occurrence of `pat` becomes `rep`.
      Replacing a string by itself changes nothing. */
  function ReplaceAll(s: string, pat: string, rep: string): (r: string)
    requires pat != []
    ensures pat == rep ==> r == s
    decreases |s|
  {
    if |s| < |pat| then s
    else if s[..|pat|] == pat then
      assert s == s[..|pat|] + s[|pat|..];
      rep + ReplaceAll(s[|pat|..], pat, rep)
    else
      assert s == [s[0]] + s[1..];
      [s[0]] + ReplaceAll(s[1..], pat, rep)
  }

  /** Where `pat` does not occur, nothing is replaced. */
  lemma {:induction false} ReplaceAllAbsent(s: string, pat: string, rep: string)
    requires pat != [] && !Occurs(s, pat)
    ensures ReplaceAll(s, pat, rep) == s
    decreases |s|
  {
    if |s| >= |pat| {
      assert !OccursAt(s, pat, 0);
      assert !Occurs(s[1..], pat) by {
        forall i: nat | OccursAt(s[1..], pat, i) ensures OccursAt(s, pat, i + 1) {
          assert s[i + 1..i + 1 + |pat|] == s[1..][i..i + |pat|];
        }
      }
      ReplaceAllAbsent(s[1..], pat, rep);
      assert s == [s[0]] + s[1..];
    }
  }

  function Repeat(t: string, n: nat): string {
    if n == 0 then [] else t + Repeat(t, n - 1)
  }

  /** Every one of `n` back-to-back occurrences is replaced. */
  lemma {:induction false} ReplaceAllRepeat(pat: string, rep: string, n: nat)
    requires pat != []
    ensures ReplaceAll(Repeat(pat, n), pat, rep) == Repeat(rep, n)
  {
    if n > 0 {
      var s := Repeat(pat, n);
      assert s[..|pat|] == pat && s[|pat|..] == Repeat(pat, n - 1);
      ReplaceAllRepeat(pat, rep, n - 1);
    }
  }

  /** An occurrence at the front is replaced and the scan resumes after it. */
  lemma ReplaceAllFront(pat: string, rep: string, rest: string)
    requires pat != []
    ensures ReplaceAll(pat + rest, pat, rep) == rep + ReplaceAll(rest, pat, rep)
  {
    var s := pat + rest;
    assert s[..|pat|] == pat && s[|pat|..] == rest;
  }

  /** A first character that cannot start `pat` is kept as it is. */
  lemma ReplaceAllSkip(c: char, rest: string, pat: string, rep: string)
    requires pat != [] && pat[0] != c
    ensures ReplaceAll([c] + rest, pat, rep) == [c] + ReplaceAll(rest, pat, rep)
  {
    var s := [c] + rest;
    assert s[1..] == rest;
    if |s| >= |pat| {
      assert s[..|pat|][0] == c;
    }
  }

  /** An occurrence in `s[1..]` is one in `s`, one position further on. */
  lemma OccursShift(s: string, pat: string, j: nat)
    requires |s| > 0
    ensures OccursAt(s[1..], pat, j) <==> OccursAt(s, pat, j + 1)
  {
    if j + 1 + |pat| <= |s| {
      assert s[1..][j..j + |pat|] == s[j + 1..j + 1 + |pat|];
    }
  }

  /** Where `pat` does not start, the first character is kept. */
  lemma ReplaceAllStep(s: string, pat: string, rep: string)
    requires pat != [] && |s| > 0 && !OccursAt(s, pat, 0)
    ensures ReplaceAll(s, pat, rep) == [s[0]] + ReplaceAll(s[1..], pat, rep)
  {
  }

  /** The first occurrence is replaced, everything before it is kept, and the
      scan resumes after it; with `ReplaceAllAbsent` this fixes the result
      for every input. */
  lemma {:induction false} ReplaceAllFirst(s: string, pat: string, rep: string, i: nat)
    requires pat != [] && OccursAt(s, pat, i)
    requires forall j: nat | j < i :: !OccursAt(s, pat, j)
    ensures ReplaceAll(s, pat, rep) == s[..i] + rep + ReplaceAll(s[i + |pat|..], pat, rep)
    decreases i
  {
    if i == 0 {
      assert s[..|pat|] == pat;
    } else {
      var t := s[1..];
      OccursShift(s, pat, i - 1);
      forall j: nat | j < i - 1 ensures !OccursAt(t, pat, j) {
        OccursShift(s, pat, j);
      }
      ReplaceAllFirst(t, pat, rep, i - 1);
      ReplaceAllStep(s, pat, rep);
      assert t[i - 1 + |pat|..] == s[i + |pat|..];
      assert s[..i] == [s[0]] + t[..i - 1];
    }
  }
}
