/** The two fixed regular expressions of the interpolation engine, written
    out as scanners:

    - `\$\{(\s+)?(\S)+(\s+)?\}`, searched with `FindAllString(val, -1)`:
      every placeholder of a value, left to right, non-overlapping;
    - `(\w+(\.)?)+`, searched with `FindString(p)`: the key named by a
      placeholder.

    Character classes follow Go's regexp syntax: `\s` is `[\t\n\f\r ]`, `\S`
    is every other character, `\w` is `[0-9A-Za-z_]`. Because `\S` also
    matches `}`, a placeholder may run over a closing brace: in `${a}${b}`
    the whole text is one placeholder. */
module Placeholder {
  import opened Wrappers

  predicate IsSpace(c: char) {
    c == ' ' || c == '\t' || c == '\n' || c == '\r' || c == '\U{000C}'
  }

  predicate IsWord(c: char) {
    ('a' <= c <= 'z') || ('A' <= c <= 'Z') || ('0' <= c <= '9') || c == '_'
  }

  predicate Spaces(s: string, lo: int, hi: int)
    requires 0 <= lo <= hi <= |s|
  {
    forall k | lo <= k < hi :: IsSpace(s[k])
  }

  predicate NonSpaces(s: string, lo: int, hi: int)
    requires 0 <= lo <= hi <= |s|
  {
    forall k | lo <= k < hi :: !IsSpace(s[k])
  }

  // ---------------------------------------------------------------------
  // The placeholder pattern  \$\{(\s+)?(\S)+(\s+)?\}
  // ---------------------------------------------------------------------

  /** `s[i..e]` is a match of the placeholder pattern: `${`, a run of
      whitespace, a non-empty run of non-whitespace, a run of whitespace, `}`. */
  ghost predicate Matches(s: string, i: nat, e: nat) {
    && i + 4 <= e <= |s|
    && s[i] == '$' && s[i + 1] == '{' && s[e - 1] == '}'
    && exists a, b | i + 2 <= a < b <= e - 1 ::
         Spaces(s, i + 2, a) && NonSpaces(s, a, b) && Spaces(s, b, e - 1)
  }

  /** The end of the run of whitespace that starts at `i`. */
  function SpaceEnd(s: string, i: nat): (r: nat)
    requires i <= |s|
    ensures i <= r <= |s|
    decreases |s| - i
  {
    if i == |s| || !IsSpace(s[i]) then i else SpaceEnd(s, i + 1)
  }

  /** `SpaceEnd` stops at the first character that is not whitespace. */
  lemma {:induction false} SpaceEndSpec(s: string, i: nat)
    requires i <= |s|
    ensures var r := SpaceEnd(s, i); Spaces(s, i, r) && (r == |s| || !IsSpace(s[r]))
    decreases |s| - i
  {
    if i < |s| && IsSpace(s[i]) {
      SpaceEndSpec(s, i + 1);
    }
  }

  /** The end of the run of non-whitespace that starts at `i`. */
  function NonSpaceEnd(s: string, i: nat): (r: nat)
    requires i <= |s|
    ensures i <= r <= |s|
    decreases |s| - i
  {
    if i == |s| || IsSpace(s[i]) then i else NonSpaceEnd(s, i + 1)
  }

  /** `NonSpaceEnd` stops at the first whitespace character. */
  lemma {:induction false} NonSpaceEndSpec(s: string, i: nat)
    requires i <= |s|
    ensures var r := NonSpaceEnd(s, i); NonSpaces(s, i, r) && (r == |s| || IsSpace(s[r]))
    decreases |s| - i
  {
    if i < |s| && !IsSpace(s[i]) {
      NonSpaceEndSpec(s, i + 1);
    }
  }

  /** The last `}` strictly between `lo` and `hi`, if any. */
  function LastClose(s: string, lo: nat, hi: nat): (r: Option<nat>)
    requires lo <= hi <= |s|
    ensures r.Some? ==> lo < r.value < hi
    decreases hi - lo
  {
    if hi <= lo + 1 then None
    else if s[hi - 1] == '}' then Some(hi - 1)
    else LastClose(s, lo, hi - 1)
  }

  /** `LastClose` finds a `}` and no later one, or reports that there is none. */
  lemma {:induction false} LastCloseSpec(s: string, lo: nat, hi: nat)
    requires lo <= hi <= |s|
    ensures var r := LastClose(s, lo, hi);
            && (r.Some? ==> s[r.value] == '}' && forall k | r.value < k < hi :: s[k] != '}')
            && (r.None? ==> forall k | lo < k < hi :: s[k] != '}')
    decreases hi - lo
  {
    if hi > lo + 1 && s[hi - 1] != '}' {
      LastCloseSpec(s, lo, hi - 1);
    }
  }

  /** The end of the match of the placeholder pattern that begins at `i`, as
      Go's backtracking preference chooses it: the leading whitespace run is
      taken whole, then the longest run of non-whitespace that is followed by
      optional whitespace and a `}`. */
  function MatchAt(s: string, i: nat): (r: Option<nat>)
    ensures r.Some? ==> i + 4 <= r.value <= |s| && s[i] == '$' && s[i + 1] == '{'
  {
    if i + 1 < |s| && s[i] == '$' && s[i + 1] == '{' then
      var a := SpaceEnd(s, i + 2);
      var b := NonSpaceEnd(s, a);
      if a == b then None
      else
        var c := SpaceEnd(s, b);
        if c < |s| && s[c] == '}' then
          Some(c + 1)
        else
          match LastClose(s, a, b)
          case Some(k) => Some(k + 1)
          case None => None
    else None
  }

  /** What `MatchAt` returns is a match of the pattern. */
  lemma MatchAtSound(s: string, i: nat)
    requires MatchAt(s, i).Some?
    ensures Matches(s, i, MatchAt(s, i).value)
  {
    var a := SpaceEnd(s, i + 2);
    var b := NonSpaceEnd(s, a);
    var c := SpaceEnd(s, b);
    SpaceEndSpec(s, i + 2);
    NonSpaceEndSpec(s, a);
    SpaceEndSpec(s, b);
    LastCloseSpec(s, a, b);
    if c < |s| && s[c] == '}' {
      assert Spaces(s, i + 2, a) && NonSpaces(s, a, b) && Spaces(s, b, c);
    } else {
      var k := LastClose(s, a, b).value;
      assert Spaces(s, i + 2, a) && NonSpaces(s, a, k) && Spaces(s, k, k);
    }
  }

  /** The match `MatchAt` chooses is the longest match at `i`, and there is
      one whenever the pattern matches at `i` at all. */
  lemma MatchAtLongest(s: string, i: nat, e: nat)
    requires Matches(s, i, e)
    ensures MatchAt(s, i).Some? && e <= MatchAt(s, i).value
  {
    var a', b' :| i + 2 <= a' < b' <= e - 1 && Spaces(s, i + 2, a') && NonSpaces(s, a', b') && Spaces(s, b', e - 1);
    // The leading whitespace run is forced: it ends where the non-whitespace begins.
    var a := SpaceEnd(s, i + 2);
    SpaceEndSpec(s, i + 2);
    assert !IsSpace(s[a']);
    assert a == a';
    // The non-whitespace run of the match lies inside the maximal one.
    var b := NonSpaceEnd(s, a);
    NonSpaceEndSpec(s, a);
    assert b' <= b;
    var c := SpaceEnd(s, b);
    SpaceEndSpec(s, b);
    LastCloseSpec(s, a, b);
    if b' < e - 1 {
      // Whitespace follows the run, so the run is the maximal one and `}`
      // closes the whitespace after it.
      assert IsSpace(s[b']);
      assert b' == b;
      assert !IsSpace(s[e - 1]);
      assert c == e - 1;
    } else {
      // The match closes on a `}` inside the maximal non-whitespace run.
      assert !IsSpace(s[b']) && s[b'] == '}';
      assert b' < b;
    }
  }

  /** `FindAllString` from index `from`: the spans of the successive,
      non-overlapping, leftmost matches, in order. */
  function FindAll(s: string, from: nat): (r: seq<(nat, nat)>)
    requires from <= |s|
    ensures forall k | 0 <= k < |r| :: from <= r[k].0 && r[k].0 + 4 <= r[k].1 <= |s|
    ensures forall k, l | 0 <= k < l < |r| :: r[k].1 <= r[l].0
    decreases |s| - from
  {
    if from == |s| then []
    else
      match MatchAt(s, from)
      case Some(e) =>
        var rest := FindAll(s, e);
        var r := [(from, e)] + rest;
        assert forall k | 0 <= k < |rest| :: r[k + 1] == rest[k];
        r
      case None => FindAll(s, from + 1)
  }

  /** Every span of `r` is the match `MatchAt` chooses at the span's start. */
  ghost predicate ChosenMatches(s: string, r: seq<(nat, nat)>) {
    forall k | 0 <= k < |r| :: MatchAt(s, r[k].0) == Some(r[k].1)
  }

  /** Each span found by the scan is the match `MatchAt` chooses at its start. */
  lemma {:induction false} FindAllMatches(s: string, from: nat)
    requires from <= |s|
    ensures ChosenMatches(s, FindAll(s, from))
    decreases |s| - from
  {
    if from < |s| {
      match MatchAt(s, from)
      case Some(e) =>
        FindAllMatches(s, e);
        var rest := FindAll(s, e);
        var r := FindAll(s, from);
        assert r == [(from, e)] + rest;
        forall k | 0 <= k < |r| ensures MatchAt(s, r[k].0) == Some(r[k].1) {
          if k > 0 {
            assert r[k] == rest[k - 1];
          }
        }
      case None =>
        FindAllMatches(s, from + 1);
    }
  }

  /** Some span of `r` contains position `j`. */
  ghost predicate Covers(r: seq<(nat, nat)>, j: int) {
    exists k | 0 <= k < |r| :: r[k].0 <= j < r[k].1
  }

  /** Every position at which a match could start lies inside a span: the
      scan skips no match, so each span starts at the leftmost match. */
  lemma {:induction false} FindAllCovers(s: string, from: nat, j: nat)
    requires from <= j < |s| && MatchAt(s, j).Some?
    ensures Covers(FindAll(s, from), j)
    decreases |s| - from
  {
    match MatchAt(s, from)
    case Some(e) =>
      var rest := FindAll(s, e);
      var r := FindAll(s, from);
      assert r == [(from, e)] + rest;
      if j < e {
        assert r[0].0 <= j < r[0].1;
      } else {
        FindAllCovers(s, e, j);
        var k :| 0 <= k < |rest| && rest[k].0 <= j < rest[k].1;
        assert r[k + 1] == rest[k];
      }
    case None =>
      FindAllCovers(s, from + 1, j);
  }

  /** The placeholder texts `FindAllString` returns for `s`, in order. */
  function Placeholders(s: string): (ps: seq<string>)
    ensures forall k | 0 <= k < |ps| :: |ps[k]| >= 4
  {
    var spans := FindAll(s, 0);
    seq(|spans|, k requires 0 <= k < |spans| =>
      s[spans[k].0..spans[k].1])
  }

  /** A value has no placeholders exactly when the pattern matches nowhere in it. */
  lemma NoPlaceholders(s: string)
    ensures Placeholders(s) == [] <==> forall i: nat, e: nat :: !Matches(s, i, e)
  {
    var spans := FindAll(s, 0);
    if spans == [] {
      forall i: nat, e: nat | Matches(s, i, e) ensures false {
        assert i + 4 <= e <= |s|;
        MatchAtLongest(s, i, e);
        FindAllCovers(s, 0, i);
      }
    } else {
      FindAllMatches(s, 0);
      MatchAtSound(s, spans[0].0);
    }
  }

  /** A value with no `${` in it has no placeholders. */
  lemma NoOpeningNoPlaceholders(s: string)
    requires forall i | 0 <= i < |s| - 1 :: !(s[i] == '$' && s[i + 1] == '{')
    ensures Placeholders(s) == []
  {
    NoPlaceholders(s);
  }

  // ---------------------------------------------------------------------
  // The key pattern  (\w+(\.)?)+
  // ---------------------------------------------------------------------

  /** `t[lo..hi]` consists of word characters and dots, starts with a word
      character and has no two dots in a row: a match of `(\w+(\.)?)+`. */
  ghost predicate KeyMatch(t: string, lo: nat, hi: nat) {
    && lo < hi <= |t|
    && IsWord(t[lo])
    && (forall k | lo <= k < hi :: IsWord(t[k]) || t[k] == '.')
    && (forall k | lo <= k < hi - 1 :: !(t[k] == '.' && t[k + 1] == '.'))
  }

  /** The first word character at or after `i`, or `|t|`. */
  function FirstWord(t: string, i: nat): (r: nat)
    requires i <= |t|
    ensures i <= r <= |t| && (r < |t| ==> IsWord(t[r]))
    ensures forall k | i <= k < r :: !IsWord(t[k])
    decreases |t| - i
  {
    if i == |t| || IsWord(t[i]) then i else FirstWord(t, i + 1)
  }

  /** The end of the run of word characters that starts at `i`. */
  function WordEnd(t: string, i: nat): (r: nat)
    requires i <= |t|
    ensures i <= r <= |t| && (r < |t| ==> !IsWord(t[r]))
    ensures forall k | i <= k < r :: IsWord(t[k])
    decreases |t| - i
  {
    if i == |t| || !IsWord(t[i]) then i else WordEnd(t, i + 1)
  }

  /** The end of the greedy match of `(\w+(\.)?)+` that starts at the word
      character `t[j]`: a match that cannot be extended. */
  function KeyEnd(t: string, j: nat): (r: nat)
    requires j < |t| && IsWord(t[j])
    ensures KeyMatch(t, j, r)
    ensures r == |t| || (!IsWord(t[r]) && (t[r] == '.' ==> t[r - 1] == '.'))
    decreases |t| - j
  {
    var w := WordEnd(t, j);
    if w + 1 < |t| && t[w] == '.' && IsWord(t[w + 1]) then
      KeyEnd(t, w + 1)
    else if w < |t| && t[w] == '.' then w + 1
    else w
  }

  /** The greedy match is the longest match at `j`. */
  lemma KeyEndLongest(t: string, j: nat, e: nat)
    requires KeyMatch(t, j, e)
    ensures e <= KeyEnd(t, j)
  {
    // Past the greedy end the match would need a second dot in a row.
    var r := KeyEnd(t, j);
  }

  /** `FindString` of the key pattern on the placeholder text `p`: the
      longest match at the first word character, or "" when `p` has none. */
  function Key(p: string): (key: string)
    ensures key == "" <==> forall k | 0 <= k < |p| :: !IsWord(p[k])
  {
    var k := FirstWord(p, 0);
    if k == |p| then "" else p[k..KeyEnd(p, k)]
  }

  // ---------------------------------------------------------------------
  // Placeholders written the usual way
  // ---------------------------------------------------------------------

  ghost predicate AllSpace(w: string) {
    forall k | 0 <= k < |w| :: IsSpace(w[k])
  }

  /** A dotted key path such as `server.port`: word characters in segments
      separated by single dots. */
  ghost predicate IsDottedKey(key: string) {
    && |key| > 0 && IsWord(key[0]) && IsWord(key[|key| - 1])
    && (forall k | 0 <= k < |key| :: IsWord(key[k]) || key[k] == '.')
    && (forall k | 0 <= k < |key| - 1 :: !(key[k] == '.' && key[k + 1] == '.'))
  }

  /** The pattern matches the whole of `t`, so `t` is its only placeholder. */
  lemma WholePlaceholder(t: string, a: nat, b: nat)
    requires 2 <= a < b < |t| && t[0] == '$' && t[1] == '{' && t[|t| - 1] == '}'
    requires Spaces(t, 2, a) && NonSpaces(t, a, b) && Spaces(t, b, |t| - 1)
    ensures Placeholders(t) == [t]
  {
    assert Matches(t, 0, |t|);
    MatchAtLongest(t, 0, |t|);
    assert MatchAt(t, 0) == Some(|t|);
    assert FindAll(t, |t|) == [];
    assert FindAll(t, 0) == [(0, |t|)];
    assert t[0..|t|] == t;
  }

  /** The key of `t` is the key path `t[a..b]` that follows `${` and whitespace. */
  lemma KeyAfterSpaces(t: string, a: nat, b: nat)
    requires 2 <= a < b < |t| && t[0] == '$' && t[1] == '{'
    requires Spaces(t, 2, a) && KeyMatch(t, a, b)
    requires !IsWord(t[b]) && t[b] != '.'
    ensures Key(t) == t[a..b]
  {
    var f := FirstWord(t, 0);
    assert IsWord(t[a]) && !IsWord(t[0]) && !IsWord(t[1]);
    assert f == a;
    KeyEndLongest(t, a, b);
    assert KeyEnd(t, a) == b;
  }

  /** A placeholder `${ key }` standing alone is found whole, and names its
      key without the surrounding whitespace. */
  lemma PlaceholderKey(ws1: string, key: string, ws2: string)
    requires AllSpace(ws1) && IsDottedKey(key) && AllSpace(ws2)
    ensures var t := "${" + ws1 + key + ws2 + "}";
            Placeholders(t) == [t] && Key(t) == key
  {
    var t := "${" + ws1 + key + ws2 + "}";
    var a := 2 + |ws1|;
    var b := a + |key|;
    assert t[0] == '$' && t[1] == '{' && t[|t| - 1] == '}';
    assert t[a..b] == key;
    assert forall k | 2 <= k < a :: t[k] == ws1[k - 2];
    assert forall k | a <= k < b :: t[k] == key[k - a];
    assert forall k | b <= k < |t| - 1 :: t[k] == ws2[k - b];
    assert Spaces(t, 2, a) && Spaces(t, b, |t| - 1);
    assert KeyMatch(t, a, b);
    assert NonSpaces(t, a, b);
    WholePlaceholder(t, a, b);
    assert t[b] == (if ws2 == [] then '}' else ws2[0]);
    KeyAfterSpaces(t, a, b);
  }

  /** `${ s.d  }` is found whole and names the key `s.d`. */
  lemma KeyDropsWhitespace()
    ensures Placeholders("${ s.d  }") == ["${ s.d  }"] && Key("${ s.d  }") == "s.d"
  {
    var key := "s.d";
    assert IsWord(key[0]) && key[1] == '.' && IsWord(key[2]);
    assert IsDottedKey(key);
    assert "${ s.d  }" == "${" + " " + key + "  " + "}";
    PlaceholderKey(" ", key, "  ");
  }

  /** `${s1.s.s.a_d  }` names the key `s1.s.s.a_d`. */
  lemma NestedKeyDropsWhitespace()
    ensures Key("${s1.s.s.a_d  }") == "s1.s.s.a_d"
  {
    var key := "s1.s.s.a_d";
    assert IsDottedKey(key);
    assert "${s1.s.s.a_d  }" == "${" + "" + key + "  " + "}";
    PlaceholderKey("", key, "  ");
  }

  /** The placeholder `${key}`, written without whitespace. */
  function Ref(key: string): (t: string)
    ensures |t| == |key| + 3
  {
    "${" + key + "}"
  }

  /** Two placeholders written back to back form a single match, because
      `\S` also matches `}`; its key is the first one's. */
  lemma AdjacentPlaceholdersMerge(a: string, b: string)
    requires IsDottedKey(a) && IsDottedKey(b)
    ensures Placeholders(Ref(a) + Ref(b)) == [Ref(a) + Ref(b)]
    ensures Key(Ref(a) + Ref(b)) == a
  {
    var t := Ref(a) + Ref(b);
    var n := |a| + 3;
    assert forall k | 2 <= k < n - 1 :: t[k] == a[k - 2];
    assert t[n - 1] == '}' && t[n] == '$' && t[n + 1] == '{';
    assert forall k | n + 2 <= k < |t| - 1 :: t[k] == b[k - n - 2];
    assert t[|t| - 1] == '}';
    assert NonSpaces(t, 2, |t| - 1);
    WholePlaceholder(t, 2, |t| - 1);
    assert KeyMatch(t, 2, n - 1);
    KeyAfterSpaces(t, 2, n - 1);
    assert t[2..n - 1] == a;
  }

  /** A space between two identical placeholders separates them. */
  lemma SeparatedPlaceholders()
    ensures Placeholders("${a} ${a}") == ["${a}", "${a}"] && Key("${a}") == "a"
  {
    var s := "${a} ${a}";
    assert NonSpaceEnd(s, 2) == 4;
    assert SpaceEnd(s, 4) == 5;
    assert LastClose(s, 2, 4) == Some(3);
    assert MatchAt(s, 0) == Some(4);
    assert MatchAt(s, 4) == None;
    assert NonSpaceEnd(s, 7) == 9;
    assert LastClose(s, 7, 9) == Some(8);
    assert MatchAt(s, 5) == Some(9);
    assert FindAll(s, 9) == [];
    assert FindAll(s, 5) == [(5, 9)];
    assert FindAll(s, 4) == [(5, 9)];
    assert FindAll(s, 0) == [(0, 4), (5, 9)];
    assert s[0..4] == "${a}" && s[5..9] == "${a}";
    PlaceholderKey("", "a", "");
    assert "${" + "" + "a" + "" + "}" == "${a}";
  }

  /** Where the matches of `a ${s.d  },${s.dd}` start and end. */
  lemma MatchesInText()
    ensures var s := "a ${s.d  },${s.dd}";
            && MatchAt(s, 0) == None && MatchAt(s, 1) == None && MatchAt(s, 2) == Some(10)
            && MatchAt(s, 10) == None && MatchAt(s, 11) == Some(18)
  {
    var s := "a ${s.d  },${s.dd}";
    assert SpaceEnd(s, 4) == 4;
    assert NonSpaceEnd(s, 4) == 7;
    assert SpaceEnd(s, 7) == 9;
    assert SpaceEnd(s, 13) == 13;
    assert NonSpaceEnd(s, 13) == 18;
    assert LastClose(s, 13, 18) == Some(17);
  }

  /** The text `a ${s.d  },${s.dd}` holds two placeholders. */
  lemma PlaceholdersInText()
    ensures Placeholders("a ${s.d  },${s.dd}") == ["${s.d  }", "${s.dd}"]
  {
    var s := "a ${s.d  },${s.dd}";
    MatchesInText();
    assert FindAll(s, 18) == [];
    assert FindAll(s, 11) == [(11, 18)];
    assert FindAll(s, 10) == [(11, 18)];
    assert FindAll(s, 2) == [(2, 10), (11, 18)];
    assert FindAll(s, 0) == [(2, 10), (11, 18)];
    SlicesInText();
  }

  lemma SlicesInText()
    ensures var s := "a ${s.d  },${s.dd}";
            s[2..10] == "${s.d  }" && s[11..18] == "${s.dd}"
  {
    var s := "a ${s.d  },${s.dd}";
    assert forall k | 0 <= k < 8 :: s[2..10][k] == "${s.d  }"[k];
    assert forall k | 0 <= k < 7 :: s[11..18][k] == "${s.dd}"[k];
  }

  /** The keys of the two placeholders of `a ${s.d  },${s.dd}`. */
  lemma KeysInText()
    ensures Key("${s.d  }") == "s.d" && Key("${s.dd}") == "s.dd"
  {
    assert IsDottedKey("s.d") && IsDottedKey("s.dd");
    PlaceholderKey("", "s.d", "  ");
    assert "${" + "" + "s.d" + "  " + "}" == "${s.d  }";
    PlaceholderKey("", "s.dd", "");
    assert "${" + "" + "s.dd" + "" + "}" == "${s.dd}";
  }
}
