/**
 * The string operations the annotation page builds on: Python's
 * `str.replace` (non-overlapping, left to right), and the pair
 * `" ".join(s.split())` that collapses whitespace runs.
 */
module Text {

  /** The characters Python's `str.isspace()` accepts, which is what
      `str.split()` without arguments splits on. */
  predicate IsSpace(c: char) {
    || c == ' '
    || ('\t' <= c <= '\r')
    || ('\U{1C}' <= c <= '\U{1F}')
    || c == '\U{85}'
    || c == '\U{A0}'
    || c == '\U{1680}'
    || ('\U{2000}' <= c <= '\U{200A}')
    || c == '\U{2028}'
    || c == '\U{2029}'
    || c == '\U{202F}'
    || c == '\U{205F}'
    || c == '\U{3000}'
  }

  // ---------------------------------------------------------------------------
  // str.replace
  // ---------------------------------------------------------------------------

  /** `pat` occurs in `s` starting at position `i`. */
  predicate MatchAt(s: string, i: nat, pat: string) {
    i + |pat| <= |s| && s[i..i + |pat|] == pat
  }

  /** `pat` occurs nowhere in `s`. */
  predicate Absent(s: string, pat: string) {
    forall i :: 0 <= i < |s| ==> !MatchAt(s, i, pat)
  }

  /** `s.replace(pat, rep)` for a non-empty `pat`: the leftmost occurrence is
      replaced, scanning resumes after it, and replaced text is never rescanned. */
  function ReplaceAll(s: string, pat: string, rep: string): (r: string)
    requires pat != []
    ensures rep == pat ==> r == s
    decreases |s|
  {
    if s == [] then []
    else if MatchAt(s, 0, pat) then rep + ReplaceAll(s[|pat|..], pat, rep)
    else [s[0]] + ReplaceAll(s[1..], pat, rep)
  }

  /** A prefix `a` in which no occurrence of `pat` starts is copied unchanged. */
  lemma {:induction false} ReplaceAllSkip(a: string, b: string, pat: string, rep: string)
    requires pat != []
    requires forall i :: 0 <= i < |a| ==> !MatchAt(a + b, i, pat)
    ensures ReplaceAll(a + b, pat, rep) == a + ReplaceAll(b, pat, rep)
    decreases |a|
  {
    if a == [] {
      assert a + b == b;
    } else {
      assert !MatchAt(a + b, 0, pat);
      assert (a + b)[1..] == a[1..] + b;
      forall i | 0 <= i < |a[1..]|
        ensures !MatchAt(a[1..] + b, i, pat)
      {
        assert !MatchAt(a + b, i + 1, pat);
        if i + |pat| <= |a[1..] + b| {
          assert (a[1..] + b)[i..i + |pat|] == (a + b)[i + 1..i + 1 + |pat|];
        }
      }
      ReplaceAllSkip(a[1..], b, pat, rep);
      assert a == [a[0]] + a[1..];
    }
  }

  /** Without an occurrence of `pat`, replacing is the identity. */
  lemma ReplaceAllAbsent(s: string, pat: string, rep: string)
    requires pat != [] && Absent(s, pat)
    ensures ReplaceAll(s, pat, rep) == s
  {
    assert s + [] == s;
    ReplaceAllSkip(s, [], pat, rep);
  }

  /** An occurrence at the front is replaced and scanning resumes after it. */
  lemma ReplaceAllFront(pat: string, b: string, rep: string)
    requires pat != []
    ensures ReplaceAll(pat + b, pat, rep) == rep + ReplaceAll(b, pat, rep)
  {
    assert (pat + b)[0..|pat|] == pat;
    assert (pat + b)[|pat|..] == b;
  }

  /** A piece that starts with the first character of `pat`, differs from `pat`
      at position `k`, and never repeats that first character is copied
      unchanged, whatever follows it. */
  lemma ReplaceAllSkipPiece(a: string, b: string, pat: string, rep: string, k: nat)
    requires pat != []
    requires k < |a| && k < |pat| && a[k] != pat[k]
    requires pat[0] !in a[1..]
    ensures ReplaceAll(a + b, pat, rep) == a + ReplaceAll(b, pat, rep)
  {
    forall i | 0 <= i < |a|
      ensures !MatchAt(a + b, i, pat)
    {
      if i + |pat| <= |a + b| {
        if i == 0 {
          assert (a + b)[0..|pat|][k] == a[k];
        } else {
          assert a[1..][i - 1] == a[i];
          assert (a + b)[i..i + |pat|][0] == a[i];
        }
      }
    }
    ReplaceAllSkip(a, b, pat, rep);
  }

  /** A text free of the first character of `pat` is copied unchanged. */
  lemma ReplaceAllSkipPlain(a: string, b: string, pat: string, rep: string)
    requires pat != [] && pat[0] !in a
    ensures ReplaceAll(a + b, pat, rep) == a + ReplaceAll(b, pat, rep)
  {
    forall i | 0 <= i < |a|
      ensures !MatchAt(a + b, i, pat)
    {
      if i + |pat| <= |a + b| {
        assert (a + b)[i..i + |pat|][0] == a[i];
      }
    }
    ReplaceAllSkip(a, b, pat, rep);
  }

  /** When the first character of `pat` does not recur in `pat`, no
      occurrence can overlap it: with `a` free of `pat`, an occurrence after
      `a` is replaced whatever precedes it. */
  lemma ReplaceAllAfterAbsent(a: string, b: string, pat: string, rep: string)
    requires pat != [] && pat[0] !in pat[1..] && Absent(a, pat)
    ensures ReplaceAll(a + pat + b, pat, rep) == a + rep + ReplaceAll(b, pat, rep)
  {
    forall i | 0 <= i < |a|
      ensures !MatchAt(a + (pat + b), i, pat)
    {
      NoMatchBefore(a, pat + b, pat, i);
    }
    ReplaceAllSkip(a, pat + b, pat, rep);
    ReplaceAllFront(pat, b, rep);
    assert a + pat + b == a + (pat + b);
  }

  /** No occurrence starts inside `a` when `a` is free of `pat` and is followed
      by a character that occurs in `pat` only at its front. */
  lemma NoMatchBefore(a: string, t: string, pat: string, i: int)
    requires pat != [] && pat[0] !in pat[1..] && Absent(a, pat)
    requires t != [] && t[0] == pat[0] && 0 <= i < |a|
    ensures !MatchAt(a + t, i, pat)
  {
    var s := a + t;
    if i + |pat| <= |a| {
      assert !MatchAt(a, i, pat);
      assert s[i..i + |pat|] == a[i..i + |pat|];
    } else if i + |pat| <= |s| {
      var k := |a| - i;
      assert pat[1..][k - 1] == pat[k];
      assert s[i..i + |pat|][k] == s[|a|] == t[0];
    }
  }

  /** `sep.join(ps)` for a non-empty list; with `sep == ""` the pieces are
      simply concatenated. */
  function JoinWith(ps: seq<string>, sep: string): string
    requires ps != []
    decreases |ps|
  {
    if |ps| == 1 then ps[0] else ps[0] + sep + JoinWith(ps[1..], sep)
  }

  lemma {:induction false} JoinWithLast(ps: seq<string>, sep: string)
    requires |ps| >= 2
    ensures JoinWith(ps, sep) == JoinWith(ps[..|ps| - 1], sep) + sep + ps[|ps| - 1]
    decreases |ps|
  {
    var n := |ps|;
    if n > 2 {
      JoinWithLast(ps[1..], sep);
      assert ps[1..][..n - 2] == ps[..n - 1][1..];
      assert ps[1..][n - 2] == ps[n - 1];
    }
  }

  /** Every occurrence is replaced: pieces free of a pattern whose first
      character does not recur in it, joined by that pattern, come out joined
      by the replacement. */
  lemma {:induction false} ReplaceAllJoined(ps: seq<string>, pat: string, rep: string)
    requires ps != [] && pat != [] && pat[0] !in pat[1..]
    requires forall k :: 0 <= k < |ps| ==> Absent(ps[k], pat)
    ensures ReplaceAll(JoinWith(ps, pat), pat, rep) == JoinWith(ps, rep)
    decreases |ps|
  {
    if |ps| == 1 {
      ReplaceAllAbsent(ps[0], pat, rep);
    } else {
      assert Absent(ps[0], pat);
      ReplaceAllAfterAbsent(ps[0], JoinWith(ps[1..], pat), pat, rep);
      ReplaceAllJoined(ps[1..], pat, rep);
    }
  }

  /** A character of `pat` that `s` lacks rules out every occurrence. */
  lemma AbsentByMissingChar(s: string, pat: string, j: nat)
    requires j < |pat| && pat[j] !in s
    ensures Absent(s, pat)
  {
    forall i | 0 <= i < |s|
      ensures !MatchAt(s, i, pat)
    {
      if i + |pat| <= |s| {
        assert s[i..i + |pat|][j] == s[i + j];
      }
    }
  }

  // ---------------------------------------------------------------------------
  // Replacing a single character: an independent reference definition
  // ---------------------------------------------------------------------------

  /** Every `c` in `s` becomes `rep`; every other character is kept. */
  function CharSubst(s: string, c: char, rep: string): string
    decreases |s|
  {
    if s == [] then []
    else (if s[0] == c then rep else [s[0]]) + CharSubst(s[1..], c, rep)
  }

  /** `str.replace` with a one-character pattern is `CharSubst`. */
  lemma {:induction false} ReplaceAllChar(s: string, c: char, rep: string)
    ensures ReplaceAll(s, [c], rep) == CharSubst(s, c, rep)
    decreases |s|
  {
    if s != [] {
      assert MatchAt(s, 0, [c]) <==> s[0] == c by {
        assert s[0..1] == [s[0]];
      }
      ReplaceAllChar(s[1..], c, rep);
    }
  }

  lemma {:induction false} CharSubstAppend(a: string, b: string, c: char, rep: string)
    ensures CharSubst(a + b, c, rep) == CharSubst(a, c, rep) + CharSubst(b, c, rep)
    decreases |a|
  {
    if a == [] {
      assert a + b == b;
    } else {
      assert (a + b)[1..] == a[1..] + b;
      CharSubstAppend(a[1..], b, c, rep);
    }
  }

  /** Every character of the result comes from `rep` or is a character of `s`
      other than `c`. */
  lemma {:induction false} CharSubstChars(s: string, c: char, rep: string, i: nat)
    requires i < |CharSubst(s, c, rep)|
    ensures CharSubst(s, c, rep)[i] in rep || (CharSubst(s, c, rep)[i] in s && CharSubst(s, c, rep)[i] != c)
    decreases |s|
  {
    var head := if s[0] == c then rep else [s[0]];
    if i >= |head| {
      CharSubstChars(s[1..], c, rep, i - |head|);
      var x := CharSubst(s, c, rep)[i];
      assert x == CharSubst(s[1..], c, rep)[i - |head|];
      if x in s[1..] {
        var j :| 0 <= j < |s[1..]| && s[1..][j] == x;
        assert s[j + 1] == x;
      }
    }
  }

  // ---------------------------------------------------------------------------
  // str.split() and " ".join(...)
  // ---------------------------------------------------------------------------

  /** A token of `str.split()`: non-empty, no whitespace. */
  predicate IsWord(w: string) {
    w != [] && forall i :: 0 <= i < |w| ==> !IsSpace(w[i])
  }

  /** Length of the leading run of non-whitespace characters. */
  function Lead(s: string): (n: nat)
    ensures n <= |s|
    ensures forall i :: 0 <= i < n ==> !IsSpace(s[i])
    ensures n < |s| ==> IsSpace(s[n])
    decreases |s|
  {
    if s == [] || IsSpace(s[0]) then 0
    else
      var m := Lead(s[1..]);
      assert forall i :: 1 <= i < m + 1 ==> s[i] == s[1..][i - 1];
      1 + m
  }

  /** `s.split()`: the maximal whitespace-free runs of `s`, in order. */
  function Words(s: string): (ws: seq<string>)
    ensures forall k :: 0 <= k < |ws| ==> IsWord(ws[k])
    decreases |s|
  {
    if s == [] then []
    else if IsSpace(s[0]) then Words(s[1..])
    else [s[..Lead(s)]] + Words(s[Lead(s)..])
  }

  /** `" ".join(ws)`: one separator between each two neighbours. */
  function JoinSpaced(ws: seq<string>): (r: string)
    ensures (forall k :: 0 <= k < |ws| ==> ' ' !in ws[k]) ==> Count(r, ' ') == if ws == [] then 0 else |ws| - 1
    decreases |ws|
  {
    if ws == [] then ""
    else if |ws| == 1 then
      CountMissing(ws[0], ' ');
      ws[0]
    else
      var rest := JoinSpaced(ws[1..]);
      CountMissing(ws[0], ' ');
      CountAppend(ws[0], " ", ' ');
      CountAppend(ws[0] + " ", rest, ' ');
      ws[0] + " " + rest
  }

  /** Whitespace in `s` is only the plain space, never at either end and never
      followed by more whitespace. */
  predicate Normalized(s: string) {
    forall i :: 0 <= i < |s| && IsSpace(s[i]) ==> s[i] == ' ' && 0 < i < |s| - 1 && !IsSpace(s[i + 1])
  }

  /** A word followed by whitespace (or nothing) is the first token. */
  lemma WordsOfWord(a: string, b: string)
    requires IsWord(a) && (b == [] || IsSpace(b[0]))
    ensures Words(a + b) == [a] + Words(b)
  {
    var s := a + b;
    var n := Lead(s);
    assert forall i :: 0 <= i < |a| ==> s[i] == a[i] && !IsSpace(s[i]);
    assert |a| < |s| ==> s[|a|] == b[0];
    assert n == |a|;
    assert s[..n] == a;
    assert s[n..] == b;
  }

  /** Leading whitespace is dropped. */
  lemma WordsAfterSpace(c: char, t: string)
    requires IsSpace(c)
    ensures Words([c] + t) == Words(t)
  {
    assert ([c] + t)[1..] == t;
  }

  /** A run of leading whitespace is dropped. */
  lemma {:induction false} WordsAfterSpaces(g: string, t: string)
    requires forall i :: 0 <= i < |g| ==> IsSpace(g[i])
    ensures Words(g + t) == Words(t)
    decreases |g|
  {
    if g == [] {
      assert g + t == t;
    } else {
      assert g + t == [g[0]] + (g[1..] + t);
      WordsAfterSpace(g[0], g[1..] + t);
      assert forall i :: 0 <= i < |g[1..]| ==> IsSpace(g[1..][i]);
      WordsAfterSpaces(g[1..], t);
    }
  }

  /** A word followed by a non-empty whitespace run is the first token. */
  lemma WordsOfWordAndGap(w: string, g: string, rest: string)
    requires IsWord(w) && g != []
    requires forall i :: 0 <= i < |g| ==> IsSpace(g[i])
    ensures Words(w + g + rest) == [w] + Words(rest)
  {
    assert w + g + rest == w + (g + rest);
    WordsOfWord(w, g + rest);
    WordsAfterSpaces(g, rest);
  }

  /** Splitting undoes joining: the tokens of `" ".join(ws)` are `ws`. */
  lemma {:induction false} WordsOfJoin(ws: seq<string>)
    requires forall k :: 0 <= k < |ws| ==> IsWord(ws[k])
    ensures Words(JoinSpaced(ws)) == ws
    decreases |ws|
  {
    if |ws| == 1 {
      assert ws[0] + [] == ws[0];
      WordsOfWord(ws[0], []);
    } else if |ws| > 1 {
      var rest := JoinSpaced(ws[1..]);
      assert ws[0] + " " + rest == ws[0] + (" " + rest);
      WordsOfWord(ws[0], " " + rest);
      assert (" " + rest)[1..] == rest;
      WordsOfJoin(ws[1..]);
      assert ws == [ws[0]] + ws[1..];
    }
  }

  lemma {:induction false} JoinStartsWithWord(ws: seq<string>)
    requires |ws| > 0 && forall k :: 0 <= k < |ws| ==> IsWord(ws[k])
    ensures |JoinSpaced(ws)| > 0 && !IsSpace(JoinSpaced(ws)[0])
  {
    assert IsWord(ws[0]);
  }

  /** Joining tokens with single spaces yields a normalised text. */
  lemma {:induction false} JoinNormalized(ws: seq<string>)
    requires forall k :: 0 <= k < |ws| ==> IsWord(ws[k])
    ensures Normalized(JoinSpaced(ws))
    decreases |ws|
  {
    if |ws| > 1 {
      var w := ws[0];
      var rest := JoinSpaced(ws[1..]);
      JoinNormalized(ws[1..]);
      JoinStartsWithWord(ws[1..]);
      var s := w + " " + rest;
      assert IsWord(w);
      assert forall i :: 0 <= i < |w| ==> s[i] == w[i];
      forall i | 0 <= i < |s| && IsSpace(s[i])
        ensures s[i] == ' ' && 0 < i < |s| - 1 && !IsSpace(s[i + 1])
      {
        if i == |w| {
          assert s[i + 1] == rest[0];
        } else if i > |w| {
          assert s[i] == rest[i - |w| - 1];
          assert s[i + 1] == rest[i - |w|];
        }
      }
    }
  }

  /** `s` and `t` agree except that whitespace may be exchanged for other
      whitespace. */
  predicate SameShape(s: string, t: string) {
    && |s| == |t|
    && forall i :: 0 <= i < |s| ==> (IsSpace(s[i]) <==> IsSpace(t[i])) && (!IsSpace(s[i]) ==> s[i] == t[i])
  }

  lemma {:induction false} LeadSameShape(s: string, t: string)
    requires SameShape(s, t)
    ensures Lead(s) == Lead(t)
    decreases |s|
  {
    if s != [] && !IsSpace(s[0]) {
      assert SameShape(s[1..], t[1..]) by {
        forall i | 0 <= i < |s[1..]|
          ensures (IsSpace(s[1..][i]) <==> IsSpace(t[1..][i])) && (!IsSpace(s[1..][i]) ==> s[1..][i] == t[1..][i])
        {
          assert s[1..][i] == s[i + 1] && t[1..][i] == t[i + 1];
        }
      }
      LeadSameShape(s[1..], t[1..]);
    }
  }

  /** Exchanging whitespace characters does not change the tokens. */
  lemma {:induction false} WordsSameShape(s: string, t: string)
    requires SameShape(s, t)
    ensures Words(s) == Words(t)
    decreases |s|
  {
    if s != [] {
      var d := if IsSpace(s[0]) then 1 else Lead(s);
      if !IsSpace(s[0]) {
        LeadSameShape(s, t);
        assert s[..d] == t[..d];
      }
      assert SameShape(s[d..], t[d..]) by {
        forall i | 0 <= i < |s[d..]|
          ensures (IsSpace(s[d..][i]) <==> IsSpace(t[d..][i])) && (!IsSpace(s[d..][i]) ==> s[d..][i] == t[d..][i])
        {
          assert s[d..][i] == s[i + d] && t[d..][i] == t[i + d];
        }
      }
      WordsSameShape(s[d..], t[d..]);
    }
  }

  /** Replacing a whitespace character with a space keeps the shape. */
  lemma {:induction false} SpaceSubstSameShape(s: string, c: char)
    requires IsSpace(c)
    ensures SameShape(s, CharSubst(s, c, " "))
    decreases |s|
  {
    if s != [] {
      SpaceSubstSameShape(s[1..], c);
      var t := CharSubst(s, c, " ");
      assert t == (if s[0] == c then " " else [s[0]]) + CharSubst(s[1..], c, " ");
      forall i | 0 <= i < |s|
        ensures (IsSpace(s[i]) <==> IsSpace(t[i])) && (!IsSpace(s[i]) ==> s[i] == t[i])
      {
        if i > 0 {
          assert s[i] == s[1..][i - 1];
        }
      }
    }
  }

  /** Replacing a non-whitespace character with non-whitespace text acts on
      each token separately. */
  lemma {:induction false} WordsCharSubst(s: string, c: char, rep: string)
    requires !IsSpace(c) && IsWord(rep)
    ensures Words(CharSubst(s, c, rep)) == MapCharSubst(Words(s), c, rep)
    decreases |s|
  {
    if s != [] {
      if IsSpace(s[0]) {
        assert CharSubst(s, c, rep) == [s[0]] + CharSubst(s[1..], c, rep);
        WordsCharSubst(s[1..], c, rep);
        assert ([s[0]] + CharSubst(s[1..], c, rep))[1..] == CharSubst(s[1..], c, rep);
      } else {
        var n := Lead(s);
        var w, rest := s[..n], s[n..];
        assert s == w + rest;
        CharSubstAppend(w, rest, c, rep);
        var w' := CharSubst(w, c, rep);
        assert IsWord(w') by {
          WordCharSubst(w, c, rep);
        }
        assert rest == [] || IsSpace(rest[0]);
        var rest' := CharSubst(rest, c, rep);
        assert rest' == [] || IsSpace(rest'[0]) by {
          if rest != [] {
            assert rest' == [rest[0]] + CharSubst(rest[1..], c, rep);
          }
        }
        WordsOfWord(w', rest');
        WordsCharSubst(rest, c, rep);
        assert Words(s) == [w] + Words(rest);
      }
    }
  }

  lemma {:induction false} WordCharSubst(w: string, c: char, rep: string)
    requires IsWord(w) && !IsSpace(c) && IsWord(rep)
    ensures IsWord(CharSubst(w, c, rep))
  {
    var t := CharSubst(w, c, rep);
    assert t == (if w[0] == c then rep else [w[0]]) + CharSubst(w[1..], c, rep);
    forall i | 0 <= i < |t|
      ensures !IsSpace(t[i])
    {
      CharSubstChars(w, c, rep, i);
    }
  }

  /** `[CharSubst(w, c, rep) for w in ws]`. */
  function MapCharSubst(ws: seq<string>, c: char, rep: string): (r: seq<string>)
    ensures |r| == |ws|
    decreases |ws|
  {
    if ws == [] then [] else [CharSubst(ws[0], c, rep)] + MapCharSubst(ws[1..], c, rep)
  }

  // ---------------------------------------------------------------------------
  // Counting a character
  // ---------------------------------------------------------------------------

  function Count(s: string, c: char): nat
    decreases |s|
  {
    if s == [] then 0 else (if s[0] == c then 1 else 0) + Count(s[1..], c)
  }

  /** Total number of `c` over a list of strings. */
  function CountAll(ws: seq<string>, c: char): nat
    decreases |ws|
  {
    if ws == [] then 0 else Count(ws[0], c) + CountAll(ws[1..], c)
  }

  lemma {:induction false} CountMissing(s: string, c: char)
    ensures c !in s ==> Count(s, c) == 0
    decreases |s|
  {
    if s != [] {
      CountMissing(s[1..], c);
    }
  }

  lemma {:induction false} CountAppend(a: string, b: string, c: char)
    ensures Count(a + b, c) == Count(a, c) + Count(b, c)
    decreases |a|
  {
    if a == [] {
      assert a + b == b;
    } else {
      assert (a + b)[1..] == a[1..] + b;
      CountAppend(a[1..], b, c);
    }
  }

  /** Joining with spaces neither adds nor loses a non-space character. */
  lemma {:induction false} CountJoin(ws: seq<string>, c: char)
    requires c != ' '
    ensures Count(JoinSpaced(ws), c) == CountAll(ws, c)
    decreases |ws|
  {
    if |ws| == 1 {
    } else if |ws| > 1 {
      CountAppend(ws[0] + " ", JoinSpaced(ws[1..]), c);
      CountAppend(ws[0], " ", c);
      CountJoin(ws[1..], c);
    }
  }

  /** Splitting neither adds nor loses a non-whitespace character. */
  lemma {:induction false} CountWords(s: string, c: char)
    requires !IsSpace(c)
    ensures CountAll(Words(s), c) == Count(s, c)
    decreases |s|
  {
    if s != [] {
      if IsSpace(s[0]) {
        CountWords(s[1..], c);
      } else {
        var n := Lead(s);
        assert s == s[..n] + s[n..];
        CountAppend(s[..n], s[n..], c);
        CountWords(s[n..], c);
      }
    }
  }

  /** Replacing `c` by `rep` trades each `c` for the `d`s of `rep`. */
  lemma {:induction false} CountCharSubst(s: string, c: char, rep: string, d: char)
    requires c == d ==> Count(rep, d) == 1
    ensures Count(CharSubst(s, c, rep), d) == Count(s, d) + (if c == d then 0 else Count(s, c) * Count(rep, d))
    decreases |s|
  {
    if s != [] {
      var head := if s[0] == c then rep else [s[0]];
      var tail := CharSubst(s[1..], c, rep);
      assert CharSubst(s, c, rep) == head + tail;
      CountAppend(head, tail, d);
      CountCharSubst(s[1..], c, rep, d);
      var k, n := Count(s[1..], c), Count(rep, d);
      if s[0] == c {
        assert Count(s, c) == k + 1;
        assert (k + 1) * n == k * n + n;
      } else {
        assert Count(s, c) == k;
        assert Count(head, d) == (if s[0] == d then 1 else 0) by {
          assert head[1..] == [];
        }
      }
    }
  }

  lemma {:induction false} CountMapCharSubst(ws: seq<string>, c: char, rep: string)
    requires Count(rep, c) == 1
    ensures CountAll(MapCharSubst(ws, c, rep), c) == CountAll(ws, c)
    decreases |ws|
  {
    if ws != [] {
      CountCharSubst(ws[0], c, rep, c);
      CountMapCharSubst(ws[1..], c, rep);
    }
  }
}
