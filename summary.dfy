/**
 * `clean_summary_text`: the summary cell is prepared for Markdown display.
 * A missing cell gives the empty string; otherwise line breaks become
 * spaces, every `$` is escaped as `\$` (so Markdown does not start maths),
 * and whitespace runs collapse to single spaces with both ends trimmed.
 */
module Summary {
  import opened Text
  import opened Frame

  const Dollar: char := '$'

  /** `\$`, the replacement for each dollar sign. */
  const EscapedDollar: string := "\\$"

  function CleanSummary(cell: Cell): (r: string)
    ensures cell == Missing ==> r == ""
  {
    match cell
    case Missing => ""
    case Value(text) =>
      var unbroken := ReplaceAll(ReplaceAll(text, "\n", " "), "\r", " ");
      var escaped := ReplaceAll(unbroken, "$", EscapedDollar);
      JoinSpaced(Words(escaped))
  }

  /** Every `$` of `s` sits right after a backslash. */
  predicate DollarsEscaped(s: string) {
    forall i :: 0 <= i < |s| && s[i] == Dollar ==> 0 < i && s[i - 1] == '\\'
  }

  /** The cleaned summary is the input's tokens, each with its dollars
      escaped, joined by single spaces. */
  lemma CleanSummaryTokens(text: string)
    ensures CleanSummary(Value(text)) == JoinSpaced(MapCharSubst(Words(text), Dollar, EscapedDollar))
  {
    var t1 := ReplaceAll(text, "\n", " ");
    var t2 := ReplaceAll(t1, "\r", " ");
    ReplaceAllChar(text, '\n', " ");
    ReplaceAllChar(t1, '\r', " ");
    ReplaceAllChar(t2, Dollar, EscapedDollar);
    SpaceSubstSameShape(text, '\n');
    SpaceSubstSameShape(t1, '\r');
    WordsSameShape(text, t1);
    WordsSameShape(t1, t2);
    WordsCharSubst(t2, Dollar, EscapedDollar);
  }

  /** Splitting the cleaned summary again gives back exactly the input's
      tokens, in order, with dollars escaped. */
  lemma CleanSummaryKeepsTokens(text: string)
    ensures Words(CleanSummary(Value(text))) == MapCharSubst(Words(text), Dollar, EscapedDollar)
  {
    CleanSummaryTokens(text);
    EscapedWords(Words(text));
    WordsOfJoin(MapCharSubst(Words(text), Dollar, EscapedDollar));
  }

  lemma {:induction false} EscapedWords(ws: seq<string>)
    requires forall k :: 0 <= k < |ws| ==> IsWord(ws[k])
    ensures forall k :: 0 <= k < |ws| ==> IsWord(MapCharSubst(ws, Dollar, EscapedDollar)[k])
    ensures forall k :: 0 <= k < |ws| ==> DollarsEscaped(MapCharSubst(ws, Dollar, EscapedDollar)[k])
    decreases |ws|
  {
    if ws != [] {
      EscapedWords(ws[1..]);
      WordCharSubst(ws[0], Dollar, EscapedDollar);
      EscapeDollarsEscaped(ws[0]);
    }
  }

  /** The cleaned summary contains no line break, has no whitespace at either
      end, never has two whitespace characters in a row, and uses only the
      plain space as whitespace. */
  lemma CleanSummaryNormalized(cell: Cell)
    ensures Normalized(CleanSummary(cell))
    ensures '\n' !in CleanSummary(cell) && '\r' !in CleanSummary(cell)
  {
    if cell.Value? {
      CleanSummaryTokens(cell.text);
      EscapedWords(Words(cell.text));
      JoinNormalized(MapCharSubst(Words(cell.text), Dollar, EscapedDollar));
    }
    var r := CleanSummary(cell);
    assert forall i :: 0 <= i < |r| ==> r[i] != '\n' && r[i] != '\r' by {
      forall i | 0 <= i < |r|
        ensures r[i] != '\n' && r[i] != '\r'
      {
        assert IsSpace(r[i]) ==> r[i] == ' ';
      }
    }
  }

  /** Escaping keeps the number of dollar signs and puts a backslash before
      each of them. */
  lemma CleanSummaryDollars(text: string)
    ensures Count(CleanSummary(Value(text)), Dollar) == Count(text, Dollar)
    ensures DollarsEscaped(CleanSummary(Value(text)))
  {
    var ws := Words(text);
    var escaped := MapCharSubst(ws, Dollar, EscapedDollar);
    CleanSummaryTokens(text);
    CountJoin(escaped, Dollar);
    CountMapCharSubst(ws, Dollar, EscapedDollar);
    CountWords(text, Dollar);
    EscapedWords(ws);
    JoinEscaped(escaped);
  }

  /** Substituting `\$` for every `$` (what the escaping `replace` does, by
      `ReplaceAllChar`) leaves each `$` right after a backslash. */
  lemma {:induction false} EscapeDollarsEscaped(s: string)
    ensures DollarsEscaped(CharSubst(s, Dollar, EscapedDollar))
    decreases |s|
  {
    if s != [] {
      EscapeDollarsEscaped(s[1..]);
      var head := if s[0] == Dollar then EscapedDollar else [s[0]];
      AppendEscaped(head, CharSubst(s[1..], Dollar, EscapedDollar));
    }
  }

  lemma AppendEscaped(a: string, b: string)
    requires DollarsEscaped(a) && DollarsEscaped(b)
    ensures DollarsEscaped(a + b)
  {
    var s := a + b;
    forall i | 0 <= i < |s| && s[i] == Dollar
      ensures 0 < i && s[i - 1] == '\\'
    {
      if i >= |a| {
        assert s[i] == b[i - |a|];
        if i - |a| > 0 {
          assert s[i - 1] == b[i - |a| - 1];
        }
      } else {
        assert s[i] == a[i];
      }
    }
  }

  lemma {:induction false} JoinEscaped(ws: seq<string>)
    requires forall k :: 0 <= k < |ws| ==> DollarsEscaped(ws[k])
    ensures DollarsEscaped(JoinSpaced(ws))
    decreases |ws|
  {
    if |ws| > 1 {
      JoinEscaped(ws[1..]);
      AppendEscaped(ws[0], " ");
      AppendEscaped(ws[0] + " ", JoinSpaced(ws[1..]));
    }
  }

  /** The worked example: `"a\n\nb   c$5"` becomes `"a b c\$5"`. */
  lemma CleanSummaryExample()
    ensures CleanSummary(Value("a\n\nb   c$5")) == "a b c\\$5"
  {
    ExampleWords();
    CleanSummaryTokens("a\n\nb   c$5");
    ExampleJoin();
  }

  lemma ExampleJoin()
    ensures JoinSpaced(MapCharSubst(["a", "b", "c$5"], Dollar, EscapedDollar)) == "a b c\\$5"
  {
    ExampleEscape();
    assert CharSubst("a", Dollar, EscapedDollar) == "a";
    assert CharSubst("b", Dollar, EscapedDollar) == "b";
    var escaped := MapCharSubst(["a", "b", "c$5"], Dollar, EscapedDollar);
    assert escaped == ["a", "b", "c\\$5"];
    assert escaped[1..][1..] == ["c\\$5"];
    assert JoinSpaced(escaped[1..]) == "b" + " " + "c\\$5";
  }

  lemma ExampleWords()
    ensures Words("a\n\nb   c$5") == ["a", "b", "c$5"]
  {
    assert IsWord("a") && IsWord("b") && IsWord("c$5");
    assert forall i :: 0 <= i < |"\n\n"| ==> IsSpace("\n\n"[i]);
    assert forall i :: 0 <= i < |"   "| ==> IsSpace("   "[i]);
    assert "a\n\nb   c$5" == "a" + "\n\n" + ("b" + "   " + "c$5");
    ThreeWords("a", "\n\n", "b", "   ", "c$5");
  }

  /** Three words separated by two whitespace runs split into those words. */
  lemma ThreeWords(w1: string, g1: string, w2: string, g2: string, w3: string)
    requires IsWord(w1) && IsWord(w2) && IsWord(w3) && g1 != [] && g2 != []
    requires forall i :: 0 <= i < |g1| ==> IsSpace(g1[i])
    requires forall i :: 0 <= i < |g2| ==> IsSpace(g2[i])
    ensures Words(w1 + g1 + (w2 + g2 + w3)) == [w1, w2, w3]
  {
    WordsOfWordAndGap(w1, g1, w2 + g2 + w3);
    WordsOfWordAndGap(w2, g2, w3);
    assert w3 + [] == w3;
    WordsOfWord(w3, []);
  }

  lemma ExampleEscape()
    ensures CharSubst("c$5", Dollar, EscapedDollar) == "c\\$5"
  {
    assert "c$5" == ['c'] + ("$" + "5");
    CharSubstAppend(['c'], "$" + "5", Dollar, EscapedDollar);
    CharSubstAppend("$", "5", Dollar, EscapedDollar);
  }
}
