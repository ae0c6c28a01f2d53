/**
 * `highlight_tags`: the summary may carry inline markup `<Issue>…</Issue>`,
 * `<Reason>…</Reason>` and `<Conclusion>…</Conclusion>`. For each of the three
 * tags, in that order, every opening tag is replaced by a coloured
 * `<span style="…">` and every closing tag by `</span>`. Anything else,
 * other tags included, is left as it is.
 */
module Highlight {
  import opened Text

  datatype Tag = Tag(name: string, style: string)

  /** The three styles differ only in their background colour. */
  function Style(colour: string): string {
    "background-color: " + colour + "; font-weight: bold;"
  }

  /** The tag table, in the order its entries are applied. */
  const TagTable: seq<Tag> := [
    Tag("Issue", Style("#ffcccc")),
    Tag("Reason", Style("#ccffcc")),
    Tag("Conclusion", Style("#ccccff"))
  ]

  function OpenTag(name: string): string {
    "<" + name + ">"
  }

  function CloseTag(name: string): string {
    "</" + name + ">"
  }

  function SpanOpen(style: string): string {
    "<span style=\"" + style + "\">"
  }

  const SpanClose: string := "</span>"

  /** One iteration of the loop: both replacements for one tag. */
  function ApplyTag(text: string, tag: Tag): string {
    var spanned := ReplaceAll(text, OpenTag(tag.name), SpanOpen(tag.style));
    ReplaceAll(spanned, CloseTag(tag.name), SpanClose)
  }

  /** The loop run over `tags`, first entry first. */
  function ApplyTags(text: string, tags: seq<Tag>): string
    decreases |tags|
  {
    if tags == [] then text
    else ApplyTag(ApplyTags(text, tags[..|tags| - 1]), tags[|tags| - 1])
  }

  /** What `highlight_tags` returns. A text with none of the six tag strings
      comes back unchanged. */
  function Highlighted(text: string): (r: string)
    ensures FreeOf(text, TagTable) ==> r == text
  {
    ApplyTagsIdentity(text, TagTable);
    ApplyTags(text, TagTable)
  }

  /** `highlight_tags(text)`: reassigns the text once per replacement. */
  method HighlightTags(text: string) returns (html: string)
    ensures html == Highlighted(text)
  {
    html := text;
    for i := 0 to |TagTable|
      invariant html == ApplyTags(text, TagTable[..i])
    {
      var tag := TagTable[i];
      assert TagTable[..i + 1][..i] == TagTable[..i];
      html := ReplaceAll(html, OpenTag(tag.name), SpanOpen(tag.style));
      html := ReplaceAll(html, CloseTag(tag.name), SpanClose);
    }
    assert TagTable[..|TagTable|] == TagTable;
  }

  // ---------------------------------------------------------------------------
  // Text with none of the six tag strings
  // ---------------------------------------------------------------------------

  /** None of the opening or closing strings of `tags` occurs in `text`. */
  predicate FreeOf(text: string, tags: seq<Tag>) {
    forall t :: t in tags ==> Absent(text, OpenTag(t.name)) && Absent(text, CloseTag(t.name))
  }

  lemma {:induction false} ApplyTagsIdentity(text: string, tags: seq<Tag>)
    ensures FreeOf(text, tags) ==> ApplyTags(text, tags) == text
    decreases |tags|
  {
    if tags != [] && FreeOf(text, tags) {
      var last := tags[|tags| - 1];
      assert last in tags;
      ApplyTagsIdentity(text, tags[..|tags| - 1]);
      ReplaceAllAbsent(text, OpenTag(last.name), SpanOpen(last.style));
      ReplaceAllAbsent(text, CloseTag(last.name), SpanClose);
    }
  }


  // ---------------------------------------------------------------------------
  // Markup seen as a sequence of pieces
  // ---------------------------------------------------------------------------

  /** A piece of markup: text without `<`, an opening or a closing tag, or one
      of the two halves of a highlighting span. */
  datatype Piece =
    | Plain(text: string)
    | Open(name: string)
    | Close(name: string)
    | SpanStart(style: string)
    | SpanEnd

  function Render(p: Piece): string {
    match p
    case Plain(t) => t
    case Open(n) => OpenTag(n)
    case Close(n) => CloseTag(n)
    case SpanStart(st) => SpanOpen(st)
    case SpanEnd => SpanClose
  }

  function RenderAll(ps: seq<Piece>): string
    decreases |ps|
  {
    if ps == [] then [] else Render(ps[0]) + RenderAll(ps[1..])
  }

  /** A tag name that cannot run into the surrounding markup. */
  predicate TagLike(name: string) {
    '<' !in name && '>' !in name && (name == [] || name[0] != '/')
  }

  predicate WellFormed(p: Piece) {
    match p
    case Plain(t) => '<' !in t
    case Open(n) => TagLike(n)
    case Close(n) => TagLike(n)
    case SpanStart(st) => '<' !in st
    case SpanEnd => true
  }

  predicate AllWellFormed(ps: seq<Piece>) {
    forall i :: 0 <= i < |ps| ==> WellFormed(ps[i])
  }

  /** A table entry whose tags cannot be confused with other markup: its
      name is a non-empty tag name that does not start with `s` (so `<span`
      and `</span>` never look like it) and its style contains no `<`. */
  predicate Recognisable(tag: Tag) {
    tag.name != [] && TagLike(tag.name) && tag.name[0] != 's' && '<' !in tag.style
  }

  /** The opening or closing tag of a recognisable name. */
  predicate IsPattern(pat: Piece) {
    (pat.Open? || pat.Close?) && pat.name != [] && TagLike(pat.name) && pat.name[0] != 's'
  }

  lemma TagTableRecognisable()
    ensures forall t :: t in TagTable ==> Recognisable(t)
  {
    IssueRecognisable();
    ReasonRecognisable();
    ConclusionRecognisable();
    forall t | t in TagTable
      ensures Recognisable(t)
    {
      assert t == TagTable[0] || t == TagTable[1] || t == TagTable[2];
    }
  }

  lemma IssueRecognisable()
    ensures Recognisable(TagTable[0])
  {
    StyleLacksBracket("#ffcccc");
  }

  lemma ReasonRecognisable()
    ensures Recognisable(TagTable[1])
  {
    StyleLacksBracket("#ccffcc");
  }

  lemma ConclusionRecognisable()
    ensures Recognisable(TagTable[2])
  {
    StyleLacksBracket("#ccccff");
  }

  lemma StyleLacksBracket(colour: string)
    requires '<' !in colour
    ensures '<' !in Style(colour)
  {
    assert '<' !in "background-color: " && '<' !in "; font-weight: bold;";
  }

  /** The issue style spelled out. */
  lemma IssueStyleText()
    ensures TagTable[0].style == "background-color: #ffcccc; font-weight: bold;"
  {
  }

  /** Two different names followed by `>` differ at a position inside both. */
  lemma NameMismatch(m: string, n: string) returns (k: nat)
    requires m != n && '>' !in m && '>' !in n
    ensures k < |m| + 1 && k < |n| + 1 && (m + ">")[k] != (n + ">")[k]
  {
    if |m| == |n| {
      assert exists j :: 0 <= j < |m| && m[j] != n[j];
      k :| 0 <= k < |m| && m[k] != n[k];
    } else if |m| < |n| {
      if m == n[..|m|] {
        k := |m|;
        assert n[|m|] in n;
      } else {
        assert exists j :: 0 <= j < |m| && m[j] != n[..|m|][j];
        k :| 0 <= k < |m| && m[k] != n[..|m|][k];
      }
    } else {
      if n == m[..|n|] {
        k := |n|;
        assert m[|n|] in m;
      } else {
        assert exists j :: 0 <= j < |n| && n[j] != m[..|n|][j];
        k :| 0 <= k < |n| && n[k] != m[..|n|][k];
      }
    }
  }

  /** A piece other than the one being replaced is copied unchanged,
      whatever follows it. */
  lemma PieceInert(p: Piece, pat: Piece, b: string, rep: string)
    requires WellFormed(p) && IsPattern(pat) && p != pat
    ensures Render(pat) != []
    ensures ReplaceAll(Render(p) + b, Render(pat), rep) == Render(p) + ReplaceAll(b, Render(pat), rep)
  {
    assert Render(pat)[0] == '<';
    match p {
    case Plain(t) => ReplaceAllSkipPlain(t, b, Render(pat), rep);
    case Open(m) => OpenInert(m, pat, b, rep);
    case Close(m) => CloseInert(m, pat, b, rep);
    case SpanStart(st) => SpanInert(p, pat, b, rep);
    case SpanEnd => SpanInert(p, pat, b, rep);
    }
  }

  lemma OpenInert(m: string, pat: Piece, b: string, rep: string)
    requires TagLike(m) && IsPattern(pat) && Open(m) != pat
    ensures ReplaceAll(OpenTag(m) + b, Render(pat), rep) == OpenTag(m) + ReplaceAll(b, Render(pat), rep)
  {
    var a, s := OpenTag(m), Render(pat);
    assert s[0] == '<';
    assert a[1..] == m + ">";
    var k: nat;
    if pat.Open? {
      var j := NameMismatch(m, pat.name);
      assert a[j + 1] == (m + ">")[j];
      assert s[j + 1] == (pat.name + ">")[j];
      k := j + 1;
    } else {
      assert s[1] == '/';
      k := 1;
    }
    ReplaceAllSkipPiece(a, b, s, rep, k);
  }

  lemma CloseInert(m: string, pat: Piece, b: string, rep: string)
    requires TagLike(m) && IsPattern(pat) && Close(m) != pat
    ensures ReplaceAll(CloseTag(m) + b, Render(pat), rep) == CloseTag(m) + ReplaceAll(b, Render(pat), rep)
  {
    var a, s := CloseTag(m), Render(pat);
    assert s[0] == '<';
    assert a[1..] == "/" + m + ">";
    var k: nat;
    if pat.Close? {
      var j := NameMismatch(m, pat.name);
      assert a[j + 2] == (m + ">")[j];
      assert s[j + 2] == (pat.name + ">")[j];
      k := j + 2;
    } else {
      assert s[1] == pat.name[0];
      k := 1;
    }
    ReplaceAllSkipPiece(a, b, s, rep, k);
  }

  lemma SpanInert(p: Piece, pat: Piece, b: string, rep: string)
    requires (p.SpanStart? && '<' !in p.style) || p.SpanEnd?
    requires IsPattern(pat)
    ensures ReplaceAll(Render(p) + b, Render(pat), rep) == Render(p) + ReplaceAll(b, Render(pat), rep)
  {
    var a, s := Render(p), Render(pat);
    assert s[0] == '<';
    var k: nat;
    if p.SpanStart? {
      assert a[1..] == "span style=\"" + p.style + "\">";
      k := 1;
    } else {
      assert a[1..] == "/span>";
      k := if pat.Open? then 1 else 2;
    }
    ReplaceAllSkipPiece(a, b, s, rep, k);
  }

  /** Replacing every occurrence of one piece with another. */
  function Subst(ps: seq<Piece>, pat: Piece, q: Piece): (r: seq<Piece>)
    ensures |r| == |ps|
  {
    seq(|ps|, i requires 0 <= i < |ps| => if ps[i] == pat then q else ps[i])
  }

  /** On well-formed markup, `str.replace` of a tag is replacement of that
      piece. */
  lemma {:induction false} ReplaceAllPieces(ps: seq<Piece>, pat: Piece, q: Piece)
    requires AllWellFormed(ps) && IsPattern(pat)
    ensures Render(pat) != []
    ensures ReplaceAll(RenderAll(ps), Render(pat), Render(q)) == RenderAll(Subst(ps, pat, q))
    decreases |ps|
  {
    assert Render(pat)[0] == '<';
    if ps != [] {
      var rest := RenderAll(ps[1..]);
      var sub := Subst(ps, pat, q);
      assert RenderAll(ps) == Render(ps[0]) + rest;
      ReplaceAllPieces(ps[1..], pat, q);
      assert sub[1..] == Subst(ps[1..], pat, q);
      assert RenderAll(sub) == Render(sub[0]) + RenderAll(sub[1..]);
      if ps[0] == pat {
        ReplaceAllFront(Render(pat), rest, Render(q));
        assert sub[0] == q;
      } else {
        PieceInert(ps[0], pat, rest, Render(q));
        assert sub[0] == ps[0];
      }
      assert ReplaceAll(RenderAll(ps), Render(pat), Render(q)) == Render(sub[0]) + ReplaceAll(rest, Render(pat), Render(q));
    }
  }

  /** What one table entry does to one piece. */
  function StylePiece(p: Piece, tag: Tag): Piece {
    if p == Open(tag.name) then SpanStart(tag.style)
    else if p == Close(tag.name) then SpanEnd
    else p
  }

  /** What the entries of `tags`, in order, do to one piece. */
  function StyleWith(p: Piece, tags: seq<Tag>): Piece
    decreases |tags|
  {
    if tags == [] then p
    else StylePiece(StyleWith(p, tags[..|tags| - 1]), tags[|tags| - 1])
  }

  function StyleAll(ps: seq<Piece>, tags: seq<Tag>): (r: seq<Piece>)
    ensures |r| == |ps|
  {
    seq(|ps|, i requires 0 <= i < |ps| => StyleWith(ps[i], tags))
  }

  lemma ApplyTagPieces(ps: seq<Piece>, tag: Tag)
    requires AllWellFormed(ps) && Recognisable(tag)
    ensures ApplyTag(RenderAll(ps), tag) == RenderAll(seq(|ps|, i requires 0 <= i < |ps| => StylePiece(ps[i], tag)))
    ensures AllWellFormed(seq(|ps|, i requires 0 <= i < |ps| => StylePiece(ps[i], tag)))
  {
    ReplaceAllPieces(ps, Open(tag.name), SpanStart(tag.style));
    var spanned := Subst(ps, Open(tag.name), SpanStart(tag.style));
    assert AllWellFormed(spanned);
    ReplaceAllPieces(spanned, Close(tag.name), SpanEnd);
    assert Subst(spanned, Close(tag.name), SpanEnd) == seq(|ps|, i requires 0 <= i < |ps| => StylePiece(ps[i], tag));
  }

  lemma {:induction false} ApplyTagsPieces(ps: seq<Piece>, tags: seq<Tag>)
    requires AllWellFormed(ps) && forall t :: t in tags ==> Recognisable(t)
    ensures ApplyTags(RenderAll(ps), tags) == RenderAll(StyleAll(ps, tags))
    ensures AllWellFormed(StyleAll(ps, tags))
    decreases |tags|
  {
    if tags == [] {
      assert StyleAll(ps, tags) == ps;
    } else {
      var init, last := tags[..|tags| - 1], tags[|tags| - 1];
      assert last in tags;
      assert forall t :: t in init ==> t in tags;
      ApplyTagsPieces(ps, init);
      var before := StyleAll(ps, init);
      ApplyTagPieces(before, last);
      assert seq(|before|, i requires 0 <= i < |before| => StylePiece(before[i], last)) == StyleAll(ps, tags);
    }
  }

  /** What the page's table does to each piece: a recognised opening tag
      becomes its coloured span, a recognised closing tag becomes `</span>`,
      and every other piece, unknown tags included, is kept. */
  lemma StyleByTable(p: Piece)
    ensures forall t :: t in TagTable && p == Open(t.name) ==> StyleWith(p, TagTable) == SpanStart(t.style)
    ensures forall t :: t in TagTable && p == Close(t.name) ==> StyleWith(p, TagTable) == SpanEnd
    ensures (forall t :: t in TagTable ==> p != Open(t.name) && p != Close(t.name)) ==> StyleWith(p, TagTable) == p
  {
    assert StyleWith(p, TagTable[..1]) == StylePiece(p, TagTable[0]) by {
      assert TagTable[..1][..0] == [];
    }
    assert StyleWith(p, TagTable[..2]) == StylePiece(StyleWith(p, TagTable[..1]), TagTable[1]) by {
      assert TagTable[..2][..1] == TagTable[..1];
    }
    assert StyleWith(p, TagTable) == StylePiece(StyleWith(p, TagTable[..2]), TagTable[2]);
  }

  /** Highlighting well-formed markup styles it piece by piece. */
  lemma HighlightMarkup(ps: seq<Piece>)
    requires AllWellFormed(ps)
    ensures Highlighted(RenderAll(ps)) == RenderAll(StyleAll(ps, TagTable))
  {
    TagTableRecognisable();
    ApplyTagsPieces(ps, TagTable);
  }

  lemma RenderAllCons(p: Piece, ps: seq<Piece>)
    ensures RenderAll([p] + ps) == Render(p) + RenderAll(ps)
  {
    assert ([p] + ps)[1..] == ps;
  }

  lemma RenderThree(p: Piece, q: Piece, r: Piece)
    ensures RenderAll([p, q, r]) == Render(p) + Render(q) + Render(r)
  {
    var a, b, c := Render(p), Render(q), Render(r);
    assert RenderAll([r]) == c by {
      RenderAllCons(r, []);
      assert [r] + [] == [r];
    }
    assert RenderAll([q, r]) == b + c by {
      RenderAllCons(q, [r]);
      assert [q] + [r] == [q, r];
    }
    assert RenderAll([p, q, r]) == a + (b + c) by {
      RenderAllCons(p, [q, r]);
      assert [p] + [q, r] == [p, q, r];
    }
  }

  /** A recognised tag pair around text without markup becomes the tag's
      span around the same text. */
  lemma HighlightWrapped(t: Tag, x: string)
    requires t in TagTable && '<' !in x
    ensures Highlighted(OpenTag(t.name) + x + CloseTag(t.name)) == SpanOpen(t.style) + x + SpanClose
  {
    var ps := [Open(t.name), Plain(x), Close(t.name)];
    TagTableRecognisable();
    assert AllWellFormed(ps);
    RenderThree(ps[0], ps[1], ps[2]);
    HighlightMarkup(ps);
    StyleByTable(ps[0]);
    StyleByTable(ps[1]);
    StyleByTable(ps[2]);
    var styled := [SpanStart(t.style), Plain(x), SpanEnd];
    assert StyleAll(ps, TagTable) == styled;
    RenderThree(styled[0], styled[1], styled[2]);
  }

  /** The worked example: `<Issue>x</Issue>` becomes the issue-coloured span
      around `x`. */
  lemma HighlightIssueExample()
    ensures Highlighted("<Issue>x</Issue>")
         == SpanOpen("background-color: #ffcccc; font-weight: bold;") + "x" + "</span>"
  {
    assert "<Issue>x</Issue>" == OpenTag("Issue") + "x" + CloseTag("Issue");
    assert TagTable[0].name == "Issue";
    HighlightWrapped(TagTable[0], "x");
    IssueStyleText();
  }

  /** A pair of tags the table does not know is left as it is. */
  lemma HighlightUnknownWrapped(name: string, x: string)
    requires TagLike(name) && '<' !in x
    requires forall t :: t in TagTable ==> t.name != name
    ensures Highlighted(OpenTag(name) + x + CloseTag(name)) == OpenTag(name) + x + CloseTag(name)
  {
    var ps := [Open(name), Plain(x), Close(name)];
    assert AllWellFormed(ps);
    RenderThree(ps[0], ps[1], ps[2]);
    HighlightMarkup(ps);
    StyleByTable(ps[0]);
    StyleByTable(ps[1]);
    StyleByTable(ps[2]);
    assert StyleAll(ps, TagTable) == ps;
  }

  /** An unknown tag such as `<Factual>` is left as it is. */
  lemma HighlightUnknownTagExample()
    ensures Highlighted("<Factual>x</Factual>") == "<Factual>x</Factual>"
  {
    assert "<Factual>x</Factual>" == OpenTag("Factual") + "x" + CloseTag("Factual");
    HighlightUnknownWrapped("Factual", "x");
  }
}
