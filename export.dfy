/**
 * One saved annotation and the spreadsheet offered for download: every
 * annotation becomes eight text cells on the row whose label equals its
 * key, and every other cell of the uploaded sheet is kept.
 */
module Export {
  import opened Frame

  /** The eight answers of the annotation form. */
  datatype Annotation = Annotation(
    questionType: string,
    questionTypeReason: string,
    persona: string,
    personaReason: string,
    factualAccuracy: string,
    grounding: string,
    responsiveness: string,
    comment: string)

  /** The column names, in the order the saved record lists them. */
  const Fields: seq<string> := [
    "question_type", "question_type_reason", "persona", "persona_reason",
    "answer_factual_accuracy", "answer_grounding", "answer_responsiveness", "comment"]

  /** The helper column that holds the row labels and is never written. */
  const IndexColumn: string := "index"

  const QuestionTypes: seq<string> := ["", "Issue", "Reason", "Conclusion", "Factual"]
  const Personas: seq<string> := ["", "Layperson", "Professional"]
  const Verdicts: seq<string> := ["", "Correct", "Incorrect", "Unclear"]

  /** The choices the form's select boxes offer; the reasons and the comment
      are free text. */
  predicate FromForm(a: Annotation) {
    a.questionType in QuestionTypes && a.persona in Personas
    && a.factualAccuracy in Verdicts && a.grounding in Verdicts && a.responsiveness in Verdicts
  }

  lemma FieldsDistinct()
    ensures forall i, j :: 0 <= i < j < |Fields| ==> Fields[i] != Fields[j]
  {
  }

  lemma IndexNotField()
    ensures IndexColumn !in Fields
  {
  }

  /** The answer stored under column `c`. */
  function FieldValue(a: Annotation, c: string): string
    requires c in Fields
  {
    if c == Fields[0] then a.questionType
    else if c == Fields[1] then a.questionTypeReason
    else if c == Fields[2] then a.persona
    else if c == Fields[3] then a.personaReason
    else if c == Fields[4] then a.factualAccuracy
    else if c == Fields[5] then a.grounding
    else if c == Fields[6] then a.responsiveness
    else a.comment
  }

  /** The dictionary saved for one example. */
  function Record(a: Annotation): (m: map<string, string>)
    ensures m.Keys == set c | c in Fields
  {
    map c | c in Fields :: FieldValue(a, c)
  }

  /** Reads an annotation back from the eight text cells of a row, if they are
      all there. */
  function ReadBack(row: Row): (r: Option<Annotation>)
    ensures r.Some? <==> forall c :: c in Fields ==> c in row && row[c].Value?
  {
    if forall c :: c in Fields ==> c in row && row[c].Value? then
      Some(Annotation(row[Fields[0]].text, row[Fields[1]].text, row[Fields[2]].text, row[Fields[3]].text,
                      row[Fields[4]].text, row[Fields[5]].text, row[Fields[6]].text, row[Fields[7]].text))
    else None
  }

  /** The cell column `c` gets at position `i` once annotations are merged:
      the annotation with key `i + shift`, else what was there, else NaN. */
  function NewCell(row: Row, i: int, ann: map<int, Annotation>, shift: int, c: string): Cell
    requires c in Fields
  {
    if i + shift in ann then Value(FieldValue(ann[i + shift], c))
    else if c in row then row[c]
    else Missing
  }

  /** Row `i` with the columns `cols` merged in. */
  function MergeRow(row: Row, i: int, ann: map<int, Annotation>, shift: int, cols: set<string>): Row
    requires forall c :: c in cols ==> c in Fields
  {
    map c | c in row.Keys + cols :: if c in cols then NewCell(row, i, ann, shift, c) else row[c]
  }

  /** The sheet with the columns `cols` merged in. */
  function Merged(df: Table, ann: map<int, Annotation>, shift: int, cols: set<string>): (t: Table)
    requires forall c :: c in cols ==> c in Fields
    ensures |t| == |df|
  {
    seq(|df|, i requires 0 <= i < |df| => MergeRow(df[i], i, ann, shift, cols))
  }

  /** The exported sheet, row by row: the row at position `i` carries the
      annotation with key `i + shift`. With no annotations nothing is added. */
  function Exported(df: Table, ann: map<int, Annotation>, shift: int): (t: Table)
    ensures |t| == |df|
    ensures ann == map[] ==> t == df
    ensures forall i :: 0 <= i < |df| ==>
      t[i].Keys == df[i].Keys + (if ann == map[] then {} else set c | c in Fields)
    ensures forall i :: 0 <= i < |df| ==> (IndexColumn in t[i] <==> IndexColumn in df[i])
    ensures forall i, c :: 0 <= i < |df| && c in df[i] && c !in Fields ==> t[i][c] == df[i][c]
    ensures forall i, c :: 0 <= i < |df| && i + shift in ann && c in Fields ==>
      t[i][c] == Value(Record(ann[i + shift])[c])
    ensures forall i, c :: 0 <= i < |df| && i + shift !in ann && c in t[i] ==>
      t[i][c] == if c in df[i] then df[i][c] else Missing
  {
    IndexNotField();
    if ann == map[] then
      MergedNothing(df, ann, shift);
      df
    else
      Merged(df, ann, shift, set c | c in Fields)
  }

  lemma MergedNothing(df: Table, ann: map<int, Annotation>, shift: int)
    ensures Merged(df, ann, shift, {}) == df
  {
    forall i | 0 <= i < |df|
      ensures MergeRow(df[i], i, ann, shift, {}) == df[i]
    {
    }
  }

  /** The `.loc` assignment of one column: the rows whose label `i` has an
      annotation under key `i + shift` get its answer; a new column is NaN
      elsewhere, an existing one keeps its cells. */
  function SetColumn(t: Table, c: string, ann: map<int, Annotation>, shift: int): (r: Table)
    requires c in Fields
    ensures |r| == |t|
    ensures forall i :: 0 <= i < |t| ==> r[i].Keys == t[i].Keys + {c}
    ensures forall i, d :: 0 <= i < |t| && d in t[i] && d != c ==> r[i][d] == t[i][d]
    ensures forall i :: 0 <= i < |t| && i + shift in ann ==> r[i][c] == Value(Record(ann[i + shift])[c])
    ensures forall i :: 0 <= i < |t| && i + shift !in ann ==>
      r[i][c] == if c in t[i] then t[i][c] else Missing
  {
    seq(|t|, i requires 0 <= i < |t| => t[i][c := NewCell(t[i], i, ann, shift, c)])
  }

  /** Setting one more column extends the merged set; setting it again
      changes nothing. */
  lemma SetColumnStep(df: Table, ann: map<int, Annotation>, shift: int, cols: set<string>, c: string)
    requires forall d :: d in cols ==> d in Fields
    requires c in Fields
    ensures SetColumn(Merged(df, ann, shift, cols), c, ann, shift) == Merged(df, ann, shift, cols + {c})
  {
    var t := Merged(df, ann, shift, cols);
    forall i | 0 <= i < |df|
      ensures t[i][c := NewCell(t[i], i, ann, shift, c)] == MergeRow(df[i], i, ann, shift, cols + {c})
    {
      assert NewCell(t[i], i, ann, shift, c) == NewCell(df[i], i, ann, shift, c);
    }
  }

  /** The columns among `cols` the loop writes. */
  function Written(cols: seq<string>): set<string> {
    set c | c in cols && c != IndexColumn
  }

  lemma WrittenStep(cols: seq<string>, col: string)
    ensures Written(cols + [col]) == Written(cols) + (if col != IndexColumn then {col} else {})
  {
  }

  /** The frame built from the annotations has the eight fields and `index`,
      or only `index` when there are none. */
  function ResultColumns(ann: map<int, Annotation>): (cols: seq<string>)
    ensures forall c :: c in Written(cols) ==> c in Fields
    ensures Written(cols) == if ann == map[] then {} else set c | c in Fields
  {
    IndexNotField();
    if ann == map[] then [IndexColumn] else Fields + [IndexColumn]
  }

  /** The download button's loop: one `.loc` assignment per column of the
      frame built from the annotations, skipping the `index` column. */
  method MergeAnnotations(df: Table, ann: map<int, Annotation>, shift: int) returns (final: Table)
    requires forall k :: k in ann ==> shift <= k < shift + |df|
    ensures final == Exported(df, ann, shift)
  {
    var columns := ResultColumns(ann);
    MergedNothing(df, ann, shift);
    assert Written(columns[..0]) == {};
    final := df;
    for j := 0 to |columns|
      invariant forall c :: c in Written(columns[..j]) ==> c in Fields
      invariant final == Merged(df, ann, shift, Written(columns[..j]))
    {
      var col := columns[j];
      assert columns[..j + 1] == columns[..j] + [col];
      WrittenStep(columns[..j], col);
      if col != IndexColumn {
        SetColumnStep(df, ann, shift, Written(columns[..j]), col);
        final := SetColumn(final, col, ann, shift);
      } else {
        assert Written(columns[..j + 1]) == Written(columns[..j]);
      }
    }
    assert columns[..|columns|] == columns;
  }

  /** The saved record names each answer under its own column. */
  lemma RecordFields(a: Annotation)
    ensures Record(a)[Fields[0]] == a.questionType
    ensures Record(a)[Fields[1]] == a.questionTypeReason
    ensures Record(a)[Fields[2]] == a.persona
    ensures Record(a)[Fields[3]] == a.personaReason
    ensures Record(a)[Fields[4]] == a.factualAccuracy
    ensures Record(a)[Fields[5]] == a.grounding
    ensures Record(a)[Fields[6]] == a.responsiveness
    ensures Record(a)[Fields[7]] == a.comment
  {
    FieldsDistinct();
  }

  /** A row holding the saved record reads back as the annotation. */
  lemma ReadBackRecord(row: Row, a: Annotation)
    requires forall c :: c in Fields ==> c in row && row[c] == Value(Record(a)[c])
    ensures ReadBack(row) == Some(a)
  {
    RecordFields(a);
    assert Fields[0] in Fields && Fields[1] in Fields && Fields[2] in Fields && Fields[3] in Fields;
    assert Fields[4] in Fields && Fields[5] in Fields && Fields[6] in Fields && Fields[7] in Fields;
  }

  /** An annotated row of the export reads back as its annotation. */
  lemma ExportReadBack(df: Table, ann: map<int, Annotation>, shift: int, i: int)
    requires 0 <= i < |df| && i + shift in ann
    ensures ReadBack(Exported(df, ann, shift)[i]) == Some(ann[i + shift])
  {
    ReadBackRecord(Exported(df, ann, shift)[i], ann[i + shift]);
  }

  /** A row without annotation and without answer columns of its own gets
      NaN in every answer column. */
  lemma ExportBlankRow(df: Table, ann: map<int, Annotation>, shift: int, i: int)
    requires 0 <= i < |df| && i + shift !in ann && ann != map[]
    requires forall c :: c in Fields ==> c !in df[i]
    ensures forall c :: c in Fields ==> Exported(df, ann, shift)[i][c] == Missing
    ensures ReadBack(Exported(df, ann, shift)[i]) == None
  {
    assert Fields[0] in Fields;
  }
}
