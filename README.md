# Legal QA annotation tool: a Dafny model

The annotation tool is a single Streamlit page, `GUI.py`. An annotator picks
their id and uploads a spreadsheet of question/answer pairs. The page then
shows one example at a time, numbered from 1. Each example's summary is
cleaned up and its `<Issue>`, `<Reason>` and `<Conclusion>` tags are shown
as coloured spans. The annotator fills in an eight-answer form and saves it
under the example's number. A download button merges every saved annotation
into a copy of the sheet. The file is offered under a name built from the
annotator id and the upload's name.

This project models the logic behind that page:

- `text.dfy` (module `Text`): Python's string operations the page relies on.
  - `str.replace`, leftmost and non-overlapping.
  - `str.split()` with no argument, using Python's whitespace set.
  - `" ".join`.
- `summary.dfy` (module `Summary`): `clean_summary_text`.
- `highlight.dfy` (module `Highlight`): `highlight_tags`. The loop is a
  method proved against a fold over the tag table. The markup is also seen
  as a sequence of pieces to say what the replacements do to well-formed
  text.
- `filename.dfy` (module `FileName`): the download's file name.
  - `os.path.splitext` with `/` as separator.
  - Removal of every `_TODO`.
  - `{user}_{base}.xlsx`.
- `frame.dfy` (module `Frame`): the uploaded sheet as a sequence of rows.
  Each row maps column names to cells; a cell is missing (NaN) or text.
- `export.dfy` (module `Export`): the saved annotation record and the
  download's merge loop.
  - One `.loc` assignment per column of the frame built from the
    annotations.
  - The loop is proved against a row-by-row definition of the exported
    sheet.
- `session.dfy` (module `Session`): the per-upload state as a class.
  - The annotations map and saving into it.
  - The summary display.
  - The file name.
  - The download, both as written and with the row labels corrected (see
    Findings).

## Model

| member | source | states |
|---|---|---|
| Text.ReplaceAll | GUI.py:17-18 | `str.replace`, leftmost and non-overlapping; replacing a pattern by itself changes nothing |
| Text.ReplaceAllAbsent | GUI.py:17-18 | `str.replace` leaves a text without the pattern unchanged |
| Text.ReplaceAllAfterAbsent | GUI.py:94 | when the pattern's first character does not recur in it, an occurrence after pattern-free text is replaced and the rest continues after it |
| Text.ReplaceAllChar | GUI.py:24-25 | replacing a one-character pattern equals substituting that character everywhere |
| Text.CharSubstChars | GUI.py:24-25 | every character of a substituted text comes from the replacement or is an original character other than the replaced one |
| Text.CountCharSubst | GUI.py:25 | substituting `c` by a text in which `d` occurs once keeps the number of `d`; other counts grow by the number of `c` times the count in the replacement |
| Text.ReplaceAllJoined | GUI.py:94 | every occurrence is replaced: pattern-free pieces joined by a pattern whose first character does not recur in it come out joined by the replacement |
| Text.Words | GUI.py:26 | `str.split()` returns non-empty tokens without whitespace |
| Text.JoinSpaced | GUI.py:26 | `" ".join` puts exactly one separator between each two neighbouring space-free tokens |
| Text.WordsOfJoin | GUI.py:26 | splitting `" ".join(ws)` gives `ws` back when every element is a non-empty word |
| Text.JoinNormalized | GUI.py:26 | a join of words has only single spaces as whitespace, never at either end |
| Text.WordsSameShape | GUI.py:24-26 | texts with the same whitespace positions and equal non-space characters split into the same tokens |
| Text.WordsCharSubst | GUI.py:25-26 | substituting a non-space character by a word commutes with splitting |
| Text.CountWords | GUI.py:26 | splitting keeps every occurrence of a non-space character |
| Summary.CleanSummary | GUI.py:21-23 | a missing summary cell becomes the empty string |
| Summary.CleanSummaryTokens | GUI.py:24-26 | the cleaned summary is the input's tokens, each with `$` escaped, joined by single spaces |
| Summary.CleanSummaryKeepsTokens | GUI.py:24-26 | splitting the cleaned summary again gives exactly the input's tokens, in order, with dollars escaped |
| Summary.CleanSummaryNormalized | GUI.py:21-26 | the result has no line breaks, no leading or trailing whitespace and no two whitespace characters in a row |
| Summary.CleanSummaryDollars | GUI.py:25 | the result has as many `$` as the input and each follows a backslash |
| Summary.EscapeDollarsEscaped | GUI.py:25 | after substituting `\$` for each `$`, every `$` is preceded by `\` |
| Summary.CleanSummaryExample | GUI.py:21-26 | `"a\n\nb   c$5"` becomes `"a b c\$5"` |
| Highlight.Highlighted | GUI.py:10-19 | what `highlight_tags` returns; without any of the six tag strings it is the identity |
| Highlight.HighlightTags | GUI.py:10-19 | the replacement loop computes the fold of both replacements over the tag table in order |
| Highlight.ApplyTagsIdentity | GUI.py:16-18 | a text containing none of the tags' opening or closing strings is unchanged by the replacements |
| Highlight.TagTableRecognisable | GUI.py:11-15 | every table entry has a non-empty tag name and a style that cannot be mistaken for other markup |
| Highlight.PieceInert | GUI.py:17-18 | a piece of markup other than the searched tag is copied unchanged by `str.replace` |
| Highlight.ReplaceAllPieces | GUI.py:17-18 | replacing a tag's string in rendered markup equals replacing that piece in the piece sequence |
| Highlight.ApplyTagsPieces | GUI.py:16-18 | the whole loop on rendered markup equals styling each piece on its own |
| Highlight.StyleByTable | GUI.py:11-18 | a known opening tag becomes its span opener, a known closing tag becomes `</span>`, anything else is unchanged |
| Highlight.HighlightMarkup | GUI.py:10-19 | highlighting well-formed markup is rendering the piecewise-styled markup |
| Highlight.HighlightWrapped | GUI.py:10-19 | a known tag pair around plain text becomes that tag's span around the same text |
| Highlight.HighlightIssueExample | GUI.py:10-19 | `<Issue>x</Issue>` becomes the issue-coloured span around `x` |
| Highlight.HighlightUnknownWrapped | GUI.py:16-19 | a tag pair not in the table is left as it is |
| Highlight.HighlightUnknownTagExample | GUI.py:16-19 | `<Factual>x</Factual>` passes through unchanged |
| FileName.RFind | GUI.py:93 | the last index of the character, or -1, with no later occurrence |
| FileName.StripExtension | GUI.py:93 | the stem is a prefix of the path; what is removed is a dot followed by no dot and no separator; a name without a dot is kept whole; a shortened stem's last component is not all dots, so leading dots never start an extension |
| FileName.StripAppendedExtension | GUI.py:93 | appending `.ext` (no dot, no separator) to a stem whose last component is not all dots is undone |
| FileName.DownloadName | GUI.py:92-95 | the offered name starts with the annotator id and `_` and ends with `.xlsx` |
| FileName.DownloadNameKeepsCleanBase | GUI.py:93-95 | a base name without `_TODO` is used verbatim |
| FileName.DownloadNameDropsEveryTodo | GUI.py:93-95 | every `_TODO` in the base name is removed: pieces free of `_TODO` joined by `_TODO` are offered concatenated, with the extension replaced by `.xlsx` |
| FileName.DownloadNameExample | GUI.py:92-95 | `qa_pairs_123_A_TODO.xlsx` uploaded by `ka` is offered as `ka_qa_pairs_123_A.xlsx` |
| Export.Record | GUI.py:80-89 | the saved dictionary has exactly the eight answer columns |
| Export.RecordFields | GUI.py:80-89 | each answer is stored under its own column name |
| Export.ReadBackRecord | GUI.py:80-89 | a row holding the saved record reads back as the same annotation |
| Export.Exported | GUI.py:98-103 | the export has the sheet's rows and keeps every non-answer cell. It adds exactly the eight answer columns, never `index`, and adds nothing at all without annotations. An annotated row carries its record; any other row keeps its old answer cell or gets NaN |
| Export.SetColumn | GUI.py:103 | one `.loc` assignment adds the column and changes no other cell; an annotated row gets its answer; any other row keeps the old cell or gets NaN |
| Export.SetColumnStep | GUI.py:103 | one `.loc` column assignment adds that column to the merged set, and repeating it changes nothing |
| Export.ResultColumns | GUI.py:98-99 | the frame built from the annotations writes the eight answer columns, or none when there are no annotations |
| Export.MergeAnnotations | GUI.py:98-103 | the column-by-column loop produces the row-by-row export |
| Export.ExportReadBack | GUI.py:98-103 | an annotated row of the export reads back as its annotation |
| Export.ExportBlankRow | GUI.py:98-103 | a row without annotation and without answer columns of its own gets NaN in every answer column |
| Session.AnnotationSession.constructor | GUI.py:40-43 | the browser session's first upload starts with no annotations |
| Session.AnnotationSession.ShowSummary | GUI.py:46-57 | the displayed summary of example `index` (row `index - 1`) is the heading followed by the highlighted, cleaned summary |
| Session.AnnotationSession.Save | GUI.py:79-89 | saving stores the answers under the example number, replacing an earlier save; no other example changes and all keys stay selectable example numbers |
| Session.AnnotationSession.FileNameOffered | GUI.py:92-95 | the session's download name starts with its annotator id and `_` and ends with `.xlsx` |
| Session.AnnotationSession.Download | GUI.py:97-103 | the download as written: the annotation with key `k` lands on row label `k` |
| Session.AnnotationSession.DownloadAligned | GUI.py:97-103 | the corrected download: the annotation with key `k` lands on row label `k - 1`, the row displayed as example `k` |
| Session.AlignedRowsMatchExamples | GUI.py:45-103 | in the corrected download, each saved annotation reads back from the row displayed under its number |
| Session.DownloadShiftsRows | GUI.py:45-103 | as written, a save for example 1 reads back from the row of example 2, and the row of example 1 has none |
| Session.DownloadAlignedKeepsRows | GUI.py:45-103 | corrected, the same save reads back from the row of example 1 |

## Left out

- The page's widgets are not modelled: selectors, titles, legend, form layout, success and warning messages. `st.rerun` and `st.stop` are left out too. The annotator id, the upload and the form's answers are parameters.
- Reading and writing Excel (`pd.read_excel`, `to_excel`, `BytesIO`) and the download button are left out. The sheet is given as a sequence of rows.
- Summary.CleanSummary: a non-text cell (a number, a date) is not modelled; `str()` of such a cell is not part of this model. Cells are missing or text.
- Session.AnnotationSession.ShowSummary: requires the row to have an `ann_summary` column. pandas raises an error otherwise, and that error path is not modelled.
- Session.AnnotationSession.Download: requires that the last example (key `len(df)`) has no annotation. As written, pandas is asked to assign to a row label the sheet does not have. That error is not modelled.
- The question and the answer shown beside the form (`st.write`) are displayed unchanged. They are not modelled.
- `st.session_state.df` is stored but never read, so it is left out.
- Annotations that survive a re-upload are not modelled. The annotation map is created only once per browser session, so a second upload keeps the earlier keys. Those keys may exceed the new sheet's length. The class models one upload, and its `Valid` bound holds only for the session's first upload.
- The form is not pre-filled with an earlier save; the model follows that.
- `os.path.splitext` is modelled for `/`-separated names only. An uploaded file's name has no directory part.
- The column order of the exported sheet is not modelled; rows are maps from column name to cell.

## Findings

| source | as written | input that shows it | evidently intended | confidence | as-written member | corrected member |
|---|---|---|---|---|---|---|
| GUI.py:45-103 | annotations are keyed by the 1-based example number, but `.loc` treats the key as a 0-based row label | a sheet of two rows; save an annotation for example 1 and download: it lands on the row of example 2, and example 1's row gets NaN (saving for the last example asks for a label the sheet lacks) | the annotation for example `k` lands on row `k - 1`, the row displayed as example `k` | not executed | Session.DownloadShiftsRows | Session.AlignedRowsMatchExamples |
