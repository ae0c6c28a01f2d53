/**
 * One annotator's session with an uploaded sheet: the examples are shown
 * one at a time (numbered from 1), the form's answers are saved per example
 * number, and the download merges every saved annotation into a copy of the
 * sheet.
 */
module Session {
  import opened Frame
  import opened Summary
  import opened Highlight
  import opened FileName
  import opened Export

  const SummaryColumn: string := "ann_summary"

  const SummaryHeading: string := "**Summary:**<br>"

  class AnnotationSession {
    const userId: string
    const uploadName: string
    const table: Table
    var annotations: map<int, Annotation>

    /** Keys are example numbers the page can select, and every saved answer
        is one the form offers. */
    ghost predicate Valid()
      reads this
    {
      forall k :: k in annotations ==> 1 <= k <= |table| && FromForm(annotations[k])
    }

    /** The browser session's first upload starts with no annotations; the
        map is created only when the session has none. */
    constructor (userId: string, uploadName: string, table: Table)
      ensures this.userId == userId && this.uploadName == uploadName && this.table == table
      ensures annotations == map[]
      ensures Valid()
    {
      this.userId := userId;
      this.uploadName := uploadName;
      this.table := table;
      annotations := map[];
    }

    /** The summary of example `index` as displayed: cleaned, then with its
        tags turned into coloured spans, under a bold heading. */
    method ShowSummary(index: int) returns (html: string)
      requires 1 <= index <= |table| && SummaryColumn in table[index - 1]
      ensures html == SummaryHeading + Highlighted(CleanSummary(table[index - 1][SummaryColumn]))
    {
      var row := table[index - 1];
      var summary := CleanSummary(row[SummaryColumn]);
      var marked := HighlightTags(summary);
      html := SummaryHeading + marked;
    }

    /** Submitting the form for example `index` stores its answers under that
        number, replacing an earlier save; no other example changes. */
    method Save(index: int, a: Annotation)
      requires Valid() && 1 <= index <= |table| && FromForm(a)
      modifies this
      ensures Valid()
      ensures annotations == old(annotations)[index := a]
      ensures forall k :: k in annotations && k != index ==> annotations[k] == old(annotations)[k]
    {
      annotations := annotations[index := a];
    }

    /** The name the download is offered under. */
    function FileNameOffered(): (name: string)
      ensures |name| >= |userId| + 1 + |Extension|
      ensures name[..|userId| + 1] == userId + "_"
      ensures name[|name| - |Extension|..] == Extension
    {
      DownloadName(userId, uploadName)
    }

    /** The download as written: the annotation saved for example `k` is
        written to row label `k`, the row shown as example `k + 1`. The
        annotation of the last example would need a label the sheet does not
        have. */
    method Download() returns (final: Table)
      requires Valid() && |table| !in annotations
      ensures final == Exported(table, annotations, 0)
    {
      final := MergeAnnotations(table, annotations, 0);
    }

    /** The download with labels matched to the examples shown: the
        annotation saved for example `k` lands on row label `k - 1`. */
    method DownloadAligned() returns (final: Table)
      requires Valid()
      ensures final == Exported(table, annotations, 1)
    {
      final := MergeAnnotations(table, annotations, 1);
    }
  }

  /** In the aligned download every saved annotation sits on the row that was
      displayed under its number. */
  lemma AlignedRowsMatchExamples(df: Table, ann: map<int, Annotation>, k: int)
    requires k in ann && 1 <= k <= |df|
    ensures ReadBack(Exported(df, ann, 1)[k - 1]) == Some(ann[k])
  {
    ExportReadBack(df, ann, 1, k - 1);
  }

  /** As written, the annotation saved for example 1 appears on the row of
      example 2, while the row of example 1 gets blanks. */
  lemma DownloadShiftsRows(df: Table, a: Annotation)
    requires |df| >= 2
    requires forall c :: c in Fields ==> c !in df[0]
    ensures ReadBack(Exported(df, map[1 := a], 0)[1]) == Some(a)
    ensures ReadBack(Exported(df, map[1 := a], 0)[0]) == None
  {
    ExportReadBack(df, map[1 := a], 0, 1);
    ExportBlankRow(df, map[1 := a], 0, 0);
  }

  /** With the labels matched, the same save lands on the row of example 1. */
  lemma DownloadAlignedKeepsRows(df: Table, a: Annotation)
    requires |df| >= 2
    ensures ReadBack(Exported(df, map[1 := a], 1)[0]) == Some(a)
  {
    AlignedRowsMatchExamples(df, map[1 := a], 1);
  }
}
