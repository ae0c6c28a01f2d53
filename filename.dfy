/**
 * The name offered for the download: the upload's name without its
 * extension (`os.path.splitext`), with every `_TODO` removed, prefixed by
 * the annotator id and an underscore, with `.xlsx` appended.
 */
module FileName {
  import opened Text

  const TodoMarker: string := "_TODO"

  const Extension: string := ".xlsx"

  /** Python's `str.rfind` for one character: the last index of `c` in `s`,
      or -1. */
  function RFind(s: string, c: char): (r: int)
    ensures -1 <= r < |s|
    ensures r >= 0 ==> s[r] == c
    ensures forall i :: r < i < |s| ==> s[i] != c
    decreases |s|
  {
    if s == [] then -1
    else if s[|s| - 1] == c then |s| - 1
    else RFind(s[..|s| - 1], c)
  }

  /** Every character strictly between `lo` and `hi` is a dot. */
  predicate DotsBetween(s: string, lo: int, hi: int)
    requires -1 <= lo && hi <= |s|
  {
    forall i :: lo < i < hi ==> s[i] == '.'
  }

  /** `os.path.splitext(p)[0]` with `/` as separator: the extension starts at
      the last dot after the last separator, unless only dots precede that dot
      in the final component (so `.bashrc` and `..` have no extension). */
  function StripExtension(p: string): (stem: string)
    ensures |stem| <= |p| && p[..|stem|] == stem
    ensures stem != p ==> p[|stem|] == '.'
    ensures stem != p ==> forall i :: |stem| < i < |p| ==> p[i] != '.' && p[i] != '/'
    ensures (forall i :: 0 <= i < |p| ==> p[i] != '.') ==> stem == p
    ensures stem != p ==> HasBaseName(stem)
  {
    var sep := RFind(p, '/');
    var dot := RFind(p, '.');
    if dot > sep && !DotsBetween(p, sep, dot) then
      RFindPrefix(p, dot, '/');
      p[..dot]
    else
      p
  }

  /** `f"{user_id}_{base_name_clean}.xlsx"`. */
  function DownloadName(userId: string, uploadName: string): (name: string)
    ensures |name| >= |userId| + 1 + |Extension|
    ensures name[..|userId| + 1] == userId + "_"
    ensures name[|name| - |Extension|..] == Extension
  {
    var base := StripExtension(uploadName);
    var cleaned := ReplaceAll(base, TodoMarker, "");
    userId + "_" + cleaned + Extension
  }

  /** The final component of `stem` is not all dots. */
  predicate HasBaseName(stem: string) {
    !DotsBetween(stem, RFind(stem, '/'), |stem|)
  }

  lemma RFindAppend(a: string, b: string, c: char)
    requires c !in b
    ensures RFind(a + b, c) == RFind(a, c)
  {
    var r := RFind(a + b, c);
    assert forall i :: |a| <= i < |a + b| ==> (a + b)[i] == b[i - |a|];
    if r >= 0 {
      assert (a + b)[r] == a[r];
    }
    var q := RFind(a, c);
    if q >= 0 {
      assert (a + b)[q] == c;
    }
  }

  lemma RFindPrefix(p: string, n: int, c: char)
    requires 0 <= n <= |p| && forall i :: n <= i < |p| ==> p[i] != c
    ensures RFind(p[..n], c) == RFind(p, c)
  {
    var r := RFind(p, c);
    if r >= 0 {
      assert p[..n][r] == c;
    }
    var q := RFind(p[..n], c);
    if q >= 0 {
      assert p[q] == c;
    }
  }

  /** Appending a dot and an extension free of dots and separators is undone
      by `StripExtension`. */
  lemma StripAppendedExtension(stem: string, ext: string)
    requires '.' !in ext && '/' !in ext && HasBaseName(stem)
    ensures StripExtension(stem + "." + ext) == stem
  {
    var p := stem + "." + ext;
    RFindAppend(stem, "." + ext, '/');
    assert p == (stem + ".") + ext;
    RFindAppend(stem + ".", ext, '.');
    assert RFind(stem + ".", '.') == |stem|;
    var sep := RFind(stem, '/');
    assert forall i :: sep < i < |stem| ==> p[i] == stem[i];
    assert p[..|stem|] == stem;
  }

  /** A base name without `_TODO` is kept verbatim. */
  lemma DownloadNameKeepsCleanBase(userId: string, uploadName: string)
    requires Absent(StripExtension(uploadName), TodoMarker)
    ensures DownloadName(userId, uploadName) == userId + "_" + StripExtension(uploadName) + Extension
  {
    ReplaceAllAbsent(StripExtension(uploadName), TodoMarker, "");
  }

  /** Every `_TODO` in the base name is dropped: a base made of pieces free
      of `_TODO` joined by `_TODO` is offered as the pieces concatenated. */
  lemma DownloadNameDropsEveryTodo(userId: string, ps: seq<string>, ext: string)
    requires |ps| >= 2 && forall k :: 0 <= k < |ps| ==> Absent(ps[k], TodoMarker)
    requires '/' !in ps[|ps| - 1] && '.' !in ext && '/' !in ext
    ensures DownloadName(userId, JoinWith(ps, TodoMarker) + "." + ext)
         == userId + "_" + JoinWith(ps, "") + Extension
  {
    var stem := JoinWith(ps, TodoMarker);
    JoinWithLast(ps, TodoMarker);
    MarkedStemHasBaseName(JoinWith(ps[..|ps| - 1], TodoMarker), ps[|ps| - 1]);
    StripAppendedExtension(stem, ext);
    MarkerStartsOnce();
    ReplaceAllJoined(ps, TodoMarker, "");
  }

  lemma MarkerStartsOnce()
    ensures TodoMarker[0] !in TodoMarker[1..]
  {
    assert TodoMarker[1..] == "TODO";
  }

  lemma MarkedStemHasBaseName(before: string, after: string)
    requires '/' !in after
    ensures HasBaseName(before + TodoMarker + after)
  {
    var stem := before + TodoMarker + after;
    assert stem == before + (TodoMarker + after);
    assert '/' !in TodoMarker + after by {
      assert TodoMarker + after == ['_', 'T', 'O', 'D', 'O'] + after;
    }
    RFindAppend(before, TodoMarker + after, '/');
    assert stem[|before|] == '_';
  }

  /** The worked example: `qa_pairs_123_A_TODO.xlsx` uploaded by `ka` is
      offered as `ka_qa_pairs_123_A.xlsx`. */
  lemma DownloadNameExample()
    ensures DownloadName("ka", "qa_pairs_123_A" + TodoMarker + Extension) == "ka_qa_pairs_123_A" + Extension
  {
    ExampleUploadParts();
    ExampleDropsTodo();
    ExampleNameParts();
  }

  // The literal equalities of the example are kept in lemmas of their own:
  // in one proof with `DownloadName` applied to literals they are too costly.

  lemma ExampleUploadParts()
    ensures "qa_pairs_123_A" + TodoMarker + Extension == "qa_pairs_123_A" + TodoMarker + "" + "." + "xlsx"
  {
    assert Extension == "." + "xlsx";
  }

  lemma ExampleNameParts()
    ensures "ka" + "_" + "qa_pairs_123_A" + "" == "ka_qa_pairs_123_A"
  {
  }

  lemma ExampleDropsTodo()
    ensures DownloadName("ka", "qa_pairs_123_A" + TodoMarker + "" + "." + "xlsx")
         == "ka" + "_" + "qa_pairs_123_A" + "" + Extension
  {
    var ps := ["qa_pairs_123_A", ""];
    ExampleBaseClean();
    AbsentByMissingChar("", TodoMarker, 0);
    assert JoinWith(ps, TodoMarker) == "qa_pairs_123_A" + TodoMarker + "";
    assert JoinWith(ps, "") == "qa_pairs_123_A" + "" + "";
    DownloadNameDropsEveryTodo("ka", ps, "xlsx");
  }

  lemma ExampleBaseClean()
    ensures Absent("qa_pairs_123_A", TodoMarker)
  {
    assert TodoMarker[2] == 'O';
    AbsentByMissingChar("qa_pairs_123_A", TodoMarker, 2);
  }
}
