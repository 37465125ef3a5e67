/**
 * The pagination of a post body: the body, its front matter removed, is
 * cut into segments at every blank line (`linesArr`), and page `curPage`
 * shows the segments `[(curPage - 1) * linesPerPage, curPage * linesPerPage)`
 * (`curPageLines`), joined again with a blank line between them.
 */
module Paginator {
  import opened JsNumbers
  import opened JsStrings
  import opened JsArrays
  import opened FrontMatter

  /** The separator between two segments: a blank line. */
  const Delimiter: string := "\n\n"

  /**
   * `linesArr`: the segments of `md`. There is always at least one, and
   * joining them with a blank line gives `md` back.
   */
  function LinesArr(md: string): (r: seq<string>)
    ensures |r| >= 1
    ensures Join(r, Delimiter) == md
  {
    SplitJoin(md, Delimiter);
    Split(md, Delimiter)
  }

  /** No segment contains a blank line. */
  lemma LinesArrFree(md: string)
    ensures forall k :: 0 <= k < |LinesArr(md)| ==> !Contains(LinesArr(md)[k], Delimiter)
  {
    SplitPiecesFree(md, Delimiter);
  }

  /** A body without a blank line is a single segment, and only then. */
  lemma LinesArrSingle(md: string)
    ensures |LinesArr(md)| == 1 <==> !Contains(md, Delimiter)
    ensures !Contains(md, Delimiter) ==> LinesArr(md) == [md]
  {
    SplitSingle(md, Delimiter);
  }

  /** An empty body is one empty segment. */
  lemma LinesArrEmpty()
    ensures LinesArr("") == [""]
  {
    SplitEmpty(Delimiter);
  }

  /** `a <= b` scales by a non-negative factor. */
  lemma MulMonotone(a: int, b: int, n: nat)
    requires a <= b
    ensures a * n <= b * n
  {
    assert b * n == a * n + (b - a) * n;
  }

  /** The segments from index `(c - 1) * n` up to `c * n`, both clamped to the length. */
  function Window(segs: seq<string>, c: int, n: int): seq<string>
    requires c >= 1 && n >= 0
  {
    MulMonotone(c - 1, c, n);
    segs[Min((c - 1) * n, |segs|)..Min(c * n, |segs|)]
  }

  /**
   * `curPageLines`: the segments of page `curPage` for page size
   * `linesPerPage`, never more than there are; for a page size that is
   * not a number, none.
   */
  function PageLines(segs: seq<string>, curPage: int, linesPerPage: JsNumber): (r: seq<string>)
    ensures |r| <= |segs|
    ensures linesPerPage.NaN? ==> r == []
  {
    Slice(segs, Mul(Finite(curPage - 1), linesPerPage), Mul(Finite(curPage), linesPerPage))
  }

  /**
   * For a page from 1 on and a page size `n >= 0`, the page is the window
   * `[(c - 1) * n, c * n)` clamped to the segments: at most `n` segments,
   * and none once the window starts past the end.
   */
  lemma PageWindow(segs: seq<string>, c: int, n: int)
    requires c >= 1 && n >= 0
    ensures PageLines(segs, c, Finite(n)) == Window(segs, c, n)
    ensures |PageLines(segs, c, Finite(n))| <= n
    ensures (c - 1) * n >= |segs| ==> PageLines(segs, c, Finite(n)) == []
  {
    assert c * n == (c - 1) * n + n;
    MulMonotone(0, c - 1, n);
    SliceWindow(segs, (c - 1) * n, c * n);
  }

  /**
   * A negative page size makes the end index count back from the end, and
   * from page 2 on the start index too (on page 1 it is 0, counted from the
   * front): page 1 shows every segment but the last `-n`, and every later
   * page nothing.
   */
  lemma NegativePageSize(segs: seq<string>, n: int, c: int)
    requires n < 0 && c >= 2
    ensures PageLines(segs, 1, Finite(n)) == segs[..Max(|segs| + n, 0)]
    ensures PageLines(segs, c, Finite(n)) == []
  {
    assert c * n == (c - 1) * n + n;
    MulMonotone(1, c - 1, -n);
  }

  /** The segments of pages 1 to `count`, one page after the other. */
  function Pages(segs: seq<string>, n: int, count: nat): seq<string>
  {
    if count == 0 then [] else Pages(segs, n, count - 1) + PageLines(segs, count, Finite(n))
  }

  /** Pages 1 to `count` extend the prefix of pages 1 to `count - 1` by page `count`. */
  lemma PagesStep(segs: seq<string>, n: int, count: nat, a: int, b: int)
    requires count > 0 && 0 <= a <= b <= |segs|
    requires Pages(segs, n, count - 1) == segs[..a]
    requires PageLines(segs, count, Finite(n)) == segs[a..b]
    ensures Pages(segs, n, count) == segs[..b]
  {
    assert segs[..a] + segs[a..b] == segs[..b];
  }

  /** The first `count` pages together are the first `count * n` segments. */
  lemma {:induction false} PagesPrefix(segs: seq<string>, n: nat, count: nat)
    ensures Pages(segs, n, count) == segs[..Min(count * n, |segs|)]
  {
    if count > 0 {
      var lo := (count - 1) * n;
      assert count * n == lo + n;
      MulMonotone(0, count - 1, n);
      PagesPrefix(segs, n, count - 1);
      PageWindow(segs, count, n);
      PagesStep(segs, n, count, Min(lo, |segs|), Min(lo + n, |segs|));
    }
  }

  /** The number of pages of `len` segments, `ceil(len / n)`. */
  function PageCount(len: nat, n: nat): (r: nat)
    requires n >= 1
    ensures (r - 1) * n < len <= r * n || (len == 0 && r == 0)
  {
    var r := (len + n - 1) / n;
    assert r * n + (len + n - 1) % n == len + n - 1;
    r
  }

  /** Pages 1 to `PageCount` concatenate to all the segments, in order. */
  lemma AllPages(segs: seq<string>, n: nat)
    requires n >= 1
    ensures Pages(segs, n, PageCount(|segs|, n)) == segs
  {
    PagesPrefix(segs, n, PageCount(|segs|, n));
  }

  /** Page `c` starts before the end exactly when `c` is at most the page count. */
  lemma PageStartsInside(len: nat, n: nat, c: int)
    requires n >= 1 && c >= 1
    ensures (c - 1) * n < len <==> c <= PageCount(len, n)
  {
    var k := PageCount(len, n);
    if c <= k {
      MulMonotone(c - 1, k - 1, n);
    } else {
      MulMonotone(k, c - 1, n);
    }
  }

  /** Every page up to `PageCount` has a segment, and every page after it none. */
  lemma PageNonEmpty(segs: seq<string>, n: nat, c: int)
    requires n >= 1 && c >= 1
    ensures PageLines(segs, c, Finite(n)) != [] <==> c <= PageCount(|segs|, n)
  {
    PageWindow(segs, c, n);
    PageStartsInside(|segs|, n, c);
    assert c * n == (c - 1) * n + n;
  }

  /** The text of one page: its segments joined with a blank line. */
  function PageText(segs: seq<string>, c: int, linesPerPage: JsNumber): string
  {
    Join(PageLines(segs, c, linesPerPage), Delimiter)
  }

  /** The texts of pages 1 to `count`. */
  function PageTexts(segs: seq<string>, n: int, count: nat): (r: seq<string>)
    ensures |r| == count
  {
    if count == 0 then [] else PageTexts(segs, n, count - 1) + [PageText(segs, count, Finite(n))]
  }

  /** Pages 1 to `count` hold at least one segment when there is one. */
  lemma PagesNonEmpty(segs: seq<string>, n: nat, count: nat)
    requires n >= 1 && count >= 1 && |segs| >= 1
    ensures Pages(segs, n, count) != []
  {
    PagesPrefix(segs, n, count);
    MulMonotone(1, count, n);
  }

  /** Joining the texts of the non-empty pages is joining their segments. */
  lemma {:induction false} PageTextsJoin(segs: seq<string>, n: nat, count: nat)
    requires n >= 1 && 1 <= count <= PageCount(|segs|, n)
    ensures Join(PageTexts(segs, n, count), Delimiter) == Join(Pages(segs, n, count), Delimiter)
  {
    PageNonEmpty(segs, n, count);
    if count == 1 {
      var page := PageLines(segs, 1, Finite(n));
      assert Pages(segs, n, 1) == [] + page == page;
      assert PageTexts(segs, n, 1) == [] + [Join(page, Delimiter)] == [Join(page, Delimiter)];
    } else {
      PageTextsJoin(segs, n, count - 1);
      PagesNonEmpty(segs, n, count - 1);
      var texts, last := PageTexts(segs, n, count - 1), PageText(segs, count, Finite(n));
      assert PageTexts(segs, n, count) == texts + [last];
      JoinAppend(texts, [last], Delimiter);
      JoinAppend(Pages(segs, n, count - 1), PageLines(segs, count, Finite(n)), Delimiter);
    }
  }

  /**
   * The text shown on page `curPage`: the cleared body's segments of that
   * page, rejoined. Whatever the page and the page size, it is a stretch
   * of the cleared body, taken as it is.
   */
  function VisibleText(rawMD: string, curPage: int, linesPerPage: JsNumber): (r: string)
    ensures Contains(ClearMD(rawMD), r)
  {
    var segs := LinesArr(ClearMD(rawMD));
    var i := RelativeIndex(Mul(Finite(curPage - 1), linesPerPage), |segs|);
    var page := PageLines(segs, curPage, linesPerPage);
    assert page == segs[i..i + |page|];
    JoinInfix(segs, i, i + |page|, Delimiter);
    PageText(segs, curPage, linesPerPage)
  }

  /** `totalLines`: the number of segments, whatever the page; never zero. */
  function TotalLines(rawMD: string): (r: nat)
    ensures r >= 1
    ensures r == 1 <==> !Contains(ClearMD(rawMD), Delimiter)
  {
    LinesArrSingle(ClearMD(rawMD));
    |LinesArr(ClearMD(rawMD))|
  }

  /**
   * Reading the pages 1 to `ceil(totalLines / n)` in order, with a blank
   * line between them, gives back the whole cleared body.
   */
  lemma ReadAllPages(rawMD: string, n: nat)
    requires n >= 1
    ensures var segs := LinesArr(ClearMD(rawMD));
      Join(PageTexts(segs, n, PageCount(TotalLines(rawMD), n)), Delimiter) == ClearMD(rawMD)
  {
    var segs := LinesArr(ClearMD(rawMD));
    var k := PageCount(|segs|, n);
    PageTextsJoin(segs, n, k);
    AllPages(segs, n);
  }

  /** When every segment fits on page 1, page 1 shows the whole cleared body. */
  lemma SinglePage(rawMD: string, n: nat)
    requires TotalLines(rawMD) <= n
    ensures VisibleText(rawMD, 1, Finite(n)) == ClearMD(rawMD)
  {
    var segs := LinesArr(ClearMD(rawMD));
    PageWindow(segs, 1, n);
    assert segs[0..|segs|] == segs;
  }
}

/** The pagination of a worked example. */
module PaginatorExamples {
  import opened JsNumbers
  import opened JsStrings
  import opened FrontMatter
  import opened FrontMatterExamples
  import opened Paginator

  /** A blank line at `j`, read character by character. */
  lemma BlankAt(s: string, j: int)
    ensures OccursAt(s, Delimiter, j) <==> 0 <= j && j + 2 <= |s| && s[j] == '\n' && s[j + 1] == '\n'
  {
    if 0 <= j && j + 2 <= |s| {
      var w := s[j..j + 2];
      assert w[0] == s[j] && w[1] == s[j + 1];
    }
  }

  /** A text of two segments, the first of one character. */
  lemma TwoSegments(s: string)
    requires |s| >= 3 && s[0] != '\n' && s[1] == '\n' && s[2] == '\n'
    ensures LinesArr(s) == [s[..1]] + LinesArr(s[3..])
  {
    BlankAt(s, 0);
    BlankAt(s, 1);
    IndexOfFirst(s, Delimiter, 1);
  }

  lemma LastSegments()
    ensures LinesArr("B\n\nC") == ["B", "C"]
  {
    var t := "B\n\nC";
    TwoSegments(t);
    assert t[..1] == "B" && t[3..] == "C";
    assert !Contains("C", Delimiter);
    LinesArrSingle("C");
  }

  lemma BodyCut()
    ensures "A\n\nB\n\nC"[..1] == "A" && "A\n\nB\n\nC"[3..] == "B\n\nC"
  {
  }

  lemma BodySegments()
    ensures LinesArr("A\n\nB\n\nC") == ["A", "B", "C"]
  {
    TwoSegments("A\n\nB\n\nC");
    BodyCut();
    LastSegments();
  }

  lemma PostSegments()
    ensures LinesArr(ClearMD(Post)) == ["A", "B", "C"]
  {
    LeadingBlock();
    BodySegments();
  }

  /** The post with a leading block has three segments in all. */
  lemma PostTotal()
    ensures TotalLines(Post) == 3
  {
    PostSegments();
  }

  /** With two segments per page, page 1 shows the first two segments... */
  lemma PostFirstPage()
    ensures VisibleText(Post, 1, Finite(2)) == "A\n\nB"
  {
    PostSegments();
    FirstWindow();
    JoinFirstTwo();
  }

  lemma FirstWindow()
    ensures PageLines(["A", "B", "C"], 1, Finite(2)) == ["A", "B"]
  {
    var segs := ["A", "B", "C"];
    assert segs[0..2] == ["A", "B"];
  }

  lemma JoinFirstTwo()
    ensures Join(["A", "B"], Delimiter) == "A\n\nB"
  {
    var page := ["A", "B"];
    assert page[1..] == ["B"];
    assert Join(page, Delimiter) == "A" + "\n\n" + "B";
  }

  /** ...and page 2 the third. */
  lemma PostSecondPage()
    ensures VisibleText(Post, 2, Finite(2)) == "C"
  {
    PostSegments();
    var segs := ["A", "B", "C"];
    assert PageLines(segs, 2, Finite(2)) == segs[2..3] == ["C"];
  }
}
