/**
 * The state of the post page component and its event handlers: whether
 * the navigation menu is open, the page size read from the query string
 * when the component is created, and the current page.
 */
module Template {
  import opened Wrappers
  import opened JsNumbers
  import opened JsStrings
  import opened FrontMatter
  import opened Paginator
  import opened QueryParams

  class PostTemplate {
    var menuOpen: bool
    var linesPerPage: JsNumber
    var curPage: int

    /** The initial state: menu closed, page size from the query string, page 1. */
    constructor (search: Option<string>)
      ensures menuOpen == false
      ensures linesPerPage == PageSize(URLParams(search))
      ensures curPage == 1
    {
      var n := LinesPerPage(search);
      menuOpen := false;
      linesPerPage := n;
      curPage := 1;
    }

    /** `openMenu`: the menu is open; nothing else changes. */
    method OpenMenu()
      modifies this
      ensures menuOpen == true
      ensures linesPerPage == old(linesPerPage) && curPage == old(curPage)
    {
      menuOpen := true;
    }

    /** `closeMenu`: the menu is closed; nothing else changes. */
    method CloseMenu()
      modifies this
      ensures menuOpen == false
      ensures linesPerPage == old(linesPerPage) && curPage == old(curPage)
    {
      menuOpen := false;
    }

    /** `handleOnClick`: the menu button toggles the menu; nothing else changes. */
    method HandleOnClick()
      modifies this
      ensures menuOpen == !old(menuOpen)
      ensures linesPerPage == old(linesPerPage) && curPage == old(curPage)
    {
      if menuOpen {
        CloseMenu();
      } else {
        OpenMenu();
      }
    }

    /** `handleOnClose`: closing the navigation closes the menu, open or not; nothing else changes. */
    method HandleOnClose()
      modifies this
      ensures menuOpen == false
      ensures linesPerPage == old(linesPerPage) && curPage == old(curPage)
    {
      CloseMenu();
    }

    /** `handlePageChange`: the pagination moves to page `current`; nothing else changes. */
    method HandlePageChange(current: int)
      modifies this
      ensures curPage == current
      ensures menuOpen == old(menuOpen) && linesPerPage == old(linesPerPage)
    {
      curPage := current;
    }

    /**
     * `curPageLines(md)`: the segments of the current page. For a page
     * from 1 on and a numeric page size `n >= 0` it is the clamped window
     * `[(curPage - 1) * n, curPage * n)` of the segments, at most `n` long;
     * for a page size that is not a number it is empty.
     */
    function CurPageLines(md: string): (r: seq<string>)
      reads this
      ensures curPage >= 1 && linesPerPage.Finite? && linesPerPage.value >= 0 ==>
        r == Window(LinesArr(md), curPage, linesPerPage.value) && |r| <= linesPerPage.value
      ensures linesPerPage.NaN? ==> r == []
    {
      var segs := LinesArr(md);
      assert curPage >= 1 && linesPerPage.Finite? && linesPerPage.value >= 0 ==>
        PageLines(segs, curPage, linesPerPage) == Window(segs, curPage, linesPerPage.value)
        && |PageLines(segs, curPage, linesPerPage)| <= linesPerPage.value by {
        if curPage >= 1 && linesPerPage.Finite? && linesPerPage.value >= 0 {
          PageWindow(segs, curPage, linesPerPage.value);
        }
      }
      PageLines(LinesArr(md), curPage, linesPerPage)
    }

    /**
     * The source handed to the markdown renderer: the current page of the
     * cleared body, its segments joined with a blank line. It is always a
     * stretch of the cleared body as it stands.
     */
    function Content(rawMD: string): (r: string)
      reads this
      ensures r == VisibleText(rawMD, curPage, linesPerPage)
      ensures Contains(ClearMD(rawMD), r)
    {
      Join(CurPageLines(ClearMD(rawMD)), Delimiter)
    }
  }
}
