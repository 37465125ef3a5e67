# Post template pagination and derived state

This project models the logic of the blog post page of a Gatsby site
(`src/templates/post.jsx`). The page shows the markdown body of a post
one page at a time.

- The body first loses its front matter. This is the `---` … `---` block
  that `clearMD` removes with the regular expression `/-{3}\n(.+\n)*-{3}\n/gmi`.
- The rest is cut at every blank line (`linesArr`).
- The page shows one window of those segments (`curPageLines`), joined
  again with a blank line.
- The page size comes from the URL query parameter `l` (`getURLParams`,
  `linesPerPage`). It defaults to 10.
- The current page and the state of the navigation menu live in the
  component's state. The event handlers change that state.

Besides the pagination, the template derives the following from the data:

- the post's identifier and category (`parsePost`);
- summaries of the previous and next posts (`formatReadNext`,
  `getNextData`, `getPrevData`);
- the CSS class of the post;
- the page title.

The JavaScript built-ins the template relies on are modelled after the
ECMAScript definitions:

- `String.prototype.split` and `Array.prototype.join` (module `JsStrings`);
- `parseInt(s, 10)` (module `JsNumbers`);
- `Array.prototype.slice` (module `JsArrays`).

Some values depend on the world outside the template. They become parameters:

- the query string (`location.search`): `None` when the page is not
  rendered in a browser;
- the route's slugs;
- the default category identifier;
- the site title.

Modules, one file each (`wrappers.dfy` holds `Option` and `Result`):

- `FrontMatter` (with `FrontMatterExamples`): `clearMD`.
  - It is an exact model of the global replacement. For each position it
    finds the longest match, then continues after it.
  - This is proved against a declarative description of what the pattern
    matches (`IsMatch`).
- `Paginator` (with `PaginatorExamples`): `linesArr`, the page window,
  the visible text and `totalLines`.
- `QueryParams`: `getURLParams` (a loop method filling a map) and `linesPerPage`.
- `Posts`: `parsePost` (a method that updates a `Post` object in place),
  the neighbour summaries, the class name and the title.
- `Template`: the class `PostTemplate`, with the fields `menuOpen`,
  `linesPerPage` and `curPage` and the handlers that update them.

Behaviour of the code worth knowing:

- `?l=abc` gives the page size `parseInt("abc", 10)`, which is NaN, not 10.
  With a NaN page size both slice indices become 0, so the page shows
  nothing (`NotNumericPageSize`, `PageLines`, `Template.PostTemplate.CurPageLines`).
  `?l=` (an empty value) and `?l` (no value) do give 10, because the test
  is one of truthiness (`LastPageSize`, `NoValuePageSize`).
- A negative page size such as `?l=-3` makes the end index count back
  from the end, and from page 2 on the start index too (on page 1 the
  start index is `0 * -3`, which is 0 and counts from the front): page 1
  shows every segment but the last three, and later pages show nothing
  (`NegativePageSize`).
- `clearMD` removes every delimited block anywhere in the text, not only
  one leading block.
  - Removing a block can join the text on either side into a new block,
    so the replacement is not idempotent (`NotIdempotent`).
  - A `---` line with no closing `---` line after it is kept.
- The identifier is replaced by the slug whenever it is falsy, which
  includes an empty string, not only when it is missing.
  - The default category is assigned only when the identifier is still
    falsy after that, that is, when the slug is falsy too. This is
    reproduced as written.

## Model

| member | source | states |
|---|---|---|
| FrontMatter.FenceAtOccurs | src/templates/post.jsx:101 | the character test for `-{3}\n` is exactly an occurrence of `---` plus a newline |
| FrontMatter.ScanLine | src/templates/post.jsx:101 | `.+` reads up to the first line terminator or the end; every character it passes is not a terminator |
| FrontMatter.LineEnd | src/templates/post.jsx:101 | one iteration of `.+\n` ends after a newline with at least one non-terminator before it; when none matches, no run of lines starts there |
| FrontMatter.LinesExtend | src/templates/post.jsx:101 | a run of lines followed by one more complete line is a run of lines |
| FrontMatter.LinesSuffix | src/templates/post.jsx:101 | a run of lines cut at a line boundary leaves a run of lines |
| FrontMatter.FenceAfterLines | src/templates/post.jsx:101 | a closing `---` line of a match cannot start inside the lines already read |
| FrontMatter.NoMatchBeyond | src/templates/post.jsx:101 | once no further line can be read, no match ends later |
| FrontMatter.MatchInLine | src/templates/post.jsx:101 | a match ending within the next line ends exactly with it, and that line is `---` |
| FrontMatter.LastFence | src/templates/post.jsx:101 | the greedy scan returns the remembered match or one that ends at least four characters further on |
| FrontMatter.BestStep | src/templates/post.jsx:101 | reading one more line keeps the remembered end the longest match so far |
| FrontMatter.LastFenceLongest | src/templates/post.jsx:101 | the greedy scan with backtracking finds a match, and the longest one; it finds none only when no match exists at that position |
| FrontMatter.MatchAt | src/templates/post.jsx:101 | a match found at `p` starts with `---\n` and spans at least eight characters |
| FrontMatter.MatchAtLongest | src/templates/post.jsx:101 | the match found at `p` satisfies the pattern and is the longest; none is found only when there is none |
| FrontMatter.ClearFrom | src/templates/post.jsx:101 | the replacement from `p` on never yields more text than is left |
| FrontMatter.ClearFromPlain | src/templates/post.jsx:101 | a stretch in which no match starts is copied unchanged |
| FrontMatter.ClearMD | src/templates/post.jsx:101 | `clearMD` never lengthens the text, and leaves a text in which `---` followed by a newline never occurs unchanged |
| FrontMatterExamples.LeadingBlock | src/templates/post.jsx:101 | `"---\ntitle: X\n---\nA\n\nB\n\nC"` becomes `"A\n\nB\n\nC"` |
| FrontMatterExamples.InnerBlock | src/templates/post.jsx:101 | a block in the middle of the text is removed too (global flag) |
| FrontMatterExamples.JoinedFirstPass | src/templates/post.jsx:101 | one pass over `"------\n---\n\n---\n"` leaves `"---\n---\n"` |
| FrontMatterExamples.RejoinedSecondPass | src/templates/post.jsx:101 | a second pass removes that new block |
| FrontMatterExamples.NotIdempotent | src/templates/post.jsx:101 | `clearMD(clearMD(x))` can differ from `clearMD(x)` |
| JsStrings.IndexOf | src/templates/post.jsx:103 | the index found is an occurrence with none before it; none is found exactly when the separator does not occur |
| JsStrings.IndexOfFirst | src/templates/post.jsx:103 | the first occurrence is the index found |
| JsStrings.Split | src/templates/post.jsx:103 | a split always has at least one piece |
| JsStrings.SplitJoin | src/templates/post.jsx:103 | joining the pieces of a split with the same separator gives the text back |
| JsStrings.SplitEmpty | src/templates/post.jsx:103 | the empty text splits into one empty piece |
| JsStrings.SplitPiecesFree | src/templates/post.jsx:103 | no piece contains the separator |
| JsStrings.SplitSingle | src/templates/post.jsx:103 | there is a single piece exactly when the separator does not occur |
| JsStrings.JoinAppend | src/templates/post.jsx:159 | joining two non-empty lists is joining their joins with the separator between them |
| JsStrings.JoinInfix | src/templates/post.jsx:159 | the join of consecutive parts occurs in the join of all the parts |
| JsNumbers.TrimStart | src/templates/post.jsx:62 | `parseInt` skips exactly the leading white space and line terminators |
| JsNumbers.DigitPrefix | src/templates/post.jsx:62 | `parseInt` reads the longest run of decimal digits |
| JsNumbers.DecimalString | src/templates/post.jsx:62 | the decimal representation of `n` is digits without a leading zero, denoting `n` |
| JsNumbers.ParseInt | src/templates/post.jsx:62 | `parseInt(s, 10)` reads a string of digits as the number it denotes, and a string starting with something other than white space, a sign or a digit as NaN |
| JsNumbers.ParseIntDigitsThen | src/templates/post.jsx:62 | digits followed by a non-digit read as the digits' value |
| JsNumbers.DigitPrefixOf | src/templates/post.jsx:62 | the digit run of `ds + rest` is `ds` when `rest` does not start with a digit |
| JsNumbers.ParseIntDecimal | src/templates/post.jsx:62 | `parseInt` inverts the decimal representation |
| JsNumbers.ParseIntNegative | src/templates/post.jsx:62 | a minus sign followed by digits reads as the negated value |
| JsArrays.SliceWindow | src/templates/post.jsx:105 | for non-negative indices a slice is the clamped window, at most `end - start` long, empty once `start` reaches the length |
| JsArrays.Slice | src/templates/post.jsx:105 | a slice is never longer than the array; it is empty when the clamped end is not after the clamped start, and otherwise exactly as long as the gap between them |
| JsArrays.SliceFromEnd | src/templates/post.jsx:105 | a negative index `-k` selects the same position as `length - k` |
| Paginator.LinesArr | src/templates/post.jsx:103 | `linesArr` gives at least one segment, and joining the segments with a blank line gives the body back |
| Paginator.LinesArrFree | src/templates/post.jsx:103 | no segment contains a blank line |
| Paginator.LinesArrSingle | src/templates/post.jsx:103 | a body is one segment exactly when it has no blank line, and then the segment is the body |
| Paginator.LinesArrEmpty | src/templates/post.jsx:103 | an empty body is one empty segment |
| Paginator.PageLines | src/templates/post.jsx:105 | `curPageLines` never yields more segments than there are, and none for a NaN page size |
| Paginator.PageWindow | src/templates/post.jsx:105 | page `c >= 1` with page size `n >= 0` is the window `[(c-1)n, cn)` clamped to the segments, at most `n` long, empty once `(c-1)n` reaches the count |
| Paginator.NegativePageSize | src/templates/post.jsx:105 | with a negative page size `n`, page 1 is every segment but the last `-n`, and every later page is empty |
| Paginator.PagesPrefix | src/templates/post.jsx:105 | pages 1 to `k` together are the first `k * n` segments, clamped |
| Paginator.PageCount | src/templates/post.jsx:128 | `ceil(total / n)` pages exactly cover `total` segments |
| Paginator.AllPages | src/templates/post.jsx:105 | pages 1 to `ceil(total / n)` concatenate to all the segments, in order |
| Paginator.PageStartsInside | src/templates/post.jsx:105 | page `c` starts before the end exactly when `c <= ceil(total / n)` |
| Paginator.PageNonEmpty | src/templates/post.jsx:105 | a page has a segment exactly when its number is at most `ceil(total / n)` |
| Paginator.PagesNonEmpty | src/templates/post.jsx:105 | pages 1 to `k` hold a segment when there is one |
| Paginator.PageTexts | src/templates/post.jsx:159 | there is one text per page |
| Paginator.PageTextsJoin | src/templates/post.jsx:159 | joining the texts of the non-empty pages is joining their segments |
| Paginator.VisibleText | src/templates/post.jsx:159 | the text shown on any page, for any page size, is a stretch of the cleared body, unaltered |
| Paginator.TotalLines | src/templates/post.jsx:128 | `totalLines` is at least 1, is 1 exactly when the cleared body has no blank line, and does not depend on the page |
| Paginator.ReadAllPages | src/templates/post.jsx:159 | reading pages 1 to `ceil(totalLines / n)` in order, with blank lines between them, gives back the whole cleared body |
| Paginator.SinglePage | src/templates/post.jsx:159 | when all segments fit, page 1 shows the whole cleared body |
| PaginatorExamples.PostSegments | src/templates/post.jsx:103 | the cleared example post has the segments `A`, `B`, `C` |
| PaginatorExamples.PostTotal | src/templates/post.jsx:128 | the example post has three segments in all |
| PaginatorExamples.PostFirstPage | src/templates/post.jsx:159 | with two segments per page, page 1 shows `"A\n\nB"` |
| PaginatorExamples.PostSecondPage | src/templates/post.jsx:159 | with two segments per page, page 2 shows `"C"` |
| QueryParams.ParamsStr | src/templates/post.jsx:50-53 | outside a browser or for an empty search the text is empty; otherwise the search is its first character (the `?`) followed by the text |
| QueryParams.QueryPieces | src/templates/post.jsx:54 | the `&`-pieces are at least one, and joined with `&` they give the query text back |
| QueryParams.FirstPiece | src/templates/post.jsx:56 | the first piece of a split at `=` is the text before the first `=`, or all of it when there is none |
| QueryParams.SecondPiece | src/templates/post.jsx:56 | a split at `=` has a second piece exactly when there is an `=`, and it is the first piece of the text after the first `=` |
| QueryParams.ParamKey | src/templates/post.jsx:56 | a parameter's name is the text before its first `=`, all of it when there is none, and holds no `=` |
| QueryParams.ParamValue | src/templates/post.jsx:56 | the value is `undefined` exactly when there is no `=`, else the text between the first and second `=` (or the end) |
| QueryParams.ParamsOfKeys | src/templates/post.jsx:54-57 | the dictionary's names are exactly the names of the parameters |
| QueryParams.ParamsOfLast | src/templates/post.jsx:56 | a name maps to the value of the last parameter with that name |
| QueryParams.GetURLParams | src/templates/post.jsx:49-58 | the loop fills the dictionary the parameters define, a later one overwriting an earlier one |
| QueryParams.NoQuery | src/templates/post.jsx:50-56 | outside a browser, or with an empty query, the dictionary holds only the empty name, mapped to `undefined` |
| QueryParams.NoEquals | src/templates/post.jsx:56 | a text without `=` is one piece |
| QueryParams.NameValue | src/templates/post.jsx:56 | `name=value` has that name and that value |
| QueryParams.OneParam | src/templates/post.jsx:49-58 | a query of one `name=value` gives the dictionary with just that entry |
| QueryParams.LinesPerPage | src/templates/post.jsx:60-63 | `linesPerPage()` is the page size of the dictionary `getURLParams()` gives |
| QueryParams.PageSize | src/templates/post.jsx:62 | the page size is 10 when `l` is missing, `undefined` or empty, otherwise `parseInt` of the value, which for a digit string is the number it denotes |
| QueryParams.AbsentPageSize | src/templates/post.jsx:60-63 | for any query string in which no parameter is named `l`, the page size is 10 |
| QueryParams.LastPageSize | src/templates/post.jsx:54-63 | for any query string, the last parameter named `l` decides: 10 when it has no `=` or an empty value, else `parseInt` of its value |
| QueryParams.NoQueryPageSize | src/templates/post.jsx:62 | without a query the page size is 10 |
| QueryParams.ValuePageSize | src/templates/post.jsx:62 | `?l=v`, for a non-empty `v`, gives `parseInt(v, 10)` |
| QueryParams.DecimalPageSize | src/templates/post.jsx:62 | `?l=` followed by the decimal digits of `n` gives `n` |
| QueryParams.FivePageSize | src/templates/post.jsx:62 | `?l=5` gives 5 |
| QueryParams.NotNumericPageSize | src/templates/post.jsx:62 | `?l=abc` gives NaN, not the default |
| QueryParams.EmptyPageSize | src/templates/post.jsx:62 | `?l=` gives the default 10 |
| QueryParams.NoValuePageSize | src/templates/post.jsx:62 | `?l` gives the default 10 |
| Posts.ResolvedId | src/templates/post.jsx:33-35 | a truthy identifier stays, a falsy one is replaced by the slug; the result is truthy exactly when the identifier or the slug was |
| Posts.ResolvedCategory | src/templates/post.jsx:36-38 | the default category is set when neither identifier nor slug is truthy, and the category is kept otherwise |
| Posts.ParsePost | src/templates/post.jsx:31-40 | `parsePost` returns the same object, with the new identifier and category, and changes no other field |
| Posts.ParsePostIdempotent | src/templates/post.jsx:31-40 | applying `parsePost` twice with the same slug is applying it once |
| Posts.NoIdNoSlug | src/templates/post.jsx:31-40 | without identifier and slug the post gets the default category and still no identifier |
| Posts.FormatReadNextExact | src/templates/post.jsx:42-47 | two neighbours give the same summary exactly when they agree on slug, title, cover and excerpt |
| Posts.NeighbourData | src/templates/post.jsx:134-135 | the summary is `null` exactly when the slug is falsy, an error exactly when the slug is truthy and the record is `null`, and otherwise holds the record's slug, title, cover and excerpt |
| Posts.ClassName | src/templates/post.jsx:127 | the class is the post's own when that is truthy and `"post"` otherwise, so never empty |
| Posts.PageTitle | src/templates/post.jsx:139 | the title is the post title (`null` when missing), then `" \| "`, then the site title, and the post title is recovered from it |
| Template.PostTemplate.constructor | src/templates/post.jsx:66-70 | the menu starts closed, the page size comes from the query string, and the page is 1 |
| Template.PostTemplate.OpenMenu | src/templates/post.jsx:86-88 | opens the menu; the other fields are unchanged |
| Template.PostTemplate.CloseMenu | src/templates/post.jsx:90-92 | closes the menu; the other fields are unchanged |
| Template.PostTemplate.HandleOnClick | src/templates/post.jsx:72-79 | toggles the menu; the other fields are unchanged |
| Template.PostTemplate.HandleOnClose | src/templates/post.jsx:81-84 | closes the menu whatever its state; the other fields are unchanged |
| Template.PostTemplate.HandlePageChange | src/templates/post.jsx:94-95 | moves to the given page; the other fields are unchanged |
| Template.PostTemplate.CurPageLines | src/templates/post.jsx:105 | the current page's segments are the clamped window of the current page, at most `linesPerPage` long; with a NaN page size, none |
| Template.PostTemplate.Content | src/templates/post.jsx:159 | the markdown source is the visible text of the current page, and a stretch of the cleared body |

## Left out

- The JSX rendering and every component it uses are not part of this model. That covers the drawer, header, menu, SEO, share buttons, comments, footer, `renderHeader` and the markdown renderer. `renderHTML` is left out too.
- `AuthorModel.getAuthor` is not part of this model. The author directory and its fallback are outside the template's own code.
- The GraphQL `pageQuery` is not modelled. The records it yields are parameters (`Post`, `Neighbour`).
- The `setTimeout` and `window.scroll` in `handlePageChange` are left out. They are timer and browser effects.
- `evt.stopPropagation()` in the click handlers is left out. It is a DOM effect.
- `process.browser` and `location.search` become the `search` parameter.
- React's `setState` is modelled as an immediate field update. Batching and asynchrony are not modelled.
- The pagination control decides which page numbers it offers, and that decision is not modelled. `PageCount` is the number of pages that covers all segments.
- Numbers are integers or NaN. Fractions, Infinity, negative zero and the 53-bit precision limit of JavaScript numbers are not modelled. `curPage` is an integer.
- Strings are sequences of characters, not UTF-16 code units. This does not change where lines, blank lines, `&` or `=` fall.
- Post and neighbour fields are texts or missing (`Option<string>`). Truthiness of numbers and booleans is not modelled, and `None` stands for both `null` and `undefined`. The page title writes a missing post title as `null`, the value the page query gives for it. The post's `date`, `author` and `tags` are only passed to components, so they are left out.
- A query parameter named `__proto__` is not modelled. JavaScript treats that key specially when it is assigned on a plain object.
- The `m` and `i` flags of the front-matter pattern are not modelled. They have no effect on this pattern.
