# Headings, slugs and pagination of a personal blog site

This project models the small amount of real logic in a statically rendered blog and project showcase, and proves properties of the model:

- `Headings` (`headings.dfy`) builds the data for a post's table of contents. It has two parts.
  - `generateHeadingSlug` turns a heading into an anchor slug in three steps: lower-case the text, delete every character outside `[\w\s-]`, then replace each run of whitespace with one `-`.
  - `extractHeadings` walks the post's Markdown with the global, multiline pattern `^(#+)\s(.+)$`. For each match it pushes one `{slug, title, level}` record.
  - The walk is modelled the way `exec` runs with `lastIndex`: `MatchAt` is the attempt at one position, `FirstMatch` is one `exec` call, `MatchesFrom` is the sequence of calls. The loop itself is the method `ExtractHeadings`.
  - A line view (`JoinLines`, `HeadingsOfLines`) states what the scan gives for a document made of ordinary lines.
- `Paginator` (`paginator.dfy`): the pager widget. It derives whether its back and next buttons are disabled, and writes the label `current/total`.
- `Pagination` (`pagination.dfy`) holds the arithmetic that both list components repeat:
  - the last page `max(1, ceil(N / P))`;
  - the window `slice((page - 1) * P, P * page)`, with JavaScript `slice` semantics;
  - the two clamped updaters `min(page + 1, maxPage)` and `max(page - 1, 1)`.
- `BlogPosts` (`blog_posts.dfy`): the blog list. It is a class holding its props and its mutable `currentPage`.
- `ProjectPosts` (`project_posts.dfy`): the project list. When it mounts, it sorts the caller's array in place, newest first, using an insertion sort on an `array`. It then pages through the array the way the blog list does.

Character handling uses the ASCII domain:
- `\s` and the characters `trim` removes are space, tab, line feed, vertical tab, form feed and carriage return.
- `.` is any character other than line feed and carriage return. Multiline `^` and `$` anchor at those two characters.
- `toLowerCase` maps `A`-`Z` only.

Dates are integers (the value of `getTime()`).

The model follows the code as written, including where it differs from what a reader might expect:
- Heading levels are not capped at 6. A heading's level is the length of the whole `#` run.
- Slugs may contain `_`, because `\w` includes it. The alphabet is `a-z`, `0-9`, `_` and `-`.
- `\s` may match a line terminator. So a line made only of `#` and ended by a line feed takes the next line as its title, when that line is not empty (`ExtractionLineFeedTitle`), and the scan is not strictly line by line.
- A `#` run followed by two whitespace characters that are not line terminators and then the end of the line gives an entry whose title and slug are empty (`ExtractionBlankTitle`); with only one such character it gives none (`ExtractionEmptyTitle`).
- Only the project list sorts by date. The blog list shows its posts in the order it is given them.

## Model

| member | source | states |
|---|---|---|
| `Headings.MatchAt` | src/lib/headings.tsx:15 | the pattern tried at one position, with the `m` flag; `MatchAtSound` and `MatchAtComplete` state that it finds exactly the pattern's match there |
| `Headings.FirstMatch` | src/lib/headings.tsx:17-23 | one `exec` call from `lastIndex`; `FirstMatchLeftmost` states that it finds the leftmost match at or after it |
| `Headings.MatchesFrom` | src/lib/headings.tsx:17-24 | the matches the `exec` loop visits, each call starting where the last match ended; `MatchesFromOrdered`, `MatchesFromInBounds` and `MatchesCoverEveryMatch` state their order, bounds and completeness |
| `Headings.HeadingOf` | src/lib/headings.tsx:19-22 | the record pushed for one match: level from group 1, trimmed title from group 2, slug of the title; `HeadingsFromMatches` states its fields |
| `Headings.DocumentHeadings` | src/lib/headings.tsx:10-27 | the records of all the visited matches, in order; `ExtractHeadings` computes it, and `HeadingsFromMatches`, `NoHeadingsIffNoMatch` and `DocumentOfLines` state what it holds |
| `Headings.ExtractHeadings` | src/lib/headings.tsx:10-27 | the `exec` loop returns exactly the records of the matches the scan visits, starting at `lastIndex` 0 (`DocumentHeadings`) |
| `Headings.HeadingsFromMatches` | src/lib/headings.tsx:17-24 | one entry per visited match, in document order, with matches that do not overlap; each match meets every condition of the pattern; the level is the length of the `#` run (at least 1, no upper bound); the title is the trimmed second group and has no whitespace at either end; the slug is the slug of the title |
| `Headings.MatchAtSound` | src/lib/headings.tsx:15 | what the model finds at a position is a match of `^(#+)\s(.+)$` with the `m` flag |
| `Headings.MatchAtComplete` | src/lib/headings.tsx:15 | any match of the pattern at a position is the one the model finds, so the match at a position is unique |
| `Headings.FirstMatchLeftmost` | src/lib/headings.tsx:17-23 | `exec` from `lastIndex` finds the leftmost match at or after it, and reports none only when no position from there on matches |
| `Headings.MatchesFromOrdered` | src/lib/headings.tsx:17-24 | every visited match is the pattern's match at its start, and each ends before the next starts |
| `Headings.MatchesCoverEveryMatch` | src/lib/headings.tsx:17-24 | no match is skipped: every position where the pattern matches is the start of a visited match or lies inside one |
| `Headings.NoHeadingsIffNoMatch` | src/lib/headings.tsx:15-26 | the result is empty exactly when the pattern matches nowhere in the text |
| `Headings.NoHashLineStartNoHeadings` | src/lib/headings.tsx:15 | text in which no line starts with `#` has no headings |
| `Headings.DocumentOfLines` | src/lib/headings.tsx:15-24 | for lines joined by line feeds, where no line is made only of `#`, the headings are those of the heading lines in order: `k` `#`, one whitespace character and at least one more character give `{level k, title trimmed}` |
| `Headings.ExtractionRepeatedTitle` | src/lib/headings.tsx:19-22 | a title that appears twice gives two entries with the same slug; slugs are not made unique |
| `Headings.ExtractionLineFeedTitle` | src/lib/headings.tsx:15 | for a non-empty line `t` (one holding no line terminator), `"#\n" + t` gives one level-1 entry whose second group is `t`, because `\s` matched the line feed |
| `Headings.ExtractionHashTag` | src/lib/headings.tsx:15 | `#` directly followed by a word, as in a tag, gives no entry |
| `Headings.ExtractionEmptyTitle` | src/lib/headings.tsx:15 | a `#` run with exactly one whitespace character (not a line terminator) and then the end of the line gives no entry; the scan goes on with the next line |
| `Headings.ExtractionBlankTitle` | src/lib/headings.tsx:15-22 | a `#` run with two whitespace characters (not line terminators) and then the end of the line gives one entry whose title and slug are empty, because `.+` matches the second whitespace character and `trim` removes it |
| `Headings.ExtractionTitleAndSub` | src/lib/headings.tsx:15-24 | `"# Title\n\nBody\n## Sub"` gives `{slug "title", title "Title", level 1}` and then `{slug "sub", title "Sub", level 2}` |
| `Headings.Slug` | src/lib/headings.tsx:29-34 | the three steps in order; `SlugAlphabet`, `SlugIdempotent`, `SlugIgnoresCase`, `SlugKeepsWordChars` and `SlugOfSpacedHyphen` state its properties |
| `Headings.Lower` | src/lib/headings.tsx:31 | ASCII `toLowerCase`, keeping the length; `LowerAt` states it maps character by character |
| `Headings.StripDisallowed` | src/lib/headings.tsx:32 | the first replacement, never longer than its input; `SlugAlphabet` and `SlugKeepsWordChars` state which characters survive |
| `Headings.CollapseSpaces` | src/lib/headings.tsx:33 | the second replacement, never longer than its input; `CollapseRun` and `CollapseNoSpace` state what it does to whitespace |
| `Headings.SlugAlphabet` | src/lib/headings.tsx:29-34 | a slug consists only of `a-z`, `0-9`, `_` and `-`, and holds no whitespace |
| `Headings.SlugIdempotent` | src/lib/headings.tsx:29-34 | slugging a slug returns it unchanged |
| `Headings.SlugIgnoresCase` | src/lib/headings.tsx:31 | two inputs that differ only in ASCII letter case have the same slug |
| `Headings.CollapseRun` | src/lib/headings.tsx:33 | a maximal whitespace run becomes exactly one `-`, and the text on either side is kept |
| `Headings.CollapseNoSpace` | src/lib/headings.tsx:33 | no whitespace is left after the second replacement |
| `Headings.SlugOfSpacedHyphen` | src/lib/headings.tsx:32-33 | existing hyphens are kept and not merged: when `x` and `y` consist only of `a-z`, `0-9`, `_` and `-`, and `y` is not empty, `x + " - " + y` gives `x + "---" + y`; so `"a - b"` gives `"a---b"` |
| `Headings.SlugKeepsWordChars` | src/lib/headings.tsx:31-33 | a slug is no longer than its input, and its `\w` characters are the input's, lower-cased, in their original order |
| `Headings.LowerAt` | src/lib/headings.tsx:31 | lower-casing maps each character on its own and keeps the length |
| `Headings.Trim` | src/lib/headings.tsx:20 | `trim`, never longer than its input; `TrimIsMiddle` and `TrimOfTrimmed` state its result |
| `Headings.TrimIsMiddle` | src/lib/headings.tsx:20 | the trimmed title is a contiguous part of the second group with only whitespace removed around it, and it neither starts nor ends with whitespace |
| `Headings.TrimOfTrimmed` | src/lib/headings.tsx:20 | trimming text that has no whitespace at its ends changes nothing |
| `Paginator.IsBackDisabled` | src/components/lists/Paginator.tsx:11 | back is disabled on page 1; `Pagination.BackButton` states that this is exactly when prev would change nothing |
| `Paginator.IsNextDisabled` | src/components/lists/Paginator.tsx:12 | next is disabled when the page is the total; `Pagination.NextButton` states that this is exactly when next would change nothing |
| `Paginator.NumberText` | src/components/lists/Paginator.tsx:19 | a page number written in decimal, a non-empty run of digits without a leading zero; `NumberTextValue` states it reads back as the number |
| `Paginator.Label` | src/components/lists/Paginator.tsx:18-20 | `current/total`; `LabelRoundTrip`, `LabelInjective` and `LabelExample` state its properties |
| `Paginator.NumberTextValue` | src/components/lists/Paginator.tsx:19 | a page number written in decimal reads back as the same number |
| `Paginator.LabelRoundTrip` | src/components/lists/Paginator.tsx:18-20 | the label `current/total` reads back as the two page numbers |
| `Paginator.LabelInjective` | src/components/lists/Paginator.tsx:18-20 | two different page states never show the same label |
| `Paginator.LabelExample` | src/components/lists/Paginator.tsx:18-20 | page 1 of 3 reads `1/3` |
| `Pagination.CeilDiv` | src/components/lists/BlogPosts.tsx:22 | `ceil(n / p)` is a number `q` with `n <= q * p`, and `(q - 1) * p < n` when `q > 0` |
| `Pagination.MaxPage` | src/components/lists/BlogPosts.tsx:22 | the last page is at least 1; it is 1 for an empty list; otherwise the first `m - 1` pages do not hold all the items and `m` pages do |
| `Pagination.MaxPageLeast` | src/components/lists/BlogPosts.tsx:22 | the last page is the least page count that holds every item |
| `Pagination.SliceIndex` | src/components/lists/BlogPosts.tsx:17-20 | a `slice` argument is clamped to the list as JavaScript does, negative ones counting back from the end; `WindowContents` and `WindowAt` state what the clamp means for a page |
| `Pagination.Slice` | src/components/lists/BlogPosts.tsx:17-20 | JavaScript `slice` on a list; `WindowContents` and `WindowAt` state what it returns for a page |
| `Pagination.Window` | src/components/lists/BlogPosts.tsx:17-20 | the items of one page; `WindowContents`, `WindowAt`, `WindowNonEmpty`, `WindowPastEnd`, `PagesPrefix` and `PagesCover` state its properties |
| `Pagination.WindowContents` | src/components/lists/BlogPosts.tsx:17-20 | from page 1 on, the window is the items from `(page - 1) * P` up to `page * P`, cut short by the end of the list |
| `Pagination.WindowAt` | src/components/lists/BlogPosts.tsx:17-20 | the window is a contiguous, unreordered run of at most `P` items |
| `Pagination.WindowNonEmpty` | src/components/lists/BlogPosts.tsx:17-22 | a page from 1 to the last one is empty exactly when the list is |
| `Pagination.WindowPastEnd` | src/components/lists/BlogPosts.tsx:17-22 | any page past the last one is empty |
| `Pagination.PagesPrefix` | src/components/lists/BlogPosts.tsx:17-20 | pages 1 to `k`, read in order, are the first `k * P` items |
| `Pagination.PagesCover` | src/components/lists/BlogPosts.tsx:17-22 | pages 1 to the last, read in order, are the whole list |
| `Pagination.TenItemsFourPerPage` | src/components/lists/BlogPosts.tsx:17-22 | ten items four to a page give three pages, holding 4, 4 and 2 items |
| `Pagination.NextPage` | src/components/lists/BlogPosts.tsx:24 | the next updater `min(page + 1, maxPage)`; `NextPageStep`, `RunNexts` and `NextButton` state its properties |
| `Pagination.PrevPage` | src/components/lists/BlogPosts.tsx:25 | the prev updater `max(page - 1, 1)`; `PrevPageStep` and `BackButton` state its properties |
| `Pagination.NextPageStep` | src/components/lists/BlogPosts.tsx:24 | next goes one page on, except on the last page, where it stays; the page stays in range |
| `Pagination.PrevPageStep` | src/components/lists/BlogPosts.tsx:25 | prev goes one page back, except on page 1, where it stays; the page stays in range |
| `Pagination.RunInRange` | src/components/lists/BlogPosts.tsx:15-25 | any sequence of next and prev presses keeps the page between 1 and the last page |
| `Pagination.RunDistance` | src/components/lists/BlogPosts.tsx:24-25 | `k` presses of next and prev, in any order, move the page by at most `k` in total (the per-press fact is `NextPageStep` and `PrevPageStep`) |
| `Pagination.RunNexts` | src/components/lists/BlogPosts.tsx:24 | `k` presses of next reach page `page + k`, or the last page if that comes first |
| `Pagination.BackButton` | src/components/lists/Paginator.tsx:11-17 | with the list's last page as the total, back is disabled exactly when prev would change nothing; when enabled, it goes back exactly one page |
| `Pagination.NextButton` | src/components/lists/Paginator.tsx:12-23 | next is disabled exactly when the next updater would change nothing; when enabled, it goes on exactly one page |
| `Pagination.OnePageBothDisabled` | src/components/lists/Paginator.tsx:11-12 | a list that fits on one page shows both buttons disabled |
| `BlogPosts.LatestBlogPosts.constructor` | src/components/lists/BlogPosts.tsx:10-15 | a mounted list keeps its props and starts on page 1 |
| `BlogPosts.LatestBlogPosts.OnNextPage` | src/components/lists/BlogPosts.tsx:24 | the page becomes `min(page + 1, maxPage)` and stays reachable |
| `BlogPosts.LatestBlogPosts.OnPrevPage` | src/components/lists/BlogPosts.tsx:25 | the page becomes `max(page - 1, 1)` and stays reachable |
| `BlogPosts.LatestBlogPosts.FilteredBlogs` | src/components/lists/BlogPosts.tsx:17-20 | the posts of the current page; `VisibleSlice` and `WithoutPagination` state which they are |
| `BlogPosts.LatestBlogPosts.ShowsEmptyMessage` | src/components/lists/BlogPosts.tsx:30 | the message shows when there are no posts; `EmptyMessageIffEmptyPage` states that this is exactly when the page is empty |
| `BlogPosts.LabelShowsPage` | src/components/lists/BlogPosts.tsx:45-52 | the paginator label, with the last page as the total, reads back as the current page and the last page |
| `BlogPosts.VisibleSlice` | src/components/lists/BlogPosts.tsx:17-20 | the posts shown are at most `numPerPage` consecutive posts, starting at the page's first, in the given order |
| `BlogPosts.EmptyMessageIffEmptyPage` | src/components/lists/BlogPosts.tsx:30-34 | the work-in-progress message (shown when there are no posts) shows exactly when the current page shows nothing |
| `BlogPosts.WithoutPagination` | src/components/lists/BlogPosts.tsx:15-20 | without the paginator, the list shows its first `numPerPage` posts |
| `ProjectPosts.SortNewestFirst` | src/components/lists/ProjectPosts.tsx:21-23 | the array is rearranged in place into non-increasing date order, and holds the same projects |
| `ProjectPosts.Insert` | src/components/lists/ProjectPosts.tsx:21-23 | one insertion step extends the newest-first prefix by one place, keeps the same projects in that prefix and in the whole array, and leaves the rest of the array as it was |
| `ProjectPosts.ProjectList.constructor` | src/components/lists/ProjectPosts.tsx:10-25 | mounting sorts the caller's own array newest first, keeping its projects, and starts on page 1 |
| `ProjectPosts.ProjectList.OnNextPage` | src/components/lists/ProjectPosts.tsx:34 | the page becomes `min(page + 1, maxPage)` and stays reachable |
| `ProjectPosts.ProjectList.OnPrevPage` | src/components/lists/ProjectPosts.tsx:35 | the page becomes `max(page - 1, 1)` and stays reachable |
| `ProjectPosts.ProjectList.FilteredPosts` | src/components/lists/ProjectPosts.tsx:27-30 | the projects of the current page; `VisibleSorted`, `FirstPageNewest` and `WithoutPagination` state which they are |
| `ProjectPosts.ProjectList.ShowsEmptyMessage` | src/components/lists/ProjectPosts.tsx:40 | the message shows when the current page shows nothing; `EmptyMessageIffNoProjects` states that this is exactly when there are no projects |
| `ProjectPosts.LabelShowsPage` | src/components/lists/ProjectPosts.tsx:54-61 | the paginator label, with the last page as the total, reads back as the current page and the last page |
| `ProjectPosts.EmptyMessageIffNoProjects` | src/components/lists/ProjectPosts.tsx:40-44 | the message, shown when the current page is empty, shows exactly when there are no projects |
| `ProjectPosts.VisibleSorted` | src/components/lists/ProjectPosts.tsx:27-30 | every shown project belongs to the list, and the shown projects are newest first |
| `ProjectPosts.FirstPageNewest` | src/components/lists/ProjectPosts.tsx:21-30 | page 1 of a non-empty list starts with a project whose date is the latest |
| `ProjectPosts.WithoutPagination` | src/components/lists/ProjectPosts.tsx:21-30 | without the paginator, the list shows its `numPerPage` newest projects, and none it leaves out is newer |

## Left out

- Reading the file: `ExtractHeadings` takes the document's text, not its path; `fs.readFileSync` is not modelled.
- Unicode: `toLowerCase`, `\s`, `trim` and the line terminators U+2028 and U+2029 are modelled on ASCII only.
- The optional chaining in `generateHeadingSlug` (an `undefined` heading gives `undefined`): slugs are only taken of strings here, as `extractHeadings` always passes one.
- `headingComponentMapping` (src/lib/headings.tsx:36-55): it casts React children to a string, which has no model. It applies the same slug function.
- `Headings.HeadingOf` is total: a match outside the text gives an empty title. The scan never produces such a match (`MatchesFromInBounds`).
- Post loading in `src/lib/blog.ts` and `src/lib/projects.tsx` is not part of this model: the file system, the MDX compiler, front-matter defaults and `Date` parsing.
- Dates are integers. An invalid date (`NaN`) and its effect on the comparator are not modelled.
- The page size must be a positive whole number. A zero or fractional `numPerPage` (which gives `Infinity` or `NaN` arithmetic) and floating-point rounding in `Math.ceil` are not modelled.
- Page numbers are whole numbers. How JavaScript writes fractional or negative numbers is not modelled.
- `BlogPosts.LatestBlogPosts.OnNextPage` and `BlogPosts.LatestBlogPosts.OnPrevPage` require the paginator to be shown, because its buttons are the only callers of the handlers. The same holds for the `ProjectPosts.ProjectList` handlers.
- React: re-renders, props that change after mounting (the page is not re-clamped), and the markup are not modelled. The sort runs once, when the list mounts; the component repeats it on every render.
- `ProjectPosts.SortNewestFirst` and `ProjectPosts.ProjectList.constructor`: the order of projects that share a date is not stated. A JavaScript sort keeps them in input order.
- The `fullWidth` prop of the project list and the links of each entry only affect presentation.
