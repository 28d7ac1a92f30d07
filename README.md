# Item search and result pager of the `.id` command

A Dafny model of the `.id` command of the Discord bot in `bot.py`. The
command takes a query of at least three characters and searches a plain-text
item catalog for it. It then shows the matching items twenty to a page, in a
message with a previous and a next button.

The model has four modules:

- `Text` covers the string handling the search relies on. That is Python's
  whitespace table (shared by `\s` and `str.strip()`), `str.strip()`,
  ASCII `str.lower()`, substring search, `int()` on digit strings and
  `str()` on numbers.
- `Catalog` covers `search_items`:
  - the split of the catalog text at runs of 50 or more dashes;
  - the two case-insensitive regular expressions `Name:\s*(.+)` and
    `Item ID:\s*(\d+)`, written out with their greedy matching and
    backtracking and the leftmost-match rule of `re.search`;
  - the parse of one block into a name and an id;
  - the keyword filter and the `"name - id"` entries.

  The search loop is the method `SearchItems`. It is proved equal to the
  specification function `Search`, and lemmas about `Search` give its
  membership, order and length properties.
- `Pagination` covers `PaginationView` as a class. The page number and the
  two buttons' disabled flags are fields its methods update.
  - `create_embed` is a function of the state. It uses Python's slice
    semantics, since the page number becomes negative when
    `previous_page` runs on page 0. It uses floor division for the page
    count.
  - Clicks by anyone other than the requesting user are refused and change
    nothing.
  - Lemmas show that pages partition the numbered result list. They also
    show that clicking only enabled buttons never leaves the range of
    pages.
- `Commands` covers `search_item`. It checks the length, runs the search,
  reports that nothing was found or creates the pager, and returns the
  first page.

The catalog text and the users' identities are parameters. The model reads
no file and has no Discord connection.

In the code, page numbering continues across pages: page `k` lists results
`20k + 1 .. 20k + 20`. The comment at `bot.py:117` speaks of 40 per page and
numbering "per page". The model follows the code.

## Model

| member | source | states |
|---|---|---|
| Text.Strip | bot.py:55 | the result is a slice of the input whose cut-off prefix and suffix are all whitespace; a non-empty result starts and ends with a non-whitespace character |
| Text.IsSpace | bot.py:51-55 | the whitespace of `\s` and `str.strip()` includes space, tab, newline and carriage return, and no whitespace character is a digit, a dash or an ASCII capital |
| Text.Lower | bot.py:59 | `str.lower()` keeps the length, leaves no ASCII capital, moves each capital to its small letter and leaves every other character as it is |
| Text.Contains | bot.py:59 | `k in t` holds exactly when `k` occurs at some position of `t` |
| Text.FirstSome | bot.py:51-52 | the leftmost success among a sequence of match attempts, and no success before it; none when every attempt fails |
| Text.NatToDecimal | bot.py:60 | `str(n)` is a non-empty digit string that starts with `0` exactly when `n` is 0 and has no leading zero otherwise |
| Text.DecimalValue | bot.py:56 | `int()` of a digit string is 0 exactly when every digit is `0` |
| Text.LeadingZero | bot.py:56 | a leading zero does not change the value `int()` reads from a digit string |
| Text.DecimalRoundTrip | bot.py:56-60 | reading back the formatted id gives the id: `int(str(n)) == n` |
| Text.DecimalCanonical | bot.py:56-60 | formatting the number read from a digit string without leading zeros gives that string back |
| Catalog.NextSeparator | bot.py:48 | the leftmost start of a run of at least 50 dashes at or after `i`, or the end of the text |
| Catalog.Blocks | bot.py:48 | `re.split(r"-{50,}", s)` always yields at least one block |
| Catalog.FirstBlock | bot.py:48 | the split yields the whole text as its only block exactly when the text holds no separator; otherwise the first block is the text before the leftmost separator, and no separator starts inside it |
| Catalog.BlocksHaveNoSeparator | bot.py:48 | no block contains a run of 50 or more dashes |
| Catalog.Separators | bot.py:48 | every piece the split cuts out is a run of at least 50 dashes |
| Catalog.SplitRoundTrip | bot.py:48 | there is one separator between consecutive blocks, and joining the blocks with the separators gives back the text |
| Catalog.InnerBlocksNonEmpty | bot.py:48 | a block between two separators is never empty, because each separator takes the whole dash run |
| Catalog.BlocksEndWithoutDash | bot.py:48 | the greedy separator takes the whole dash run: a block followed by a separator never ends with a dash |
| Catalog.BlocksStartWithoutDash | bot.py:48 | the greedy separator takes the whole dash run: a block after a separator never starts with a dash |
| Catalog.CaptureStart | bot.py:51 | where `(.+)` starts after backtracking `\s*`: the last position, up to and including the first character after the whitespace run, that exists and is not a newline; none exactly when only newlines follow the label up to the end of the text |
| Catalog.NameMatchAt | bot.py:51 | a name match at `p` means the label is there, and the capture runs from where `(.+)` starts after the backtracking `\s*` to the end of that line; the capture is non-empty and free of newlines |
| Catalog.NameMatchAtFails | bot.py:51 | the name pattern fails at `p` exactly when the label is not there or only newlines follow it |
| Catalog.IdMatchAt | bot.py:52 | an id match at `p` means the label is there, and the capture is the maximal non-empty digit run after the whitespace that follows it; with the label present, the match fails only when no digit follows the whitespace |
| Catalog.FindNameLeftmost | bot.py:51 | a name found by `re.search` is the capture at the leftmost position where the name pattern matches |
| Catalog.FindNameAbsent | bot.py:51 | no name is found exactly when the name pattern matches at no position |
| Catalog.FindIdLeftmost | bot.py:52 | an id found by `re.search` is the capture at the leftmost position where the id pattern matches |
| Catalog.FindIdAbsent | bot.py:52 | no id is found exactly when the id pattern matches at no position |
| Catalog.FindName | bot.py:51 | a name found by `re.search` is a non-empty piece of one line |
| Catalog.FindId | bot.py:52 | an id found by `re.search` is a non-empty string of ASCII digits |
| Catalog.ParseBlock | bot.py:54-56 | a block gives an item exactly when both patterns match it; the item's name lies on one line and neither starts nor ends with whitespace |
| Catalog.ParseBlockMeaning | bot.py:54-56 | the item's name is the captured name with leading and trailing whitespace cut off, and its id is the value of the captured digits |
| Catalog.KeywordInMeaning | bot.py:59 | `keyword.lower() in name.lower()` holds exactly when the keyword occurs at some position of the name, compared character by character ignoring case |
| Catalog.Entry | bot.py:60 | the entry is the name, then `" - "`, then a digit string that reads back as the id and has no leading zero unless it is `0` itself |
| Catalog.Matches | bot.py:50-62 | the loop over a list of blocks never gives more results than blocks |
| Catalog.Search | bot.py:48-62 | `search_items` on a text never gives more results than the text has blocks |
| Catalog.OneBlockAtMostOne | bot.py:54-60 | one block yields at most one result; it yields one exactly when it has both labels and its stripped name contains the keyword ignoring case, and that result is the block's `"name - id"` entry |
| Catalog.MatchesAppend | bot.py:50-60 | results keep block order: the results of two block lists in sequence are the first list's results followed by the second's |
| Catalog.MatchesMembership | bot.py:50-62 | a string is among the results exactly when some block has both labels, its name contains the keyword, and the string is that block's entry |
| Catalog.SearchItems | bot.py:43-62 | the loop over the split blocks returns `Search(data, keyword)`, and no more results than blocks |
| Pagination.TotalPages | bot.py:120 | `(n - 1) // per_page + 1` is the least page count whose pages hold `n` results, and 0 when there are none |
| Pagination.PySlice | bot.py:110 | a Python slice is no longer than the sequence or than the distance between its bounds; with bounds that are not negative it is the stretch between them, clamped to the length |
| Pagination.Numbered | bot.py:117-118 | the numbered list has every result once, in order, result `i` carrying number `i + 1` |
| Pagination.Window | bot.py:108-118 | a window holds at most `size` lines, numbered on from `start + 1`; from a start that is not negative, line `i` is result `start + i` |
| Pagination.PageEntries | bot.py:108-118 | a page holds at most `per_page` lines, whatever the page number, numbered on from `page * per_page + 1` |
| Pagination.WindowIsSliceOfNumbering | bot.py:108-118 | a window starting at a non-negative position is the matching stretch of the globally numbered results |
| Pagination.PageIsSliceOfNumbering | bot.py:108-118 | page `k >= 0` is results `k * per_page + 1 .. (k + 1) * per_page` of the numbered list, clipped to its length |
| Pagination.PageNonEmpty | bot.py:108-110 | a page with a non-negative number has lines exactly when its first result exists |
| Pagination.PageMinusOneEmpty | bot.py:95-110 | page -1, reached by going back from page 0, lists nothing, since its slice ends at position 0 |
| Pagination.AllPagesPrefix | bot.py:117-118 | pages `0 .. k - 1` shown one after another are a prefix of the numbered list, with nothing missing or repeated |
| Pagination.PagesCoverResults | bot.py:117-120 | pages `0 .. total_pages - 1` together show every result exactly once, numbered `1 .. len(results)` |
| Pagination.ButtonsMatchNeighbours | bot.py:86-88 | on a page in range, each button is enabled exactly when the page it leads to is in range |
| Pagination.PageWithinTotal | bot.py:120-125 | on a page in range, the footer's `current_page + 1` lies between 1 and the page count |
| Pagination.Turn | bot.py:95-105 | a click by anyone but the author leaves the page; the author's click moves it by one, forward exactly for next and back exactly for previous |
| Pagination.EnabledClicksStayInRange | bot.py:86-105 | a run of clicks on enabled buttons, starting in range, ends in range |
| Pagination.SessionStaysInRange | bot.py:74-105 | a pager over a non-empty result list, clicked only on enabled buttons, stays on a page that exists and never shows a page number above the total |
| Pagination.PaginationView.constructor | bot.py:68-84 | stores the results, keyword, author and page size, starts on page 0 with the buttons set by `update_buttons`, and is on a valid page exactly when there are results |
| Pagination.PaginationView.UpdateButtons | bot.py:86-88 | previous is disabled exactly on page 0; next is disabled exactly when the next page would start past the results |
| Pagination.PaginationView.CreateEmbed | bot.py:107-129 | fails exactly when `per_page` is 0; otherwise lists the page's entries, at most `per_page` lines numbered from `current_page * per_page + 1`, with footer `current_page + 1` over the page count, and a non-empty page within the total when the page is in range |
| Pagination.PaginationView.UpdateMessage | bot.py:90-93 | renders the page and then refreshes the buttons; when rendering fails nothing changes |
| Pagination.PaginationView.PreviousPage | bot.py:95-99 | someone other than the author is refused and nothing changes; the author moves back one page and gets the new page with fresh buttons, or, when rendering fails, a failure with the buttons left as they were; from a valid page with previous enabled the new page is valid |
| Pagination.PaginationView.NextPage | bot.py:101-105 | someone other than the author is refused and nothing changes; the author moves on one page and gets the new page with fresh buttons, or, when rendering fails, a failure with the buttons left as they were; from a valid page with next enabled the new page is valid |
| Commands.SearchItem | bot.py:131-144 | queries under three characters are refused; otherwise an empty search reports no items for the query, and results give a new pager over exactly those results on page 0 together with its first page |

## Left out

- Reading `items.dat` is not modelled (bot.py:38-46). The catalog text is a parameter, so the missing-file answer (bot.py:38-40) is left out, and so is the `except` branch (bot.py:63-65) for I/O and decoding errors.
- Catalog.SearchItems: CPython's limit on the digits of an integer string (4300 by default, from 3.11 and from the 2022 security releases of 3.7 to 3.10, configurable) is not modelled. Over that limit `int()` at bot.py:56 raises `ValueError`, and the `except` branch (bot.py:63-65) then returns no results for the whole search; the model reads the id and keeps the other blocks' entries. The limit depends on the interpreter version and its settings, so the model has no constant for it.
- Discord plumbing is not modelled: the embed title and colour, the footer's author name and avatar, the view's 60-second timeout, `add_item`, the interaction responses and `ctx.send`.
- The footer's timestamp (`datetime.now()`, bot.py:121) is not modelled, because it reads the clock.
- The page's lines are kept as (number, item) pairs. Their join into one `"\n"`-separated description string is not modelled.
- The rest of `bot.py` is not modelled: the start-up hook, command sync, the translate commands and `bot.run`.
- Text.Lower: `str.lower()` and `re.IGNORECASE` are modelled for ASCII letters only. Unicode case mappings are not modelled, such as the Kelvin sign matching `k` or U+0130 and U+0131 around `i`.
- Catalog.IdMatchAt: `\d` and `int()` accept ASCII digits only. Python also accepts other Unicode decimal digits.
- Pagination.PaginationView: `per_page` is a natural number. A negative page size, which the default of 20 never produces, is not modelled.
- Pagination.PaginationView.CreateEmbed: a page size of 0 yields no embed. That stands for the `ZeroDivisionError` that `create_embed` raises at bot.py:120.
