# kayak_scraper, modelled in Dafny

`kayak_scraper.py` walks day offsets 99 to 159. For each offset it fetches the
Kayak results page for direct LAX-ATL flights on that date and appends what it
finds to the table in `db.csv`.

A page either has offer dropdowns or it has none:

- **No dropdowns.** The page is tagged `RECAPTCHA` when it holds the phrase
  "real KAYAK user", and `DROPDOWNS MISSING` otherwise. One error row carrying
  the tag is appended. A `DROPDOWNS MISSING` page is also saved to
  `no_dropdowns.html`. A `RECAPTCHA` page ends the loop after its row is
  written.
- **Dropdowns.** Each dropdown text is normalised by a fixed chain of
  `strip`/`replace` calls. It is then split into a price and a booking-site
  label by one of three layouts: `$`, `€`, or no currency glyph. The script
  builds one row per dropdown from:
  - the flags (only the first offer is the best flight);
  - the departure and arrival times;
  - the carrier names, with empty strings removed and every second name kept;
  - the clock reading, the date, the route and the address.

The model is built from the page texts rather than from HTML. A page is its
response text plus the texts of its dropdown divs, its departure and arrival
time spans, and its `bottom` divs.

The modules are:

- `Results` (`results.dfy`): `Option`, `Result` and `Crash`. An `Err` stands
  for a Python exception, which ends the script; `Crash` names the two the
  per-page code can raise (a failed letter search, and `pd.DataFrame` given
  columns of different lengths).
- `PyStr` (`pystr.dfy`): the Python string operations the code uses, with
  Python's semantics:
  - `strip(chars)` takes a set of characters, not a phrase;
  - `strip()` removes the `isspace` characters;
  - `replace(pat, "")` removes occurrences left to right, without overlap;
  - `in` is substring search;
  - `split(sep)` splits on a separator;
  - the search for `[^\W\d]`.
- `Dropdown` (`dropdown.dfy`):
  - the normalisation chain, as a sequence of steps;
  - the three layouts;
  - the `"View Deal"` cut;
  - the dropdown loop, as a method with a `for` loop.
- `Columns` (`columns.dfy`):
  - the `is_best_flight` list;
  - the carrier clean-up, including its in-place `while '' in carrier` loop.
- `Page` (`page.dfy`):
  - the block-page test;
  - the error row;
  - `pd.concat`;
  - the rows of a page with dropdowns, with `ScrapePage` as the imperative
    version proved equal to the functional one.
- `Harvest` (`harvest.dfy`):
  - the files as a `Store` class whose `Read`/`Write` methods stand for
    `pd.read_csv` and `write_csv`;
  - one loop iteration (`Iterate`);
  - the `for num in range(99, 160)` loop (`Harvest`). It is proved equal to
    `Run`, a functional account of the loop, and `Run`'s properties are proved
    as lemmas.

Two behaviours of the code that the model keeps:

- `strip("Vedi offerta")` removes any of the letters `V e d i o f r t a` and
  the space from both ends of the text, so it can also eat the ends of a
  booking-site label.
- In the `$` layout, `pretty[1:k]` is empty when the first letter sits at
  index 0.

## Model

| member | source | states |
|---|---|---|
| `PyStr.LStripShape` | kayak_scraper.py:111 | `lstrip(chars)` removes the longest prefix made of characters of the set, and nothing else |
| `PyStr.RStripShape` | kayak_scraper.py:111 | `rstrip(chars)` removes the longest suffix made of characters of the set, and nothing else |
| `PyStr.StripShape` | kayak_scraper.py:111-113 | `strip` leaves a slice of its input. Everything before and after the slice belongs to the stripped set, and the slice's own first and last characters do not |
| `PyStr.StripKeeps` | kayak_scraper.py:111-113 | `strip` keeps every occurrence of a character outside the stripped set |
| `PyStr.RemoveAllKeeps` | kayak_scraper.py:111-113 | `replace(pat, "")` keeps every occurrence of a character that `pat` does not contain |
| `PyStr.RemoveAllChar` | kayak_scraper.py:113 | `replace("\n", "")` leaves no newline at all |
| `PyStr.FindFromSpec` | kayak_scraper.py:83 | the substring search from index `i` answers the first occurrence at or after `i`, or None when there is none |
| `PyStr.FindSpec` | kayak_scraper.py:123-125 | `find` answers the first occurrence of the separator, or None when it occurs nowhere |
| `PyStr.ContainsSpec` | kayak_scraper.py:83 | Python's `sub in s` holds exactly when `sub` occurs at some index of `s` |
| `PyStr.ContainsChar` | kayak_scraper.py:115-122 | for a one-character needle such as `"$"` or `"€"`, `in` is plain membership |
| `PyStr.Split` | kayak_scraper.py:123-130 | a split always has at least one part, so `[0]` never fails |
| `PyStr.SplitCount` | kayak_scraper.py:123-125 | a split has a second part exactly when the separator occurs |
| `PyStr.SplitHead` | kayak_scraper.py:130 | the first part of a split is a prefix of the text that holds no separator, and it ends where the first separator starts or at the end of the text |
| `PyStr.SplitJoin` | kayak_scraper.py:123-125 | joining the parts of a split with the same separator gives the text back |
| `PyStr.RemoveAllIsJoinOfSplit` | kayak_scraper.py:128 | `replace(pat, "")` equals `"".join(s.split(pat))` |
| `PyStr.SearchLetterFromSpec` | kayak_scraper.py:116 | the `[^\W\d]` search answers the first letter-like character at or after `i`, or None when there is none |
| `Dropdown.ApplyKeeps` | kayak_scraper.py:111-113 | a chain of calls none of which can delete `c` keeps every occurrence of `c` |
| `Dropdown.NormalizeNoNewline` | kayak_scraper.py:111-113 | the normalised text `pretty` holds no newline anywhere |
| `Dropdown.NormalizeKeepsGlyphs` | kayak_scraper.py:111-113 | every `€` and every `$` of the raw dropdown text survives into `pretty`, as often as it occurred |
| `Dropdown.NormalizeEuroSplits` | kayak_scraper.py:122-125 | when the raw text holds a `€`, `pretty.split("€")` has at least two parts, so the `[1]` access cannot fail |
| `Dropdown.DollarSplitSpec` | kayak_scraper.py:115-120 | with `k` the first `[^\W\d]` index: the `$` layout fails exactly when `pretty` has no such character; otherwise website is `pretty[k..]` and price is `pretty[1:k]`, which holds no such character; price followed by website is `pretty[1..]` when the glyph is not itself letter-like |
| `Dropdown.EuroSplitSpec` | kayak_scraper.py:122-125 | with `i` the first `€`: price is the whitespace-trimmed text before it, and website is exactly the text between it and the next `€` (or the end) |
| `Dropdown.PlainSplitSpec` | kayak_scraper.py:126-128 | without a glyph, price is `"No price"` and website is `pretty` cut at every `"Info"` and glued back |
| `Dropdown.CutViewDealSpec` | kayak_scraper.py:130 | the cut label is the prefix of the label before its first `"View Deal"` and holds no `"View Deal"` |
| `Dropdown.SplitDropdownSpec` | kayak_scraper.py:110-131 | a dropdown fails only in the `$` layout, exactly when its `pretty` has no letter-like character, and then with that error. A `€` dropdown never fails. A glyph-less one is priced `"No price"`. A `$` price holds no letter-like character. No label holds `"View Deal"` |
| `Dropdown.SplitAll` | kayak_scraper.py:108-131 | the dropdown loop succeeds exactly when every dropdown does. It then has one price and one website entry per dropdown, in dropdown order, and no website holds `"View Deal"`. Otherwise it fails with the error of its first failing dropdown |
| `Columns.BestFlags` | kayak_scraper.py:133-134 | one flag per dropdown, and exactly one is set: the one at index 0 |
| `Columns.NonEmptySpec` | kayak_scraper.py:140-141 | filtering out `''` leaves no `''` and keeps every other string as often as it occurred |
| `Columns.NonEmptyConcat` | kayak_scraper.py:140-141 | the filter distributes over concatenation, so it keeps relative order |
| `Columns.NonEmptyFixed` | kayak_scraper.py:140-141 | a list without `''` passes the filter unchanged |
| `Columns.FirstIndex` | kayak_scraper.py:141 | `list.remove('')` deletes the first `''` of the list |
| `Columns.EveryOtherSpec` | kayak_scraper.py:142 | `[0::2]` keeps ⌈m/2⌉ entries, and entry `k` of the result is entry `2k` of its input |
| `Columns.CleanCarriers` | kayak_scraper.py:139-142 | the in-place loop that strips the names, removes `''` one at a time and then takes `[0::2]` computes `Carriers` |
| `Columns.CarriersSpec` | kayak_scraper.py:139-142 | the carrier column holds no `''` and has ⌈m/2⌉ entries for the `m` non-empty stripped names. Its `k`-th entry is the `2k`-th of those names |
| `Page.UrlDeterminesDate` | kayak_scraper.py:69 | for a fixed route, equal addresses mean equal dates |
| `Page.ClassifySpec` | kayak_scraper.py:83-87 | a page is tagged `RECAPTCHA` exactly when `"real KAYAK user"` occurs in it, and otherwise `DROPDOWNS MISSING` |
| `Page.ErrorRowSpec` | kayak_scraper.py:94-96 | the error row holds the tag in price, website, is_best_flight, departure, arrival and carrier; the tag can be read back from it; it carries the clock reading, date, route and address |
| `Page.Append` | kayak_scraper.py:99 | `pd.concat([starting_df, df])` keeps the existing rows unchanged and puts the new rows after them |
| `Page.OffersSpec` | kayak_scraper.py:108-131 | the dropdown loop, as a value, fails exactly when some dropdown fails, always with the missing-letter error. Otherwise it holds each dropdown's offer at that dropdown's index |
| `Page.PageRowsSpec` | kayak_scraper.py:133-153 | a page's rows are one per dropdown, in order, with that dropdown's offer and the time and carrier entries at the same index. Only the first row is flagged best. No website holds `"View Deal"` and no carrier is empty. Every row carries the clock reading, date, route and address |
| `Page.PageRowsErrors` | kayak_scraper.py:115-148 | a page with dropdowns fails with the missing letter exactly when one of its `$` dropdowns normalises to a text without a letter-like character. It fails on building the table exactly when every dropdown succeeds but the departure, arrival or carrier column has a different length |
| `Page.ScrapePage` | kayak_scraper.py:107-154 | the imperative page branch (dropdown loop, flags, carrier loop, table) computes `PageRows` |
| `Harvest.PageOutcomeSpec` | kayak_scraper.py:80-156 | an iteration blocks exactly when its page has no dropdowns and holds the marker, and its one row is then the `RECAPTCHA` row. It raises exactly when the page has dropdowns and its rows cannot be built |
| `Harvest.OutcomeAt` | kayak_scraper.py:63-156 | the outcome at each offset is the one its own page yields |
| `Harvest.RunKeepsRows` | kayak_scraper.py:63-105 | the loop never loses a row: the starting table stays a prefix of the final one |
| `Harvest.RunEnd` | kayak_scraper.py:63-105 | the loop completes exactly when no page blocks or raises. Otherwise it stops at the first page that does: as Blocked on a `RECAPTCHA` page, or as Crashed with that page's exception |
| `Harvest.RunLastRows` | kayak_scraper.py:99-105 | when the loop ends Blocked, the blocking page's rows were produced, and if the table file was free the final table ends with them: the break comes after the write |
| `Harvest.RunRows` | kayak_scraper.py:63-105 | every iteration re-reads the table and writes it back with its own rows appended, so the final table is the starting table followed by the rows of every page up to and including the one that ended the loop, in offset order, less the writes lost to a locked file |
| `Harvest.RunDiagnostic` | kayak_scraper.py:81-90 | `no_dropdowns.html` is rewritten for every `DROPDOWNS MISSING` page, so after the loop it holds the last such page among those processed before the end, and it is untouched only when the loop processed none |
| `Harvest.BlockedPageRow` | kayak_scraper.py:80-105 | the page behind a Blocked end had no dropdowns and held the marker, and when its write went through the table ends with its `RECAPTCHA` row |
| `Harvest.Store.Read` | kayak_scraper.py:65 | reading the table returns the stored rows |
| `Harvest.Store.Write` | kayak_scraper.py:17-29 | `write_csv` replaces the table, except that a write to a locked file is lost: the retry branch is never taken |
| `Harvest.Store.WriteDiagnostic` | kayak_scraper.py:89-90 | saving the page text leaves the table unchanged |
| `Harvest.Iterate` | kayak_scraper.py:64-156 | one loop body changes the files and reports an end exactly as `Step` does for that page's outcome |
| `Harvest.Harvest` | kayak_scraper.py:63-105 | the loop over offsets 99 to 159 leaves the files and ends exactly as `Run` says |

## Left out

- The HTTP session, the headers and the cookie, and the fetch itself. Each
  iteration takes its page as an input (`Env.page`).
- BeautifulSoup parsing. A page is given by the texts that `find_all`
  returns, in page order.
- CSV text. `db.csv` is a sequence of rows; column types and pandas'
  reading and writing of dates and timestamps are not modelled. A missing
  `db.csv` is not modelled either.
- The clock, `date.today() + timedelta(num)`, and the rendering of dates and
  timestamps as text. They are taken as strings in `Env`. So `Harvest` does
  not state that the date of offset `num` is today plus `num` days.
- `write_csv`'s console prompt. The model keeps only its effect: with the
  file open elsewhere the write is dropped (`Env.locked`), because the retry
  compares a bound method with a string and never runs.
- Every `print`, and the commented-out `sleep`.
- `PyStr.IsWordChar`: Python's `\w` is modelled for code points below U+0100
  only. Letters and digits of other scripts are left out, because the
  Unicode database is not part of this model.
- `PyStr.IsSpace`: the whitespace set of `str.strip()` is listed by code
  point, and the Unicode database is not consulted.
- `Dropdown.DollarSplitSpec`: the identity `price + website == pretty[1..]`
  is stated only when `pretty[0]` is not letter-like. When it is, Python's
  `pretty[1:0]` is empty and the identity fails.
- `Page.PageRows`: pandas' `DataFrame` refuses columns of unequal lengths.
  This is modelled as the `ColumnsDiffer` exception. No other pandas failure
  is modelled.
- `Harvest.Harvest`: the exception raised by `match.start()` on a failed
  search is modelled as an `End` value (`Crashed`) that ends the loop. No
  stack trace or partial output is modelled.
