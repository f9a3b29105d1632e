# KOICA job-posting monitor, modelled in Dafny

`monitor.py` polls the KOICA career site once per invocation. It fetches the
listing page, extracts post identifiers (`empmnPblancSn=<digits>`), dedupes them,
sorts them descending and keeps 80. Of the first 30 posts, it opens the detail page
of each one it has not seen before and tests it for a fixed list of Korean keywords.
It records every identifier whose page it could fetch, and prints `FOUND=1` when
at least one new page matched (`FOUND=0` otherwise).

This project models the deterministic part of that pipeline, with the network
and the files removed:

- `StringOrder` (string_order.dfy): Python's `str` ordering and
  `sorted(set(xs), reverse=True)` built on it.
- `Extractor` (extractor.dfy): the `re.findall` scan as a recursive function over
  the page text; the identifier list; the detail-URL template; and
  `ExtractPosts`, the building loop of `extract_posts`.
- `Matcher` (matcher.dfy): `keyword_match` and the `KEYWORDS` list.
- `Runner` (runner.dfy): the per-post loop of `main` (`CheckPosts`), proved
  against a fold (`Visit`) and against closed forms (`Added`, `Hits`). `RunMonitor`
  goes from the listing text to the printed marker.
- `Wrappers` (wrappers.dfy): `Option`, used for each detail fetch. `None` means
  the fetch raised.

Inputs that come from I/O become parameters: the listing page text; the seen set
`load_seen` returned; one fetch outcome per post, in post order.

What is proved:

- The scanner is exact. An identifier is returned iff it is the maximal digit run
  right after some `empmnPblancSn=` in the page. The marker cannot overlap
  itself, so `findall`'s skip-after-match loses nothing.
- The identifiers are strictly descending in string order, and hence distinct.
  There are as many as there are distinct matches, capped at 80. Any identifier
  dropped by the cap is smaller than every identifier kept. A strictly
  descending list is determined by its elements, so the model's list is *the*
  sorted order.
- Each URL is the template with its identifier substituted, and the identifier
  can be read back out of it.
- `keyword_match` holds iff some keyword occurs in the lower-cased text.
- After the loop, the seen set is the old set plus the identifiers of those of the
  first 30 posts that were new and fetched successfully. The new matches are those
  posts, in order, whose page matched. The marker is `FOUND=1` exactly when there
  is a new match.

**Sort order.** The code sorts identifiers as strings, so `"9"` comes before
`"10"` (`NineBeforeTen`). "Newest first by value" is therefore guaranteed when
every identifier has the same number of digits (`SameLengthOrder`). The model follows the code.

## Model

| member | source | states |
|---|---|---|
| `StringOrder.Less` | monitor.py:30 | Python's string `<`, which `sorted` uses: `a` is below `b` iff at the first position where they differ `a` has ended or has the smaller code point |
| `StringOrder.LessTransitive` | monitor.py:30 | Python's string `<`, which `sorted` uses, is transitive |
| `StringOrder.LessTotal` | monitor.py:30 | any two different strings are ordered one way or the other, so the descending sort is well defined |
| `StringOrder.LessIrreflexive` | monitor.py:30 | no string is below itself |
| `StringOrder.SortedDistinctDesc` | monitor.py:30 | `sorted(set(xs), reverse=True)` is strictly descending and has exactly the elements of `xs` |
| `StringOrder.DescendingIsDistinct` | monitor.py:30 | a strictly descending list has no repeats (the `set` dedupe) |
| `StringOrder.DescendingUnique` | monitor.py:30 | two strictly descending lists with the same elements are equal, so the result is the one sorted order of the set |
| `StringOrder.DistinctCard` | monitor.py:30 | a list without repeats has as many entries as its set of elements |
| `Extractor.DigitRun` | monitor.py:30 | greedy `\d+`: the result is an all-digit prefix, and the next character (if any) is not a digit |
| `Extractor.Occurs` | monitor.py:30 | the pattern `empmnPblancSn=(\d+)` matches at position `i`: the marker sits there and is followed by at least one digit (a definition; its meaning is established by `FindAllSound` and `FindAllComplete`) |
| `Extractor.IdAt` | monitor.py:30 | the group captured at a match is non-empty, all digits, sits right after the marker and is maximal |
| `Extractor.FindAll` | monitor.py:30 | every identifier `re.findall` returns is a non-empty digit string |
| `Extractor.FindAllHead` | monitor.py:30 | a match at the start of the text is returned first, and the scan resumes right after it |
| `Extractor.FindAllNext` | monitor.py:30 | with no match at the start, the scan moves one character on |
| `Extractor.ResumeBefore` | monitor.py:30 | every match other than one at position 0 lies at or after the point where the scan resumes |
| `Extractor.NoOverlap` | monitor.py:30 | no match starts inside an earlier match (the marker's only `=` is its last character, and it does not start with a digit) |
| `Extractor.FindAllSound` | monitor.py:30 | everything the scan returns is the group of some match in the page |
| `Extractor.FindAllComplete` | monitor.py:30 | the group of every match in the page is returned by the scan |
| `Extractor.Identifiers` | monitor.py:30 | `sns` is strictly descending, all non-empty digit strings, with exactly the elements found by the scan |
| `Extractor.IdentifiersExact` | monitor.py:30 | `x` is in `sns` iff `x` is the maximal digit run after some occurrence of the marker |
| `Extractor.NoMatchNoPosts` | monitor.py:30-36 | a page with no match yields an empty post list, not an error |
| `Extractor.Posts` | monitor.py:30-36 | what `extract_posts` returns: one post per identifier of `sns[:80]`, in order, each `MakePost` of its identifier |
| `Extractor.PostsCount` | monitor.py:30-33 | there are `min(80, number of distinct identifiers in the page)` posts |
| `Extractor.PostsDescending` | monitor.py:30-33 | the posts' identifiers are strictly descending in string order and pairwise distinct |
| `Extractor.PostsKeepLargest` | monitor.py:30-33 | an identifier found in the page but dropped by the cap is below every kept one: the kept ones are the first of the descending order |
| `Extractor.PostsOccur` | monitor.py:30-35 | each post's `sn` is the digit run after a marker in the page, and its `url` is the template with that `sn` |
| `Extractor.ExtractPosts` | monitor.py:32-36 | the loop appending `{"sn", "url"}` for each of `sns[:80]` returns exactly `Posts(html)` |
| `Extractor.MakePost` | monitor.py:34-35 | a post carries its identifier, and its URL reads back to that identifier |
| `Extractor.DetailUrl` | monitor.py:34 | the f-string with `sn` substituted; reading the identifier back out of it gives `sn` |
| `Extractor.UrlInjective` | monitor.py:34 | two detail URLs are equal iff their identifiers are |
| `Extractor.SameLengthOrder` | monitor.py:30 | for digit strings of the same length, string order agrees with numeric order |
| `Extractor.NineBeforeTen` | monitor.py:30 | sorting `["10", "9", "10"]` gives `["9", "10"]` although 9 < 10: the order is textual, not numeric |
| `Matcher.IsSubstring` | monitor.py:40 | the scan is true iff `k` occurs at some position of `t` (Python's `in` on strings) |
| `Matcher.KeywordsAreLower` | monitor.py:11 | every keyword is non-empty and unchanged by lowering |
| `Matcher.LowerStr` | monitor.py:39 | `str.lower` on ASCII: same length, only capitals change, and no capital is left |
| `Matcher.KeywordMatch` | monitor.py:38-40 | `keyword_match(t)` iff some keyword occurs in `t.lower()` |
| `Matcher.KeywordMatchCaseInsensitive` | monitor.py:38-40 | texts that lower to the same string get the same answer |
| `Matcher.KeywordMatchEmpty` | monitor.py:38-40 | the empty text matches no keyword |
| `Matcher.KeywordMatchVerbatim` | monitor.py:38-40 | a text containing a keyword as written matches |
| `Runner.Window` | monitor.py:61 | `posts[:30]`: the first `min(30, len)` elements |
| `Runner.Step` | monitor.py:62-76 | one loop iteration: the identifier is added iff it was new and the fetch succeeded; the match list grows by at most the post; a matched post is also marked seen |
| `Runner.StepMiss` | monitor.py:62-76 | a post whose page was fetched and does not match ends up seen and adds no match |
| `Runner.Visit` | monitor.py:61-76 | the loop as a fold: the seen set only grows, and only by identifiers of the visited posts; every match is one of the visited posts |
| `Runner.VisitSnoc` | monitor.py:61-76 | visiting one more post is one more iteration of the loop body |
| `Runner.VisitSeen` | monitor.py:61-76 | after the loop, seen = old seen ∪ the identifiers of visited posts that were not seen and whose fetch succeeded |
| `Runner.AddedLast` | monitor.py:61-76 | the identifiers one more post adds: its own, exactly when it was new and fetched |
| `Runner.VisitMatches` | monitor.py:61-75 | with distinct identifiers, the new matches are the in-order posts that were not seen, were fetched, and whose page matches |
| `Runner.CheckPosts` | monitor.py:57-76 | the loop over `posts[:30]` (with its two `continue`s) computes the fold `Visit`, the closed-form seen set, and (for distinct identifiers) the closed-form match list |
| `Runner.RunMonitor` | monitor.py:53-91 | from the listing text: the saved seen set and the new matches in closed form; the marker is `FOUND=1` iff there is a new match and `FOUND=0` iff there is none |
| `Runner.SeenOnlyGrows` | monitor.py:57-76 | the old seen set is contained in the new one |
| `Runner.FailedStaysUnseen` | monitor.py:66-70 | a new post whose detail fetch failed is not in the new seen set |
| `Runner.UncheckedNeverAdded` | monitor.py:61 | a new post beyond index 30 is not in the new seen set |
| `Runner.AllSeenNothingNew` | monitor.py:61-64 | if every visited post was seen before, the seen set is unchanged and there are no matches |
| `Runner.FindAllListing` | monitor.py:30 | a page listing marked identifiers in some order is scanned back to exactly those identifiers, in that order |
| `Runner.ScenarioIdentifiers` | monitor.py:30 | a listing with identifiers 5, 3, 9 yields `["9", "5", "3"]` |
| `Runner.IdentifiersOfScan` | monitor.py:30 | any page whose scan finds 5, 3, 9 has the sorted identifiers `["9", "5", "3"]` |
| `Runner.ScenarioPosts` | monitor.py:30-36 | the posts of that listing are those of 9, 5 and 3, in that order |
| `Runner.PostsOfIdentifiers` | monitor.py:30-36 | any page with identifiers 9, 5, 3 gives the posts of 9, 5 and 3 |
| `Runner.VisitThree` | monitor.py:61-76 | three new posts, only the first with a matching page: all three are seen, only the first is a match |
| `Runner.ScenarioNewMatch` | monitor.py:53-91 | empty seen set, listing 5, 3, 9, only the page of 9 has "모집": seen becomes {3, 5, 9} and the only new match is post 9 |
| `Runner.NewMatchOfPosts` | monitor.py:61-76 | on the posts of 9, 5, 3 with only the page of 9 matching: seen becomes {3, 5, 9} and the only new match is post 9 |

## Left out

- `fetch_html` (monitor.py:13-20) is left out. It is an HTTP GET with a fixed User-Agent, a 30-second timeout and TLS verification disabled. The listing page enters as text, and each detail fetch as an `Option<string>`.
- The listing-fetch failure path (monitor.py:54, 93-98) is left out: it aborts the run before any state exists.
- `load_seen` and `save_seen` (monitor.py:42-51) are left out: they are file and JSON I/O. The loaded set is an input and the saved set an output. `save_seen` writes `sorted(seen)` in ascending order; that order is not modelled.
- Writing `issue_body.md` (monitor.py:82-87) is left out: it is file output. The printed line (monitor.py:89-91) is returned as the string `marker`.
- `sys.exit` and the `ERROR:` line on standard error (monitor.py:93-98) are left out: they are process plumbing.
- Unicode is simplified. `str.lower` is modelled on ASCII letters only, and `\d` matches ASCII digits only. Python also lowers other cased letters (sometimes changing the length), and `\d` also matches non-ASCII digits. The keywords are Hangul, which lowering leaves unchanged.
- Fetch outcomes are fixed per post position before the loop starts. A real re-fetch of the same URL could answer differently; that makes no difference once identifiers are distinct, as `extract_posts` guarantees.
- Runner.VisitMatches: states the closed form only for posts with distinct identifiers. With repeated identifiers the match list still equals the fold `Visit` (`CheckPosts`), but "already seen" then also depends on earlier posts of the same run.
