# SEC S-1 blank-check company scraper, modelled in Dafny

`fetch_files.py` finds newly registered blank-check companies (SPACs).

1. It reads the Atom feed of recent S-1 filings and collects the filer ids (CIKs) named in the entry links.
2. For each filer it fetches the recent filing history and keeps the filings whose form contains "S-1". For each one it builds a `SPAC` record with a long-form date and a link to the primary document.
3. It downloads each document and keeps it only if it contains the bytes `blank check company`.
4. It reads the company name from the cover-page heading and the ticker from the "under the symbol …" phrasing.
5. It merges these values into one record per filer: the first non-empty value of each field wins.
6. It publishes the records that have both a name and a ticker.

The model follows the script module by module:

| module | models |
|---|---|
| `Text` | the Python string and bytes operations the script uses: `in`, `split('/')`, `split()`, `strip()`, `replace` |
| `Dates` | `strptime('%Y-%m-%d')` followed by `strftime('%B %d, %Y')` |
| `Records` | the `SPAC` dataclass, as a class with mutable fields, and `fetch_filing_document` |
| `Discovery` | `get_ciks_from_xml` |
| `Resolver` | `get_potential_spacs_from_cik` |
| `Classifier` | `is_spac` |
| `Extractor` | `get_name_of_spac` and `get_ticker_of_spac` |
| `Aggregator` | the `__main__` loop |

Everything outside the program is a parameter:

- `history` gives the decoded filing history served at a submissions address.
- `fetch` gives the bytes served at a document link.
- `parse` gives the `<p>` paragraphs of a document.
- The feed is represented by its entry links' `href` values.

The script has no exception handling, so several inputs make it raise and stop the whole run:

- an entry link with fewer than seven `/`-separated segments;
- a filing date that `strptime` rejects.

The model returns `None` in those cases, at each level up to `Aggregator.Run`. One filer's failure is not isolated from the others: the run ends there, as in the code.

The script visits the filer ids in Python's set iteration order, which is unspecified. The model therefore picks the order nondeterministically and returns it as a ghost `order`. The published list is characterised for whatever order was taken.

## Model

| member | source | states |
|---|---|---|
| Discovery.CiksFromHrefs | fetch_files.py:29-32 | fails exactly when some href has no segment 6; otherwise the result is exactly the set of segment 6 (0-based) of each href split on '/' |
| Discovery.CiksAtMostHrefs | fetch_files.py:30-32 | there are never more filer ids than links |
| Discovery.RepeatedHrefCollapses | fetch_files.py:32 | repeating a link that is already in the feed leaves the id set unchanged: duplicates collapse |
| Text.Split | fetch_files.py:30 | `split(sep)` gives at least one part, no part holds the separator, and joining the parts with it gives back the string |
| Text.SplitJoin | fetch_files.py:30 | splitting a join of separator-free parts gives the parts back |
| Text.Contains | fetch_files.py:68 | `needle in hay` is true exactly when the needle occurs contiguously in hay |
| Classifier.IsSpac | fetch_files.py:67-68 | true exactly when `b'blank check company'` occurs contiguously in the content; so content shorter than the marker, including empty content, is never classified |
| Records.Spac.constructor | fetch_files.py:10-16 | a new record holds exactly the five given field values |
| Records.Spac.FetchDocument | fetch_files.py:62-64 | `link_content` becomes the body served at the record's link; no other field changes |
| Dates.ParseIso | fetch_files.py:53 | a successful `strptime` parse is a real calendar date (year 1-9999, the day exists in its month) |
| Dates.Reformat | fetch_files.py:53 | succeeds exactly when the parse succeeds, and then yields the `%B %d, %Y` long form of the parsed date; `Dates.ReformatIsoForm`, `Dates.LongFormInjective` and `Dates.ReformatExample` state what that string is |
| Dates.ParseIsoForm | fetch_files.py:53 | parsing the `YYYY-MM-DD` form of any valid date gives that date back |
| Dates.LongForm | fetch_files.py:53 | `strftime('%B %d, %Y')` is the full month name followed by nine characters: the two-digit day at 8..6 from the end and the four-digit year in the last four |
| Dates.ReformatIsoForm | fetch_files.py:53 | reformatting the `YYYY-MM-DD` form of any valid date gives exactly that date's long form |
| Dates.LongFormInjective | fetch_files.py:53 | two valid dates with the same long form are the same date, so the reformatting loses nothing |
| Dates.ReformatExample | fetch_files.py:53 | `2024-03-04` is reformatted to `March 04, 2024` |
| Resolver.SubmissionsUrl | fetch_files.py:36 | the submissions address: a fixed root, the filer id zero-filled to ten characters, then `.json`; characterised by `Resolver.SubmissionsUrlNamesFiler` |
| Resolver.SubmissionsUrlNamesFiler | fetch_files.py:36 | for an unsigned filer id, the address is the fixed root, an id segment of `max(len, 10)` characters and `.json`, and the id segment names the same number as the filer id |
| Resolver.ZFill | fetch_files.py:36 | `zfill(width)` has length max(len, width) |
| Resolver.ZFillKeepsValue | fetch_files.py:36 | zero-filling an unsigned CIK keeps its digits after the leading zeros |
| Resolver.ZipLength | fetch_files.py:48 | `zip` visits as many positions as the shortest of the four arrays has |
| Resolver.SelectedBelow | fetch_files.py:48-49 | the zipped positions below `n` whose form contains "S-1", in order, each below `n`; characterised by `Resolver.SelectedBelowSpec` |
| Resolver.Selected | fetch_files.py:48-49 | the selected positions over the whole zip; characterised by `Resolver.SelectedBelowSpec` and used by `Resolver.PotentialMatchesSelection` |
| Resolver.SelectedBelowSpec | fetch_files.py:48-49 | a position is selected exactly when it is below the zip length and its form contains "S-1"; selected positions are strictly increasing |
| Resolver.CandidateAt | fetch_files.py:49-56 | the record built at one zipped position: `None` when its date does not parse, otherwise blank name, ticker and content, the reformatted date and the document link; characterised by `Resolver.PotentialRecordsBlank` |
| Resolver.Potential | fetch_files.py:46-59 | the records of the selected positions, in order, or `None` when one of their dates does not parse; characterised by `Resolver.PotentialMatchesSelection` |
| Resolver.PotentialMatchesSelection | fetch_files.py:46-59 | resolution succeeds exactly when every selected position's date parses; it then returns one record per selected position, in order, each the record built from that position |
| Resolver.PotentialRecordsBlank | fetch_files.py:50-56 | every built record has empty name, ticker and content and a non-empty date |
| Resolver.DocumentLink | fetch_files.py:54 | the f-string link: archive root, CIK, accession number without '-', document name, joined by '/'; characterised by `Resolver.LinkSegments` and `Resolver.LinkNamesItsFiler` |
| Resolver.LinkSegments | fetch_files.py:54 | when the CIK, the accession number and the document name hold no '/', a document link splits on '/' into the archive path, the CIK, the accession number with every '-' removed, and the document name; the accession segment holds no '-' |
| Resolver.LinkNamesItsFiler | fetch_files.py:54 | for any CIK without '/' (as every discovered CIK is) and any accession number and document name, filer discovery applied to the built document link yields exactly that CIK |
| Text.Remove | fetch_files.py:54 | `replace(c, "")` leaves no `c` and is no longer than its input |
| Text.RemoveKeepsOthers | fetch_files.py:54 | removal keeps every other character, and changes nothing when `c` is absent |
| Text.RemoveConcat | fetch_files.py:54 | removal distributes over concatenation, so the remaining characters keep their order |
| Resolver.NewCandidate | fetch_files.py:50-56 | fails exactly when the filing date does not parse; otherwise creates a fresh record equal to the one specified for that position |
| Resolver.PotentialSpacs | fetch_files.py:46-59 | succeeds exactly when the specified resolution does; then returns pairwise distinct fresh records whose values are, position by position, the specified records |
| Extractor.FirstStyled | fetch_files.py:73-76 | `find` picks the first paragraph whose style is exactly the name style, and none when no paragraph has it |
| Text.Strip | fetch_files.py:79 | `strip()` leaves a run of the text with only whitespace around it and no whitespace at its ends; it is empty exactly when the text is all whitespace |
| Text.Replace | fetch_files.py:79 | `replace(a, b)` keeps the length and changes exactly the characters equal to `a` |
| Extractor.TidyStrip | fetch_files.py:79 | the stripped text with its newlines turned into spaces has no '\n' and no whitespace at either end, sits in the text with only whitespace around it, and is empty exactly when the text is all whitespace |
| Extractor.Tidy | fetch_files.py:79 | the stripped text with line breaks turned into spaces: no '\n', no whitespace at either end, each character the corresponding character of the text (a newline read as a space) with only whitespace around the run, and empty exactly when the text is all whitespace |
| Extractor.NameOf | fetch_files.py:71-80 | the name is the tidied text of the first name-styled paragraph: it lies in that paragraph's text with only whitespace around it, each character that text's (a newline read as a space); it has no '\n' and no whitespace at its ends; it is empty exactly when there is no name-styled paragraph or the first one's text is all whitespace |
| Text.Words | fetch_files.py:92 | `split()` as the maximal whitespace-free runs in order; characterised by `Text.WordsAreWords`, `Text.WordsOfJoin`, `Text.WordsAtSpace` and `Text.WordsOfWord` |
| Text.WordsAreWords | fetch_files.py:92 | every token of `split()` is non-empty and holds no whitespace |
| Text.WordsOfJoin | fetch_files.py:92 | `split()` of whitespace-free tokens joined by single spaces gives the tokens back |
| Text.WordsAtSpace | fetch_files.py:92 | `split()` cuts at every whitespace character: the words of `a + [c] + b`, for any whitespace `c`, are the words of `a` followed by the words of `b` |
| Text.WordsOfWord | fetch_files.py:92 | a non-empty whitespace-free string splits into itself alone |
| Extractor.Mentioning | fetch_files.py:88-89 | `findAll` never returns more paragraphs than the document has |
| Extractor.MentioningMembers | fetch_files.py:88-89 | `findAll` keeps exactly the paragraphs whose single string contains the phrase |
| Extractor.MentioningConcat | fetch_files.py:87-89 | `findAll` keeps the document order and every occurrence: over a concatenation it is the concatenation of the two results, and on one paragraph it is that paragraph when it mentions the phrase and nothing otherwise |
| Extractor.Elements | fetch_files.py:87-89 | the scanned elements: the paragraphs mentioning "under the symbol", then those mentioning "under the new ticker symbol", each in document order; characterised by `Extractor.MentioningMembers` and `Extractor.MentioningConcat` |
| Extractor.EndsAtSlice | fetch_files.py:95-101 | the word-by-word pattern test agrees with the slice comparison `words[i+1-len(p):i+1] == p` |
| Extractor.WindowTests | fetch_files.py:95-101 | each of the four slice tests the loop writes holds exactly when its pattern ends at `i` |
| Extractor.PatternsExclusive | fetch_files.py:95-101 | each pattern that ends at `i` fixes `words[i-2]` and `words[i]`, and those fixed words differ between patterns, so no two patterns match at the same position |
| Extractor.CandidatesAt | fetch_files.py:95-102 | a visited position yields at most one candidate; it yields one exactly when a pattern ends there, and that candidate is the next token with its first and last character dropped |
| Extractor.TestsAt | fetch_files.py:95-102 | the four tests of one loop body append exactly the candidates specified for that position |
| Extractor.CandidatesBelowSpec | fetch_files.py:94-102 | a string is a candidate from the positions `4 .. hi-1` exactly when some such position announces it |
| Extractor.WordCandidates | fetch_files.py:92-102 | one paragraph's candidates: none for five words or fewer, otherwise those of the positions `4 .. len(words)-2`, in order; characterised by `Extractor.WordCandidatesSpec`, `Extractor.EarlyTriggerMissed` and `Extractor.QuotedSymbolRead`, and computed by `Extractor.ScanWords` |
| Extractor.WordCandidatesSpec | fetch_files.py:94-102 | a string is a candidate of a paragraph exactly when, for some `i` with `4 <= i <= len(words)-2`, one of the four patterns ends at `i` and the string is `words[i+1][1:-1]` |
| Extractor.ScanWords | fetch_files.py:94-102 | the inner loop collects exactly `Extractor.WordCandidates` of the paragraph's words, in scan order |
| Extractor.EarlyTriggerMissed | fetch_files.py:94-102 | a paragraph in which every position where one of the four patterns ends is below 4 or is the last word yields no candidate at all, even when a token follows an early phrase |
| Extractor.CandidatesBelowEmpty | fetch_files.py:94-102 | when no visited position below `hi` announces a ticker, the positions `4 .. hi-1` yield no candidate |
| Extractor.EarlyTriggerExample | fetch_files.py:94 | "Listed under the symbol "ABC" today", whose phrase ends at word 3, yields no candidate |
| Extractor.Unquote | fetch_files.py:96 | `w[1:-1]`: two characters shorter than `w` (empty when `w` has fewer than two), each character the next one of `w` |
| Extractor.QuotedSymbolRead | fetch_files.py:101-102 | "… under the symbol "ABCU" …" ending at word 5 yields exactly the candidate `ABCU` |
| Extractor.AllCandidates | fetch_files.py:91-102 | the unsorted `tickers` list: each scanned element's candidates, concatenated in element order; characterised by `Extractor.CollectSpec` and `Extractor.WordCandidatesSpec` |
| Extractor.CollectSpec | fetch_files.py:91-102 | a string is among the collected candidates exactly when some scanned element yields it |
| Extractor.SortByLength | fetch_files.py:104 | `sort(key=len)` as a stable insertion sort, keeping the number of candidates; `Extractor.SortByLengthSorted` and `Extractor.SortByLengthStable` together fix its whole output |
| Extractor.SortByLengthPermutes | fetch_files.py:104 | the length sort is a permutation of the candidates |
| Extractor.SortByLengthSorted | fetch_files.py:104 | the length sort orders by non-decreasing length |
| Extractor.SortByLengthStable | fetch_files.py:104 | the sort is stable: for every length, the candidates of that length appear in the output in their input order |
| Extractor.SortByLengthHead | fetch_files.py:104 | the stable sort puts first the earliest candidate of least length |
| Extractor.Shortest | fetch_files.py:104-106 | `tickers[0] if tickers else ''` after the sort; characterised by `Extractor.ShortestSpec` |
| Extractor.ShortestSpec | fetch_files.py:104-106 | the ticker is `''` with no candidates; otherwise it is the first candidate of least length; it is `''` whenever some candidate is `''` |
| Extractor.TickerSpec | fetch_files.py:83-106 | what `get_ticker_of_spac` returns: the first shortest candidate of the scanned elements, or `''`; characterised by `Extractor.ShortestSpec`, `Extractor.TickerIsAnnounced` and `Extractor.ShortTokenBlanksTicker`, and computed by `Extractor.TickerOf` |
| Extractor.TickerIsAnnounced | fetch_files.py:91-106 | a non-empty ticker is the unquoted token after a visited position of some scanned paragraph where one of the four patterns ends |
| Extractor.ShortTokenBlanksTicker | fetch_files.py:96-106 | a pattern followed by a token of one character makes the ticker `''`, whatever else the document announces |
| Extractor.TickerOf | fetch_files.py:83-106 | the loops, sort and pick return exactly the specified ticker (the first of the shortest candidates, or `''`) |
| Aggregator.Fill | fetch_files.py:136-147 | one classified filing's four tests: each accumulator field still empty takes the offered value; characterised by `Aggregator.SetFieldsStay` |
| Aggregator.MergeAll | fetch_files.py:129-147 | the accumulator after the classified filings' offers, in order, from an empty one; characterised by `Aggregator.MergeIsFirstNonEmpty` |
| Aggregator.Offer | fetch_files.py:130-147 | what one filing offers the accumulator: nothing when its fetched document is not classified, otherwise its name, ticker, date and link; characterised by `Aggregator.UnclassifiedIgnored` and `Aggregator.OfferedDate` |
| Aggregator.FilerRecord | fetch_files.py:127-147 | one filer's merged record: the merge of its resolved filings' offers, in filing order; characterised by `Aggregator.MergeIsFirstNonEmpty`, `Aggregator.UnclassifiedIgnored` and `Aggregator.DateFromFirstClassified` |
| Aggregator.FilerOutcome | fetch_files.py:126-147 | one filer's merged record, or `None` when resolving its filings raises; computed by `Aggregator.VisitFiler` |
| Aggregator.FirstNonEmpty | fetch_files.py:136-147 | `''` exactly when all values are empty; otherwise a value at some position with only empty values before it |
| Aggregator.MergeIsFirstNonEmpty | fetch_files.py:136-147 | each of name, ticker, date and link of the accumulator is the first non-empty value of that field among the classified filings, in filing order |
| Aggregator.SetFieldsStay | fetch_files.py:136-147 | a field once set is never overwritten by any later filings |
| Aggregator.Absorb | fetch_files.py:136-147 | the four tests fill exactly the accumulator fields that are still empty with the offered non-empty values; the content stays unchanged |
| Aggregator.Offered | fetch_files.py:129-135 | the offers of one filer's filings in filing order, the unclassified ones skipped by `continue`; characterised by `Aggregator.OfferedSpec` and `Aggregator.OfferedSnoc`, and merged by `Aggregator.FilerRecord` |
| Aggregator.OfferedSpec | fetch_files.py:129-135 | the merge sees a value exactly when some filing offers it |
| Aggregator.OfferedSnoc | fetch_files.py:129-147 | one more filing changes the accumulator by its offer alone, if it makes one |
| Aggregator.UnclassifiedIgnored | fetch_files.py:132-133 | a filing whose document lacks the blank-check marker leaves the filer's record unchanged |
| Aggregator.OfferedDate | fetch_files.py:143-144 | if every filing has a date and every offer carries its filing's date, the merged date is empty exactly when no filing offers, and otherwise it is the first offering filing's date |
| Aggregator.DateFromFirstClassified | fetch_files.py:143-144 | for resolved filings, the filer's date is empty exactly when no document is classified, and otherwise it is the first classified filing's date |
| Aggregator.MergeOne | fetch_files.py:129-147 | the filing's content becomes the fetched body; the accumulator is unchanged when the filing is not classified, and otherwise is filled from the filing's name, ticker, date and link |
| Aggregator.MergeFiler | fetch_files.py:127-147 | a fresh accumulator ends as the first-non-empty merge of the classified filings' offers, in filing order, with empty content |
| Aggregator.Published | fetch_files.py:125-150 | the list after visiting the filers in order: a merged record is appended when its name and ticker are non-empty, and `None` once a resolution fails; characterised by `Aggregator.PublishedSpec` and `Aggregator.PublishedSnoc` |
| Aggregator.PublishedSpec | fetch_files.py:125-150 | the run fails exactly when some visited filer's resolution fails; otherwise a record is published exactly when it has a name and a ticker and is some visited filer's merged record |
| Aggregator.PublishedSnoc | fetch_files.py:149-150 | the definition of `Aggregator.Published` unfolded at the last filer: one more filer appends its record when name and ticker are non-empty, and fails when its resolution fails; the publish-exactly-when promise over all filers is `Aggregator.PublishedSpec` |
| Aggregator.VisitFiler | fetch_files.py:126-147 | fails exactly when the filer's resolution fails; otherwise returns a fresh record with the filer's specified merged fields |
| Aggregator.Visit | fetch_files.py:125-150 | one turn of the filer loop moves the published list to the specified list after one more filer |
| Aggregator.VisitAll | fetch_files.py:125-150 | visits each filer id at most once and all of them unless it fails; its result equals the specified published list for the order taken |
| Aggregator.Run | fetch_files.py:119-150 | fails when some link lacks a filer segment; otherwise visits each discovered filer once and publishes exactly the specified records, fresh and with empty content |

## Left out

- HTTP is not modelled: the GETs of the feed, the submissions JSON and each document, and the final POST (fetch_files.py:19-23, 36-37, 62-64, 109-115). Their results are the parameters `history` and `fetch`, and the POST is not modelled.
- `print` of the payload (fetch_files.py:114) is output only.
- XML parsing of the Atom feed and JSON decoding of the submissions (fetch_files.py:23, 27-29, 37-44) are foreign libraries. The model takes the link `href` values and the four decoded arrays as inputs.
- BeautifulSoup is a foreign library (fetch_files.py:72-73, 84-89), so HTML parsing is not modelled. A document is the sequence of its `<p>` elements, each with its style, `.text` and `.string`; the parameter `parse` produces it.
- The regular expressions passed to `findAll` hold no special characters, so they are modelled as substring tests on `.string`.
- The feed's `href` attribute lookup and Atom tag filtering are also part of the XML parsing and are not modelled.
- `strptime` is modelled on ASCII digits only: the `\d` in Python's `%Y` pattern (`\d\d\d\d`) and in the `[12]\d` branch of its `%d` pattern also accepts other Unicode decimal digits. The `%m` pattern (`1[0-2]|0[1-9]|[1-9]`) holds only ASCII digits.
- `%Y` in `strftime` is modelled as four zero-padded digits. For years below 1000 Python's output depends on the platform C library.
- A filer's history arrives in full, so the network errors, non-JSON bodies and missing keys that would raise in the script are not modelled.
- The `tuple(...)` conversion of the resolved records is not modelled: the model keeps them as a sequence.
- Python's set iteration order is not modelled: the filer order is chosen nondeterministically and returned as a ghost value.
- Aggregator.MergeFiler: its contract does not restate that every resolved filing's content was replaced by its fetched body. That step is stated per filing by `Aggregator.MergeOne`.
